/** The canonical encoding as pure functions, and the two-sided inverse law
    (src/format/codec.py). */
module CodecSpec {
  import opened ByteStrings
  import opened Model
  import opened Wire
  import opened Validation
  import opened Sums

  // ---- fields of the records ----

  /** Text travels as UTF-8. Bytes that are not UTF-8 are no string at all. */
  function WriteText(width: nat, text: Bytes): (r: Result<Bytes>)
  {
    if ValidUtf8(text) then WriteBytes(width, text) else Err(OutOfRange)
  }

  function ReadText(width: nat, b: Bytes): (r: Read<Bytes>)
  {
    var (raw, rest) :- ReadBytes(width, b);
    if ValidUtf8(raw) then Ok((raw, rest)) else Err(NotCanonical)
  }

  function EntryKindTag(kind: EntryKind): (tag: Byte)
  {
    match kind case TreeKind => 1 case BlobKind => 2 case SymlinkKind => 3 case ConflictKind => 4
  }

  function EntryKindOf(tag: int): (kind: Result<EntryKind>)
  {
    if tag == 1 then Ok(TreeKind) else if tag == 2 then Ok(BlobKind)
    else if tag == 3 then Ok(SymlinkKind) else if tag == 4 then Ok(ConflictKind)
    else Err(Malformed)
  }

  function WriteBlobEntry(e: BlobEntry): (r: Result<Bytes>)
  {
    if e.size <= 0 then Err(NotCanonical) else Then(WriteName(e.target), WriteUint(8, e.size))
  }

  function ReadBlobEntry(b: Bytes): (r: Read<BlobEntry>)
  {
    var (target, b1) :- ReadName(b);
    var (size, b2) :- ReadUint(8, b1);
    if size <= 0 then Err(NotCanonical) else Ok((BlobEntry(target, size), b2))
  }

  function WriteReference(target: Name, mode: int, size: int): (r: Result<Bytes>)
  {
    Then(WriteName(target), Then(WriteUint(2, mode), WriteUint(8, size)))
  }

  function ReadReference(b: Bytes): (r: Read<(Name, int, int)>)
  {
    var (target, b1) :- ReadName(b);
    var (mode, b2) :- ReadUint(2, b1);
    var (size, b3) :- ReadUint(8, b2);
    Ok(((target, mode, size), b3))
  }

  function WriteTreeEntry(e: TreeEntry): (r: Result<Bytes>)
  {
    Then(WriteBytes(1, e.name),
         Then(WriteUint(1, EntryKindTag(e.kind)), WriteReference(e.target, e.mode, e.size)))
  }

  function ReadTreeEntry(b: Bytes): (r: Read<TreeEntry>)
  {
    var (name, b1) :- ReadBytes(1, b);
    var (tag, b2) :- ReadUint(1, b1);
    var kind :- EntryKindOf(tag);
    var ((target, mode, size), b3) :- ReadReference(b2);
    Ok((TreeEntry(name, kind, target, mode, size), b3))
  }

  function WriteMetadata(pair: (Bytes, Bytes)): (r: Result<Bytes>)
  {
    Then(WriteText(1, pair.0), WriteText(4, pair.1))
  }

  function ReadMetadata(b: Bytes): (r: Read<(Bytes, Bytes)>)
  {
    var (key, b1) :- ReadText(1, b);
    var (value, b2) :- ReadText(4, b1);
    Ok(((key, value), b2))
  }

  // ---- payloads ----

  /** Level and count, which every node starts with. */
  function WriteNodeHeader(level: int, count: nat): (r: Result<Bytes>)
  {
    Then(WriteUint(1, level), WriteUint(4, count))
  }

  function WriteNode<T>(level: int, write: T -> Result<Bytes>, xs: seq<T>): (r: Result<Bytes>)
  {
    Then(WriteNodeHeader(level, |xs|), WriteAll(write, xs))
  }

  function ReadNode<T>(read: Bytes -> Read<T>, b: Bytes): (r: Read<(int, seq<T>)>)
  {
    var (level, b1) :- ReadUint(1, b);
    var (count, b2) :- ReadUint(4, b1);
    var (xs, b3) :- ReadAll(read, count, b2);
    Ok(((level, xs), b3))
  }

  function WriteAncestry(tree: Name, parents: seq<Name>, changeId: Bytes): (r: Result<Bytes>)
  {
    Then(WriteName(tree),
         Then(WriteUint(2, |parents|),
              Then(WriteAll(WriteName, parents), WriteRaw(CHANGE_ID_BYTES, changeId))))
  }

  function ReadAncestry(b: Bytes): (r: Read<(Name, seq<Name>, Bytes)>)
  {
    var (tree, b1) :- ReadName(b);
    var (count, b2) :- ReadUint(2, b1);
    var (parents, b3) :- ReadAll(ReadName, count, b2);
    var (changeId, b4) :- Take(b3, CHANGE_ID_BYTES);
    Ok(((tree, parents, changeId), b4))
  }

  function WriteAuthors(author: Bytes, committer: Bytes, timestampUs: int): (r: Result<Bytes>)
  {
    Then(WriteText(1, author), Then(WriteText(1, committer), WriteI64(timestampUs)))
  }

  function ReadAuthors(b: Bytes): (r: Read<(Bytes, Bytes, int)>)
  {
    var (author, b1) :- ReadText(1, b);
    var (committer, b2) :- ReadText(1, b1);
    var (timestamp, b3) :- ReadI64(b2);
    Ok(((author, committer, timestamp), b3))
  }

  function WriteDetails(message: Bytes, metadata: seq<(Bytes, Bytes)>): (r: Result<Bytes>)
  {
    Then(WriteText(4, message), Then(WriteUint(4, |metadata|), WriteAll(WriteMetadata, metadata)))
  }

  function ReadDetails(b: Bytes): (r: Read<(Bytes, seq<(Bytes, Bytes)>)>)
  {
    var (message, b1) :- ReadText(4, b);
    var (count, b2) :- ReadUint(4, b1);
    var (metadata, b3) :- ReadAll(ReadMetadata, count, b2);
    Ok(((message, metadata), b3))
  }

  function WriteCommit(o: Object): (r: Result<Bytes>)
    requires o.Commit?
  {
    Then(WriteAncestry(o.tree, o.parents, o.changeId),
         Then(WriteAuthors(o.author, o.committer, o.timestampUs), WriteDetails(o.message, o.metadata)))
  }

  function ReadCommit(b: Bytes): (r: Read<Object>)
    ensures r.Ok? ==> r.value.0.Commit?
  {
    var ((tree, parents, changeId), b1) :- ReadAncestry(b);
    var ((author, committer, timestamp), b2) :- ReadAuthors(b1);
    var ((message, metadata), b3) :- ReadDetails(b2);
    Ok((Commit(tree, parents, changeId, author, committer, timestamp, message, metadata), b3))
  }

  // ---- whole objects ----

  function KindTag(o: Object): (tag: Byte)
  {
    match o case Chunk(_) => 1 case Blob(_, _) => 2 case Tree(_, _) => 3 case Commit(_, _, _, _, _, _, _, _) => 4
  }

  function Fits(body: Bytes): (r: Result<Bytes>)
  {
    if HEADER_BYTES + |body| > MAX_NODE_BYTES then Err(NotCanonical) else Ok(body)
  }

  predicate ChunkOk(data: Bytes)
  {
    1 <= |data| <= MAX_CHUNK_BYTES
  }

  function EncodePayload(o: Object): (r: Result<Bytes>)
  {
    match o
    case Chunk(data) => if ChunkOk(data) then Ok(data) else Err(NotCanonical)
    case Blob(level, children) =>
      if !NodeLevelOk(level, |children|) then Err(NotCanonical) else
      var body :- WriteNode(level, WriteBlobEntry, children);
      Fits(body)
    case Tree(level, entries) =>
      if !NodeLevelOk(level, |entries|) || !TreeEntriesOk(level, entries) then Err(NotCanonical) else
      var body :- WriteNode(level, WriteTreeEntry, entries);
      Fits(body)
    case Commit(_, _, _, _, _, _, _, _) => if CommitOk(o) then WriteCommit(o) else Err(NotCanonical)
  }

  function Encode(o: Object): (r: Result<Bytes>)
  {
    var payload :- EncodePayload(o);
    Ok([KindTag(o), FORMAT_VERSION] + payload)
  }

  function DecodeBlob(b: Bytes): (r: Read<Object>)
  {
    var ((level, children), rest) :- ReadNode(ReadBlobEntry, b);
    if !NodeLevelOk(level, |children|) || HEADER_BYTES + |b| > MAX_NODE_BYTES then Err(NotCanonical)
    else Ok((Blob(level, children), rest))
  }

  function DecodeTree(b: Bytes): (r: Read<Object>)
  {
    var ((level, entries), rest) :- ReadNode(ReadTreeEntry, b);
    if !NodeLevelOk(level, |entries|) || !TreeEntriesOk(level, entries) || HEADER_BYTES + |b| > MAX_NODE_BYTES
    then Err(NotCanonical)
    else Ok((Tree(level, entries), rest))
  }

  function DecodeCommit(b: Bytes): (r: Read<Object>)
  {
    var (commit, rest) :- ReadCommit(b);
    if CommitOk(commit) then Ok((commit, rest)) else Err(NotCanonical)
  }

  /** A payload of the tagged kind, and what follows it. */
  function DecodePayload(tag: Byte, b: Bytes): (r: Read<Object>)
    requires 1 <= tag <= 4
  {
    if tag == 1 then if ChunkOk(b) then Ok((Chunk(b), [])) else Err(NotCanonical)
    else if tag == 2 then DecodeBlob(b)
    else if tag == 3 then DecodeTree(b)
    else DecodeCommit(b)
  }

  function Decode(framed: Bytes): (r: Result<Object>)
  {
    if |framed| < HEADER_BYTES || !(1 <= framed[0] <= 4) then Err(Malformed)
    else if framed[1] != FORMAT_VERSION then Err(UnsupportedVersion)
    else
      var (o, rest) :- DecodePayload(framed[0], framed[HEADER_BYTES..]);
      if rest == [] then Ok(o) else Err(Malformed)
  }

  // ---- record laws ----

  lemma TextLaws(width: nat, text: Bytes, rest: Bytes)
    ensures WriteText(width, text).Ok? ==> ReadText(width, WriteText(width, text).value + rest) == Ok((text, rest))
    ensures ReadText(width, rest).Ok? ==>
              Then(WriteText(width, ReadText(width, rest).value.0), Ok(ReadText(width, rest).value.1)) == Ok(rest)
  {
    BytesLaws(width, text, rest);
  }

  lemma BlobEntryLaws(e: BlobEntry, b: Bytes)
    ensures WriteBlobEntry(e).Ok? ==> ReadBlobEntry(WriteBlobEntry(e).value + b) == Ok((e, b))
    ensures ReadBlobEntry(b).Ok? ==>
              Then(WriteBlobEntry(ReadBlobEntry(b).value.0), Ok(ReadBlobEntry(b).value.1)) == Ok(b)
  {
    hide WriteName, ReadName, WriteUint, ReadUint;
    if WriteBlobEntry(e).Ok? {
      var t, s := WriteName(e.target).value, WriteUint(8, e.size).value;
      assert (t + s) + b == t + (s + b);
      NameLaws(e.target, s + b);
      UintLaws(8, e.size, b);
    }
    if ReadBlobEntry(b).Ok? {
      var (target, b1) := ReadName(b).value;
      var (size, b2) := ReadUint(8, b1).value;
      NameLaws(target, b);
      UintLaws(8, size, b1);
      ThenAssociates(WriteName(target), WriteUint(8, size), Ok(b2));
    }
  }

  lemma ReferenceLaws(target: Name, mode: int, size: int, b: Bytes)
    ensures WriteReference(target, mode, size).Ok? ==>
              ReadReference(WriteReference(target, mode, size).value + b) == Ok(((target, mode, size), b))
    ensures ReadReference(b).Ok? ==>
              var ((t, m, s), rest) := ReadReference(b).value;
              Then(WriteReference(t, m, s), Ok(rest)) == Ok(b)
  {
    hide WriteName, ReadName, WriteUint, ReadUint;
    if WriteReference(target, mode, size).Ok? {
      var t, m, s := WriteName(target).value, WriteUint(2, mode).value, WriteUint(8, size).value;
      var b1 := m + (s + b);
      assert WriteReference(target, mode, size).value + b == t + b1;
      NameLaws(target, b1);
      UintLaws(2, mode, s + b);
      UintLaws(8, size, b);
    }
    if ReadReference(b).Ok? {
      var (t, b1) := ReadName(b).value;
      var (m, b2) := ReadUint(2, b1).value;
      var (s, b3) := ReadUint(8, b2).value;
      NameLaws(target, b);
      UintLaws(2, 0, b1);
      UintLaws(8, 0, b2);
      ThenAssociates(WriteUint(2, m), WriteUint(8, s), Ok(b3));
      ThenAssociates(WriteName(t), Then(WriteUint(2, m), WriteUint(8, s)), Ok(b3));
    }
  }

  lemma TreeEntryReadsBack(e: TreeEntry, b: Bytes)
    requires WriteTreeEntry(e).Ok?
    ensures ReadTreeEntry(WriteTreeEntry(e).value + b) == Ok((e, b))
  {
    hide WriteBytes, ReadBytes, WriteUint, ReadUint, WriteReference, ReadReference;
    var tag: int := EntryKindTag(e.kind);
    var n, k := WriteBytes(1, e.name).value, WriteUint(1, tag).value;
    var b2 := WriteReference(e.target, e.mode, e.size).value + b;
    var b1 := k + b2;
    assert WriteTreeEntry(e).value + b == n + b1;
    BytesLaws(1, e.name, b1);
    UintLaws(1, tag, b2);
    ReferenceLaws(e.target, e.mode, e.size, b);
  }

  lemma TreeEntryWritesBack(b: Bytes)
    requires ReadTreeEntry(b).Ok?
    ensures Then(WriteTreeEntry(ReadTreeEntry(b).value.0), Ok(ReadTreeEntry(b).value.1)) == Ok(b)
  {
    hide WriteBytes, ReadBytes, WriteUint, ReadUint, WriteReference, ReadReference, Then;
    var (name, b1) := ReadBytes(1, b).value;
    var (tag, b2) := ReadUint(1, b1).value;
    var ((target, mode, size), b3) := ReadReference(b2).value;
    BytesLaws(1, [], b);
    UintLaws(1, 0, b1);
    ReferenceLaws(target, 0, 0, b2);
    var n, k, r := WriteBytes(1, name), WriteUint(1, tag), WriteReference(target, mode, size);
    ThenAssociates(k, r, Ok(b3));
    ThenAssociates(n, Then(k, r), Ok(b3));
  }

  lemma MetadataLaws(pair: (Bytes, Bytes), b: Bytes)
    ensures WriteMetadata(pair).Ok? ==> ReadMetadata(WriteMetadata(pair).value + b) == Ok((pair, b))
    ensures ReadMetadata(b).Ok? ==>
              Then(WriteMetadata(ReadMetadata(b).value.0), Ok(ReadMetadata(b).value.1)) == Ok(b)
  {
    hide WriteText, ReadText;
    if WriteMetadata(pair).Ok? {
      var k, v := WriteText(1, pair.0).value, WriteText(4, pair.1).value;
      assert (k + v) + b == k + (v + b);
      TextLaws(1, pair.0, v + b);
      TextLaws(4, pair.1, b);
    }
    if ReadMetadata(b).Ok? {
      var (key, b1) := ReadText(1, b).value;
      var (value, b2) := ReadText(4, b1).value;
      TextLaws(1, key, b);
      TextLaws(4, value, b1);
      ThenAssociates(WriteText(1, key), WriteText(4, value), Ok(b2));
    }
  }

  lemma ElementsLawful()
    ensures Lawful(WriteBlobEntry, ReadBlobEntry)
    ensures Lawful(WriteTreeEntry, ReadTreeEntry)
    ensures Lawful(WriteMetadata, ReadMetadata)
  {
    forall e: BlobEntry, b: Bytes | WriteBlobEntry(e).Ok?
      ensures ReadBlobEntry(WriteBlobEntry(e).value + b) == Ok((e, b))
    {
      BlobEntryLaws(e, b);
    }
    forall b: Bytes | ReadBlobEntry(b).Ok?
      ensures Then(WriteBlobEntry(ReadBlobEntry(b).value.0), Ok(ReadBlobEntry(b).value.1)) == Ok(b)
    {
      BlobEntryLaws(BlobEntry(Name([]), 0), b);
    }
    forall e: TreeEntry, b: Bytes | WriteTreeEntry(e).Ok?
      ensures ReadTreeEntry(WriteTreeEntry(e).value + b) == Ok((e, b))
    {
      TreeEntryReadsBack(e, b);
    }
    forall b: Bytes | ReadTreeEntry(b).Ok?
      ensures Then(WriteTreeEntry(ReadTreeEntry(b).value.0), Ok(ReadTreeEntry(b).value.1)) == Ok(b)
    {
      TreeEntryWritesBack(b);
    }
    forall pair: (Bytes, Bytes), b: Bytes | WriteMetadata(pair).Ok?
      ensures ReadMetadata(WriteMetadata(pair).value + b) == Ok((pair, b))
    {
      MetadataLaws(pair, b);
    }
    forall b: Bytes | ReadMetadata(b).Ok?
      ensures Then(WriteMetadata(ReadMetadata(b).value.0), Ok(ReadMetadata(b).value.1)) == Ok(b)
    {
      MetadataLaws(([], []), b);
    }
  }

  lemma NodeReadsBack<T(!new)>(level: int, write: T -> Result<Bytes>, read: Bytes -> Read<T>, xs: seq<T>)
    requires Lawful(write, read)
    requires WriteNode(level, write, xs).Ok?
    ensures ReadNode(read, WriteNode(level, write, xs).value) == Ok(((level, xs), []))
  {
    var l, c, body := WriteUint(1, level).value, WriteUint(4, |xs|).value, WriteAll(write, xs).value;
    var b2 := body + [];
    var b1 := c + b2;
    assert WriteNode(level, write, xs).value == l + b1;
    UintLaws(1, level, b1);
    UintLaws(4, |xs|, b2);
    AllReadsBack(write, read, xs, []);
  }

  lemma NodeWritesBack<T(!new)>(write: T -> Result<Bytes>, read: Bytes -> Read<T>, b: Bytes)
    requires Lawful(write, read)
    requires ReadNode(read, b).Ok?
    ensures var ((level, xs), rest) := ReadNode(read, b).value;
            Then(WriteNode(level, write, xs), Ok(rest)) == Ok(b)
  {
    var (level, b1) := ReadUint(1, b).value;
    var (count, b2) := ReadUint(4, b1).value;
    var (xs, b3) := ReadAll(read, count, b2).value;
    UintLaws(1, 0, b);
    UintLaws(4, 0, b1);
    AllWritesBack(write, read, count, b2);
    ThenAssociates(WriteNodeHeader(level, |xs|), WriteAll(write, xs), Ok(b3));
    ThenAssociates(WriteUint(1, level), WriteUint(4, |xs|), Ok(b2));
  }

  lemma AuthorsLaws(author: Bytes, committer: Bytes, timestampUs: int, b: Bytes)
    ensures WriteAuthors(author, committer, timestampUs).Ok? ==>
              ReadAuthors(WriteAuthors(author, committer, timestampUs).value + b)
              == Ok(((author, committer, timestampUs), b))
    ensures ReadAuthors(b).Ok? ==>
              var ((a, c, t), rest) := ReadAuthors(b).value;
              Then(WriteAuthors(a, c, t), Ok(rest)) == Ok(b)
  {
    hide WriteText, ReadText, WriteI64, ReadI64;
    if WriteAuthors(author, committer, timestampUs).Ok? {
      var a, c, t := WriteText(1, author).value, WriteText(1, committer).value, WriteI64(timestampUs).value;
      var b1 := c + (t + b);
      assert WriteAuthors(author, committer, timestampUs).value + b == a + b1;
      TextLaws(1, author, b1);
      TextLaws(1, committer, t + b);
      I64Laws(timestampUs, b);
    }
    if ReadAuthors(b).Ok? {
      var (a, b1) := ReadText(1, b).value;
      var (c, b2) := ReadText(1, b1).value;
      var (t, b3) := ReadI64(b2).value;
      TextLaws(1, [], b);
      TextLaws(1, [], b1);
      I64Laws(0, b2);
      ThenAssociates(WriteText(1, c), WriteI64(t), Ok(b3));
      ThenAssociates(WriteText(1, a), Then(WriteText(1, c), WriteI64(t)), Ok(b3));
    }
  }

  lemma DetailsReadsBack(message: Bytes, metadata: seq<(Bytes, Bytes)>, b: Bytes)
    requires WriteDetails(message, metadata).Ok?
    ensures ReadDetails(WriteDetails(message, metadata).value + b) == Ok(((message, metadata), b))
  {
    hide WriteText, ReadText, WriteUint, ReadUint, WriteAll, ReadAll;
    ElementsLawful();
    var m, n := WriteText(4, message).value, WriteUint(4, |metadata|).value;
    var d := WriteAll(WriteMetadata, metadata).value;
    var b1 := n + (d + b);
    assert WriteDetails(message, metadata).value + b == m + b1;
    TextLaws(4, message, b1);
    UintLaws(4, |metadata|, d + b);
    AllReadsBack(WriteMetadata, ReadMetadata, metadata, b);
  }

  lemma DetailsWritesBack(b: Bytes)
    requires ReadDetails(b).Ok?
    ensures var ((message, metadata), rest) := ReadDetails(b).value;
            Then(WriteDetails(message, metadata), Ok(rest)) == Ok(b)
  {
    hide WriteText, ReadText, WriteUint, WriteAll;
    ElementsLawful();
    var (message, b1) := ReadText(4, b).value;
    var (count, b2) := ReadUint(4, b1).value;
    var (metadata, b3) := ReadAll(ReadMetadata, count, b2).value;
    TextLaws(4, [], b);
    UintLaws(4, 0, b1);
    AllWritesBack(WriteMetadata, ReadMetadata, count, b2);
    var m, n, d := WriteText(4, message), WriteUint(4, |metadata|), WriteAll(WriteMetadata, metadata);
    ThenAssociates(n, d, Ok(b3));
    ThenAssociates(m, Then(n, d), Ok(b3));
  }

  lemma AncestryReadsBack(tree: Name, parents: seq<Name>, changeId: Bytes, rest: Bytes)
    requires WriteAncestry(tree, parents, changeId).Ok?
    ensures ReadAncestry(WriteAncestry(tree, parents, changeId).value + rest) == Ok(((tree, parents, changeId), rest))
  {
    hide WriteName, ReadName, WriteUint, ReadUint, WriteAll, ReadAll;
    var t, n, p := WriteName(tree).value, WriteUint(2, |parents|).value, WriteAll(WriteName, parents).value;
    var b3 := changeId + rest;
    var b2 := p + b3;
    var b1 := n + b2;
    assert WriteAncestry(tree, parents, changeId).value + rest == t + b1;
    NameLaws(tree, b1);
    UintLaws(2, |parents|, b2);
    NameLawful();
    AllReadsBack(WriteName, ReadName, parents, b3);
    TakeOfConcat(changeId, rest);
  }

  lemma AncestryWritesBack(b: Bytes)
    requires ReadAncestry(b).Ok?
    ensures var ((tree, parents, changeId), rest) := ReadAncestry(b).value;
            Then(WriteAncestry(tree, parents, changeId), Ok(rest)) == Ok(b)
  {
    hide WriteName, ReadName, WriteUint, WriteAll;
    var (tree, b1) := ReadName(b).value;
    var (count, b2) := ReadUint(2, b1).value;
    var (parents, b3) := ReadAll(ReadName, count, b2).value;
    var (changeId, b4) := Take(b3, CHANGE_ID_BYTES).value;
    NameLaws(tree, b);
    UintLaws(2, 0, b1);
    NameLawful();
    AllWritesBack(WriteName, ReadName, count, b2);
    assert b3 == changeId + b4;
    var t, n, p := WriteName(tree), WriteUint(2, |parents|), WriteAll(WriteName, parents);
    var i := WriteRaw(CHANGE_ID_BYTES, changeId);
    ThenAssociates(p, i, Ok(b4));
    ThenAssociates(n, Then(p, i), Ok(b4));
    ThenAssociates(t, Then(n, Then(p, i)), Ok(b4));
  }

  lemma CommitReadsBack(o: Object)
    requires o.Commit? && WriteCommit(o).Ok?
    ensures ReadCommit(WriteCommit(o).value) == Ok((o, []))
  {
    var n := WriteAncestry(o.tree, o.parents, o.changeId).value;
    var a := WriteAuthors(o.author, o.committer, o.timestampUs).value;
    var d := WriteDetails(o.message, o.metadata).value;
    assert WriteCommit(o).value == n + (a + (d + []));
    AncestryReadsBack(o.tree, o.parents, o.changeId, a + (d + []));
    AuthorsLaws(o.author, o.committer, o.timestampUs, d + []);
    DetailsReadsBack(o.message, o.metadata, []);
  }

  lemma CommitWritesBack(b: Bytes)
    requires ReadCommit(b).Ok?
    ensures var (o, rest) := ReadCommit(b).value;
            Then(WriteCommit(o), Ok(rest)) == Ok(b)
  {
    var ((tree, parents, changeId), b1) := ReadAncestry(b).value;
    var ((author, committer, timestamp), b2) := ReadAuthors(b1).value;
    var ((message, metadata), rest) := ReadDetails(b2).value;
    AncestryWritesBack(b);
    AuthorsLaws([], [], 0, b1);
    DetailsWritesBack(b2);
    var n, a := WriteAncestry(tree, parents, changeId), WriteAuthors(author, committer, timestamp);
    var d := WriteDetails(message, metadata);
    ThenAssociates(a, d, Ok(rest));
    ThenAssociates(n, Then(a, d), Ok(rest));
  }

  // ---- the two-sided inverse ----

  /** Every object that encodes decodes to itself. */
  lemma DecodeOfEncode(o: Object)
    requires Encode(o).Ok?
    ensures Decode(Encode(o).value) == Ok(o)
  {
    ElementsLawful();
    var framed, payload := Encode(o).value, EncodePayload(o).value;
    assert framed[HEADER_BYTES..] == payload;
    match o {
      case Chunk(_) =>
      case Blob(level, children) => NodeReadsBack(level, WriteBlobEntry, ReadBlobEntry, children);
      case Tree(level, entries) => NodeReadsBack(level, WriteTreeEntry, ReadTreeEntry, entries);
      case Commit(_, _, _, _, _, _, _, _) => CommitReadsBack(o);
    }
  }

  lemma BlobWritesBack(b: Bytes)
    requires DecodeBlob(b).Ok? && DecodeBlob(b).value.1 == []
    ensures var o := DecodeBlob(b).value.0;
            o.Blob? && EncodePayload(o) == Ok(b)
  {
    ElementsLawful();
    NodeWritesBack(WriteBlobEntry, ReadBlobEntry, b);
    var ((level, children), rest) := ReadNode(ReadBlobEntry, b).value;
    ThenNothing(WriteNode(level, WriteBlobEntry, children));
  }

  lemma TreeWritesBack(b: Bytes)
    requires DecodeTree(b).Ok? && DecodeTree(b).value.1 == []
    ensures var o := DecodeTree(b).value.0;
            o.Tree? && EncodePayload(o) == Ok(b)
  {
    ElementsLawful();
    NodeWritesBack(WriteTreeEntry, ReadTreeEntry, b);
    var ((level, entries), rest) := ReadNode(ReadTreeEntry, b).value;
    ThenNothing(WriteNode(level, WriteTreeEntry, entries));
  }

  lemma CommitAloneWritesBack(b: Bytes, o: Object)
    requires ReadCommit(b) == Ok((o, []))
    ensures o.Commit? && WriteCommit(o) == Ok(b)
  {
    CommitWritesBack(b);
    ThenNothing(WriteCommit(o));
  }

  lemma PayloadWritesBack(tag: Byte, b: Bytes)
    requires 1 <= tag <= 4
    requires DecodePayload(tag, b).Ok? && DecodePayload(tag, b).value.1 == []
    ensures var o := DecodePayload(tag, b).value.0;
            KindTag(o) == tag && EncodePayload(o) == Ok(b)
  {
    hide ReadNode, ReadCommit, WriteCommit, WriteNode, TreeEntriesOk, CommitOk;
    if tag == 2 {
      BlobWritesBack(b);
    } else if tag == 3 {
      TreeWritesBack(b);
    } else if tag == 4 {
      var (o, rest) := DecodeCommit(b).value;
      CommitAloneWritesBack(b, o);
    }
  }

  /** Every byte string that decodes is the encoding of what it means: there is no
      second spelling. */
  lemma EncodeOfDecode(framed: Bytes)
    requires Decode(framed).Ok?
    ensures Encode(Decode(framed).value) == Ok(framed)
  {
    hide DecodePayload, EncodePayload;
    var payload := framed[HEADER_BYTES..];
    var (o, rest) := DecodePayload(framed[0], payload).value;
    assert rest == [] && Decode(framed) == Ok(o);
    PayloadWritesBack(framed[0], payload);
    assert framed == [framed[0], framed[1]] + payload;
  }

  /** One content has one name: two objects never share an encoding, and two
      accepted byte strings never mean one object. */
  lemma EncodingIsABijection(a: Object, b: Object, x: Bytes, y: Bytes)
    ensures Encode(a).Ok? && Encode(b).Ok? && Encode(a) == Encode(b) ==> a == b
    ensures Decode(x).Ok? && Decode(y).Ok? && Decode(x) == Decode(y) ==> x == y
    ensures Decode(x) == Ok(a) <==> Encode(a) == Ok(x)
  {
    if Encode(a).Ok? { DecodeOfEncode(a); }
    if Encode(b).Ok? { DecodeOfEncode(b); }
    if Decode(x).Ok? { EncodeOfDecode(x); }
    if Decode(y).Ok? { EncodeOfDecode(y); }
  }

  // ---- which objects have an encoding ----

  function TreeEntryBytes(e: TreeEntry): (size: nat)
  {
    1 + |e.name| + 1 + 32 + 2 + 8
  }

  const BLOB_ENTRY_BYTES: nat := 40

  /** Header, level and entry count. */
  const NODE_HEADER_BYTES: nat := 7

  function TreeSizes(entries: seq<TreeEntry>): (sizes: seq<nat>)
    ensures |sizes| == |entries|
    ensures forall i :: 0 <= i < |sizes| ==> sizes[i] == TreeEntryBytes(entries[i])
  {
    seq(|entries|, i requires 0 <= i < |entries| => TreeEntryBytes(entries[i]))
  }

  /** What the codec asks of a node, apart from the width of the digests in it. */
  predicate NodeOk(o: Object)
  {
    match o
    case Blob(level, children) =>
      && NodeLevelOk(level, |children|) && 0 <= level <= 255
      && (forall i :: 0 <= i < |children| ==> 0 < children[i].size < TWO_64)
      && NODE_HEADER_BYTES + BLOB_ENTRY_BYTES * |children| <= MAX_NODE_BYTES
    case Tree(level, entries) =>
      && NodeLevelOk(level, |entries|) && 0 <= level <= 255
      && TreeEntriesOk(level, entries)
      && (forall i :: 0 <= i < |entries| ==> entries[i].size < TWO_64)
      && NODE_HEADER_BYTES + Sum(TreeSizes(entries)) <= MAX_NODE_BYTES
    case _ => false
  }

  predicate TextOk(text: Bytes, limit: nat)
  {
    ValidUtf8(text) && |text| < limit
  }

  predicate Storable(o: Object)
  {
    match o
    case Chunk(data) => ChunkOk(data)
    case Blob(_, children) =>
      NodeOk(o) && forall i :: 0 <= i < |children| ==> |children[i].target.digest| == DIGEST_BYTES
    case Tree(_, entries) =>
      NodeOk(o) && forall i :: 0 <= i < |entries| ==> |entries[i].target.digest| == DIGEST_BYTES
    case Commit(tree, parents, _, author, committer, timestamp, message, metadata) =>
      && CommitOk(o)
      && |tree.digest| == DIGEST_BYTES
      && |parents| < 0x1_0000 && (forall i :: 0 <= i < |parents| ==> |parents[i].digest| == DIGEST_BYTES)
      && TextOk(author, 0x100) && TextOk(committer, 0x100)
      && -TWO_63 <= timestamp < TWO_63
      && TextOk(message, 0x1_0000_0000)
      && |metadata| < 0x1_0000_0000
      && forall i :: 0 <= i < |metadata| ==> TextOk(metadata[i].0, 0x100) && TextOk(metadata[i].1, 0x1_0000_0000)
  }

  /** What the codec asks of an object, apart from the width of the digests in it. */
  predicate FormOk(o: Object)
  {
    match o
    case Chunk(data) => ChunkOk(data)
    case Commit(_, parents, _, author, committer, timestamp, message, metadata) =>
      && CommitOk(o) && |parents| < 0x1_0000
      && TextOk(author, 0x100) && TextOk(committer, 0x100) && TextOk(message, 0x1_0000_0000)
      && -TWO_63 <= timestamp < TWO_63
      && |metadata| < 0x1_0000_0000
      && forall i :: 0 <= i < |metadata| ==> TextOk(metadata[i].0, 0x100) && TextOk(metadata[i].1, 0x1_0000_0000)
    case _ => NodeOk(o)
  }

  lemma StorableHasForm(o: Object)
    requires Storable(o)
    ensures FormOk(o)
  {
  }

  lemma {:induction false} WriteAllOk<T>(write: T -> Result<Bytes>, xs: seq<T>)
    ensures WriteAll(write, xs).Ok? <==> forall i :: 0 <= i < |xs| ==> write(xs[i]).Ok?
  {
    if xs != [] {
      WriteAllOk(write, xs[1..]);
      assert forall i :: 0 < i < |xs| ==> xs[i] == xs[1..][i - 1];
      assert forall i :: 0 <= i < |xs| - 1 ==> xs[1..][i] == xs[i + 1];
    }
  }

  lemma {:induction false} BlobEntriesSize(xs: seq<BlobEntry>)
    requires WriteAll(WriteBlobEntry, xs).Ok?
    ensures |WriteAll(WriteBlobEntry, xs).value| == BLOB_ENTRY_BYTES * |xs|
  {
    if xs != [] {
      BlobEntriesSize(xs[1..]);
    }
  }

  lemma {:induction false} TreeEntriesSize(xs: seq<TreeEntry>)
    requires WriteAll(WriteTreeEntry, xs).Ok?
    ensures |WriteAll(WriteTreeEntry, xs).value| == Sum(TreeSizes(xs))
  {
    if xs != [] {
      TreeEntriesSize(xs[1..]);
      assert TreeSizes(xs)[1..] == TreeSizes(xs[1..]);
      assert |WriteTreeEntry(xs[0]).value| == TreeEntryBytes(xs[0]);
    }
  }

  lemma {:induction false} SumAtLeastCount(xs: seq<TreeEntry>)
    ensures Sum(TreeSizes(xs)) >= |xs|
  {
    if xs != [] {
      assert TreeSizes(xs)[1..] == TreeSizes(xs[1..]);
      SumAtLeastCount(xs[1..]);
    }
  }

  lemma BlobEncodes(level: int, children: seq<BlobEntry>)
    ensures EncodePayload(Blob(level, children)).Ok? <==> Storable(Blob(level, children))
  {
    PowersOf256();
    WriteAllOk(WriteBlobEntry, children);
    if WriteAll(WriteBlobEntry, children).Ok? { BlobEntriesSize(children); }
  }

  predicate TreeEntryFits(e: TreeEntry)
  {
    |e.name| < 0x100 && |e.target.digest| == DIGEST_BYTES && 0 <= e.mode < 0x1_0000 && 0 <= e.size < TWO_64
  }

  lemma TreeEntryEncodes(e: TreeEntry)
    ensures WriteTreeEntry(e).Ok? <==> TreeEntryFits(e)
  {
    PowersOf256();
  }

  lemma TreeEncodes(level: int, entries: seq<TreeEntry>)
    requires NodeLevelOk(level, |entries|) && TreeEntriesOk(level, entries)
    ensures EncodePayload(Tree(level, entries)).Ok? <==> Storable(Tree(level, entries))
  {
    hide ValidUtf8, WriteTreeEntry, Ascending;
    WriteAllOk(WriteTreeEntry, entries);
    assert WriteAll(WriteTreeEntry, entries).Ok?
           <==> forall i :: 0 <= i < |entries| ==> TreeEntryFits(entries[i]) by {
      forall i | 0 <= i < |entries|
        ensures WriteTreeEntry(entries[i]).Ok? <==> TreeEntryFits(entries[i])
      {
        TreeEntryEncodes(entries[i]);
      }
    }
    assert forall i :: 0 <= i < |entries| ==> EntryOk(level, entries[i]);
    PowersOf256();
    SumAtLeastCount(entries);
    if WriteAll(WriteTreeEntry, entries).Ok? { TreeEntriesSize(entries); }
  }

  /** An object has an encoding exactly when it is storable: the codec refuses
      nothing else and admits nothing more. */
  lemma EncodesIffStorable(o: Object)
    ensures Encode(o).Ok? <==> Storable(o)
  {
    PowersOf256();
    if o.Blob? {
      BlobEncodes(o.level, o.children);
    } else if o.Tree? {
      if NodeLevelOk(o.level, |o.entries|) && TreeEntriesOk(o.level, o.entries) {
        TreeEncodes(o.level, o.entries);
      }
    } else if o.Commit? {
      WriteAllOk(WriteName, o.parents);
      WriteAllOk(WriteMetadata, o.metadata);
    }
  }

  /** The byte strings the decoder accepts are exactly the encodings of storable
      objects. */
  lemma AcceptedIffCanonical(framed: Bytes)
    ensures Decode(framed).Ok? <==> exists o :: Storable(o) && Encode(o) == Ok(framed)
  {
    if Decode(framed).Ok? {
      EncodeOfDecode(framed);
      EncodesIffStorable(Decode(framed).value);
    }
    if o :| Storable(o) && Encode(o) == Ok(framed) {
      DecodeOfEncode(o);
    }
  }
}
