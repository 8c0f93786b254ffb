/** The canonical codec (src/format/codec.py), as it is written: encoders that append to
    a `Writer` field by field, decoders that advance a `Cursor`, each proved to do what
    the specification in `CodecSpec` says, including the order in which failures are
    found. A failed encoder may leave a partial buffer; its caller drops it. */
module Codec {
  import opened ByteStrings
  import opened Model
  import opened Wire
  import opened Validation
  import opened CodecSpec

  // ---- how far a loop over entries has come ----

  ghost predicate Written<T>(write: T -> Result<Bytes>, xs: seq<T>, k: nat, done: Bytes)
    requires k <= |xs|
  {
    Then(Ok(done), WriteAll(write, xs[k..])) == WriteAll(write, xs)
  }

  lemma WrittenNone<T>(write: T -> Result<Bytes>, xs: seq<T>)
    ensures Written(write, xs, 0, [])
  {
    assert xs[0..] == xs;
    if WriteAll(write, xs).Ok? {
      assert [] + WriteAll(write, xs).value == WriteAll(write, xs).value;
    }
  }

  /** One more entry: either it is appended, or its failure is the failure of the list. */
  lemma WrittenOne<T>(write: T -> Result<Bytes>, xs: seq<T>, k: nat, done: Bytes)
    requires k < |xs| && Written(write, xs, k, done)
    ensures write(xs[k]).Ok? ==> Written(write, xs, k + 1, done + write(xs[k]).value)
    ensures write(xs[k]).Err? ==> WriteAll(write, xs) == Err(write(xs[k]).error)
  {
    assert xs[k..][1..] == xs[k + 1..];
    ThenAssociates(Ok(done), write(xs[k]), WriteAll(write, xs[k + 1..]));
  }

  lemma WrittenAll<T>(write: T -> Result<Bytes>, xs: seq<T>, done: Bytes)
    requires Written(write, xs, |xs|, done)
    ensures WriteAll(write, xs) == Ok(done)
  {
    ThenNothing(Ok(done));
  }

  function Attach<T>(xs: seq<T>, r: Read<seq<T>>): (all: Read<seq<T>>)
  {
    var (ys, rest) :- r;
    Ok((xs + ys, rest))
  }

  ghost predicate ReadSoFar<T>(read: Bytes -> Read<T>, count: nat, b: Bytes, xs: seq<T>, rest: Bytes)
    requires |xs| <= count
  {
    ReadAll(read, count, b) == Attach(xs, ReadAll(read, count - |xs|, rest))
  }

  lemma ReadNone<T>(read: Bytes -> Read<T>, count: nat, b: Bytes)
    ensures ReadSoFar(read, count, b, [], b)
  {
    if ReadAll(read, count, b).Ok? {
      assert [] + ReadAll(read, count, b).value.0 == ReadAll(read, count, b).value.0;
    }
  }

  lemma ReadOne<T>(read: Bytes -> Read<T>, count: nat, b: Bytes, xs: seq<T>, rest: Bytes)
    requires |xs| < count && ReadSoFar(read, count, b, xs, rest)
    ensures read(rest).Ok? ==> ReadSoFar(read, count, b, xs + [read(rest).value.0], read(rest).value.1)
    ensures read(rest).Err? ==> ReadAll(read, count, b) == Err(read(rest).error)
  {
    if read(rest).Ok? {
      var (x, rest') := read(rest).value;
      var tail := ReadAll(read, count - |xs| - 1, rest');
      if tail.Ok? {
        assert xs + ([x] + tail.value.0) == (xs + [x]) + tail.value.0;
      }
    }
  }

  lemma ReadEverything<T>(read: Bytes -> Read<T>, count: nat, b: Bytes, xs: seq<T>, rest: Bytes)
    requires |xs| == count && ReadSoFar(read, count, b, xs, rest)
    ensures ReadAll(read, count, b) == Ok((xs, rest))
  {
    assert xs + [] == xs;
  }

  // ---- encoding ----

  /** The writer gained exactly `payload`, or the call failed as `payload` did. */
  ghost predicate Encoded(was: Bytes, payload: Result<Bytes>, now: Bytes, r: Outcome)
  {
    match payload
    case Ok(bytes) => r == Pass && now == was + bytes
    case Err(e) => r == Fail(e)
  }

  method EncodeChunk(w: Writer, data: Bytes) returns (r: Outcome)
    modifies w
    ensures Encoded(old(w.buf), EncodePayload(Chunk(data)), w.buf, r)
  {
    if |data| == 0 || |data| > MAX_CHUNK_BYTES {
      return Fail(NotCanonical);
    }
    r := w.Raw(|data|, data);
  }

  method EncodeNodeHeader(w: Writer, level: int, count: nat) returns (r: Outcome)
    modifies w
    ensures Encoded(old(w.buf), WriteNodeHeader(level, count), w.buf, r)
  {
    ghost var was := w.buf;
    r := w.Uint(1, level);
    if r.Fail? { return; }
    r := w.Uint(4, count);
    if r.Pass? {
      assert w.buf == was + WriteNodeHeader(level, count).value;
    }
  }

  method EncodeBlobEntries(w: Writer, children: seq<BlobEntry>) returns (r: Outcome)
    modifies w
    ensures Encoded(old(w.buf), WriteAll(WriteBlobEntry, children), w.buf, r)
  {
    ghost var base, done: Bytes := w.buf, [];
    WrittenNone(WriteBlobEntry, children);
    for k := 0 to |children|
      invariant w.buf == base + done
      invariant Written(WriteBlobEntry, children, k, done)
    {
      WrittenOne(WriteBlobEntry, children, k, done);
      r := EncodeBlobEntry(w, children[k]);
      if r.Fail? { return; }
      done := done + WriteBlobEntry(children[k]).value;
    }
    WrittenAll(WriteBlobEntry, children, done);
    r := Pass;
  }

  method EncodeBlobEntry(w: Writer, e: BlobEntry) returns (r: Outcome)
    modifies w
    ensures Encoded(old(w.buf), WriteBlobEntry(e), w.buf, r)
  {
    if e.size <= 0 {
      return Fail(NotCanonical);
    }
    r := w.Raw(DIGEST_BYTES, e.target.digest);
    if r.Fail? { return; }
    r := w.Uint(8, e.size);
  }

  method EncodeBlobNode(w: Writer, level: int, children: seq<BlobEntry>) returns (r: Outcome)
    modifies w
    ensures Encoded(old(w.buf), WriteNode(level, WriteBlobEntry, children), w.buf, r)
  {
    ghost var was := w.buf;
    r := EncodeNodeHeader(w, level, |children|);
    if r.Fail? { return; }
    r := EncodeBlobEntries(w, children);
    if r.Pass? {
      assert w.buf == was + WriteNode(level, WriteBlobEntry, children).value;
    }
  }

  method EncodeBlob(w: Writer, level: int, children: seq<BlobEntry>) returns (r: Outcome)
    requires |w.buf| == HEADER_BYTES
    modifies w
    ensures Encoded(old(w.buf), EncodePayload(Blob(level, children)), w.buf, r)
  {
    if !NodeLevelOk(level, |children|) {
      return Fail(NotCanonical);
    }
    r := EncodeBlobNode(w, level, children);
    if r.Pass? && |w.buf| > MAX_NODE_BYTES {
      r := Fail(NotCanonical);
    }
  }

  method EncodeTreeEntries(w: Writer, entries: seq<TreeEntry>) returns (r: Outcome)
    modifies w
    ensures Encoded(old(w.buf), WriteAll(WriteTreeEntry, entries), w.buf, r)
  {
    ghost var base, done: Bytes := w.buf, [];
    WrittenNone(WriteTreeEntry, entries);
    for k := 0 to |entries|
      invariant w.buf == base + done
      invariant Written(WriteTreeEntry, entries, k, done)
    {
      WrittenOne(WriteTreeEntry, entries, k, done);
      r := EncodeTreeEntry(w, entries[k]);
      if r.Fail? { return; }
      done := done + WriteTreeEntry(entries[k]).value;
    }
    WrittenAll(WriteTreeEntry, entries, done);
    r := Pass;
  }

  method EncodeTreeNode(w: Writer, level: int, entries: seq<TreeEntry>) returns (r: Outcome)
    modifies w
    ensures Encoded(old(w.buf), WriteNode(level, WriteTreeEntry, entries), w.buf, r)
  {
    ghost var was := w.buf;
    r := EncodeNodeHeader(w, level, |entries|);
    if r.Fail? { return; }
    r := EncodeTreeEntries(w, entries);
    if r.Pass? {
      assert w.buf == was + WriteNode(level, WriteTreeEntry, entries).value;
    }
  }

  method EncodeTree(w: Writer, level: int, entries: seq<TreeEntry>) returns (r: Outcome)
    requires |w.buf| == HEADER_BYTES
    modifies w
    ensures Encoded(old(w.buf), EncodePayload(Tree(level, entries)), w.buf, r)
  {
    if !NodeLevelOk(level, |entries|) {
      return Fail(NotCanonical);
    }
    r := ValidateTreeEntries(level, entries);
    if r.Fail? { return; }
    r := EncodeTreeNode(w, level, entries);
    if r.Pass? && |w.buf| > MAX_NODE_BYTES {
      r := Fail(NotCanonical);
    }
  }

  method EncodeTreeEntry(w: Writer, e: TreeEntry) returns (r: Outcome)
    modifies w
    ensures Encoded(old(w.buf), WriteTreeEntry(e), w.buf, r)
  {
    ghost var was := w.buf;
    r := w.BytesField(1, e.name);
    if r.Fail? { return; }
    r := w.Uint(1, EntryKindTag(e.kind));
    if r.Fail? { return; }
    ghost var mid := w.buf;
    r := w.Raw(DIGEST_BYTES, e.target.digest);
    if r.Fail? { return; }
    r := w.Uint(2, e.mode);
    if r.Fail? { return; }
    r := w.Uint(8, e.size);
    if r.Fail? { return; }
    assert w.buf == mid + WriteReference(e.target, e.mode, e.size).value;
    assert w.buf == was + WriteTreeEntry(e).value;
  }

  method EncodeText(w: Writer, width: nat, text: Bytes) returns (r: Outcome)
    modifies w
    ensures Encoded(old(w.buf), WriteText(width, text), w.buf, r)
  {
    if !ValidUtf8(text) {
      return Fail(OutOfRange);
    }
    r := w.BytesField(width, text);
  }

  method EncodeParents(w: Writer, parents: seq<Name>) returns (r: Outcome)
    modifies w
    ensures Encoded(old(w.buf), WriteAll(WriteName, parents), w.buf, r)
  {
    ghost var base, done: Bytes := w.buf, [];
    WrittenNone(WriteName, parents);
    for k := 0 to |parents|
      invariant w.buf == base + done
      invariant Written(WriteName, parents, k, done)
    {
      WrittenOne(WriteName, parents, k, done);
      r := w.Raw(DIGEST_BYTES, parents[k].digest);
      if r.Fail? { return; }
      done := done + WriteName(parents[k]).value;
    }
    WrittenAll(WriteName, parents, done);
    r := Pass;
  }

  method EncodeAncestry(w: Writer, o: Object) returns (r: Outcome)
    requires o.Commit?
    modifies w
    ensures Encoded(old(w.buf), WriteAncestry(o.tree, o.parents, o.changeId), w.buf, r)
  {
    ghost var was := w.buf;
    r := w.Raw(DIGEST_BYTES, o.tree.digest);
    if r.Fail? { return; }
    r := w.Uint(2, |o.parents|);
    if r.Fail? { return; }
    r := EncodeParents(w, o.parents);
    if r.Fail? { return; }
    r := w.Raw(CHANGE_ID_BYTES, o.changeId);
    if r.Pass? {
      assert w.buf == was + WriteAncestry(o.tree, o.parents, o.changeId).value;
    }
  }

  method EncodeMetadataPair(w: Writer, pair: (Bytes, Bytes)) returns (r: Outcome)
    modifies w
    ensures Encoded(old(w.buf), WriteMetadata(pair), w.buf, r)
  {
    ghost var was := w.buf;
    r := EncodeText(w, 1, pair.0);
    if r.Fail? { return; }
    r := EncodeText(w, 4, pair.1);
    if r.Pass? {
      assert w.buf == was + WriteMetadata(pair).value;
    }
  }

  method EncodeMetadata(w: Writer, metadata: seq<(Bytes, Bytes)>) returns (r: Outcome)
    modifies w
    ensures Encoded(old(w.buf), WriteAll(WriteMetadata, metadata), w.buf, r)
  {
    hide WriteMetadata, WriteAll;
    ghost var base, done: Bytes := w.buf, [];
    WrittenNone(WriteMetadata, metadata);
    for k := 0 to |metadata|
      invariant w.buf == base + done
      invariant Written(WriteMetadata, metadata, k, done)
    {
      WrittenOne(WriteMetadata, metadata, k, done);
      r := EncodeMetadataPair(w, metadata[k]);
      if r.Fail? { return; }
      done := done + WriteMetadata(metadata[k]).value;
    }
    WrittenAll(WriteMetadata, metadata, done);
    r := Pass;
  }

  method EncodeAuthors(w: Writer, author: Bytes, committer: Bytes, timestampUs: int) returns (r: Outcome)
    modifies w
    ensures Encoded(old(w.buf), WriteAuthors(author, committer, timestampUs), w.buf, r)
  {
    ghost var was := w.buf;
    r := EncodeText(w, 1, author);
    if r.Fail? { return; }
    r := EncodeText(w, 1, committer);
    if r.Fail? { return; }
    r := w.I64(timestampUs);
    if r.Pass? {
      assert w.buf == was + WriteAuthors(author, committer, timestampUs).value;
    }
  }

  method EncodeDetails(w: Writer, message: Bytes, metadata: seq<(Bytes, Bytes)>) returns (r: Outcome)
    modifies w
    ensures Encoded(old(w.buf), WriteDetails(message, metadata), w.buf, r)
  {
    hide WriteText, WriteUint, WriteAll;
    ghost var was := w.buf;
    r := EncodeText(w, 4, message);
    if r.Fail? { return; }
    r := w.Uint(4, |metadata|);
    if r.Fail? { return; }
    r := EncodeMetadata(w, metadata);
    if r.Pass? {
      assert w.buf == was + WriteDetails(message, metadata).value;
    }
  }

  method EncodeCommit(w: Writer, o: Object) returns (r: Outcome)
    requires o.Commit?
    modifies w
    ensures Encoded(old(w.buf), EncodePayload(o), w.buf, r)
  {
    hide WriteAncestry, WriteAuthors, WriteDetails;
    r := ValidateCommit(o);
    if r.Fail? { return; }
    r := EncodeAncestry(w, o);
    if r.Fail? { return; }
    r := EncodeAuthors(w, o.author, o.committer, o.timestampUs);
    if r.Fail? { return; }
    r := EncodeDetails(w, o.message, o.metadata);
    if r.Pass? {
      assert w.buf == old(w.buf) + WriteCommit(o).value;
    }
  }

  /** `encode`. */
  method EncodeObject(o: Object) returns (r: Result<Bytes>)
    ensures r == Encode(o)
  {
    var w := new Writer();
    var ok := w.Uint(1, KindTag(o));
    ok := w.Uint(1, FORMAT_VERSION);
    PowersOf256();
    assert w.buf == [KindTag(o), FORMAT_VERSION];
    match o {
      case Chunk(data) => ok := EncodeChunk(w, data);
      case Blob(level, children) => ok := EncodeBlob(w, level, children);
      case Tree(level, entries) => ok := EncodeTree(w, level, entries);
      case Commit(_, _, _, _, _, _, _, _) => ok := EncodeCommit(w, o);
    }
    r := if ok.Fail? then Err(ok.error) else Ok(w.buf);
  }

  // ---- decoding ----

  method DecodeChunkBody(c: Cursor) returns (r: Result<Object>)
    requires c.Valid()
    modifies c
    ensures c.Advanced(DecodePayload(1, old(c.Rest())), r)
  {
    var taken := c.TakeBytes(|c.data| - c.pos);
    var data := taken.value;
    assert data == old(c.Rest());
    if |data| == 0 || |data| > MAX_CHUNK_BYTES {
      return Err(NotCanonical);
    }
    r := Ok(Chunk(data));
  }

  method DecodeBlobEntry(c: Cursor) returns (r: Result<BlobEntry>)
    requires c.Valid()
    modifies c
    ensures c.Advanced(ReadBlobEntry(old(c.Rest())), r)
  {
    var target :- c.NameField();
    var size :- c.Uint(8);
    if size <= 0 {
      return Err(NotCanonical);
    }
    r := Ok(BlobEntry(target, size));
  }

  method DecodeTreeEntry(c: Cursor) returns (r: Result<TreeEntry>)
    requires c.Valid()
    modifies c
    ensures c.Advanced(ReadTreeEntry(old(c.Rest())), r)
  {
    var name :- c.BytesField(1);
    var tag :- c.Uint(1);
    var kind :- EntryKindOf(tag);
    var target :- c.NameField();
    var mode :- c.Uint(2);
    var size :- c.Uint(8);
    r := Ok(TreeEntry(name, kind, target, mode, size));
  }

  method DecodeBlobBody(c: Cursor, framedLength: nat) returns (r: Result<Object>)
    requires c.Valid() && framedLength == HEADER_BYTES + |c.Rest()|
    modifies c
    ensures c.Advanced(DecodeBlob(old(c.Rest())), r)
  {
    var level :- c.Uint(1);
    var count :- c.Uint(4);
    var children: seq<BlobEntry> := [];
    ghost var start := c.Rest();
    ReadNone(ReadBlobEntry, count, start);
    while |children| < count
      invariant c.Valid() && |children| <= count
      invariant ReadSoFar(ReadBlobEntry, count, start, children, c.Rest())
    {
      ReadOne(ReadBlobEntry, count, start, children, c.Rest());
      var e :- DecodeBlobEntry(c);
      children := children + [e];
    }
    ReadEverything(ReadBlobEntry, count, start, children, c.Rest());
    if !NodeLevelOk(level, count) || framedLength > MAX_NODE_BYTES {
      return Err(NotCanonical);
    }
    r := Ok(Blob(level, children));
  }

  method DecodeTreeBody(c: Cursor, framedLength: nat) returns (r: Result<Object>)
    requires c.Valid() && framedLength == HEADER_BYTES + |c.Rest()|
    modifies c
    ensures c.Advanced(DecodeTree(old(c.Rest())), r)
  {
    var level :- c.Uint(1);
    var count :- c.Uint(4);
    var entries: seq<TreeEntry> := [];
    ghost var start := c.Rest();
    ReadNone(ReadTreeEntry, count, start);
    while |entries| < count
      invariant c.Valid() && |entries| <= count
      invariant ReadSoFar(ReadTreeEntry, count, start, entries, c.Rest())
    {
      ReadOne(ReadTreeEntry, count, start, entries, c.Rest());
      var e :- DecodeTreeEntry(c);
      entries := entries + [e];
    }
    ReadEverything(ReadTreeEntry, count, start, entries, c.Rest());
    if !NodeLevelOk(level, count) {
      return Err(NotCanonical);
    }
    var sorted := ValidateTreeEntries(level, entries);
    if sorted.Fail? || framedLength > MAX_NODE_BYTES {
      return Err(NotCanonical);
    }
    r := Ok(Tree(level, entries));
  }

  method DecodeText(c: Cursor, width: nat) returns (r: Result<Bytes>)
    requires c.Valid()
    modifies c
    ensures c.Advanced(ReadText(width, old(c.Rest())), r)
  {
    var raw :- c.BytesField(width);
    if !ValidUtf8(raw) {
      return Err(NotCanonical);
    }
    r := Ok(raw);
  }

  method DecodeAncestry(c: Cursor) returns (r: Result<(Name, seq<Name>, Bytes)>)
    requires c.Valid()
    modifies c
    ensures c.Advanced(ReadAncestry(old(c.Rest())), r)
  {
    var tree :- c.NameField();
    var count :- c.Uint(2);
    var parents: seq<Name> := [];
    ghost var start := c.Rest();
    ReadNone(ReadName, count, start);
    while |parents| < count
      invariant c.Valid() && |parents| <= count
      invariant ReadSoFar(ReadName, count, start, parents, c.Rest())
    {
      ReadOne(ReadName, count, start, parents, c.Rest());
      var parent :- c.NameField();
      parents := parents + [parent];
    }
    ReadEverything(ReadName, count, start, parents, c.Rest());
    var changeId :- c.TakeBytes(CHANGE_ID_BYTES);
    r := Ok((tree, parents, changeId));
  }

  method DecodeMetadata(c: Cursor) returns (r: Result<(Bytes, Bytes)>)
    requires c.Valid()
    modifies c
    ensures c.Advanced(ReadMetadata(old(c.Rest())), r)
  {
    var key :- DecodeText(c, 1);
    var value :- DecodeText(c, 4);
    r := Ok((key, value));
  }

  method DecodeAuthors(c: Cursor) returns (r: Result<(Bytes, Bytes, int)>)
    requires c.Valid()
    modifies c
    ensures c.Advanced(ReadAuthors(old(c.Rest())), r)
  {
    var author :- DecodeText(c, 1);
    var committer :- DecodeText(c, 1);
    var timestamp :- c.I64();
    r := Ok((author, committer, timestamp));
  }

  method DecodeDetails(c: Cursor) returns (r: Result<(Bytes, seq<(Bytes, Bytes)>)>)
    requires c.Valid()
    modifies c
    ensures c.Advanced(ReadDetails(old(c.Rest())), r)
  {
    var message :- DecodeText(c, 4);
    var count :- c.Uint(4);
    var metadata: seq<(Bytes, Bytes)> := [];
    ghost var start := c.Rest();
    ReadNone(ReadMetadata, count, start);
    while |metadata| < count
      invariant c.Valid() && |metadata| <= count
      invariant ReadSoFar(ReadMetadata, count, start, metadata, c.Rest())
    {
      ReadOne(ReadMetadata, count, start, metadata, c.Rest());
      var pair :- DecodeMetadata(c);
      metadata := metadata + [pair];
    }
    ReadEverything(ReadMetadata, count, start, metadata, c.Rest());
    r := Ok((message, metadata));
  }

  method DecodeCommitBody(c: Cursor) returns (r: Result<Object>)
    requires c.Valid()
    modifies c
    ensures c.Advanced(DecodeCommit(old(c.Rest())), r)
  {
    var ancestry :- DecodeAncestry(c);
    var authors :- DecodeAuthors(c);
    var details :- DecodeDetails(c);
    var commit := Commit(ancestry.0, ancestry.1, ancestry.2, authors.0, authors.1, authors.2, details.0, details.1);
    var ok := ValidateCommit(commit);
    if ok.Fail? {
      return Err(NotCanonical);
    }
    r := Ok(commit);
  }

  /** `decode`. */
  method DecodeObject(framed: Bytes) returns (r: Result<Object>)
    ensures r == Decode(framed)
  {
    if |framed| < HEADER_BYTES || !(1 <= framed[0] <= 4) {
      return Err(Malformed);
    }
    if framed[1] != FORMAT_VERSION {
      return Err(UnsupportedVersion);
    }
    var c := new Cursor(framed[HEADER_BYTES..]);
    var o: Object;
    if framed[0] == 1 {
      o :- DecodeChunkBody(c);
    } else if framed[0] == 2 {
      o :- DecodeBlobBody(c, |framed|);
    } else if framed[0] == 3 {
      o :- DecodeTreeBody(c, |framed|);
    } else {
      o :- DecodeCommitBody(c);
    }
    var end := c.ExpectExhausted();
    r := if end.Fail? then Err(Malformed) else Ok(o);
  }

  /** `is_canonical`: whether re-encoding what the bytes mean gives the bytes back.
      By the inverse law that is simply whether they decode. */
  method IsCanonical(framed: Bytes) returns (r: bool)
    ensures r <==> Decode(framed).Ok?
  {
    var decoded := DecodeObject(framed);
    if decoded.Err? {
      return false;
    }
    var again := EncodeObject(decoded.value);
    EncodeOfDecode(framed);
    r := again == Ok(framed);
  }
}
