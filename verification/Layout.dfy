/** The bytes of an encoded object (src/format/codec.py). */
module Layout {
  // Place by place, with the numbers of src/format/wire.py and src/format/constants.py.
  // Inverse laws say that an encoding can be read back; here it says which bytes it is: the
  // kind, the version, every count and every field, written out as literal bytes.

  import opened ByteStrings
  import opened Model
  import opened Sums
  import opened Wire
  import opened Validation
  import opened CodecSpec

  // ---- numbers, most significant byte first ----

  function U16(n: int): (b: Bytes)
  {
    [n / 0x100 % 0x100, n % 0x100]
  }

  function U32(n: int): (b: Bytes)
  {
    U16(n / 0x100 / 0x100) + U16(n)
  }

  function U64(n: int): (b: Bytes)
  {
    U32(n / 0x100 / 0x100 / 0x100 / 0x100) + U32(n)
  }

  // ---- the four kinds ----

  function ChildBytes(e: BlobEntry): (b: Bytes)
  {
    e.target.digest + U64(e.size)
  }

  function EntryBytes(e: TreeEntry): (b: Bytes)
  {
    Short(e.name)
    + [match e.kind case TreeKind => 1 case BlobKind => 2 case SymlinkKind => 3 case ConflictKind => 4]
    + e.target.digest + U16(e.mode) + U64(e.size)
  }

  /** Bytes after their count, in one byte or in four. */
  function Short(b: Bytes): (field: Bytes)
  {
    [|b| % 0x100] + b
  }

  function Long(b: Bytes): (field: Bytes)
  {
    U32(|b|) + b
  }

  function PairBytes(pair: (Bytes, Bytes)): (b: Bytes)
  {
    Short(pair.0) + Long(pair.1)
  }

  function Each<T>(bytesOf: T -> Bytes, xs: seq<T>): (parts: seq<Bytes>)
  {
    seq(|xs|, i requires 0 <= i < |xs| => bytesOf(xs[i]))
  }

  /** What one parent, and one time, is written as. A time before 1970 is in two's
      complement. */
  function ParentBytes(parent: Name): (b: Bytes)
  {
    parent.digest
  }

  function TimeBytes(us: int): (b: Bytes)
  {
    U64(if us < 0 then us + 0x1_0000_0000_0000_0000 else us)
  }

  /** A chunk is its data; a node its level, the count of its entries, and the entries; a
      commit its tree, parents, change id, author, committer, time, message and metadata. */
  function BytesOf(o: Object): (b: Bytes)
  {
    match o
    case Chunk(data) => [1, 1] + data
    case Blob(level, children) => [2, 1] + ([level % 0x100] + U32(|children|) + Concat(Each(ChildBytes, children)))
    case Tree(level, entries) => [3, 1] + ([level % 0x100] + U32(|entries|) + Concat(Each(EntryBytes, entries)))
    case Commit(tree, parents, changeId, author, committer, us, message, metadata) =>
      [4, 1] + ((tree.digest + U16(|parents|) + Concat(Each(ParentBytes, parents)) + changeId)
                + ((Short(author) + Short(committer) + TimeBytes(us))
                   + (Long(message) + U32(|metadata|) + Concat(Each(PairBytes, metadata)))))
  }

  // ---- the encoder writes them ----

  lemma TwoMore(n: nat, width: nat)
    requires n < Pow256(width + 2)
    ensures n / 0x100 < Pow256(width + 1) && n / 0x100 / 0x100 < Pow256(width)
    ensures Be(n, width + 2) == Be(n / 0x100 / 0x100, width) + U16(n)
  {
    assert Pow256(width + 2) == 0x100 * Pow256(width + 1) && Pow256(width + 1) == 0x100 * Pow256(width);
    assert Be(n, width + 2) == Be(n / 0x100, width + 1) + [n % 0x100];
    assert Be(n / 0x100, width + 1) == Be(n / 0x100 / 0x100, width) + [n / 0x100 % 0x100];
  }

  lemma FourMore(n: nat, width: nat)
    requires n < Pow256(width + 4)
    ensures var high := n / 0x100 / 0x100 / 0x100 / 0x100;
            high < Pow256(width) && Be(n, width + 4) == Be(high, width) + U32(n)
  {
    hide Be, Pow256, U16;
    TwoMore(n, width + 2);
    TwoMore(n / 0x100 / 0x100, width);
  }

  lemma OneByte(n: nat)
    requires n < Pow256(1)
    ensures n < 0x100 && Be(n, 1) == [n]
  {
    assert Pow256(1) == 0x100 * Pow256(0);
    assert Be(n, 1) == Be(n / 0x100, 0) + [n % 0x100];
  }

  lemma TwoBytes(n: nat)
    requires n < Pow256(2)
    ensures Be(n, 2) == U16(n)
  {
    TwoMore(n, 0);
  }

  lemma FourBytes(n: nat)
    requires n < Pow256(4)
    ensures Be(n, 4) == U32(n)
  {
    hide U32;
    FourMore(n, 0);
  }

  lemma EightBytes(n: nat)
    requires n < Pow256(8)
    ensures Be(n, 8) == U64(n)
  {
    hide U32, Be, Pow256;
    FourMore(n, 4);
    FourBytes(n / 0x100 / 0x100 / 0x100 / 0x100);
  }

  lemma {:induction false} AllAre<T(!new)>(write: T -> Result<Bytes>, bytesOf: T -> Bytes, xs: seq<T>)
    requires WriteAll(write, xs).Ok?
    requires forall x :: write(x).Ok? ==> write(x).value == bytesOf(x)
    ensures WriteAll(write, xs).value == Concat(Each(bytesOf, xs))
  {
    if xs != [] {
      AllAre(write, bytesOf, xs[1..]);
      assert Each(bytesOf, xs) == [bytesOf(xs[0])] + Each(bytesOf, xs[1..]);
    }
  }

  lemma ChildIs(e: BlobEntry)
    ensures WriteBlobEntry(e).Ok? ==> WriteBlobEntry(e).value == ChildBytes(e)
  {
    hide Be, Pow256, U64;
    if WriteBlobEntry(e).Ok? { EightBytes(e.size); }
  }

  lemma EntryIs(e: TreeEntry)
    ensures WriteTreeEntry(e).Ok? ==> WriteTreeEntry(e).value == EntryBytes(e)
  {
    hide Be, Pow256, U16, U64;
    if WriteTreeEntry(e).Ok? {
      OneByte(|e.name|);
      OneByte(EntryKindTag(e.kind));
      TwoBytes(e.mode);
      EightBytes(e.size);
    }
  }

  lemma ShortIs(text: Bytes)
    ensures WriteText(1, text).Ok? ==> WriteText(1, text).value == Short(text)
  {
    hide Be, Pow256, ValidUtf8;
    if WriteText(1, text).Ok? { OneByte(|text|); }
  }

  lemma LongIs(text: Bytes)
    ensures WriteText(4, text).Ok? ==> WriteText(4, text).value == Long(text)
  {
    hide Be, Pow256, U32, ValidUtf8;
    if WriteText(4, text).Ok? { FourBytes(|text|); }
  }

  lemma PairIs(pair: (Bytes, Bytes))
    ensures WriteMetadata(pair).Ok? ==> WriteMetadata(pair).value == PairBytes(pair)
  {
    hide WriteText, Short, Long;
    ShortIs(pair.0);
    LongIs(pair.1);
  }

  lemma NodeHeaderIs(level: int, count: nat)
    ensures WriteNodeHeader(level, count).Ok? ==>
              WriteNodeHeader(level, count).value == [level % 0x100] + U32(count)
  {
    hide Be, Pow256, U32;
    if WriteNodeHeader(level, count).Ok? {
      OneByte(level);
      FourBytes(count);
    }
  }

  lemma AncestryIs(tree: Name, parents: seq<Name>, changeId: Bytes)
    ensures WriteAncestry(tree, parents, changeId).Ok? ==>
              WriteAncestry(tree, parents, changeId).value
              == tree.digest + U16(|parents|) + Concat(Each(ParentBytes, parents)) + changeId
  {
    hide Be, Pow256, U16, Concat;
    if WriteAncestry(tree, parents, changeId).Ok? {
      TwoBytes(|parents|);
      AllAre(WriteName, ParentBytes, parents);
    }
  }

  lemma TimeIs(us: int)
    ensures WriteI64(us).Ok? ==> WriteI64(us).value == TimeBytes(us)
  {
    hide Be, Pow256, U64;
    if WriteI64(us).Ok? { EightBytes(if us < 0 then us + TWO_64 else us); }
  }

  lemma AuthorsAre(author: Bytes, committer: Bytes, us: int)
    ensures WriteAuthors(author, committer, us).Ok? ==>
              WriteAuthors(author, committer, us).value == Short(author) + Short(committer) + TimeBytes(us)
  {
    hide WriteText, WriteI64, Short, TimeBytes;
    ShortIs(author);
    ShortIs(committer);
    TimeIs(us);
  }

  lemma DetailsAre(message: Bytes, metadata: seq<(Bytes, Bytes)>)
    ensures WriteDetails(message, metadata).Ok? ==>
              WriteDetails(message, metadata).value
              == Long(message) + U32(|metadata|) + Concat(Each(PairBytes, metadata))
  {
    hide Be, Pow256, U32, WriteText, WriteMetadata, PairBytes, Long, Concat;
    if WriteDetails(message, metadata).Ok? {
      LongIs(message);
      FourBytes(|metadata|);
      forall pair
        ensures WriteMetadata(pair).Ok? ==> WriteMetadata(pair).value == PairBytes(pair)
      {
        PairIs(pair);
      }
      AllAre(WriteMetadata, PairBytes, metadata);
    }
  }

  lemma NodeIs<T(!new)>(level: int, write: T -> Result<Bytes>, bytesOf: T -> Bytes, xs: seq<T>)
    requires forall x :: write(x).Ok? ==> write(x).value == bytesOf(x)
    ensures WriteNode(level, write, xs).Ok? ==>
              WriteNode(level, write, xs).value == [level % 0x100] + U32(|xs|) + Concat(Each(bytesOf, xs))
  {
    hide WriteNodeHeader, WriteAll, U32, Concat;
    NodeHeaderIs(level, |xs|);
    if WriteNode(level, write, xs).Ok? { AllAre(write, bytesOf, xs); }
  }

  lemma CommitIs(o: Object)
    requires o.Commit? && Encode(o).Ok?
    ensures Encode(o).value == BytesOf(o)
  {
    hide U16, U32, Concat, CommitOk, WriteAncestry, WriteAuthors, WriteDetails, Short, Long, TimeBytes;
    AncestryIs(o.tree, o.parents, o.changeId);
    AuthorsAre(o.author, o.committer, o.timestampUs);
    DetailsAre(o.message, o.metadata);
  }

  lemma BlobIs(level: int, children: seq<BlobEntry>)
    requires Encode(Blob(level, children)).Ok?
    ensures Encode(Blob(level, children)).value == BytesOf(Blob(level, children))
  {
    hide WriteNode, WriteBlobEntry, ChildBytes, U32, Concat;
    forall e
      ensures WriteBlobEntry(e).Ok? ==> WriteBlobEntry(e).value == ChildBytes(e)
    {
      ChildIs(e);
    }
    NodeIs(level, WriteBlobEntry, ChildBytes, children);
  }

  lemma TreeIs(level: int, entries: seq<TreeEntry>)
    requires Encode(Tree(level, entries)).Ok?
    ensures Encode(Tree(level, entries)).value == BytesOf(Tree(level, entries))
  {
    hide WriteNode, WriteTreeEntry, EntryBytes, U32, Concat, TreeEntriesOk;
    forall e
      ensures WriteTreeEntry(e).Ok? ==> WriteTreeEntry(e).value == EntryBytes(e)
    {
      EntryIs(e);
    }
    NodeIs(level, WriteTreeEntry, EntryBytes, entries);
  }

  /** Every object that encodes encodes to those bytes, and to no others. */
  lemma EncodingIsTheseBytes(o: Object)
    ensures Encode(o).Ok? ==> Encode(o).value == BytesOf(o)
  {
    hide EncodePayload;
    if Encode(o).Ok? {
      match o
      case Chunk(data) => ChunkIs(data);
      case Blob(level, children) => BlobIs(level, children);
      case Tree(level, entries) => TreeIs(level, entries);
      case Commit(_, _, _, _, _, _, _, _) => CommitIs(o);
    }
  }

  lemma ChunkIs(data: Bytes)
    requires Encode(Chunk(data)).Ok?
    ensures Encode(Chunk(data)).value == BytesOf(Chunk(data))
  {
  }

  /** And whatever the decoder takes is the bytes of what it returns. */
  lemma AcceptedAreTheseBytes(b: Bytes)
    ensures Decode(b).Ok? ==> b == BytesOf(Decode(b).value)
  {
    hide Decode, Encode, BytesOf;
    if Decode(b).Ok? {
      EncodeOfDecode(b);
      EncodingIsTheseBytes(Decode(b).value);
    }
  }

  // ---- which objects have an encoding, from scratch ----

  predicate IsDigest(n: Name)
  {
    |n.digest| == 32
  }

  /** A tree needs two children above the leaves, and has at most 255 levels above them. */
  predicate LevelAllowed(level: int, count: nat)
  {
    0 <= level <= 255 && (level > 0 ==> count >= 2)
  }

  predicate NameAllowed(name: Bytes)
  {
    && 1 <= |name| <= 255 && ValidUtf8(name)
    && (forall k :: 0 <= k < |name| ==> name[k] != 0 && name[k] != 0x2F)
    && name != [0x2E] && name != [0x2E, 0x2E]
  }

  /** Files are 0o644 or 0o755 and links have no mode; directories have neither mode nor
      size; above the leaves there are only trees; a conflict is never stored. */
  predicate EntryAllowed(level: int, e: TreeEntry)
  {
    && NameAllowed(e.name) && IsDigest(e.target) && 0 <= e.size < 0x1_0000_0000_0000_0000
    && match e.kind
       case TreeKind => e.mode == 0 && e.size == 0
       case BlobKind => level == 0 && (e.mode == 420 || e.mode == 493)
       case SymlinkKind => level == 0 && e.mode == 0
       case ConflictKind => false
  }

  predicate TextAllowed(text: Bytes, least: nat, most: nat)
  {
    ValidUtf8(text) && least <= |text| <= most
  }

  predicate CommitAllowed(o: Object)
    requires o.Commit?
  {
    && IsDigest(o.tree) && |o.parents| <= 65535 && |o.changeId| == 16
    && (forall i :: 0 <= i < |o.parents| ==> IsDigest(o.parents[i]))
    && (forall i, j :: 0 <= i < j < |o.parents| ==> o.parents[i] != o.parents[j])
    && TextAllowed(o.author, 1, 255) && TextAllowed(o.committer, 1, 255)
    && -0x8000_0000_0000_0000 <= o.timestampUs <= 0x7FFF_FFFF_FFFF_FFFF
    && TextAllowed(o.message, 0, 0xFFFF_FFFF) && |o.metadata| <= 0xFFFF_FFFF
    && (forall i :: 0 <= i < |o.metadata| ==>
          TextAllowed(o.metadata[i].0, 1, 255) && TextAllowed(o.metadata[i].1, 0, 0xFFFF_FFFF))
    && forall i, j :: 0 <= i < j < |o.metadata| ==> Less(o.metadata[i].0, o.metadata[j].0)
  }

  /** A chunk has one byte to four MiB; a node, encoded, at most 128 KiB. */
  predicate Allowed(o: Object)
  {
    match o
    case Chunk(data) => 1 <= |data| <= 4_194_304
    case Blob(level, children) =>
      && LevelAllowed(level, |children|) && 7 + 40 * |children| <= 131_072
      && forall i :: 0 <= i < |children| ==>
           IsDigest(children[i].target) && 0 < children[i].size < 0x1_0000_0000_0000_0000
    case Tree(level, entries) =>
      && LevelAllowed(level, |entries|) && |Concat(Each(EntryBytes, entries))| <= 131_072 - 7
      && (forall i :: 0 <= i < |entries| ==> EntryAllowed(level, entries[i]))
      && forall i, j :: 0 <= i < j < |entries| ==> Less(entries[i].name, entries[j].name)
    case Commit(_, _, _, _, _, _, _, _) => CommitAllowed(o)
  }

  lemma AscendingIsOrdered(keys: seq<Bytes>)
    ensures Ascending(keys) <==> forall i, j :: 0 <= i < j < |keys| ==> Less(keys[i], keys[j])
  {
    if Ascending(keys) {
      forall i, j | 0 <= i < j < |keys|
        ensures Less(keys[i], keys[j])
      {
        AscendingPairwise(keys, i, j);
      }
    }
  }

  lemma CommitAllowedIs(o: Object)
    requires o.Commit?
    ensures Storable(o) <==> CommitAllowed(o)
  {
    hide ValidUtf8, Ascending, Less;
    var keys := Keys(o.metadata);
    AscendingIsOrdered(keys);
    assert (forall i, j :: 0 <= i < j < |keys| ==> Less(keys[i], keys[j]))
           <==> forall i, j :: 0 <= i < j < |o.metadata| ==> Less(o.metadata[i].0, o.metadata[j].0);
  }

  lemma NameAllowedIs(name: Bytes)
    ensures EntryNameOk(name) <==> NameAllowed(name)
  {
    hide ValidUtf8;
  }

  lemma TreeAllowedIs(level: int, entries: seq<TreeEntry>)
    ensures Storable(Tree(level, entries)) <==> Allowed(Tree(level, entries))
  {
    hide EntryNameOk, NameAllowed, Ascending, Less, Concat, EntryBytes, TreeEntryBytes, Sum;
    var names := EntryNames(entries);
    AscendingIsOrdered(names);
    assert (forall i, j :: 0 <= i < j < |names| ==> Less(names[i], names[j]))
           <==> forall i, j :: 0 <= i < j < |entries| ==> Less(entries[i].name, entries[j].name);
    forall i | 0 <= i < |entries|
      ensures EntryNameOk(entries[i].name) <==> NameAllowed(entries[i].name)
    {
      NameAllowedIs(entries[i].name);
    }
    if forall i :: 0 <= i < |entries| ==> IsDigest(entries[i].target) { EntriesLength(entries); }
  }

  lemma {:induction false} EntriesLength(entries: seq<TreeEntry>)
    requires forall i :: 0 <= i < |entries| ==> IsDigest(entries[i].target)
    ensures |Concat(Each(EntryBytes, entries))| == Sum(TreeSizes(entries))
  {
    hide EntryBytes, TreeEntryBytes;
    if entries != [] {
      EntriesLength(entries[1..]);
      assert Each(EntryBytes, entries)[1..] == Each(EntryBytes, entries[1..]);
      assert TreeSizes(entries)[1..] == TreeSizes(entries[1..]);
      EntryLength(entries[0]);
    }
  }

  lemma EntryLength(e: TreeEntry)
    requires IsDigest(e.target)
    ensures |EntryBytes(e)| == TreeEntryBytes(e)
  {
  }

  /** Exactly these objects have an encoding. */
  lemma EncodesIffAllowed(o: Object)
    ensures Encode(o).Ok? <==> Allowed(o)
  {
    hide Encode;
    EncodesIffStorable(o);
    match o
    case Tree(level, entries) => TreeAllowedIs(level, entries);
    case Commit(_, _, _, _, _, _, _, _) => CommitAllowedIs(o);
    case _ =>
  }
}
