/** Writing a file (src/runtime/ingest.py, `_write_stream` and `_write_bytes`): chunk,
    store the chunks, build the blob above them. */
module Ingest {
  import opened ByteStrings
  import opened Model
  import opened Sums
  import opened Partition
  import opened Cdc
  import opened CodecSpec
  import opened Wire
  import opened Shape
  import opened ShapeBounds
  import opened TreeNodes
  import opened BlobNodes
  import opened BlobReader
  import opened ObjectStores

  /** The entry for each chunk of a file. */
  function ChunkEntries(nameOf: Naming, chunks: seq<Bytes>): (entries: seq<BlobEntry>)
    ensures |entries| == |chunks|
    ensures forall i :: 0 <= i < |entries| ==> entries[i] == BlobEntry(nameOf(Chunk(chunks[i])), |chunks[i]|)
  {
    seq(|chunks|, i requires 0 <= i < |chunks| => BlobEntry(nameOf(Chunk(chunks[i])), |chunks[i]|))
  }

  function ChunkObjects(chunks: seq<Bytes>): (objects: seq<Object>)
    ensures |objects| == |chunks|
    ensures forall i :: 0 <= i < |objects| ==> objects[i] == Chunk(chunks[i])
  {
    seq(|chunks|, i requires 0 <= i < |chunks| => Chunk(chunks[i]))
  }

  /** Stored chunks are the level-0 children of a file holding their bytes. */
  lemma {:induction false} ChunksAreContent(objs: Objects, nameOf: Naming, chunks: seq<Bytes>)
    requires Stored(objs, nameOf, ChunkObjects(chunks))
    requires forall i :: 0 <= i < |chunks| ==> chunks[i] != []
    ensures SpansOk(objs, ChunkEntries(nameOf, chunks), 0)
    ensures ContentAll(objs, ChunkEntries(nameOf, chunks), 0) == Concat(chunks)
    ensures SpanOf(ChunkEntries(nameOf, chunks)) == |Concat(chunks)|
  {
    var entries := ChunkEntries(nameOf, chunks);
    forall i | 0 <= i < |entries|
      ensures SpanOk(objs, entries[i], 0)
    {
      assert nameOf(ChunkObjects(chunks)[i]) in objs;
    }
    if chunks != [] {
      assert ChunkEntries(nameOf, chunks[1..]) == entries[1..];
      forall i | 0 <= i < |chunks| - 1
        ensures var o := ChunkObjects(chunks[1..])[i]; nameOf(o) in objs && objs[nameOf(o)] == o
      {
        assert ChunkObjects(chunks[1..])[i] == ChunkObjects(chunks)[i + 1];
      }
      ChunksAreContent(objs, nameOf, chunks[1..]);
      assert nameOf(ChunkObjects(chunks)[0]) in objs;
      assert ContentOf(objs, entries[0], 0) == chunks[0];
    }
  }

  lemma ExtendedStores(objs: Objects, more: Objects, nameOf: Naming, nodes: seq<Object>)
    requires Extends(objs, more) && Stored(objs, nameOf, nodes)
    ensures Stored(more, nameOf, nodes)
  {
  }

  /** What the codec asks of every chunk: not empty, and at most four MiB. */
  predicate ChunksFit(chunks: seq<Bytes>)
  {
    forall i :: 0 <= i < |chunks| ==> ChunkOk(chunks[i])
  }

  /** The name of a file cut into these chunks, unless a chunk or a node is refused. */
  function NameOfChunks(nameOf: Naming, chunks: seq<Bytes>, p: ShapeParams): (root: Option<Name>)
  {
    if ChunksFit(chunks) then BlobBuild(ChunkEntries(nameOf, chunks), p, nameOf).root else None
  }

  /** Storing the chunks one by one stops at the first that the codec refuses. */
  method PutChunks(store: ObjectStore, chunks: seq<Bytes>, nowUs: int) returns (entries: Option<seq<BlobEntry>>)
    requires store.Valid()
    modifies store
    ensures store.Valid() && Extends(old(store.objects), store.objects)
    ensures entries == if ChunksFit(chunks) then Some(ChunkEntries(store.nameOf, chunks)) else None
    ensures entries.Some? ==> Stored(store.objects, store.nameOf, ChunkObjects(chunks))
  {
    hide NamesEncodings, Injective, Extends, Stored, FormOk, ChunkOk, Encode, KindTag;
    ghost var objects := ChunkObjects(chunks);
    var done: seq<BlobEntry> := [];
    NothingPut(store.objects, store.nameOf);
    for i := 0 to |chunks|
      invariant store.Valid() && Extends(old(store.objects), store.objects)
      invariant Stored(store.objects, store.nameOf, objects[..i])
      invariant done == ChunkEntries(store.nameOf, chunks)[..i]
      invariant forall j :: 0 <= j < i ==> ChunkOk(chunks[j])
    {
      ChunkHasForm(chunks[i]);
      OnePut(old(store.objects), store.objects, store.nameOf, objects, i);
      var r := store.PutObject(Chunk(chunks[i]), 0, nowUs);
      if r.Err? {
        return None;
      }
      done := done + [BlobEntry(store.nameOf(Chunk(chunks[i])), |chunks[i]|)];
    }
    assert objects[..|chunks|] == objects;
    assert done == ChunkEntries(store.nameOf, chunks);
    entries := Some(done);
  }

  lemma ChunkHasForm(data: Bytes)
    ensures FormOk(Chunk(data)) <==> ChunkOk(data)
  {
  }

  lemma EmittedNodesHaveForm(p: ShapeParams, nameOf: Naming, entries: seq<BlobEntry>)
    ensures forall o :: o in BlobBuild(entries, p, nameOf).emitted ==> FormOk(o)
  {
    hide BlobBuild;
    EmittedBlobsAreValid(p, nameOf, entries);
  }

  /** Store the chunks and build the file over them. */
  method WriteChunks(store: ObjectStore, chunks: seq<Bytes>, p: ShapeParams, nowUs: int) returns (root: Option<Name>)
    requires store.Valid() && forall i :: 0 <= i < |chunks| ==> chunks[i] != []
    modifies store
    ensures store.Valid() && Extends(old(store.objects), store.objects)
    ensures root == NameOfChunks(store.nameOf, chunks, p)
    ensures root.Some? ==>
              ReadableBlob(store.objects, root.value) && FileBytes(store.objects, root.value) == Concat(chunks)
  {
    hide ReadableBlob, FileBytes, NamesEncodings, Injective, FormOk;
    var entries := PutChunks(store, chunks, nowUs);
    if entries.None? {
      return None;
    }
    ghost var withChunks := store.objects;
    var b := BuildBlob(entries.value, p, store.nameOf);
    EmittedNodesHaveForm(p, store.nameOf, entries.value);
    var _ := store.PutAll(b.emitted, nowUs);
    ExtendedStores(withChunks, store.objects, store.nameOf, ChunkObjects(chunks));
    root := b.root;
    if root.Some? {
      ChunksAreContent(store.objects, store.nameOf, chunks);
      BlobBuildRefines(store.objects, p, store.nameOf, entries.value);
    }
  }

  /** `_write_stream`: whatever reads the source splits into, the stored file holds
      exactly what was read. */
  method WriteStream(store: ObjectStore, blocks: seq<Bytes>, cp: ChunkParams, p: ShapeParams, nowUs: int)
    returns (root: Option<Name>)
    requires store.Valid() && cp.Valid()
    requires forall i :: 0 <= i < |blocks| ==> blocks[i] != []
    modifies store
    ensures store.Valid() && Extends(old(store.objects), store.objects)
    ensures root == FileName(store.nameOf, Concat(blocks), cp, p)
    ensures root.Some? ==>
              ReadableBlob(store.objects, root.value) && FileBytes(store.objects, root.value) == Concat(blocks)
  {
    var chunks := ChunkStream(blocks, cp);
    ChunksPartitionTheInput(cp, Concat(blocks));
    root := WriteChunks(store, chunks, p, nowUs);
  }

  /** `_write_bytes`. */
  method WriteBytes(store: ObjectStore, data: Bytes, cp: ChunkParams, p: ShapeParams, nowUs: int)
    returns (root: Option<Name>)
    requires store.Valid() && cp.Valid()
    modifies store
    ensures store.Valid() && Extends(old(store.objects), store.objects)
    ensures root == FileName(store.nameOf, data, cp, p)
    ensures root.Some? ==> ReadableBlob(store.objects, root.value) && FileBytes(store.objects, root.value) == data
  {
    var chunks := ChunkBytes(data, cp);
    ChunksPartitionTheInput(cp, data);
    root := WriteChunks(store, chunks, p, nowUs);
  }

  /** A file's name is a function of its bytes alone. */
  function FileName(nameOf: Naming, data: Bytes, cp: ChunkParams, p: ShapeParams): (root: Option<Name>)
    requires cp.Valid()
  {
    NameOfChunks(nameOf, Chunks(cp, data), p)
  }

  // ---- which files are stored ----

  /** A file under 2^64 bytes is stored exactly when every chunk it is cut into fits. */
  lemma FileIsStoredIffChunksFit(nameOf: Naming, data: Bytes, cp: ChunkParams, p: ShapeParams)
    requires cp.Valid() && SafeBlobShape(p) && |data| < TWO_64
    ensures FileName(nameOf, data, cp, p).Some?
            <==> forall i :: 0 <= i < |Chunks(cp, data)| ==> |Chunks(cp, data)[i]| <= MAX_CHUNK_BYTES
  {
    hide BlobBuild;
    var chunks := Chunks(cp, data);
    ChunksPartitionTheInput(cp, data);
    SpanOfChunks(nameOf, chunks);
    SafeBlobBuildSucceeds(p, nameOf, ChunkEntries(nameOf, chunks));
  }

  /** Every file under 2^64 bytes is stored, whatever the gear table and the masks. */
  ghost predicate FilesAlwaysStored(nameOf: Naming, cp: ChunkParams, p: ShapeParams)
    requires cp.Valid()
  {
    forall gear: Byte -> nat, short: nat -> bool, long: nat -> bool, data: Bytes
      {:trigger FileName(nameOf, data, cp.(gear := gear, hitsShort := short, hitsLong := long), p)} ::
      |data| < TWO_64 ==> FileName(nameOf, data, cp.(gear := gear, hitsShort := short, hitsLong := long), p).Some?
  }

  /** Exactly the chunk sizes that never lead to a refusal. */
  lemma FilesAlwaysStoredIff(nameOf: Naming, cp: ChunkParams, p: ShapeParams)
    requires cp.Valid() && SafeBlobShape(p)
    ensures FilesAlwaysStored(nameOf, cp, p) <==> cp.maxSize <= MAX_CHUNK_BYTES
  {
    hide FileName, Chunks, SafeBlobShape;
    if cp.maxSize <= MAX_CHUNK_BYTES {
      forall gear: Byte -> nat, short: nat -> bool, long: nat -> bool, data: Bytes | |data| < TWO_64
        ensures FileName(nameOf, data, cp.(gear := gear, hitsShort := short, hitsLong := long), p).Some?
      {
        var q := cp.(gear := gear, hitsShort := short, hitsLong := long);
        ChunksPartitionTheInput(q, data);
        FileIsStoredIffChunksFit(nameOf, data, q, p);
      }
    } else {
      var data := OversizedChunk();
      var q := cp.(gear := _ => 0, hitsShort := _ => false, hitsLong := _ => false);
      OneChunk(q, data);
      assert |Chunks(q, data)[0]| > MAX_CHUNK_BYTES;
      FileIsStoredIffChunksFit(nameOf, data, q, p);
      assert FileName(nameOf, data, q, p).None?;
    }
  }

  /** One byte more than a chunk may have. */
  function OversizedChunk(): (data: Bytes)
    ensures |data| == MAX_CHUNK_BYTES + 1
  {
    seq(MAX_CHUNK_BYTES + 1, _ => 0)
  }

  /** Where no mask hits, a file no longer than the largest chunk is one chunk. */
  lemma OneChunk(cp: ChunkParams, data: Bytes)
    requires cp.Valid() && 0 < |data| <= cp.maxSize
    requires forall h :: !cp.hitsShort(h) && !cp.hitsLong(h)
    ensures Chunks(cp, data) == [data]
  {
    if |data| > cp.minSize {
      NothingHits(cp, data, Min(cp.avgSize, |data|), |data|, 0, cp.minSize);
    }
    assert Cut(cp, data) == |data|;
    assert data[..|data|] == data && data[|data|..] == [];
  }

  lemma {:induction false} NothingHits(cp: ChunkParams, data: Bytes, normal: nat, end: nat, fingerprint: nat,
                                       index: nat)
    requires index <= end <= |data|
    requires forall h :: !cp.hitsShort(h) && !cp.hitsLong(h)
    ensures Scan(cp, data, normal, end, fingerprint, index) == end
    decreases end - index
  {
    if index < end {
      NothingHits(cp, data, normal, end, Roll(cp, fingerprint, data[index]), index + 1);
    }
  }

  lemma {:induction false} SpanOfChunks(nameOf: Naming, chunks: seq<Bytes>)
    ensures SpanOf(ChunkEntries(nameOf, chunks)) == |Concat(chunks)|
  {
    if chunks != [] {
      assert ChunkEntries(nameOf, chunks)[1..] == ChunkEntries(nameOf, chunks[1..]);
      SpanOfChunks(nameOf, chunks[1..]);
    }
  }

  /** Write, then read any range: unless a chunk is refused, the slice of the original
      bytes comes back. */
  method WriteThenRead(store: ObjectStore, blocks: seq<Bytes>, cp: ChunkParams, p: ShapeParams, nowUs: int,
                       offset: nat, length: nat)
    returns (part: Option<Bytes>)
    requires store.Valid() && cp.Valid() && SafeBlobShape(p) && |Concat(blocks)| < TWO_64
    requires forall i :: 0 <= i < |blocks| ==> blocks[i] != []
    modifies store
    ensures part.Some? <==> forall c :: c in Chunks(cp, Concat(blocks)) ==> |c| <= MAX_CHUNK_BYTES
    ensures part.Some? ==>
              var data := Concat(blocks);
              part.value == if offset >= |data| then [] else data[offset..Min(offset + length, |data|)]
  {
    hide FileName, ReadableBlob, FileBytes, Extends;
    var root := WriteStream(store, blocks, cp, p, nowUs);
    FileIsStoredIffChunksFit(store.nameOf, Concat(blocks), cp, p);
    if root.None? {
      return None;
    }
    var r, _ := ReadRange(store.objects, root.value, offset, Some(length));
    part := Some(r.value);
  }
}
