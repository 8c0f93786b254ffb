# Ledger: a verified model

Ledger is a content-addressed version control store. Files are cut into chunks and hung
under a tree of nodes; directories are sorted listings cut into nodes the same way; every
node is named by the hash of its one canonical encoding. Refs, an operation log and an
event stream live in a partitioned metadata store, and a collector removes what no ref and
no retained operation reaches.

The model has three parts.

**Immutable structures.** `ByteStrings`, `Wire`, `Validation`, `CodecSpec` and `Codec`
are the encoding, `Layout` its literal bytes and `Utf8` its text; `Cdc` cuts files;
`Partition`, `Shape`, `ShapeRule`, `ShapeBounds` and `BuildLimits` build node trees and say
where nodes end and when a build succeeds;
`TreeNodes`, `TreeReader`, `BlobNodes`, `BlobReader` and `Directory` say what a stored tree
means and read it; `NameOrder`, `DirectoryEdits`, `Canonical` and `Edit` change it; `Diff` compares;
`ObjectStores` and `Ingest` write. Each is tied to a plain thing it must agree with: a
sequence of bytes, a sorted list, a nested map.

**The metadata protocol.** `MetaStore` is the conditioned all-or-nothing transaction.
`RefProtocol` is a state machine of any number of clients that read items one at a time
and then commit; its invariant ties everything stored to the list of committed moves.
`RefGuarantees` and `RefGenerations` read off what callers may rely on and where that
ends. `Repository` is the code's own shape, with other clients committing between any two
accesses. `Events` is the tailing of the change stream.

**Collection.** `Sharding`, `KeepSets` and `Collector` are one cycle; `Closure` and
`Rebuild` are the two worklists, and `ClosureReads` ties the first to reading; `Collection` is the state machine of publishing, moving,
deleting, rebuilding, forking, aborting, waiting and sweeping, with its safety over whole
runs; `CollectionLosses` says exactly when forks, aborts, late publishes and refs set to
foreign commits lose content, with runs that do; and
`CollectionOnStore` ties what is assumed of a rebuild to what a rebuild reads, and safety
to what a reader gets.

## Reading the model

- Names are byte strings of any width given by an arbitrary injective function of the
  object, and the store's hash agrees with it on encodings. No 32-byte hash is injective;
  where 32 bytes matter (the wire format, the shards) they are demanded there.
- The boundary predicate, the gear table and the chunk masks are arbitrary functions, so
  nothing depends on their values.
- Strings are the bytes of their UTF-8 form; UTF-8 is section 3 of RFC 3629. Change ids are
  16 bytes. Fractions are exact.
- A builder that the codec stops returns no root; which exception it was is not kept.
- A request fingerprint is the request. Sequence numbers are keys directly.

## Where the code falls short of what it says

Each of these is a lemma with the condition under which the promise does hold.

- A node is closed after the entry that crosses the budget, and the codec adds seven header
  bytes under the same limit: `BuildLimits.TreesAlwaysBuildIff`, `BuildLimits.ProductionBuilds`.
- Shape parameters with one entry a node, or with a budget one entry can fill, lead to nodes
  with one child: `Partition.NeverLonelyIff`.
- Chunk parameters may ask for chunks larger than the codec takes: `Ingest.FilesAlwaysStoredIff`.
- The last shard's sentinel does not sort above every digest: `Sharding.BoundsMatchShards`.
- Generations restart with a recreated ref: `RefGenerations.RecreatedRefLosesAnUpdate`,
  `RefGenerations.UpdateIsRecordedRightIff`, `RefGenerations.GenerationsCountIff`.
- A retry of an applied request is refused once its ref is gone: `RefGuarantees.RetryIsAnsweredIff`.
- An event stamped before its predecessor can be skipped: `Events.NeverSkipsIff`.
- A fork keeps its head's closure but not its history, although both the collector and the
  ref reach it: `Collection.ForkIsSoundIff`, `CollectionLosses.ForgottenForkIsSafeIff`.
- A publish that fails between moving its ref and graduating ends its session and leaves live
  content unprotected: `CollectionLosses.AbortThenSweepIsSafeIff`.
- A lease can run out before the ref moves, and neither recording nor the move looks:
  `CollectionLosses.ExpiredPublishIsSafeIff`, `CollectionLosses.LatePublishIsSafeIff`.
- A ref can be set to a commit its environment does not keep, until the next rebuild:
  `Collection.SetRefKeepsIff`, `CollectionLosses.SetRefThenSweepIsSafeIff`.
- Listing limits hide leases and refs from the collector: `Collector.LeasesAreSeenIff`,
  `Collector.SweepRespectsLeasesIff`, `Rebuild.RebuildIsWholeIff`, `Rebuild.RebuildThenSweep`.

## Model

| member | source | states |
|---|---|---|
| `CodecSpec.DecodeOfEncode` | src/format/codec.py:149-212 | Every object that encodes decodes back to itself, for all four kinds. |
| `CodecSpec.EncodeOfDecode` | src/format/codec.py:214-345 | Every byte string the decoder accepts is the encoding of what it decodes to, so no object has two encodings. |
| `CodecSpec.EncodingIsABijection` | src/format/codec.py:149-345 | Encoding is injective and decoding is injective on what it accepts. |
| `CodecSpec.EncodesIffStorable` | src/format/codec.py:149-212 | The encoder accepts exactly the storable objects: a stated list of field widths, node sizes, ordering and name rules, and nothing else. |
| `CodecSpec.AcceptedIffCanonical` | src/format/codec.py:136-146 | A byte string is accepted exactly when it is the encoding of some storable object. |
| `Layout.EncodingIsTheseBytes` | src/format/codec.py:149-211 | Every encoding, byte by byte: kind 1 to 4, version 1, level, counts, lengths and numbers most significant byte first, digests as they are, the fields in the order listed, times in two's complement. |
| `Layout.AcceptedAreTheseBytes` | src/format/codec.py:214-345 | Whatever the decoder takes is those bytes of what it returns. |
| `Layout.EncodesIffAllowed` | src/format/codec.py:361-513 | Exactly which objects have an encoding, in literal numbers and from the objects' own fields: sizes, levels, names, modes, order, distinct parents, text lengths. |
| `Utf8.ValidIffText` | src/format/codec.py:348-358 | The text check passes exactly the bytes of some text: code points below 0x110000 that are no surrogates, each in its shortest form. |
| `Utf8.TextsHaveTheirOwnBytes` | src/format/codec.py:348-358 | Two texts with the same bytes are one text. |
| `Utf8.PathsLookDifferent` | src/fs/diff.py:66-67 | Paths of names the codec admits, shown with slashes between them, are the same path when they look the same; no name on one is empty, one dot or two. |
| `Codec.EncodeObject` | src/format/codec.py:149-166 | The encoder, writing field by field into its buffer, produces the specified encoding or fails as the specification does. |
| `Codec.DecodeObject` | src/format/codec.py:214-242 | The decoder, advancing its cursor field by field, returns what the specification of decoding says, including every failure. |
| `Codec.IsCanonical` | src/format/codec.py:136-146 | `is_canonical` is true exactly of the byte strings that are some object's encoding. |
| `Codec.EncodeTree` | src/format/codec.py:184-191 | The tree encoder gains exactly the specified payload, or fails without claiming success. |
| `Codec.EncodeBlob` | src/format/codec.py:174-181 | The same for file nodes. |
| `Codec.EncodeCommit` | src/format/codec.py:194-211 | The same for commits: parents, signed timestamp, nested lengths and ordered metadata. |
| `Codec.DecodeTreeBody` | src/format/codec.py:290-315 | The tree decoder consumes exactly the specified bytes and applies the size, level, order and name checks. |
| `Codec.DecodeBlobBody` | src/format/codec.py:274-287 | The file-node decoder, likewise. |
| `Codec.DecodeCommitBody` | src/format/codec.py:318-345 | The commit decoder, likewise. |
| `Wire.UintLaws` | src/format/wire.py:52-75 | A fixed-width unsigned field reads back as written and writes back as read, whatever follows it. |
| `Wire.I64Laws` | src/format/wire.py:76-81 | Signed 64-bit fields round trip in two's complement. |
| `Wire.BytesLaws` | src/format/wire.py:91-106 | Length-prefixed byte strings round trip, whatever follows them. |
| `Wire.AllReadsBack` | src/format/wire.py:115-195 | A counted list of fields reads back, given that each element does. |
| `Wire.AllWritesBack` | src/format/wire.py:115-195 | And writes back what was read. |
| `Wire.Writer.Uint` | src/format/wire.py:52-75 | Appends the big-endian bytes, or leaves the buffer alone when the value does not fit. |
| `Wire.Cursor.TakeBytes` | src/format/wire.py:137-150 | Advances by exactly `n`, or fails without moving when fewer remain. |
| `Wire.Cursor.ExpectExhausted` | src/format/wire.py:183-195 | Passes exactly when nothing is left. |
| `Validation.ValidateTreeEntries` | src/format/codec.py:431-484 | The validating loop accepts exactly the entry lists that satisfy the stated rules. |
| `Validation.ValidateCommit` | src/format/codec.py:486-514 | The commit checks accept exactly what the rules allow; duplicate parents are found by comparing the set's size. |
| `Validation.SetSizeShowsDuplicates` | src/format/codec.py:497-500 | A list has as many distinct members as places exactly when it has no duplicate. |
| `Validation.AscendingPairwise` | src/format/codec.py:431-445 | Comparing neighbours orders every pair. |
| `Cdc.CutPoint` | src/format/cdc.py:153-194 | The loop returns the specified cut. |
| `Cdc.CutIsTheFirstHit` | src/format/cdc.py:153-194 | A short input is one chunk. Otherwise the cut is the first position from the minimum size on whose fingerprint, the sum of the gear values of the bytes from there weighted 1, 2, 4, … from the last, modulo 2^64, hits the short mask below the average size or the long one from there on; or the maximum size, or the end. |
| `Cdc.HashIsTheWeightedSum` | src/format/cdc.py:181-192 | The rolled fingerprint is that sum. |
| `Cdc.ChunkBytes` | src/format/cdc.py:197-210 | The loop yields the specified chunks of the whole input. |
| `Cdc.ChunksPartitionTheInput` | src/format/cdc.py:197-210 | The chunks join to the input; all but the last are at least the minimum, none exceeds the maximum or is empty. |
| `Cdc.ChunkStream` | src/format/cdc.py:213-247 | However a source splits its reads, the stream yields exactly the chunks of the whole input. |
| `Cdc.CutNeedsOnlyMaxSize` | src/format/cdc.py:213-247 | A cut depends on no more than the maximum size of look-ahead. |
| `Cdc.LowBitsForgetTheStart` | src/format/cdc.py:153-194 | The low k bits of the gear hash depend only on the last k bytes. |
| `Cdc.HashForgetsTheStart` | src/format/cdc.py:153-194 | After 64 hashed bytes the start no longer matters. |
| `Cdc.CutsBeforeEditStay` | src/format/cdc.py:153-194 | An edit leaves every cut decided before it where it was. |
| `Cdc.SharedCutResynchronises` | src/format/cdc.py:153-194 | Once two inputs with the same remaining bytes share a cut, all later cuts coincide. |
| `Partition.SplitKeys` | src/format/shape.py:134-177 | The splitting loop returns the specified run ends. |
| `Partition.EnsureNoLonelyTail` | src/format/shape.py:180-223 | The in-place tail fix returns the specified ends. |
| `Partition.RunsAreNotLonely` | src/format/shape.py:134-223 | With at least two entries a node and no entry filling one alone, every interior node has two children or more, and so has every leaf but the last. |
| `Partition.NeverLonelyIff` | src/format/shape.py:134-223 | And only then: for a bound on entry sizes, no boundary predicate, keys or sizes give a single-child node exactly when nodes must hold two entries and the bound is below the byte budget. |
| `Partition.RunsWithinBudget` | src/format/shape.py:134-223 | Every node exceeds the byte budget by at most the entry that crosses it; only the last, where the tail was merged, may instead hold up to three entries. |
| `Partition.LonelyThree` | src/format/shape.py:107-113 | Any other parameters give one: three entries that each fill a node, or are each a boundary. |
| `Partition.RawRunsEndWhereTheyClose` | src/format/shape.py:134-177 | Every node but the last ends where the closing rule first holds. |
| `ShapeRule.TreeNodesEndByTheRule` | src/format/shape.py:112-177 | Every emitted directory node, by its own level and entries: no entry but the last could have ended it (the byte budget, the cap, or a boundary after the name at that level once there are enough entries), except in the fixed tail of an interior level; and its last entry does end it, unless it is among the last two of its level. |
| `ShapeRule.BlobNodesEndByTheRule` | src/format/shape.py:112-177 | The same for file nodes, keyed by the digest of the child, forty bytes an entry. |
| `Partition.EndsBeforeEditStay` | src/format/shape.py:134-177 | Before the tail fix, an edit leaves every node that closed before it. |
| `Partition.LaterEndsDependOnTheSuffix` | src/format/shape.py:134-177 | Before the tail fix, ends after a shared end depend only on the remaining entries. |
| `Partition.SlicesPartition` | src/format/shape.py:134-177 | The runs join to the list, so no entry is lost or repeated. |
| `Shape.BuildTree` | src/format/shape.py:278-325 | The level loop emits and returns exactly what the recursive definition of the build says, or stops at the first node the codec refuses. |
| `Shape.BuildBlob` | src/format/shape.py:236-275 | The same for files. |
| `Shape.RejectUnsorted` | src/format/shape.py:328-334 | Accepts exactly strictly ascending listings. |
| `Shape.RunsShrink` | src/format/shape.py:278-325 | Each level is shorter than the one below, so a build terminates. |
| `ShapeBounds.BuildIsShallow` | src/format/shape.py:236-325 | A node emitted at level h > 0 above a list of n has 2^(h+1) <= n + 1: depth is at most logarithmic. |
| `ShapeBounds.SafeTreeBuildIsShallow` | src/format/shape.py:278-325 | That bound for directories under the safe parameters. |
| `ShapeBounds.SafeTreeBuildSucceeds` | src/format/shape.py:278-325 | When the node budget leaves room for the entry that crosses it and the header, or the cap on entries steps in first, no legal listing is refused and the level limit is never met. |
| `ShapeBounds.SafeBlobBuildSucceeds` | src/format/shape.py:236-275 | No list of chunks of total size under 2^64 is refused. |
| `ShapeBounds.SafeBlobBuildIsShallow` | src/format/shape.py:236-275 | The logarithmic bound for files. |
| `ShapeBounds.EmittedTreesAreValid` | src/format/codec.py:374-408 | Every node a directory build emits passes the codec's validation, whatever the parameters. |
| `ShapeBounds.EmittedBlobsAreValid` | src/format/codec.py:374-408 | Every node a file build emits does. |
| `BuildLimits.TreeBuildsIffRunsFit` | src/format/shape.py:278-325 | With two entries a node and a budget above 299 bytes, one listing builds exactly when, at every level the build reaches, every run of the partition with its header fits the node limit. The condition a caller can check is `TreesAlwaysBuildIff`. |
| `BuildLimits.TreesAlwaysBuildIff` | src/format/shape.py:107-170 | The exact parameters under which every legal listing builds, wherever boundaries fall: two entries a node, 299 bytes below the budget, and budget - 1 + 299 + 7 or 299 times the cap + 7 within the node limit. |
| `BuildLimits.BlobsAlwaysBuildIff` | src/format/shape.py:236-275 | The same for files: two entries a node, and the cap on entries or the budget within what 3276 children take. |
| `BuildLimits.LongRunIsRefused` | src/format/shape.py:160-170 | For every budget and cap outside that condition, one fixed legal listing of 439 names without a boundary is refused. |
| `BuildLimits.ProductionBuilds` | src/format/shape.py:117-170 | The production values always build files and do not always build directories: that listing is refused. |
| `TreeNodes.TreeBuildRefines` | src/format/shape.py:278-325 | The stored build of a listing is well-formed and lists exactly that listing, whatever the boundary predicate. |
| `TreeNodes.FlatStable` | src/fs/tree.py:177-198 | Storing more objects changes nothing about a tree that was there. |
| `BlobNodes.BlobBuildRefines` | src/format/shape.py:236-275 | The stored build of a chunk list is a file holding their bytes. |
| `TreeReader.Lookup` | src/fs/tree.py:77-104 | Descending by routing keys finds exactly what a map lookup finds. |
| `TreeReader.FindsOne` | src/fs/tree.py:107-113 | There is only one right answer to a lookup. |
| `TreeReader.IterYieldsTheRest` | src/fs/tree.py:177-198 | The stream after a cursor is exactly the entries above it, though whole subtrees are skipped. |
| `TreeReader.ListDir` | src/fs/tree.py:149-174 | A page is the next `limit` entries, with a cursor exactly when more follow. |
| `TreeReader.AfterResumes` | src/fs/tree.py:149-174 | Resuming after an entry yields exactly what followed it. |
| `TreeReader.PagingIsComplete` | src/fs/tree.py:149-174 | Following cursors yields every entry once and in order; every page but the last is full and no empty page follows. |
| `Directory.ResolvePath` | src/fs/tree.py:116-146 | A path resolves exactly to the item the nested map has there; missing names and paths through files are not found. |
| `Directory.RepresentsOneDirectory` | src/fs/tree.py:77-198 | A root name stands for one nested map only. |
| `BlobReader.ReadRange` | src/fs/blob.py:74-119 | A ranged read is the slice of the file, negative arguments are refused, and every node fetched overlaps the range. |
| `BlobReader.DescentYieldsTheWindow` | src/fs/blob.py:143-155 | The pruned descent yields exactly the bytes in the range. |
| `BlobReader.DescentFetchesOnlyOverlaps` | src/fs/blob.py:143-155 | It visits no child outside the range. |
| `BlobReader.ReadAllBytes` | src/fs/blob.py:82-86 | Reading everything gives the file's bytes. |
| `ObjectStores.ObjectStore.constructor` | src/store/cas.py:96-116 | A new store is empty and valid. |
| `ObjectStores.ObjectStore.PutEncoded` | src/store/cas.py:156-200 | Stores under the object's name, records new names in the catalog only, and clears the tombstone. |
| `ObjectStores.ObjectStore.PutObject` | src/store/cas.py:149-154 | Encodes and stores: an object without an encoding is refused with the encoder's error and nothing changes. |
| `ObjectStores.ObjectStore.Put` | src/store/cas.py:118-147 | Bytes are taken exactly when they hash to their name and are canonical; otherwise nothing changes. |
| `ObjectStores.ObjectStore.Get` | src/store/cas.py:202-215 | What is read verifies against its name. |
| `ObjectStores.ObjectStore.Missing` | src/store/cas.py:246-270 | A name is owed exactly when it is not stored or is tombstoned. |
| `ObjectStores.ObjectStore.Delete` | src/store/cas.py:272-283 | Objects and catalog rows go together; the count is of those present. |
| `ObjectStores.ObjectStore.RecordTombstones` | src/store/tombstone.py:121-128 | An earlier tombstone keeps its expiry. |
| `ObjectStores.PutTwice` | src/store/cas.py:149-200 | Storing twice is storing once, or is refused twice. |
| `Ingest.PutChunks` | src/runtime/ingest.py:269-273 | Chunks are stored one by one up to the first that the codec refuses; all are, and get their entries, exactly when every chunk fits. |
| `Ingest.WriteStream` | src/runtime/ingest.py:269-277 | Whatever blocks a source is read in, the stored file holds exactly what was read and its name depends on the bytes alone; a refused chunk or node gives no file. |
| `Ingest.WriteBytes` | src/runtime/ingest.py:279-287 | The same for bytes in memory. |
| `Ingest.FileIsStoredIffChunksFit` | src/format/codec.py:361-371 | A file under 2^64 bytes is stored exactly when no chunk it is cut into exceeds four MiB. |
| `Ingest.FilesAlwaysStoredIff` | src/format/cdc.py:79-150 | Every such file is, whatever the gear table and masks, exactly when the maximum chunk size is at most four MiB; otherwise a file one byte over is refused. |
| `Ingest.WriteThenRead` | src/fs/blob.py:74-119 | Writing a file and reading any range gives that slice of the original bytes, exactly when every chunk fits. |
| `DirectoryEdits.EditTakesEffect` | src/fs/edit.py:103-144 | The edited path holds what was put, or nothing. |
| `DirectoryEdits.EditKeepsTheRest` | src/fs/edit.py:103-144 | Every unrelated path keeps what it held. |
| `DirectoryEdits.EditRefusedIff` | src/fs/edit.py:103-144 | An edit is refused exactly when its path leads through a file. |
| `DirectoryEdits.EditMakesDirectoriesForPuts` | src/fs/edit.py:103-144 | Directories on the way are there afterwards exactly if they were, or something was put. |
| `DirectoryEdits.EditsCommute` | src/fs/edit.py:103-144 | Edits at unrelated paths give the same map in either order, missing directories included. |
| `NameOrder.SortsOneWay` | src/fs/edit.py:143-144 | A set of names has one ascending listing. |
| `Canonical.CanonRepresents` | src/format/shape.py:278-325 | The built form of a nested map represents it. |
| `Canonical.CanonIsStable` | src/fs/edit.py:1-20 | Old trees stay readable as the store grows. |
| `Canonical.LegalIsBuilt` | src/format/shape.py:278-325 | Under the safe parameters every legal nested map has a built form. |
| `Edit.Apply` | src/fs/edit.py:103-144 | Whatever shortcut is taken, the result is the name of the edited map's built form, or the refusal the edit or the builder calls for. |
| `Edit.SetPath` | src/fs/edit.py:60-75 | `set_path` returns the built form of the map with the path set; the empty path is refused. |
| `Edit.RemovePath` | src/fs/edit.py:78-100 | `remove_path` returns the built form of the map without the path; absence is no error and emptied directories stay. |
| `Edit.EmptyTree` | src/fs/edit.py:54-57 | The empty directory's root. |
| `Edit.ReadEntries` | src/fs/edit.py:116-116 | The dictionary read from a stored directory holds exactly its entries. |
| `NameOrder.SortNames` | src/fs/edit.py:143-143 | The sort returns the one ascending listing of the keys. |
| `Edit.RootNameIsTheMap` | src/fs/edit.py:103-144 | In a store two built directories have one root name exactly when they are one nested map. |
| `Edit.EditOrderDoesNotMatter` | src/fs/edit.py:103-144 | Unrelated edits reach the same root name in either order. |
| `Diff.DiffTrees` | src/fs/diff.py:70-90 | The changes, made in order, turn the flattened `before` into the flattened `after` on every path; each names what is really there; none is about a path on which the sides agree. Any node shapes. |
| `Diff.ListedIffDifferent` | src/fs/diff.py:123-141 | A path is listed exactly when a file stands there on one side only, or on both with another kind, content or mode. |
| `Diff.MergeJoin` | src/fs/diff.py:93-120 | The two-index join, for two ordered lists. |
| `Diff.Compare` | src/fs/diff.py:123-141 | One pair of entries of one name, kind changes included. |
| `Diff.AddedBelow` | src/fs/diff.py:144-149 | Everything below an added entry is reported added. |
| `Diff.RemovedBelow` | src/fs/diff.py:152-157 | Everything below a removed entry is reported removed. |
| `Sharding.BoundsMatchShards` | src/store/sharding.py:30-62 | For every bit width from 1 to 24 a digest lies in a shard's byte range exactly when it is of that shard, except digests past the sentinel of the last one. |
| `Sharding.PastTheEndIsInTheLastShard` | src/store/sharding.py:58-61 | A digest starting with four 0xFF bytes belongs to the last shard, whose scan does not reach it. |
| `Sharding.EveryDigestHasAShard` | src/store/sharding.py:30-38 | Every digest has one shard within the count. |
| `KeepSets.ScanShard` | src/store/catalog.py:114-122 | A shard scan lists, in digest order and once, exactly the names of the shard that are not past the end. |
| `KeepSets.KeepSetTable.Merge` | src/store/keepsets.py:100-107 | Only the one environment's set grows; the count is of new names. |
| `KeepSets.KeepSetTable.Replace` | src/store/keepsets.py:109-123 | The set becomes exactly what is given; others stay. |
| `KeepSets.KeepSetTable.Drop` | src/store/keepsets.py:125-127 | One environment's set is emptied and its size reported. |
| `KeepSets.LiveAfterDrops` | src/store/keepsets.py:125-138 | After some environments' sets are dropped, a name is live exactly when an environment that stays needed it. |
| `KeepSets.HeldAfterMerge` | src/store/keepsets.py:100-149 | What is merged into one environment is all held there and live; what another holds is what it held. |
| `KeepSets.KeepSetTable.IterShard` | src/store/keepsets.py:151-158 | One shard of what is needed anywhere, each name once. |
| `Collector.OpenLeases` | src/maintenance/gc.py:319-333 | Exactly what the listed sessions with an open lease hold on their listed pages. |
| `Collector.UploadedObjects` | src/meta/repository.py:915-918 | The names on the first 100,000 pages of a session, in order. |
| `Collector.EveryLeaseIsSeen` | src/maintenance/gc.py:319-333 | Within the three listing limits (environments, sessions, pages) no open lease is missed. |
| `Collector.LeasesAreSeenIff` | src/maintenance/gc.py:319-333 | From the numbers of environments, sessions and pages alone: whatever is leased on them is seen exactly when every page lies within the three limits. |
| `Collector.SweepRespectsLeasesIff` | src/maintenance/gc.py:283-333 | A sweep leaves everything leased in place exactly when no old, unkept name is leased by unlisted sessions or on unlisted pages alone. |
| `Collector.ALeaseCanBeMissed` | src/maintenance/gc.py:328-328 | Beyond 10,000 environments one can be. |
| `Collector.MakePlan` | src/maintenance/gc.py:218-276 | The shard-by-shard plan is the whole-table difference: stored, old enough, neither kept nor leased, each once; sizes, counts and the breaker's verdict follow. |
| `Collector.PlanShard` | src/maintenance/gc.py:252-263 | One shard's rows judged against that shard's live set. |
| `Collector.Run` | src/maintenance/gc.py:283-313 | A report changes nothing; a sweep removes exactly the planned names, tombstones them all with their expiry, and keeps what is kept, leased or recent. From the floor on no sweep removes more than the allowed share of the corpus; and one that was asked for and held back would have. |
| `Collector.CircuitBreaker` | src/maintenance/gc.py:505-535 | The breaker trips exactly when the corpus is not below the floor and more than the allowed share of it would go. |
| `Closure.Walk` | src/fs/closure.py:52-92 | The worklist returns seed and reachable names, each once; on a readable tree, all of them and no failure. |
| `Closure.TreeClosure` | src/fs/closure.py:38-40 | Exactly what the tree reaches. |
| `Closure.CommitClosure` | src/fs/closure.py:43-49 | The commit and what its tree reaches, without its parents. |
| `ClosureReads.ClosureIsWhatReadingNeeds` | src/fs/closure.py:1-92 | A store that holds some of the objects reads a directory in full, every path and every byte of every file, exactly when it holds the closure of the root; and then the bytes are the same. Nothing in a closure is missing, and nothing is spare. |
| `ClosureReads.WholeIsIntact` | src/fs/closure.py:52-92 | A directory that can be read in full can be walked: the walk meets nothing it cannot read. |
| `Rebuild.WalkHistory` | src/maintenance/gc.py:440-503 | A walk adds the head's ancestors and what they keep, sharing what earlier heads visited, where only trees that cannot be read may be missing; it gives up only when more than 100,000 commits lie behind the head. |
| `Rebuild.RebuildKeepSet` | src/maintenance/gc.py:375-438 | A complete rebuild on readable trees leaves the least set that holds every listed ref and both sides of every listed retained operation that are stored commits, and with a commit everything its tree reaches and every stored commit among its parents. Where trees cannot be read only their content may be missing; an incomplete rebuild changes no keep-set. |
| `Rebuild.HeadsAreTheListed` | src/maintenance/gc.py:400-422 | The walk starts from exactly the first thousand refs and both sides of those of the first ten thousand operations that are retained. |
| `Rebuild.RebuildIsWholeIff` | src/maintenance/gc.py:375-438 | The rebuilt set covers every root's history exactly when each stored commit that is a root beyond the limits is an ancestor of a listed one. |
| `Rebuild.ARefBeyondTheLimitIsForgotten` | src/meta/repository.py:276-280 | A thousand refs to one first commit hide the thousand-and-first: a live root that no listed root has as an ancestor. |
| `Rebuild.RebuildThenSweep` | src/maintenance/gc.py:283-438 | A rebuild and a sweep together: of old, unleased commits that no other environment keeps, exactly the ancestors of listed roots survive, whatever other refs name. |
| `Collection.CollectionIsSafe` | src/maintenance/gc.py:218-315 | After any run of publishes, ref moves, undos, deletions, rebuilds that finish or give up, clock advances, forks, aborts and sweeps in which every step is careful, everything the full history of a live ref or a retained operation reaches is stored. |
| `Collection.ActKeepsIff` | src/service/commits.py:105-218 | Every step keeps the invariant exactly when it is careful. The invariant: each environment's protection is closed under commits, holds every root and is stored, and no lease has run out between recording and graduating. Not always careful are forks (careful for first commits), ends of sessions (when the content is protected without the session), refs set to a given target (when it is a commit the environment protects), and recording and waiting: these two never touch protection, and their condition is what the invariant says of leases. |
| `Collection.SetRefKeepsIff` | src/service/refs.py:60-88 | A ref may be set to a commit its environment protects, and to nothing else, if the environment is to stay protected. |
| `Collection.RecordProtects` | src/meta/repository.py:878-913 | Recording, however late, leaves every environment protected as it was. |
| `Collection.WaitProtects` | src/maintenance/gc.py:319-333 | Waiting, whatever leases run out, leaves every environment protected as it was, and loses nothing yet. |
| `Collection.MoveRefKeeps` | src/service/commits.py:180-207 | A published commit's content stays protected from recording through the ref move, whatever the ref has become. |
| `Collection.GraduateProtects` | src/service/commits.py:208-213 | Graduating hands a session's content from the lease to the keep-set without a gap. |
| `Collection.AbortKeepsIff` | src/service/commits.py:208-218 | A session may end at any point; ending after the ref moved keeps the environment protected exactly when all it recorded is in the keep-set or another such session. |
| `Collection.SweepKeeps` | src/maintenance/gc.py:283-313 | A sweep takes nothing an environment keeps or an open session holds. |
| `Collection.RebuildKeeps` | src/maintenance/gc.py:375-438 | A rebuild drops nothing a root or an unfinished publish needs. |
| `Collection.DeleteRefKeeps` | src/service/refs.py:90-125 | Deleting a ref and rebuilding keeps what the other roots need. |
| `Collection.CoversIffFirst` | src/service/environments.py:98-118 | A commit's own closure is its whole history exactly when it has no parent commit but itself. |
| `Collection.ForkIsSoundIff` | src/service/environments.py:98-118 | A fork leaves its environment protected exactly when its head has no parent commit but itself. |
| `CollectionLosses.ForgottenForkIsSafeIff` | src/service/environments.py:98-118 | Fork a lone ref, delete it, let the log age out, rebuild and sweep: what the fork's live ref reaches is all stored exactly when its head was a first commit; otherwise its parents are gone. |
| `CollectionLosses.AForkLosesItsPast` | src/service/environments.py:60-118 | A run of those steps from an empty store, with two commits, that loses the first. |
| `CollectionLosses.AbortThenSweepIsSafeIff` | src/service/commits.py:208-218 | When a session ends after its ref has moved and before it graduates, a sweep leaves all roots whole exactly when nothing it recorded is old enough, in no keep-set and under no open lease. |
| `CollectionLosses.AnAbortedPublishIsLost` | src/service/commits.py:208-218 | A run from an empty store in which the commit a live ref names is swept. |
| `CollectionLosses.ExpiredPublishIsSafeIff` | src/service/commits.py:132-213 | A publish has recorded its content, time passes, a sweep runs and its ref moves: all roots stay whole exactly when nothing it recorded is old enough, in no keep-set and under no open lease at the sweep. Other publishes past their ref move must keep their leases. |
| `CollectionLosses.AnExpiredPublishIsLost` | src/service/commits.py:132-213 | A run from an empty store in which a lease runs out before the ref moves, and the ref moves to a swept commit. |
| `CollectionLosses.LatePublishIsSafeIff` | src/meta/repository.py:878-913 | A build that outlasts its lease still records and moves its ref: with a sweep before the move, all roots stay whole exactly when the sweep finds the new commit's history and leaves it; if its parents are still protected, exactly when it leaves what the commit itself keeps. |
| `CollectionLosses.SetRefThenSweepIsSafeIff` | src/service/refs.py:60-88 | A ref is set to any target, time passes and a sweep runs: all roots stay whole exactly when the sweep finds the target's history and leaves it. |
| `CollectionLosses.AnUnkeptTargetIsLost` | src/service/refs.py:60-125 | A run from an empty store in which a ref is set to a commit only another environment keeps, that environment's ref is deleted, and the commit is swept. |
| `Collection.ClosedHoldsHistory` | src/maintenance/gc.py:440-480 | A set closed under commits holds the whole history of any commit in it. |
| `CollectionOnStore.RebuildFromTheStore` | src/maintenance/gc.py:375-438 | In a sound state, walking what is stored finds the histories as they are, so the rebuild the safety argument assumes is the one the collector computes. |
| `CollectionOnStore.SweepTakesIff` | src/maintenance/gc.py:239-313 | A stored name is gone after a sweep exactly when it is past the grace period, no environment keeps it, no session with an open lease recorded it, and the scan reaches it. |
| `CollectionOnStore.RecordingKeepsWriteTimes` | src/meta/repository.py:878-913 | Content already stored keeps its first write time when it is written again; the session records all the commit keeps, whether it wrote it or not. |
| `CollectionOnStore.EveryVersionStaysReadable` | src/maintenance/gc.py:218-503 | After any careful run, from a live ref or a retained operation along any line of parents: each commit is stored, and its directory is read from what is stored, with every file's bytes as they were. |
| `MetaStore.MetadataStore.TransactWrite` | src/meta/store.py:467-500 | All writes or none; a refusal names the first condition that failed inside the transaction; spanning partitions is refused. |
| `MetaStore.TransactionStaysInItsPartition` | src/meta/store.py:467-537 | A transaction changes no item and no event of another partition. |
| `MetaStore.OthersAreUntouched` | src/meta/store.py:467-500 | The same through the store's transaction. |
| `MetaStore.NumbersStayDense` | src/meta/store.py:502-509 | A shard's outbox is numbered 1, 2, 3, … and only grows. |
| `MetaStore.PutsAreCounted` | src/meta/store.py:513-537 | An item a transaction puts: its version grows by the puts, it holds the last of them, it keeps its creation time and gets the new time of update. |
| `MetaStore.EventsAreTheEmits` | src/meta/store.py:501-506 | The outbox gains exactly the transaction's events, in order, numbered on, at its time. |
| `RefProtocol.RunKeeps` | src/meta/repository.py:449-639 | Every run, whatever the clients and the order of their steps, keeps the counter, log, refs, change records, keys and events consistent with the committed moves. |
| `RefProtocol.CommitKeepsRows` | src/meta/repository.py:577-588 | A transaction built from reads made outside it, if it commits, is the next operation and leaves exactly what it should. |
| `RefProtocol.CommitEffect` | src/meta/repository.py:372-401 | What a committed transaction found and left, item by item. |
| `RefProtocol.StepKeeps` | src/meta/repository.py:415-609 | Each read, transaction, re-check and read-back of one client keeps the invariant. |
| `RefGuarantees.LogIsDenseAndReplays` | src/meta/repository.py:449-494 | The stored operations are exactly 1 to next-1, each with the kind, name, before and after of its move; replaying them gives exactly the stored refs and targets; and the events carry the same, in order. |
| `RefGuarantees.ChangesLoseNothing` | src/meta/repository.py:641-650 | Each change record is exactly the newest-first list of targets committed under it, though its write is unconditioned. |
| `RefGuarantees.KeyCommitsOnce` | src/meta/repository.py:674-707 | At most one transaction with a key ever commits. |
| `RefGuarantees.SameKeySameAnswer` | src/meta/repository.py:552-609 | Every answered call with a key and request is answered with the one transaction that carried them. |
| `RefGuarantees.MismatchedRequestIsNeverApplied` | src/meta/repository.py:674-707 | A request refused for reusing a key was never applied under it. |
| `RefGuarantees.RetryIsAnsweredIff` | src/meta/repository.py:355-519 | A retried request, with others acting between its steps, gets its recorded answer exactly when the first read does not stop it and, unless it deletes, the ref is there when the replay reads it back. |
| `RefGuarantees.MissingAfterPreparingWasApplied` | src/meta/repository.py:517-519 | Being told that the ref is missing after the first read means the request was applied. |
| `RefGuarantees.UndisturbedMoveCommits` | src/meta/repository.py:552-609 | A prepared move whose condition holds, left alone, commits as the next operation. |
| `RefGuarantees.RefusedCallsWereOvertaken` | src/meta/repository.py:575-609 | In any run a call is told of a conflict only if, since it was made, the ref was at some point not what the call expects; and of contention only after eight commits by others. |
| `RefGuarantees.RefusalTells` | src/meta/repository.py:584-606 | A refused transaction names the counter exactly when the ref is as expected and the counter is not. |
| `RefGuarantees.RunExtendsHistory` | src/meta/repository.py:552-609 | Committed moves are never rewritten. |
| `RefGenerations.GenerationsCountMoves` | src/meta/repository.py:331-354 | For a ref that is not deleted, with callers passing generations it has had: each move raises the generation by one, no two share one, and each `before` is the previous `after`. |
| `RefGenerations.GenerationsCountIff` | src/meta/repository.py:331-354 | For a ref that is not deleted, on any run: its generations count its moves exactly when every update that committed passed the generation it had read. |
| `RefGenerations.RecreatedRefLosesAnUpdate` | src/meta/repository.py:301-301 | A ref deleted and recreated restarts at 1, and a stale writer then commits over it recording the wrong predecessor. |
| `RefGenerations.FutureGenerationRepeats` | src/meta/repository.py:331-354 | A generation passed before the ref has it can give two moves one generation. |
| `RefGenerations.UpdateIsRecordedRightIff` | src/meta/repository.py:320-354 | In any run of callers passing generations already had: an update commits with the next generation exactly when its caller passed the one it read; and then its `before` is what it replaced exactly unless the ref was deleted in between and made again with another target. |
| `RefGenerations.GenerationsRise` | src/meta/repository.py:331-354 | Between deletions a ref's generation only rises, so it has one generation once. |
| `RefGenerations.ARetriedCreationCanFail` | src/meta/repository.py:512-519 | A reachable run in which a creation is applied and its retry fails because the ref is gone. |
| `Repository.Repository.CommitWithCounter` | src/meta/repository.py:552-609 | The retry loop, with others committing between any two accesses: the move is applied at most once, an answer names its transaction, a failure applied nothing; a used key is answered from its record. A conflict means that the key is new and the ref was at some point not as expected; contention, that others committed eight times. Left alone, a move whose condition holds and whose key is new is the next operation. |
| `Repository.Repository.Attempt` | src/meta/repository.py:577-588 | One round: counter, change record, transaction. |
| `Repository.Repository.Mutate` | src/meta/repository.py:403-519 | A mutation from its first read on: what commits does what the call asked; missing refs and frozen tags are refused; a replay whose ref is gone is refused although it was applied. Conflict, contention and success are answered as the retry loop says, in terms of what the call expects. |
| `Repository.Repository.UndoOperation` | src/meta/repository.py:723-772 | Undo puts the ref where the entry found it, by an ordinary mutation; undoing a creation reports the undone number. Left alone it succeeds unless the ref it would delete is gone or is a tag it would move; a conflict means that the ref changed after it was read. |
| `Repository.Repository.RecordedOutcome` | src/meta/repository.py:674-684 | What the key's record says about a request. |
| `Events.ReadEvents` | src/meta/store.py:591-626 | A page is the rows fetched per shard, ordered by time, then shard, then sequence, cut to the limit. |
| `Events.PageHasNoGap` | src/meta/store.py:591-626 | Where times do not go back along a shard, any page takes from it the next events in order without a gap. |
| `Events.NeverSkipsIff` | src/meta/store.py:591-626 | For every other shard, cursor and limit the next page continues a shard where the consumer stopped exactly when its times do not go back. |
| `Events.Advanced` | src/meta/store.py:148-156 | The cursor moves, per shard, to the highest sequence seen. |
| `Events.Consume` | src/meta/store.py:128-156 | One read continues every shard whose times do not go back, delivers something while anything is left, and never delivers what was once missed. |
| `Events.Follow` | src/meta/store.py:591-626 | Reads interleaved with arrivals at any times, with any limits, deliver each event of a shard once and in order if its times never went back; what is missed stays missed. |
| `Events.Drain` | src/meta/store.py:591-626 | Reading until a page is empty delivers everything. |
| `Events.SkipsAnEvent` | src/meta/store.py:484-490 | In any shard with an event stamped before its predecessor, one event of another shard and a page of two make the cursor pass the predecessor, which is lost. |

## Left out

- Collection.CollectionIsSafe: reading the ref and opening the session are one step, though the read comes first (src/service/commits.py:129-131) and another publish may come between; build and recording are one step, as are a sweep, a rebuild and a fork; listings are within their limits, and lease renewal is not modelled. A ref moves whatever it has become, which is more than the comparison of generations allows.
- Collection.ActKeepsIff: publishing is modelled as steps over a value, not as a method changing objects, because other clients act between the steps; the `finally` of a publish is the step that ends a session, at any point.
- CollectionLosses.SetRefThenSweepIsSafeIff: a target that is no commit has no history, and nothing is said of the content it names.
- Collector.Run: the alternate-digest index is not modelled.
- RefProtocol.RunKeeps: the interleaved clients are values with a program counter; the methods of `Repository` have the code's own shape.
- RefProtocol.CommitEffect: a ref's lifecycle, expiry and principal are not carried, nor is the idempotency record's expiry (nothing in the repository removes one).
- Repository.Repository.Mutate: the details put into a conflict are not modelled.
- Repository.Repository.UndoOperation: the caller's request is a parameter.
- Diff.DiffTrees: a change of recorded size alone is not compared, as in the code; the saving from skipping equal subtrees is not measured.
- Edit.SetPath: paths arrive split into components; parsing and its checks (src/fs/path.py) are not modelled, the codec's name rules are. A directory that is put must be stored in its built form.
- Edit.Apply: nodes are stored after a build rather than as it goes; the list of written nodes is not returned.
- TreeReader.IterYieldsTheRest: the generator is the sequence it yields.
- BlobReader.ReadRange: the stream is the bytes it yields; `chunk_names` is not modelled.
- ObjectStores.ObjectStore.PutEncoded: backends, compression at rest and races between writers of one object are not modelled; an object at rest is what it decodes to.
- ObjectStores.ObjectStore.Get: bytes do not rot in the model, so the refusal of bytes that no longer hash to their name cannot be observed.
- ObjectStores.ObjectStore.RecordTombstones: purging expired tombstones is not modelled.
- Closure.Walk: order of the result is not stated; on a tree that cannot be read, only that nothing unreachable is returned.
- Rebuild.RebuildKeepSet: what a tree that cannot be read contributes is not fixed: in the code nothing, or part of it when one name is reached as two kinds.
- Events.ReadEvents: the database's own ordering of a shard is taken as the outbox.
- MetaStore.MetadataStore.TransactWrite: the global keyspaces, prefix queries and JSON bodies are not modelled; SQLite's locking is the atomicity of one call.
- HTTP routes, command line, UI, metrics, authentication, signing, the build queue, OCI and git import, the jj client: mapping and rendering around the parts above.
- Session renewal, environment names and renames, notes, ephemeral refs: outside the invariants above.
- Work bounds (one fetch per level, cost proportional to what changed) are stated only for ranged reads.
