/** Exactly when a build succeeds. */
module BuildLimits {
  // The builders of src/format/shape.py against the node rules of src/format/codec.py. For
  // one listing, that every run it is cut into fits a node; for one choice of parameters
  // and every listing, a condition on the parameters.

  import opened ByteStrings
  import opened Model
  import opened Validation
  import opened CodecSpec
  import opened Sums
  import opened Wire
  import opened Partition
  import opened Shape
  import opened ShapeBounds

  // ---- one listing ----

  /** Every run fits a node with its header. */
  predicate RunsFit(runs: seq<seq<TreeEntry>>)
  {
    forall i :: 0 <= i < |runs| ==> NODE_HEADER_BYTES + Sum(TreeSizes(runs[i])) <= MAX_NODE_BYTES
  }

  /** Exactly when a level of a directory build is taken: every run fits with its header. */
  lemma LevelAcceptedIffRunsFit(p: ShapeParams, level: nat, current: seq<TreeEntry>)
    requires p.Valid() && p.minEntries >= 2 && MAX_TREE_ENTRY_BYTES < p.maxNodeBytes && level <= 255
    requires current != [] && ListOk(level, current) && (level > 0 ==> |current| >= 2)
    ensures var runs := Runs(TreeLayout(), p, level, current);
            var nodes := Nodes(TreeLayout(), level, runs);
            Accepted(nodes) == |nodes| <==> RunsFit(runs)
  {
    hide Runs, Nodes;
    var l := TreeLayout();
    var ends := EndsOf(l, p, level, current);
    var runs := Runs(l, p, level, current);
    RunCount(p, level, current);
    var nodes := Nodes(l, level, runs);
    TreeSizesAre(current);
    TreeListSplitsAbove(p, level, current);
    forall i | 0 <= i < |runs|
      ensures NodeOk(nodes[i]) <==> NODE_HEADER_BYTES + Sum(TreeSizes(runs[i])) <= MAX_NODE_BYTES
    {
      RunAt(p, level, current, i);
      SliceOk(level, current, StartOf(ends, i), ends[i]);
      assert nodes[i] == Tree(level, runs[i]);
      if level > 0 { RunsAreNotLonely(p, level, EntryNames(current), TreeSizes(current), i); }
    }
    if RunsFit(runs) {
      AllAccepted(nodes);
    }
  }

  lemma TreeListSplitsAbove(p: ShapeParams, level: nat, current: seq<TreeEntry>)
    requires p.minEntries >= 2 && MAX_TREE_ENTRY_BYTES < p.maxNodeBytes && ListOk(level, current)
    ensures NoLonelyNodes(p, TreeSizes(current))
  {
    forall i | 0 <= i < |current|
      ensures TreeSizes(current)[i] < p.maxNodeBytes
    {
      assert EntryOk(level, current[i]);
    }
  }

  /** The list that a build meets at a level. */
  function LevelAt(p: ShapeParams, nameOf: Naming, entries: seq<TreeEntry>, level: nat): (list: seq<TreeEntry>)
    decreases level, 0
  {
    if level == 0 then entries
    else Parents(TreeLayout(), nameOf, level - 1, RunsAt(p, nameOf, entries, level - 1))
  }

  function RunsAt(p: ShapeParams, nameOf: Naming, entries: seq<TreeEntry>, level: nat): (runs: seq<seq<TreeEntry>>)
    decreases level, 1
  {
    Runs(TreeLayout(), p, level, LevelAt(p, nameOf, entries, level))
  }

  /** A build goes up while a level is more than one node. */
  ghost predicate Reaches(p: ShapeParams, nameOf: Naming, entries: seq<TreeEntry>, level: nat)
  {
    forall k: nat :: k < level ==> |RunsAt(p, nameOf, entries, k)| != 1
  }

  ghost predicate EveryLevelFits(p: ShapeParams, nameOf: Naming, entries: seq<TreeEntry>, from: nat)
  {
    forall level: nat {:trigger Reaches(p, nameOf, entries, level)} ::
      from <= level && Reaches(p, nameOf, entries, level) ==> RunsFit(RunsAt(p, nameOf, entries, level))
  }

  lemma {:induction false} BuildsFromIffLevelsFit(p: ShapeParams, nameOf: Naming, entries: seq<TreeEntry>, level: nat)
    requires p.Valid() && p.minEntries >= 2 && MAX_TREE_ENTRY_BYTES < p.maxNodeBytes
    requires |entries| < Pow2(256) && Reaches(p, nameOf, entries, level)
    requires var current := LevelAt(p, nameOf, entries, level);
             && current != [] && ListOk(level, current)
             && (level > 0 ==> |current| >= 2 && |current| * Pow2(level) <= |entries| + 1)
    ensures BuildFrom(TreeLayout(), p, nameOf, level, LevelAt(p, nameOf, entries, level)).root.Some?
            <==> EveryLevelFits(p, nameOf, entries, level)
    decreases if level == 0 then 1 else 0, |LevelAt(p, nameOf, entries, level)|
  {
    hide Runs, Nodes, Parents, ListOk, TreeLayout, LevelAt, RunsFit, EveryLevelFits, Reaches;
    var l := TreeLayout();
    var current := LevelAt(p, nameOf, entries, level);
    var runs := Runs(l, p, level, current);
    DepthIsBounded(level, |current|, |entries|);
    LevelAcceptedIffRunsFit(p, level, current);
    RunsShrink(l, p, level, current);
    FitsHereAndAbove(p, nameOf, entries, level);
    if RunsFit(runs) && |runs| != 1 {
      assert Splittable(l, p, current) by {
        TreeSizesAre(current);
        TreeListSplitsAbove(p, level, current);
      }
      RunsHalve(l, p, level, current);
      EntriesAreLevelZero(p, nameOf, entries);
      HalfAsMany(level, |runs|, |current|, |entries|);
      ParentsOk(p, nameOf, level, current);
      NextLevel(p, nameOf, entries, level);
      BuildsFromIffLevelsFit(p, nameOf, entries, level + 1);
    }
  }

  lemma EntriesAreLevelZero(p: ShapeParams, nameOf: Naming, entries: seq<TreeEntry>)
    ensures LevelAt(p, nameOf, entries, 0) == entries
  {
  }

  lemma NextLevel(p: ShapeParams, nameOf: Naming, entries: seq<TreeEntry>, level: nat)
    requires Reaches(p, nameOf, entries, level) && |RunsAt(p, nameOf, entries, level)| != 1
    ensures Reaches(p, nameOf, entries, level + 1)
    ensures LevelAt(p, nameOf, entries, level + 1)
            == Parents(TreeLayout(), nameOf, level, Runs(TreeLayout(), p, level, LevelAt(p, nameOf, entries, level)))
  {
  }

  /** What the levels from here on ask: this one, and those above if it has several nodes. */
  lemma FitsHereAndAbove(p: ShapeParams, nameOf: Naming, entries: seq<TreeEntry>, level: nat)
    requires Reaches(p, nameOf, entries, level)
    ensures EveryLevelFits(p, nameOf, entries, level)
            <==> var runs := Runs(TreeLayout(), p, level, LevelAt(p, nameOf, entries, level));
                 RunsFit(runs) && (|runs| != 1 ==> EveryLevelFits(p, nameOf, entries, level + 1))
  {
    hide Runs, LevelAt, RunsFit;
    var runs := RunsAt(p, nameOf, entries, level);
    if |runs| == 1 {
      forall above: nat | above > level
        ensures !Reaches(p, nameOf, entries, above)
      {
        assert |RunsAt(p, nameOf, entries, level)| == 1;
      }
    }
  }

  /** A directory builds exactly when every run, at every level the build reaches, fits
      a node. */
  lemma TreeBuildsIffRunsFit(p: ShapeParams, nameOf: Naming, entries: seq<TreeEntry>)
    requires p.Valid() && p.minEntries >= 2 && MAX_TREE_ENTRY_BYTES < p.maxNodeBytes
    requires entries != [] && LeafListOk(entries) && |entries| < Pow2(256)
    ensures TreeBuild(entries, p, nameOf).root.Some? <==> EveryLevelFits(p, nameOf, entries, 0)
  {
    hide BuildFrom, EveryLevelFits, RunsAt;
    assert ListOk(0, entries) && Ascending(EntryNames(entries));
    BuildsFromIffLevelsFit(p, nameOf, entries, 0);
  }

  // ---- every listing: directories ----

  /** No legal listing is refused, wherever the boundaries fall. */
  ghost predicate TreesAlwaysBuild(p: ShapeParams, nameOf: Naming)
  {
    forall boundary: (Bytes, nat) -> bool, entries: seq<TreeEntry>
      {:trigger TreeBuild(entries, p.(boundary := boundary), nameOf)} ::
      LeafListOk(entries) && |entries| < Pow2(256) ==> TreeBuild(entries, p.(boundary := boundary), nameOf).root.Some?
  }

  /** Exactly the parameters that are safe for every listing. */
  lemma TreesAlwaysBuildIff(p: ShapeParams, nameOf: Naming)
    requires p.Valid()
    ensures TreesAlwaysBuild(p, nameOf) <==> SafeTreeShape(p)
  {
    hide TreeBuild, LeafListOk, LongListing, FullListing, Pow2;
    ListingsAreShort();
    if SafeTreeShape(p) {
      forall boundary: (Bytes, nat) -> bool, entries: seq<TreeEntry> | LeafListOk(entries) && |entries| < Pow2(256)
        ensures TreeBuild(entries, p.(boundary := boundary), nameOf).root.Some?
      {
        SafeTreeBuildSucceeds(p.(boundary := boundary), nameOf, entries);
      }
    } else if p.minEntries <= 1 || p.maxNodeBytes <= MAX_TREE_ENTRY_BYTES {
      ThreeLongNamesAreRefused(p, nameOf);
      LongListingIsOk(3);
      assert TreeBuild(LongListing(3), p.(boundary := Always()), nameOf).root.None?;
    } else {
      LongRunIsRefused(p, nameOf);
      FullListingIsOk();
      assert TreeBuild(FullListing(), p.(boundary := Never()), nameOf).root.None?;
    }
  }

  lemma ListingsAreShort()
    ensures |LongListing(3)| < |FullListing()| < Pow2(256)
  {
    assert Pow2(10) == 1024;
    Pow2Grows(10, 256);
  }

  function Always(): (boundary: (Bytes, nat) -> bool)
  {
    (key, level) => true
  }

  function Never(): (boundary: (Bytes, nat) -> bool)
  {
    (key, level) => false
  }

  /** A name of 255 ASCII letters; the last two spell `i`. */
  function LongName(i: nat): (name: Bytes)
    requires i < 676
    ensures |name| == 255
  {
    seq(253, _ => 0x61) + [0x61 + i / 26, 0x61 + i % 26]
  }

  function LongListing(n: nat): (entries: seq<TreeEntry>)
    requires n <= 676
    ensures |entries| == n
    ensures forall i :: 0 <= i < n ==> entries[i] == TreeEntry(LongName(i), BlobKind, Name([]), MODE_REGULAR, 0)
  {
    seq(n, i requires 0 <= i < n => TreeEntry(LongName(i), BlobKind, Name([]), MODE_REGULAR, 0))
  }

  lemma {:induction false} AsciiIsUtf8(b: Bytes)
    requires forall i :: 0 <= i < |b| ==> b[i] < 0x80
    ensures ValidUtf8(b)
  {
    if b != [] {
      assert forall i :: 0 <= i < |b| - 1 ==> b[1..][i] == b[i + 1];
      AsciiIsUtf8(b[1..]);
    }
  }

  lemma {:induction false} LessAfterPrefix(prefix: Bytes, a: Bytes, b: Bytes)
    requires Less(a, b)
    ensures Less(prefix + a, prefix + b)
  {
    if prefix == [] {
      assert prefix + a == a && prefix + b == b;
    } else {
      LessAfterPrefix(prefix[1..], a, b);
      assert (prefix + a)[1..] == prefix[1..] + a && (prefix + b)[1..] == prefix[1..] + b;
    }
  }

  lemma LongListingIsOk(n: nat)
    requires n <= 676
    ensures LeafListOk(LongListing(n))
    ensures Sum(TreeSizes(LongListing(n))) == MAX_TREE_ENTRY_BYTES * n
  {
    var entries := LongListing(n);
    forall i | 0 <= i < n
      ensures EntryOk(0, entries[i])
    {
      AsciiIsUtf8(LongName(i));
    }
    forall i | 0 < i < n
      ensures Less(EntryNames(entries)[i - 1], EntryNames(entries)[i])
    {
      var a: Bytes, b: Bytes := [0x61 + (i - 1) / 26, 0x61 + (i - 1) % 26], [0x61 + i / 26, 0x61 + i % 26];
      assert a[1..] == [a[1]] && b[1..] == [b[1]];
      LessAfterPrefix(seq(253, _ => 0x61), a, b);
    }
    SumBounds(TreeSizes(entries), MAX_TREE_ENTRY_BYTES, MAX_TREE_ENTRY_BYTES);
  }

  /** Three entries that each end a node leave one alone above the leaves. */
  lemma LoneChildIsRefused<E(!new)>(l: Layout<E>, p: ShapeParams, nameOf: Naming, level: nat, current: seq<E>)
    requires l.Valid() && |current| == 3 && level > 0
    requires EndsOf(l, p, level, current) == [1, 3]
    ensures BuildFrom(l, p, nameOf, level, current).root.None?
  {
    var runs := Runs(l, p, level, current);
    assert StartOf([1, 3], 0) == 0 && |runs[0]| == 1;
    assert !NodeOk(l.node(level, runs[0]));
    assert Nodes(l, level, runs)[0] == l.node(level, runs[0]);
  }

  /** Level 0 of the same: three leaves, if the codec takes them at all. */
  lemma ThreeLeaves<E(!new)>(l: Layout<E>, p: ShapeParams, nameOf: Naming, current: seq<E>)
    requires l.Valid() && |current| == 3 && EndsOf(l, p, 0, current) == [1, 2, 3]
    requires var parents := Parents(l, nameOf, 0, Runs(l, p, 0, current));
             |parents| == 3 ==> EndsOf(l, p, 1, parents) == [1, 3]
    ensures BuildFrom(l, p, nameOf, 0, current).root.None?
  {
    hide Parents, EndsOf, Nodes, Accepted;
    var runs := Runs(l, p, 0, current);
    var nodes := Nodes(l, 0, runs);
    if Accepted(nodes) == |nodes| {
      LoneChildIsRefused(l, p, nameOf, 1, Parents(l, nameOf, 0, runs));
    }
  }

  /** The entry that stands for a leaf of one entry is as long as that. */
  lemma ParentOfOne(nameOf: Naming, runs: seq<seq<TreeEntry>>, i: nat, e: TreeEntry)
    requires i < |runs| && runs[i] == [e]
    ensures SizesOf(TreeLayout(), Parents(TreeLayout(), nameOf, 0, runs))[i] == TreeEntryBytes(e)
  {
    TreeRunAt(nameOf, 0, runs, i);
    TreeSizesAre(Parents(TreeLayout(), nameOf, 0, runs));
  }

  /** Whether every entry of three ends a node. */
  predicate EachEnds(p: ShapeParams)
  {
    p.minEntries <= 1 || p.maxNodeBytes <= MAX_TREE_ENTRY_BYTES
  }

  lemma LongNamesEndNodes(p: ShapeParams)
    requires EachEnds(p)
    ensures EndsOf(TreeLayout(), p.(boundary := Always()), 0, LongListing(3)) == [1, 2, 3]
  {
    hide Ends, RawEnds;
    var l, q, entries := TreeLayout(), p.(boundary := Always()), LongListing(3);
    ThreeNodesOfOne(q, 0, KeysOf(l, entries), SizesOf(l, entries));
    EndsAtLevelZero(q, KeysOf(l, entries), SizesOf(l, entries));
  }

  lemma LongParentsEndNodes(p: ShapeParams, nameOf: Naming)
    requires EachEnds(p) && EndsOf(TreeLayout(), p.(boundary := Always()), 0, LongListing(3)) == [1, 2, 3]
    ensures var l, q := TreeLayout(), p.(boundary := Always());
            var parents := Parents(l, nameOf, 0, Runs(l, q, 0, LongListing(3)));
            |parents| == 3 ==> EndsOf(l, q, 1, parents) == [1, 3]
  {
    hide Runs, Parents, Ends, RawEnds, LongListing, TreeLayout;
    var l, q, entries := TreeLayout(), p.(boundary := Always()), LongListing(3);
    var runs := Runs(l, q, 0, entries);
    var parents := Parents(l, nameOf, 0, runs);
    if |parents| == 3 {
      forall i | 0 <= i < 3
        ensures SizesOf(l, parents)[i] == MAX_TREE_ENTRY_BYTES
      {
        RunAt(q, 0, entries, i);
        assert runs[i] == [entries[i]];
        ParentOfOne(nameOf, runs, i, entries[i]);
      }
      ThreeNodesOfOne(q, 1, KeysOf(l, parents), SizesOf(l, parents));
    }
  }

  lemma ThreeLongNamesAreRefused(p: ShapeParams, nameOf: Naming)
    requires EachEnds(p)
    ensures TreeBuild(LongListing(3), p.(boundary := Always()), nameOf).root.None?
  {
    hide Runs, Parents, EndsOf, BuildFrom, TreeLayout;
    LongNamesEndNodes(p);
    LongParentsEndNodes(p, nameOf);
    ThreeLeaves(TreeLayout(), p.(boundary := Always()), nameOf, LongListing(3));
    LongListingIsOk(3);
  }

  lemma EndsAtLevelZero(p: ShapeParams, keys: seq<Bytes>, sizes: seq<nat>)
    requires |keys| == |sizes|
    ensures Ends(p, 0, keys, sizes) == RawEnds(p, 0, keys, sizes)
  {
  }

  lemma SingleRun(p: ShapeParams, keys: seq<Bytes>, sizes: seq<nat>)
    requires 0 < |keys| == |sizes|
    requires forall j :: 0 <= j < |keys| - 1 ==> !Closes(p, 0, keys, sizes, j)
    ensures Ends(p, 0, keys, sizes) == [|keys|]
  {
    assert RunLength(p, 0, keys, sizes, 0) == |keys|;
  }

  /** A listing that makes one node too large for the codec is refused. */
  lemma OneLargeNodeIsRefused(p: ShapeParams, nameOf: Naming, entries: seq<TreeEntry>)
    requires entries != [] && NODE_HEADER_BYTES + Sum(TreeSizes(entries)) > MAX_NODE_BYTES
    requires forall j :: 0 <= j < |entries| - 1 ==> !Closes(p, 0, EntryNames(entries), TreeSizes(entries), j)
    ensures TreeBuild(entries, p, nameOf).root.None?
  {
    hide Closes, RunLength, RawEnds;
    TreeSizesAre(entries);
    SingleRun(p, EntryNames(entries), TreeSizes(entries));
    RunAt(p, 0, entries, 0);
    var runs := Runs(TreeLayout(), p, 0, entries);
    assert runs[0] == entries;
    assert Nodes(TreeLayout(), 0, runs)[0] == Tree(0, entries);
    assert !NodeOk(Tree(0, entries));
  }

  const SHORT_NAME_BYTES: nat := 60

  /** One name of sixty letters and 438 of 255: in one node, with the header, one byte
      more than a node may have. */
  function FullListing(): (entries: seq<TreeEntry>)
    ensures |entries| == 439
  {
    [TreeEntry(seq(SHORT_NAME_BYTES, _ => 0x61), BlobKind, Name([]), MODE_REGULAR, 0)] + LongListing(438)
  }

  lemma FullListingIsOk()
    ensures LeafListOk(FullListing())
  {
    LongListingIsOk(438);
    var entries, rest := FullListing(), LongListing(438);
    AsciiIsUtf8(entries[0].name);
    forall i | 0 <= i < |entries|
      ensures EntryOk(0, entries[i]) && entries[i].size < TWO_64
    {
      if i > 0 { assert entries[i] == rest[i - 1]; }
    }
    forall i | 0 < i < |entries|
      ensures Less(EntryNames(entries)[i - 1], EntryNames(entries)[i])
    {
      if i == 1 {
        var short, long := entries[0].name, entries[1].name;
        LessAfterPrefix(short, [], long[SHORT_NAME_BYTES..]);
        assert short + [] == short && short + long[SHORT_NAME_BYTES..] == long;
      } else {
        assert entries[i - 1] == rest[i - 2] && entries[i] == rest[i - 1];
        assert Less(EntryNames(rest)[i - 2], EntryNames(rest)[i - 1]);
      }
    }
  }

  /** Bytes of the first `n` entries of that listing. */
  lemma FullListingSizes(n: nat)
    requires 0 < n <= 439
    ensures Sum(TreeSizes(FullListing())[..n]) == 104 + MAX_TREE_ENTRY_BYTES * (n - 1)
  {
    var sizes := TreeSizes(FullListing());
    assert sizes[..n] == [104] + sizes[1..n];
    SumOfOne(104);
    SumOfConcat([104], sizes[1..n]);
    SumBounds(sizes[1..n], MAX_TREE_ENTRY_BYTES, MAX_TREE_ENTRY_BYTES);
  }

  lemma CapComesLate(most: nat)
    requires MAX_TREE_ENTRY_BYTES * most + NODE_HEADER_BYTES > MAX_NODE_BYTES
    ensures most >= 439
  {
  }

  lemma FullListingIsOneRun(q: ShapeParams, j: nat)
    requires q.maxNodeBytes - 1 + MAX_TREE_ENTRY_BYTES + NODE_HEADER_BYTES > MAX_NODE_BYTES
    requires q.boundary == Never() && q.maxEntries >= 439 && j < 438
    ensures !Closes(q, 0, EntryNames(FullListing()), TreeSizes(FullListing()), j)
  {
    hide FullListing, Sum;
    FullListingSizes(j + 1);
    assert MAX_TREE_ENTRY_BYTES * j <= MAX_TREE_ENTRY_BYTES * 437;
  }

  /** A budget that may be crossed too late, with a cap that does not step in, and no
      boundary: the whole listing is one node, and too large. */
  lemma LongRunIsRefused(p: ShapeParams, nameOf: Naming)
    requires p.maxNodeBytes - 1 + MAX_TREE_ENTRY_BYTES + NODE_HEADER_BYTES > MAX_NODE_BYTES
    requires MAX_TREE_ENTRY_BYTES * p.maxEntries + NODE_HEADER_BYTES > MAX_NODE_BYTES
    ensures TreeBuild(FullListing(), p.(boundary := Never()), nameOf).root.None?
  {
    hide FullListing, Closes, Sum, TreeBuild;
    var entries, q := FullListing(), p.(boundary := Never());
    FullListingSizes(439);
    assert TreeSizes(entries)[..439] == TreeSizes(entries);
    CapComesLate(p.maxEntries);
    forall j | 0 <= j < 438
      ensures !Closes(q, 0, EntryNames(entries), TreeSizes(entries), j)
    {
      FullListingIsOneRun(q, j);
    }
    OneLargeNodeIsRefused(q, nameOf, entries);
  }

  // ---- every chunk list: files ----

  ghost predicate BlobsAlwaysBuild(p: ShapeParams, nameOf: Naming)
  {
    forall boundary: (Bytes, nat) -> bool, chunks: seq<BlobEntry>
      {:trigger BlobBuild(chunks, p.(boundary := boundary), nameOf)} ::
      BlobListOk(chunks) ==> BlobBuild(chunks, p.(boundary := boundary), nameOf).root.Some?
  }

  /** Exactly the parameters that are safe for every file under 2^64 bytes. */
  lemma BlobsAlwaysBuildIff(p: ShapeParams, nameOf: Naming)
    requires p.Valid()
    ensures BlobsAlwaysBuild(p, nameOf) <==> SafeBlobShape(p)
  {
    hide BlobBuild, BlobListOk;
    if SafeBlobShape(p) {
      forall boundary: (Bytes, nat) -> bool, chunks: seq<BlobEntry> | BlobListOk(chunks)
        ensures BlobBuild(chunks, p.(boundary := boundary), nameOf).root.Some?
      {
        SafeBlobBuildSucceeds(p.(boundary := boundary), nameOf, chunks);
      }
    } else if p.minEntries <= 1 {
      ThreeChunksAreRefused(p, nameOf);
      OneByteChunksAreOk(3);
      assert BlobBuild(OneByteChunks(3), p.(boundary := Always()), nameOf).root.None?;
    } else {
      ManyChunksAreRefused(p, nameOf);
      OneByteChunksAreOk(MOST_CHILDREN + 1);
      assert BlobBuild(OneByteChunks(MOST_CHILDREN + 1), p.(boundary := Never()), nameOf).root.None?;
    }
  }

  function OneByteChunks(n: nat): (chunks: seq<BlobEntry>)
  {
    seq(n, _ => BlobEntry(Name([]), 1))
  }

  lemma {:induction false} OneByteChunksAreOk(n: nat)
    requires n < TWO_64
    ensures SpanOf(OneByteChunks(n)) == n && BlobListOk(OneByteChunks(n))
  {
    if n > 0 {
      assert OneByteChunks(n)[1..] == OneByteChunks(n - 1);
      OneByteChunksAreOk(n - 1);
    }
  }

  lemma ThreeChunksAreRefused(p: ShapeParams, nameOf: Naming)
    requires p.minEntries <= 1
    ensures BlobBuild(OneByteChunks(3), p.(boundary := Always()), nameOf).root.None?
  {
    hide Runs, Parents, Ends, BuildFrom;
    var l, q := BlobLayout(), p.(boundary := Always());
    var chunks := OneByteChunks(3);
    ThreeNodesOfOne(q, 0, KeysOf(l, chunks), SizesOf(l, chunks));
    EndsAtLevelZero(q, KeysOf(l, chunks), SizesOf(l, chunks));
    var parents := Parents(l, nameOf, 0, Runs(l, q, 0, chunks));
    if |parents| == 3 {
      ThreeNodesOfOne(q, 1, KeysOf(l, parents), SizesOf(l, parents));
    }
    ThreeLeaves(l, q, nameOf, chunks);
  }

  lemma ManyChunksAreRefused(p: ShapeParams, nameOf: Naming)
    requires p.maxEntries > MOST_CHILDREN && p.maxNodeBytes > BLOB_ENTRY_BYTES * MOST_CHILDREN
    ensures BlobBuild(OneByteChunks(MOST_CHILDREN + 1), p.(boundary := Never()), nameOf).root.None?
  {
    hide RunLength, RawEnds, Ends;
    var l, q := BlobLayout(), p.(boundary := Never());
    var n := MOST_CHILDREN + 1;
    var chunks := OneByteChunks(n);
    var keys, sizes := KeysOf(l, chunks), SizesOf(l, chunks);
    forall j | 0 <= j < n - 1
      ensures !Closes(q, 0, keys, sizes, j)
    {
      SumBounds(sizes[..j + 1], BLOB_ENTRY_BYTES, BLOB_ENTRY_BYTES);
    }
    SingleRun(q, keys, sizes);
    OneBlobRun(q, chunks);
    var runs := Runs(l, q, 0, chunks);
    assert Nodes(l, 0, runs)[0] == Blob(0, runs[0]);
    assert !NodeOk(Blob(0, runs[0]));
  }

  lemma OneBlobRun(p: ShapeParams, chunks: seq<BlobEntry>)
    requires chunks != [] && EndsOf(BlobLayout(), p, 0, chunks) == [|chunks|]
    ensures var runs := Runs(BlobLayout(), p, 0, chunks); |runs| == 1 && runs[0] == chunks
  {
    hide Ends;
    assert StartOf([|chunks|], 0) == 0;
    assert chunks[0..|chunks|] == chunks;
  }

  // ---- the production parameters ----

  function Production(boundary: (Bytes, nat) -> bool): (p: ShapeParams)
  {
    ShapeParams(boundary, 64, 2048, MAX_NODE_BYTES)
  }

  /** Production is safe for files, by the cap on entries. For directories it is not:
      the node budget is the codec's own limit, the header is not in it, and the entry
      that crosses it is. So some legal listing cannot be stored. */
  lemma ProductionBuilds(nameOf: Naming)
    ensures BlobsAlwaysBuild(Production(Never()), nameOf)
    ensures !TreesAlwaysBuild(Production(Never()), nameOf)
    ensures LeafListOk(FullListing()) && TreeBuild(FullListing(), Production(Never()), nameOf).root.None?
  {
    hide TreesAlwaysBuild, BlobsAlwaysBuild, FullListing, LeafListOk, TreeBuild;
    var p := Production(Never());
    BlobsAlwaysBuildIff(p, nameOf);
    TreesAlwaysBuildIff(p, nameOf);
    FullListingIsOk();
    LongRunIsRefused(p, nameOf);
    assert p.(boundary := Never()) == p;
  }
}
