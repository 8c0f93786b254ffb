/** When a build succeeds, and how deep it goes (src/format/shape.py with the node
    rules of src/format/codec.py). */
module ShapeBounds {
  import opened ByteStrings
  import opened Model
  import opened Validation
  import opened CodecSpec
  import opened Wire
  import opened Sums
  import opened Partition
  import opened Shape

  // ---- depth ----

  /** No entry of the list fills a node on its own, and nodes hold at least two. */
  ghost predicate Splittable<E(!new)>(l: Layout<E>, p: ShapeParams, entries: seq<E>)
  {
    NoLonelyNodes(p, SizesOf(l, entries))
  }

  /** Each level at least halves the list; level 0 may round up. */
  lemma RunsHalve<E(!new)>(l: Layout<E>, p: ShapeParams, level: nat, current: seq<E>)
    requires p.Valid() && current != [] && Splittable(l, p, current)
    ensures 2 * |Runs(l, p, level, current)| <= |current| + 1
    ensures level > 0 && |current| >= 2 ==> 2 * |Runs(l, p, level, current)| <= |current|
  {
    hide Cuts, RunsHold;
    var ends := EndsOf(l, p, level, current);
    LastEnd(ends, |current|);
    var last := |ends| - 1;
    if |current| >= 2 {
      RunsHoldTwo(l, p, level, current);
      if level > 0 {
        FewRuns(ends, 2, last);
      } else if last > 0 {
        FewRuns(ends, 2, last - 1);
        CutsAscend(ends, |current|);
      }
    } else {
      FewRunsOfOne(ends, |current|);
    }
  }

  lemma CutsAscend(ends: seq<nat>, n: nat)
    requires Cuts(ends, n) && |ends| >= 2
    ensures ends[|ends| - 2] < ends[|ends| - 1]
  {
  }

  lemma RunsHoldTwo<E(!new)>(l: Layout<E>, p: ShapeParams, level: nat, current: seq<E>)
    requires p.Valid() && |current| >= 2 && Splittable(l, p, current) && EndsOf(l, p, level, current) != []
    ensures var ends := EndsOf(l, p, level, current);
            && (level > 0 ==> RunsHold(ends, 2, |ends| - 1))
            && (|ends| >= 2 ==> RunsHold(ends, 2, |ends| - 2))
  {
    hide Cuts;
    var ends := EndsOf(l, p, level, current);
    forall i | 0 <= i < |ends|
      ensures level > 0 || i < |ends| - 1 ==> ends[i] >= StartOf(ends, i) + 2
    {
      RunsAreNotLonely(p, level, KeysOf(l, current), SizesOf(l, current), i);
    }
  }

  lemma FewRunsOfOne(ends: seq<nat>, n: nat)
    requires Cuts(ends, n) && n == 1
    ensures |ends| == 1
  {
    CutsBounds(ends, n, 0);
  }

  /** The levels of what a build emits, and what every list it meets satisfies. */
  ghost predicate Shallow(emitted: seq<Object>, n: nat)
  {
    forall i :: 0 <= i < |emitted| ==>
      (emitted[i].Tree? || emitted[i].Blob?) &&
      emitted[i].level >= 0 && (emitted[i].level == 0 || Pow2(emitted[i].level + 1) <= n + 1)
  }

  /** A property of lists that makes them splittable and passes to the level above. */
  ghost predicate Inherited<E(!new)>(l: Layout<E>, p: ShapeParams, nameOf: Naming, good: (nat, seq<E>) -> bool)
  {
    && (forall level: nat, s: seq<E> {:trigger good(level, s)} :: good(level, s) ==> Splittable(l, p, s))
    && (forall level: nat, s: seq<E> {:trigger Runs(l, p, level, s)} ::
          good(level, s) && s != [] ==> good(level + 1, Parents(l, nameOf, level, Runs(l, p, level, s))))
    && forall level: nat, run: seq<E> {:trigger l.node(level, run)} ::
         var o := l.node(level, run); (o.Tree? || o.Blob?) && o.level == level
  }

  /** Depth is logarithmic: a node at level L above a list of n needs 2^(L+1) <= n + 1. */
  lemma {:induction false} BuildIsShallow<E(!new)>(l: Layout<E>, p: ShapeParams, nameOf: Naming,
                                            good: (nat, seq<E>) -> bool, level: nat, current: seq<E>, n: nat)
    requires l.Valid() && p.Valid() && Inherited(l, p, nameOf, good)
    requires current != [] && good(level, current)
    requires level == 0 ==> |current| == n
    requires level > 0 ==> |current| >= 2 && |current| * Pow2(level) <= n + 1
    ensures Shallow(BuildFrom(l, p, nameOf, level, current).emitted, n)
    decreases if level == 0 then 1 else 0, |current|
  {
    hide Runs, Nodes, Parents, Splittable, Pow2, Shallow, Inherited;
    var runs := Runs(l, p, level, current);
    var nodes := Nodes(l, level, runs);
    var parents := Parents(l, nameOf, level, runs);
    RunsShrink(l, p, level, current);
    GoodAbove(l, p, nameOf, good, level, current);
    RunsHalve(l, p, level, current);
    if level > 0 { TwiceTheLevel(level, |current|, n); }
    LevelIsShallow(l, p, nameOf, good, level, runs, n, Accepted(nodes));
    if Accepted(nodes) == |nodes| && |nodes| != 1 {
      HalfAsMany(level, |runs|, |current|, n);
      assert parents != [] && good(level + 1, parents);
      BuildIsShallow(l, p, nameOf, good, level + 1, parents, n);
      ShallowJoins(nodes, BuildFrom(l, p, nameOf, level + 1, parents).emitted, n);
    }
    assert nodes[..|nodes|] == nodes;
  }

  lemma GoodAbove<E(!new)>(l: Layout<E>, p: ShapeParams, nameOf: Naming, good: (nat, seq<E>) -> bool, level: nat,
                           current: seq<E>)
    requires Inherited(l, p, nameOf, good) && good(level, current) && current != []
    ensures Splittable(l, p, current) && good(level + 1, Parents(l, nameOf, level, Runs(l, p, level, current)))
  {
    hide Runs, Parents, Splittable;
  }

  /** The nodes of one level, as many of them as are emitted. */
  lemma LevelIsShallow<E(!new)>(l: Layout<E>, p: ShapeParams, nameOf: Naming, good: (nat, seq<E>) -> bool, level: nat,
                                runs: seq<seq<E>>, n: nat, count: nat)
    requires Inherited(l, p, nameOf, good) && count <= |runs|
    requires level > 0 ==> Pow2(level + 1) <= n + 1
    ensures Shallow(Nodes(l, level, runs)[..count], n)
  {
    hide Splittable, Runs, Parents, Pow2;
    var nodes := Nodes(l, level, runs);
    forall i | 0 <= i < count
      ensures (nodes[i].Tree? || nodes[i].Blob?) && nodes[i].level == level
    {
      assert nodes[i] == l.node(level, runs[i]);
    }
  }

  lemma ShallowJoins(a: seq<Object>, b: seq<Object>, n: nat)
    requires Shallow(a, n) && Shallow(b, n)
    ensures Shallow(a + b, n)
  {
    hide Pow2;
  }

  lemma TwiceAtMost(c: nat, x: nat, bound: nat)
    requires c >= 2 && c * x <= bound
    ensures 2 * x <= bound
  {
    assert c * x == 2 * x + (c - 2) * x;
  }

  lemma TwiceTheLevel(level: nat, count: nat, n: nat)
    requires count >= 2 && count * Pow2(level) <= n + 1
    ensures Pow2(level + 1) <= n + 1
  {
    TwiceAtMost(count, Pow2(level), n + 1);
  }

  lemma HalvedProduct(half: nat, c: nat, x: nat, bound: nat)
    requires 2 * half <= c && c * x <= bound
    ensures half * (2 * x) <= bound
  {
    assert half * (2 * x) == (2 * half) * x;
    assert (c - 2 * half) * x >= 0;
  }

  /** A level of half as many entries, one level up. */
  lemma HalfAsMany(level: nat, half: nat, count: nat, n: nat)
    requires level == 0 ==> count == n && 2 * half <= count + 1
    requires level > 0 ==> 2 * half <= count && count * Pow2(level) <= n + 1
    ensures half * Pow2(level + 1) <= n + 1
  {
    if level == 0 {
      assert Pow2(1) == 2;
    } else {
      HalvedProduct(half, count, Pow2(level), n + 1);
    }
  }

  // ---- directories ----

  /** A listing the codec would take as the leaf entries of a directory. */
  predicate LeafListOk(entries: seq<TreeEntry>)
  {
    TreeEntriesOk(0, entries) && forall i :: 0 <= i < |entries| ==> entries[i].size < TWO_64
  }

  const MAX_TREE_ENTRY_BYTES: nat := 299

  /** Nodes hold two entries, and none fills a node alone; and either the node budget
      leaves room for the entry that crosses it and for the header, or the cap on
      entries ends a node in time. */
  predicate SafeTreeShape(p: ShapeParams)
  {
    && p.Valid() && p.minEntries >= 2
    && MAX_TREE_ENTRY_BYTES < p.maxNodeBytes
    && (p.maxNodeBytes - 1 + MAX_TREE_ENTRY_BYTES + NODE_HEADER_BYTES <= MAX_NODE_BYTES
        || MAX_TREE_ENTRY_BYTES * p.maxEntries + NODE_HEADER_BYTES <= MAX_NODE_BYTES)
  }

  /** What every level of a directory build satisfies. */
  predicate ListOk(level: nat, entries: seq<TreeEntry>)
  {
    TreeEntriesOk(level, entries) && forall i :: 0 <= i < |entries| ==> entries[i].size < TWO_64
  }

  lemma TreeSizesAre(entries: seq<TreeEntry>)
    ensures SizesOf(TreeLayout(), entries) == TreeSizes(entries)
    ensures KeysOf(TreeLayout(), entries) == EntryNames(entries)
  {
  }

  lemma SliceOk(level: nat, entries: seq<TreeEntry>, start: nat, end: nat)
    requires start < end <= |entries| && ListOk(level, entries)
    ensures ListOk(level, entries[start..end])
  {
    var run := entries[start..end];
    forall i | 0 <= i < |run|
      ensures EntryOk(level, run[i]) && run[i].size < TWO_64
    {
      assert run[i] == entries[start + i];
    }
    forall i | 0 < i < |run|
      ensures Less(EntryNames(run)[i - 1], EntryNames(run)[i])
    {
      assert Less(EntryNames(entries)[start + i - 1], EntryNames(entries)[start + i]);
    }
  }

  lemma ParentEntryOk(level: nat, e: TreeEntry, name: Name)
    requires EntryOk(level, e)
    ensures EntryOk(level + 1, TreeEntry(e.name, TreeKind, name, 0, 0))
  {
  }

  lemma ParentAt(p: ShapeParams, nameOf: Naming, level: nat, current: seq<TreeEntry>, i: nat)
    requires ListOk(level, current) && i < |EndsOf(TreeLayout(), p, level, current)|
    ensures var ends := EndsOf(TreeLayout(), p, level, current);
            var parents := Parents(TreeLayout(), nameOf, level, Runs(TreeLayout(), p, level, current));
            && |parents| == |ends|
            && 0 < ends[i] <= |current|
            && parents[i].name == current[ends[i] - 1].name
            && EntryOk(level + 1, parents[i]) && parents[i].size < TWO_64
  {
    hide Runs, Nodes, Parents, EntryOk, Ascending, TreeLayout;
    var ends := EndsOf(TreeLayout(), p, level, current);
    var runs := Runs(TreeLayout(), p, level, current);
    RunAt(p, level, current, i);
    TreeRunAt(nameOf, level, runs, i);
    ParentEntryOk(level, current[ends[i] - 1], nameOf(Tree(level, runs[i])));
  }

  /** Routing keys are entry names and ascend as the entries do. */
  lemma ParentsOk(p: ShapeParams, nameOf: Naming, level: nat, current: seq<TreeEntry>)
    requires current != [] && ListOk(level, current)
    ensures ListOk(level + 1, Parents(TreeLayout(), nameOf, level, Runs(TreeLayout(), p, level, current)))
  {
    hide Runs, Parents, EntryOk, Ascending, TreeLayout;
    var ends := EndsOf(TreeLayout(), p, level, current);
    RunCount(p, level, current);
    var parents := Parents(TreeLayout(), nameOf, level, Runs(TreeLayout(), p, level, current));
    forall i | 0 <= i < |parents|
      ensures 0 < ends[i] <= |current| && parents[i].name == current[ends[i] - 1].name
      ensures EntryOk(level + 1, parents[i]) && parents[i].size < TWO_64
    {
      ParentAt(p, nameOf, level, current, i);
    }
    LastNamesAscend(EntryNames(current), ends, EntryNames(parents));
  }

  lemma LastNamesAscend(names: seq<Bytes>, ends: seq<nat>, lasts: seq<Bytes>)
    requires Ascending(names) && Cuts(ends, |names|) && |lasts| == |ends|
    requires forall i {:trigger lasts[i]} :: 0 <= i < |lasts| ==>
               0 < ends[i] <= |names| && lasts[i] == names[ends[i] - 1]
    ensures Ascending(lasts)
  {
    forall i | 0 < i < |lasts|
      ensures Less(lasts[i - 1], lasts[i])
    {
      var a, b := ends[i - 1], ends[i];
      assert lasts[i - 1] == names[a - 1] && lasts[i] == names[b - 1];
      AscendingPairwise(names, a - 1, b - 1);
    }
  }

  lemma RunCount(p: ShapeParams, level: nat, current: seq<TreeEntry>)
    ensures |Runs(TreeLayout(), p, level, current)| == |EndsOf(TreeLayout(), p, level, current)|
  {
  }

  /** One run, as a slice of the list it was cut from. */
  lemma RunAt(p: ShapeParams, level: nat, current: seq<TreeEntry>, i: nat)
    requires i < |EndsOf(TreeLayout(), p, level, current)|
    ensures var ends, runs := EndsOf(TreeLayout(), p, level, current), Runs(TreeLayout(), p, level, current);
            && |runs| == |ends|
            && StartOf(ends, i) < ends[i] <= |current|
            && runs[i] == current[StartOf(ends, i)..ends[i]]
  {
  }

  /** The bytes of a run: of all its entries, and of the last one above the rest. */
  lemma RunBytes(current: seq<TreeEntry>, start: nat, end: nat)
    requires start < end <= |current|
    requires forall i :: 0 <= i < |current| ==> |current[i].name| <= MAX_ENTRY_NAME_BYTES
    ensures Sum(TreeSizes(current[start..end])) <= MAX_TREE_ENTRY_BYTES * (end - start)
    ensures Sum(TreeSizes(current[start..end]))
            <= Sum(TreeSizes(current)[start..end - 1]) + MAX_TREE_ENTRY_BYTES
  {
    var sizes := TreeSizes(current);
    var run := TreeSizes(current[start..end]);
    assert run == sizes[start..end];
    assert forall x :: x in run ==> 0 <= x <= MAX_TREE_ENTRY_BYTES;
    SumBounds(run, 0, MAX_TREE_ENTRY_BYTES);
    assert run == sizes[start..end - 1] + [sizes[end - 1]];
    SumOfSnoc(sizes[start..end - 1], sizes[end - 1]);
  }

  lemma CapFits(count: nat, most: nat)
    requires count <= most && MAX_TREE_ENTRY_BYTES * most + NODE_HEADER_BYTES <= MAX_NODE_BYTES
    ensures MAX_TREE_ENTRY_BYTES * count + NODE_HEADER_BYTES <= MAX_NODE_BYTES
  {
  }

  lemma RunFits(p: ShapeParams, current: seq<TreeEntry>, start: nat, end: nat)
    requires SafeTreeShape(p) && start < end <= |current|
    requires forall i :: 0 <= i < |current| ==> |current[i].name| <= MAX_ENTRY_NAME_BYTES
    requires WithinBudget(p, TreeSizes(current), start, end)
    ensures NODE_HEADER_BYTES + Sum(TreeSizes(current[start..end])) <= MAX_NODE_BYTES
  {
    hide Sum, TreeSizes;
    RunBytes(current, start, end);
    if end - start <= 3 {
      CapFits(end - start, 3);
    } else if MAX_TREE_ENTRY_BYTES * p.maxEntries + NODE_HEADER_BYTES <= MAX_NODE_BYTES {
      CapFits(end - start, p.maxEntries);
    }
  }

  /** One level under a safe shape: the codec takes every node. */
  lemma LevelIsAccepted(p: ShapeParams, level: nat, current: seq<TreeEntry>)
    requires SafeTreeShape(p) && level <= 255
    requires current != [] && ListOk(level, current) && (level > 0 ==> |current| >= 2)
    ensures var nodes := Nodes(TreeLayout(), level, Runs(TreeLayout(), p, level, current));
            Accepted(nodes) == |nodes|
  {
    hide Runs, Nodes;
    var l := TreeLayout();
    var keys, sizes := EntryNames(current), TreeSizes(current);
    TreeSizesAre(current);
    var ends := EndsOf(l, p, level, current);
    var runs := Runs(l, p, level, current);
    RunCount(p, level, current);
    var nodes := Nodes(l, level, runs);
    forall i | 0 <= i < |nodes|
      ensures NodeOk(nodes[i])
    {
      RunAt(p, level, current, i);
      var run := current[StartOf(ends, i)..ends[i]];
      assert nodes[i] == Tree(level, run);
      RunsWithinBudget(p, level, keys, sizes, i);
      RunFits(p, current, StartOf(ends, i), ends[i]);
      SliceOk(level, current, StartOf(ends, i), ends[i]);
      if level > 0 { RunsAreNotLonely(p, level, keys, sizes, i); }
    }
    AllAccepted(nodes);
  }

  lemma DepthIsBounded(level: nat, count: nat, n: nat)
    requires n < Pow2(256) && (level > 0 ==> count >= 2 && count * Pow2(level) <= n + 1)
    ensures level <= 255
  {
    if level > 0 {
      TwiceAtMost(count, Pow2(level), n + 1);
      if level > 255 { Pow2Grows(256, level); }
    }
  }

  lemma {:induction false} SafeBuildSucceeds(p: ShapeParams, nameOf: Naming, level: nat, current: seq<TreeEntry>,
                                             n: nat)
    requires SafeTreeShape(p) && current != [] && ListOk(level, current)
    requires n < Pow2(256)
    requires level == 0 ==> |current| == n
    requires level > 0 ==> |current| >= 2 && |current| * Pow2(level) <= n + 1
    ensures BuildFrom(TreeLayout(), p, nameOf, level, current).root.Some?
    decreases if level == 0 then 1 else 0, |current|
  {
    hide Runs, Nodes, Parents, ListOk, TreeLayout;
    var l := TreeLayout();
    var runs := Runs(l, p, level, current);
    DepthIsBounded(level, |current|, n);
    LevelIsAccepted(p, level, current);
    RunsShrink(l, p, level, current);
    if |runs| != 1 {
      TreeListSplits(p, level, current);
      RunsHalve(l, p, level, current);
      HalfAsMany(level, |runs|, |current|, n);
      ParentsOk(p, nameOf, level, current);
      SafeBuildSucceeds(p, nameOf, level + 1, Parents(l, nameOf, level, runs), n);
    }
  }

  lemma {:induction false} Pow2Grows(a: nat, b: nat)
    requires a <= b
    ensures Pow2(a) <= Pow2(b)
  {
    if a < b { Pow2Grows(a, b - 1); }
  }

  lemma TreeListSplits(p: ShapeParams, level: nat, current: seq<TreeEntry>)
    requires SafeTreeShape(p) && ListOk(level, current)
    ensures Splittable(TreeLayout(), p, current)
  {
    TreeSizesAre(current);
    forall i | 0 <= i < |current|
      ensures TreeSizes(current)[i] < p.maxNodeBytes
    {
      assert EntryOk(level, current[i]);
    }
  }

  /** Under a safe shape every sorted listing builds: no node is ever refused. */
  lemma SafeTreeBuildSucceeds(p: ShapeParams, nameOf: Naming, entries: seq<TreeEntry>)
    requires SafeTreeShape(p) && LeafListOk(entries) && |entries| < Pow2(256)
    ensures TreeBuild(entries, p, nameOf).root.Some?
  {
    if entries != [] {
      SafeBuildSucceeds(p, nameOf, 0, entries, |entries|);
    }
  }

  /** And the tree is shallow: its depth is logarithmic in the number of entries. */
  lemma SafeTreeBuildIsShallow(p: ShapeParams, nameOf: Naming, entries: seq<TreeEntry>)
    requires SafeTreeShape(p) && LeafListOk(entries)
    ensures Shallow(TreeBuild(entries, p, nameOf).emitted, |entries|)
  {
    if entries != [] {
      var l := TreeLayout();
      var good := (level: nat, s: seq<TreeEntry>) => ListOk(level, s);
      assert Inherited(l, p, nameOf, good) by {
        forall level: nat, s: seq<TreeEntry> | good(level, s)
          ensures Splittable(l, p, s)
        {
          TreeListSplits(p, level, s);
        }
        forall level: nat, s: seq<TreeEntry> | good(level, s) && s != []
          ensures good(level + 1, Parents(l, nameOf, level, Runs(l, p, level, s)))
        {
          ParentsOk(p, nameOf, level, s);
        }
      }
      BuildIsShallow(l, p, nameOf, good, 0, entries, |entries|);
    }
  }

  // ---- what is emitted is always valid ----

  /** Whatever the parameters, a build emits only nodes the codec takes; so no emitted
      interior node has fewer than two children. */
  lemma {:induction false} EmittedNodesAreValid<E(!new)>(l: Layout<E>, p: ShapeParams, nameOf: Naming, level: nat,
                                                   current: seq<E>)
    requires l.Valid() && current != []
    ensures forall o :: o in BuildFrom(l, p, nameOf, level, current).emitted ==> NodeOk(o)
    decreases if level == 0 then 1 else 0, |current|
  {
    hide NodeOk, Runs, Nodes, Parents;
    var runs := Runs(l, p, level, current);
    var nodes := Nodes(l, level, runs);
    RunsShrink(l, p, level, current);
    if Accepted(nodes) == |nodes| && |nodes| != 1 {
      EmittedNodesAreValid(l, p, nameOf, level + 1, Parents(l, nameOf, level, runs));
    }
  }

  lemma EmittedTreesAreValid(p: ShapeParams, nameOf: Naming, entries: seq<TreeEntry>)
    ensures forall o :: o in TreeBuild(entries, p, nameOf).emitted ==> NodeOk(o)
  {
    if entries == [] {
      EmptyNodeOk();
    } else if Ascending(EntryNames(entries)) {
      EmittedNodesAreValid(TreeLayout(), p, nameOf, 0, entries);
    }
  }

  lemma EmptyNodeOk()
    ensures NodeOk(Tree(0, [])) && NodeOk(Blob(0, []))
  {
  }

  // ---- files ----

  predicate BlobListOk(entries: seq<BlobEntry>)
  {
    (forall i :: 0 <= i < |entries| ==> entries[i].size > 0) && SpanOf(entries) < TWO_64
  }

  /** How many forty-byte entries a node can hold. */
  const MOST_CHILDREN: nat := (MAX_NODE_BYTES - NODE_HEADER_BYTES) / BLOB_ENTRY_BYTES

  /** Nodes hold two entries, and cannot outgrow the limit: by the cap on entries, or
      by the budget. */
  predicate SafeBlobShape(p: ShapeParams)
  {
    && p.Valid() && p.minEntries >= 2
    && (p.maxEntries <= MOST_CHILDREN || p.maxNodeBytes <= BLOB_ENTRY_BYTES * MOST_CHILDREN)
  }

  lemma {:induction false} SpanOfConcat(a: seq<BlobEntry>, b: seq<BlobEntry>)
    ensures SpanOf(a + b) == SpanOf(a) + SpanOf(b)
  {
    if a == [] {
      assert a + b == b;
    } else {
      assert (a + b)[1..] == a[1..] + b;
      SpanOfConcat(a[1..], b);
    }
  }

  lemma {:induction false} SpanIsPositive(s: seq<BlobEntry>)
    requires forall i :: 0 <= i < |s| ==> s[i].size > 0
    ensures SpanOf(s) >= |s|
  {
    if s != [] {
      assert forall i :: 0 <= i < |s| - 1 ==> s[1..][i] == s[i + 1];
      SpanIsPositive(s[1..]);
    }
  }

  /** A part of a file is no larger than the file. */
  lemma PartOk(s: seq<BlobEntry>, start: nat, end: nat)
    requires start < end <= |s| && BlobListOk(s)
    ensures BlobListOk(s[start..end]) && SpanOf(s[start..end]) > 0
    ensures forall i :: start <= i < end ==> s[i].size < TWO_64
  {
    var a, run, b := s[..start], s[start..end], s[end..];
    assert s == a + (run + b);
    SpanOfConcat(a, run + b);
    SpanOfConcat(run, b);
    SpanIsPositive(a);
    SpanIsPositive(run);
    SpanIsPositive(b);
    forall i | start <= i < end
      ensures s[i].size < TWO_64
    {
      OneOfThePart(run, i - start);
    }
  }

  /** One child is no larger than all of them. */
  lemma OneOfThePart(run: seq<BlobEntry>, k: nat)
    requires k < |run| && forall i :: 0 <= i < |run| ==> run[i].size > 0
    ensures run[k].size <= SpanOf(run)
  {
    assert run == run[..k] + ([run[k]] + run[k + 1..]);
    SpanOfConcat(run[..k], [run[k]] + run[k + 1..]);
    SpanOfConcat([run[k]], run[k + 1..]);
    SpanIsPositive(run[..k]);
    SpanIsPositive(run[k + 1..]);
  }

  lemma {:induction false} ParentsKeepTheSpan(nameOf: Naming, level: nat, runs: seq<seq<BlobEntry>>)
    requires forall i :: 0 <= i < |runs| ==> runs[i] != []
    requires BlobListOk(Concat(runs))
    ensures SpanOf(Parents(BlobLayout(), nameOf, level, runs)) == SpanOf(Concat(runs))
    ensures BlobListOk(Parents(BlobLayout(), nameOf, level, runs))
  {
    var parents := Parents(BlobLayout(), nameOf, level, runs);
    if runs != [] {
      var whole := Concat(runs);
      assert whole == runs[0] + Concat(runs[1..]);
      SpanOfConcat(runs[0], Concat(runs[1..]));
      assert whole[0..|runs[0]|] == runs[0];
      PartOk(whole, 0, |runs[0]|);
      assert Parents(BlobLayout(), nameOf, level, runs[1..]) == parents[1..];
      assert parents[0].size == SpanOf(runs[0]);
      assert BlobListOk(Concat(runs[1..])) by {
        if Concat(runs[1..]) != [] {
          assert whole[|runs[0]|..|whole|] == Concat(runs[1..]);
          PartOk(whole, |runs[0]|, |whole|);
        }
      }
      ParentsKeepTheSpan(nameOf, level, runs[1..]);
      forall i | 0 <= i < |parents|
        ensures parents[i].size > 0
      {
        if i > 0 { assert parents[i] == parents[1..][i - 1]; }
      }
    }
  }

  lemma BlobRunCount(p: ShapeParams, level: nat, current: seq<BlobEntry>, i: nat)
    requires p.Valid() && i < |EndsOf(BlobLayout(), p, level, current)|
    ensures var ends, runs := EndsOf(BlobLayout(), p, level, current), Runs(BlobLayout(), p, level, current);
            && |runs| == |ends| && StartOf(ends, i) < ends[i] <= |current|
            && runs[i] == current[StartOf(ends, i)..ends[i]]
            && (|runs[i]| <= 3 || (|runs[i]| <= p.maxEntries && BLOB_ENTRY_BYTES * (|runs[i]| - 1) < p.maxNodeBytes))
  {
    var keys, sizes := KeysOf(BlobLayout(), current), SizesOf(BlobLayout(), current);
    var ends := EndsOf(BlobLayout(), p, level, current);
    RunsWithinBudget(p, level, keys, sizes, i);
    SumBounds(sizes[StartOf(ends, i)..ends[i] - 1], BLOB_ENTRY_BYTES, BLOB_ENTRY_BYTES);
  }

  lemma BlobRunIsAccepted(p: ShapeParams, level: nat, current: seq<BlobEntry>, i: nat)
    requires SafeBlobShape(p) && level <= 255
    requires BlobListOk(current) && (level > 0 ==> |current| >= 2)
    requires i < |EndsOf(BlobLayout(), p, level, current)|
    ensures var runs := Runs(BlobLayout(), p, level, current);
            i < |runs| && NodeOk(Blob(level, runs[i]))
  {
    hide Runs, EndsOf, BlobLayout, BlobListOk;
    var ends := EndsOf(BlobLayout(), p, level, current);
    BlobRunCount(p, level, current, i);
    PartOk(current, StartOf(ends, i), ends[i]);
    PartIsPositive(current, StartOf(ends, i), ends[i]);
    if level > 0 { BlobRunsAreNotLonely(p, level, current, i); }
  }

  lemma PartIsPositive(s: seq<BlobEntry>, start: nat, end: nat)
    requires start < end <= |s| && BlobListOk(s)
    ensures forall i :: start <= i < end ==> s[i].size > 0
  {
  }

  lemma BlobRunsAreNotLonely(p: ShapeParams, level: nat, current: seq<BlobEntry>, i: nat)
    requires SafeBlobShape(p) && level > 0 && |current| >= 2
    requires i < |EndsOf(BlobLayout(), p, level, current)|
    ensures var ends := EndsOf(BlobLayout(), p, level, current); ends[i] >= StartOf(ends, i) + 2
  {
    RunsAreNotLonely(p, level, KeysOf(BlobLayout(), current), SizesOf(BlobLayout(), current), i);
  }

  lemma BlobLevelIsAccepted(p: ShapeParams, level: nat, current: seq<BlobEntry>)
    requires SafeBlobShape(p) && level <= 255
    requires current != [] && BlobListOk(current) && (level > 0 ==> |current| >= 2)
    ensures var nodes := Nodes(BlobLayout(), level, Runs(BlobLayout(), p, level, current));
            Accepted(nodes) == |nodes|
  {
    hide Runs, Nodes, EndsOf, NodeOk, BlobListOk;
    var runs := Runs(BlobLayout(), p, level, current);
    var nodes := Nodes(BlobLayout(), level, runs);
    BlobRunsAreCounted(p, level, current);
    forall i | 0 <= i < |nodes|
      ensures NodeOk(nodes[i])
    {
      BlobRunIsAccepted(p, level, current, i);
      assert nodes[i] == Blob(level, runs[i]);
    }
    AllAccepted(nodes);
  }

  lemma BlobRunsAreCounted(p: ShapeParams, level: nat, current: seq<BlobEntry>)
    ensures |Runs(BlobLayout(), p, level, current)| == |EndsOf(BlobLayout(), p, level, current)|
  {
  }

  lemma {:induction false} SafeBlobLevelsSucceed(p: ShapeParams, nameOf: Naming, level: nat, current: seq<BlobEntry>,
                                                 n: nat)
    requires SafeBlobShape(p) && current != [] && BlobListOk(current)
    requires n < Pow2(256)
    requires level == 0 ==> |current| == n
    requires level > 0 ==> |current| >= 2 && |current| * Pow2(level) <= n + 1
    ensures BuildFrom(BlobLayout(), p, nameOf, level, current).root.Some?
    decreases if level == 0 then 1 else 0, |current|
  {
    hide Runs, Nodes, Parents, BlobListOk, BlobLayout;
    var l := BlobLayout();
    var runs := Runs(l, p, level, current);
    DepthIsBounded(level, |current|, n);
    BlobLevelIsAccepted(p, level, current);
    RunsShrink(l, p, level, current);
    if |runs| != 1 {
      assert Splittable(l, p, current) by { BlobListSplits(p, current); }
      RunsHalve(l, p, level, current);
      HalfAsMany(level, |runs|, |current|, n);
      RunsJoin(p, level, current);
      ParentsKeepTheSpan(nameOf, level, runs);
      SafeBlobLevelsSucceed(p, nameOf, level + 1, Parents(l, nameOf, level, runs), n);
    }
  }

  lemma BlobListSplits(p: ShapeParams, current: seq<BlobEntry>)
    requires SafeBlobShape(p)
    ensures Splittable(BlobLayout(), p, current)
  {
  }

  lemma RunsJoin(p: ShapeParams, level: nat, current: seq<BlobEntry>)
    ensures Concat(Runs(BlobLayout(), p, level, current)) == current
  {
    SlicesPartition(current, EndsOf(BlobLayout(), p, level, current));
  }

  /** Files always build: every chunk list of a file under 2^64 bytes. */
  lemma SafeBlobBuildSucceeds(p: ShapeParams, nameOf: Naming, chunks: seq<BlobEntry>)
    requires SafeBlobShape(p) && BlobListOk(chunks)
    ensures BlobBuild(chunks, p, nameOf).root.Some?
  {
    if chunks != [] {
      SpanIsPositive(chunks);
      WordFits();
      SafeBlobLevelsSucceed(p, nameOf, 0, chunks, |chunks|);
    }
  }

  /** And their trees are shallow, like directories'. */
  lemma SafeBlobBuildIsShallow(p: ShapeParams, nameOf: Naming, chunks: seq<BlobEntry>)
    requires SafeBlobShape(p) && BlobListOk(chunks)
    ensures Shallow(BlobBuild(chunks, p, nameOf).emitted, |chunks|)
  {
    hide BlobListOk, Shallow, BuildFrom;
    if chunks != [] {
      var l := BlobLayout();
      var good := (level: nat, s: seq<BlobEntry>) => BlobListOk(s);
      assert Inherited(l, p, nameOf, good) by { BlobListsAreInherited(p, nameOf, good); }
      BuildIsShallow(l, p, nameOf, good, 0, chunks, |chunks|);
    } else {
      EmptyIsShallow(0);
    }
  }

  lemma BlobListsAreInherited(p: ShapeParams, nameOf: Naming, good: (nat, seq<BlobEntry>) -> bool)
    requires SafeBlobShape(p)
    requires forall level: nat, s: seq<BlobEntry> :: good(level, s) <==> BlobListOk(s)
    ensures Inherited(BlobLayout(), p, nameOf, good)
  {
    hide Runs, Parents, BlobListOk, Splittable;
    var l := BlobLayout();
    forall level: nat, s: seq<BlobEntry> | good(level, s)
      ensures Splittable(l, p, s)
    {
      BlobListSplits(p, s);
    }
    forall level: nat, s: seq<BlobEntry> | good(level, s) && s != []
      ensures good(level + 1, Parents(l, nameOf, level, Runs(l, p, level, s)))
    {
      RunsJoin(p, level, s);
      ParentsKeepTheSpan(nameOf, level, Runs(l, p, level, s));
    }
  }

  lemma EmptyIsShallow(n: nat)
    ensures Shallow([Tree(0, [])], n) && Shallow([Blob(0, [])], n)
  {
  }

  /** Whatever the parameters, file nodes are emitted only if the codec takes them. */
  lemma EmittedBlobsAreValid(p: ShapeParams, nameOf: Naming, chunks: seq<BlobEntry>)
    ensures forall o :: o in BlobBuild(chunks, p, nameOf).emitted ==> NodeOk(o)
  {
    if chunks == [] {
      EmptyNodeOk();
    } else {
      EmittedNodesAreValid(BlobLayout(), p, nameOf, 0, chunks);
    }
  }

  lemma WordFits()
    ensures TWO_64 < Pow2(256)
  {
    Pow2Splits(8, 16);
    Pow2Splits(16, 32);
    Pow2Splits(32, 64);
    assert Pow2(8) == 256;
    assert Pow2(16) == 0x1_0000;
    assert Pow2(32) == 0x1_0000_0000;
    assert Pow2(64) == TWO_64;
    assert Pow2(65) == 2 * TWO_64;
    Pow2Grows(65, 256);
  }
}
