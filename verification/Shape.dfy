/** Building node trees bottom-up (src/format/shape.py). Names come from an arbitrary
    function of the object. A build either yields the root's name or stops where the codec
    refuses a node (`None`); either way it says which nodes it emitted, in order. */
module Shape {
  import opened ByteStrings
  import opened Model
  import opened Validation
  import opened CodecSpec
  import opened Sums
  import opened Partition

  type Naming = Object -> Name

  /** What the two builders do differently: an entry's key and encoded size, the node
      a run makes, and the entry that stands for that node one level up. */
  datatype Layout<!E(!new)> = Layout(key: E -> Bytes, bytes: E -> nat, node: (nat, seq<E>) -> Object,
                               parent: (Name, seq<E>) -> E)
  {
    ghost predicate Valid()
    {
      forall level: nat, run: seq<E> {:trigger node(level, run)} ::
        NodeOk(node(level, run)) ==> NodeLevelOk(level, |run|)
    }
  }

  datatype Built = Built(root: Option<Name>, emitted: seq<Object>)

  function KeysOf<E(!new)>(l: Layout<E>, entries: seq<E>): (keys: seq<Bytes>)
    ensures |keys| == |entries|
    ensures forall i :: 0 <= i < |keys| ==> keys[i] == l.key(entries[i])
  {
    seq(|entries|, i requires 0 <= i < |entries| => l.key(entries[i]))
  }

  function SizesOf<E(!new)>(l: Layout<E>, entries: seq<E>): (sizes: seq<nat>)
    ensures |sizes| == |entries|
    ensures forall i :: 0 <= i < |sizes| ==> sizes[i] == l.bytes(entries[i])
  {
    seq(|entries|, i requires 0 <= i < |entries| => l.bytes(entries[i]))
  }

  function EndsOf<E(!new)>(l: Layout<E>, p: ShapeParams, level: nat, entries: seq<E>): (ends: seq<nat>)
    ensures Cuts(ends, |entries|)
  {
    Ends(p, level, KeysOf(l, entries), SizesOf(l, entries))
  }

  /** The runs of one level, each the contents of one node. */
  function Runs<E(!new)>(l: Layout<E>, p: ShapeParams, level: nat, entries: seq<E>): (runs: seq<seq<E>>)
    ensures forall i :: 0 <= i < |runs| ==> runs[i] != []
    ensures entries != [] ==> runs != []
  {
    Slices(entries, EndsOf(l, p, level, entries))
  }

  function Nodes<E(!new)>(l: Layout<E>, level: nat, runs: seq<seq<E>>): (nodes: seq<Object>)
    ensures |nodes| == |runs|
    ensures forall i :: 0 <= i < |nodes| ==> nodes[i] == l.node(level, runs[i])
  {
    seq(|runs|, i requires 0 <= i < |runs| => l.node(level, runs[i]))
  }

  function Parents<E(!new)>(l: Layout<E>, nameOf: Naming, level: nat, runs: seq<seq<E>>): (parents: seq<E>)
    ensures |parents| == |runs|
    ensures forall i :: 0 <= i < |parents| ==> parents[i] == l.parent(nameOf(l.node(level, runs[i])), runs[i])
  {
    seq(|runs|, i requires 0 <= i < |runs| => l.parent(nameOf(l.node(level, runs[i])), runs[i]))
  }

  /** How many nodes are encoded before the first one the codec refuses. */
  function Accepted(nodes: seq<Object>): (count: nat)
    ensures count <= |nodes|
    ensures forall i :: 0 <= i < count ==> NodeOk(nodes[i])
    ensures count < |nodes| ==> !NodeOk(nodes[count])
  {
    if nodes == [] || !NodeOk(nodes[0]) then 0 else 1 + Accepted(nodes[1..])
  }

  lemma AcceptedRunIsNotSingle<E(!new)>(l: Layout<E>, p: ShapeParams, level: nat, entries: seq<E>, i: nat)
    requires l.Valid() && level > 0 && i < |EndsOf(l, p, level, entries)|
    requires var runs := Runs(l, p, level, entries); Accepted(Nodes(l, level, runs)) == |runs|
    ensures EndsOf(l, p, level, entries)[i] >= StartOf(EndsOf(l, p, level, entries), i) + 2
  {
    hide Accepted;
    var runs := Runs(l, p, level, entries);
    assert NodeOk(Nodes(l, level, runs)[i]);
    assert NodeOk(l.node(level, runs[i]));
  }

  /** Interior nodes that encode have two children, so each level is shorter. */
  lemma RunsShrink<E(!new)>(l: Layout<E>, p: ShapeParams, level: nat, entries: seq<E>)
    requires l.Valid()
    ensures |Runs(l, p, level, entries)| <= |entries|
    ensures var runs := Runs(l, p, level, entries);
            level > 0 && entries != [] && Accepted(Nodes(l, level, runs)) == |runs| ==> |runs| < |entries|
  {
    hide RunsHold, Cuts, Accepted;
    var ends := EndsOf(l, p, level, entries);
    var runs := Runs(l, p, level, entries);
    if entries != [] {
      LastEnd(ends, |entries|);
      RunsAreNotEmpty(ends, |entries|);
      FewRuns(ends, 1, |ends| - 1);
      if level > 0 && Accepted(Nodes(l, level, runs)) == |runs| {
        AcceptedRunsAreNotSingle(l, p, level, entries);
        FewRuns(ends, 2, |ends| - 1);
      }
    }
  }

  lemma LastEnd(ends: seq<nat>, n: nat)
    requires Cuts(ends, n) && n > 0
    ensures ends != [] && ends[|ends| - 1] == n
  {
  }

  lemma RunsAreNotEmpty(ends: seq<nat>, n: nat)
    requires Cuts(ends, n) && ends != []
    ensures RunsHold(ends, 1, |ends| - 1)
  {
    forall i | 0 <= i < |ends|
      ensures ends[i] >= StartOf(ends, i) + 1
    {
      CutsBounds(ends, n, i);
    }
  }

  lemma AcceptedRunsAreNotSingle<E(!new)>(l: Layout<E>, p: ShapeParams, level: nat, entries: seq<E>)
    requires l.Valid() && level > 0 && EndsOf(l, p, level, entries) != []
    requires var runs := Runs(l, p, level, entries); Accepted(Nodes(l, level, runs)) == |runs|
    ensures var ends := EndsOf(l, p, level, entries); RunsHold(ends, 2, |ends| - 1)
  {
    hide Runs, Accepted, Cuts;
    var ends := EndsOf(l, p, level, entries);
    forall i | 0 <= i < |ends|
      ensures ends[i] >= StartOf(ends, i) + 2
    {
      AcceptedRunIsNotSingle(l, p, level, entries, i);
    }
  }

  /** Partition, emit, and repeat on the nodes until one remains. */
  function BuildFrom<E(!new)>(l: Layout<E>, p: ShapeParams, nameOf: Naming, level: nat, current: seq<E>): (b: Built)
    requires l.Valid() && current != []
    decreases if level == 0 then 1 else 0, |current|
  {
    var runs := Runs(l, p, level, current);
    var nodes := Nodes(l, level, runs);
    var accepted := Accepted(nodes);
    if accepted < |nodes| then Built(None, nodes[..accepted])
    else if |nodes| == 1 then Built(Some(nameOf(nodes[0])), nodes)
    else
      RunsShrink(l, p, level, current);
      var above := BuildFrom(l, p, nameOf, level + 1, Parents(l, nameOf, level, runs));
      Built(above.root, nodes + above.emitted)
  }

  // ---- trees ----

  /** The last key a node covers. */
  function LastName(entries: seq<TreeEntry>): (name: Bytes)
  {
    if entries == [] then [] else entries[|entries| - 1].name
  }

  function TreeLayout(): (l: Layout<TreeEntry>)
    ensures l.Valid()
  {
    Layout((e: TreeEntry) => e.name,
           (e: TreeEntry) => TreeEntryBytes(e),
           (level: nat, run: seq<TreeEntry>) => Tree(level, run),
           (name: Name, run: seq<TreeEntry>) => TreeEntry(LastName(run), TreeKind, name, 0, 0))
  }

  /** `build_tree`: an empty directory is one empty leaf; an unsorted listing is refused. */
  function TreeBuild(entries: seq<TreeEntry>, p: ShapeParams, nameOf: Naming): (b: Built)
  {
    if entries == [] then Built(Some(nameOf(Tree(0, []))), [Tree(0, [])])
    else if !Ascending(EntryNames(entries)) then Built(None, [])
    else BuildFrom(TreeLayout(), p, nameOf, 0, entries)
  }

  /** `_reject_unsorted`. */
  method RejectUnsorted(entries: seq<TreeEntry>) returns (sorted: bool)
    ensures sorted <==> Ascending(EntryNames(entries))
  {
    ghost var names := EntryNames(entries);
    var k := 1;
    while k < |entries|
      invariant forall i :: 0 < i < k && i < |entries| ==> Less(names[i - 1], names[i])
    {
      LessTrichotomy(entries[k].name, entries[k - 1].name);
      if LessEq(entries[k].name, entries[k - 1].name) {
        assert !Less(names[k - 1], names[k]);
        return false;
      }
      k := k + 1;
    }
    sorted := true;
  }

  /** One level of `build_tree`: partition, then encode and emit run by run. */
  method EmitTreeLevel(current: seq<TreeEntry>, level: nat, p: ShapeParams, nameOf: Naming)
    returns (ok: bool, nodes: seq<TreeEntry>, emitted: seq<Object>)
    requires current != []
    ensures var runs := Runs(TreeLayout(), p, level, current);
            var all := Nodes(TreeLayout(), level, runs);
            && emitted == all[..Accepted(all)]
            && (ok <==> Accepted(all) == |all|)
            && (ok ==> nodes == Parents(TreeLayout(), nameOf, level, runs)
                       && nodes != [] && nodes[0].target == nameOf(all[0]))
  {
    ghost var l := TreeLayout();
    var keys := seq(|current|, i requires 0 <= i < |current| => current[i].name);
    var sizes := seq(|current|, i requires 0 <= i < |current| => TreeEntryBytes(current[i]));
    assert keys == KeysOf(l, current) && sizes == SizesOf(l, current);
    var ends := PartitionKeys(keys, sizes, level, p);
    ok, nodes, emitted := EmitTreeRuns(current, ends, level, nameOf);
  }

  method EmitTreeRuns(current: seq<TreeEntry>, ends: seq<nat>, level: nat, nameOf: Naming)
    returns (ok: bool, nodes: seq<TreeEntry>, emitted: seq<Object>)
    requires current != [] && Cuts(ends, |current|)
    ensures var runs := Slices(current, ends);
            var all := Nodes(TreeLayout(), level, runs);
            && emitted == all[..Accepted(all)]
            && (ok <==> Accepted(all) == |all|)
            && (ok ==> nodes == Parents(TreeLayout(), nameOf, level, runs)
                       && nodes != [] && nodes[0].target == nameOf(all[0]))
  {
    hide Accepted, NodeOk, Cuts, Slices, Nodes, Parents, TreeLayout;
    ghost var runs := Slices(current, ends);
    ghost var all, parents := Nodes(TreeLayout(), level, runs), Parents(TreeLayout(), nameOf, level, runs);
    nodes, emitted := [], [];
    var start := 0;
    for k := 0 to |ends|
      invariant start == if k == 0 then 0 else ends[k - 1]
      invariant emitted == all[..k]
      invariant nodes == parents[..k]
      invariant forall i :: 0 <= i < k ==> NodeOk(all[i])
    {
      CutsBounds(ends, |current|, k);
      TreeRunAt(nameOf, level, runs, k);
      var run := current[start..ends[k]];
      var node := Tree(level, run);
      if !NodeOk(node) {
        FirstRefusal(all, k);
        return false, nodes, emitted;
      }
      emitted := emitted + [node];
      nodes := nodes + [TreeEntry(LastName(run), TreeKind, nameOf(node), 0, 0)];
      start := ends[k];
    }
    AllAccepted(all);
    SomeRuns(current, ends);
    TreeRunAt(nameOf, level, runs, 0);
    ok := true;
  }

  lemma TreeRunAt(nameOf: Naming, level: nat, runs: seq<seq<TreeEntry>>, k: nat)
    requires k < |runs|
    ensures var node, run := Tree(level, runs[k]), runs[k];
            && Nodes(TreeLayout(), level, runs)[k] == node
            && Parents(TreeLayout(), nameOf, level, runs)[k] == TreeEntry(LastName(run), TreeKind, nameOf(node), 0, 0)
  {
  }

  method BuildTree(entries: seq<TreeEntry>, p: ShapeParams, nameOf: Naming) returns (b: Built)
    ensures b == TreeBuild(entries, p, nameOf)
  {
    if entries == [] {
      return Built(Some(nameOf(Tree(0, []))), [Tree(0, [])]);
    }
    var sorted := RejectUnsorted(entries);
    if !sorted {
      return Built(None, []);
    }
    b := BuildTreeLevels(entries, p, nameOf);
  }

  /** The loop of `build_tree`: treat the nodes just emitted as the entries of the
      level above, until one remains. */
  method BuildTreeLevels(entries: seq<TreeEntry>, p: ShapeParams, nameOf: Naming) returns (b: Built)
    requires entries != []
    ensures b == BuildFrom(TreeLayout(), p, nameOf, 0, entries)
  {
    hide BuildFrom, Resume, Runs, Nodes, Parents, Accepted, TreeLayout;
    var current, level, emitted := entries, 0, [];
    ResumeFromNothing(BuildFrom(TreeLayout(), p, nameOf, 0, entries));
    while true
      invariant current != []
      invariant BuildFrom(TreeLayout(), p, nameOf, 0, entries)
                == Resume(emitted, BuildFrom(TreeLayout(), p, nameOf, level, current))
      decreases if level == 0 then 1 else 0, |current|
    {
      LevelOfBuild(TreeLayout(), p, nameOf, level, current, emitted);
      var ok, nodes, written := EmitTreeLevel(current, level, p, nameOf);
      emitted := emitted + written;
      if !ok {
        return Built(None, emitted);
      }
      if |nodes| == 1 {
        return Built(Some(nodes[0].target), emitted);
      }
      current, level := nodes, level + 1;
    }
  }

  /** A build that goes on after `before` has been emitted. */
  function Resume(before: seq<Object>, b: Built): (whole: Built)
  {
    Built(b.root, before + b.emitted)
  }

  lemma ResumeFromNothing(b: Built)
    ensures Resume([], b) == b
  {
    assert [] + b.emitted == b.emitted;
  }

  /** One level of a build, spelled out: what it emits, and when it is the last. */
  lemma LevelOfBuild<E(!new)>(l: Layout<E>, p: ShapeParams, nameOf: Naming, level: nat, current: seq<E>,
                              before: seq<Object>)
    requires l.Valid() && current != []
    ensures var runs := Runs(l, p, level, current);
            var all := Nodes(l, level, runs);
            var parents := Parents(l, nameOf, level, runs);
            var accepted := Accepted(all);
            && parents != []
            && (accepted == |all| && level > 0 ==> |parents| < |current|)
            && Resume(before, BuildFrom(l, p, nameOf, level, current))
               == if accepted < |all| then Built(None, before + all[..accepted])
                  else if |parents| == 1 then Built(Some(nameOf(all[0])), before + all[..accepted])
                  else Resume(before + all[..accepted], BuildFrom(l, p, nameOf, level + 1, parents))
  {
    hide Runs, Nodes, Parents, Accepted;
    RunsShrink(l, p, level, current);
    var runs := Runs(l, p, level, current);
    var all := Nodes(l, level, runs);
    var above := BuildFrom(l, p, nameOf, level + 1, Parents(l, nameOf, level, runs));
    assert all[..|all|] == all;
    assert before + (all + above.emitted) == (before + all) + above.emitted;
  }

  lemma SomeRuns<E>(entries: seq<E>, ends: seq<nat>)
    requires entries != [] && Cuts(ends, |entries|)
    ensures ends != []
  {
  }

  lemma {:induction false} FirstRefusal(nodes: seq<Object>, k: nat)
    requires k < |nodes| && !NodeOk(nodes[k])
    requires forall i :: 0 <= i < k ==> NodeOk(nodes[i])
    ensures Accepted(nodes) == k
  {
    if k > 0 {
      FirstRefusal(nodes[1..], k - 1);
    }
  }

  lemma {:induction false} AllAccepted(nodes: seq<Object>)
    requires forall i :: 0 <= i < |nodes| ==> NodeOk(nodes[i])
    ensures Accepted(nodes) == |nodes|
  {
    if nodes != [] {
      AllAccepted(nodes[1..]);
    }
  }

  // ---- blobs ----

  function SpanOf(children: seq<BlobEntry>): (size: int)
  {
    if children == [] then 0 else children[0].size + SpanOf(children[1..])
  }

  function BlobLayout(): (l: Layout<BlobEntry>)
    ensures l.Valid()
  {
    Layout((e: BlobEntry) => e.target.digest,
           (e: BlobEntry) => BLOB_ENTRY_BYTES,
           (level: nat, run: seq<BlobEntry>) => Blob(level, run),
           (name: Name, run: seq<BlobEntry>) => BlobEntry(name, SpanOf(run)))
  }

  /** `build_blob`: an empty file is one empty leaf. */
  function BlobBuild(chunks: seq<BlobEntry>, p: ShapeParams, nameOf: Naming): (b: Built)
  {
    if chunks == [] then Built(Some(nameOf(Blob(0, []))), [Blob(0, [])])
    else BuildFrom(BlobLayout(), p, nameOf, 0, chunks)
  }

  /** One level of `build_blob`: partition, then encode and emit run by run. */
  method EmitBlobLevel(current: seq<BlobEntry>, level: nat, p: ShapeParams, nameOf: Naming)
    returns (ok: bool, nodes: seq<BlobEntry>, emitted: seq<Object>)
    requires current != []
    ensures var runs := Runs(BlobLayout(), p, level, current);
            var all := Nodes(BlobLayout(), level, runs);
            && emitted == all[..Accepted(all)]
            && (ok <==> Accepted(all) == |all|)
            && (ok ==> nodes == Parents(BlobLayout(), nameOf, level, runs)
                       && nodes != [] && nodes[0].target == nameOf(all[0]))
  {
    ghost var l := BlobLayout();
    var keys := seq(|current|, i requires 0 <= i < |current| => current[i].target.digest);
    var sizes := seq(|current|, i requires 0 <= i < |current| => BLOB_ENTRY_BYTES);
    assert keys == KeysOf(l, current) && sizes == SizesOf(l, current);
    var ends := PartitionKeys(keys, sizes, level, p);
    ok, nodes, emitted := EmitBlobRuns(current, ends, level, nameOf);
  }

  method EmitBlobRuns(current: seq<BlobEntry>, ends: seq<nat>, level: nat, nameOf: Naming)
    returns (ok: bool, nodes: seq<BlobEntry>, emitted: seq<Object>)
    requires current != [] && Cuts(ends, |current|)
    ensures var runs := Slices(current, ends);
            var all := Nodes(BlobLayout(), level, runs);
            && emitted == all[..Accepted(all)]
            && (ok <==> Accepted(all) == |all|)
            && (ok ==> nodes == Parents(BlobLayout(), nameOf, level, runs)
                       && nodes != [] && nodes[0].target == nameOf(all[0]))
  {
    hide Accepted, NodeOk, Cuts, Slices, Nodes, Parents, BlobLayout;
    ghost var runs := Slices(current, ends);
    ghost var all, parents := Nodes(BlobLayout(), level, runs), Parents(BlobLayout(), nameOf, level, runs);
    nodes, emitted := [], [];
    var start := 0;
    for k := 0 to |ends|
      invariant start == if k == 0 then 0 else ends[k - 1]
      invariant emitted == all[..k]
      invariant nodes == parents[..k]
      invariant forall i :: 0 <= i < k ==> NodeOk(all[i])
    {
      CutsBounds(ends, |current|, k);
      BlobRunAt(nameOf, level, runs, k);
      var run := current[start..ends[k]];
      var node := Blob(level, run);
      if !NodeOk(node) {
        FirstRefusal(all, k);
        return false, nodes, emitted;
      }
      emitted := emitted + [node];
      nodes := nodes + [BlobEntry(nameOf(node), SpanOf(run))];
      start := ends[k];
    }
    AllAccepted(all);
    SomeRuns(current, ends);
    BlobRunAt(nameOf, level, runs, 0);
    ok := true;
  }

  lemma BlobRunAt(nameOf: Naming, level: nat, runs: seq<seq<BlobEntry>>, k: nat)
    requires k < |runs|
    ensures var node, run := Blob(level, runs[k]), runs[k];
            && Nodes(BlobLayout(), level, runs)[k] == node
            && Parents(BlobLayout(), nameOf, level, runs)[k] == BlobEntry(nameOf(node), SpanOf(run))
  {
  }

  method BuildBlob(chunks: seq<BlobEntry>, p: ShapeParams, nameOf: Naming) returns (b: Built)
    ensures b == BlobBuild(chunks, p, nameOf)
  {
    if chunks == [] {
      return Built(Some(nameOf(Blob(0, []))), [Blob(0, [])]);
    }
    b := BuildBlobLevels(chunks, p, nameOf);
  }

  /** The loop of `build_blob`: treat the nodes just emitted as the entries of the
      level above, until one remains. */
  method BuildBlobLevels(chunks: seq<BlobEntry>, p: ShapeParams, nameOf: Naming) returns (b: Built)
    requires chunks != []
    ensures b == BuildFrom(BlobLayout(), p, nameOf, 0, chunks)
  {
    hide BuildFrom, Resume, Runs, Nodes, Parents, Accepted, BlobLayout;
    var current, level, emitted := chunks, 0, [];
    ResumeFromNothing(BuildFrom(BlobLayout(), p, nameOf, 0, chunks));
    while true
      invariant current != []
      invariant BuildFrom(BlobLayout(), p, nameOf, 0, chunks)
                == Resume(emitted, BuildFrom(BlobLayout(), p, nameOf, level, current))
      decreases if level == 0 then 1 else 0, |current|
    {
      LevelOfBuild(BlobLayout(), p, nameOf, level, current, emitted);
      var ok, nodes, written := EmitBlobLevel(current, level, p, nameOf);
      emitted := emitted + written;
      if !ok {
        return Built(None, emitted);
      }
      if |nodes| == 1 {
        return Built(Some(nodes[0].target), emitted);
      }
      current, level := nodes, level + 1;
    }
  }
}
