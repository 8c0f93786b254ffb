/** What a stored file means (src/fs/blob.py): the bytes below a blob node, and that a
    build over the file's chunks makes exactly those bytes again. */
module BlobNodes {
  import opened ByteStrings
  import opened Model
  import opened Sums
  import opened Partition
  import opened Shape
  import opened TreeNodes

  // ---- the bytes below a node ----

  function Content(objs: Objects, n: Name, level: nat): (bytes: Bytes)
    decreases level, 2, 0
  {
    if n !in objs || !objs[n].Blob? then [] else ContentAll(objs, objs[n].children, level)
  }

  /** The bytes one child covers: a chunk's at level 0, a subtree's above. */
  function ContentOf(objs: Objects, e: BlobEntry, level: nat): (bytes: Bytes)
    decreases level, 0, 0
  {
    if level > 0 then Content(objs, e.target, level - 1)
    else if e.target in objs && objs[e.target].Chunk? then objs[e.target].data else []
  }

  function ContentAll(objs: Objects, children: seq<BlobEntry>, level: nat): (bytes: Bytes)
    decreases level, 1, |children|
  {
    if children == [] then [] else ContentOf(objs, children[0], level) + ContentAll(objs, children[1..], level)
  }

  /** A node whose levels decrease by one and whose entries carry the true spans. */
  predicate WellFormedBlob(objs: Objects, n: Name, level: nat)
    decreases level, 1
  {
    && n in objs && objs[n].Blob? && objs[n].level == level
    && forall i :: 0 <= i < |objs[n].children| ==> SpanOk(objs, objs[n].children[i], level)
  }

  /** The child exists, and `size` is what it covers. */
  predicate SpanOk(objs: Objects, e: BlobEntry, level: nat)
    decreases level, 0
  {
    && (if level > 0 then WellFormedBlob(objs, e.target, level - 1) && objs[e.target].children != []
        else e.target in objs && objs[e.target].Chunk?)
    && e.size == |ContentOf(objs, e, level)| > 0
  }

  lemma {:induction false} ContentAllOfConcat(objs: Objects, a: seq<BlobEntry>, b: seq<BlobEntry>, level: nat)
    ensures ContentAll(objs, a + b, level) == ContentAll(objs, a, level) + ContentAll(objs, b, level)
  {
    if a == [] {
      assert a + b == b;
    } else {
      assert (a + b)[1..] == a[1..] + b;
      ContentAllOfConcat(objs, a[1..], b, level);
    }
  }

  /** The size of a node is the sum of its entries, never stored. */
  lemma {:induction false} SpanIsContentLength(objs: Objects, children: seq<BlobEntry>, level: nat)
    requires forall i :: 0 <= i < |children| ==> SpanOk(objs, children[i], level)
    ensures SpanOf(children) == |ContentAll(objs, children, level)|
    ensures children != [] ==> SpanOf(children) > 0
  {
    if children != [] {
      assert SpanOk(objs, children[0], level);
      assert forall i :: 0 <= i < |children| - 1 ==> children[1..][i] == children[i + 1];
      SpanIsContentLength(objs, children[1..], level);
    }
  }

  // ---- what a build builds ----

  ghost predicate SpansOk(objs: Objects, children: seq<BlobEntry>, level: nat)
  {
    forall i :: 0 <= i < |children| ==> SpanOk(objs, children[i], level)
  }

  lemma RunBecomesBlob(objs: Objects, nameOf: Naming, run: seq<BlobEntry>, level: nat)
    requires run != [] && SpansOk(objs, run, level)
    requires var node := Blob(level, run); nameOf(node) in objs && objs[nameOf(node)] == node
    ensures var e := BlobEntry(nameOf(Blob(level, run)), SpanOf(run));
            && SpanOk(objs, e, level + 1)
            && WellFormedBlob(objs, e.target, level)
            && Content(objs, e.target, level) == ContentAll(objs, run, level)
  {
    SpanIsContentLength(objs, run, level);
  }

  lemma {:induction false} BlobReferencesListTheRuns(objs: Objects, refs: seq<BlobEntry>, runs: seq<seq<BlobEntry>>,
                                                     level: nat)
    requires |refs| == |runs|
    requires forall i :: 0 <= i < |refs| ==> ContentOf(objs, refs[i], level + 1) == ContentAll(objs, runs[i], level)
    ensures ContentAll(objs, refs, level + 1) == ContentAll(objs, Concat(runs), level)
  {
    hide ContentOf;
    if refs != [] {
      assert forall i :: 0 <= i < |refs| - 1 ==> refs[1..][i] == refs[i + 1] && runs[1..][i] == runs[i + 1];
      BlobReferencesListTheRuns(objs, refs[1..], runs[1..], level);
      ContentAllOfConcat(objs, runs[0], Concat(runs[1..]), level);
    }
  }

  lemma BlobLevelKeepsTheBytes(objs: Objects, p: ShapeParams, nameOf: Naming, level: nat, current: seq<BlobEntry>)
    requires SpansOk(objs, current, level)
    requires Stored(objs, nameOf, Nodes(BlobLayout(), level, Runs(BlobLayout(), p, level, current)))
    ensures var parents := Parents(BlobLayout(), nameOf, level, Runs(BlobLayout(), p, level, current));
            && SpansOk(objs, parents, level + 1)
            && (forall i :: 0 <= i < |parents| ==> WellFormedBlob(objs, parents[i].target, level))
            && ContentAll(objs, parents, level + 1) == ContentAll(objs, current, level)
  {
    hide Content, ContentOf, SpanOk, ContentAll, WellFormedBlob, BlobLayout, Nodes, Parents;
    var l := BlobLayout();
    var ends := EndsOf(l, p, level, current);
    var runs := Runs(l, p, level, current);
    var parents, nodes := Parents(l, nameOf, level, runs), Nodes(l, level, runs);
    forall i | 0 <= i < |runs|
      ensures SpanOk(objs, parents[i], level + 1) && WellFormedBlob(objs, parents[i].target, level)
      ensures ContentOf(objs, parents[i], level + 1) == ContentAll(objs, runs[i], level)
    {
      BlobRunAt(nameOf, level, runs, i);
      assert runs[i] == current[StartOf(ends, i)..ends[i]];
      assert SpansOk(objs, runs[i], level) by {
        forall j | 0 <= j < |runs[i]|
          ensures SpanOk(objs, runs[i][j], level)
        {
          assert runs[i][j] == current[StartOf(ends, i) + j];
        }
      }
      assert nameOf(nodes[i]) in objs && objs[nameOf(nodes[i])] == nodes[i];
      RunBecomesBlob(objs, nameOf, runs[i], level);
      ContentOfInterior(objs, parents[i], level);
    }
    BlobReferencesListTheRuns(objs, parents, runs, level);
    SlicesPartition(current, ends);
  }

  lemma ContentOfInterior(objs: Objects, e: BlobEntry, level: nat)
    ensures ContentOf(objs, e, level + 1) == Content(objs, e.target, level)
  {
  }

  lemma {:induction false} BlobBuildFromRefines(objs: Objects, p: ShapeParams, nameOf: Naming, level: nat,
                                          current: seq<BlobEntry>)
    returns (top: nat)
    requires current != [] && SpansOk(objs, current, level)
    requires var b := BuildFrom(BlobLayout(), p, nameOf, level, current);
             b.root.Some? && Stored(objs, nameOf, b.emitted)
    ensures var root := BuildFrom(BlobLayout(), p, nameOf, level, current).root.value;
            WellFormedBlob(objs, root, top) && Content(objs, root, top) == ContentAll(objs, current, level)
    decreases if level == 0 then 1 else 0, |current|
  {
    hide Content, ContentAll, ContentOf, SpanOk, Stored, WellFormedBlob, BlobLayout, Nodes, Parents, Runs;
    var l := BlobLayout();
    var runs := Runs(l, p, level, current);
    var nodes := Nodes(l, level, runs);
    var parents := Parents(l, nameOf, level, runs);
    RunsShrink(l, p, level, current);
    if |nodes| == 1 {
      BlobLevelKeepsTheBytes(objs, p, nameOf, level, current);
      BlobRunAt(nameOf, level, runs, 0);
      OneChild(objs, parents, level);
      top := level;
    } else {
      var above := BuildFrom(l, p, nameOf, level + 1, parents);
      StoredParts(objs, nameOf, nodes, above.emitted);
      BlobLevelKeepsTheBytes(objs, p, nameOf, level, current);
      top := BlobBuildFromRefines(objs, p, nameOf, level + 1, parents);
    }
  }

  lemma OneChild(objs: Objects, refs: seq<BlobEntry>, level: nat)
    requires |refs| == 1
    ensures ContentAll(objs, refs, level + 1) == Content(objs, refs[0].target, level)
  {
    assert refs[1..] == [];
    assert ContentAll(objs, [], level + 1) == [];
    ContentOfInterior(objs, refs[0], level);
  }

  /** A file that can be read. */
  predicate ReadableBlob(objs: Objects, n: Name)
  {
    n in objs && objs[n].Blob? && objs[n].level >= 0 && WellFormedBlob(objs, n, objs[n].level)
  }

  function FileBytes(objs: Objects, n: Name): (bytes: Bytes)
    requires ReadableBlob(objs, n)
  {
    Content(objs, n, objs[n].level)
  }

  /** `build_blob` keeps the bytes: the file it makes holds its chunks, in order. */
  lemma BlobBuildRefines(objs: Objects, p: ShapeParams, nameOf: Naming, chunks: seq<BlobEntry>)
    requires SpansOk(objs, chunks, 0)
    requires var b := BlobBuild(chunks, p, nameOf); b.root.Some? && Stored(objs, nameOf, b.emitted)
    ensures var root := BlobBuild(chunks, p, nameOf).root.value;
            ReadableBlob(objs, root) && FileBytes(objs, root) == ContentAll(objs, chunks, 0)
  {
    var b := BlobBuild(chunks, p, nameOf);
    if chunks == [] {
      assert b.emitted[0] == Blob(0, []);
    } else {
      var top := BlobBuildFromRefines(objs, p, nameOf, 0, chunks);
    }
  }
}
