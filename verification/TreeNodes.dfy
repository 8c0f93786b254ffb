/** What a stored node tree means (src/fs/tree.py): the sorted list of entries below it,
    and when its routing keys and levels can be trusted by a reader. */
module TreeNodes {
  import opened ByteStrings
  import opened Model
  import opened Validation
  import opened CodecSpec
  import opened Sums
  import opened Partition
  import opened Shape

  type Objects = map<Name, Object>

  // ---- the entries below a node ----

  /** The directory entries below a node, left to right; `level` is the node's own. */
  function Flat(objs: Objects, n: Name, level: nat): (entries: seq<TreeEntry>)
    decreases level, 0
  {
    if n !in objs || !objs[n].Tree? then []
    else if level == 0 then objs[n].entries
    else FlatAll(objs, objs[n].entries, level - 1)
  }

  /** The entries below a list of references to nodes of one level. */
  function FlatAll(objs: Objects, refs: seq<TreeEntry>, level: nat): (entries: seq<TreeEntry>)
    decreases level, 1 + |refs|
  {
    if refs == [] then [] else Flat(objs, refs[0].target, level) + FlatAll(objs, refs[1..], level)
  }

  /** A node whose levels decrease by one and whose routing keys are the last keys of
      the subtrees they name. The codec cannot check this; the builder establishes it. */
  predicate WellFormed(objs: Objects, n: Name, level: nat)
    decreases level
  {
    && n in objs && objs[n].Tree? && objs[n].level == level
    && (level > 0 ==>
          && objs[n].entries != []
          && forall i :: 0 <= i < |objs[n].entries| ==>
               var e := objs[n].entries[i];
               && WellFormed(objs, e.target, level - 1)
               && Flat(objs, e.target, level - 1) != []
               && LastName(Flat(objs, e.target, level - 1)) == e.name)
  }

  /** `e` refers to a non-empty well-formed subtree and carries its last key. */
  predicate RefOk(objs: Objects, e: TreeEntry, level: nat)
  {
    && WellFormed(objs, e.target, level)
    && Flat(objs, e.target, level) != []
    && LastName(Flat(objs, e.target, level)) == e.name
  }

  /** The objects of `more` are those of `objs`, and possibly others. */
  predicate Extends(objs: Objects, more: Objects)
  {
    forall n :: n in objs ==> n in more && more[n] == objs[n]
  }

  /** Every node of `nodes` can be fetched by its name. */
  predicate Stored(objs: Objects, nameOf: Naming, nodes: seq<Object>)
  {
    forall i :: 0 <= i < |nodes| ==> nameOf(nodes[i]) in objs && objs[nameOf(nodes[i])] == nodes[i]
  }

  lemma {:induction false} FlatAllOfConcat(objs: Objects, a: seq<TreeEntry>, b: seq<TreeEntry>, level: nat)
    ensures FlatAll(objs, a + b, level) == FlatAll(objs, a, level) + FlatAll(objs, b, level)
  {
    if a == [] {
      assert a + b == b;
    } else {
      assert (a + b)[1..] == a[1..] + b;
      FlatAllOfConcat(objs, a[1..], b, level);
    }
  }

  lemma {:induction false} FlatAllEndsWithLast(objs: Objects, refs: seq<TreeEntry>, level: nat)
    requires refs != [] && forall i :: 0 <= i < |refs| ==> RefOk(objs, refs[i], level)
    ensures FlatAll(objs, refs, level) != []
    ensures LastName(FlatAll(objs, refs, level)) == LastName(refs)
  {
    var front, last := refs[..|refs| - 1], refs[|refs| - 1];
    assert refs == front + [last];
    FlatAllOfConcat(objs, front, [last], level);
    assert [last][1..] == [];
    assert FlatAll(objs, [last], level) == Flat(objs, last.target, level);
    assert RefOk(objs, last, level);
  }

  // ---- growing the store changes nothing that was there ----

  lemma {:induction false} FlatStable(objs: Objects, more: Objects, n: Name, level: nat)
    requires Extends(objs, more) && WellFormed(objs, n, level)
    ensures WellFormed(more, n, level) && Flat(more, n, level) == Flat(objs, n, level)
    decreases level, 0
  {
    if level > 0 {
      var refs := objs[n].entries;
      forall i | 0 <= i < |refs|
        ensures RefOk(objs, refs[i], level - 1)
        ensures RefOk(more, refs[i], level - 1)
      {
        FlatStable(objs, more, refs[i].target, level - 1);
      }
      FlatAllStable(objs, more, refs, level - 1);
    }
  }

  lemma {:induction false} FlatAllStable(objs: Objects, more: Objects, refs: seq<TreeEntry>, level: nat)
    requires Extends(objs, more) && forall i :: 0 <= i < |refs| ==> RefOk(objs, refs[i], level)
    ensures FlatAll(more, refs, level) == FlatAll(objs, refs, level)
    decreases level, 1 + |refs|
  {
    if refs != [] {
      assert RefOk(objs, refs[0], level);
      FlatStable(objs, more, refs[0].target, level);
      assert forall i :: 0 <= i < |refs| - 1 ==> refs[1..][i] == refs[i + 1];
      FlatAllStable(objs, more, refs[1..], level);
    }
  }

  // ---- what a build builds ----

  /** The entries below the node that holds `run` at `level`. */
  function Below(objs: Objects, run: seq<TreeEntry>, level: nat): (entries: seq<TreeEntry>)
  {
    if level == 0 then run else FlatAll(objs, run, level - 1)
  }

  /** What the entries of a node at `level` must be for the node to be well-formed. */
  ghost predicate RefsOk(objs: Objects, refs: seq<TreeEntry>, level: nat)
  {
    level > 0 ==> forall i :: 0 <= i < |refs| ==> RefOk(objs, refs[i], level - 1)
  }

  /** The node a run makes, once stored, lists what the run lists. */
  lemma RunBecomesNode(objs: Objects, nameOf: Naming, run: seq<TreeEntry>, level: nat)
    requires run != [] && RefsOk(objs, run, level)
    requires var node := Tree(level, run); nameOf(node) in objs && objs[nameOf(node)] == node
    ensures var name := nameOf(Tree(level, run));
            && RefOk(objs, TreeEntry(LastName(run), TreeKind, name, 0, 0), level)
            && Flat(objs, name, level) == Below(objs, run, level)
  {
    if level > 0 {
      FlatAllEndsWithLast(objs, run, level - 1);
      forall i | 0 <= i < |run|
        ensures var e := run[i];
                && WellFormed(objs, e.target, level - 1)
                && Flat(objs, e.target, level - 1) != []
                && LastName(Flat(objs, e.target, level - 1)) == e.name
      {
        assert RefOk(objs, run[i], level - 1);
      }
    }
  }

  /** References to nodes list, together, what the runs in those nodes list together. */
  lemma {:induction false} ReferencesListTheRuns(objs: Objects, refs: seq<TreeEntry>, runs: seq<seq<TreeEntry>>,
                                                 level: nat)
    requires |refs| == |runs|
    requires forall i :: 0 <= i < |refs| ==> Flat(objs, refs[i].target, level) == Below(objs, runs[i], level)
    ensures FlatAll(objs, refs, level) == Below(objs, Concat(runs), level)
  {
    hide Flat;
    if refs != [] {
      assert forall i :: 0 <= i < |refs| - 1 ==> refs[1..][i] == refs[i + 1] && runs[1..][i] == runs[i + 1];
      ReferencesListTheRuns(objs, refs[1..], runs[1..], level);
      if level > 0 {
        FlatAllOfConcat(objs, runs[0], Concat(runs[1..]), level - 1);
      }
    }
  }

  /** One level of a build keeps the list: the references to its nodes are sound and
      list what its entries list. */
  lemma LevelKeepsTheList(objs: Objects, p: ShapeParams, nameOf: Naming, level: nat, current: seq<TreeEntry>)
    requires RefsOk(objs, current, level)
    requires Stored(objs, nameOf, Nodes(TreeLayout(), level, Runs(TreeLayout(), p, level, current)))
    ensures var parents := Parents(TreeLayout(), nameOf, level, Runs(TreeLayout(), p, level, current));
            && RefsOk(objs, parents, level + 1)
            && FlatAll(objs, parents, level) == Below(objs, current, level)
  {
    hide Flat, RefOk, FlatAll, Below, TreeLayout, Nodes, Parents;
    var l := TreeLayout();
    var ends := EndsOf(l, p, level, current);
    var runs := Runs(l, p, level, current);
    var parents, nodes := Parents(l, nameOf, level, runs), Nodes(l, level, runs);
    forall i | 0 <= i < |runs|
      ensures RefOk(objs, parents[i], level)
      ensures Flat(objs, parents[i].target, level) == Below(objs, runs[i], level)
    {
      TreeRunAt(nameOf, level, runs, i);
      assert runs[i] == current[StartOf(ends, i)..ends[i]];
      assert RefsOk(objs, runs[i], level) by {
        forall j | 0 <= j < |runs[i]| && level > 0
          ensures RefOk(objs, runs[i][j], level - 1)
        {
          assert runs[i][j] == current[StartOf(ends, i) + j];
        }
      }
      assert nameOf(nodes[i]) in objs && objs[nameOf(nodes[i])] == nodes[i];
      RunBecomesNode(objs, nameOf, runs[i], level);
    }
    ReferencesListTheRuns(objs, parents, runs, level);
    SlicesPartition(current, ends);
  }

  lemma StoredParts(objs: Objects, nameOf: Naming, a: seq<Object>, b: seq<Object>)
    requires Stored(objs, nameOf, a + b)
    ensures Stored(objs, nameOf, a) && Stored(objs, nameOf, b)
  {
    forall i | 0 <= i < |a|
      ensures nameOf(a[i]) in objs && objs[nameOf(a[i])] == a[i]
    {
      assert (a + b)[i] == a[i];
    }
    forall i | 0 <= i < |b|
      ensures nameOf(b[i]) in objs && objs[nameOf(b[i])] == b[i]
    {
      assert (a + b)[|a| + i] == b[i];
    }
  }

  /** A finished build: its root, read from any store that holds what was emitted, is
      a well-formed tree that lists exactly the entries it was built from. */
  lemma {:induction false} BuildFromRefines(objs: Objects, p: ShapeParams, nameOf: Naming, level: nat,
                                      current: seq<TreeEntry>)
    returns (top: nat)
    requires current != [] && RefsOk(objs, current, level)
    requires var b := BuildFrom(TreeLayout(), p, nameOf, level, current);
             b.root.Some? && Stored(objs, nameOf, b.emitted)
    ensures var root := BuildFrom(TreeLayout(), p, nameOf, level, current).root.value;
            WellFormed(objs, root, top) && Flat(objs, root, top) == Below(objs, current, level)
    decreases if level == 0 then 1 else 0, |current|
  {
    hide Flat, RefsOk, Stored, WellFormed, Below, TreeLayout, Nodes, Parents, Runs;
    var l := TreeLayout();
    var runs := Runs(l, p, level, current);
    var nodes := Nodes(l, level, runs);
    var parents := Parents(l, nameOf, level, runs);
    RunsShrink(l, p, level, current);
    if |nodes| == 1 {
      LevelKeepsTheList(objs, p, nameOf, level, current);
      TreeRunAt(nameOf, level, runs, 0);
      OneReference(objs, parents, level);
      top := level;
    } else {
      var above := BuildFrom(l, p, nameOf, level + 1, parents);
      StoredParts(objs, nameOf, nodes, above.emitted);
      LevelKeepsTheList(objs, p, nameOf, level, current);
      top := BuildFromRefines(objs, p, nameOf, level + 1, parents);
      assert Below(objs, parents, level + 1) == FlatAll(objs, parents, level)
          by { BelowInterior(objs, parents, level); }
    }
  }

  lemma BelowInterior(objs: Objects, refs: seq<TreeEntry>, level: nat)
    ensures Below(objs, refs, level + 1) == FlatAll(objs, refs, level)
  {
  }

  lemma OneReference(objs: Objects, refs: seq<TreeEntry>, level: nat)
    requires |refs| == 1 && RefsOk(objs, refs, level + 1)
    ensures WellFormed(objs, refs[0].target, level)
    ensures FlatAll(objs, refs, level) == Flat(objs, refs[0].target, level)
  {
    assert RefOk(objs, refs[0], level);
    assert refs[1..] == [];
    assert FlatAll(objs, [], level) == [];
  }

  /** `build_tree` refines the sorted list: whatever the boundary predicate says, the
      tree it makes lists exactly the entries it was given. */
  lemma TreeBuildRefines(objs: Objects, p: ShapeParams, nameOf: Naming, entries: seq<TreeEntry>)
    requires var b := TreeBuild(entries, p, nameOf); b.root.Some? && Stored(objs, nameOf, b.emitted)
    ensures var root := TreeBuild(entries, p, nameOf).root.value;
            && root in objs && objs[root].Tree? && objs[root].level >= 0
            && WellFormed(objs, root, objs[root].level)
            && Flat(objs, root, objs[root].level) == entries
  {
    var b := TreeBuild(entries, p, nameOf);
    if entries == [] {
      assert b.emitted[0] == Tree(0, []);
    } else {
      var top := BuildFromRefines(objs, p, nameOf, 0, entries);
    }
  }
}
