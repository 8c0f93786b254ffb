/** Where emitted nodes end (src/format/shape.py). */
module ShapeRule {
  // The nodes a build emits, judged by what stands in them: each ends where its own entries
  // say so (`partition`, `_ensure_no_lonely_tail`).

  import opened ByteStrings
  import opened Model
  import opened Sums
  import opened Validation
  import opened CodecSpec
  import opened Partition
  import opened Shape

  // ---- runs of a list of keys ----

  /** A node that starts at `start` may end after entry `j`: it has reached the byte budget;
      or it has enough entries, and has reached the cap or a boundary falls after the key. */
  predicate RunMayEnd(p: ShapeParams, level: nat, keys: seq<Bytes>, sizes: seq<nat>, start: nat, j: nat)
    requires start <= j < |keys| == |sizes|
  {
    || Sum(sizes[start..j + 1]) >= p.maxNodeBytes
    || (j + 1 - start >= p.minEntries && (j + 1 - start >= p.maxEntries || p.boundary(keys[j], level)))
  }

  /** Nothing before its last entry ends the node. */
  predicate EndsNoEarlier(p: ShapeParams, level: nat, keys: seq<Bytes>, sizes: seq<nat>, start: nat, end: nat)
    requires start < end <= |keys| == |sizes|
  {
    forall j :: start <= j < end - 1 ==> !RunMayEnd(p, level, keys, sizes, start, j)
  }

  lemma ClosesIsMayEnd(p: ShapeParams, level: nat, keys: seq<Bytes>, sizes: seq<nat>, start: nat, j: nat)
    requires start <= j < |keys| == |sizes|
    ensures Closes(p, level, keys[start..], sizes[start..], j - start) <==> RunMayEnd(p, level, keys, sizes, start, j)
  {
    assert sizes[start..][..j - start + 1] == sizes[start..j + 1];
    assert keys[start..][j - start] == keys[j];
  }

  /** Before the tail is looked at, each node ends at the first entry at which it may, and
      only the last may end because the list does. */
  lemma RawRunRule(p: ShapeParams, level: nat, keys: seq<Bytes>, sizes: seq<nat>, i: nat)
    requires |keys| == |sizes| && i < |RawEnds(p, level, keys, sizes)|
    ensures var ends := RawEnds(p, level, keys, sizes);
            && StartOf(ends, i) < ends[i] <= |keys|
            && EndsNoEarlier(p, level, keys, sizes, StartOf(ends, i), ends[i])
            && (ends[i] < |keys| ==> RunMayEnd(p, level, keys, sizes, StartOf(ends, i), ends[i] - 1))
  {
    hide RawEnds, RunMayEnd, Closes;
    RawRunsEndWhereTheyClose(p, level, keys, sizes, i);
    var ends := RawEnds(p, level, keys, sizes);
    RunOkRule(p, level, keys, sizes, StartOf(ends, i), ends[i]);
  }

  lemma RunOkRule(p: ShapeParams, level: nat, keys: seq<Bytes>, sizes: seq<nat>, start: nat, end: nat)
    requires start < end <= |keys| == |sizes| && RunOk(p, level, keys, sizes, start, end)
    ensures EndsNoEarlier(p, level, keys, sizes, start, end)
    ensures end < |keys| ==> RunMayEnd(p, level, keys, sizes, start, end - 1)
  {
    hide RunMayEnd, Closes;
    forall j | start <= j < end
      ensures Closes(p, level, keys[start..], sizes[start..], j - start) <==> RunMayEnd(p, level, keys, sizes, start, j)
    {
      ClosesIsMayEnd(p, level, keys, sizes, start, j);
    }
    forall j | start <= j < end - 1
      ensures !RunMayEnd(p, level, keys, sizes, start, j)
    {
      assert !Closes(p, level, keys[start..], sizes[start..], j - start);
    }
  }

  /** With the tail fixed, the same holds of every run but the last two, and of the inside of
      every run longer than three. */
  lemma RunRule(p: ShapeParams, level: nat, keys: seq<Bytes>, sizes: seq<nat>, i: nat)
    requires |keys| == |sizes| && i < |Ends(p, level, keys, sizes)|
    ensures var ends := Ends(p, level, keys, sizes);
            && StartOf(ends, i) < ends[i] <= |keys|
            && (level == 0 || ends[i] - StartOf(ends, i) > 3 ==>
                  EndsNoEarlier(p, level, keys, sizes, StartOf(ends, i), ends[i]))
            && (i + 2 < |ends| || (level == 0 && i + 1 < |ends|) ==>
                  RunMayEnd(p, level, keys, sizes, StartOf(ends, i), ends[i] - 1))
  {
    hide RunMayEnd, Cuts, EndsNoEarlier, RawEnds, FixTail;
    var raw, ends := RawEnds(p, level, keys, sizes), Ends(p, level, keys, sizes);
    CutsBounds(ends, |keys|, i);
    RawEndsCut(p, level, keys, sizes);
    TailOnly(raw, |keys|);
    if i < |raw| {
      RawRunRule(p, level, keys, sizes, i);
      if i + 1 < |raw| { EndsGrow(raw, |keys|, i); }
      if StartOf(ends, i) == StartOf(raw, i) && ends[i] <= raw[i] {
        EndsNoLater(p, level, keys, sizes, StartOf(raw, i), raw[i], ends[i]);
      }
    }
  }

  lemma EndsNoLater(p: ShapeParams, level: nat, keys: seq<Bytes>, sizes: seq<nat>, start: nat, end: nat, sooner: nat)
    requires start < sooner <= end <= |keys| == |sizes| && EndsNoEarlier(p, level, keys, sizes, start, end)
    ensures EndsNoEarlier(p, level, keys, sizes, start, sooner)
  {
    hide RunMayEnd;
  }

  lemma EndsGrow(ends: seq<nat>, n: nat, i: nat)
    requires Cuts(ends, n) && i + 1 < |ends|
    ensures ends[i] < ends[i + 1] <= n
  {
    CutsBounds(ends, n, i + 1);
  }

  /** Fixing the tail leaves all but the last two ends, shortens the last run but one by one
      entry, and makes no other run of more than three. */
  lemma TailOnly(raw: seq<nat>, n: nat)
    requires Cuts(raw, n)
    ensures var fixed := FixTail(raw);
            && |raw| - 1 <= |fixed| <= |raw|
            && (forall i :: 0 <= i && i + 2 < |fixed| ==> fixed[i] == raw[i] && StartOf(fixed, i) == StartOf(raw, i))
            && forall i :: 0 <= i < |fixed| && fixed[i] - StartOf(fixed, i) > 3 ==>
                 StartOf(fixed, i) == StartOf(raw, i) && fixed[i] <= raw[i]
  {
    var last := |raw| - 1;
    if last > 0 {
      CutsBounds(raw, n, last);
      CutsBounds(raw, n, last - 1);
    }
  }

  // ---- the nodes that are emitted ----

  /** The same of a node's own entries. */
  predicate MayEnd<E(!new)>(l: Layout<E>, p: ShapeParams, level: nat, run: seq<E>, j: nat)
    requires j < |run|
  {
    || Sum(SizesOf(l, run[..j + 1])) >= p.maxNodeBytes
    || (j + 1 >= p.minEntries && (j + 1 >= p.maxEntries || p.boundary(l.key(run[j]), level)))
  }

  lemma RunIsSlice<E(!new)>(l: Layout<E>, p: ShapeParams, level: nat, current: seq<E>, start: nat, end: nat, j: nat)
    requires start <= j < end <= |current|
    ensures MayEnd(l, p, level, current[start..end], j - start)
            <==> RunMayEnd(p, level, KeysOf(l, current), SizesOf(l, current), start, j)
  {
    var run := current[start..end];
    assert SizesOf(l, run[..j - start + 1]) == SizesOf(l, current)[start..j + 1];
  }

  lemma RunsRule<E(!new)>(l: Layout<E>, p: ShapeParams, level: nat, current: seq<E>, i: nat)
    requires i < |Runs(l, p, level, current)|
    ensures var runs := Runs(l, p, level, current);
            && runs[i] != []
            && (level == 0 || |runs[i]| > 3 ==> forall j :: 0 <= j < |runs[i]| - 1 ==> !MayEnd(l, p, level, runs[i], j))
            && (i + 2 < |runs| || (level == 0 && i + 1 < |runs|) ==> MayEnd(l, p, level, runs[i], |runs[i]| - 1))
  {
    hide MayEnd, RunMayEnd, Cuts, Ends;
    var runs, ends := Runs(l, p, level, current), EndsOf(l, p, level, current);
    var start, end := StartOf(ends, i), ends[i];
    RunRule(p, level, KeysOf(l, current), SizesOf(l, current), i);
    assert runs[i] == current[start..end];
    forall j | 0 <= j < |runs[i]|
      ensures MayEnd(l, p, level, runs[i], j)
              <==> RunMayEnd(p, level, KeysOf(l, current), SizesOf(l, current), start, start + j)
    {
      RunIsSlice(l, p, level, current, start, end, start + j);
    }
  }

  function LevelOf(o: Object): (level: int)
  {
    match o
    case Blob(level, _) => level
    case Tree(level, _) => level
    case _ => -1
  }

  /** Nodes say at which level they are. */
  ghost predicate Labels<E(!new)>(l: Layout<E>)
  {
    forall level: nat, run: seq<E> {:trigger l.node(level, run)} :: LevelOf(l.node(level, run)) == level
  }

  lemma {:induction false} EmittedLevels<E(!new)>(l: Layout<E>, p: ShapeParams, nameOf: Naming, level: nat,
                                                  current: seq<E>, i: nat)
    requires l.Valid() && Labels(l) && current != [] && i < |BuildFrom(l, p, nameOf, level, current).emitted|
    ensures LevelOf(BuildFrom(l, p, nameOf, level, current).emitted[i]) >= level
    decreases if level == 0 then 1 else 0, |current|
  {
    hide Runs, Accepted;
    var runs := Runs(l, p, level, current);
    var nodes := Nodes(l, level, runs);
    RunsShrink(l, p, level, current);
    if i < |nodes| {
      assert nodes[i] == l.node(level, runs[i]);
    } else {
      EmittedLevels(l, p, nameOf, level + 1, Parents(l, nameOf, level, runs), i - |nodes|);
    }
  }

  /** The `i`-th emitted node, by its own level and entries: nothing in it but the last entry
      ends it, unless it is the fixed tail of an interior level; and its last entry does,
      unless it is one of the last two of its level. */
  ghost predicate Follows<E(!new)>(l: Layout<E>, p: ShapeParams, emitted: seq<Object>, i: nat, h: nat, run: seq<E>)
    requires i < |emitted|
  {
    && emitted[i] == l.node(h, run) && run != []
    && (h == 0 || |run| > 3 ==> forall j :: 0 <= j < |run| - 1 ==> !MayEnd(l, p, h, run, j))
    && ((i + 2 < |emitted| && LevelOf(emitted[i + 2]) == h)
        || (h == 0 && i + 1 < |emitted| && LevelOf(emitted[i + 1]) == 0) ==>
          MayEnd(l, p, h, run, |run| - 1))
  }

  lemma FollowsAfter<E(!new)>(l: Layout<E>, p: ShapeParams, before: seq<Object>, emitted: seq<Object>, i: nat, h: nat,
                              run: seq<E>)
    requires i < |emitted| && Follows(l, p, emitted, i, h, run)
    ensures Follows(l, p, before + emitted, |before| + i, h, run)
  {
    hide MayEnd, LevelOf;
    var whole := before + emitted;
    assert forall k :: 0 <= k < |emitted| ==> whole[|before| + k] == emitted[k];
  }

  lemma FirstLevelFollows<E(!new)>(l: Layout<E>, p: ShapeParams, nameOf: Naming, level: nat, current: seq<E>, i: nat)
    requires l.Valid() && Labels(l) && current != []
    requires i < |BuildFrom(l, p, nameOf, level, current).emitted| && i < |Runs(l, p, level, current)|
    ensures Follows(l, p, BuildFrom(l, p, nameOf, level, current).emitted, i, level, Runs(l, p, level, current)[i])
  {
    hide MayEnd, LevelOf, Runs, Labels;
    RunsRule(l, p, level, current, i);
    FirstLevelFirst(l, p, nameOf, level, current);
    AboveIsAbove(l, p, nameOf, level, current, i + 1);
    AboveIsAbove(l, p, nameOf, level, current, i + 2);
    hide BuildFrom;
  }

  /** A build emits the nodes of its first level first, and then those above. */
  lemma FirstLevelFirst<E(!new)>(l: Layout<E>, p: ShapeParams, nameOf: Naming, level: nat, current: seq<E>)
    requires l.Valid() && current != []
    ensures var emitted := BuildFrom(l, p, nameOf, level, current).emitted;
            var runs := Runs(l, p, level, current);
            && (forall i :: 0 <= i < |emitted| && i < |runs| ==> emitted[i] == l.node(level, runs[i]))
            && (|emitted| > |runs| ==>
                  && (level > 0 ==> |runs| < |current|)
                  && var parents := Parents(l, nameOf, level, runs);
                     && parents != []
                     && emitted == Nodes(l, level, runs) + BuildFrom(l, p, nameOf, level + 1, parents).emitted)
  {
    hide Runs, Accepted;
    RunsShrink(l, p, level, current);
  }

  lemma {:induction false} EmittedRule<E(!new)>(l: Layout<E>, p: ShapeParams, nameOf: Naming, level: nat,
                                                current: seq<E>, i: nat)
    returns (h: nat, run: seq<E>)
    requires l.Valid() && Labels(l) && current != [] && i < |BuildFrom(l, p, nameOf, level, current).emitted|
    ensures Follows(l, p, BuildFrom(l, p, nameOf, level, current).emitted, i, h, run)
    decreases if level == 0 then 1 else 0, |current|
  {
    hide Follows, Runs, BuildFrom, Labels;
    var runs := Runs(l, p, level, current);
    FirstLevelFirst(l, p, nameOf, level, current);
    if i < |runs| {
      h, run := level, runs[i];
      FirstLevelFollows(l, p, nameOf, level, current, i);
    } else {
      var parents := Parents(l, nameOf, level, runs);
      var nodes, above := Nodes(l, level, runs), BuildFrom(l, p, nameOf, level + 1, parents).emitted;
      h, run := EmittedRule(l, p, nameOf, level + 1, parents, i - |nodes|);
      FollowsAfter(l, p, nodes, above, i - |nodes|, h, run);
    }
  }

  /** What is emitted after the nodes of one level is of a higher one. */
  lemma AboveIsAbove<E(!new)>(l: Layout<E>, p: ShapeParams, nameOf: Naming, level: nat, current: seq<E>, i: nat)
    requires l.Valid() && Labels(l) && current != []
    ensures var emitted := BuildFrom(l, p, nameOf, level, current).emitted;
            i < |emitted| && LevelOf(emitted[i]) == level ==> i < |Runs(l, p, level, current)|
  {
    hide Runs, Accepted, LevelOf;
    var runs := Runs(l, p, level, current);
    var nodes := Nodes(l, level, runs);
    var emitted := BuildFrom(l, p, nameOf, level, current).emitted;
    RunsShrink(l, p, level, current);
    if |nodes| <= i < |emitted| {
      var parents := Parents(l, nameOf, level, runs);
      assert emitted == nodes + BuildFrom(l, p, nameOf, level + 1, parents).emitted;
      EmittedLevels(l, p, nameOf, level + 1, parents, i - |nodes|);
    }
  }

  // ---- directories and files ----

  /** A directory node at `level` may end after its entry `j`. */
  predicate TreeMayEnd(p: ShapeParams, level: nat, entries: seq<TreeEntry>, j: nat)
    requires j < |entries|
  {
    || Sum(TreeSizes(entries[..j + 1])) >= p.maxNodeBytes
    || (j + 1 >= p.minEntries && (j + 1 >= p.maxEntries || p.boundary(entries[j].name, level)))
  }

  /** A file node, whose entries take forty bytes each and are keyed by what they name. */
  predicate BlobMayEnd(p: ShapeParams, level: nat, children: seq<BlobEntry>, j: nat)
    requires j < |children|
  {
    || 40 * (j + 1) >= p.maxNodeBytes
    || (j + 1 >= p.minEntries && (j + 1 >= p.maxEntries || p.boundary(children[j].target.digest, level)))
  }

  /** Every node of a built directory ends where its own level and entries say. */
  lemma TreeNodesEndByTheRule(entries: seq<TreeEntry>, p: ShapeParams, nameOf: Naming, i: nat)
    requires entries != [] && i < |TreeBuild(entries, p, nameOf).emitted|
    ensures var emitted := TreeBuild(entries, p, nameOf).emitted;
            && emitted[i].Tree? && emitted[i].level >= 0 && emitted[i].entries != []
            && var level, own := emitted[i].level, emitted[i].entries;
               && (level == 0 || |own| > 3 ==> forall j :: 0 <= j < |own| - 1 ==> !TreeMayEnd(p, level, own, j))
               && ((i + 2 < |emitted| && LevelOf(emitted[i + 2]) == level)
                   || (level == 0 && i + 1 < |emitted| && LevelOf(emitted[i + 1]) == 0) ==>
                     TreeMayEnd(p, level, own, |own| - 1))
  {
    hide MayEnd, TreeMayEnd, BuildFrom;
    assert Labels(TreeLayout());
    var h, run := EmittedRule(TreeLayout(), p, nameOf, 0, entries, i);
    forall j | 0 <= j < |run|
      ensures MayEnd(TreeLayout(), p, h, run, j) <==> TreeMayEnd(p, h, run, j)
    {
      TreeRuleIs(p, h, run, j);
    }
  }

  lemma TreeRuleIs(p: ShapeParams, h: nat, run: seq<TreeEntry>, j: nat)
    requires j < |run|
    ensures MayEnd(TreeLayout(), p, h, run, j) <==> TreeMayEnd(p, h, run, j)
  {
    assert SizesOf(TreeLayout(), run[..j + 1]) == TreeSizes(run[..j + 1]);
  }

  /** Every node of a built file, likewise. */
  lemma BlobNodesEndByTheRule(chunks: seq<BlobEntry>, p: ShapeParams, nameOf: Naming, i: nat)
    requires chunks != [] && i < |BlobBuild(chunks, p, nameOf).emitted|
    ensures var emitted := BlobBuild(chunks, p, nameOf).emitted;
            && emitted[i].Blob? && emitted[i].level >= 0 && emitted[i].children != []
            && var level, own := emitted[i].level, emitted[i].children;
               && (level == 0 || |own| > 3 ==> forall j :: 0 <= j < |own| - 1 ==> !BlobMayEnd(p, level, own, j))
               && ((i + 2 < |emitted| && LevelOf(emitted[i + 2]) == level)
                   || (level == 0 && i + 1 < |emitted| && LevelOf(emitted[i + 1]) == 0) ==>
                     BlobMayEnd(p, level, own, |own| - 1))
  {
    hide MayEnd, BlobMayEnd, BuildFrom;
    assert Labels(BlobLayout());
    var h, run := EmittedRule(BlobLayout(), p, nameOf, 0, chunks, i);
    forall j | 0 <= j < |run|
      ensures MayEnd(BlobLayout(), p, h, run, j) <==> BlobMayEnd(p, h, run, j)
    {
      BlobRuleIs(p, h, run, j);
    }
  }

  lemma BlobRuleIs(p: ShapeParams, h: nat, run: seq<BlobEntry>, j: nat)
    requires j < |run|
    ensures MayEnd(BlobLayout(), p, h, run, j) <==> BlobMayEnd(p, h, run, j)
  {
    var sizes := SizesOf(BlobLayout(), run[..j + 1]);
    SumBounds(sizes, 40, 40);
  }
}
