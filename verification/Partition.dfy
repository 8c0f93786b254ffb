/** Where a list of keys splits into nodes (src/format/shape.py). */
module Partition {
  // The boundary predicate is an arbitrary function of key and level: no result below
  // depends on its values.

  import opened ByteStrings
  import opened Sums

  datatype ShapeParams = ShapeParams(boundary: (Bytes, nat) -> bool,
                                     minEntries: nat, maxEntries: nat, maxNodeBytes: nat)
  {
    /** What `__post_init__` admits. */
    predicate Valid()
    {
      1 <= minEntries < maxEntries && maxNodeBytes >= 64
    }
  }

  // ---- cutting a sequence at given ends ----

  /** `ends` cuts a sequence of length `n` into consecutive non-empty runs. */
  predicate Cuts(ends: seq<nat>, n: nat)
  {
    && (n == 0 ==> ends == [])
    && (n > 0 ==> ends != [] && ends[0] > 0 && ends[|ends| - 1] == n)
    && forall i, j :: 0 <= i < j < |ends| ==> ends[i] < ends[j]
  }

  function StartOf(ends: seq<nat>, i: nat): (start: nat)
    requires i < |ends|
  {
    if i == 0 then 0 else ends[i - 1]
  }

  lemma CutsBounds(ends: seq<nat>, n: nat, i: nat)
    requires Cuts(ends, n) && i < |ends|
    ensures StartOf(ends, i) < ends[i] <= n
  {
    if i < |ends| - 1 {
      assert ends[i] < ends[|ends| - 1];
    }
  }

  function Slices<T>(s: seq<T>, ends: seq<nat>): (runs: seq<seq<T>>)
    requires Cuts(ends, |s|)
    ensures |runs| == |ends|
    ensures forall i {:trigger runs[i]} :: 0 <= i < |runs| ==>
              StartOf(ends, i) < ends[i] <= |s| && runs[i] == s[StartOf(ends, i)..ends[i]]
  {
    forall i | 0 <= i < |ends|
      ensures StartOf(ends, i) < ends[i] <= |s|
    {
      CutsBounds(ends, |s|, i);
    }
    seq(|ends|, i requires 0 <= i < |ends| => s[StartOf(ends, i)..ends[i]])
  }

  lemma JoinOne<T>(s: seq<T>, parts: seq<seq<T>>, a: nat, b: nat)
    requires a <= b <= |s| && Concat(parts) == s[..a]
    ensures Concat(parts + [s[a..b]]) == s[..b]
  {
    ConcatOfSnoc(parts, s[a..b]);
    assert s[..a] + s[a..b] == s[..b];
  }

  lemma {:induction false} SlicesJoin<T>(s: seq<T>, ends: seq<nat>, k: nat)
    requires Cuts(ends, |s|) && k < |ends|
    ensures ends[k] <= |s| && Concat(Slices(s, ends)[..k + 1]) == s[..ends[k]]
  {
    var runs := Slices(s, ends);
    CutsBounds(ends, |s|, k);
    if k == 0 {
      assert runs[..0] == [];
    } else {
      SlicesJoin(s, ends, k - 1);
    }
    JoinOne(s, runs[..k], StartOf(ends, k), ends[k]);
    assert runs[..k + 1] == runs[..k] + [runs[k]];
  }

  /** The runs are the sequence, in order, with nothing lost or repeated. */
  lemma SlicesPartition<T>(s: seq<T>, ends: seq<nat>)
    requires Cuts(ends, |s|)
    ensures Concat(Slices(s, ends)) == s
  {
    var runs := Slices(s, ends);
    if s != [] {
      SlicesJoin(s, ends, |ends| - 1);
      assert runs[..|ends|] == runs;
      assert s[..|s|] == s;
    }
  }

  /** The runs up to the k-th have at least `least` entries each. */
  predicate RunsHold(ends: seq<nat>, least: nat, k: nat)
    requires k < |ends|
  {
    forall i {:trigger StartOf(ends, i)} :: 0 <= i <= k ==> ends[i] >= StartOf(ends, i) + least
  }

  /** Runs of at least `least` entries: there are at most n / least of them. */
  lemma {:induction false} FewRuns(ends: seq<nat>, least: nat, k: nat)
    requires k < |ends| && RunsHold(ends, least, k)
    ensures ends[k] >= least * (k + 1)
  {
    assert StartOf(ends, k) <= ends[k];
    if k > 0 {
      FewRuns(ends, least, k - 1);
      assert least * (k + 1) == least * k + least;
    }
  }

  // ---- where the runs end ----

  /** Whether a node that starts at the head of the list ends after entry `i`. */
  predicate Closes(p: ShapeParams, level: nat, keys: seq<Bytes>, sizes: seq<nat>, i: nat)
    requires i < |keys| == |sizes|
  {
    || Sum(sizes[..i + 1]) >= p.maxNodeBytes
    || (i + 1 >= p.minEntries && (i + 1 >= p.maxEntries || p.boundary(keys[i], level)))
  }

  /** The length of the first node, looking from entry `i` on. */
  function RunLength(p: ShapeParams, level: nat, keys: seq<Bytes>, sizes: seq<nat>, i: nat): (length: nat)
    requires i <= |keys| == |sizes|
    ensures i <= length <= |keys|
    ensures i < |keys| ==> i < length
    ensures forall j :: i <= j < length - 1 ==> !Closes(p, level, keys, sizes, j)
    ensures i < length < |keys| ==> Closes(p, level, keys, sizes, length - 1)
    decreases |keys| - i
  {
    if i == |keys| then i
    else if Closes(p, level, keys, sizes, i) then i + 1
    else RunLength(p, level, keys, sizes, i + 1)
  }

  /** The ends before the tail is looked at: each node is cut from what is left. */
  function RawEnds(p: ShapeParams, level: nat, keys: seq<Bytes>, sizes: seq<nat>): (ends: seq<nat>)
    requires |keys| == |sizes|
    decreases |keys|
  {
    if keys == [] then []
    else
      var n := RunLength(p, level, keys, sizes, 0);
      [n] + Plus(RawEnds(p, level, keys[n..], sizes[n..]), n)
  }

  /** No interior node may end up with one child: the tail borrows one from the node
      before it, or joins it when that node cannot spare one. */
  function FixTail(ends: seq<nat>): (fixed: seq<nat>)
    requires forall i, j :: 0 <= i < j < |ends| ==> ends[i] < ends[j]
  {
    var n := |ends|;
    if n < 2 || ends[n - 1] - ends[n - 2] >= 2 then ends
    else
      var before := StartOf(ends, n - 2);
      if ends[n - 2] - before >= 3 then ends[n - 2 := ends[n - 2] - 1]
      else ends[..n - 2] + [ends[n - 1]]
  }

  lemma {:induction false} RawEndsCut(p: ShapeParams, level: nat, keys: seq<Bytes>, sizes: seq<nat>)
    requires |keys| == |sizes|
    ensures Cuts(RawEnds(p, level, keys, sizes), |keys|)
    decreases |keys|
  {
    if keys != [] {
      var n := RunLength(p, level, keys, sizes, 0);
      var rest := RawEnds(p, level, keys[n..], sizes[n..]);
      RawEndsCut(p, level, keys[n..], sizes[n..]);
      var ends := [n] + Plus(rest, n);
      forall i, j | 0 <= i < j < |ends|
        ensures ends[i] < ends[j]
      {
        if i == 0 {
          CutsBounds(rest, |keys| - n, j - 1);
        } else {
          assert rest[i - 1] < rest[j - 1];
        }
      }
      if rest != [] {
        assert ends[|ends| - 1] == rest[|rest| - 1] + n;
      }
    }
  }

  lemma FixTailCuts(ends: seq<nat>, n: nat)
    requires Cuts(ends, n)
    ensures Cuts(FixTail(ends), n)
  {
    if n > 0 {
      var last := |ends| - 1;
      CutsBounds(ends, n, last);
      if last > 0 { CutsBounds(ends, n, last - 1); }
      var fixed := FixTail(ends);
      forall i, j | 0 <= i < j < |fixed|
        ensures fixed[i] < fixed[j]
      {
        if fixed != ends && |fixed| == |ends| && j == last - 1 {
          assert ends[i] <= StartOf(ends, last - 1);
        }
      }
    }
  }

  function Ends(p: ShapeParams, level: nat, keys: seq<Bytes>, sizes: seq<nat>): (ends: seq<nat>)
    requires |keys| == |sizes|
    ensures Cuts(ends, |keys|)
  {
    RawEndsCut(p, level, keys, sizes);
    var raw := RawEnds(p, level, keys, sizes);
    FixTailCuts(raw, |keys|);
    if level > 0 then FixTail(raw) else raw
  }

  // ---- the source's loops ----

  /** The ends still to come when a node starts at `start`. */
  function EndsFrom(p: ShapeParams, level: nat, keys: seq<Bytes>, sizes: seq<nat>, start: nat): (ends: seq<nat>)
    requires start <= |keys| == |sizes|
  {
    Plus(RawEnds(p, level, keys[start..], sizes[start..]), start)
  }

  /** Where a node that starts at `start` ends, given that nothing before `index` closed it. */
  function EndOf(p: ShapeParams, level: nat, keys: seq<Bytes>, sizes: seq<nat>, start: nat, index: nat): (end: nat)
    requires start <= index <= |keys| == |sizes|
    ensures index <= end <= |keys|
  {
    start + RunLength(p, level, keys[start..], sizes[start..], index - start)
  }

  /** Bytes of the node that starts at `start`, up to `index`. */
  function Filled(sizes: seq<nat>, start: nat, index: nat): (total: nat)
    requires start <= index <= |sizes|
  {
    Sum(sizes[start..index])
  }

  /** `partition`. */
  method PartitionKeys(keys: seq<Bytes>, entryBytes: seq<nat>, level: nat, p: ShapeParams) returns (ends: seq<nat>)
    requires |keys| == |entryBytes|
    ensures ends == Ends(p, level, keys, entryBytes)
  {
    ends := SplitKeys(keys, entryBytes, level, p);
    RawEndsCut(p, level, keys, entryBytes);
    if level > 0 {
      ends := EnsureNoLonelyTail(ends);
    }
  }

  /** The loop of `partition`. */
  method SplitKeys(keys: seq<Bytes>, entryBytes: seq<nat>, level: nat, p: ShapeParams) returns (ends: seq<nat>)
    requires |keys| == |entryBytes|
    ensures ends == RawEnds(p, level, keys, entryBytes)
  {
    hide EndsFrom, EndOf, Filled, RawEnds;
    ends := [];
    var start := 0;
    var nodeBytes := 0;
    EndsFromOuter(p, level, keys, entryBytes);
    for index := 0 to |keys|
      invariant start <= index
      invariant nodeBytes == Filled(entryBytes, start, index)
      invariant RawEnds(p, level, keys, entryBytes) == ends + EndsFrom(p, level, keys, entryBytes, start)
      invariant EndOf(p, level, keys, entryBytes, start, start) == EndOf(p, level, keys, entryBytes, start, index)
    {
      LookAtOne(p, level, keys, entryBytes, start, index);
      nodeBytes := nodeBytes + entryBytes[index];
      var count := index - start + 1;
      var overByteBudget := nodeBytes >= p.maxNodeBytes;
      if count < p.minEntries && !overByteBudget {
        continue;
      }
      if overByteBudget || count >= p.maxEntries || p.boundary(keys[index], level) {
        CloseRun(p, level, keys, entryBytes, start, index + 1);
        ends := ends + [index + 1];
        start := index + 1;
        nodeBytes := 0;
      }
    }
    if start < |keys| {
      CloseRun(p, level, keys, entryBytes, start, |keys|);
      ends := ends + [|keys|];
    }
  }

  lemma EndsFromOuter(p: ShapeParams, level: nat, keys: seq<Bytes>, sizes: seq<nat>)
    requires |keys| == |sizes|
    ensures EndsFrom(p, level, keys, sizes, 0) == RawEnds(p, level, keys, sizes)
    ensures EndsFrom(p, level, keys, sizes, |keys|) == []
    ensures Filled(sizes, 0, 0) == 0
  {
    assert keys[0..] == keys && sizes[0..] == sizes;
  }

  /** What the running count and byte total say about the node being filled. */
  lemma LookAtOne(p: ShapeParams, level: nat, keys: seq<Bytes>, sizes: seq<nat>, start: nat, index: nat)
    requires start <= index < |keys| == |sizes|
    ensures Filled(sizes, start, index + 1) == Filled(sizes, start, index) + sizes[index]
    ensures var count := index - start + 1;
            var closes := || Filled(sizes, start, index + 1) >= p.maxNodeBytes
                          || (count >= p.minEntries && (count >= p.maxEntries || p.boundary(keys[index], level)));
            EndOf(p, level, keys, sizes, start, index)
            == if closes then index + 1 else EndOf(p, level, keys, sizes, start, index + 1)
  {
    SumOfSnoc(sizes[start..index], sizes[index]);
    assert sizes[start..index] + [sizes[index]] == sizes[start..index + 1];
    assert sizes[start..][..index - start + 1] == sizes[start..index + 1];
  }

  lemma CloseRun(p: ShapeParams, level: nat, keys: seq<Bytes>, sizes: seq<nat>, start: nat, end: nat)
    requires start < |keys| == |sizes|
    requires EndOf(p, level, keys, sizes, start, start) == end
    ensures EndsFrom(p, level, keys, sizes, start) == [end] + EndsFrom(p, level, keys, sizes, end)
    ensures Filled(sizes, end, end) == 0
  {
    assert keys[start..][end - start..] == keys[end..];
    assert sizes[start..][end - start..] == sizes[end..];
  }

  /** `_ensure_no_lonely_tail`. */
  method EnsureNoLonelyTail(ends: seq<nat>) returns (fixed: seq<nat>)
    requires forall i, j :: 0 <= i < j < |ends| ==> ends[i] < ends[j]
    ensures fixed == FixTail(ends)
  {
    fixed := ends;
    if |fixed| < 2 {
      return;
    }
    var last := |fixed| - 1;
    var tail := fixed[last] - fixed[last - 1];
    if tail >= 2 {
      return;
    }
    var previousStart := if |fixed| >= 3 then fixed[last - 2] else 0;
    var held: int := fixed[last - 1] - previousStart;
    var borrowable := held - 2;
    var needed := 2 - tail;
    if borrowable >= needed {
      fixed := fixed[last - 1 := fixed[last - 1] - needed];
    } else {
      fixed := fixed[..last - 1] + fixed[last..];
    }
  }

  // ---- what a run can hold ----

  /** One raw run: it starts a list that ends at the first entry that closes it. */
  predicate RunOk(p: ShapeParams, level: nat, keys: seq<Bytes>, sizes: seq<nat>, start: nat, end: nat)
    requires start < end <= |keys| == |sizes|
  {
    RunLength(p, level, keys[start..], sizes[start..], 0) == end - start
  }

  /** The raw ends are characterised completely: every node ends at the first entry
      that closes it, and only the last may end because the list does. */
  lemma {:induction false} RawRunsEndWhereTheyClose(p: ShapeParams, level: nat, keys: seq<Bytes>, sizes: seq<nat>,
                                                    i: nat)
    requires |keys| == |sizes|
    requires i < |RawEnds(p, level, keys, sizes)|
    ensures var ends := RawEnds(p, level, keys, sizes);
            StartOf(ends, i) < ends[i] <= |keys| && RunOk(p, level, keys, sizes, StartOf(ends, i), ends[i])
    decreases |keys|
  {
    hide Cuts, RunOk, RunLength, RawEnds;
    RawEndsCut(p, level, keys, sizes);
    var ends := RawEnds(p, level, keys, sizes);
    CutsBounds(ends, |keys|, i);
    var n := RunLength(p, level, keys, sizes, 0);
    var rest := RawEnds(p, level, keys[n..], sizes[n..]);
    RawEndsSplit(p, level, keys, sizes);
    if i == 0 {
      FirstRun(p, level, keys, sizes);
    } else {
      RawRunsEndWhereTheyClose(p, level, keys[n..], sizes[n..], i - 1);
      RunOfSuffix(p, level, keys, sizes, n, StartOf(rest, i - 1), rest[i - 1]);
    }
  }

  lemma FirstRun(p: ShapeParams, level: nat, keys: seq<Bytes>, sizes: seq<nat>)
    requires 0 < |keys| == |sizes|
    ensures RunOk(p, level, keys, sizes, 0, RunLength(p, level, keys, sizes, 0))
  {
    assert keys[0..] == keys && sizes[0..] == sizes;
  }

  lemma RunOfSuffix(p: ShapeParams, level: nat, keys: seq<Bytes>, sizes: seq<nat>, n: nat, start: nat, end: nat)
    requires |keys| == |sizes| && n <= |keys| && start < end <= |keys| - n
    requires RunOk(p, level, keys[n..], sizes[n..], start, end)
    ensures RunOk(p, level, keys, sizes, n + start, n + end)
  {
    hide RunLength;
    assert keys[n..][start..] == keys[n + start..] && sizes[n..][start..] == sizes[n + start..];
  }

  /** Bytes of a run without its last entry stay under the budget, and its entries
      under the cap; only the run that ends the list can be a merged one of three. */
  predicate WithinBudget(p: ShapeParams, sizes: seq<nat>, start: nat, end: nat)
    requires start < end <= |sizes|
  {
    || (Sum(sizes[start..end - 1]) < p.maxNodeBytes && end - start <= p.maxEntries)
    || (end - start <= 3 && end == |sizes|)
  }

  lemma ShorterRunWithinBudget(p: ShapeParams, level: nat, keys: seq<Bytes>, sizes: seq<nat>,
                               start: nat, end: nat, shorter: nat)
    requires p.Valid()
    requires start < shorter <= end <= |keys| == |sizes|
    requires RunOk(p, level, keys, sizes, start, end)
    ensures WithinBudget(p, sizes, start, shorter)
  {
    if shorter - start > 1 {
      var j := shorter - 2 - start;
      assert !Closes(p, level, keys[start..], sizes[start..], j);
      assert sizes[start..][..j + 1] == sizes[start..shorter - 1];
    }
  }

  /** Every node the partition makes is within the budget by at most one entry; the
      last may instead hold at most three. */
  lemma RunsWithinBudget(p: ShapeParams, level: nat, keys: seq<Bytes>, sizes: seq<nat>, i: nat)
    requires p.Valid() && |keys| == |sizes|
    requires i < |Ends(p, level, keys, sizes)|
    ensures var ends := Ends(p, level, keys, sizes);
            StartOf(ends, i) < ends[i] <= |keys| && WithinBudget(p, sizes, StartOf(ends, i), ends[i])
  {
    var raw := RawEnds(p, level, keys, sizes);
    var ends := Ends(p, level, keys, sizes);
    RawEndsCut(p, level, keys, sizes);
    CutsBounds(ends, |keys|, i);
    RawRunsEndWhereTheyClose(p, level, keys, sizes, i);
    CutsBounds(raw, |keys|, i);
    var last := |raw| - 1;
    if ends == raw || i < last - 1 || (i == last - 1 && |ends| == |raw|) {
      ShorterRunWithinBudget(p, level, keys, sizes, StartOf(raw, i), raw[i], ends[i]);
    } else {
      assert ends[i] == raw[last];
    }
  }

  /** The condition on parameters under which no node but the last can be lonely:
      at least two entries a node, and none that fills a node alone. */
  predicate NoLonelyNodes(p: ShapeParams, sizes: seq<nat>)
  {
    p.minEntries >= 2 && forall i :: 0 <= i < |sizes| ==> sizes[i] < p.maxNodeBytes
  }

  lemma RawRunIsNotLonely(p: ShapeParams, level: nat, keys: seq<Bytes>, sizes: seq<nat>, i: nat)
    requires |keys| == |sizes| && NoLonelyNodes(p, sizes)
    requires i < |RawEnds(p, level, keys, sizes)| - 1
    ensures var raw := RawEnds(p, level, keys, sizes);
            raw[i] >= StartOf(raw, i) + 2
  {
    var raw := RawEnds(p, level, keys, sizes);
    RawEndsCut(p, level, keys, sizes);
    RawRunsEndWhereTheyClose(p, level, keys, sizes, i);
    CutsBounds(raw, |keys|, i);
    var start := StartOf(raw, i);
    assert raw[i] < raw[|raw| - 1] == |keys|;
    assert Closes(p, level, keys[start..], sizes[start..], raw[i] - start - 1);
    assert sizes[start..][..1] == [sizes[start]];
    SumOfOne(sizes[start]);
  }

  /** Above level 0 every node then has at least two children; at level 0 every node
      but the last has at least two entries. */
  lemma RunsAreNotLonely(p: ShapeParams, level: nat, keys: seq<Bytes>, sizes: seq<nat>, i: nat)
    requires p.Valid() && |keys| == |sizes| && NoLonelyNodes(p, sizes)
    requires i < |Ends(p, level, keys, sizes)|
    requires |keys| >= 2
    ensures var ends := Ends(p, level, keys, sizes);
            level > 0 || i < |ends| - 1 ==> ends[i] >= StartOf(ends, i) + 2
  {
    var raw := RawEnds(p, level, keys, sizes);
    var ends := Ends(p, level, keys, sizes);
    RawEndsCut(p, level, keys, sizes);
    if i < |raw| - 1 {
      RawRunIsNotLonely(p, level, keys, sizes, i);
    }
    if |raw| >= 2 {
      RawRunIsNotLonely(p, level, keys, sizes, |raw| - 2);
    }
  }

  /** Three entries that each end a node: above level 0 the last two merge, and the
      first is left alone. */
  lemma ThreeNodesOfOne(p: ShapeParams, level: nat, keys: seq<Bytes>, sizes: seq<nat>)
    requires |keys| == |sizes| == 3
    requires forall i :: 0 <= i < 3 ==>
               sizes[i] >= p.maxNodeBytes || (p.minEntries <= 1 && p.boundary(keys[i], level))
    ensures RawEnds(p, level, keys, sizes) == [1, 2, 3]
    ensures level > 0 ==> Ends(p, level, keys, sizes) == [1, 3]
  {
    hide FixTail;
    assert keys[1..][1..] == keys[2..] && sizes[1..][1..] == sizes[2..];
    assert keys[2..][1..] == [] && sizes[2..][1..] == [];
    forall i | 0 <= i < 3
      ensures RunLength(p, level, keys[i..], sizes[i..], 0) == 1
    {
      assert sizes[i..][..1] == [sizes[i]];
      SumOfOne(sizes[i]);
    }
    assert keys[0..] == keys && sizes[0..] == sizes;
    assert RawEnds(p, level, keys[2..], sizes[2..]) == [1];
    assert RawEnds(p, level, keys[1..], sizes[1..]) == [1, 2];
    assert RawEnds(p, level, keys, sizes) == [1, 2, 3];
    FixTailOfThree();
  }

  lemma FixTailOfThree()
    ensures FixTail([1, 2, 3]) == [1, 3]
  {
  }

  /** No interior node of this partition has one child, and no leaf but the last one
      entry. */
  predicate NoRunIsLonely(p: ShapeParams, level: nat, keys: seq<Bytes>, sizes: seq<nat>)
    requires |keys| == |sizes|
  {
    var ends := Ends(p, level, keys, sizes);
    forall i {:trigger ends[i]} :: 0 <= i < |ends| ==>
      (level > 0 || i < |ends| - 1 ==> ends[i] >= StartOf(ends, i) + 2)
  }

  /** Whatever the boundary predicate, the keys and the sizes up to `most`. */
  ghost predicate NeverLonely(p: ShapeParams, level: nat, most: nat)
  {
    forall boundary: (Bytes, nat) -> bool, keys: seq<Bytes>, sizes: seq<nat>
      {:trigger NoRunIsLonely(p.(boundary := boundary), level, keys, sizes)} ::
      |keys| == |sizes| >= 2 && (forall i :: 0 <= i < |sizes| ==> sizes[i] <= most)
      ==> NoRunIsLonely(p.(boundary := boundary), level, keys, sizes)
  }

  /** Exactly which parameters rule lonely nodes out, among those the constructor
      admits: at least two entries a node, and no entry that fills one. */
  lemma NeverLonelyIff(p: ShapeParams, level: nat, most: nat)
    requires p.Valid()
    ensures NeverLonely(p, level, most) <==> p.minEntries >= 2 && most < p.maxNodeBytes
  {
    if p.minEntries >= 2 && most < p.maxNodeBytes {
      forall boundary: (Bytes, nat) -> bool, keys: seq<Bytes>, sizes: seq<nat>
        | |keys| == |sizes| >= 2 && forall i :: 0 <= i < |sizes| ==> sizes[i] <= most
        ensures NoRunIsLonely(p.(boundary := boundary), level, keys, sizes)
      {
        NoRunsAreLonely(p.(boundary := boundary), level, keys, sizes);
      }
    } else {
      LonelyThree(p, level, most);
    }
  }

  lemma NoRunsAreLonely(p: ShapeParams, level: nat, keys: seq<Bytes>, sizes: seq<nat>)
    requires p.Valid() && |keys| == |sizes| >= 2 && NoLonelyNodes(p, sizes)
    ensures NoRunIsLonely(p, level, keys, sizes)
  {
    var ends := Ends(p, level, keys, sizes);
    forall i | 0 <= i < |ends|
      ensures level > 0 || i < |ends| - 1 ==> ends[i] >= StartOf(ends, i) + 2
    {
      RunsAreNotLonely(p, level, keys, sizes, i);
    }
  }

  /** Every other choice of parameters leaves an entry alone among three. */
  lemma LonelyThree(p: ShapeParams, level: nat, most: nat)
    requires p.minEntries <= 1 || p.maxNodeBytes <= most
    ensures !NeverLonely(p, level, most)
  {
    var always := (key: Bytes, level: nat) => true;
    var q := p.(boundary := always);
    var keys: seq<Bytes>, sizes := [[1], [2], [3]], [most, most, most];
    ThreeNodesOfOne(q, level, keys, sizes);
    var ends := Ends(q, level, keys, sizes);
    assert ends[0] == 1;
    assert !NoRunIsLonely(q, level, keys, sizes);
  }

  // ---- re-synchronisation, before the tail is fixed ----

  lemma {:induction false} RunLengthLooksNoFurther(p: ShapeParams, level: nat, a: seq<Bytes>, as': seq<nat>,
                                             b: seq<Bytes>, bs: seq<nat>, same: nat, i: nat)
    requires |a| == |as'| && |b| == |bs| && same <= |a| && same <= |b|
    requires a[..same] == b[..same] && as'[..same] == bs[..same]
    requires i <= |a| && i <= |b|
    requires i < RunLength(p, level, a, as', i) <= same
    requires RunLength(p, level, a, as', i) < |a| || Closes(p, level, a, as', |a| - 1)
    ensures RunLength(p, level, b, bs, i) == RunLength(p, level, a, as', i)
    decreases |a| - i
  {
    assert a[i] == a[..same][i] == b[..same][i] == b[i];
    assert as'[..i + 1] == as'[..same][..i + 1] == bs[..same][..i + 1] == bs[..i + 1];
    if !Closes(p, level, a, as', i) {
      RunLengthLooksNoFurther(p, level, a, as', b, bs, same, i + 1);
    }
  }

  /** An edit at entry `same` or later keeps every node that closed at or before it. */
  lemma {:induction false} EndsBeforeEditStay(p: ShapeParams, level: nat, a: seq<Bytes>, as': seq<nat>,
                                        b: seq<Bytes>, bs: seq<nat>, same: nat, k: nat)
    requires |a| == |as'| && |b| == |bs| && same <= |a| && same <= |b|
    requires a[..same] == b[..same] && as'[..same] == bs[..same]
    requires k < |RawEnds(p, level, a, as')|
    requires RawEnds(p, level, a, as')[k] <= same && RawEnds(p, level, a, as')[k] < |a|
    ensures k < |RawEnds(p, level, b, bs)| && RawEnds(p, level, b, bs)[k] == RawEnds(p, level, a, as')[k]
    decreases k
  {
    RawEndsCut(p, level, a, as');
    var n := RunLength(p, level, a, as', 0);
    assert RawEnds(p, level, a, as')[0] == n;
    assert n <= RawEnds(p, level, a, as')[k];
    RunLengthLooksNoFurther(p, level, a, as', b, bs, same, 0);
    if k > 0 {
      assert a[n..][..same - n] == a[..same][n..] == b[..same][n..] == b[n..][..same - n];
      assert as'[n..][..same - n] == as'[..same][n..] == bs[..same][n..] == bs[n..][..same - n];
      EndsBeforeEditStay(p, level, a[n..], as'[n..], b[n..], bs[n..], same - n, k - 1);
    }
  }

  /** After a shared end, the ends depend only on what follows it: two listings with
      the same remaining entries split them the same way. */
  lemma {:induction false} LaterEndsDependOnTheSuffix(p: ShapeParams, level: nat, keys: seq<Bytes>, sizes: seq<nat>,
                                                      i: nat)
    requires |keys| == |sizes|
    requires i < |RawEnds(p, level, keys, sizes)|
    ensures var c := RawEnds(p, level, keys, sizes)[i];
            c <= |keys| && RawEnds(p, level, keys, sizes)[i + 1..] == Plus(RawEnds(p, level, keys[c..], sizes[c..]), c)
    decreases i
  {
    hide RunLength, Closes, RawEnds;
    var n := RunLength(p, level, keys, sizes, 0);
    var rest := RawEnds(p, level, keys[n..], sizes[n..]);
    RawEndsSplit(p, level, keys, sizes);
    if i == 0 {
      assert ([n] + Plus(rest, n))[1..] == Plus(rest, n);
    } else {
      LaterEndsDependOnTheSuffix(p, level, keys[n..], sizes[n..], i - 1);
      var c := rest[i - 1];
      SliceOfSlice(keys, n, c);
      SliceOfSlice(sizes, n, c);
      ShiftTail(rest, n, i, RawEnds(p, level, keys[n..][c..], sizes[n..][c..]));
    }
  }

  lemma RawEndsSplit(p: ShapeParams, level: nat, keys: seq<Bytes>, sizes: seq<nat>)
    requires |keys| == |sizes| && RawEnds(p, level, keys, sizes) != []
    ensures var n := RunLength(p, level, keys, sizes, 0);
            RawEnds(p, level, keys, sizes) == [n] + Plus(RawEnds(p, level, keys[n..], sizes[n..]), n)
  {
  }

  lemma SliceOfSlice<T>(s: seq<T>, n: nat, c: nat)
    requires n + c <= |s|
    ensures s[n..][c..] == s[n + c..]
  {
  }
}
