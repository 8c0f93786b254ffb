/** Ranged reads (src/fs/blob.py): descending by cumulative sizes gives the slice of
    the file, and touches only what overlaps it. */
module BlobReader {
  import opened ByteStrings
  import opened Model
  import opened Sums
  import opened Shape
  import opened TreeNodes
  import opened BlobNodes

  /** Something the descent fetches: a node or a chunk, and where it sits in the file. */
  datatype Located = Located(name: Name, start: nat, size: nat, isChunk: bool)

  // ---- the descent ----

  /** `_descend`: everything fetched below a node, in order; the chunks among it are
      the ones the generator yields. */
  function Descend(objs: Objects, n: Name, level: nat, base: nat, start: nat, end: nat): (visits: seq<Located>)
    requires WellFormedBlob(objs, n, level)
    decreases level, 1, 0
  {
    DescendAll(objs, objs[n].children, level, base, start, end)
  }

  function DescendAll(objs: Objects, children: seq<BlobEntry>, level: nat, offset: nat, start: nat, end: nat)
    : (visits: seq<Located>)
    requires forall i :: 0 <= i < |children| ==> SpanOk(objs, children[i], level)
    decreases level, 0, |children|
  {
    if children == [] then []
    else
      var e := children[0];
      var childEnd := offset + e.size;
      assert SpanOk(objs, e, level);
      var here :=
        if childEnd > start && offset < end then
          if level == 0 then [Located(e.target, offset, e.size, true)]
          else [Located(e.target, offset, e.size, false)] + Descend(objs, e.target, level - 1, offset, start, end)
        else [];
      here + if childEnd >= end then [] else DescendAll(objs, children[1..], level, childEnd, start, end)
  }

  // ---- what a range of a file is ----

  function Clamp(x: int, high: nat): (y: nat)
    ensures y <= high
  {
    if x < 0 then 0 else if x > high then high else x
  }

  /** The part of `content`, which starts at `base` in the file, that lies in the range. */
  function Window(content: Bytes, base: nat, start: nat, end: nat): (part: Bytes)
    requires start <= end
  {
    content[Clamp(start - base, |content|)..Clamp(end - base, |content|)]
  }

  lemma WindowOfConcat(a: Bytes, b: Bytes, base: nat, start: nat, end: nat)
    requires start <= end
    ensures Window(a + b, base, start, end) == Window(a, base, start, end) + Window(b, base + |a|, start, end)
  {
    var lo, hi := Clamp(start - base, |a + b|), Clamp(end - base, |a + b|);
    var c := a + b;
    if hi <= |a| {
      assert c[lo..hi] == a[lo..hi];
    } else if lo >= |a| {
      assert c[lo..hi] == b[lo - |a|..hi - |a|];
    } else {
      assert c[lo..hi] == a[lo..] + b[..hi - |a|];
    }
  }

  /** What `_yield_range` takes of one located chunk. */
  function Yield(objs: Objects, v: Located, start: nat, end: nat): (part: Bytes)
    requires start <= end
  {
    if v.isChunk && v.name in objs && objs[v.name].Chunk? then Window(objs[v.name].data, v.start, start, end) else []
  }

  function YieldAll(objs: Objects, visits: seq<Located>, start: nat, end: nat): (bytes: Bytes)
    requires start <= end
  {
    if visits == [] then [] else Yield(objs, visits[0], start, end) + YieldAll(objs, visits[1..], start, end)
  }

  lemma {:induction false} YieldAllOfConcat(objs: Objects, a: seq<Located>, b: seq<Located>, start: nat, end: nat)
    requires start <= end
    ensures YieldAll(objs, a + b, start, end) == YieldAll(objs, a, start, end) + YieldAll(objs, b, start, end)
  {
    if a == [] {
      assert a + b == b;
    } else {
      assert (a + b)[1..] == a[1..] + b;
      YieldAllOfConcat(objs, a[1..], b, start, end);
    }
  }

  lemma YieldOne(objs: Objects, v: Located, start: nat, end: nat)
    requires start <= end
    ensures YieldAll(objs, [v], start, end) == Yield(objs, v, start, end)
  {
    assert [v][1..] == [];
  }

  /** The chunks the descent locates, each cut to the range, are the range. */
  lemma {:induction false} DescentYieldsTheWindow(objs: Objects, children: seq<BlobEntry>, level: nat,
                                            offset: nat, start: nat, end: nat)
    requires forall i :: 0 <= i < |children| ==> SpanOk(objs, children[i], level)
    requires start < end
    ensures YieldAll(objs, DescendAll(objs, children, level, offset, start, end), start, end)
            == Window(ContentAll(objs, children, level), offset, start, end)
    decreases level, |children|
  {
    hide YieldAll, Window, Content;
    if children == [] {
      EmptyRange(objs, offset, start, end);
    } else {
      var e := children[0];
      var childEnd := offset + e.size;
      assert SpanOk(objs, e, level);
      var content, rest := ContentOf(objs, e, level), ContentAll(objs, children[1..], level);
      var here :=
        if childEnd > start && offset < end then
          if level == 0 then [Located(e.target, offset, e.size, true)]
          else [Located(e.target, offset, e.size, false)] + Descend(objs, e.target, level - 1, offset, start, end)
        else [];
      assert YieldAll(objs, here, start, end) == Window(content, offset, start, end) by {
        OneChildYields(objs, e, level, offset, start, end);
      }
      assert forall i :: 0 <= i < |children| - 1 ==> children[1..][i] == children[i + 1];
      WindowOfConcat(content, rest, offset, start, end);
      if childEnd >= end {
        OutsideRange(rest, childEnd, start, end);
        assert here + [] == here;
      } else {
        DescentYieldsTheWindow(objs, children[1..], level, childEnd, start, end);
        YieldAllOfConcat(objs, here, DescendAll(objs, children[1..], level, childEnd, start, end), start, end);
      }
    }
  }

  lemma EmptyRange(objs: Objects, offset: nat, start: nat, end: nat)
    requires start <= end
    ensures YieldAll(objs, [], start, end) == [] && Window([], offset, start, end) == []
  {
  }

  lemma OutsideRange(content: Bytes, base: nat, start: nat, end: nat)
    requires start < end && (base >= end || base + |content| <= start)
    ensures Window(content, base, start, end) == []
  {
  }

  lemma OneChildYields(objs: Objects, e: BlobEntry, level: nat, offset: nat, start: nat, end: nat)
    requires SpanOk(objs, e, level) && start < end
    ensures var here :=
              if offset + e.size > start && offset < end then
                if level == 0 then [Located(e.target, offset, e.size, true)]
                else [Located(e.target, offset, e.size, false)] + Descend(objs, e.target, level - 1, offset, start, end)
              else [];
            YieldAll(objs, here, start, end) == Window(ContentOf(objs, e, level), offset, start, end)
    decreases level, 0
  {
    hide YieldAll, Window, DescendAll;
    if !(offset + e.size > start && offset < end) {
      EmptyRange(objs, offset, start, end);
      OutsideRange(ContentOf(objs, e, level), offset, start, end);
    } else if level == 0 {
      YieldOne(objs, Located(e.target, offset, e.size, true), start, end);
    } else {
      var v := Located(e.target, offset, e.size, false);
      var below := Descend(objs, e.target, level - 1, offset, start, end);
      DescentYieldsTheWindow(objs, objs[e.target].children, level - 1, offset, start, end);
      YieldAllOfConcat(objs, [v], below, start, end);
      YieldOne(objs, v, start, end);
    }
  }

  predicate Overlaps(v: Located, start: nat, end: nat)
  {
    v.start < end && v.start + v.size > start
  }

  predicate AllOverlap(visits: seq<Located>, start: nat, end: nat)
  {
    forall i :: 0 <= i < |visits| ==> Overlaps(visits[i], start, end)
  }

  lemma AllOverlapConcat(a: seq<Located>, b: seq<Located>, start: nat, end: nat)
    requires AllOverlap(a, start, end) && AllOverlap(b, start, end)
    ensures AllOverlap(a + b, start, end)
  {
  }

  /** Nothing outside the range is fetched: neither a chunk nor an index node. */
  lemma {:induction false} DescentFetchesOnlyOverlaps(objs: Objects, children: seq<BlobEntry>, level: nat,
                                                offset: nat, start: nat, end: nat)
    requires forall i :: 0 <= i < |children| ==> SpanOk(objs, children[i], level)
    ensures AllOverlap(DescendAll(objs, children, level, offset, start, end), start, end)
    decreases level, |children|
  {
    hide AllOverlap, SpanOk;
    if children == [] {
      NoneOverlap(start, end);
    } else {
      var e := children[0];
      var childEnd := offset + e.size;
      assert forall i :: 0 <= i < |children| - 1 ==> children[1..][i] == children[i + 1];
      OneChildOverlaps(objs, e, level, offset, start, end);
      NoneOverlap(start, end);
      DescentFetchesOnlyOverlaps(objs, children[1..], level, childEnd, start, end);
      var here :=
        if childEnd > start && offset < end then
          if level == 0 then [Located(e.target, offset, e.size, true)]
          else [Located(e.target, offset, e.size, false)] + Descend(objs, e.target, level - 1, offset, start, end)
        else [];
      var later := if childEnd >= end then [] else DescendAll(objs, children[1..], level, childEnd, start, end);
      AllOverlapConcat(here, later, start, end);
    }
  }

  lemma NoneOverlap(start: nat, end: nat)
    ensures AllOverlap([], start, end)
  {
  }

  lemma OneChildOverlaps(objs: Objects, e: BlobEntry, level: nat, offset: nat, start: nat, end: nat)
    requires SpanOk(objs, e, level)
    ensures e.size > 0 && (level > 0 ==> WellFormedBlob(objs, e.target, level - 1))
    ensures var here :=
              if offset + e.size > start && offset < end then
                if level == 0 then [Located(e.target, offset, e.size, true)]
                else [Located(e.target, offset, e.size, false)] + Descend(objs, e.target, level - 1, offset, start, end)
              else [];
            AllOverlap(here, start, end)
    decreases level, 0
  {
    hide DescendAll;
    if offset + e.size > start && offset < end && level > 0 {
      DescentFetchesOnlyOverlaps(objs, objs[e.target].children, level - 1, offset, start, end);
      AllOverlapConcat([Located(e.target, offset, e.size, false)],
                       Descend(objs, e.target, level - 1, offset, start, end), start, end);
    }
  }

  // ---- reading ----

  /** `read`: the slice from `offset`, of `length` bytes or to the end, clamped to the
      file. `fetched` is everything below the root that was read to answer. */
  method ReadRange(objs: Objects, n: Name, offset: int, length: Option<int>)
    returns (r: Result<Bytes>, fetched: seq<Located>)
    requires ReadableBlob(objs, n)
    ensures r.Err? <==> offset < 0 || (length.Some? && length.value < 0)
    ensures r.Err? ==> r.error == InvalidRequest
    ensures r.Ok? ==>
              var file := FileBytes(objs, n);
              var end := Clamp(if length.None? then |file| else offset + length.value, |file|);
              && r.value == (if offset >= |file| then [] else file[offset..end])
              && AllOverlap(fetched, offset, end)
  {
    fetched := [];
    if offset < 0 || (length.Some? && length.value < 0) {
      return Err(InvalidRequest), fetched;
    }
    var root := objs[n];
    SpanIsContentLength(objs, root.children, root.level);
    var total := SpanOf(root.children);
    if offset >= total {
      return Ok([]), fetched;
    }
    var end := if length.None? || offset + length.value > total then total else offset + length.value;
    if offset >= end {
      return Ok([]), fetched;
    }
    fetched := Descend(objs, n, root.level, 0, offset, end);
    DescentYieldsTheWindow(objs, root.children, root.level, 0, offset, end);
    DescentFetchesOnlyOverlaps(objs, root.children, root.level, 0, offset, end);
    var bytes := YieldRange(objs, fetched, offset, end);
    r := Ok(bytes);
  }

  /** `_yield_range`. */
  method YieldRange(objs: Objects, visits: seq<Located>, start: nat, end: nat) returns (bytes: Bytes)
    requires start <= end
    ensures bytes == YieldAll(objs, visits, start, end)
  {
    hide YieldAll, Yield;
    bytes := [];
    assert visits[0..] == visits && [] + YieldAll(objs, visits, start, end) == YieldAll(objs, visits, start, end);
    for i := 0 to |visits|
      invariant YieldAll(objs, visits, start, end) == bytes + YieldAll(objs, visits[i..], start, end)
    {
      var v := visits[i];
      YieldNext(objs, visits, i, start, end);
      if v.isChunk && v.name in objs && objs[v.name].Chunk? {
        var data := objs[v.name].data;
        var begin := Clamp(start - v.start, |data|);
        var stop := Clamp(end - v.start, |data|);
        bytes := bytes + if begin == 0 && stop == |data| then data else data[begin..stop];
      }
    }
    assert visits[|visits|..] == [];
    EmptyRange(objs, 0, start, end);
  }

  lemma YieldNext(objs: Objects, visits: seq<Located>, i: nat, start: nat, end: nat)
    requires i < |visits| && start <= end
    ensures var v := visits[i];
            var part :=
              if v.isChunk && v.name in objs && objs[v.name].Chunk? then
                var data := objs[v.name].data;
                var begin, stop := Clamp(start - v.start, |data|), Clamp(end - v.start, |data|);
                if begin == 0 && stop == |data| then data else data[begin..stop]
              else [];
            YieldAll(objs, visits[i..], start, end) == part + YieldAll(objs, visits[i + 1..], start, end)
  {
    assert visits[i..][1..] == visits[i + 1..];
    var v := visits[i];
    if v.isChunk && v.name in objs && objs[v.name].Chunk? {
      var data := objs[v.name].data;
      assert data[0..|data|] == data;
    }
  }

  /** Reading a file whole gives its bytes. */
  method ReadAllBytes(objs: Objects, n: Name) returns (bytes: Bytes)
    requires ReadableBlob(objs, n)
    ensures bytes == FileBytes(objs, n)
  {
    var r, _ := ReadRange(objs, n, 0, None);
    bytes := r.value;
  }
}
