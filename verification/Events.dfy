/** Tailing the change stream (src/meta/store.py). */
module Events {
  // `read_events` and `StreamCursor`: shards are read from their own positions, merged by
  // time, and cut to a page.

  import opened MetaStore

  /** An event with the shard it comes from. */
  datatype StreamEvent = StreamEvent(shard: nat, event: Event)

  type Cursor = seq<nat>

  function StartCursor(shards: nat): (c: Cursor)
  {
    seq(shards, i => 0)
  }

  /** A shard the cursor does not know starts at 0. */
  function Position(c: Cursor, shard: nat): (p: nat)
  {
    if shard < |c| then c[shard] else 0
  }

  // ---- merging by time ----

  /** The order a page is sorted by: time, then shard, then sequence. */
  predicate Earlier(a: StreamEvent, b: StreamEvent)
  {
    || a.event.createdAtUs < b.event.createdAtUs
    || (a.event.createdAtUs == b.event.createdAtUs
        && (a.shard < b.shard || (a.shard == b.shard && a.event.sequence < b.event.sequence)))
  }

  predicate InOrder(events: seq<StreamEvent>)
  {
    forall i, j :: 0 <= i < j < |events| ==> Earlier(events[i], events[j])
  }

  /** No two events share both shard and sequence. */
  predicate Unique(events: seq<StreamEvent>)
  {
    forall i, j :: 0 <= i < j < |events| ==>
      events[i].shard != events[j].shard || events[i].event.sequence != events[j].event.sequence
  }

  method InsertByTime(events: seq<StreamEvent>, e: StreamEvent) returns (more: seq<StreamEvent>)
    requires InOrder(events)
    requires forall x :: x in events ==> x.shard != e.shard || x.event.sequence != e.event.sequence
    ensures InOrder(more) && forall x :: x in more <==> x in events || x == e
  {
    var i := 0;
    while i < |events| && Earlier(events[i], e)
      invariant 0 <= i <= |events|
      invariant forall j :: 0 <= j < i ==> Earlier(events[j], e)
    {
      i := i + 1;
    }
    forall j | i <= j < |events|
      ensures Earlier(e, events[j])
    {
      assert events[i] in events;
      if i < j { assert Earlier(events[i], events[j]); }
    }
    more := events[..i] + [e] + events[i..];
    assert events == events[..i] + events[i..];
  }

  /** The sort, by insertion. */
  method SortByTime(events: seq<StreamEvent>) returns (sorted: seq<StreamEvent>)
    requires Unique(events)
    ensures InOrder(sorted) && forall x :: x in sorted <==> x in events
  {
    sorted := [];
    for i := 0 to |events|
      invariant InOrder(sorted) && forall x :: x in sorted <==> x in events[..i]
    {
      assert events[..i + 1] == events[..i] + [events[i]];
      forall x | x in sorted
        ensures x.shard != events[i].shard || x.event.sequence != events[i].event.sequence
      {
        var j :| 0 <= j < i && events[j] == x;
      }
      sorted := InsertByTime(sorted, events[i]);
    }
    assert events[..|events|] == events;
  }

  // ---- one page ----

  /** Event `i` of a shard is among the rows fetched for a page. */
  predicate Fetched(outboxes: seq<seq<Event>>, c: Cursor, limit: nat, shard: int, i: int)
  {
    0 <= shard < |outboxes| && 0 <= i < |outboxes[shard]| && Position(c, shard) <= i < Position(c, shard) + limit
  }

  ghost predicate WasFetched(outboxes: seq<seq<Event>>, c: Cursor, limit: nat, e: StreamEvent)
  {
    exists i :: Fetched(outboxes, c, limit, e.shard, i) && e.event == outboxes[e.shard][i]
  }

  /** The page before it is cut: in order, and exactly the rows fetched. */
  ghost predicate Merged(outboxes: seq<seq<Event>>, c: Cursor, limit: nat, sorted: seq<StreamEvent>)
  {
    && InOrder(sorted)
    && (forall n :: 0 <= n < |sorted| ==>
          WasFetched(outboxes, c, limit, sorted[n]))
    && forall shard, i :: Fetched(outboxes, c, limit, shard, i) ==> StreamEvent(shard, outboxes[shard][i]) in sorted
  }

  ghost predicate AllNumbered(outboxes: seq<seq<Event>>)
  {
    forall k :: 0 <= k < |outboxes| ==> Numbered(outboxes[k])
  }

  /** The rows of one shard above its position, at most `limit` of them. */
  function RowsAbove(outbox: seq<Event>, position: nat, limit: nat): (rows: seq<Event>)
  {
    if position >= |outbox| then []
    else if position + limit <= |outbox| then outbox[position..position + limit]
    else outbox[position..]
  }

  /** What one shard contributes. */
  method FetchShard(outboxes: seq<seq<Event>>, c: Cursor, limit: nat, shard: nat) returns (more: seq<StreamEvent>)
    requires AllNumbered(outboxes) && shard < |outboxes|
    ensures forall n :: 0 <= n < |more| ==> more[n].shard == shard
    ensures forall n, m :: 0 <= n < m < |more| ==> more[n].event.sequence != more[m].event.sequence
    ensures forall e :: e in more ==> WasFetched(outboxes, c, limit, e)
    ensures forall i :: Fetched(outboxes, c, limit, shard, i) ==> StreamEvent(shard, outboxes[shard][i]) in more
  {
    var position := Position(c, shard);
    var rows := RowsAbove(outboxes[shard], position, limit);
    assert forall i :: 0 <= i < |rows| ==> rows[i] == outboxes[shard][position + i];
    more := seq(|rows|, i requires 0 <= i < |rows| => StreamEvent(shard, rows[i]));
    forall i | Fetched(outboxes, c, limit, shard, i)
      ensures StreamEvent(shard, outboxes[shard][i]) in more
    {
      assert more[i - position] == StreamEvent(shard, outboxes[shard][i]);
    }
    forall e | e in more
      ensures WasFetched(outboxes, c, limit, e)
    {
      var i :| 0 <= i < |more| && more[i] == e;
      assert Fetched(outboxes, c, limit, shard, position + i);
    }
  }

  /** `read_events`. */
  method ReadEvents(outboxes: seq<seq<Event>>, c: Cursor, limit: nat)
    returns (page: seq<StreamEvent>, ghost sorted: seq<StreamEvent>)
    requires AllNumbered(outboxes)
    ensures Merged(outboxes, c, limit, sorted)
    ensures page == if |sorted| <= limit then sorted else sorted[..limit]
    ensures forall e :: e in page ==>
              e.shard < |outboxes| && e.event.sequence > if e.shard < |c| then c[e.shard] else 0
    ensures forall shard, i :: 0 <= shard < |outboxes| && 0 <= i < |outboxes[shard]| ==>
              var position := if shard < |c| then c[shard] else 0;
              position <= i < position + limit ==> StreamEvent(shard, outboxes[shard][i]) in sorted
    ensures forall i, j :: 0 <= i < j < |page| ==>
              var a, b := page[i], page[j];
              || a.event.createdAtUs < b.event.createdAtUs
              || (a.event.createdAtUs == b.event.createdAtUs && a.shard < b.shard)
              || (a.event.createdAtUs == b.event.createdAtUs && a.shard == b.shard
                  && a.event.sequence < b.event.sequence)
  {
    hide AllNumbered, Position;
    var events: seq<StreamEvent> := [];
    for shard := 0 to |outboxes|
      invariant Unique(events)
      invariant forall e :: e in events ==>
                  e.shard < shard && WasFetched(outboxes, c, limit, e)
      invariant forall k: int, i: int :: k < shard && Fetched(outboxes, c, limit, k, i) ==>
                  StreamEvent(k, outboxes[k][i]) in events
    {
      var more := FetchShard(outboxes, c, limit, shard);
      JoinUnique(events, more, shard);
      events := events + more;
    }
    var all := SortByTime(events);
    sorted := all;
    MergedIs(outboxes, c, limit, events, all);
    MergedStartsAfterTheCursor(outboxes, c, limit, all);
    page := if |all| <= limit then all else all[..limit];
  }

  /** A shard is read from its own position, from the start if the cursor does not have it. */
  lemma MergedStartsAfterTheCursor(outboxes: seq<seq<Event>>, c: Cursor, limit: nat, sorted: seq<StreamEvent>)
    requires AllNumbered(outboxes) && Merged(outboxes, c, limit, sorted)
    ensures forall e :: e in sorted ==>
              e.shard < |outboxes| && e.event.sequence > if e.shard < |c| then c[e.shard] else 0
    ensures forall shard, i :: 0 <= shard < |outboxes| && 0 <= i < |outboxes[shard]| ==>
              var position := if shard < |c| then c[shard] else 0;
              position <= i < position + limit ==> StreamEvent(shard, outboxes[shard][i]) in sorted
  {
    hide InOrder;
    forall e | e in sorted
      ensures e.shard < |outboxes| && e.event.sequence > if e.shard < |c| then c[e.shard] else 0
    {
      assert WasFetched(outboxes, c, limit, e);
    }
    forall shard, i | 0 <= shard < |outboxes| && 0 <= i < |outboxes[shard]|
                      && (if shard < |c| then c[shard] else 0) <= i < (if shard < |c| then c[shard] else 0) + limit
      ensures StreamEvent(shard, outboxes[shard][i]) in sorted
    {
      assert Fetched(outboxes, c, limit, shard, i);
    }
  }

  lemma MergedIs(outboxes: seq<seq<Event>>, c: Cursor, limit: nat, events: seq<StreamEvent>, sorted: seq<StreamEvent>)
    requires InOrder(sorted) && forall e :: e in sorted <==> e in events
    requires forall e :: e in events ==> WasFetched(outboxes, c, limit, e)
    requires forall k, i :: Fetched(outboxes, c, limit, k, i) ==> StreamEvent(k, outboxes[k][i]) in events
    ensures Merged(outboxes, c, limit, sorted)
  {
    assert forall n :: 0 <= n < |sorted| ==> sorted[n] in events;
  }

  lemma JoinUnique(events: seq<StreamEvent>, more: seq<StreamEvent>, shard: nat)
    requires Unique(events) && forall e :: e in events ==> e.shard < shard
    requires forall i :: 0 <= i < |more| ==> more[i].shard == shard
    requires forall i, j :: 0 <= i < j < |more| ==> more[i].event.sequence != more[j].event.sequence
    ensures Unique(events + more)
  {
    var all := events + more;
    forall i, j | 0 <= i < j < |all|
      ensures all[i].shard != all[j].shard || all[i].event.sequence != all[j].event.sequence
    {
      if i < |events| <= j { assert events[i] in events; }
    }
  }

  // ---- what a page delivers ----

  /** The events of one shard, in the order a page lists them. */
  function OfShard(page: seq<StreamEvent>, shard: nat): (events: seq<Event>)
  {
    if page == [] then []
    else OfShard(page[..|page| - 1], shard)
         + (if page[|page| - 1].shard == shard then [page[|page| - 1].event] else [])
  }

  /** Times do not go back along a shard. */
  predicate TimesAscend(outbox: seq<Event>)
  {
    forall i, j :: 0 <= i < j < |outbox| ==> outbox[i].createdAtUs <= outbox[j].createdAtUs
  }

  lemma {:induction false} OfShardHolds(page: seq<StreamEvent>, shard: nat, n: nat)
    requires n < |page| && page[n].shard == shard
    ensures page[n].event in OfShard(page, shard)
  {
    if n < |page| - 1 {
      assert page[..|page| - 1][n] == page[n];
      OfShardHolds(page[..|page| - 1], shard, n);
    }
  }

  /** Where times do not go back, any page takes from each shard the next events, in
      order and without a gap, however it is cut. */
  lemma {:induction false} PageHasNoGap(outboxes: seq<seq<Event>>, c: Cursor, limit: nat, sorted: seq<StreamEvent>,
                                        n: nat, shard: nat)
    requires AllNumbered(outboxes) && Merged(outboxes, c, limit, sorted) && n <= |sorted|
    requires shard < |outboxes| && TimesAscend(outboxes[shard]) && Position(c, shard) <= |outboxes[shard]|
    ensures var taken, position := OfShard(sorted[..n], shard), Position(c, shard);
            position + |taken| <= |outboxes[shard]| && taken == outboxes[shard][position..position + |taken|]
  {
    hide Merged, AllNumbered, TimesAscend;
    if n > 0 {
      PageHasNoGap(outboxes, c, limit, sorted, n - 1, shard);
      assert sorted[..n][..n - 1] == sorted[..n - 1];
      if sorted[n - 1].shard == shard {
        NextInShard(outboxes, c, limit, sorted, n - 1, shard);
      }
    }
  }

  /** The next event a page takes from a shard is the shard's next event. */
  lemma NextInShard(outboxes: seq<seq<Event>>, c: Cursor, limit: nat, sorted: seq<StreamEvent>, n: nat, shard: nat)
    requires AllNumbered(outboxes) && Merged(outboxes, c, limit, sorted) && n < |sorted|
    requires shard < |outboxes| && TimesAscend(outboxes[shard]) && sorted[n].shard == shard
    requires var taken, position := OfShard(sorted[..n], shard), Position(c, shard);
             position + |taken| <= |outboxes[shard]| && taken == outboxes[shard][position..position + |taken|]
    ensures var next := Position(c, shard) + |OfShard(sorted[..n], shard)|;
            next < |outboxes[shard]| && sorted[n].event == outboxes[shard][next]
  {
    var box, position, taken := outboxes[shard], Position(c, shard), OfShard(sorted[..n], shard);
    var next := position + |taken|;
    assert WasFetched(outboxes, c, limit, sorted[n]);
    var i :| Fetched(outboxes, c, limit, shard, i) && sorted[n].event == box[i];
    if i < next {
      assert taken[i - position] == box[i];
      TakenEarlier(sorted, n, shard, box[i]);
    } else if i > next {
      assert Fetched(outboxes, c, limit, shard, next);
      var m :| 0 <= m < |sorted| && sorted[m] == StreamEvent(shard, box[next]);
      assert box[next].sequence == next + 1 && box[i].sequence == i + 1;
      assert box[next].createdAtUs <= box[i].createdAtUs;
      assert Earlier(sorted[m], sorted[n]) && !Earlier(sorted[n], sorted[m]);
      assert m < n;
      assert sorted[..n][m] == sorted[m];
      OfShardHolds(sorted[..n], shard, m);
    }
  }

  lemma {:induction false} OfShardFrom(page: seq<StreamEvent>, shard: nat, e: Event) returns (n: nat)
    requires e in OfShard(page, shard)
    ensures n < |page| && page[n] == StreamEvent(shard, e)
  {
    var last := |page| - 1;
    if page[last] == StreamEvent(shard, e) {
      n := last;
    } else {
      n := OfShardFrom(page[..last], shard, e);
    }
  }

  /** Nothing is taken twice. */
  lemma TakenEarlier(sorted: seq<StreamEvent>, n: nat, shard: nat, e: Event)
    requires InOrder(sorted) && n < |sorted| && sorted[n].shard == shard && e in OfShard(sorted[..n], shard)
    ensures sorted[n].event != e
  {
    var m := OfShardFrom(sorted[..n], shard, e);
    assert sorted[m] == StreamEvent(shard, e);
    assert Earlier(sorted[m], sorted[n]);
  }

  // ---- the cursor ----

  function CursorAfter(c: Cursor, page: seq<StreamEvent>): (next: Cursor)
    ensures |next| == |c|
    ensures forall k :: 0 <= k < |c| ==> next[k] == Highest(OfShard(page, k), c[k])
  {
    seq(|c|, k requires 0 <= k < |c| => Highest(OfShard(page, k), c[k]))
  }

  /** `StreamCursor.advanced`: per shard, the highest sequence seen. */
  method Advanced(c: Cursor, page: seq<StreamEvent>) returns (next: Cursor)
    ensures next == CursorAfter(c, page)
  {
    next := c;
    for n := 0 to |page|
      invariant |next| == |c|
      invariant forall k :: 0 <= k < |c| ==> next[k] == Highest(OfShard(page[..n], k), c[k])
    {
      assert page[..n + 1][..n] == page[..n];
      var e := page[n];
      if e.shard < |next| && e.event.sequence > next[e.shard] {
        next := next[e.shard := e.event.sequence];
      }
      forall k | 0 <= k < |c|
        ensures next[k] == Highest(OfShard(page[..n + 1], k), c[k])
      {
        if e.shard == k {
          var before := OfShard(page[..n], k);
          assert (before + [e.event])[..|before|] == before;
        } else {
          assert OfShard(page[..n], k) + [] == OfShard(page[..n], k);
        }
      }
    }
    assert page[..|page|] == page;
  }

  function Highest(events: seq<Event>, start: nat): (p: nat)
  {
    if events == [] then start
    else
      var rest, e := Highest(events[..|events| - 1], start), events[|events| - 1];
      if e.sequence > rest then e.sequence else rest
  }

  lemma {:induction false} HighestOfSlice(outbox: seq<Event>, position: nat, count: nat)
    requires Numbered(outbox) && position + count <= |outbox|
    ensures Highest(outbox[position..position + count], position) == position + count
  {
    if count > 0 {
      HighestOfSlice(outbox, position, count - 1);
      assert outbox[position..position + count][..count - 1] == outbox[position..position + count - 1];
    } else {
      assert outbox[position..position] == [];
    }
  }

  // ---- a consumer, over time ----

  /** The stream, the consumer's cursor, and what it has been handed per shard. */
  datatype Tail = Tail(outboxes: seq<seq<Event>>, cursor: Cursor, delivered: seq<seq<Event>>)

  ghost predicate Ready(t: Tail)
  {
    AllNumbered(t.outboxes) && |t.cursor| == |t.outboxes| == |t.delivered|
  }

  /** The consumer has been handed exactly the shard's events up to the cursor, in order
      and each once. */
  predicate UpToCursor(t: Tail, k: nat)
  {
    k < |t.outboxes| == |t.cursor| == |t.delivered|
    && t.cursor[k] <= |t.outboxes[k]| && t.delivered[k] == t.outboxes[k][..t.cursor[k]]
  }

  /** The consumer after a page. */
  function Handed(t: Tail, page: seq<StreamEvent>): (t': Tail)
  {
    Tail(t.outboxes, CursorAfter(t.cursor, page),
         seq(|t.delivered|, k requires 0 <= k < |t.delivered| => t.delivered[k] + OfShard(page, k)))
  }

  function CutTo(sorted: seq<StreamEvent>, limit: nat): (page: seq<StreamEvent>)
  {
    if |sorted| <= limit then sorted else sorted[..limit]
  }

  /** A page that this read returns. */
  ghost predicate PageOf(t: Tail, limit: nat, page: seq<StreamEvent>)
  {
    exists sorted :: Merged(t.outboxes, t.cursor, limit, sorted) && page == CutTo(sorted, limit)
  }

  /** Where times do not go back, a page continues a shard where the cursor stopped. */
  lemma PageContinues(t: Tail, limit: nat, page: seq<StreamEvent>, k: nat)
    requires Ready(t) && UpToCursor(t, k) && TimesAscend(t.outboxes[k]) && PageOf(t, limit, page)
    ensures UpToCursor(Handed(t, page), k)
    ensures Handed(t, page).cursor[k] == t.cursor[k] + |OfShard(page, k)|
  {
    hide Merged, Highest, OfShard, AllNumbered, TimesAscend;
    var sorted :| Merged(t.outboxes, t.cursor, limit, sorted) && page == CutTo(sorted, limit);
    assert page == sorted[..|page|];
    PageHasNoGap(t.outboxes, t.cursor, limit, sorted, |page|, k);
    OneIsNumbered(t.outboxes, k);
    HighestOfSlice(t.outboxes[k], t.cursor[k], |OfShard(page, k)|);
  }

  lemma OneIsNumbered(outboxes: seq<seq<Event>>, k: nat)
    requires AllNumbered(outboxes) && k < |outboxes|
    ensures Numbered(outboxes[k])
  {
  }

  /** An event left behind: the cursor is past it and it was not handed over. */
  predicate Lost(t: Tail, k: nat, i: nat)
  {
    k < |t.outboxes| == |t.cursor| == |t.delivered|
    && i < t.cursor[k] && i < |t.outboxes[k]| && t.outboxes[k][i] !in t.delivered[k]
  }

  /** A page holds events above the cursor only. */
  lemma PageIsAboveTheCursor(t: Tail, limit: nat, page: seq<StreamEvent>, k: nat, e: Event)
    requires Ready(t) && k < |t.outboxes| && PageOf(t, limit, page) && e in OfShard(page, k)
    ensures e.sequence > t.cursor[k]
  {
    hide InOrder, OfShard;
    var sorted :| Merged(t.outboxes, t.cursor, limit, sorted) && page == CutTo(sorted, limit);
    var n := OfShardFrom(page, k, e);
    assert WasFetched(t.outboxes, t.cursor, limit, sorted[n]);
    var j :| Fetched(t.outboxes, t.cursor, limit, k, j) && e == t.outboxes[k][j];
  }

  /** What is left behind is never delivered. */
  lemma LostStaysLost(t: Tail, limit: nat, page: seq<StreamEvent>, k: nat, i: nat)
    requires Ready(t) && Lost(t, k, i) && PageOf(t, limit, page)
    ensures Lost(Handed(t, page), k, i)
  {
    hide PageOf, Highest, OfShard;
    forall e | e in OfShard(page, k)
      ensures e.sequence > t.cursor[k]
    {
      PageIsAboveTheCursor(t, limit, page, k, e);
    }
    assert t.outboxes[k][i].sequence == i + 1;
    HighestGrows(OfShard(page, k), t.cursor[k]);
  }

  lemma {:induction false} HighestGrows(events: seq<Event>, start: nat)
    ensures Highest(events, start) >= start
  {
    if events != [] { HighestGrows(events[..|events| - 1], start); }
  }

  lemma SomethingIsFetched(t: Tail, limit: nat, page: seq<StreamEvent>, k: nat)
    requires Ready(t) && PageOf(t, limit, page) && limit > 0
    requires k < |t.outboxes| && t.cursor[k] < |t.outboxes[k]|
    ensures page != []
  {
    hide InOrder;
    assert Fetched(t.outboxes, t.cursor, limit, k, t.cursor[k]);
  }

  /** One read by the consumer. Whatever the limit, and whatever happened to the other
      shards, what it is handed continues every shard whose times do not go back; with a
      limit of at least one it is handed something as long as anything is left; and what
      it has missed it does not get any more. */
  method Consume(t: Tail, limit: nat) returns (t': Tail, page: seq<StreamEvent>)
    requires Ready(t)
    ensures PageOf(t, limit, page) && t' == Handed(t, page) && Ready(t')
    ensures |page| <= limit && forall e :: e in page ==> e.shard < |t.outboxes|
    ensures forall k: nat :: k < |t.outboxes| && UpToCursor(t, k) && TimesAscend(t.outboxes[k]) ==>
              UpToCursor(t', k) && t'.cursor[k] == t.cursor[k] + |OfShard(page, k)|
    ensures forall k: nat, i: nat :: Lost(t, k, i) ==> Lost(t', k, i)
    ensures limit > 0 && (exists k :: 0 <= k < |t.outboxes| && t.cursor[k] < |t.outboxes[k]|) ==> page != []
  {
    hide Merged, AllNumbered, TimesAscend, Highest, OfShard, UpToCursor, Lost;
    ghost var sorted;
    page, sorted := ReadEvents(t.outboxes, t.cursor, limit);
    assert page == CutTo(sorted, limit);
    var next := Advanced(t.cursor, page);
    var delivered := seq(|t.delivered|, k requires 0 <= k < |t.delivered| => t.delivered[k] + OfShard(page, k));
    t' := Tail(t.outboxes, next, delivered);
    forall k: nat | k < |t.outboxes| && UpToCursor(t, k) && TimesAscend(t.outboxes[k])
      ensures UpToCursor(t', k) && t'.cursor[k] == t.cursor[k] + |OfShard(page, k)|
    {
      PageContinues(t, limit, page, k);
    }
    forall k: nat, i: nat | Lost(t, k, i)
      ensures Lost(t', k, i)
    {
      LostStaysLost(t, limit, page, k, i);
    }
    if limit > 0 && exists k :: 0 <= k < |t.outboxes| && t.cursor[k] < |t.outboxes[k]| {
      ghost var k :| 0 <= k < |t.outboxes| && t.cursor[k] < |t.outboxes[k]|;
      SomethingIsFetched(t, limit, page, k);
    }
  }

  /** What arrives between two reads, at any time. */
  datatype Arrival = Arrival(shard: nat, pk: EnvId, payload: Payload, atUs: int)

  /** Committing one arrival: an event at the end of its shard. */
  function Arrive(t: Tail, a: Arrival): (t': Tail)
  {
    if a.shard < |t.outboxes| then
      var box := t.outboxes[a.shard];
      t.(outboxes := t.outboxes[a.shard := box + [Event(|box| + 1, a.pk, a.payload, a.atUs)]])
    else t
  }

  /** The consumer is where it should be on every shard whose times do not go back. */
  ghost predicate FollowsAll(t: Tail)
  {
    forall k: nat :: k < |t.outboxes| && TimesAscend(t.outboxes[k]) ==> UpToCursor(t, k)
  }

  /** Shards only grow, and what has been lost stays so. */
  ghost predicate LaterThan(t: Tail, t': Tail)
  {
    && |t'.outboxes| == |t.outboxes|
    && (forall k :: 0 <= k < |t.outboxes| ==> t.outboxes[k] <= t'.outboxes[k])
    && forall k: nat, i: nat :: Lost(t, k, i) ==> Lost(t', k, i)
  }

  lemma ArriveKeeps(t: Tail, a: Arrival)
    requires Ready(t)
    ensures Ready(Arrive(t, a)) && LaterThan(t, Arrive(t, a))
    ensures FollowsAll(t) ==> FollowsAll(Arrive(t, a))
  {
    var t' := Arrive(t, a);
    forall k: nat | FollowsAll(t) && k < |t'.outboxes| && TimesAscend(t'.outboxes[k])
      ensures UpToCursor(t', k)
    {
      if t' != t && k == a.shard {
        AscendBefore(t.outboxes[k], t'.outboxes[k][|t.outboxes[k]|]);
        assert t'.outboxes[k][..t.cursor[k]] == t.outboxes[k][..t.cursor[k]];
      }
    }
  }

  lemma AscendBefore(box: seq<Event>, e: Event)
    requires TimesAscend(box + [e])
    ensures TimesAscend(box)
  {
    forall i, j | 0 <= i < j < |box|
      ensures box[i].createdAtUs <= box[j].createdAtUs
    {
      assert (box + [e])[i].createdAtUs <= (box + [e])[j].createdAtUs;
    }
  }

  /** A consumer that keeps reading while events keep arriving, with any limits: on every
      shard whose times never went back it has been handed exactly the events up to its
      cursor; on any shard, what it once missed it never gets. */
  method Follow(t: Tail, rounds: seq<(seq<Arrival>, nat)>) returns (t': Tail)
    requires Ready(t)
    ensures Ready(t') && LaterThan(t, t')
    ensures FollowsAll(t) ==> FollowsAll(t')
  {
    hide TimesAscend, AllNumbered, UpToCursor, Lost;
    t' := t;
    for r := 0 to |rounds|
      invariant Ready(t') && LaterThan(t, t')
      invariant FollowsAll(t) ==> FollowsAll(t')
    {
      var (arrivals, limit) := rounds[r];
      t' := ArriveAll(t', arrivals);
      var page;
      t', page := Consume(t', limit);
    }
  }

  method ArriveAll(t: Tail, arrivals: seq<Arrival>) returns (t': Tail)
    requires Ready(t)
    ensures Ready(t') && LaterThan(t, t') && t'.cursor == t.cursor && t'.delivered == t.delivered
    ensures FollowsAll(t) ==> FollowsAll(t')
  {
    hide Ready, Lost, FollowsAll;
    t' := t;
    for i := 0 to |arrivals|
      invariant Ready(t') && LaterThan(t, t') && t'.cursor == t.cursor && t'.delivered == t.delivered
      invariant FollowsAll(t) ==> FollowsAll(t')
    {
      ArriveKeeps(t', arrivals[i]);
      t' := Arrive(t', arrivals[i]);
    }
  }

  // ---- draining ----

  /** Every shard's times ascend, and every shard is delivered up to the cursor. */
  ghost predicate Sound(t: Tail)
  {
    Ready(t) && forall k: nat :: k < |t.outboxes| ==> TimesAscend(t.outboxes[k]) && UpToCursor(t, k)
  }

  /** How many events are still to be delivered. */
  function Left(t: Tail, shards: nat): (n: nat)
    requires |t.cursor| == |t.outboxes| && shards <= |t.outboxes|
    requires forall k :: 0 <= k < |t.cursor| ==> t.cursor[k] <= |t.outboxes[k]|
  {
    if shards == 0 then 0 else Left(t, shards - 1) + |t.outboxes[shards - 1]| - t.cursor[shards - 1]
  }

  lemma {:induction false} LessIsLeft(t: Tail, t': Tail, shards: nat)
    requires Sound(t) && Sound(t') && t'.outboxes == t.outboxes && shards <= |t.outboxes|
    requires forall k :: 0 <= k < shards ==> t.cursor[k] <= t'.cursor[k]
    ensures Left(t', shards) <= Left(t, shards)
    ensures (exists k :: 0 <= k < shards && t.cursor[k] < t'.cursor[k]) ==> Left(t', shards) < Left(t, shards)
  {
    if shards > 0 {
      LessIsLeft(t, t', shards - 1);
    }
  }

  /** Reading until a page comes back empty hands over everything there is. */
  method Drain(t: Tail, limit: nat) returns (t': Tail)
    requires Sound(t) && limit > 0
    ensures Sound(t') && t'.outboxes == t.outboxes && t'.delivered == t.outboxes
  {
    hide TimesAscend, AllNumbered, Left;
    t' := t;
    var page: seq<StreamEvent> := [];
    while true
      invariant Sound(t') && t'.outboxes == t.outboxes
      decreases Left(t', |t'.outboxes|)
    {
      var next;
      next, page := Consume(t', limit);
      if page == [] {
        AllDelivered(t');
        return;
      }
      SomethingMoved(t', next, page);
      t' := next;
    }
  }

  lemma AllDelivered(t: Tail)
    requires Sound(t) && !exists k :: 0 <= k < |t.outboxes| && t.cursor[k] < |t.outboxes[k]|
    ensures t.delivered == t.outboxes
  {
    forall k | 0 <= k < |t.outboxes|
      ensures t.delivered[k] == t.outboxes[k]
    {
      assert UpToCursor(t, k);
      assert t.outboxes[k][..|t.outboxes[k]|] == t.outboxes[k];
    }
  }

  lemma SomethingMoved(t: Tail, t': Tail, page: seq<StreamEvent>)
    requires Sound(t) && Sound(t') && t'.outboxes == t.outboxes && page != []
    requires forall e :: e in page ==> e.shard < |t.outboxes|
    requires forall k :: 0 <= k < |t.cursor| ==> t'.cursor[k] == t.cursor[k] + |OfShard(page, k)|
    ensures Left(t', |t'.outboxes|) < Left(t, |t.outboxes|)
  {
    assert page[0] in page;
    OfShardHolds(page, page[0].shard, 0);
    assert t.cursor[page[0].shard] < t'.cursor[page[0].shard];
    LessIsLeft(t, t', |t.outboxes|);
  }

  // ---- when times go back ----

  /** Whatever the other shards hold, whatever cursor and limit it comes with, a consumer
      that is up to date with this shard is so after the next page. */
  ghost predicate NeverSkips(box: seq<Event>)
  {
    forall t: Tail, k: nat, limit: nat, page: seq<StreamEvent>
      {:trigger UpToCursor(Handed(t, page), k), PageOf(t, limit, page)} ::
      Ready(t) && UpToCursor(t, k) && t.outboxes[k] == box && PageOf(t, limit, page) ==> UpToCursor(Handed(t, page), k)
  }

  /** Exactly when no page can skip an event of a shard: its times do not go back. */
  lemma NeverSkipsIff(box: seq<Event>)
    requires Numbered(box)
    ensures NeverSkips(box) <==> TimesAscend(box)
  {
    hide Ready, PageOf, Handed, Numbered;
    if TimesAscend(box) {
      forall t: Tail, k: nat, limit: nat, page: seq<StreamEvent>
        | Ready(t) && UpToCursor(t, k) && t.outboxes[k] == box && PageOf(t, limit, page)
        ensures UpToCursor(Handed(t, page), k)
      {
        PageContinues(t, limit, page, k);
      }
    } else {
      var i := StepBack(box);
      SkipsAnEvent(box, i);
      assert !UpToCursor(Handed(Behind(box, i), SkippingPage(box, i)), 0);
    }
  }

  lemma StepBack(box: seq<Event>) returns (i: nat)
    requires !TimesAscend(box)
    ensures i + 1 < |box| && box[i].createdAtUs > box[i + 1].createdAtUs
  {
    var a, b :| 0 <= a < b < |box| && box[a].createdAtUs > box[b].createdAtUs;
    i := a;
    while box[i].createdAtUs <= box[i + 1].createdAtUs
      invariant a <= i < b && box[i].createdAtUs >= box[a].createdAtUs
      decreases b - i
    {
      i := i + 1;
    }
  }

  /** One event of another shard, stamped when the shard's time went back. */
  function Other(box: seq<Event>, i: nat): (e: Event)
    requires i + 1 < |box|
  {
    box[i + 1].(sequence := 1)
  }

  /** A consumer up to date with everything before event `i`. */
  function Behind(box: seq<Event>, i: nat): (t: Tail)
    requires i + 1 < |box|
  {
    Tail([box, [Other(box, i)]], [i, 0], [box[..i], []])
  }

  function SkippingPage(box: seq<Event>, i: nat): (page: seq<StreamEvent>)
    requires i + 1 < |box|
  {
    [StreamEvent(0, box[i + 1]), StreamEvent(1, Other(box, i))]
  }

  /** Of that page, the shard is handed the one event, and the cursor moves past it. */
  lemma SkippingPageHands(box: seq<Event>, i: nat)
    requires i + 1 < |box| && box[i + 1].sequence == i + 2
    ensures OfShard(SkippingPage(box, i), 0) == [box[i + 1]]
    ensures Highest([box[i + 1]], i) == i + 2
  {
    var page := SkippingPage(box, i);
    assert page[..1] == [StreamEvent(0, box[i + 1])] && page[..1][..0] == [];
    assert OfShard(page[..1], 0) == [box[i + 1]];
    assert [box[i + 1]][..0] == [];
  }

  /** In any shard, an event stamped before its predecessor: a page of two takes it and
      the other shard's event, the cursor moves past the predecessor, and that is lost. */
  lemma SkipsAnEvent(box: seq<Event>, i: nat)
    requires Numbered(box) && i + 1 < |box| && box[i].createdAtUs > box[i + 1].createdAtUs
    ensures var t, page := Behind(box, i), SkippingPage(box, i);
            && Ready(t) && UpToCursor(t, 0) && PageOf(t, 2, page)
            && !UpToCursor(Handed(t, page), 0) && Lost(Handed(t, page), 0, i)
  {
    hide OfShard, Highest, PageOf, Merged, SkippingPage, AllNumbered;
    var t, page := Behind(box, i), SkippingPage(box, i);
    SkippingPageIsRead(box, i);
    SkippingPageHands(box, i);
    var t' := Handed(t, page);
    assert t'.cursor[0] == i + 2 && t'.delivered[0] == box[..i] + [box[i + 1]];
    assert |t'.delivered[0]| == i + 1;
    NotAmong(box, i);
  }

  lemma NotAmong(box: seq<Event>, i: nat)
    requires Numbered(box) && i + 1 < |box|
    ensures box[i] !in box[..i] + [box[i + 1]]
  {
    assert box[i].sequence == i + 1 && box[i + 1].sequence == i + 2;
    forall j | 0 <= j < i
      ensures box[j] != box[i]
    {
      assert box[j].sequence == j + 1;
    }
  }

  lemma SkippingPageIsRead(box: seq<Event>, i: nat)
    requires Numbered(box) && i + 1 < |box| && box[i].createdAtUs > box[i + 1].createdAtUs
    ensures PageOf(Behind(box, i), 2, SkippingPage(box, i)) && Ready(Behind(box, i))
  {
    var t, page := Behind(box, i), SkippingPage(box, i);
    var sorted := page + [StreamEvent(0, box[i])];
    assert Fetched(t.outboxes, t.cursor, 2, 0, i + 1);
    assert Fetched(t.outboxes, t.cursor, 2, 1, 0);
    assert Fetched(t.outboxes, t.cursor, 2, 0, i);
    forall shard, j | Fetched(t.outboxes, t.cursor, 2, shard, j)
      ensures StreamEvent(shard, t.outboxes[shard][j]) in sorted
    {
      assert sorted[0] in sorted && sorted[1] in sorted && sorted[2] in sorted;
      assert shard == 0 || shard == 1;
    }
    assert Merged(t.outboxes, t.cursor, 2, sorted);
    assert page == CutTo(sorted, 2);
  }
}
