/** The metadata store (src/meta/store.py). */
module MetaStore {
  // Conditioned writes to items of one partition, all or none, with the change stream
  // written in the same transaction. Keys are the key grammar of src/meta/keys.py and
  // bodies the records stored under them, as far as the ref protocol uses them.

  import opened Model

  type EnvId = string

  type RefName = string

  /** What a caller asked for, as far as its fingerprint tells requests apart. */
  type Request = string

  datatype Sk =
    | EnvKey
    | SeqKey
    | RefKey(name: RefName)
    | OpKey(sequence: int)
    | ChangeKey(change: string)
    | IdemKey(key: string)

  datatype Key = Key(pk: EnvId, sk: Sk)

  datatype OpKind = CreateRef | UpdateRef | DeleteRef | Undo

  datatype OpEntry = OpEntry(sequence: int, kind: OpKind, name: RefName, before: Option<Name>, after: Option<Name>)

  datatype Body =
    | EnvBody
    | Counter(next: int)
    | Ref(target: Name, generation: int)
    | Op(entry: OpEntry)
    | Change(commits: seq<Name>)
    | Idempotency(request: Request, sequence: int)

  datatype Item = Item(body: Body, version: nat, generation: Option<int>, createdAtUs: int, updatedAtUs: int)

  datatype Condition = Absent | VersionIs(version: int) | GenerationIs(generation: int)

  /** What a ref event tells its readers. */
  datatype Payload = Payload(name: RefName, before: Option<Name>, after: Option<Name>, opSequence: int)

  datatype WriteOp =
    | Put(key: Key, body: Body, condition: Option<Condition>, generation: Option<int>)
    | Delete(key: Key, condition: Option<Condition>)
    | Emit(pk: EnvId, payload: Payload)
  {
    function Partition(): (pk: EnvId) {
      if Emit? then pk else key.pk
    }
  }

  datatype Event = Event(sequence: nat, pk: EnvId, payload: Payload, createdAtUs: int)

  /** One shard: its items, and the outbox that numbers its events from 1. */
  datatype Rows = Rows(items: map<Key, Item>, outbox: seq<Event>)

  datatype Applied = Done(rows: Rows) | Conflict(key: Key)

  // ---- what a transaction does ----

  function Existing(rows: Rows, key: Key): (item: Option<Item>)
  {
    if key in rows.items then Some(rows.items[key]) else None
  }

  /** `_require`. A missing item has no version and no generation. */
  predicate Holds(condition: Option<Condition>, existing: Option<Item>)
  {
    match condition
    case None => true
    case Some(Absent) => existing.None?
    case Some(VersionIs(v)) => existing.Some? && existing.value.version == v
    case Some(GenerationIs(g)) => existing.Some? && existing.value.generation == Some(g)
  }

  /** `_apply`. */
  function ApplyOne(rows: Rows, w: WriteOp, now: int): (r: Applied)
  {
    match w
    case Emit(pk, payload) =>
      Done(rows.(outbox := rows.outbox + [Event(|rows.outbox| + 1, pk, payload, now)]))
    case Delete(key, condition) =>
      if !Holds(condition, Existing(rows, key)) then Conflict(key)
      else Done(rows.(items := rows.items - {key}))
    case Put(key, body, condition, generation) =>
      var existing := Existing(rows, key);
      if !Holds(condition, existing) then Conflict(key)
      else
        Done(rows.(items := rows.items[key :=
          Item(body, if existing.Some? then existing.value.version + 1 else 1, generation,
               if existing.Some? then existing.value.createdAtUs else now, now)]))
  }

  /** The writes in order; the first condition that fails decides. */
  function ApplyAll(rows: Rows, writes: seq<WriteOp>, now: int): (r: Applied)
    decreases |writes|
  {
    if writes == [] then Done(rows)
    else
      match ApplyOne(rows, writes[0], now)
      case Conflict(key) => Conflict(key)
      case Done(next) => ApplyAll(next, writes[1..], now)
  }

  /** Going on with more writes after some have been applied. */
  function Continue(r: Applied, rest: seq<WriteOp>, now: int): (whole: Applied)
  {
    if r.Conflict? then r else ApplyAll(r.rows, rest, now)
  }

  lemma ApplyFirst(rows: Rows, w: WriteOp, rest: seq<WriteOp>, now: int)
    ensures ApplyAll(rows, [w] + rest, now) == Continue(ApplyOne(rows, w, now), rest, now)
  {
    assert ([w] + rest)[1..] == rest;
  }

  lemma {:induction false} ApplyAllInTurn(rows: Rows, a: seq<WriteOp>, b: seq<WriteOp>, now: int)
    ensures ApplyAll(rows, a + b, now) == Continue(ApplyAll(rows, a, now), b, now)
    decreases |a|
  {
    if a == [] {
      assert a + b == b;
    } else {
      assert (a + b)[1..] == a[1..] + b;
      if ApplyOne(rows, a[0], now).Done? {
        ApplyAllInTurn(ApplyOne(rows, a[0], now).rows, a[1..], b, now);
      }
    }
  }

  predicate OnePartition(writes: seq<WriteOp>)
  {
    forall i, j :: 0 <= i < j < |writes| ==> writes[i].Partition() == writes[j].Partition()
  }

  /** The events of one partition, in the order they were published. */
  function EventsOf(outbox: seq<Event>, pk: EnvId): (events: seq<Event>)
  {
    if outbox == [] then []
    else EventsOf(outbox[..|outbox| - 1], pk)
         + (if outbox[|outbox| - 1].pk == pk then [outbox[|outbox| - 1]] else [])
  }

  /** A transaction changes nothing outside its partition: not an item, not an event. */
  lemma {:induction false} TransactionStaysInItsPartition(rows: Rows, writes: seq<WriteOp>, now: int, pk: EnvId)
    requires forall i :: 0 <= i < |writes| ==> writes[i].Partition() != pk
    requires ApplyAll(rows, writes, now).Done?
    ensures var after := ApplyAll(rows, writes, now).rows;
            && (forall sk :: Existing(after, Key(pk, sk)) == Existing(rows, Key(pk, sk)))
            && EventsOf(after.outbox, pk) == EventsOf(rows.outbox, pk)
    decreases |writes|
  {
    if writes != [] {
      var next := ApplyOne(rows, writes[0], now).rows;
      assert writes[0].Partition() != pk;
      if writes[0].Emit? {
        assert next.outbox[..|next.outbox| - 1] == rows.outbox;
      }
      TransactionStaysInItsPartition(next, writes[1..], now, pk);
    }
  }

  /** The outbox numbers its events 1, 2, 3, … */
  predicate Numbered(outbox: seq<Event>)
  {
    forall i :: 0 <= i < |outbox| ==> outbox[i].sequence == i + 1
  }

  lemma {:induction false} NumbersStayDense(rows: Rows, writes: seq<WriteOp>, now: int)
    requires Numbered(rows.outbox) && ApplyAll(rows, writes, now).Done?
    ensures rows.outbox <= ApplyAll(rows, writes, now).rows.outbox
    ensures Numbered(ApplyAll(rows, writes, now).rows.outbox)
    decreases |writes|
  {
    if writes != [] {
      NumbersStayDense(ApplyOne(rows, writes[0], now).rows, writes[1..], now);
    }
  }

  // ---- what one transaction leaves of one item, and of the outbox ----

  predicate IsPutTo(w: WriteOp, key: Key)
  {
    w.Put? && w.key == key
  }

  function PutsTo(writes: seq<WriteOp>, key: Key): (count: nat)
  {
    if writes == [] then 0
    else (if IsPutTo(writes[0], key) then 1 else 0) + PutsTo(writes[1..], key)
  }

  /** An item that a transaction puts and does not delete: its version grew by the number of
      puts, from 0 if it is new; it holds what the last of them says; and it keeps the time
      it was created at. */
  lemma {:induction false} PutsAreCounted(rows: Rows, writes: seq<WriteOp>, now: int, key: Key)
    requires ApplyAll(rows, writes, now).Done?
    requires forall i :: 0 <= i < |writes| ==> !(writes[i].Delete? && writes[i].key == key)
    ensures var before, after := Existing(rows, key), Existing(ApplyAll(rows, writes, now).rows, key);
            && (PutsTo(writes, key) == 0 ==> after == before)
            && (PutsTo(writes, key) > 0 ==>
                  && after.Some?
                  && after.value.version == (if before.Some? then before.value.version else 0) + PutsTo(writes, key)
                  && after.value.createdAtUs == (if before.Some? then before.value.createdAtUs else now)
                  && after.value.updatedAtUs == now
                  && exists i :: 0 <= i < |writes| && IsPutTo(writes[i], key)
                                 && after.value.body == writes[i].body && after.value.generation == writes[i].generation
                                 && forall j :: i < j < |writes| ==> !IsPutTo(writes[j], key))
    decreases |writes|
  {
    if writes != [] {
      var next := ApplyOne(rows, writes[0], now).rows;
      var rest := writes[1..];
      assert forall i :: 0 <= i < |rest| ==> rest[i] == writes[i + 1];
      PutsAreCounted(next, rest, now, key);
      if PutsTo(rest, key) > 0 {
        var i :| && 0 <= i < |rest| && IsPutTo(rest[i], key)
                 && Existing(ApplyAll(next, rest, now).rows, key).value.body == rest[i].body
                 && Existing(ApplyAll(next, rest, now).rows, key).value.generation == rest[i].generation
                 && forall j :: i < j < |rest| ==> !IsPutTo(rest[j], key);
        assert IsPutTo(writes[i + 1], key);
        assert forall j :: i + 1 < j < |writes| ==> writes[j] == rest[j - 1];
      } else {
        NoPutsTo(rest, key);
        assert forall j :: 0 < j < |writes| ==> writes[j] == rest[j - 1];
      }
    }
  }

  lemma {:induction false} NoPutsTo(writes: seq<WriteOp>, key: Key)
    requires PutsTo(writes, key) == 0
    ensures forall i :: 0 <= i < |writes| ==> !IsPutTo(writes[i], key)
  {
    if writes != [] {
      NoPutsTo(writes[1..], key);
      assert forall i :: 0 < i < |writes| ==> writes[i] == writes[1..][i - 1];
    }
  }

  /** What a transaction publishes: its `Emit`s in order, at the time of the transaction,
      numbered on from where the outbox stood. */
  function Emits(writes: seq<WriteOp>): (emits: seq<WriteOp>)
    ensures forall i :: 0 <= i < |emits| ==> emits[i].Emit?
  {
    if writes == [] then [] else (if writes[0].Emit? then [writes[0]] else []) + Emits(writes[1..])
  }

  lemma {:induction false} EventsAreTheEmits(rows: Rows, writes: seq<WriteOp>, now: int)
    requires ApplyAll(rows, writes, now).Done?
    ensures var outbox, emits := ApplyAll(rows, writes, now).rows.outbox, Emits(writes);
            && |outbox| == |rows.outbox| + |emits| && rows.outbox <= outbox
            && forall i :: 0 <= i < |emits| ==>
                 outbox[|rows.outbox| + i] == Event(|rows.outbox| + i + 1, emits[i].pk, emits[i].payload, now)
    decreases |writes|
  {
    if writes != [] {
      var next := ApplyOne(rows, writes[0], now).rows;
      EventsAreTheEmits(next, writes[1..], now);
    }
  }

  // ---- the store ----

  datatype TxResult = Committed | Refused(key: Key) | SpansPartitions

  class MetadataStore {
    const shardOf: EnvId -> nat
    var shards: seq<Rows>

    constructor (shardCount: nat, shardOf: EnvId -> nat)
      requires shardCount > 0 && forall pk :: shardOf(pk) < shardCount
      ensures Valid() && this.shardOf == shardOf && |shards| == shardCount
      ensures forall i :: 0 <= i < shardCount ==> shards[i] == Rows(map[], [])
    {
      this.shardOf := shardOf;
      shards := seq(shardCount, i => Rows(map[], []));
    }

    /** Every partition has its shard, and every outbox is numbered densely. */
    ghost predicate Valid()
      reads this
    {
      && |shards| > 0
      && (forall pk :: shardOf(pk) < |shards|)
      && forall i :: 0 <= i < |shards| ==> Numbered(shards[i].outbox)
    }

    /** `get`. */
    method Get(key: Key) returns (item: Option<Item>)
      requires Valid()
      ensures item == Existing(shards[shardOf(key.pk)], key)
    {
      item := Existing(shards[shardOf(key.pk)], key);
    }

    /** `transact_write`: apply every write, or none. A refusal names the first condition
        that failed, judged inside the transaction. */
    method TransactWrite(writes: seq<WriteOp>, now: int) returns (r: TxResult)
      requires Valid()
      modifies this
      ensures Valid() && |shards| == old(|shards|)
      ensures r == SpansPartitions <==> !OnePartition(writes)
      ensures r != Committed ==> shards == old(shards)
      ensures r != SpansPartitions && writes != [] ==>
                var s := shardOf(writes[0].Partition());
                match ApplyAll(old(shards[s]), writes, now)
                case Conflict(key) => r == Refused(key)
                case Done(rows) => r == Committed && shards == old(shards)[s := rows]
      ensures writes == [] ==> r == Committed && shards == old(shards)
    {
      if writes == [] {
        return Committed;
      }
      var pk := writes[0].Partition();
      var spans := exists i :: 0 <= i < |writes| && writes[i].Partition() != pk;
      if spans {
        return SpansPartitions;
      }
      var s, saved := shardOf(pk), shards;
      for i := 0 to |writes|
        invariant |shards| == |saved| && shards == saved[s := shards[s]]
        invariant ApplyAll(saved[s], writes, now) == ApplyAll(shards[s], writes[i..], now)
      {
        var step := ApplyOne(shards[s], writes[i], now);
        assert writes[i..][1..] == writes[i + 1..];
        if step.Conflict? {
          shards := saved;
          return Refused(step.key);
        }
        shards := shards[s := step.rows];
      }
      NumbersStayDense(saved[s], writes, now);
      r := Committed;
    }
  }

  /** Whatever a transaction does to its own environment, every other one keeps its items
      and its events. */
  method OthersAreUntouched(store: MetadataStore, writes: seq<WriteOp>, now: int, other: EnvId, sk: Sk)
    returns (r: TxResult)
    requires store.Valid()
    requires forall i :: 0 <= i < |writes| ==> writes[i].Partition() != other
    modifies store
    ensures store.Valid()
    ensures var s := store.shardOf(other);
            && Existing(store.shards[s], Key(other, sk)) == old(Existing(store.shards[s], Key(other, sk)))
            && EventsOf(store.shards[s].outbox, other) == old(EventsOf(store.shards[s].outbox, other))
  {
    ghost var before := store.shards;
    r := store.TransactWrite(writes, now);
    if r == Committed && writes != [] {
      var s := store.shardOf(writes[0].Partition());
      TransactionStaysInItsPartition(before[s], writes, now, other);
    }
  }
}
