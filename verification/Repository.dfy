/** The repository's mutations as they are written (src/meta/repository.py), against the
    metadata store. Other clients commit whatever they like between any two accesses. */
module Repository {
  import opened Model
  import opened MetaStore
  import opened RefProtocol
  import opened RefGuarantees

  /** What other clients commit before each access this client makes. */
  type Interference = seq<seq<Move>>

  function Before(others: Interference, access: nat): (moves: seq<Move>)
  {
    if access < |others| then others[access] else []
  }

  /** The access after the last one of the retry loop. */
  const READ_BACK: nat := 3 * COUNTER_RETRIES + 1

  predicate ByOthers(others: Interference, m: Move)
  {
    exists i :: 0 <= i < |others| && m in others[i]
  }

  /** Reads that hold still hold when others have committed: either nothing was
      committed, or the version read is no longer the current one. */
  lemma ReadsStillHold(history: seq<Move>, longer: seq<Move>, m: Move, sequence: int, version: int, seen: seq<Name>)
    requires history <= longer && ReadsHold(history, m, sequence, version, seen)
    ensures ReadsHold(longer, m, sequence, version, seen)
  {
    if |longer| == |history| { assert longer == history; }
  }

  /** The committed move does what the call asked for. */
  predicate Carries(m: Move, call: Call)
  {
    && m.name == call.name && m.key == call.key && m.request == call.request
    && match call
       case CallCreate(_, target, change, _, _) =>
         && m.kind == CreateRef && m.before == None && m.after == Some(target) && m.generation == 1
         && m.condition == Absent && m.change == change
       case CallUpdate(_, expected, target, kind, change, _, _) =>
         && m.kind == kind && m.before.Some? && m.after == Some(target)
         && m.condition == GenerationIs(expected) && m.change == change
       case CallDelete(_, expected, _, _) =>
         m.kind == DeleteRef && m.before.Some? && m.after == None && m.condition == GenerationIs(expected)
  }

  function TargetAfter(history: seq<Move>, name: RefName): (target: Option<Name>)
  {
    if RefAfter(history, name).Some? then Some(RefAfter(history, name).value.0) else None
  }

  lemma LastMoveDecides(history: seq<Move>, sequence: int, name: RefName)
    requires 1 <= sequence <= |history| && history[sequence - 1].name == name
    ensures TargetAfter(history[..sequence], name) == history[sequence - 1].after
  {
    assert history[..sequence][sequence - 1] == history[sequence - 1];
  }

  // ---- when a move must go through ----

  /** The same of a call: a creation expects no ref, the others the generation they pass. */
  predicate CallMeets(history: seq<Move>, call: Call)
  {
    var ref := RefAfter(history, call.name);
    if call.CallCreate? then ref.None? else ref.Some? && ref.value.1 == call.expected
  }

  /** Others commit nothing. */
  predicate Quiet(others: Interference)
  {
    forall i :: 0 <= i < |others| ==> others[i] == []
  }

  /** With others quiet a history grows by this client's own move at most. */
  lemma QuietAddsOne(others: Interference, before: seq<Move>, after: seq<Move>)
    requires Quiet(others) && before <= after
    requires forall i :: |before| <= i < |after| - 1 ==> ByOthers(others, after[i])
    ensures |after| <= |before| + 1
    ensures |after| == |before| + 1 ==> after == before + [after[|before|]]
  {
  }

  lemma QuietAddsNothing(others: Interference, before: seq<Move>, after: seq<Move>)
    requires Quiet(others) && before <= after
    requires forall i :: |before| <= i < |after| ==> ByOthers(others, after[i])
    ensures after == before
  {
    QuietAddsOne(others, before, after);
  }

  predicate CallFailsBetween(before: seq<Move>, after: seq<Move>, call: Call)
  {
    exists k :: |before| <= k <= |after| && !CallMeets(after[..k], call)
  }

  /** A prepared move expects what its call expects. */
  lemma PreparedMeets(env: EnvId, rows: Rows, call: Call, before: seq<Move>, after: seq<Move>)
    requires Prepare(env, rows, call).Prepared?
    ensures var m := Prepare(env, rows, call).move;
            && Carries(m, call) && (m.after.Some? <==> !call.CallDelete?)
            && m.name == call.name && m.key == call.key && m.request == call.request
            && (Meets(before, m) <==> CallMeets(before, call))
            && (FailsSince(|before|, after, m) ==> CallFailsBetween(before, after, call))
  {
    hide RefAfter;
  }

  /** What the first read refuses: a ref that is not there, and a tag that would move. */
  lemma FirstReadStops(env: EnvId, rows: Rows, call: Call, history: seq<Move>)
    requires RowsFollow(env, rows, history)
    ensures var c, gone := Prepare(env, rows, call), RefAfter(history, call.name).None?;
            && (c.Prepared? || c.Stopped?)
            && (c == Stopped(call, Missing) <==> !call.CallCreate? && gone)
            && (c == Stopped(call, Frozen) <==>
                  call.CallUpdate? && !gone && |call.name| >= 10 && call.name[..10] == "refs/tags/")
            && (c.Stopped? ==> c == Stopped(call, Missing) || c == Stopped(call, Frozen))
            && (IsTag(call.name) <==> |call.name| >= 10 && call.name[..10] == "refs/tags/")
  {
    hide RefAfter, RowsFollow;
    RefIsReplayed(env, rows, history, call.name);
  }

  /** Between two histories the ref is at some point not what it was. */
  predicate ChangesBetween(before: seq<Move>, after: seq<Move>, name: RefName)
  {
    exists k :: |before| <= k <= |after| && RefAfter(after[..k], name) != RefAfter(before, name)
  }

  /** A call that expects what a ref was can fail only once the ref has changed. */
  lemma FailsOnlyOnChange(before: seq<Move>, mid: seq<Move>, after: seq<Move>, call: Call)
    requires |before| <= |mid| <= |after| && CallMeets(before, call) && CallFailsBetween(mid, after, call)
    ensures ChangesBetween(before, after, call.name)
  {
    hide RefAfter;
    var k :| |mid| <= k <= |after| && !CallMeets(after[..k], call);
    assert RefAfter(after[..k], call.name) != RefAfter(before, call.name);
  }

  /** Undoing a creation needs the ref to be there; a tag that is there cannot be moved. */
  predicate CanUndo(history: seq<Move>, undone: Move)
  {
    var ref := RefAfter(history, undone.name);
    if undone.before.None? then ref.Some? else ref.None? || !IsTag(undone.name)
  }

  lemma RefIsReplayed(env: EnvId, rows: Rows, history: seq<Move>, name: RefName)
    requires RowsFollow(env, rows, history)
    ensures RefAt(env, rows, name) == RefAfter(history, name)
  {
    hide RefAfter, CounterFollows, LogFollows, ChangesFollow, KeysFollow, EventsFollow;
  }

  /** What `undo` calls: a deletion, a creation or an update, or nothing when the ref it
      would delete is gone. */
  function UndoCall(entry: OpEntry, current: Option<(Name, int)>, key: Option<string>, request: Request)
    : (call: Option<Call>)
  {
    if entry.before.None? then
      if current.None? then None else Some(CallDelete(entry.name, current.value.1, key, request))
    else if current.None? then Some(CallCreate(entry.name, entry.before.value, None, key, request))
    else Some(CallUpdate(entry.name, current.value.1, entry.before.value, Undo, None, key, request))
  }

  lemma UndoExpectsTheRef(history: seq<Move>, undone: Move, sequence: int, key: Option<string>, request: Request)
    ensures var call := UndoCall(EntryOf(undone, sequence), RefAfter(history, undone.name), key, request);
            && (call.None? ==> !CanUndo(history, undone))
            && (call.Some? ==>
                  && CallMeets(history, call.value) && call.value.key == key && call.value.name == undone.name
                  && (CanUndo(history, undone) <==> !(call.value.CallUpdate? && IsTag(undone.name))))
  {
    hide RefAfter;
  }

  class Repository {
    const env: EnvId
    const store: MetadataStore
    /** The moves committed so far, in order. */
    ghost var history: seq<Move>

    constructor (env: EnvId, store: MetadataStore, now: int)
      requires store.Valid() && Existing(store.shards[store.shardOf(env)], Key(env, SeqKey)).None?
      requires forall sk :: Existing(store.shards[store.shardOf(env)], Key(env, sk)).None?
      requires EventsOf(store.shards[store.shardOf(env)].outbox, env) == []
      modifies store
      ensures Valid() && history == [] && this.env == env && this.store == store
    {
      this.env, this.store, history := env, store, [];
      new;
      var r := store.TransactWrite([Put(Key(env, EnvKey), EnvBody, Some(Absent), None),
                                    Put(Key(env, SeqKey), Counter(1), Some(Absent), None)], now);
      NewEnvironment(env, old(store.shards[store.shardOf(env)]), now);
    }

    function CurrentRows(): (rows: Rows)
      requires store.Valid()
      reads store
    {
      store.shards[store.shardOf(env)]
    }

    ghost predicate Valid()
      reads this, store
    {
      store.Valid() && RowsFollow(env, CurrentRows(), history)
    }

    /** One transaction, on reads that hold: the next move, or nothing. */
    method TryCommit(m: Move, sequence: int, version: int, seen: seq<Name>, now: int) returns (r: TxResult)
      requires Valid() && ReadsHold(history, m, sequence, version, seen)
      modifies this`history, store
      ensures Valid()
      ensures r == Committed ==> history == old(history) + [m] && sequence == |history|
      ensures r != Committed ==> history == old(history) && r.Refused?
      ensures r.Refused? && r.key.sk == SeqKey ==> version <= |history|
      ensures r.Refused? && r.key.sk != SeqKey ==> !Meets(history, m) || Used(history, m.key)
    {
      hide RowsFollow, ReadsHold, ApplyAll, Meets, Used;
      var writes := Writes(env, m, sequence, version, seen);
      ghost var rows := CurrentRows();
      r := store.TransactWrite(writes, now);
      if r == Committed {
        CommitKeepsRows(env, rows, history, m, sequence, version, seen, now);
        history := history + [m];
      } else {
        RefusalMeans(env, rows, history, m, sequence, version, seen, now);
      }
    }

    /** Other clients' commits, each as if it happened at once: by the protocol's
        invariant that is what every committed transaction amounts to. */
    method Others(moves: seq<Move>, now: int)
      requires Valid()
      modifies this`history, store
      ensures Valid() && old(history) <= history
      ensures forall i :: |old(history)| <= i < |history| ==> history[i] in moves
    {
      hide RowsFollow;
      for k := 0 to |moves|
        invariant Valid() && old(history) <= history
        invariant forall i :: |old(history)| <= i < |history| ==> history[i] in moves
      {
        CounterRead(env, CurrentRows(), history, moves[k], 0);
        ChangeRead(env, CurrentRows(), history, moves[k]);
        var c := ReadCounter(env, CurrentRows(), moves[k], 0);
        var seen := ReadChange(env, CurrentRows(), moves[k]);
        var r := TryCommit(moves[k], c.sequence, c.version, seen, now);
      }
    }

    /** `_replay`. */
    method RecordedOutcome(m: Move) returns (recorded: Option<Answer>)
      requires Valid() && m.key.Some?
      ensures recorded.None? ==> forall i :: 0 <= i < |history| ==> history[i].key != m.key
      ensures recorded.Some? ==> ClientFollows(Finished(m, recorded.value), history)
      ensures recorded.Some? ==> recorded.value.Replayed? || recorded.value.Mismatch?
    {
      var item := store.Get(Key(env, IdemKey(m.key.value)));
      if item.None? {
        return None;
      }
      recorded := Some(if item.value.body.request == m.request then Replayed(item.value.body.sequence) else Mismatch);
      assert history[item.value.body.sequence - 1].key == m.key;
    }

    /** `_commit_with_counter`. Whatever others do in between, the move is applied at most
        once, an answer names the transaction that carried it, and a failure has applied
        nothing. A conflict is reported only if the ref was at some point not what the move
        expects, contention only if others committed in every round; left alone, a move
        that meets its condition and whose key is new is the next operation. */
    method CommitWithCounter(m: Move, others: Interference, now: int) returns (outcome: Answer)
      requires Valid()
      modifies this`history, store
      ensures Valid() && old(history) <= history
      ensures ClientFollows(Finished(m, outcome), history)
      ensures outcome.Moved? ==> outcome.sequence > |old(history)|
      ensures outcome.Moved? || outcome.Replayed? || outcome in {Mismatch, Conflicted, Contended}
      ensures m.key.None? ==> !outcome.Replayed? && outcome != Mismatch
      ensures forall i :: |old(history)| <= i < |history| ==>
                ByOthers(others, history[i]) || (outcome.Moved? && i == outcome.sequence - 1)
      ensures Used(old(history), m.key) ==> outcome.Replayed? || outcome == Mismatch
      ensures outcome == Conflicted ==> !Used(history, m.key)
      ensures outcome == Conflicted ==> FailsSince(|old(history)|, history, m)
      ensures outcome == Contended ==> |history| >= |old(history)| + 8
      ensures Quiet(others) && Meets(old(history), m) && !Used(old(history), m.key) ==>
                outcome == Moved(|old(history)| + 1) && history == old(history) + [m]
    {
      hide RowsFollow, ReadsHold, Meets, Quiet, ByOthers;
      if m.key.Some? {
        var recorded := RecordedOutcome(m);
        if recorded.Some? {
          return recorded.value;
        }
      }
      var access := 0;
      for attempt := 0 to COUNTER_RETRIES
        invariant Valid() && old(history) <= history && |history| >= |old(history)| + attempt
        invariant forall i :: |old(history)| <= i < |history| ==> ByOthers(others, history[i])
      {
        var r, sequence := Attempt(m, others, access, now);
        access := access + 3;
        if r == Committed {
          if Quiet(others) { QuietAddsOne(others, old(history), history); }
          return Moved(sequence);
        }
        if r.key.sk != SeqKey {
          ghost var found := history;
          if Quiet(others) { QuietAddsNothing(others, old(history), history); }
          if m.key.Some? {
            Interleave(others, access, now);
            var recorded := RecordedOutcome(m);
            if recorded.Some? {
              return recorded.value;
            }
          }
          assert history[..|found|] == found;
          return Conflicted;
        }
      }
      if Quiet(others) { QuietAddsNothing(others, old(history), history); }
      outcome := Contended;
    }

    /** One round of the retry loop: the counter is read, then the change record, then
        the transaction is tried; others may commit before each. */
    method Attempt(m: Move, others: Interference, access: nat, now: int) returns (r: TxResult, sequence: int)
      requires Valid()
      modifies this`history, store
      ensures Valid() && old(history) <= history
      ensures r == Committed || r.Refused?
      ensures r == Committed ==> |old(history)| < sequence == |history| && history[sequence - 1] == m
      ensures forall i :: |old(history)| <= i < |history| ==>
                ByOthers(others, history[i]) || (r == Committed && i == sequence - 1)
      ensures r.Refused? && r.key.sk == SeqKey ==> |old(history)| < |history|
      ensures r.Refused? && r.key.sk != SeqKey ==> !Meets(history, m) || Used(history, m.key)
    {
      hide RowsFollow, Meets, Used;
      Interleave(others, access, now);
      CounterRead(env, CurrentRows(), history, m, 0);
      var c := ReadCounter(env, CurrentRows(), m, 0);
      ghost var h1 := history;
      Interleave(others, access + 1, now);
      ChangeRead(env, CurrentRows(), history, m);
      var seen := ReadChange(env, CurrentRows(), m);
      ghost var h2 := history;
      assert ReadsHold(h2, m, c.sequence, c.version, seen);
      Interleave(others, access + 2, now);
      ReadsStillHold(h2, history, m, c.sequence, c.version, seen);
      sequence := c.sequence;
      r := TryCommit(m, c.sequence, c.version, seen, now);
    }

    /** A mutation from its first read on: what `create_ref`, `update_ref` and
        `delete_ref` share. A refusal at the first read commits nothing. A replayed
        creation or update reads the ref back, and is refused when it is gone: then the
        request has been applied all the same. */
    method Mutate(call: Call, others: Interference, now: int) returns (outcome: Answer)
      requires Valid()
      modifies this`history, store
      ensures Valid() && old(history) <= history
      ensures !call.CallCreate? && RefAfter(old(history), call.name).None? ==>
                outcome == Missing && history == old(history)
      ensures outcome == Missing && (call.CallCreate? || RefAfter(old(history), call.name).Some?) ==>
                !call.CallDelete? && RefAfter(history, call.name).None? && Recorded(history, call)
      ensures outcome.Replayed? && !call.CallDelete? ==> RefAfter(history, call.name).Some?
      ensures outcome == Frozen <==> && call.CallUpdate? && RefAfter(old(history), call.name).Some?
                                     && |call.name| >= 10 && call.name[..10] == "refs/tags/"
      ensures outcome.Moved? ==>
                && |old(history)| < outcome.sequence <= |history|
                && Carries(history[outcome.sequence - 1], call)
      ensures Used(old(history), call.key) ==> outcome.Replayed? || outcome in {Mismatch, Missing, Frozen}
      ensures outcome == Mismatch ==>
                call.key.Some? && exists i :: 0 <= i < |history| && history[i].key == call.key
                                              && history[i].request != call.request
      ensures outcome.Replayed? ==>
                && call.key.Some? && 1 <= outcome.sequence <= |history|
                && history[outcome.sequence - 1].key == call.key
                && history[outcome.sequence - 1].request == call.request
      ensures forall i :: |old(history)| <= i < |history| ==>
                ByOthers(others, history[i]) || (outcome.Moved? && i == outcome.sequence - 1)
      ensures outcome == Conflicted ==> !Used(history, call.key) && CallFailsBetween(old(history), history, call)
      ensures outcome == Contended ==> |history| >= |old(history)| + 8
      ensures Quiet(others) && CallMeets(old(history), call) && !Used(old(history), call.key)
              && !(call.CallUpdate? && IsTag(call.name)) ==>
                outcome == Moved(|old(history)| + 1) && |history| == |old(history)| + 1
    {
      hide ByOthers, RowsFollow, RefAfter, Prepare, IsTag, RefAt, Carries;
      hide Quiet, CallFailsBetween, FailsSince, Meets, Used;
      var c := Prepare(env, CurrentRows(), call);
      FirstReadStops(env, CurrentRows(), call, history);
      if c.Stopped? {
        return c.outcome;
      }
      outcome := CommitWithCounter(c.move, others, now);
      PreparedMeets(env, old(CurrentRows()), call, old(history), history);
      if outcome.Replayed? && !call.CallDelete? {
        ghost var applied, replayed := outcome.sequence - 1, history;
        Interleave(others, READ_BACK, now);
        assert history[applied] == replayed[applied];
        RefIsReplayed(env, CurrentRows(), history, call.name);
        if RefAt(env, CurrentRows(), call.name).None? {
          outcome := Missing;
        }
      }
    }

    /** `undo`: the ref goes back to where the entry found it, by an ordinary mutation
        that expects the generation the ref has when it is read. Undoing a creation
        reports the number of the operation undone, not of the deletion. */
    method UndoOperation(sequence: int, key: Option<string>, request: Request, others: Interference, between: seq<Move>,
                         now: int)
      returns (outcome: Answer, reported: int)
      requires Valid()
      modifies this`history, store
      ensures Valid() && old(history) <= history
      ensures !(1 <= sequence <= |old(history)|) ==> outcome == Missing && history == old(history)
      ensures outcome.Moved? ==>
                && 1 <= sequence <= |old(history)| < outcome.sequence <= |history|
                && var undone, m := old(history)[sequence - 1], history[outcome.sequence - 1];
                   && m.name == undone.name && m.after == undone.before
                   && TargetAfter(history[..outcome.sequence], undone.name) == undone.before
      ensures outcome.Moved? || outcome.Replayed? ==>
                && 1 <= sequence <= |old(history)|
                && reported == if old(history)[sequence - 1].before.None? then sequence else outcome.sequence
      ensures outcome == Conflicted ==>
                && 1 <= sequence <= |old(history)| && !Used(history, key)
                && ChangesBetween(old(history), history, old(history)[sequence - 1].name)
      ensures outcome == Contended ==> |history| >= |old(history)| + 8
      ensures between == [] && Quiet(others) && 1 <= sequence <= |old(history)| && !Used(old(history), key)
              && CanUndo(old(history), old(history)[sequence - 1]) ==>
                outcome == Moved(|old(history)| + 1) && |history| == |old(history)| + 1
    {
      hide RowsFollow, ByOthers, Quiet, CallFailsBetween, ChangesBetween, Used, RefAfter, CanUndo, CallMeets, IsTag;
      reported := 0;
      var entry := ReadEntry(sequence);
      if entry.None? {
        return Missing, 0;
      }
      var name := entry.value.name;
      var current := RefAt(env, CurrentRows(), name);
      RefIsReplayed(env, CurrentRows(), history, name);
      UndoExpectsTheRef(old(history), old(history)[sequence - 1], sequence, key, request);
      Others(between, now);
      ghost var called := history;
      assert |called| > |old(history)| ==> called[|old(history)|] in between;
      assert between == [] ==> called == old(history);
      var undoing := UndoCall(entry.value, current, key, request);
      if undoing.None? {
        return Missing, 0;
      }
      var call := undoing.value;
      outcome := Mutate(call, others, now);
      if outcome == Conflicted { FailsOnlyOnChange(old(history), called, history, call); }
      if outcome.Moved? {
        LastMoveDecides(history, outcome.sequence, name);
        reported := if entry.value.before.None? then sequence else outcome.sequence;
      } else if outcome.Replayed? {
        reported := if entry.value.before.None? then sequence else outcome.sequence;
      }
    }

    /** `_get_op`. */
    method ReadEntry(sequence: int) returns (entry: Option<OpEntry>)
      requires Valid()
      ensures entry == if 1 <= sequence <= |history| then Some(EntryOf(history[sequence - 1], sequence)) else None
    {
      entry := StoredEntry(env, CurrentRows(), sequence);
    }

    method Interleave(others: Interference, access: nat, now: int)
      requires Valid()
      modifies this`history, store
      ensures Valid() && old(history) <= history
      ensures forall i :: |old(history)| <= i < |history| ==> ByOthers(others, history[i])
    {
      Others(Before(others, access), now);
    }
  }

  lemma NewEnvironment(env: EnvId, rows: Rows, now: int)
    requires forall sk :: Existing(rows, Key(env, sk)).None?
    requires EventsOf(rows.outbox, env) == []
    ensures var writes := [Put(Key(env, EnvKey), EnvBody, Some(Absent), None),
                           Put(Key(env, SeqKey), Counter(1), Some(Absent), None)];
            ApplyAll(rows, writes, now).Done? && RowsFollow(env, ApplyAll(rows, writes, now).rows, [])
  {
    var w1, w2 := Put(Key(env, EnvKey), EnvBody, Some(Absent), None),
                  Put(Key(env, SeqKey), Counter(1), Some(Absent), None);
    assert [w1, w2] == [w1] + [w2];
    ApplyFirst(rows, w1, [w2], now);
    var r1 := ApplyOne(rows, w1, now).rows;
    assert [w2][1..] == [];
    var r2 := ApplyOne(r1, w2, now).rows;
    assert ApplyAll(r1, [w2], now) == ApplyAll(r2, [], now) == Done(r2);
    assert ApplyAll(rows, [w1, w2], now) == Done(r2);
    OnlyTheCounter(env, rows, r2);
  }

  lemma OnlyTheCounter(env: EnvId, rows: Rows, after: Rows)
    requires forall sk :: sk != EnvKey && sk != SeqKey ==> Existing(after, Key(env, sk)).None?
    requires var item := Existing(after, Key(env, SeqKey));
             item.Some? && item.value.body == Counter(1) && item.value.version == 1
    requires EventsOf(after.outbox, env) == []
    ensures RowsFollow(env, after, [])
  {
    hide Existing;
  }
}
