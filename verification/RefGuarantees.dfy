/** What callers of the repository can rely on, read off any reachable state of the ref
    protocol (src/meta/repository.py): the log, the change records, keys and retries, and
    calls that nobody disturbs. */
module RefGuarantees {
  import opened Model
  import opened MetaStore
  import opened RefProtocol

  /** A state some run reaches from a fresh environment. */
  ghost predicate Reachable(env: EnvId, s: System)
  {
    exists now, actions :: s == Run(env, Created(env, now), actions)
  }

  lemma ReachableIsConsistent(env: EnvId, s: System)
    requires Reachable(env, s)
    ensures Consistent(env, s)
  {
    var now, actions :| s == Run(env, Created(env, now), actions);
    CreatedIsConsistent(env, now);
    RunKeeps(env, Created(env, now), actions);
  }

  // ---- the operation log ----

  /** The entry stored at a sequence number. */
  function StoredEntry(env: EnvId, rows: Rows, k: int): (entry: Option<OpEntry>)
  {
    match Existing(rows, Key(env, OpKey(k)))
    case Some(Item(Op(entry), _, _, _, _)) => Some(entry)
    case _ => None
  }

  function StoredNext(env: EnvId, rows: Rows): (next: int)
  {
    match Existing(rows, Key(env, SeqKey))
    case Some(Item(Counter(next), _, _, _, _)) => next
    case _ => 0
  }

  /** The target the stored log gives a ref, replaying its `after` values up to `k`. */
  function ReplayedTarget(env: EnvId, rows: Rows, k: int, name: RefName): (target: Option<Name>)
    decreases k
  {
    if k <= 0 then None
    else
      match StoredEntry(env, rows, k)
      case Some(entry) => if entry.name == name then entry.after else ReplayedTarget(env, rows, k - 1, name)
      case None => None
  }

  /** The target the stored ref has. */
  function StoredTarget(env: EnvId, rows: Rows, name: RefName): (target: Option<Name>)
  {
    match RefAt(env, rows, name)
    case Some((target, _)) => Some(target)
    case None => None
  }

  lemma {:induction false} ReplayIsRefAfter(env: EnvId, rows: Rows, history: seq<Move>, k: nat, name: RefName)
    requires LogFollows(env, rows, history) && k <= |history|
    ensures ReplayedTarget(env, rows, k, name) ==
            if RefAfter(history[..k], name).Some? then Some(RefAfter(history[..k], name).value.0) else None
  {
    if k > 0 {
      ReplayIsRefAfter(env, rows, history, k - 1, name);
      assert history[..k][..k - 1] == history[..k - 1];
    }
  }

  /** In every reachable state the operations stored are exactly 1, 2, …, next - 1, each
      under its own number and with what the move of that number did; replaying them gives
      exactly the stored refs; and the environment's events say the same in the same order. */
  lemma LogIsDenseAndReplays(env: EnvId, s: System)
    requires Reachable(env, s)
    ensures StoredNext(env, s.rows) == |s.history| + 1
    ensures forall k :: (StoredEntry(env, s.rows, k).Some? <==> 1 <= k < StoredNext(env, s.rows))
                        && (StoredEntry(env, s.rows, k).Some? ==> StoredEntry(env, s.rows, k).value.sequence == k)
    ensures forall name :: StoredTarget(env, s.rows, name)
              == ReplayedTarget(env, s.rows, StoredNext(env, s.rows) - 1, name)
    ensures var events := EventsOf(s.rows.outbox, env);
            && |events| == StoredNext(env, s.rows) - 1
            && |events| == |s.history|
            && forall k :: 0 <= k < |events| ==>
                 var m := s.history[k];
                 && StoredEntry(env, s.rows, k + 1) == Some(OpEntry(k + 1, m.kind, m.name, m.before, m.after))
                 && events[k].payload == Payload(m.name, m.before, m.after, k + 1)
  {
    ReachableIsConsistent(env, s);
    assert s.history[..|s.history|] == s.history;
    forall name
      ensures StoredTarget(env, s.rows, name) == ReplayedTarget(env, s.rows, StoredNext(env, s.rows) - 1, name)
    {
      ReplayIsRefAfter(env, s.rows, s.history, |s.history|, name);
    }
  }

  // ---- change records ----

  function StoredChange(env: EnvId, rows: Rows, change: string): (commits: seq<Name>)
  {
    match Existing(rows, Key(env, ChangeKey(change)))
    case Some(Item(Change(commits), _, _, _, _)) => commits
    case _ => []
  }

  /** No update of a change record is lost, although its write carries no condition: the
      list is exactly the targets committed under the change, newest first. */
  lemma ChangesLoseNothing(env: EnvId, s: System, change: string)
    requires Reachable(env, s)
    ensures StoredChange(env, s.rows, change) == ChangeAfter(s.history, change)
    ensures |StoredChange(env, s.rows, change)| ==
            |set i | 0 <= i < |s.history| && s.history[i].change == Some(change) && s.history[i].after.Some?|
  {
    ReachableIsConsistent(env, s);
    ChangeCounts(s.history, change);
  }

  lemma {:induction false} ChangeCounts(history: seq<Move>, change: string)
    ensures |ChangeAfter(history, change)| ==
            |set i | 0 <= i < |history| && history[i].change == Some(change) && history[i].after.Some?|
  {
    if history != [] {
      var n := |history| - 1;
      var front := history[..n];
      ChangeCounts(front, change);
      OneMoreMember(history, change);
    }
  }

  lemma OneMoreMember(history: seq<Move>, change: string)
    requires history != []
    ensures var n := |history| - 1;
            var front := history[..n];
            |set i | 0 <= i < |history| && history[i].change == Some(change) && history[i].after.Some?|
            == |set i | 0 <= i < |front| && front[i].change == Some(change) && front[i].after.Some?|
               + (if history[n].change == Some(change) && history[n].after.Some? then 1 else 0)
  {
    var n := |history| - 1;
    var front := history[..n];
    var all := set i | 0 <= i < |history| && history[i].change == Some(change) && history[i].after.Some?;
    var early := set i | 0 <= i < |front| && front[i].change == Some(change) && front[i].after.Some?;
    if history[n].change == Some(change) && history[n].after.Some? {
      assert all == early + {n};
    } else {
      assert all == early;
    }
  }

  // ---- idempotency keys ----

  /** At most one transaction carrying a key ever commits. */
  lemma KeyCommitsOnce(env: EnvId, s: System, i: nat, j: nat)
    requires Reachable(env, s) && i < |s.history| && j < |s.history|
    requires s.history[i].key.Some? && s.history[i].key == s.history[j].key
    ensures i == j
  {
    ReachableIsConsistent(env, s);
  }

  predicate Answered(c: Client, sequence: int)
  {
    c.Finished? && (c.outcome == Moved(sequence) || c.outcome == Replayed(sequence))
  }

  /** Every call with a key and request that is answered, the first or a retry, is
      answered with the one transaction that carried them. */
  lemma SameKeySameAnswer(env: EnvId, s: System, a: ClientId, b: ClientId, x: int, y: int)
    requires Reachable(env, s) && a in s.clients && b in s.clients
    requires Answered(s.clients[a], x) && Answered(s.clients[b], y)
    requires s.clients[a].move.key.Some? && s.clients[a].move.key == s.clients[b].move.key
    ensures x == y && 1 <= x <= |s.history|
    ensures s.history[x - 1].key == s.clients[a].move.key && s.history[x - 1].request == s.clients[a].move.request
    ensures s.clients[a].move.request == s.clients[b].move.request
  {
    ReachableIsConsistent(env, s);
    assert ClientFollows(s.clients[a], s.history) && ClientFollows(s.clients[b], s.history);
  }

  /** A request refused because its key was used for another one was never applied. */
  lemma MismatchedRequestIsNeverApplied(env: EnvId, s: System, id: ClientId, i: nat)
    requires Reachable(env, s) && id in s.clients && i < |s.history|
    requires s.clients[id].Finished? && s.clients[id].outcome == Mismatch
    ensures s.clients[id].move.key.Some?
    ensures s.history[i].key == s.clients[id].move.key ==> s.history[i].request != s.clients[id].move.request
  {
    ReachableIsConsistent(env, s);
    assert ClientFollows(s.clients[id], s.history);
  }

  // ---- the log never changes ----

  lemma {:induction false} RunExtendsHistory(env: EnvId, s: System, actions: seq<Action>)
    ensures s.history <= Run(env, s, actions).history
    decreases |actions|
  {
    hide ApplyAll, Writes;
    if actions != [] {
      RunExtendsHistory(env, Act(env, s, actions[0]), actions[1..]);
    }
  }

  // ---- a call nobody disturbs ----

  /** Everything a transaction is conditioned on. */
  predicate Allowed(env: EnvId, rows: Rows, m: Move, sequence: int, version: int)
  {
    && Holds(Some(m.condition), Existing(rows, Key(env, RefKey(m.name))))
    && Holds(Some(VersionIs(version)), Existing(rows, Key(env, SeqKey)))
    && Existing(rows, Key(env, OpKey(sequence))).None?
    && (m.key.Some? ==> Existing(rows, Key(env, IdemKey(m.key.value))).None?)
  }

  /** When every condition holds the transaction goes through. */
  lemma AllowedCommits(env: EnvId, rows: Rows, m: Move, sequence: int, version: int, seen: seq<Name>, now: int)
    requires Allowed(env, rows, m, sequence, version)
    ensures ApplyAll(rows, Writes(env, m, sequence, version, seen), now).Done?
  {
    hide ApplyAll, Writes;
    var w1, w2, w3 := RefWrite(env, m), CounterWrite(env, sequence, version), OpWrite(env, m, sequence);
    var w4, w5, w6 := ChangeWrite(env, m, seen), Emit(env, PayloadOf(m, sequence)), KeyWrite(env, m, sequence);
    assert Writes(env, m, sequence, version, seen) == [w1] + ([w2] + ([w3] + (w4 + ([w5] + w6)))) by {
      WritesAre(env, m, sequence, version, seen);
    }
    ApplyFirst(rows, w1, [w2] + ([w3] + (w4 + ([w5] + w6))), now);
    OneWrite(rows, w1, now);
    var r1 := ApplyOne(rows, w1, now).rows;
    ApplyFirst(r1, w2, [w3] + (w4 + ([w5] + w6)), now);
    OneWrite(r1, w2, now);
    var r2 := ApplyOne(r1, w2, now).rows;
    ApplyFirst(r2, w3, w4 + ([w5] + w6), now);
    OneWrite(r2, w3, now);
    var r3 := ApplyOne(r2, w3, now).rows;
    LastWrites(env, r3, m, sequence, seen, now);
  }

  lemma {:induction false} RefusalNamesAWrite(rows: Rows, writes: seq<WriteOp>, now: int)
    requires ApplyAll(rows, writes, now).Conflict?
    ensures exists i :: 0 <= i < |writes| && !writes[i].Emit? && writes[i].key == ApplyAll(rows, writes, now).key
    decreases |writes|
  {
    if ApplyOne(rows, writes[0], now).Done? {
      var next := ApplyOne(rows, writes[0], now).rows;
      RefusalNamesAWrite(next, writes[1..], now);
      var i :| 0 <= i < |writes[1..]| && !writes[1..][i].Emit? && writes[1..][i].key == ApplyAll(rows, writes, now).key;
      assert writes[i + 1] == writes[1..][i];
    }
  }

  /** What a refusal tells: the counter is named exactly when the ref is as expected and
      the counter is not what was read; otherwise the ref is not as expected, or the
      operation or the key is there already. */
  lemma RefusalTells(env: EnvId, rows: Rows, m: Move, sequence: int, version: int, seen: seq<Name>, now: int)
    requires ApplyAll(rows, Writes(env, m, sequence, version, seen), now).Conflict?
    ensures var named := ApplyAll(rows, Writes(env, m, sequence, version, seen), now).key.sk;
            var refHolds := Holds(Some(m.condition), Existing(rows, Key(env, RefKey(m.name))));
            var counterHolds := Holds(Some(VersionIs(version)), Existing(rows, Key(env, SeqKey)));
            && (named == SeqKey <==> refHolds && !counterHolds)
            && (refHolds && counterHolds ==>
                  Existing(rows, Key(env, OpKey(sequence))).Some?
                  || (m.key.Some? && Existing(rows, Key(env, IdemKey(m.key.value))).Some?))
  {
    hide ApplyAll, Writes;
    var w1, w2 := RefWrite(env, m), CounterWrite(env, sequence, version);
    var later := [OpWrite(env, m, sequence)]
                 + (ChangeWrite(env, m, seen) + ([Emit(env, PayloadOf(m, sequence))] + KeyWrite(env, m, sequence)));
    WritesAre(env, m, sequence, version, seen);
    ApplyFirst(rows, w1, [w2] + later, now);
    if Holds(Some(m.condition), Existing(rows, Key(env, RefKey(m.name)))) {
      OneWrite(rows, w1, now);
      var r1 := ApplyOne(rows, w1, now).rows;
      ApplyFirst(r1, w2, later, now);
      if Holds(Some(VersionIs(version)), Existing(rows, Key(env, SeqKey))) {
        OneWrite(r1, w2, now);
        RefusalNamesAWrite(ApplyOne(r1, w2, now).rows, later, now);
        assert forall i :: 0 <= i < |later| && !later[i].Emit? ==> later[i].key.sk != SeqKey;
        if Existing(rows, Key(env, OpKey(sequence))).None?
           && (m.key.Some? ==> Existing(rows, Key(env, IdemKey(m.key.value))).None?) {
          AllowedCommits(env, rows, m, sequence, version, seen, now);
        }
      }
    }
  }

  // ---- when a refusal is deserved ----

  /** The ref, as the committed moves leave it, is what the move expects. No call expects
      a version of a ref. */
  predicate Meets(history: seq<Move>, m: Move)
  {
    match m.condition
    case Absent => RefAfter(history, m.name).None?
    case GenerationIs(g) => RefAfter(history, m.name).Some? && RefAfter(history, m.name).value.1 == g
    case VersionIs(_) => false
  }

  predicate Used(history: seq<Move>, key: Option<string>)
  {
    key.Some? && exists i :: 0 <= i < |history| && history[i].key == key
  }

  /** At some point since the history had `start` moves, the move's condition failed. */
  predicate FailsSince(start: nat, history: seq<Move>, m: Move)
  {
    exists k :: start <= k <= |history| && !Meets(history[..k], m)
  }

  lemma MeetsIffHolds(env: EnvId, rows: Rows, history: seq<Move>, m: Move)
    requires RowsFollow(env, rows, history) && !m.condition.VersionIs?
    ensures Holds(Some(m.condition), Existing(rows, Key(env, RefKey(m.name)))) <==> Meets(history, m)
  {
    hide RefAfter, CounterFollows, LogFollows, ChangesFollow, KeysFollow, EventsFollow;
  }

  /** A refused transaction that names the counter has been overtaken; one that names
      something else found the ref not as expected, or the key used. */
  lemma RefusalMeans(env: EnvId, rows: Rows, history: seq<Move>, m: Move, sequence: int, version: int, seen: seq<Name>,
                     now: int)
    requires RowsFollow(env, rows, history) && ReadsHold(history, m, sequence, version, seen)
    requires ApplyAll(rows, Writes(env, m, sequence, version, seen), now).Conflict?
    ensures ApplyAll(rows, Writes(env, m, sequence, version, seen), now).key.sk == SeqKey ==> version <= |history|
    ensures ApplyAll(rows, Writes(env, m, sequence, version, seen), now).key.sk != SeqKey ==>
              !Meets(history, m) || Used(history, m.key)
  {
    hide ApplyAll, Writes, RefAfter, RefsFollow, ChangesFollow, EventsFollow;
    RefusalTells(env, rows, m, sequence, version, seen, now);
    CounterIsNext(env, rows, history);
    if !m.condition.VersionIs? { MeetsIffHolds(env, rows, history, m); }
  }

  /** What a client that called when the history had `start` moves may be told: each round
      of the retry loop lost cost a commit by somebody else, and a conflict was one. */
  predicate FairTo(c: Client, start: nat, history: seq<Move>)
  {
    && |history| >= start
    && match c
       case Counting(_, attempts) => attempts < 8 && |history| >= start + attempts
       case Counted(_, attempts, _, version) => attempts < 8 && version > start + attempts
       case Built(_, attempts, _, version, _) => attempts < 8 && version > start + attempts
       case Rechecking(m) => FailsSince(start, history, m) || Used(history, m.key)
       case Finished(m, Conflicted) => FailsSince(start, history, m)
       case Finished(_, Contended) => |history| >= start + 8
       case _ => true
  }

  lemma FairStays(c: Client, start: nat, history: seq<Move>, m: Move)
    requires FairTo(c, start, history)
    ensures FairTo(c, start, history + [m])
  {
    hide Meets;
    var longer := history + [m];
    forall k | 0 <= k <= |history|
      ensures longer[..k] == history[..k]
    {
    }
    if c.Rechecking? && Used(history, c.move.key) {
      var i :| 0 <= i < |history| && history[i].key == c.move.key;
      assert longer[i] == history[i];
    }
  }

  lemma FairStep(env: EnvId, s: System, id: ClientId, now: int, start: nat)
    requires Consistent(env, s) && id in s.clients && FairTo(s.clients[id], start, s.history)
    ensures var after := ClientStep(env, s, id, now); FairTo(after.clients[id], start, after.history)
  {
    hide RowsFollow, ApplyAll, Writes, Meets, ReadChange, ReadCounter, AfterConflict, Existing, FailsSince, Used;
    match s.clients[id]
    case Counting(m, attempts) => CounterRead(env, s.rows, s.history, m, attempts);
    case Built(m, attempts, sequence, version, seen) =>
      if ApplyAll(s.rows, Writes(env, m, sequence, version, seen), now).Conflict? {
        RefusalMeans(env, s.rows, s.history, m, sequence, version, seen, now);
        FairRefusal(m, attempts, version, ApplyAll(s.rows, Writes(env, m, sequence, version, seen), now).key, start,
                    s.history);
      }
    case Rechecking(m) => if Used(s.history, m.key) { KeyIsRecorded(env, s.rows, s.history, m); }
    case _ =>
  }

  lemma FairRefusal(m: Move, attempts: nat, version: int, key: Key, start: nat, history: seq<Move>)
    requires attempts < 8 && version > start + attempts && |history| >= start
    requires if key.sk == SeqKey then version <= |history| else !Meets(history, m) || Used(history, m.key)
    ensures FairTo(AfterConflict(m, attempts, key), start, history)
  {
    hide Meets;
    assert history[..|history|] == history;
  }

  lemma KeyIsRecorded(env: EnvId, rows: Rows, history: seq<Move>, m: Move)
    requires RowsFollow(env, rows, history) && Used(history, m.key)
    ensures !Replay(env, rows, m, Finished(m, Conflicted)).Finished?
            || Replay(env, rows, m, Finished(m, Conflicted)).outcome != Conflicted
  {
    hide CounterFollows, LogFollows, RefsFollow, ChangesFollow, EventsFollow;
  }

  /** In any run, whatever others do: who is told of a conflict called for something the
      ref, since the call, was at some point not; who is told of contention was overtaken
      in every round. */
  lemma {:induction false} RefusalsAreFair(env: EnvId, s: System, actions: seq<Action>, id: ClientId, start: nat)
    requires Consistent(env, s) && id in s.clients && FairTo(s.clients[id], start, s.history)
    ensures var end := Run(env, s, actions);
            && Consistent(env, end) && id in end.clients && FairTo(end.clients[id], start, end.history)
    decreases |actions|
  {
    hide Consistent, FairTo, ClientStep;
    if actions != [] {
      FairAct(env, s, actions[0], id, start);
      RefusalsAreFair(env, Act(env, s, actions[0]), actions[1..], id, start);
    }
  }

  lemma FairAct(env: EnvId, s: System, a: Action, id: ClientId, start: nat)
    requires Consistent(env, s) && id in s.clients && FairTo(s.clients[id], start, s.history)
    ensures var next := Act(env, s, a);
            && Consistent(env, next) && id in next.clients && FairTo(next.clients[id], start, next.history)
  {
    hide RowsFollow, ApplyAll, Writes, Meets;
    ActKeeps(env, s, a);
    if a.Step? && a.client in s.clients {
      if a.client == id {
        FairStep(env, s, id, a.now, start);
      } else if s.clients[a.client].Built? {
        FairStays(s.clients[id], start, s.history, s.clients[a.client].move);
      }
    }
  }

  /** The same of a call, in plain words: a client that has just called, and then any run. */
  lemma RefusedCallsWereOvertaken(env: EnvId, s: System, id: ClientId, call: Call, actions: seq<Action>)
    requires Consistent(env, s) && id in s.clients && s.clients[id] == Called(call)
    ensures var end := Run(env, s, actions);
            id in end.clients && end.clients[id].Finished? ==>
              && (end.clients[id].outcome == Conflicted ==> FailsSince(|s.history|, end.history, end.clients[id].move))
              && (end.clients[id].outcome == Contended ==> |end.history| >= |s.history| + 8)
  {
    hide Run, Consistent, FailsSince;
    RefusalsAreFair(env, s, actions, id, |s.history|);
  }

  lemma WritesAre(env: EnvId, m: Move, sequence: int, version: int, seen: seq<Name>)
    ensures Writes(env, m, sequence, version, seen)
            == [RefWrite(env, m)] + ([CounterWrite(env, sequence, version)] + ([OpWrite(env, m, sequence)]
               + (ChangeWrite(env, m, seen) + ([Emit(env, PayloadOf(m, sequence))] + KeyWrite(env, m, sequence)))))
  {
  }

  lemma LastWrites(env: EnvId, r3: Rows, m: Move, sequence: int, seen: seq<Name>, now: int)
    requires m.key.Some? ==> Existing(r3, Key(env, IdemKey(m.key.value))).None?
    ensures var last := [Emit(env, PayloadOf(m, sequence))] + KeyWrite(env, m, sequence);
            ApplyAll(r3, ChangeWrite(env, m, seen) + last, now).Done?
  {
    var w4, w5, w6 := ChangeWrite(env, m, seen), Emit(env, PayloadOf(m, sequence)), KeyWrite(env, m, sequence);
    ApplyAllInTurn(r3, w4, [w5] + w6, now);
    assert w4 != [] ==> w4[1..] == [];
    MaybeWrite(r3, w4, now);
    var r4 := ApplyAll(r3, w4, now).rows;
    ApplyFirst(r4, w5, w6, now);
    OneWrite(r4, w5, now);
    var r5 := ApplyOne(r4, w5, now).rows;
    if w6 != [] {
      assert Existing(r5, w6[0].key).None?;
      assert w6[1..] == [];
      assert ApplyAll(r5, w6, now) == Continue(ApplyOne(r5, w6[0], now), [], now);
    }
  }

  /** `count` steps of one client, with nothing in between. */
  function Steps(env: EnvId, s: System, id: ClientId, now: int, count: nat): (s': System)
    decreases count
  {
    if count == 0 then s else Steps(env, Act(env, s, Step(id, now)), id, now, count - 1)
  }

  lemma {:induction false} StepsAreReachable(env: EnvId, s: System, id: ClientId, now: int, count: nat)
    requires Reachable(env, s)
    ensures Reachable(env, Steps(env, s, id, now, count))
    decreases count
  {
    if count > 0 {
      OneMoreAction(env, s, Step(id, now));
      StepsAreReachable(env, Act(env, s, Step(id, now)), id, now, count - 1);
    }
  }

  lemma OneMoreAction(env: EnvId, s: System, a: Action)
    requires Reachable(env, s)
    ensures Reachable(env, Act(env, s, a))
  {
    hide Act;
    var now, actions :| s == Run(env, Created(env, now), actions);
    RunOneMore(env, Created(env, now), actions, a);
    assert Act(env, s, a) == Run(env, Created(env, now), actions + [a]);
  }

  lemma {:induction false} RunOneMore(env: EnvId, s: System, actions: seq<Action>, a: Action)
    ensures Run(env, s, actions + [a]) == Act(env, Run(env, s, actions), a)
    decreases |actions|
  {
    hide Act;
    if actions == [] {
      assert actions + [a] == [a] && [a][1..] == [];
      assert Run(env, s, [a]) == Run(env, Act(env, s, a), []);
    } else {
      assert (actions + [a])[1..] == actions[1..] + [a];
      RunOneMore(env, Act(env, s, actions[0]), actions[1..], a);
    }
  }

  /** A prepared move whose condition holds, left alone, commits as the next operation. */
  lemma UndisturbedMoveCommits(env: EnvId, s: System, id: ClientId, m: Move, now: int)
    requires Consistent(env, s) && id in s.clients && s.clients[id] == Prepared(m)
    requires Holds(Some(m.condition), Existing(s.rows, Key(env, RefKey(m.name))))
    requires m.key.Some? ==> Existing(s.rows, Key(env, IdemKey(m.key.value))).None?
    ensures var after := Steps(env, s, id, now, 4);
            && after.history == s.history + [m]
            && after.clients == s.clients[id := Finished(m, Moved(|s.history| + 1))]
            && Consistent(env, after)
  {
    hide ApplyAll, Writes, RowsFollow;
    var next := |s.history| + 1;
    var s1 := Act(env, s, Step(id, now));
    assert s1 == s.(clients := s.clients[id := Counting(m, 0)]);
    CounterRead(env, s.rows, s.history, m, 0);
    var s2 := Act(env, s1, Step(id, now));
    assert s2 == s.(clients := s.clients[id := Counted(m, 0, next, next)]);
    var seen := ReadChange(env, s.rows, m);
    var s3 := Act(env, s2, Step(id, now));
    assert s3 == s.(clients := s.clients[id := Built(m, 0, next, next, seen)]);
    assert Allowed(env, s.rows, m, next, next) by { CounterIsNext(env, s.rows, s.history); }
    AllowedCommits(env, s.rows, m, next, next, seen, now);
    var s4 := Act(env, s3, Step(id, now));
    assert s4.clients == s.clients[id := Finished(m, Moved(next))];
    FourSteps(env, s, id, now);
    StepKeeps(env, s, id, now);
    StepKeeps(env, s1, id, now);
    StepKeeps(env, s2, id, now);
    StepKeeps(env, s3, id, now);
  }

  lemma CounterIsNext(env: EnvId, rows: Rows, history: seq<Move>)
    requires RowsFollow(env, rows, history)
    ensures Holds(Some(VersionIs(|history| + 1)), Existing(rows, Key(env, SeqKey)))
    ensures Existing(rows, Key(env, OpKey(|history| + 1))).None?
  {
  }

  lemma FourSteps(env: EnvId, s: System, id: ClientId, now: int)
    ensures var step := Step(id, now);
            Steps(env, s, id, now, 4) == Act(env, Act(env, Act(env, Act(env, s, step), step), step), step)
  {
    hide Act;
    var step := Step(id, now);
    assert Steps(env, s, id, now, 4) == Steps(env, Act(env, s, step), id, now, 3);
    var s2 := Act(env, Act(env, s, step), step);
    assert Steps(env, Act(env, s, step), id, now, 3) == Steps(env, s2, id, now, 2);
    assert Steps(env, s2, id, now, 2) == Steps(env, Act(env, s2, step), id, now, 1);
    assert Steps(env, Act(env, s2, step), id, now, 1) == Steps(env, Act(env, Act(env, s2, step), step), id, now, 0);
  }

  // ---- a recorded request, called again ----

  /** Nothing that happens is a call or a step of this client. */
  predicate Spares(actions: seq<Action>, id: ClientId)
  {
    forall i :: 0 <= i < |actions| ==>
      !((actions[i].Step? || actions[i].Start?) && actions[i].client == id)
  }

  /** While others act a client stays where it is. */
  lemma {:induction false} OthersLeaveIt(env: EnvId, s: System, actions: seq<Action>, id: ClientId)
    requires Consistent(env, s) && id in s.clients && Spares(actions, id)
    ensures var after := Run(env, s, actions);
            && id in after.clients && after.clients[id] == s.clients[id]
            && Consistent(env, after) && s.history <= after.history
    decreases |actions|
  {
    hide ApplyAll, Writes, RowsFollow, ClientFollows;
    if actions != [] {
      ActKeeps(env, s, actions[0]);
      OthersLeaveIt(env, Act(env, s, actions[0]), actions[1..], id);
    }
  }

  predicate Recorded(history: seq<Move>, call: Call)
  {
    call.key.Some? && exists i :: 0 <= i < |history| && history[i].key == call.key && history[i].request == call.request
  }

  /** The first read refuses: the ref is gone, or is a tag that would be moved. */
  predicate StoppedAtFirst(env: EnvId, rows: Rows, call: Call)
  {
    !call.CallCreate? && (RefAt(env, rows, call.name).None? || (call.CallUpdate? && IsTag(call.name)))
  }

  lemma RecordedStays(history: seq<Move>, longer: seq<Move>, call: Call)
    requires Recorded(history, call) && history <= longer
    ensures Recorded(longer, call)
  {
    var i :| 0 <= i < |history| && history[i].key == call.key && history[i].request == call.request;
    assert longer[i] == history[i];
  }

  /** The record of a recorded request is found, and matches. */
  lemma RecordedIsFound(env: EnvId, s: System, call: Call, m: Move)
    requires Consistent(env, s) && Recorded(s.history, call) && m.key == call.key && m.request == call.request
    ensures exists sequence :: WasApplied(s.history, m, sequence) &&
              forall otherwise :: Replay(env, s.rows, m, otherwise)
                == if m.after.Some? then ReadingBack(m, sequence) else Finished(m, Replayed(sequence))
  {
    hide RefsFollow, LogFollows, ChangesFollow, EventsFollow, CounterFollows;
    var i :| 0 <= i < |s.history| && s.history[i].key == call.key && s.history[i].request == call.request;
    assert Existing(s.rows, Key(env, IdemKey(call.key.value))).Some?;
    var sequence := Existing(s.rows, Key(env, IdemKey(call.key.value))).value.body.sequence;
    assert s.history[sequence - 1].key == s.history[i].key;
    assert WasApplied(s.history, m, sequence);
  }

  /** A request that has been applied under its key is called again, and others act
      between the client's steps as they like. The retry is answered with the recorded
      operation exactly when the first read does not refuse it and, unless it is a
      deletion, the ref is there when it is read back; otherwise it is refused, either at
      the first read or, although its replay was found, because the ref is gone. */
  lemma RetryIsAnsweredIff(env: EnvId, s: System, id: ClientId, call: Call, first: seq<Action>, second: seq<Action>,
                           now: int)
    returns (readBackAt: System, end: System)
    requires Reachable(env, s) && id in s.clients && s.clients[id] == Called(call) && Recorded(s.history, call)
    requires Spares(first, id) && Spares(second, id)
    ensures var looked := Run(env, Act(env, s, Step(id, now)), first);
            && readBackAt == Run(env, Act(env, looked, Step(id, now)), second)
            && end == Act(env, readBackAt, Step(id, now)) && id in end.clients
    ensures var stopped := StoppedAtFirst(env, s.rows, call);
            var gone := !call.CallDelete? && RefAt(env, readBackAt.rows, call.name).None?;
            var c := end.clients[id];
            && (c.Finished? && c.outcome.Replayed? <==> !stopped && !gone)
            && (c.Finished? && c.outcome.Missing? <==> !stopped && gone)
            && (c.Stopped? <==> stopped)
            && (c.Finished? && c.outcome.Replayed? ==> WasApplied(end.history, c.move, c.outcome.sequence))
  {
    hide ApplyAll, Writes, RowsFollow, Reachable, Replay, Run;
    ReachableIsConsistent(env, s);
    var s1 := Act(env, s, Step(id, now));
    StepKeeps(env, s, id, now);
    var looked := Run(env, s1, first);
    OthersLeaveIt(env, s1, first, id);
    var s2 := Act(env, looked, Step(id, now));
    StepKeeps(env, looked, id, now);
    readBackAt := Run(env, s2, second);
    OthersLeaveIt(env, s2, second, id);
    end := Act(env, readBackAt, Step(id, now));
    StepKeeps(env, readBackAt, id, now);
    if !StoppedAtFirst(env, s.rows, call) {
      var m := Prepare(env, s.rows, call).move;
      assert looked.clients[id] == Prepared(m);
      RecordedStays(s.history, looked.history, call);
      RecordedIsFound(env, looked, call, m);
    }
  }

  /** Being told that the ref is missing, after the first read, means that the request
      was applied: no caller may take it for a failure to apply. */
  lemma MissingAfterPreparingWasApplied(env: EnvId, s: System, id: ClientId)
    returns (sequence: int)
    requires Reachable(env, s) && id in s.clients && s.clients[id].Finished? && s.clients[id].outcome.Missing?
    ensures WasApplied(s.history, s.clients[id].move, sequence) && s.clients[id].move.after.Some?
  {
    ReachableIsConsistent(env, s);
    assert ClientFollows(s.clients[id], s.history);
    sequence :| WasApplied(s.history, s.clients[id].move, sequence);
  }
}
