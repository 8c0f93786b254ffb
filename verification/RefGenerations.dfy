/** Generations (src/meta/repository.py). */
module RefGenerations {
  // When the generations of a ref count its moves (`update_ref` and `create_ref`), the ways
  // they can be made not to, and when a committed update is recorded as what it was.

  import opened Model
  import opened MetaStore
  import opened RefProtocol
  import opened RefGuarantees

  /** How often a ref has been moved. */
  function Moves(history: seq<Move>, name: RefName): (n: nat)
  {
    if history == [] then 0
    else Moves(history[..|history| - 1], name) + (if history[|history| - 1].name == name then 1 else 0)
  }

  /** No committed move deletes the ref. */
  predicate NeverDeleted(history: seq<Move>, name: RefName)
  {
    forall i :: 0 <= i < |history| && history[i].name == name ==> history[i].after.Some?
  }

  /** Each move of the ref has the next generation, and says it came from where the
      previous move went. */
  predicate Counts(history: seq<Move>, name: RefName)
  {
    forall i :: 0 <= i < |history| && history[i].name == name ==>
      && history[i].generation == Moves(history[..i], name) + 1
      && history[i].before == TargetOf(RefAfter(history[..i], name))
  }

  function TargetOf(r: Option<(Name, int)>): (target: Option<Name>)
  {
    if r.Some? then Some(r.value.0) else None
  }

  /** The move a client is working on. */
  function MoveOf(c: Client): (m: Option<Move>)
  {
    match c
    case Prepared(m) => Some(m)
    case Counting(m, _) => Some(m)
    case Counted(m, _, _, _) => Some(m)
    case Built(m, _, _, _, _) => Some(m)
    case Rechecking(m) => Some(m)
    case _ => None
  }

  /** A pending move of the ref is a creation, or an update whose read is not newer than
      now and, if nothing moved since, still right. */
  ghost predicate Pending(m: Move, history: seq<Move>, name: RefName)
  {
    m.name == name && m.after.Some? ==>
      match m.condition
      case Absent => m.generation == 1 && m.before == None
      case GenerationIs(expected) =>
        && expected <= m.generation - 1 <= Moves(history, name)
        && (m.generation - 1 == Moves(history, name) ==> m.before == TargetOf(RefAfter(history, name)))
      case VersionIs(_) => false
  }

  ghost predicate Steady(s: System, name: RefName)
  {
    && Counts(s.history, name)
    && (forall id :: id in s.clients && MoveOf(s.clients[id]).Some? ==>
         Pending(MoveOf(s.clients[id]).value, s.history, name))
  }

  /** A caller passes a generation the ref has already had when it is read. */
  predicate Courteous(env: EnvId, s: System, a: Action, name: RefName)
  {
    a.Step? && a.client in s.clients && s.clients[a.client].Called? ==>
      var call := s.clients[a.client].call;
      call.CallUpdate? && call.name == name && RefAt(env, s.rows, name).Some? ==>
        call.expected <= RefAt(env, s.rows, name).value.1
  }

  lemma {:induction false} RefAndMoves(history: seq<Move>, name: RefName)
    requires NeverDeleted(history, name)
    ensures RefAfter(history, name).None? <==> Moves(history, name) == 0
  {
    if history != [] {
      RefAndMoves(history[..|history| - 1], name);
    }
  }

  /** In a counted history the ref's generation is the number of its moves. */
  lemma {:induction false} GenerationIsMoves(history: seq<Move>, name: RefName)
    requires NeverDeleted(history, name) && Counts(history, name)
    ensures RefAfter(history, name).Some? ==> RefAfter(history, name).value.1 == Moves(history, name)
  {
    if history != [] {
      var front := history[..|history| - 1];
      assert forall i :: 0 <= i < |front| ==> front[i] == history[i] && front[..i] == history[..i];
      GenerationIsMoves(front, name);
    }
  }

  lemma OneMoreMove(history: seq<Move>, m: Move, name: RefName)
    ensures Moves(history + [m], name) == Moves(history, name) + (if m.name == name then 1 else 0)
    ensures Counts(history + [m], name) ==> Counts(history, name)
    ensures Counts(history, name)
            && (m.name == name ==>
                  m.generation == Moves(history, name) + 1 && m.before == TargetOf(RefAfter(history, name)))
            ==> Counts(history + [m], name)
    ensures NeverDeleted(history + [m], name) ==> NeverDeleted(history, name) && (m.name == name ==> m.after.Some?)
  {
    var more := history + [m];
    assert more[..|history|] == history;
    assert forall i :: 0 <= i < |history| ==> more[i] == history[i] && more[..i] == history[..i];
    assert more[|history|] == m;
  }

  /** The commit: the condition leaves only the generation that was read. */
  lemma CommitIsNext(env: EnvId, s: System, id: ClientId, now: int, name: RefName)
    requires Consistent(env, s) && Steady(s, name) && id in s.clients && s.clients[id].Built?
    requires var c := s.clients[id];
             ApplyAll(s.rows, Writes(env, c.move, c.sequence, c.version, c.seen), now).Done?
    requires NeverDeleted(s.history + [s.clients[id].move], name)
    ensures Counts(s.history + [s.clients[id].move], name)
  {
    hide ApplyAll, Writes, Moves, RefAfter, Counts, LogFollows, ChangesFollow, KeysFollow, EventsFollow;
    var c := s.clients[id];
    var m := c.move;
    CommitEffect(env, s.rows, m, c.sequence, c.version, c.seen, now);
    OneMoreMove(s.history, m, name);
    if m.name == name {
      RefAndMoves(s.history, name);
      GenerationIsMoves(s.history, name);
      assert MoveOf(s.clients[id]) == Some(m);
      assert Pending(m, s.history, name);
    }
  }

  lemma PendingStays(m: Move, history: seq<Move>, more: Move, name: RefName)
    requires Pending(m, history, name)
    ensures Pending(m, history + [more], name)
  {
    hide RefAfter;
    OneMoreMove(history, more, name);
    HistoryGrows(history, more);
  }

  /** What was just read is right now. */
  lemma ReadIsPending(env: EnvId, s: System, call: Call, name: RefName)
    requires Consistent(env, s) && Counts(s.history, name) && NeverDeleted(s.history, name)
    requires call.CallUpdate? && call.name == name && RefAt(env, s.rows, name).Some? ==>
               call.expected <= RefAt(env, s.rows, name).value.1
    ensures MoveOf(Prepare(env, s.rows, call)).Some? ==>
              Pending(MoveOf(Prepare(env, s.rows, call)).value, s.history, name)
  {
    hide Moves, RefAfter, Counts, LogFollows, ChangesFollow, KeysFollow, EventsFollow;
    GenerationIsMoves(s.history, name);
  }

  lemma StepStaysSteady(env: EnvId, s: System, id: ClientId, now: int, name: RefName)
    requires Consistent(env, s) && Steady(s, name) && id in s.clients && Courteous(env, s, Step(id, now), name)
    requires NeverDeleted(ClientStep(env, s, id, now).history, name)
    ensures Steady(ClientStep(env, s, id, now), name)
  {
    hide ApplyAll, Writes, Moves, RefAfter, Counts, Pending, RowsFollow, Existing;
    match s.clients[id]
    case Called(call) =>
      ReadIsPending(env, s, call, name);
    case Built(m, attempts, sequence, version, seen) =>
      if ApplyAll(s.rows, Writes(env, m, sequence, version, seen), now).Done? {
        CommitIsNext(env, s, id, now, name);
        forall other | other in s.clients && MoveOf(s.clients[other]).Some?
          ensures Pending(MoveOf(s.clients[other]).value, s.history + [m], name)
        {
          PendingStays(MoveOf(s.clients[other]).value, s.history, m, name);
        }
      } else {
        assert MoveOf(s.clients[id]) == Some(m);
      }
    case Prepared(m) =>
      assert MoveOf(s.clients[id]) == Some(m);
    case Counting(m, _) =>
      assert MoveOf(s.clients[id]) == Some(m);
    case Counted(m, _, _, _) =>
      assert MoveOf(s.clients[id]) == Some(m);
    case Rechecking(m) =>
      assert MoveOf(s.clients[id]) == Some(m);
    case ReadingBack(_, _) =>
    case Finished(_, _) =>
    case Stopped(_, _) =>
  }

  /** Whether every read of a run is made by a caller passing a generation already had. */
  predicate CourteousRun(env: EnvId, s: System, actions: seq<Action>, name: RefName)
    decreases |actions|
  {
    actions != [] ==>
      Courteous(env, s, actions[0], name) && CourteousRun(env, Act(env, s, actions[0]), actions[1..], name)
  }

  lemma {:induction false} RunStaysSteady(env: EnvId, s: System, actions: seq<Action>, name: RefName)
    requires Consistent(env, s) && Steady(s, name) && CourteousRun(env, s, actions, name)
    requires NeverDeleted(Run(env, s, actions).history, name)
    ensures Steady(Run(env, s, actions), name) && Consistent(env, Run(env, s, actions))
    decreases |actions|
  {
    hide ApplyAll, Writes, Steady, RowsFollow;
    if actions != [] {
      var next := Act(env, s, actions[0]);
      RunExtendsHistory(env, next, actions[1..]);
      ActKeeps(env, s, actions[0]);
      ActStaysSteady(env, s, actions[0], name);
      RunStaysSteady(env, next, actions[1..], name);
    }
  }

  lemma ActStaysSteady(env: EnvId, s: System, a: Action, name: RefName)
    requires Consistent(env, s) && Steady(s, name) && Courteous(env, s, a, name)
    requires NeverDeleted(Act(env, s, a).history, name)
    ensures Steady(Act(env, s, a), name)
  {
    hide ApplyAll, Writes, RowsFollow, Counts, Pending;
    if a.Step? && a.client in s.clients {
      StepStaysSteady(env, s, a.client, a.now, name);
    }
  }

  /** A ref that is not deleted, moved only by callers that pass a generation it has
      already had: every committed move raises the generation by exactly one, no two
      moves got the same one, and every entry's `before` is the previous entry's `after`. */
  lemma GenerationsCountMoves(env: EnvId, now: int, actions: seq<Action>, name: RefName)
    requires var s := Run(env, Created(env, now), actions);
             CourteousRun(env, Created(env, now), actions, name) && NeverDeleted(s.history, name)
    ensures var h := Run(env, Created(env, now), actions).history;
            && (forall i :: 0 <= i < |h| && h[i].name == name ==>
                  h[i].generation == Moves(h[..i], name) + 1 && h[i].before == TargetOf(RefAfter(h[..i], name)))
            && (forall i, j :: 0 <= i < j < |h| && h[i].name == name && h[j].name == name ==>
                  h[i].generation < h[j].generation)
    ensures var s := Run(env, Created(env, now), actions);
            RefAt(env, s.rows, name).Some? ==> RefAt(env, s.rows, name).value.1 == Moves(s.history, name)
  {
    CreatedIsConsistent(env, now);
    RunStaysSteady(env, Created(env, now), actions, name);
    var s := Run(env, Created(env, now), actions);
    GenerationIsMoves(s.history, name);
    forall i, j | 0 <= i < j < |s.history| && s.history[i].name == name && s.history[j].name == name
      ensures s.history[i].generation < s.history[j].generation
    {
      MovesGrow(s.history, i, j, name);
    }
  }

  lemma {:induction false} MovesGrow(history: seq<Move>, i: nat, j: nat, name: RefName)
    requires i < j <= |history| && history[i].name == name
    ensures Moves(history[..i], name) < Moves(history[..j], name)
    decreases j
  {
    assert history[..j][..j - 1] == history[..j - 1];
    if i < j - 1 {
      MovesGrow(history, i, j - 1, name);
    }
  }

  // ---- when they do not count ----

  /** A call by a new client that nobody disturbs, from start to finish. */
  lemma UndisturbedCallCommits(env: EnvId, s: System, id: ClientId, call: Call, m: Move, now: int)
    returns (after: System)
    requires Reachable(env, s) && id !in s.clients && Prepare(env, s.rows, call) == Prepared(m)
    requires Holds(Some(m.condition), Existing(s.rows, Key(env, RefKey(m.name))))
    requires m.key.Some? ==> Existing(s.rows, Key(env, IdemKey(m.key.value))).None?
    ensures Reachable(env, after)
    ensures after.history == s.history + [m] && after.clients == s.clients[id := Finished(m, Moved(|s.history| + 1))]
  {
    hide Act, Reachable, Prepare, RowsFollow, ApplyAll, Existing;
    var called := CallAndRead(call, s, env, id, now);
    ReachableIsConsistent(env, called);
    UndisturbedMoveCommits(env, called, id, m, now);
    StepsAreReachable(env, called, id, now, 4);
    after := Steps(env, called, id, now, 4);
    assert s.clients[id := Prepared(m)][id := Finished(m, Moved(|s.history| + 1))]
           == s.clients[id := Finished(m, Moved(|s.history| + 1))];
  }

  /** The state after a client has called and made its first read. */
  lemma CallAndRead(call: Call, s: System, env: EnvId, id: ClientId, now: int) returns (called: System)
    requires Reachable(env, s) && id !in s.clients
    ensures Reachable(env, called) && called == s.(clients := s.clients[id := Prepare(env, s.rows, call)])
  {
    hide Reachable, Prepare;
    var started := Act(env, s, Start(id, call));
    OneMoreAction(env, s, Start(id, call));
    assert started == s.(clients := s.clients[id := Called(call)]);
    OneMoreAction(env, started, Step(id, now));
    called := Act(env, started, Step(id, now));
    assert called.clients == s.clients[id := Prepare(env, s.rows, call)];
  }

  function NewRef(name: RefName, target: Name): (m: Move)
  {
    Move(CreateRef, name, None, Some(target), Absent, 1, None, None, "")
  }

  function OldRef(name: RefName, target: Name): (m: Move)
  {
    Move(DeleteRef, name, Some(target), None, GenerationIs(1), 0, None, None, "")
  }

  /** What the stored ref is, given the history. */
  lemma RefIs(env: EnvId, s: System, name: RefName)
    requires Reachable(env, s)
    ensures RefAt(env, s.rows, name) == RefAfter(s.history, name)
    ensures RefAfter(s.history, name).None? <==> Existing(s.rows, Key(env, RefKey(name))).None?
    ensures RefAfter(s.history, name).Some? ==>
              Holds(Some(GenerationIs(RefAfter(s.history, name).value.1)), Existing(s.rows, Key(env, RefKey(name))))
  {
    ReachableIsConsistent(env, s);
  }

  lemma StartIsReachable(env: EnvId)
    ensures Reachable(env, Created(env, 0))
  {
    assert Run(env, Created(env, 0), []) == Created(env, 0);
  }

  /** A ref is created with target `x`, and another client reads it and prepares to move
      it to `z`, passing a generation of its choice. */
  lemma UpdateIsPrepared(env: EnvId, name: RefName, x: Name, z: Name, expected: int) returns (s: System)
    requires !IsTag(name)
    ensures Reachable(env, s) && s.clients.Keys == {0, 1} && s.history == [NewRef(name, x)]
    ensures s.clients[1] == Prepared(Move(UpdateRef, name, Some(x), Some(z), GenerationIs(expected), 2, None, None, ""))
    ensures RefAfter(s.history, name) == Some((x, 1))
  {
    hide Reachable, Act, RowsFollow, ApplyAll, Existing;
    var s0 := Created(env, 0);
    StartIsReachable(env);
    RefIs(env, s0, name);
    var s1 := UndisturbedCallCommits(env, s0, 0, CallCreate(name, x, None, None, ""), NewRef(name, x), 0);
    HistoryGrows(s0.history, NewRef(name, x));
    RefIs(env, s1, name);
    s := CallAndRead(CallUpdate(name, expected, z, UpdateRef, None, None, ""), s1, env, 1, 0);
  }

  /** A prepared move without a key commits when the ref has the generation it expects. */
  lemma PreparedCommits(env: EnvId, s: System, id: ClientId, m: Move) returns (after: System)
    requires Reachable(env, s) && id in s.clients && s.clients[id] == Prepared(m) && m.key.None?
    requires RefAfter(s.history, m.name).Some? && m.condition == GenerationIs(RefAfter(s.history, m.name).value.1)
    ensures Reachable(env, after) && after.history == s.history + [m]
  {
    hide Reachable, Act, RowsFollow, ApplyAll, Existing, RefAfter;
    RefIs(env, s, m.name);
    ReachableIsConsistent(env, s);
    UndisturbedMoveCommits(env, s, id, m, 0);
    StepsAreReachable(env, s, id, 0, 4);
    after := Steps(env, s, id, 0, 4);
  }

  /** Clients 2 and 3 delete the ref and create it with another target. */
  lemma RefIsRecreated(env: EnvId, s: System, name: RefName, x: Name, y: Name) returns (after: System)
    requires Reachable(env, s) && s.clients.Keys == {0, 1} && RefAfter(s.history, name) == Some((x, 1))
    ensures Reachable(env, after) && after.history == s.history + [OldRef(name, x)] + [NewRef(name, y)]
    ensures 1 in after.clients && after.clients[1] == s.clients[1]
    ensures RefAfter(after.history, name) == Some((y, 1))
  {
    hide Reachable, Act, RowsFollow, ApplyAll, Existing, RefAfter;
    RefIs(env, s, name);
    var s3 := UndisturbedCallCommits(env, s, 2, CallDelete(name, 1, None, ""), OldRef(name, x), 0);
    HistoryGrows(s.history, OldRef(name, x));
    RefIs(env, s3, name);
    after := UndisturbedCallCommits(env, s3, 3, CallCreate(name, y, None, None, ""), NewRef(name, y), 0);
    HistoryGrows(s3.history, NewRef(name, y));
  }

  /** Deleting a ref and creating it again restarts its generation at 1. A writer that
      read the old ref then commits over the new one: its entry says it moved the ref
      away from `x`, and the `y` it really replaced is nowhere recorded as replaced. */
  lemma RecreatedRefLosesAnUpdate(env: EnvId, name: RefName, x: Name, y: Name, z: Name) returns (s: System)
    requires !IsTag(name) && x != y
    ensures Reachable(env, s) && |s.history| == 4
    ensures s.history[2].after == Some(y) && s.history[3].before == Some(x) && s.history[3].after == Some(z)
    ensures s.history[3].generation == 2 && s.history[3].condition == GenerationIs(1)
  {
    hide Reachable, RefAfter;
    var s2 := UpdateIsPrepared(env, name, x, z, 1);
    var s4 := RefIsRecreated(env, s2, name, x, y);
    s := PreparedCommits(env, s4, 1, s4.clients[1].move);
  }

  /** A caller that passes a generation the ref has not had yet can commit as well, once
      another writer has brought the ref there: two moves then have one generation. */
  lemma FutureGenerationRepeats(env: EnvId, name: RefName, x: Name, y: Name, z: Name) returns (s: System)
    requires !IsTag(name) && x != y
    ensures Reachable(env, s) && |s.history| == 3
    ensures s.history[1].generation == 2 && s.history[2].generation == 2
    ensures s.history[1].after == Some(y) && s.history[2].before == Some(x)
  {
    hide Reachable, RefAfter, Act, RowsFollow, ApplyAll, Existing;
    var s2 := UpdateIsPrepared(env, name, x, z, 2);
    RefIs(env, s2, name);
    var other := Move(UpdateRef, name, Some(x), Some(y), GenerationIs(1), 2, None, None, "");
    var s3 := UndisturbedCallCommits(env, s2, 2, CallUpdate(name, 1, y, UpdateRef, None, None, ""), other, 0);
    HistoryGrows(s2.history, other);
    s := PreparedCommits(env, s3, 1, s3.clients[1].move);
  }

  /** A retried creation can fail: a keyed creation commits, the ref is deleted, and the
      retry finds its record and then no ref. */
  lemma ARetriedCreationCanFail(env: EnvId, name: RefName, x: Name, key: string) returns (s: System)
    ensures Reachable(env, s) && 2 in s.clients && s.clients[2].Finished? && s.clients[2].outcome.Missing?
    ensures |s.history| == 2 && s.history[0].after == Some(x) && s.history[0].key == Some(key)
  {
    hide Reachable, ApplyAll, Writes, RowsFollow;
    var call := CallCreate(name, x, None, Some(key), "");
    var create := Move(CreateRef, name, None, Some(x), Absent, 1, None, Some(key), "");
    var s2 := CreatedAndDeleted(env, name, x, key);
    OneMoreAction(env, s2, Start(2, call));
    var s3 := Act(env, s2, Start(2, call));
    assert Recorded(s3.history, call);
    var readBackAt, end := RetryIsAnsweredIff(env, s3, 2, call, [], [], 0);
    OneMoreAction(env, s3, Step(2, 0));
    var s4 := Act(env, s3, Step(2, 0));
    OneMoreAction(env, s4, Step(2, 0));
    assert Run(env, s4, []) == s4;
    assert s4.clients[2] == Prepared(create);
    var s5 := Act(env, s4, Step(2, 0));
    assert readBackAt == s5;
    RefIs(env, s2, name);
    s := end;
    OneMoreAction(env, s5, Step(2, 0));
  }

  lemma CreatedAndDeleted(env: EnvId, name: RefName, x: Name, key: string) returns (s: System)
    ensures Reachable(env, s) && 2 !in s.clients && |s.history| == 2 && RefAfter(s.history, name).None?
    ensures s.history[0] == Move(CreateRef, name, None, Some(x), Absent, 1, None, Some(key), "")
  {
    hide Reachable, Act, RowsFollow;
    var create := Move(CreateRef, name, None, Some(x), Absent, 1, None, Some(key), "");
    var s0 := Created(env, 0);
    assert Reachable(env, s0) by { StartIsReachable(env); }
    RefIs(env, s0, name);
    var s1 := UndisturbedCallCommits(env, s0, 0, CallCreate(name, x, None, Some(key), ""), create, 0);
    RefIs(env, s1, name);
    HistoryGrows(s0.history, create);
    s := UndisturbedCallCommits(env, s1, 1, CallDelete(name, 1, None, ""), OldRef(name, x), 0);
    HistoryGrows(s1.history, OldRef(name, x));
  }

  // ---- when a committed update is recorded as what it was ----

  /** A creation starts at 1; among courteous callers an update raises the generation it
      is conditioned on. */
  predicate Rises(m: Move, name: RefName, courteous: bool)
  {
    m.name == name ==>
      match m.condition
      case Absent => m.generation == 1
      case GenerationIs(expected) => courteous && m.after.Some? ==> expected < m.generation
      case VersionIs(_) => false
  }

  /** The move found the ref as its condition asks. */
  predicate Justified(history: seq<Move>, i: nat, name: RefName)
    requires i < |history|
  {
    history[i].name == name ==>
      var found := RefAfter(history[..i], name);
      match history[i].condition
      case Absent => found.None?
      case GenerationIs(expected) => found.Some? && found.value.1 == expected
      case VersionIs(_) => false
  }

  predicate Orderly(history: seq<Move>, name: RefName, courteous: bool)
  {
    forall i {:trigger history[i]} :: 0 <= i < |history| ==>
      Rises(history[i], name, courteous) && Justified(history, i, name)
  }

  ghost predicate OrderlySystem(s: System, name: RefName, courteous: bool)
  {
    && Orderly(s.history, name, courteous)
    && forall id :: id in s.clients && MoveOf(s.clients[id]).Some? ==>
         Rises(MoveOf(s.clients[id]).value, name, courteous)
  }

  lemma OneMoreOrderly(history: seq<Move>, m: Move, name: RefName, courteous: bool)
    requires Orderly(history, name, courteous) && Rises(m, name, courteous) && Justified(history + [m], |history|, name)
    ensures Orderly(history + [m], name, courteous)
  {
    var more := history + [m];
    assert forall i :: 0 <= i < |history| ==> more[i] == history[i] && more[..i] == history[..i];
    forall i | 0 <= i < |more|
      ensures Rises(more[i], name, courteous) && Justified(more, i, name)
    {
      if i < |history| { assert Justified(history, i, name); }
    }
  }

  /** A transaction that goes through found what it is conditioned on. */
  lemma CommitIsJustified(env: EnvId, rows: Rows, history: seq<Move>, m: Move, sequence: int, version: int,
                          seen: seq<Name>, now: int, name: RefName, courteous: bool)
    requires RefsFollow(env, rows, history) && Rises(m, name, courteous)
    requires ApplyAll(rows, Writes(env, m, sequence, version, seen), now).Done?
    ensures Justified(history + [m], |history|, name)
  {
    hide ApplyAll, Writes, RefAfter;
    CommitEffect(env, rows, m, sequence, version, seen, now);
    assert (history + [m])[..|history|] == history;
  }

  lemma StepStaysOrderly(env: EnvId, s: System, id: ClientId, now: int, name: RefName, courteous: bool)
    requires Consistent(env, s) && OrderlySystem(s, name, courteous) && id in s.clients
    requires courteous ==> Courteous(env, s, Step(id, now), name)
    ensures OrderlySystem(ClientStep(env, s, id, now), name, courteous)
  {
    hide ApplyAll, Writes, RefAfter, Orderly, RefsFollow, LogFollows, ChangesFollow, KeysFollow, EventsFollow, Existing;
    assert MoveOf(s.clients[id]).Some? ==> Rises(MoveOf(s.clients[id]).value, name, courteous);
    if s.clients[id].Built? {
      var c := s.clients[id];
      if ApplyAll(s.rows, Writes(env, c.move, c.sequence, c.version, c.seen), now).Done? {
        CommitIsJustified(env, s.rows, s.history, c.move, c.sequence, c.version, c.seen, now, name,
                          courteous);
        OneMoreOrderly(s.history, c.move, name, courteous);
      }
    }
  }

  lemma {:induction false} RunStaysOrderly(env: EnvId, s: System, actions: seq<Action>, name: RefName, courteous: bool)
    requires Consistent(env, s) && OrderlySystem(s, name, courteous)
    requires courteous ==> CourteousRun(env, s, actions, name)
    ensures OrderlySystem(Run(env, s, actions), name, courteous) && Consistent(env, Run(env, s, actions))
    decreases |actions|
  {
    hide ApplyAll, Writes, OrderlySystem, RowsFollow;
    if actions != [] {
      ActKeeps(env, s, actions[0]);
      ActStaysOrderly(env, s, actions[0], name, courteous);
      RunStaysOrderly(env, Act(env, s, actions[0]), actions[1..], name, courteous);
    }
  }

  lemma ActStaysOrderly(env: EnvId, s: System, a: Action, name: RefName, courteous: bool)
    requires Consistent(env, s) && OrderlySystem(s, name, courteous)
    requires courteous ==> Courteous(env, s, a, name)
    ensures OrderlySystem(Act(env, s, a), name, courteous)
  {
    hide ApplyAll, Writes, RowsFollow, Orderly, Rises;
    if a.Step? && a.client in s.clients {
      StepStaysOrderly(env, s, a.client, a.now, name, courteous);
    }
  }

  /** A deletion of the ref is among the moves from `i` to `j`. */
  predicate DeletedBetween(history: seq<Move>, name: RefName, i: nat, j: nat)
    requires i <= j <= |history|
  {
    exists k :: i <= k < j && history[k].name == name && history[k].after.None?
  }

  /** Between deletions the generation only rises, so the ref has one generation once. */
  lemma {:induction false} GenerationsRise(history: seq<Move>, name: RefName, i: nat, j: nat)
    requires Orderly(history, name, true) && i <= j <= |history| && !DeletedBetween(history, name, i, j)
    requires RefAfter(history[..i], name).Some?
    ensures RefAfter(history[..j], name).Some?
    ensures RefAfter(history[..j], name).value.1 >= RefAfter(history[..i], name).value.1
    ensures RefAfter(history[..j], name).value.1 == RefAfter(history[..i], name).value.1 ==>
              RefAfter(history[..j], name) == RefAfter(history[..i], name)
    decreases j
  {
    if i < j {
      assert !DeletedBetween(history, name, i, j - 1);
      GenerationsRise(history, name, i, j - 1);
      assert history[..j][..j - 1] == history[..j - 1];
      assert Rises(history[j - 1], name, true) && Justified(history, j - 1, name);
    }
  }

  /** A caller reads the ref, and the update it prepared commits later, in any run in
      which the callers are courteous. It commits with the next generation exactly when
      the caller passed the generation it found; and then its `before` is what it really
      replaced, unless in between the ref was deleted and made again with another target,
      and exactly then it is not. */
  lemma UpdateIsRecordedRightIff(env: EnvId, now: int, first: seq<Action>, later: seq<Action>, call: Call, id: ClientId,
                                 at: int)
    requires var s0 := Run(env, Created(env, now), first);
             && CourteousRun(env, Created(env, now), first, call.name) && CourteousRun(env, s0, later, call.name)
             && call.CallUpdate? && Prepare(env, s0.rows, call).Prepared?
    requires var s0 := Run(env, Created(env, now), first);
             var s1 := Run(env, s0, later);
             && id in s1.clients && s1.clients[id].Built? && s1.clients[id].move == Prepare(env, s0.rows, call).move
             && Act(env, s1, Step(id, at)).history != s1.history
    ensures var s0 := Run(env, Created(env, now), first);
            var s1 := Run(env, s0, later);
            var end := Act(env, s1, Step(id, at));
            var was, found := RefAt(env, s0.rows, call.name).value, RefAfter(s1.history, call.name);
            var m := s1.clients[id].move;
            && s0.history <= s1.history && end.history == s1.history + [m]
            && found.Some? && (m.generation == found.value.1 + 1 <==> call.expected == was.1)
            && (call.expected == was.1 ==>
                  (m.before == Some(found.value.0) <==>
                     !(DeletedBetween(s1.history, call.name, |s0.history|, |s1.history|) && found.value.0 != was.0)))
  {
    hide ApplyAll, Writes, Orderly, RefAfter, Run, CourteousRun, LogFollows, ChangesFollow, KeysFollow, EventsFollow;
    var s0 := Run(env, Created(env, now), first);
    var s1 := Run(env, s0, later);
    var c := s1.clients[id];
    CreatedIsConsistent(env, now);
    assert OrderlySystem(Created(env, now), call.name, true) by { NothingIsOrderly(call.name, true); }
    RunStaysOrderly(env, Created(env, now), first, call.name, true);
    RunStaysOrderly(env, s0, later, call.name, true);
    RunExtendsHistory(env, s0, later);
    CommitEffect(env, s1.rows, c.move, c.sequence, c.version, c.seen, at);
    assert s1.history[..|s0.history|] == s0.history && s1.history[..|s1.history|] == s1.history;
    if !DeletedBetween(s1.history, call.name, |s0.history|, |s1.history|) {
      GenerationsRise(s1.history, call.name, |s0.history|, |s1.history|);
    }
  }

  lemma NothingIsOrderly(name: RefName, courteous: bool)
    ensures Orderly([], name, courteous)
  {
  }

  /** Every committed update was given the generation its caller had read. */
  predicate EachPassedWhatItRead(history: seq<Move>, name: RefName)
  {
    forall i :: 0 <= i < |history| && history[i].name == name && history[i].condition.GenerationIs? ==>
      history[i].generation == history[i].condition.generation + 1
  }

  predicate GenerationsCount(history: seq<Move>, name: RefName)
  {
    forall i :: 0 <= i < |history| && history[i].name == name ==>
      history[i].generation == Moves(history[..i], name) + 1
  }

  /** Generations count the moves of a ref that is not deleted exactly when every update
      that committed passed the generation it had read: on every run, whatever else the
      callers pass. */
  lemma GenerationsCountIff(env: EnvId, now: int, actions: seq<Action>, name: RefName)
    requires NeverDeleted(Run(env, Created(env, now), actions).history, name)
    ensures var h := Run(env, Created(env, now), actions).history;
            GenerationsCount(h, name) <==> EachPassedWhatItRead(h, name)
  {
    hide Orderly, Run, NeverDeleted, GenerationsCount, EachPassedWhatItRead;
    CreatedIsConsistent(env, now);
    assert OrderlySystem(Created(env, now), name, false) by { NothingIsOrderly(name, false); }
    RunStaysOrderly(env, Created(env, now), actions, name, false);
    var h := Run(env, Created(env, now), actions).history;
    CountsIffPassed(h, name);
  }

  lemma CountSplits(front: seq<Move>, last: Move, name: RefName)
    ensures GenerationsCount(front + [last], name) <==>
              GenerationsCount(front, name) && (last.name == name ==> last.generation == Moves(front, name) + 1)
  {
    hide Moves;
    var history := front + [last];
    assert forall i :: 0 <= i < |front| ==> history[i] == front[i] && history[..i] == front[..i];
    assert history[..|front|] == front && history[|front|] == last;
    forall i | GenerationsCount(history, name) && 0 <= i < |front| && front[i].name == name
      ensures front[i].generation == Moves(front[..i], name) + 1
    {
      assert history[i].generation == Moves(history[..i], name) + 1;
    }
  }

  lemma PassedSplits(front: seq<Move>, last: Move, name: RefName)
    ensures EachPassedWhatItRead(front + [last], name) <==>
              EachPassedWhatItRead(front, name)
              && (last.name == name && last.condition.GenerationIs? ==>
                    last.generation == last.condition.generation + 1)
  {
    var history := front + [last];
    assert forall i :: 0 <= i < |front| ==> history[i] == front[i];
    assert history[|front|] == last;
  }

  lemma OrderlySplits(front: seq<Move>, last: Move, name: RefName, courteous: bool)
    requires Orderly(front + [last], name, courteous)
    ensures Orderly(front, name, courteous) && Rises(last, name, courteous)
    ensures Justified(front + [last], |front|, name)
  {
    hide RefAfter;
    var history := front + [last];
    assert history[|front|] == last;
    forall i | 0 <= i < |front|
      ensures Rises(front[i], name, courteous) && Justified(front, i, name)
    {
      assert history[i] == front[i] && history[..i] == front[..i];
      assert Justified(history, i, name);
    }
  }

  lemma {:induction false} CountsIffPassed(history: seq<Move>, name: RefName)
    requires Orderly(history, name, false) && NeverDeleted(history, name)
    ensures GenerationsCount(history, name) <==> EachPassedWhatItRead(history, name)
    ensures GenerationsCount(history, name) && RefAfter(history, name).Some? ==>
              RefAfter(history, name).value.1 == Moves(history, name)
  {
    hide Orderly, GenerationsCount, EachPassedWhatItRead, Moves, RefAfter;
    if history == [] {
      NothingCounts(name);
    } else {
      var n := |history| - 1;
      var front, last := history[..n], history[n];
      assert history == front + [last];
      OrderlySplits(front, last, name, false);
      CountsIffPassed(front, name);
      CountSplits(front, last, name);
      PassedSplits(front, last, name);
      RefAndMoves(front, name);
      OneMoreMove(front, last, name);
      HistoryGrows(front, last);
      assert history[..n] == front;
    }
  }

  lemma NothingCounts(name: RefName)
    ensures GenerationsCount([], name) && EachPassedWhatItRead([], name) && RefAfter([], name).None?
  {
  }
}
