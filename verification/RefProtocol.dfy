/** The ref protocol (src/meta/repository.py). Clients read items outside a transaction
    and then commit a conditioned write, interleaved in every way. Each read and each
    transaction is one atomic step of one client; other environments of the same shard
    write in between. `history` records the moves that committed. */
module RefProtocol {
  import opened Model
  import opened MetaStore

  const COUNTER_RETRIES: nat := 8
  const TAG_PREFIX := "refs/tags/"

  type ClientId = nat

  predicate IsTag(name: RefName)
  {
    TAG_PREFIX <= name
  }

  /** One movement of a ref, as a client has prepared it. A removal has no `after`. */
  datatype Move = Move(kind: OpKind, name: RefName, before: Option<Name>, after: Option<Name>, condition: Condition,
                       generation: int, change: Option<string>, key: Option<string>, request: Request)

  /** The three public mutations; undo calls them with what the log entry says. */
  datatype Call =
    | CallCreate(name: RefName, target: Name, change: Option<string>, key: Option<string>, request: Request)
    | CallUpdate(name: RefName, expected: int, target: Name, kind: OpKind, change: Option<string>, key: Option<string>,
                 request: Request)
    | CallDelete(name: RefName, expected: int, key: Option<string>, request: Request)

  datatype Answer =
    | Moved(sequence: int)
    | Replayed(sequence: int)
    | Mismatch
    | Conflicted
    | Contended
    | Missing
    | Frozen

  /** Where one client stands in the code. */
  datatype Client =
    | Called(call: Call)
    | Prepared(move: Move)
    | Counting(move: Move, attempts: nat)
    | Counted(move: Move, attempts: nat, sequence: int, version: int)
    | Built(move: Move, attempts: nat, sequence: int, version: int, seen: seq<Name>)
    | Rechecking(move: Move)
    | ReadingBack(move: Move, sequence: int)
    | Finished(move: Move, outcome: Answer)
    | Stopped(call: Call, outcome: Answer)

  datatype System = System(rows: Rows, clients: map<ClientId, Client>, history: seq<Move>)

  /** What can happen next: a client calls, a client takes its next step, or another
      environment of the shard commits something. */
  datatype Action =
    | Start(client: ClientId, call: Call)
    | Step(client: ClientId, now: int)
    | Elsewhere(writes: seq<WriteOp>, now: int)

  // ---- what a move writes ----

  function EntryOf(m: Move, sequence: int): (entry: OpEntry)
  {
    OpEntry(sequence, m.kind, m.name, m.before, m.after)
  }

  function PayloadOf(m: Move, sequence: int): (payload: Payload)
  {
    Payload(m.name, m.before, m.after, sequence)
  }

  function RefWrite(env: EnvId, m: Move): (w: WriteOp)
  {
    var key := Key(env, RefKey(m.name));
    if m.after.None? then Delete(key, Some(m.condition))
    else Put(key, Ref(m.after.value, m.generation), Some(m.condition), Some(m.generation))
  }

  function CounterWrite(env: EnvId, sequence: int, version: int): (w: WriteOp)
  {
    Put(Key(env, SeqKey), Counter(sequence + 1), Some(VersionIs(version)), None)
  }

  function OpWrite(env: EnvId, m: Move, sequence: int): (w: WriteOp)
  {
    Put(Key(env, OpKey(sequence)), Op(EntryOf(m, sequence)), Some(Absent), None)
  }

  /** `_change_write`: prepend to the list that was read. */
  function ChangeWrite(env: EnvId, m: Move, seen: seq<Name>): (w: seq<WriteOp>)
  {
    if m.change.None? || m.after.None? then []
    else [Put(Key(env, ChangeKey(m.change.value)), Change([m.after.value] + seen), None, None)]
  }

  function KeyWrite(env: EnvId, m: Move, sequence: int): (w: seq<WriteOp>)
  {
    if m.key.None? then []
    else [Put(Key(env, IdemKey(m.key.value)), Idempotency(m.request, sequence), Some(Absent), None)]
  }

  /** `build` plus the idempotency record, in the order they are written. */
  function Writes(env: EnvId, m: Move, sequence: int, version: int, seen: seq<Name>): (writes: seq<WriteOp>)
  {
    [RefWrite(env, m), CounterWrite(env, sequence, version), OpWrite(env, m, sequence)]
    + ChangeWrite(env, m, seen)
    + [Emit(env, PayloadOf(m, sequence))]
    + KeyWrite(env, m, sequence)
  }

  // ---- steps ----

  /** The stored ref, if there is one. */
  function RefAt(env: EnvId, rows: Rows, name: RefName): (r: Option<(Name, int)>)
  {
    match Existing(rows, Key(env, RefKey(name)))
    case Some(Item(Ref(target, generation), _, _, _, _)) => Some((target, generation))
    case _ => None
  }

  /** What the client read when it called. */
  function Prepare(env: EnvId, rows: Rows, call: Call): (c: Client)
  {
    match call
    case CallCreate(name, target, change, key, request) =>
      Prepared(Move(CreateRef, name, None, Some(target), Absent, 1, change, key, request))
    case CallUpdate(name, expected, target, kind, change, key, request) =>
      (match RefAt(env, rows, name)
       case None => Stopped(call, Missing)
       case Some((now, generation)) =>
         if IsTag(name) then Stopped(call, Frozen)
         else Prepared(Move(kind, name, Some(now), Some(target), GenerationIs(expected), generation + 1, change,
                            key, request)))
    case CallDelete(name, expected, key, request) =>
      (match RefAt(env, rows, name)
       case None => Stopped(call, Missing)
       case Some((now, _)) =>
         Prepared(Move(DeleteRef, name, Some(now), None, GenerationIs(expected), 0, None, key, request)))
  }

  /** `_replay`: what the key's record says about this request. A replayed creation or
      update then reads the ref back; a replayed deletion returns at once. */
  function Replay(env: EnvId, rows: Rows, m: Move, otherwise: Client): (c: Client)
  {
    if m.key.None? then otherwise
    else
      match Existing(rows, Key(env, IdemKey(m.key.value)))
      case Some(Item(Idempotency(request, sequence), _, _, _, _)) =>
        if request != m.request then Finished(m, Mismatch)
        else if m.after.Some? then ReadingBack(m, sequence)
        else Finished(m, Replayed(sequence))
      case _ => otherwise
  }

  /** The `get_ref` that ends a replay: it fails when the ref is gone by now. */
  function ReadBack(env: EnvId, rows: Rows, m: Move, sequence: int): (c: Client)
  {
    Finished(m, if RefAt(env, rows, m.name).Some? then Replayed(sequence) else Missing)
  }

  /** `_next_sequence`. */
  function ReadCounter(env: EnvId, rows: Rows, m: Move, attempts: nat): (c: Client)
  {
    match Existing(rows, Key(env, SeqKey))
    case Some(Item(Counter(next), version, _, _, _)) => Counted(m, attempts, next, version)
    case _ => Finished(m, Missing)
  }

  /** The change record read while building the writes. */
  function ReadChange(env: EnvId, rows: Rows, m: Move): (seen: seq<Name>)
  {
    if m.change.None? then []
    else
      match Existing(rows, Key(env, ChangeKey(m.change.value)))
      case Some(Item(Change(commits), _, _, _, _)) => commits
      case _ => []
  }

  /** What a refused transaction means to the client. */
  function AfterConflict(m: Move, attempts: nat, key: Key): (c: Client)
  {
    if key.sk == SeqKey then
      if attempts + 1 < COUNTER_RETRIES then Counting(m, attempts + 1) else Finished(m, Contended)
    else if m.key.Some? then Rechecking(m)
    else Finished(m, Conflicted)
  }

  /** One atomic step of one client. */
  function ClientStep(env: EnvId, s: System, id: ClientId, now: int): (s': System)
    requires id in s.clients
  {
    match s.clients[id]
    case Called(call) => s.(clients := s.clients[id := Prepare(env, s.rows, call)])
    case Prepared(m) => s.(clients := s.clients[id := Replay(env, s.rows, m, Counting(m, 0))])
    case Counting(m, attempts) => s.(clients := s.clients[id := ReadCounter(env, s.rows, m, attempts)])
    case Counted(m, attempts, sequence, version) =>
      s.(clients := s.clients[id := Built(m, attempts, sequence, version, ReadChange(env, s.rows, m))])
    case Built(m, attempts, sequence, version, seen) =>
      (match ApplyAll(s.rows, Writes(env, m, sequence, version, seen), now)
       case Done(rows) => System(rows, s.clients[id := Finished(m, Moved(sequence))], s.history + [m])
       case Conflict(key) => s.(clients := s.clients[id := AfterConflict(m, attempts, key)]))
    case Rechecking(m) => s.(clients := s.clients[id := Replay(env, s.rows, m, Finished(m, Conflicted))])
    case ReadingBack(m, sequence) => s.(clients := s.clients[id := ReadBack(env, s.rows, m, sequence)])
    case Finished(_, _) => s
    case Stopped(_, _) => s
  }

  function Act(env: EnvId, s: System, a: Action): (s': System)
  {
    match a
    case Start(id, call) =>
      if id in s.clients && !s.clients[id].Finished? && !s.clients[id].Stopped? then s
      else s.(clients := s.clients[id := Called(call)])
    case Step(id, now) => if id in s.clients then ClientStep(env, s, id, now) else s
    case Elsewhere(writes, now) =>
      if exists i :: 0 <= i < |writes| && writes[i].Partition() == env then s
      else
        match ApplyAll(s.rows, writes, now)
        case Done(rows) => s.(rows := rows)
        case Conflict(_) => s
  }

  /** A run: any clients, any calls, any interleaving. */
  function Run(env: EnvId, s: System, actions: seq<Action>): (s': System)
    decreases |actions|
  {
    if actions == [] then s else Run(env, Act(env, s, actions[0]), actions[1..])
  }

  // ---- what the history means ----

  /** The ref after the moves: the last move of that name decides. */
  function RefAfter(history: seq<Move>, name: RefName): (r: Option<(Name, int)>)
  {
    if history == [] then None
    else
      var last := history[|history| - 1];
      if last.name == name then (if last.after.None? then None else Some((last.after.value, last.generation)))
      else RefAfter(history[..|history| - 1], name)
  }

  /** The targets committed under a change, newest first. */
  function ChangeAfter(history: seq<Move>, change: string): (commits: seq<Name>)
  {
    if history == [] then []
    else
      var last, rest := history[|history| - 1], ChangeAfter(history[..|history| - 1], change);
      if last.change == Some(change) && last.after.Some? then [last.after.value] + rest else rest
  }

  /** The position, from 1, of the move that carried a key. */
  function KeyAfter(history: seq<Move>, key: string): (position: Option<nat>)
  {
    if history == [] then None
    else if history[|history| - 1].key == Some(key) then Some(|history|)
    else KeyAfter(history[..|history| - 1], key)
  }

  // ---- the invariant ----

  /** What is stored for the environment is what the committed moves make it: the counter
      is one past the last operation, the log is dense, the refs are the replay of the
      log, each change record is the newest-first list, each key is recorded once, and
      the events carry the operations in order. */
  ghost predicate RowsFollow(env: EnvId, rows: Rows, history: seq<Move>)
  {
    && CounterFollows(env, rows, history)
    && LogFollows(env, rows, history)
    && RefsFollow(env, rows, history)
    && ChangesFollow(env, rows, history)
    && KeysFollow(env, rows, history)
    && EventsFollow(env, rows, history)
  }

  ghost predicate CounterFollows(env: EnvId, rows: Rows, history: seq<Move>)
  {
    match Existing(rows, Key(env, SeqKey))
    case Some(Item(Counter(next), version, _, _, _)) => next == |history| + 1 && version == |history| + 1
    case _ => false
  }

  ghost predicate LogFollows(env: EnvId, rows: Rows, history: seq<Move>)
  {
    forall k: int ::
      match Existing(rows, Key(env, OpKey(k)))
      case None => !(1 <= k <= |history|)
      case Some(item) => 1 <= k <= |history| && item.body == Op(EntryOf(history[k - 1], k))
  }

  ghost predicate RefsFollow(env: EnvId, rows: Rows, history: seq<Move>)
  {
    forall name: RefName ::
      match Existing(rows, Key(env, RefKey(name)))
      case None => RefAfter(history, name).None?
      case Some(item) =>
        item.body.Ref? && item.generation == Some(item.body.generation)
        && RefAfter(history, name) == Some((item.body.target, item.body.generation))
  }

  ghost predicate ChangesFollow(env: EnvId, rows: Rows, history: seq<Move>)
  {
    forall change: string ::
      match Existing(rows, Key(env, ChangeKey(change)))
      case None => ChangeAfter(history, change) == []
      case Some(item) => item.body == Change(ChangeAfter(history, change))
  }

  ghost predicate KeysFollow(env: EnvId, rows: Rows, history: seq<Move>)
  {
    && (forall i, j :: 0 <= i < j < |history| && history[i].key.Some? ==> history[i].key != history[j].key)
    && forall key: string ::
         match Existing(rows, Key(env, IdemKey(key)))
         case None => forall i :: 0 <= i < |history| ==> history[i].key != Some(key)
         case Some(item) =>
           item.body.Idempotency? && 1 <= item.body.sequence <= |history|
           && history[item.body.sequence - 1].key == Some(key)
           && history[item.body.sequence - 1].request == item.body.request
  }

  ghost predicate EventsFollow(env: EnvId, rows: Rows, history: seq<Move>)
  {
    var events := EventsOf(rows.outbox, env);
    |events| == |history| && forall k :: 0 <= k < |events| ==> events[k].payload == PayloadOf(history[k], k + 1)
  }

  /** The transaction of that number carried the move's key and request. */
  predicate WasApplied(history: seq<Move>, m: Move, sequence: int)
  {
    && 1 <= sequence <= |history| && m.key.Some?
    && history[sequence - 1].key == m.key && history[sequence - 1].request == m.request
  }

  /** What a client can rely on about what it read or was told. Who is told that the ref
      is missing, after having prepared a move, has been applied. */
  ghost predicate ClientFollows(c: Client, history: seq<Move>)
  {
    match c
    case Counted(_, _, sequence, version) => sequence == version && version <= |history| + 1
    case Built(m, _, sequence, version, seen) =>
      && sequence == version && version <= |history| + 1
      && (version == |history| + 1 && m.change.Some? ==> seen == ChangeAfter(history, m.change.value))
    case Finished(m, Moved(sequence)) => 1 <= sequence <= |history| && history[sequence - 1] == m
    case Finished(m, Replayed(sequence)) => WasApplied(history, m, sequence)
    case ReadingBack(m, sequence) => m.after.Some? && WasApplied(history, m, sequence)
    case Finished(m, Missing) => m.after.Some? && exists sequence :: WasApplied(history, m, sequence)
    case Finished(m, Mismatch) =>
      m.key.Some? && exists i :: 0 <= i < |history| && history[i].key == m.key && history[i].request != m.request
    case _ => true
  }

  ghost predicate Consistent(env: EnvId, s: System)
  {
    && RowsFollow(env, s.rows, s.history)
    && forall id :: id in s.clients ==> ClientFollows(s.clients[id], s.history)
  }

  // ---- one committed transaction ----

  /** The rows after each write of a transaction that went through. */
  lemma WriteByWrite(env: EnvId, rows: Rows, m: Move, sequence: int, version: int, seen: seq<Name>, now: int)
    returns (r1: Rows, r2: Rows, r3: Rows, r4: Rows, r5: Rows)
    requires ApplyAll(rows, Writes(env, m, sequence, version, seen), now).Done?
    ensures ApplyOne(rows, RefWrite(env, m), now) == Done(r1)
    ensures ApplyOne(r1, CounterWrite(env, sequence, version), now) == Done(r2)
    ensures ApplyOne(r2, OpWrite(env, m, sequence), now) == Done(r3)
    ensures ApplyAll(r3, ChangeWrite(env, m, seen), now) == Done(r4)
    ensures ApplyOne(r4, Emit(env, PayloadOf(m, sequence)), now) == Done(r5)
    ensures ApplyAll(r5, KeyWrite(env, m, sequence), now)
              == ApplyAll(rows, Writes(env, m, sequence, version, seen), now)
  {
    hide ApplyOne, ApplyAll, RefWrite, CounterWrite, OpWrite, ChangeWrite, KeyWrite;
    var w1, w2, w3 := RefWrite(env, m), CounterWrite(env, sequence, version), OpWrite(env, m, sequence);
    var w4, w5, w6 := ChangeWrite(env, m, seen), Emit(env, PayloadOf(m, sequence)), KeyWrite(env, m, sequence);
    assert Writes(env, m, sequence, version, seen) == [w1] + ([w2] + ([w3] + (w4 + ([w5] + w6))));
    ApplyFirst(rows, w1, [w2] + ([w3] + (w4 + ([w5] + w6))), now);
    r1 := ApplyOne(rows, w1, now).rows;
    ApplyFirst(r1, w2, [w3] + (w4 + ([w5] + w6)), now);
    r2 := ApplyOne(r1, w2, now).rows;
    ApplyFirst(r2, w3, w4 + ([w5] + w6), now);
    r3 := ApplyOne(r2, w3, now).rows;
    ApplyAllInTurn(r3, w4, [w5] + w6, now);
    r4 := ApplyAll(r3, w4, now).rows;
    ApplyFirst(r4, w5, w6, now);
    r5 := ApplyOne(r4, w5, now).rows;
  }

  /** Everything a committed transaction found, and everything it left. */
  lemma CommitEffect(env: EnvId, rows: Rows, m: Move, sequence: int, version: int, seen: seq<Name>, now: int)
    requires ApplyAll(rows, Writes(env, m, sequence, version, seen), now).Done?
    ensures Holds(Some(m.condition), Existing(rows, Key(env, RefKey(m.name))))
    ensures Holds(Some(VersionIs(version)), Existing(rows, Key(env, SeqKey)))
    ensures m.key.Some? ==> Existing(rows, Key(env, IdemKey(m.key.value))).None?
    ensures var after := ApplyAll(rows, Writes(env, m, sequence, version, seen), now).rows;
            && RefWritten(env, rows, after, m)
            && CounterWritten(env, rows, after, sequence)
            && OpWritten(env, rows, after, m, sequence)
            && ChangeWritten(env, rows, after, m, seen)
            && KeyWritten(env, rows, after, m, sequence)
            && Published(env, rows, after, m, sequence)
  {
    var r1, r2, r3, r4, r5 := WriteByWrite(env, rows, m, sequence, version, seen, now);
    var after := ApplyAll(rows, Writes(env, m, sequence, version, seen), now).rows;
    hide ApplyAll, Writes, ApplyOne;
    OneWrite(rows, RefWrite(env, m), now);
    OneWrite(r1, CounterWrite(env, sequence, version), now);
    OneWrite(r2, OpWrite(env, m, sequence), now);
    MaybeWrite(r3, ChangeWrite(env, m, seen), now);
    OneWrite(r4, Emit(env, PayloadOf(m, sequence)), now);
    MaybeWrite(r5, KeyWrite(env, m, sequence), now);
    ChainWritesRef(env, rows, r1, r2, r3, r4, r5, after, m, sequence, version, seen);
    ChainWritesCounter(env, rows, r1, r2, r3, r4, r5, after, m, sequence, version, seen);
    ChainWritesOp(env, rows, r1, r2, r3, r4, r5, after, m, sequence, version, seen);
    ChainWritesChange(env, rows, r1, r2, r3, r4, r5, after, m, sequence, version, seen);
    ChainWritesKey(env, rows, r1, r2, r3, r4, r5, after, m, sequence, version, seen);
    ChainPublishes(env, rows, r1, r2, r3, r4, r5, after, m, sequence, version, seen);
  }

  /** One event more, numbered next. */
  predicate Appended(a: Rows, b: Rows, pk: EnvId, payload: Payload)
  {
    && |b.outbox| == |a.outbox| + 1 && b.outbox[..|a.outbox|] == a.outbox
    && var e := b.outbox[|a.outbox|]; e.sequence == |a.outbox| + 1 && e.pk == pk && e.payload == payload
  }

  /** `b` is `a` with the one write made; nothing else differs. */
  ghost predicate Wrote(a: Rows, b: Rows, w: WriteOp)
  {
    match w
    case Emit(pk, payload) =>
      Appended(a, b, pk, payload) && forall k :: Existing(b, k) == Existing(a, k)
    case Delete(key, condition) =>
      && b.outbox == a.outbox && Holds(condition, Existing(a, key))
      && (forall k :: k != key ==> Existing(b, k) == Existing(a, k))
      && Existing(b, key).None?
    case Put(key, body, condition, generation) =>
      && b.outbox == a.outbox && Holds(condition, Existing(a, key))
      && (forall k :: k != key ==> Existing(b, k) == Existing(a, k))
      && Existing(b, key).Some? && Existing(b, key).value.body == body
      && Existing(b, key).value.generation == generation
      && Existing(b, key).value.version == (if Existing(a, key).Some? then Existing(a, key).value.version + 1 else 1)
  }

  lemma OneWrite(rows: Rows, w: WriteOp, now: int)
    requires ApplyOne(rows, w, now).Done?
    ensures Wrote(rows, ApplyOne(rows, w, now).rows, w)
  {
  }

  /** At most one write, as the optional writes are. */
  ghost predicate MaybeWrote(a: Rows, b: Rows, ws: seq<WriteOp>)
  {
    if ws == [] then b == a else Wrote(a, b, ws[0])
  }

  lemma MaybeWrite(rows: Rows, ws: seq<WriteOp>, now: int)
    requires |ws| <= 1 && ApplyAll(rows, ws, now).Done?
    ensures MaybeWrote(rows, ApplyAll(rows, ws, now).rows, ws)
  {
    if ws != [] {
      OneWrite(rows, ws[0], now);
      assert ws[1..] == [];
    }
  }

  /** The six writes, one after the other. */
  ghost predicate Chain(env: EnvId, rows: Rows, r1: Rows, r2: Rows, r3: Rows, r4: Rows, r5: Rows, after: Rows,
                 m: Move, sequence: int, version: int, seen: seq<Name>)
  {
    && Wrote(rows, r1, RefWrite(env, m))
    && Wrote(r1, r2, CounterWrite(env, sequence, version))
    && Wrote(r2, r3, OpWrite(env, m, sequence))
    && MaybeWrote(r3, r4, ChangeWrite(env, m, seen))
    && Wrote(r4, r5, Emit(env, PayloadOf(m, sequence)))
    && MaybeWrote(r5, after, KeyWrite(env, m, sequence))
  }

  lemma ChainWritesRef(env: EnvId, rows: Rows, r1: Rows, r2: Rows, r3: Rows, r4: Rows, r5: Rows, after: Rows,
                 m: Move, sequence: int, version: int, seen: seq<Name>)
    requires Chain(env, rows, r1, r2, r3, r4, r5, after, m, sequence, version, seen)
    ensures Holds(Some(m.condition), Existing(rows, Key(env, RefKey(m.name))))
    ensures RefWritten(env, rows, after, m)
  {
    hide Existing;
  }

  lemma ChainWritesCounter(env: EnvId, rows: Rows, r1: Rows, r2: Rows, r3: Rows, r4: Rows, r5: Rows, after: Rows,
                 m: Move, sequence: int, version: int, seen: seq<Name>)
    requires Chain(env, rows, r1, r2, r3, r4, r5, after, m, sequence, version, seen)
    ensures Holds(Some(VersionIs(version)), Existing(rows, Key(env, SeqKey)))
    ensures CounterWritten(env, rows, after, sequence)
  {
    hide Existing;
  }

  lemma ChainWritesOp(env: EnvId, rows: Rows, r1: Rows, r2: Rows, r3: Rows, r4: Rows, r5: Rows, after: Rows,
                 m: Move, sequence: int, version: int, seen: seq<Name>)
    requires Chain(env, rows, r1, r2, r3, r4, r5, after, m, sequence, version, seen)
    ensures OpWritten(env, rows, after, m, sequence)
  {
    hide Existing;
  }

  lemma ChainWritesChange(env: EnvId, rows: Rows, r1: Rows, r2: Rows, r3: Rows, r4: Rows, r5: Rows, after: Rows,
                 m: Move, sequence: int, version: int, seen: seq<Name>)
    requires Chain(env, rows, r1, r2, r3, r4, r5, after, m, sequence, version, seen)
    ensures ChangeWritten(env, rows, after, m, seen)
  {
    hide Existing;
  }

  lemma ChainWritesKey(env: EnvId, rows: Rows, r1: Rows, r2: Rows, r3: Rows, r4: Rows, r5: Rows, after: Rows,
                 m: Move, sequence: int, version: int, seen: seq<Name>)
    requires Chain(env, rows, r1, r2, r3, r4, r5, after, m, sequence, version, seen)
    ensures m.key.Some? ==> Existing(rows, Key(env, IdemKey(m.key.value))).None?
    ensures KeyWritten(env, rows, after, m, sequence)
  {
    hide Existing;
  }

  lemma ChainPublishes(env: EnvId, rows: Rows, r1: Rows, r2: Rows, r3: Rows, r4: Rows, r5: Rows, after: Rows,
                 m: Move, sequence: int, version: int, seen: seq<Name>)
    requires Chain(env, rows, r1, r2, r3, r4, r5, after, m, sequence, version, seen)
    ensures Published(env, rows, after, m, sequence)
  {
    hide Existing;
  }

  ghost predicate Published(env: EnvId, rows: Rows, after: Rows, m: Move, sequence: int)
  {
    Appended(rows, after, env, PayloadOf(m, sequence))
  }

  ghost predicate RefWritten(env: EnvId, rows: Rows, after: Rows, m: Move)
  {
    && (forall name :: name != m.name ==>
         Existing(after, Key(env, RefKey(name))) == Existing(rows, Key(env, RefKey(name))))
    && var item := Existing(after, Key(env, RefKey(m.name)));
       && (item.Some? <==> m.after.Some?)
       && (item.Some? ==>
             item.value.body == Ref(m.after.value, m.generation) && item.value.generation == Some(m.generation))
  }

  ghost predicate CounterWritten(env: EnvId, rows: Rows, after: Rows, sequence: int)
  {
    var was, item := Existing(rows, Key(env, SeqKey)), Existing(after, Key(env, SeqKey));
    was.Some? && item.Some? && item.value.body == Counter(sequence + 1) && item.value.version == was.value.version + 1
  }

  ghost predicate OpWritten(env: EnvId, rows: Rows, after: Rows, m: Move, sequence: int)
  {
    && (forall k :: k != sequence ==> Existing(after, Key(env, OpKey(k))) == Existing(rows, Key(env, OpKey(k))))
    && var item := Existing(after, Key(env, OpKey(sequence)));
       item.Some? && item.value.body == Op(EntryOf(m, sequence))
  }

  ghost predicate ChangeWritten(env: EnvId, rows: Rows, after: Rows, m: Move, seen: seq<Name>)
  {
    && (forall change :: m.after.None? || m.change != Some(change) ==>
          Existing(after, Key(env, ChangeKey(change))) == Existing(rows, Key(env, ChangeKey(change))))
    && (m.change.Some? && m.after.Some? ==>
          var item := Existing(after, Key(env, ChangeKey(m.change.value)));
          item.Some? && item.value.body == Change([m.after.value] + seen))
  }

  ghost predicate KeyWritten(env: EnvId, rows: Rows, after: Rows, m: Move, sequence: int)
  {
    && (forall key :: m.key != Some(key) ==>
          Existing(after, Key(env, IdemKey(key))) == Existing(rows, Key(env, IdemKey(key))))
    && (m.key.Some? ==>
          var item := Existing(after, Key(env, IdemKey(m.key.value)));
          item.Some? && item.value.body == Idempotency(m.request, sequence))
  }

  // ---- every step keeps the invariant ----

  lemma HistoryGrows(history: seq<Move>, m: Move)
    ensures var more := history + [m];
            && (forall name :: RefAfter(more, name) ==
                  if name != m.name then RefAfter(history, name)
                  else if m.after.None? then None else Some((m.after.value, m.generation)))
            && (forall change :: ChangeAfter(more, change) ==
                  (if m.change == Some(change) && m.after.Some? then [m.after.value] else [])
                  + ChangeAfter(history, change))
  {
    assert (history + [m])[..|history|] == history;
  }

  /** What a client must know for its transaction to be right: what it read of the
      counter, and the change record unless somebody has committed since. */
  ghost predicate ReadsHold(history: seq<Move>, m: Move, sequence: int, version: int, seen: seq<Name>)
  {
    && sequence == version && version <= |history| + 1
    && (version == |history| + 1 && m.change.Some? ==> seen == ChangeAfter(history, m.change.value))
  }

  /** A committed transaction is the next move: its sequence is the one after the last,
      and everything stored follows the longer history. */
  lemma CommitKeepsRows(env: EnvId, rows: Rows, history: seq<Move>, m: Move, sequence: int, version: int,
                        seen: seq<Name>, now: int)
    requires RowsFollow(env, rows, history) && ReadsHold(history, m, sequence, version, seen)
    requires ApplyAll(rows, Writes(env, m, sequence, version, seen), now).Done?
    ensures sequence == |history| + 1
    ensures RowsFollow(env, ApplyAll(rows, Writes(env, m, sequence, version, seen), now).rows, history + [m])
  {
    hide Existing, RefsFollow, LogFollows, ChangesFollow, KeysFollow, EventsFollow, ApplyAll, Writes;
    hide RefWritten, OpWritten, ChangeWritten, KeyWritten, Published;
    var after := ApplyAll(rows, Writes(env, m, sequence, version, seen), now).rows;
    CommitEffect(env, rows, m, sequence, version, seen, now);
    HistoryGrows(history, m);
    NextRefs(env, rows, after, history, m);
    NextLog(env, rows, after, history, m, sequence);
    NextChanges(env, rows, after, history, m, seen);
    NextKeys(env, rows, after, history, m, sequence);
    NextEvents(env, rows, after, history, m, sequence);
  }

  lemma NextRefs(env: EnvId, rows: Rows, after: Rows, history: seq<Move>, m: Move)
    requires RefsFollow(env, rows, history) && RefWritten(env, rows, after, m)
    ensures RefsFollow(env, after, history + [m])
  {
    hide Existing, RefAfter;
    HistoryGrows(history, m);
  }

  lemma NextLog(env: EnvId, rows: Rows, after: Rows, history: seq<Move>, m: Move, sequence: int)
    requires LogFollows(env, rows, history) && OpWritten(env, rows, after, m, sequence) && sequence == |history| + 1
    ensures LogFollows(env, after, history + [m])
  {
    hide Existing;
  }

  lemma NextChanges(env: EnvId, rows: Rows, after: Rows, history: seq<Move>, m: Move, seen: seq<Name>)
    requires ChangesFollow(env, rows, history) && ChangeWritten(env, rows, after, m, seen)
    requires m.change.Some? ==> seen == ChangeAfter(history, m.change.value)
    ensures ChangesFollow(env, after, history + [m])
  {
    hide Existing, ChangeAfter;
    HistoryGrows(history, m);
    assert forall commits: seq<Name> :: [] + commits == commits;
  }

  lemma NextKeys(env: EnvId, rows: Rows, after: Rows, history: seq<Move>, m: Move, sequence: int)
    requires KeysFollow(env, rows, history) && KeyWritten(env, rows, after, m, sequence) && sequence == |history| + 1
    requires m.key.Some? ==> Existing(rows, Key(env, IdemKey(m.key.value))).None?
    ensures KeysFollow(env, after, history + [m])
  {
    hide Existing;
  }

  lemma NextEvents(env: EnvId, rows: Rows, after: Rows, history: seq<Move>, m: Move, sequence: int)
    requires EventsFollow(env, rows, history) && Published(env, rows, after, m, sequence) && sequence == |history| + 1
    ensures EventsFollow(env, after, history + [m])
  {
    assert after.outbox[..|after.outbox| - 1] == rows.outbox;
  }

  /** What was true of a client stays true when somebody commits. */
  lemma ClientStays(c: Client, history: seq<Move>, m: Move)
    requires ClientFollows(c, history)
    ensures ClientFollows(c, history + [m])
  {
    if c.Finished? && c.outcome.Mismatch? {
      var i :| 0 <= i < |history| && history[i].key == c.move.key && history[i].request != c.move.request;
      assert (history + [m])[i] == history[i];
    }
    if c.Finished? && c.outcome.Missing? {
      var sequence :| WasApplied(history, c.move, sequence);
      assert WasApplied(history + [m], c.move, sequence);
    }
  }

  /** A refused transaction tells the client nothing but which item was in the way. */
  lemma ReplayFollows(env: EnvId, rows: Rows, history: seq<Move>, m: Move, otherwise: Client)
    requires RowsFollow(env, rows, history) && ClientFollows(otherwise, history)
    ensures ClientFollows(Replay(env, rows, m, otherwise), history)
  {
    if m.key.Some? {
      var item := Existing(rows, Key(env, IdemKey(m.key.value)));
      if item.Some? && item.value.body.Idempotency? && item.value.body.request != m.request {
        assert history[item.value.body.sequence - 1].key == m.key;
      }
    }
  }

  lemma StepKeeps(env: EnvId, s: System, id: ClientId, now: int)
    requires Consistent(env, s) && id in s.clients
    ensures Consistent(env, ClientStep(env, s, id, now))
  {
    hide RowsFollow, ApplyAll, Writes, Existing;
    match s.clients[id]
    case Called(call) =>
    case Prepared(m) =>
      ReplayFollows(env, s.rows, s.history, m, Counting(m, 0));
    case Counting(m, attempts) =>
      CounterRead(env, s.rows, s.history, m, attempts);
    case Counted(m, attempts, sequence, version) =>
      ChangeRead(env, s.rows, s.history, m);
    case Built(m, attempts, sequence, version, seen) =>
      if ApplyAll(s.rows, Writes(env, m, sequence, version, seen), now).Done? {
        CommitKeepsRows(env, s.rows, s.history, m, sequence, version, seen, now);
        forall other | other in s.clients
          ensures ClientFollows(s.clients[other], s.history + [m])
        {
          ClientStays(s.clients[other], s.history, m);
        }
      }
    case Rechecking(m) =>
      ReplayFollows(env, s.rows, s.history, m, Finished(m, Conflicted));
    case ReadingBack(m, sequence) =>
      assert WasApplied(s.history, m, sequence);
    case Finished(_, _) =>
    case Stopped(_, _) =>
  }

  lemma CounterRead(env: EnvId, rows: Rows, history: seq<Move>, m: Move, attempts: nat)
    requires RowsFollow(env, rows, history)
    ensures ReadCounter(env, rows, m, attempts) == Counted(m, attempts, |history| + 1, |history| + 1)
  {
  }

  lemma ChangeRead(env: EnvId, rows: Rows, history: seq<Move>, m: Move)
    requires RowsFollow(env, rows, history)
    ensures m.change.Some? ==> ReadChange(env, rows, m) == ChangeAfter(history, m.change.value)
  {
  }

  /** Other environments of the shard change nothing here. */
  lemma ElsewhereKeeps(env: EnvId, rows: Rows, history: seq<Move>, writes: seq<WriteOp>, now: int)
    requires RowsFollow(env, rows, history) && ApplyAll(rows, writes, now).Done?
    requires forall i :: 0 <= i < |writes| ==> writes[i].Partition() != env
    ensures RowsFollow(env, ApplyAll(rows, writes, now).rows, history)
  {
    TransactionStaysInItsPartition(rows, writes, now, env);
    hide Existing, ApplyAll, RefAfter, ChangeAfter;
  }

  lemma ActKeeps(env: EnvId, s: System, a: Action)
    requires Consistent(env, s)
    ensures Consistent(env, Act(env, s, a))
  {
    hide RowsFollow, ApplyAll;
    match a
    case Start(id, call) =>
    case Step(id, now) =>
      if id in s.clients { StepKeeps(env, s, id, now); }
    case Elsewhere(writes, now) =>
      if (forall i :: 0 <= i < |writes| ==> writes[i].Partition() != env) && ApplyAll(s.rows, writes, now).Done? {
        ElsewhereKeeps(env, s.rows, s.history, writes, now);
      }
  }

  /** What `create_env` leaves: the environment and a counter at 1. */
  function Created(env: EnvId, now: int): (s: System)
  {
    System(Rows(map[Key(env, EnvKey) := Item(EnvBody, 1, None, now, now),
                    Key(env, SeqKey) := Item(Counter(1), 1, None, now, now)], []), map[], [])
  }

  lemma CreatedIsConsistent(env: EnvId, now: int)
    ensures Consistent(env, Created(env, now))
  {
  }

  /** Every run keeps every invariant: whatever the clients, their calls and the order
      of their steps. */
  lemma {:induction false} RunKeeps(env: EnvId, s: System, actions: seq<Action>)
    requires Consistent(env, s)
    ensures Consistent(env, Run(env, s, actions))
    decreases |actions|
  {
    if actions != [] {
      ActKeeps(env, s, actions[0]);
      RunKeeps(env, Act(env, s, actions[0]), actions[1..]);
    }
  }
}
