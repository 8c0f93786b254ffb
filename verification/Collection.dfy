/** Collection over whole runs. */
module Collection {
  // Publishing, moving and deleting refs, rebuilding keep-sets, time passing, forks and
  // enforced sweeps, in any order (src/maintenance/gc.py, src/service/commits.py,
  // src/service/refs.py, src/service/environments.py). Throughout, `objs` is the content
  // of every name, stored or not: a name decides its object.

  import opened ByteStrings
  import opened Model
  import opened TreeNodes
  import opened Closure
  import opened Rebuild
  import opened KeepSets
  import opened Sharding

  type RefName = string

  type SessionId = nat

  /** `graceUs` may be anything: safety does not rest on it. */
  datatype Config = Config(graceUs: int, retentionUs: int, leaseUs: int) {
    predicate Valid() {
      0 < leaseUs <= retentionUs
    }
  }

  /** How far a publish has come: its content recorded, its ref moved. */
  datatype Phase = Begun | Recorded(commit: Name) | Moved(commit: Name)

  datatype WriteSession = WriteSession(env: EnvId, ref: RefName, parent: Option<Name>, beganAt: int, expiresAt: int,
                                       phase: Phase, recorded: set<Name>)

  datatype State = State(stored: map<Name, int>, keep: map<EnvId, set<Name>>, refs: map<EnvId, map<RefName, Name>>,
                         ops: map<EnvId, seq<LoggedMove>>, sessions: map<SessionId, WriteSession>, now: int)

  datatype Action =
    | Begin(id: SessionId, env: EnvId, ref: RefName)
    | Record(id: SessionId, commit: Name, written: set<Name>)
    | MoveRef(id: SessionId)
    | Graduate(id: SessionId)
    | Abort(id: SessionId)
    | SetRef(env: EnvId, ref: RefName, target: Name)
    | DeleteRef(env: EnvId, ref: RefName, complete: bool)
    | RebuildKeep(env: EnvId, complete: bool)
    | Tick(to: int)
    | Sweep
    | Fork(source: EnvId, from: RefName, env: EnvId, ref: RefName)

  // ---- reading a state ----

  function KeepOf(s: State, env: EnvId): (names: set<Name>)
  {
    if env in s.keep then s.keep[env] else {}
  }

  function RefsOf(s: State, env: EnvId): (refs: map<RefName, Name>)
  {
    if env in s.refs then s.refs[env] else map[]
  }

  function OpsOf(s: State, env: EnvId): (ops: seq<LoggedMove>)
  {
    if env in s.ops then s.ops[env] else []
  }

  function Target(s: State, env: EnvId, ref: RefName): (target: Option<Name>)
  {
    if ref in RefsOf(s, env) then Some(RefsOf(s, env)[ref]) else None
  }

  predicate IsCommit(objs: Objects, n: Name)
  {
    n in objs && objs[n].Commit?
  }

  /** A live ref points at `r`. */
  predicate Live(s: State, env: EnvId, r: Name)
  {
    exists ref :: ref in RefsOf(s, env) && RefsOf(s, env)[ref] == r
  }

  /** An operation not older than `since` moved a ref from or to `r`. */
  predicate Logged(s: State, env: EnvId, since: int, r: Name)
  {
    exists i :: 0 <= i < |OpsOf(s, env)| && OpsOf(s, env)[i].atUs >= since
                && (OpsOf(s, env)[i].before == Some(r) || OpsOf(s, env)[i].after == Some(r))
  }

  /** A retention root: the target of a live ref, or a side of a retained operation. */
  predicate IsRoot(cfg: Config, s: State, env: EnvId, r: Name)
  {
    Live(s, env, r) || Logged(s, env, s.now - cfg.retentionUs, r)
  }

  /** What a sweep sees an open session hold. */
  predicate LeaseHolds(s: State, n: Name)
  {
    exists id :: id in s.sessions && s.sessions[id].expiresAt > s.now && n in s.sessions[id].recorded
  }

  predicate Kept(s: State, n: Name)
  {
    exists env :: env in s.keep && n in s.keep[env]
  }

  /** What one enforced sweep takes. */
  predicate Swept(cfg: Config, s: State, n: Name)
  {
    n in s.stored && s.stored[n] <= s.now - cfg.graceUs && !Kept(s, n) && !LeaseHolds(s, n) && !PastTheEnd(n.digest)
  }

  // ---- steps ----

  /** A ref set, moved or removed, and the operation that says so. */
  function WithRef(s: State, env: EnvId, ref: RefName, to: Option<Name>): (s': State)
  {
    var refs := if to.Some? then RefsOf(s, env)[ref := to.value] else RefsOf(s, env) - {ref};
    s.(refs := s.refs[env := refs], ops := s.ops[env := OpsOf(s, env) + [LoggedMove(s.now, Target(s, env, ref), to)]])
  }

  /** A rebuild that walks every history to its end replaces the keep-set; one that gives
      up leaves it. */
  ghost function WithRebuild(objs: Objects, cfg: Config, s: State, env: EnvId, complete: bool): (s': State)
  {
    if complete then s.(keep := s.keep[env := Rebuilt(objs, cfg, s, env)]) else s
  }

  /** What a complete rebuild leaves for an environment. */
  ghost function Rebuilt(objs: Objects, cfg: Config, s: State, env: EnvId): (names: set<Name>)
  {
    set n | n in s.stored && exists r :: IsRoot(cfg, s, env, r) && InHistory(objs, r, n)
  }

  /** The parents a publish gives its commit. */
  function ParentList(parent: Option<Name>): (parents: seq<Name>)
  {
    if parent.None? then [] else [parent.value]
  }

  /** Whether a step can be taken. A build produces a commit on the ref it read, whose
      whole closure is stored by then; nobody looks whether the lease is still open. The
      ref then moves whatever it has become, which includes every move the comparison of
      generations lets through. A session can end, time can pass, and a ref can be set to
      any target, at any point. */
  ghost predicate Enabled(objs: Objects, cfg: Config, s: State, a: Action)
  {
    match a
    case Begin(id, env, ref) => id !in s.sessions
    case Record(id, commit, written) =>
      && id in s.sessions && s.sessions[id].phase.Begun?
      && IsCommit(objs, commit) && Parents(objs, commit) == ParentList(s.sessions[id].parent)
      && forall n :: Keeps(objs, commit, n) ==> n in s.stored || n in written
    case MoveRef(id) => id in s.sessions && s.sessions[id].phase.Recorded?
    case Graduate(id) => id in s.sessions && s.sessions[id].phase.Moved?
    case Abort(id) => id in s.sessions
    case SetRef(env, ref, target) => true
    case DeleteRef(env, ref, complete) => Target(s, env, ref).Some?
    case RebuildKeep(env, complete) => true
    case Tick(to) => s.now <= to
    case Sweep => true
    case Fork(source, from, env, ref) => Target(s, source, from).Some? && Fresh(s, env)
  }

  /** The steps that can put content at risk, and when they do not: a fork of a first
      commit; the end of a session that has moved its ref and not graduated, if what it
      recorded is protected without it; a ref set to a commit its environment protects;
      recording under an open lease, and time passing while no lease runs out between
      recording and graduating. */
  predicate Careful(objs: Objects, s: State, a: Action)
  {
    match a
    case Fork(source, from, env, ref) =>
      Target(s, source, from).Some? ==> FirstCommit(objs, Target(s, source, from).value)
    case Abort(id) =>
      id in s.sessions && s.sessions[id].phase.Moved? ==>
        s.sessions[id].recorded <= Protected(Without(s, id), s.sessions[id].env)
    case SetRef(env, ref, target) => IsCommit(objs, target) && target in Protected(s, env)
    case Record(id, commit, written) => id in s.sessions ==> s.now < s.sessions[id].expiresAt
    case Tick(to) => forall id :: id in s.sessions && !s.sessions[id].phase.Begun? ==> to < s.sessions[id].expiresAt
    case _ => true
  }

  function Without(s: State, id: SessionId): (s': State)
  {
    s.(sessions := s.sessions - {id})
  }

  /** The commit has no parent commit that is stored, other than itself. */
  predicate FirstCommit(objs: Objects, head: Name)
  {
    forall p :: p in Parents(objs, head) && IsCommit(objs, p) ==> p == head
  }

  /** The environment does not exist yet. */
  predicate Fresh(s: State, env: EnvId)
  {
    && env !in s.keep && env !in s.refs && env !in s.ops
    && forall id :: id in s.sessions ==> s.sessions[id].env != env
  }

  /** The head's own closure is its whole history. */
  ghost predicate Covers(objs: Objects, head: Name)
  {
    forall n :: InHistory(objs, head, n) ==> Keeps(objs, head, n)
  }

  /** The names a commit keeps, among those stored. */
  ghost function ClosureOfCommit(objs: Objects, s: State, commit: Name): (names: set<Name>)
  {
    set n | n in s.stored && Keeps(objs, commit, n)
  }

  function Store(s: State, written: set<Name>): (stored: map<Name, int>)
  {
    map n | n in s.stored.Keys + written :: if n in s.stored then s.stored[n] else s.now
  }

  /** `fork`: a ref to the head in a new environment, and the head's closure kept. */
  ghost function Forked(objs: Objects, s: State, head: Name, env: EnvId, ref: RefName): (s': State)
  {
    var s1 := WithRef(s, env, ref, Some(head));
    s1.(keep := s1.keep[env := KeepOf(s, env) + ClosureOfCommit(objs, s, head)])
  }

  ghost function Act(objs: Objects, cfg: Config, s: State, a: Action): (s': State)
    requires Enabled(objs, cfg, s, a)
  {
    match a
    case Begin(id, env, ref) =>
      s.(sessions := s.sessions[id :=
        WriteSession(env, ref, Target(s, env, ref), s.now, s.now + cfg.leaseUs, Begun, {})])
    case Record(id, commit, written) =>
      var s1 := s.(stored := Store(s, written));
      s1.(sessions := s.sessions[id :=
        s.sessions[id].(phase := Recorded(commit), recorded := ClosureOfCommit(objs, s1, commit))])
    case MoveRef(id) =>
      var t := s.sessions[id];
      var s1 := WithRef(s, t.env, t.ref, Some(t.phase.commit));
      s1.(sessions := s.sessions[id := t.(phase := Moved(t.phase.commit))])
    case Graduate(id) =>
      var t := s.sessions[id];
      s.(keep := s.keep[t.env := KeepOf(s, t.env) + t.recorded], sessions := s.sessions - {id})
    case Abort(id) => Without(s, id)
    case SetRef(env, ref, target) => WithRef(s, env, ref, Some(target))
    case DeleteRef(env, ref, complete) => WithRebuild(objs, cfg, WithRef(s, env, ref, None), env, complete)
    case RebuildKeep(env, complete) => WithRebuild(objs, cfg, s, env, complete)
    case Tick(to) => s.(now := to)
    case Sweep => s.(stored := map n | n in s.stored && !Swept(cfg, s, n) :: s.stored[n])
    case Fork(source, from, env, ref) => Forked(objs, s, Target(s, source, from).value, env, ref)
  }

  // ---- what is safe ----

  /** Everything a root's full history reaches is stored. */
  ghost predicate Safe(objs: Objects, cfg: Config, s: State)
  {
    forall env, r, n :: IsRoot(cfg, s, env, r) && InHistory(objs, r, n) ==> n in s.stored
  }

  /** What stands between an environment and the sweep: its keep-set, and what sessions
      that have moved a ref but not graduated still hold. */
  function Protected(s: State, env: EnvId): (names: set<Name>)
  {
    KeepOf(s, env)
    + set id, n | id in s.sessions && s.sessions[id].env == env && s.sessions[id].phase.Moved?
                  && n in s.sessions[id].recorded :: n
  }

  /** Holds, with any commit, what the commit keeps and its parent commits. */
  ghost predicate Closed(objs: Objects, names: set<Name>)
  {
    forall c :: c in names && IsCommit(objs, c) ==>
      && (forall n :: Keeps(objs, c, n) ==> n in names)
      && forall p :: p in Parents(objs, c) && IsCommit(objs, p) ==> p in names
  }

  /** Still a root for a session that began at `since`. */
  predicate Held(s: State, env: EnvId, since: int, r: Name)
  {
    Live(s, env, r) || Logged(s, env, since, r)
  }

  /** What each open session relies on. */
  ghost predicate SessionOk(objs: Objects, cfg: Config, s: State, t: WriteSession)
  {
    && t.expiresAt == t.beganAt + cfg.leaseUs && t.beganAt <= s.now
    && (t.phase.Begun? ==> t.recorded == {})
    && (!t.phase.Begun? ==>
          && s.now < t.expiresAt
          && IsCommit(objs, t.phase.commit) && Parents(objs, t.phase.commit) == ParentList(t.parent)
          && (forall n :: n in t.recorded <==> Keeps(objs, t.phase.commit, n))
          && forall n :: n in t.recorded ==> n in s.stored)
    && (!t.phase.Moved? && s.now < t.expiresAt && t.parent.Some? ==> Held(s, t.env, t.beganAt, t.parent.value))
    && (t.phase.Moved? ==> Held(s, t.env, t.beganAt, t.phase.commit))
  }

  ghost predicate EnvOk(objs: Objects, cfg: Config, s: State, env: EnvId)
  {
    && Closed(objs, Protected(s, env))
    && (forall r :: IsRoot(cfg, s, env, r) ==> r in Protected(s, env) && IsCommit(objs, r))
    && forall n :: n in Protected(s, env) ==> n in s.stored
  }

  ghost predicate Inv(objs: Objects, cfg: Config, s: State)
  {
    && (forall env :: EnvOk(objs, cfg, s, env))
    && forall id :: id in s.sessions ==> SessionOk(objs, cfg, s, s.sessions[id])
  }

  // ---- the invariant is enough ----

  /** A closed set that holds a head holds its whole history. */
  lemma ClosedHoldsHistory(objs: Objects, names: set<Name>, head: Name, n: Name)
    requires Closed(objs, names) && head in names && InHistory(objs, head, n)
    ensures n in names
  {
    var c :| Ancestor(objs, head, c) && Keeps(objs, c, n);
    var path :| Lineage(objs, path) && path[0] == head && path[|path| - 1] == c;
    AlongTheCommits(objs, names, path, |path| - 1);
  }

  lemma {:induction false} AlongTheCommits(objs: Objects, names: set<Name>, path: seq<Name>, i: nat)
    requires Closed(objs, names) && Lineage(objs, path) && path[0] in names && i < |path|
    requires IsCommit(objs, path[i])
    ensures path[i] in names
  {
    if i > 0 {
      assert IsCommit(objs, path[i - 1]);
      AlongTheCommits(objs, names, path, i - 1);
    }
  }

  lemma InvIsSafe(objs: Objects, cfg: Config, s: State)
    requires Inv(objs, cfg, s)
    ensures Safe(objs, cfg, s)
  {
    hide EnvOk, SessionOk;
    ProtectionIsSafe(objs, cfg, s);
  }

  lemma ProtectionIsSafe(objs: Objects, cfg: Config, s: State)
    requires forall env :: EnvOk(objs, cfg, s, env)
    ensures Safe(objs, cfg, s)
  {
    hide IsRoot, InHistory, Closed, Protected;
    forall env, r, n | IsRoot(cfg, s, env, r) && InHistory(objs, r, n)
      ensures n in s.stored
    {
      assert EnvOk(objs, cfg, s, env);
      ClosedHoldsHistory(objs, Protected(s, env), r, n);
    }
  }

  // ---- facts about histories ----

  lemma CommitIsInItsHistory(objs: Objects, c: Name)
    requires IsCommit(objs, c)
    ensures Keeps(objs, c, c) && InHistory(objs, c, c)
  {
    AncestorOfItself(objs, c);
  }

  /** No tree reaches a commit, so a commit that is kept is the commit that keeps it. */
  lemma KeptCommitIsItself(objs: Objects, c: Name, n: Name)
    requires IntactTrees(objs) && Keeps(objs, c, n) && IsCommit(objs, n)
    ensures n == c
  {
  }

  /** A commit of a history brings what it keeps, and its parent commits, into it. */
  lemma HistoryIsClosed(objs: Objects, head: Name, c: Name)
    requires IntactTrees(objs) && IsCommit(objs, c) && InHistory(objs, head, c)
    ensures forall n :: Keeps(objs, c, n) ==> InHistory(objs, head, n)
    ensures forall p :: p in Parents(objs, c) && IsCommit(objs, p) ==> InHistory(objs, head, p)
  {
    hide Ancestor, Intact, InClosure;
    var a :| Ancestor(objs, head, a) && Keeps(objs, a, c);
    KeptCommitIsItself(objs, a, c);
    forall p | p in Parents(objs, c) && IsCommit(objs, p)
      ensures InHistory(objs, head, p)
    {
      AncestorOn(objs, head, c, p);
      CommitIsInItsHistory(objs, p);
    }
  }

  // ---- moving a ref ----

  /** A move adds at most its target to the roots, and takes nothing from those a session
      relies on: what it replaces is logged. */
  lemma WithRefMovesRoots(cfg: Config, s: State, env: EnvId, ref: RefName, to: Option<Name>)
    ensures var s' := WithRef(s, env, ref, to);
            && (forall e, r :: IsRoot(cfg, s', e, r) ==> IsRoot(cfg, s, e, r) || (e == env && to == Some(r)))
            && (forall e, since, r :: since <= s.now && Held(s, e, since, r) ==> Held(s', e, since, r))
            && (to.Some? ==> forall since :: since <= s.now ==> Held(s', env, since, to.value))
            && forall e :: Protected(s', e) == Protected(s, e)
  {
    var s' := WithRef(s, env, ref, to);
    var ops := OpsOf(s, env);
    assert OpsOf(s', env) == ops + [LoggedMove(s.now, Target(s, env, ref), to)];
    forall e, r | IsRoot(cfg, s', e, r)
      ensures IsRoot(cfg, s, e, r) || (e == env && to == Some(r))
    {
      RootBefore(cfg, s, env, ref, to, e, r);
    }
    forall e, since, r | since <= s.now && Held(s, e, since, r)
      ensures Held(s', e, since, r)
    {
      HeldAfter(s, env, ref, to, e, since, r);
    }
    assert to.Some? ==> ref in RefsOf(s', env) && RefsOf(s', env)[ref] == to.value;
  }

  lemma RootBefore(cfg: Config, s: State, env: EnvId, ref: RefName, to: Option<Name>, e: EnvId, r: Name)
    requires IsRoot(cfg, WithRef(s, env, ref, to), e, r)
    ensures IsRoot(cfg, s, e, r) || (e == env && to == Some(r))
  {
    var s' := WithRef(s, env, ref, to);
    if e == env {
      if Live(s', e, r) {
        var f :| f in RefsOf(s', e) && RefsOf(s', e)[f] == r;
        assert f != ref ==> f in RefsOf(s, e) && RefsOf(s, e)[f] == r;
      } else {
        var i :| 0 <= i < |OpsOf(s', e)| && OpsOf(s', e)[i].atUs >= s'.now - cfg.retentionUs
                 && (OpsOf(s', e)[i].before == Some(r) || OpsOf(s', e)[i].after == Some(r));
        assert i == |OpsOf(s, e)| || OpsOf(s, e)[i] == OpsOf(s', e)[i];
      }
    } else {
      assert RefsOf(s', e) == RefsOf(s, e) && OpsOf(s', e) == OpsOf(s, e);
    }
  }

  lemma HeldAfter(s: State, env: EnvId, ref: RefName, to: Option<Name>, e: EnvId, since: int, r: Name)
    requires since <= s.now && Held(s, e, since, r)
    ensures Held(WithRef(s, env, ref, to), e, since, r)
  {
    var s' := WithRef(s, env, ref, to);
    if e == env {
      var ops := OpsOf(s, env);
      assert OpsOf(s', env) == ops + [LoggedMove(s.now, Target(s, env, ref), to)];
      if Live(s, e, r) {
        var f :| f in RefsOf(s, e) && RefsOf(s, e)[f] == r;
        if f == ref {
          assert OpsOf(s', env)[|ops|].before == Some(r);
        } else {
          assert f in RefsOf(s', e) && RefsOf(s', e)[f] == r;
        }
      } else {
        var i :| 0 <= i < |ops| && ops[i].atUs >= since && (ops[i].before == Some(r) || ops[i].after == Some(r));
        assert OpsOf(s', env)[i] == ops[i];
      }
    } else {
      assert RefsOf(s', e) == RefsOf(s, e) && OpsOf(s', e) == OpsOf(s, e);
    }
  }

  /** A session that is still a root's keeper by its own start is a root. */
  lemma HeldIsRoot(cfg: Config, s: State, env: EnvId, since: int, r: Name)
    requires Held(s, env, since, r) && since >= s.now - cfg.retentionUs
    ensures IsRoot(cfg, s, env, r)
  {
  }

  lemma SessionStays(objs: Objects, cfg: Config, s: State, s': State, t: WriteSession)
    requires SessionOk(objs, cfg, s, t) && s'.now == s.now
    requires forall n :: n in t.recorded && n in s.stored ==> n in s'.stored
    requires forall r :: Held(s, t.env, t.beganAt, r) ==> Held(s', t.env, t.beganAt, r)
    ensures SessionOk(objs, cfg, s', t)
  {
    hide Held;
  }

  lemma SetRefKeeps(objs: Objects, cfg: Config, s: State, env: EnvId, ref: RefName, to: Option<Name>)
    requires Inv(objs, cfg, s)
    requires to.Some? ==> IsCommit(objs, to.value) && to.value in Protected(s, env)
    ensures Inv(objs, cfg, WithRef(s, env, ref, to))
  {
    hide IsRoot, Held, Closed, Protected;
    var s' := WithRef(s, env, ref, to);
    WithRefMovesRoots(cfg, s, env, ref, to);
    forall e
      ensures EnvOk(objs, cfg, s', e)
    {
      assert EnvOk(objs, cfg, s, e);
    }
    forall id | id in s'.sessions
      ensures SessionOk(objs, cfg, s', s'.sessions[id])
    {
      SessionStays(objs, cfg, s, s', s.sessions[id]);
    }
  }

  // ---- each step keeps the invariant ----

  lemma SameProtection(s: State, s': State, env: EnvId)
    requires KeepOf(s', env) == KeepOf(s, env)
    requires forall id, n :: (id in s'.sessions && s'.sessions[id].env == env && s'.sessions[id].phase.Moved?
                              && n in s'.sessions[id].recorded)
                             <==> (id in s.sessions && s.sessions[id].env == env && s.sessions[id].phase.Moved?
                                   && n in s.sessions[id].recorded)
    ensures Protected(s', env) == Protected(s, env)
  {
  }

  /** Refs and operations untouched, nothing more is a root and nothing less is held. */
  lemma SameRefs(cfg: Config, s: State, s': State)
    requires s'.refs == s.refs && s'.ops == s.ops && s.now <= s'.now
    ensures forall e, r :: IsRoot(cfg, s', e, r) ==> IsRoot(cfg, s, e, r)
    ensures forall e, since, r :: Held(s', e, since, r) == Held(s, e, since, r)
  {
    assert forall e :: OpsOf(s', e) == OpsOf(s, e) && RefsOf(s', e) == RefsOf(s, e);
    forall e, r | IsRoot(cfg, s', e, r)
      ensures IsRoot(cfg, s, e, r)
    {
      if !Live(s', e, r) {
        var ops := OpsOf(s', e);
        var i :| 0 <= i < |ops| && ops[i].atUs >= s'.now - cfg.retentionUs
            && (ops[i].before == Some(r) || ops[i].after == Some(r));
        assert OpsOf(s, e) == ops;
      }
    }
  }

  /** An environment whose protection, roots and storage are not worse is still sound. */
  lemma EnvStays(objs: Objects, cfg: Config, s: State, s': State, env: EnvId)
    requires EnvOk(objs, cfg, s, env) && Protected(s', env) == Protected(s, env)
    requires forall r :: IsRoot(cfg, s', env, r) ==> IsRoot(cfg, s, env, r)
    requires forall n :: n in Protected(s, env) && n in s.stored ==> n in s'.stored
    ensures EnvOk(objs, cfg, s', env)
  {
    hide IsRoot, Protected, Closed;
  }

  lemma BeginKeeps(objs: Objects, cfg: Config, s: State, id: SessionId, env: EnvId, ref: RefName)
    requires cfg.Valid() && Inv(objs, cfg, s) && Enabled(objs, cfg, s, Begin(id, env, ref))
    ensures Inv(objs, cfg, Act(objs, cfg, s, Begin(id, env, ref)))
  {
    var s' := Act(objs, cfg, s, Begin(id, env, ref));
    SameRefs(cfg, s, s');
    hide IsRoot, Protected, Closed;
    forall e
      ensures EnvOk(objs, cfg, s', e)
    {
      assert EnvOk(objs, cfg, s, e);
      SameProtection(s, s', e);
      EnvStays(objs, cfg, s, s', e);
    }
    forall other | other in s'.sessions
      ensures SessionOk(objs, cfg, s', s'.sessions[other])
    {
      if other != id {
        SessionStays(objs, cfg, s, s', s.sessions[other]);
      } else if Target(s, env, ref).Some? {
        assert ref in RefsOf(s', env) && RefsOf(s', env)[ref] == Target(s, env, ref).value;
      }
    }
  }

  /** Recording takes nothing from what the environments protect, however late. */
  lemma RecordProtects(objs: Objects, cfg: Config, s: State, id: SessionId, commit: Name, written: set<Name>)
    requires Inv(objs, cfg, s) && Enabled(objs, cfg, s, Record(id, commit, written))
    ensures forall e :: EnvOk(objs, cfg, Act(objs, cfg, s, Record(id, commit, written)), e)
    ensures forall e :: Protected(Act(objs, cfg, s, Record(id, commit, written)), e) == Protected(s, e)
  {
    var s' := Act(objs, cfg, s, Record(id, commit, written));
    SameRefs(cfg, s, s');
    hide IsRoot, Protected, Closed, Held;
    forall e
      ensures EnvOk(objs, cfg, s', e) && Protected(s', e) == Protected(s, e)
    {
      assert EnvOk(objs, cfg, s, e);
      SameProtection(s, s', e);
      EnvStays(objs, cfg, s, s', e);
    }
  }

  lemma RecordKeepsIff(objs: Objects, cfg: Config, s: State, id: SessionId, commit: Name, written: set<Name>)
    requires cfg.Valid() && Inv(objs, cfg, s) && Enabled(objs, cfg, s, Record(id, commit, written))
    ensures Inv(objs, cfg, Act(objs, cfg, s, Record(id, commit, written)))
            <==> Careful(objs, s, Record(id, commit, written))
  {
    var s' := Act(objs, cfg, s, Record(id, commit, written));
    if Careful(objs, s, Record(id, commit, written)) {
      RecordKeeps(objs, cfg, s, id, commit, written);
    }
    if Inv(objs, cfg, s') {
      assert SessionOk(objs, cfg, s', s'.sessions[id]);
    }
  }

  lemma RecordKeeps(objs: Objects, cfg: Config, s: State, id: SessionId, commit: Name, written: set<Name>)
    requires cfg.Valid() && Inv(objs, cfg, s) && Enabled(objs, cfg, s, Record(id, commit, written))
    requires Careful(objs, s, Record(id, commit, written))
    ensures Inv(objs, cfg, Act(objs, cfg, s, Record(id, commit, written)))
  {
    var s' := Act(objs, cfg, s, Record(id, commit, written));
    SameRefs(cfg, s, s');
    RecordProtects(objs, cfg, s, id, commit, written);
    hide IsRoot, Protected, Closed, Held, EnvOk;
    forall other | other in s'.sessions
      ensures SessionOk(objs, cfg, s', s'.sessions[other])
    {
      assert SessionOk(objs, cfg, s, s.sessions[other]);
      if other != id {
        SessionStays(objs, cfg, s, s', s.sessions[other]);
      }
    }
  }

  /** Protection is keep-set plus what moved sessions hold: graduating passes a session's
      content from the one to the other. */
  lemma GraduateProtects(s: State, id: SessionId, env: EnvId)
    requires id in s.sessions && s.sessions[id].phase.Moved?
    ensures var t := s.sessions[id];
            var s' := s.(keep := s.keep[t.env := KeepOf(s, t.env) + t.recorded], sessions := s.sessions - {id});
            Protected(s', env) == Protected(s, env)
  {
    var t := s.sessions[id];
    var s' := s.(keep := s.keep[t.env := KeepOf(s, t.env) + t.recorded], sessions := s.sessions - {id});
    forall n
      ensures n in Protected(s', env) <==> n in Protected(s, env)
    {
      if n in Protected(s, env) && n !in KeepOf(s, env) {
        var other :| other in s.sessions && s.sessions[other].env == env && s.sessions[other].phase.Moved?
                     && n in s.sessions[other].recorded;
        assert other != id ==> other in s'.sessions;
      }
    }
  }

  /** A session that ends takes no protection with it, if what it recorded is protected
      by others. */
  lemma AbortProtects(objs: Objects, s: State, id: SessionId, env: EnvId)
    requires Careful(objs, s, Abort(id))
    ensures Protected(Without(s, id), env) == Protected(s, env)
  {
    var s' := Without(s, id);
    forall n
      ensures n in Protected(s', env) <==> n in Protected(s, env)
    {
      if n in Protected(s, env) && n !in KeepOf(s, env) {
        var other :| other in s.sessions && s.sessions[other].env == env && s.sessions[other].phase.Moved?
                     && n in s.sessions[other].recorded;
        assert other != id ==> other in s'.sessions;
      }
    }
  }

  lemma EndKeeps(objs: Objects, cfg: Config, s: State, a: Action)
    requires cfg.Valid() && Inv(objs, cfg, s) && Enabled(objs, cfg, s, a) && (a.Graduate? || a.Abort?)
    requires Careful(objs, s, a)
    ensures Inv(objs, cfg, Act(objs, cfg, s, a))
  {
    var s' := Act(objs, cfg, s, a);
    SameRefs(cfg, s, s');
    hide IsRoot, Closed, Held;
    forall e
      ensures EnvOk(objs, cfg, s', e)
    {
      assert EnvOk(objs, cfg, s, e);
      if a.Graduate? { GraduateProtects(s, a.id, e); } else { AbortProtects(objs, s, a.id, e); }
      EnvStays(objs, cfg, s, s', e);
    }
    forall other | other in s'.sessions
      ensures SessionOk(objs, cfg, s', s'.sessions[other])
    {
      SessionStays(objs, cfg, s, s', s.sessions[other]);
    }
  }

  /** And only then: the commit of a session that has moved its ref is a root, and all
      its content has to be protected. */
  lemma AbortKeepsIff(objs: Objects, cfg: Config, s: State, id: SessionId)
    requires cfg.Valid() && Inv(objs, cfg, s) && id in s.sessions
    ensures Inv(objs, cfg, Without(s, id)) <==> Careful(objs, s, Abort(id))
  {
    var s', t := Without(s, id), s.sessions[id];
    SameRefs(cfg, s', s);
    hide IsRoot, Held, Closed, Protected;
    if Careful(objs, s, Abort(id)) {
      EndKeeps(objs, cfg, s, Abort(id));
    }
    if Inv(objs, cfg, s') && t.phase.Moved? {
      assert SessionOk(objs, cfg, s, t);
      HeldIsRoot(cfg, s, t.env, t.beganAt, t.phase.commit);
      assert EnvOk(objs, cfg, s', t.env);
      assert IsRoot(cfg, s', t.env, t.phase.commit) by { SameRefs(cfg, s', s); }
      ClosedHoldsKept(objs, Protected(s', t.env), t.phase.commit);
    }
  }

  lemma ClosedHoldsKept(objs: Objects, names: set<Name>, c: Name)
    requires Closed(objs, names) && c in names && IsCommit(objs, c)
    ensures forall n :: Keeps(objs, c, n) ==> n in names
  {
  }

  lemma TickKeepsIff(objs: Objects, cfg: Config, s: State, to: int)
    requires cfg.Valid() && Inv(objs, cfg, s) && Enabled(objs, cfg, s, Tick(to))
    ensures Inv(objs, cfg, Act(objs, cfg, s, Tick(to))) <==> Careful(objs, s, Tick(to))
  {
    if Careful(objs, s, Tick(to)) {
      TickKeeps(objs, cfg, s, to);
    }
    if Inv(objs, cfg, Act(objs, cfg, s, Tick(to))) {
      forall id | id in s.sessions && !s.sessions[id].phase.Begun?
        ensures to < s.sessions[id].expiresAt
      {
        assert SessionOk(objs, cfg, Act(objs, cfg, s, Tick(to)), s.sessions[id]);
      }
    }
  }

  /** Waiting takes nothing from what the environments protect, and loses nothing yet,
      whatever leases run out. */
  lemma WaitProtects(objs: Objects, cfg: Config, s: State, to: int)
    requires (forall e :: EnvOk(objs, cfg, s, e)) && s.now <= to
    ensures forall e :: EnvOk(objs, cfg, s.(now := to), e) && Protected(s.(now := to), e) == Protected(s, e)
    ensures Safe(objs, cfg, s.(now := to))
  {
    var s' := s.(now := to);
    SameRefs(cfg, s, s');
    hide IsRoot, Closed, Held, Protected, InHistory;
    forall e
      ensures EnvOk(objs, cfg, s', e) && Protected(s', e) == Protected(s, e)
    {
      assert EnvOk(objs, cfg, s, e);
      SameProtection(s, s', e);
      EnvStays(objs, cfg, s, s', e);
    }
    ProtectionIsSafe(objs, cfg, s');
  }

  lemma TickKeeps(objs: Objects, cfg: Config, s: State, to: int)
    requires cfg.Valid() && Inv(objs, cfg, s) && Enabled(objs, cfg, s, Tick(to)) && Careful(objs, s, Tick(to))
    ensures Inv(objs, cfg, Act(objs, cfg, s, Tick(to)))
  {
    var s' := Act(objs, cfg, s, Tick(to));
    SameRefs(cfg, s, s');
    WaitProtects(objs, cfg, s, to);
    hide IsRoot, Closed, Held, Protected, EnvOk;
    forall id | id in s'.sessions
      ensures SessionOk(objs, cfg, s', s'.sessions[id])
    {
      assert SessionOk(objs, cfg, s, s.sessions[id]);
    }
  }

  /** A sweep takes nothing an environment keeps or a session holds. */
  lemma SweepKeeps(objs: Objects, cfg: Config, s: State)
    requires cfg.Valid() && Inv(objs, cfg, s)
    ensures Inv(objs, cfg, Act(objs, cfg, s, Sweep))
  {
    var s' := Act(objs, cfg, s, Sweep);
    SameRefs(cfg, s, s');
    hide IsRoot, Closed, Held;
    forall e
      ensures EnvOk(objs, cfg, s', e)
    {
      assert EnvOk(objs, cfg, s, e);
      SameProtection(s, s', e);
      forall n | n in Protected(s, e)
        ensures !Swept(cfg, s, n)
      {
        if n in KeepOf(s, e) {
          assert e in s.keep && n in s.keep[e];
        } else {
          var id :| id in s.sessions && s.sessions[id].env == e && s.sessions[id].phase.Moved?
              && n in s.sessions[id].recorded;
          assert SessionOk(objs, cfg, s, s.sessions[id]);
        }
      }
      EnvStays(objs, cfg, s, s', e);
    }
    forall id | id in s'.sessions
      ensures SessionOk(objs, cfg, s', s'.sessions[id])
    {
      assert SessionOk(objs, cfg, s, s.sessions[id]);
      forall n | n in s.sessions[id].recorded
        ensures !Swept(cfg, s, n)
      {
      }
      SessionStays(objs, cfg, s, s', s.sessions[id]);
    }
  }

  /** A commit whose parent commits are in a closed set joins it with what it keeps. */
  lemma ClosureJoins(objs: Objects, names: set<Name>, c: Name, kept: set<Name>)
    requires IntactTrees(objs) && Closed(objs, names) && IsCommit(objs, c)
    requires forall n :: n in kept <==> Keeps(objs, c, n)
    requires forall p :: p in Parents(objs, c) && IsCommit(objs, p) ==> p in names + kept
    ensures Closed(objs, names + kept)
  {
    hide Intact, Keeps;
    forall d | d in names + kept && IsCommit(objs, d)
      ensures forall n :: Keeps(objs, d, n) ==> n in names + kept
      ensures forall p :: p in Parents(objs, d) && IsCommit(objs, p) ==> p in names + kept
    {
      if d !in names {
        KeptCommitIsItself(objs, c, d);
      }
    }
  }

  /** The commit a session has recorded can join what its environment protects: it is
      closed over, because its parent is still a root. */
  lemma RecordedJoins(objs: Objects, cfg: Config, s: State, id: SessionId)
    requires cfg.Valid() && IntactTrees(objs) && Inv(objs, cfg, s)
    requires id in s.sessions && s.sessions[id].phase.Recorded?
    ensures var t := s.sessions[id];
            && Closed(objs, Protected(s, t.env) + t.recorded) && t.phase.commit in t.recorded
            && forall n :: n in Protected(s, t.env) + t.recorded ==> n in s.stored
  {
    hide IsRoot, Protected, Held, Intact;
    var t := s.sessions[id];
    assert SessionOk(objs, cfg, s, t) && EnvOk(objs, cfg, s, t.env);
    if t.parent.Some? {
      HeldIsRoot(cfg, s, t.env, t.beganAt, t.parent.value);
    }
    CommitIsInItsHistory(objs, t.phase.commit);
    ClosureJoins(objs, Protected(s, t.env), t.phase.commit, t.recorded);
  }

  /** The protection of an environment after one of its sessions has moved its ref. */
  lemma MovedProtection(s: State, s': State, id: SessionId, env: EnvId)
    requires id in s.sessions && s.sessions[id].phase.Recorded?
    requires s'.keep == s.keep
    requires s'.sessions == s.sessions[id := s.sessions[id].(phase := Moved(s.sessions[id].phase.commit))]
    ensures Protected(s', env) ==
            if env == s.sessions[id].env then Protected(s, env) + s.sessions[id].recorded else Protected(s, env)
  {
    var t := s.sessions[id];
    forall n
      ensures n in Protected(s', env) <==>
                n in Protected(s, env) || (env == t.env && n in t.recorded)
    {
      if n in Protected(s, env) && n !in KeepOf(s, env) {
        var other :| other in s.sessions && s.sessions[other].env == env && s.sessions[other].phase.Moved?
                     && n in s.sessions[other].recorded;
        assert other in s'.sessions && s'.sessions[other] == s.sessions[other];
      }
      if env == t.env && n in t.recorded {
        assert id in s'.sessions && s'.sessions[id].phase.Moved? && n in s'.sessions[id].recorded;
      }
    }
  }

  lemma MoveRefKeeps(objs: Objects, cfg: Config, s: State, id: SessionId)
    requires cfg.Valid() && IntactTrees(objs) && Inv(objs, cfg, s) && Enabled(objs, cfg, s, MoveRef(id))
    ensures Inv(objs, cfg, Act(objs, cfg, s, MoveRef(id)))
  {
    hide IsRoot, Closed, Held, Protected;
    var t := s.sessions[id];
    var s1 := WithRef(s, t.env, t.ref, Some(t.phase.commit));
    var s' := Act(objs, cfg, s, MoveRef(id));
    WithRefMovesRoots(cfg, s, t.env, t.ref, Some(t.phase.commit));
    SameRefs(cfg, s1, s');
    RecordedJoins(objs, cfg, s, id);
    forall e
      ensures EnvOk(objs, cfg, s', e)
    {
      assert EnvOk(objs, cfg, s, e);
      MovedProtection(s, s', id, e);
    }
    forall other | other in s'.sessions
      ensures SessionOk(objs, cfg, s', s'.sessions[other])
    {
      assert SessionOk(objs, cfg, s, s.sessions[other]);
      if other != id {
        SessionStays(objs, cfg, s, s', s.sessions[other]);
      }
    }
  }

  /** Every root's history is among what a rebuild finds. */
  lemma RebuiltHoldsHistories(objs: Objects, cfg: Config, s: State, env: EnvId, r: Name, n: Name)
    requires Inv(objs, cfg, s) && IsRoot(cfg, s, env, r) && InHistory(objs, r, n)
    ensures n in Rebuilt(objs, cfg, s, env)
  {
    hide IsRoot, InHistory;
    InvIsSafe(objs, cfg, s);
  }

  lemma RebuiltIsClosed(objs: Objects, cfg: Config, s: State, env: EnvId)
    requires cfg.Valid() && IntactTrees(objs) && Inv(objs, cfg, s)
    ensures Closed(objs, Rebuilt(objs, cfg, s, env))
  {
    hide IsRoot, InHistory, Keeps;
    var names := Rebuilt(objs, cfg, s, env);
    forall c | c in names && IsCommit(objs, c)
      ensures forall n :: Keeps(objs, c, n) ==> n in names
      ensures forall p :: p in Parents(objs, c) && IsCommit(objs, p) ==> p in names
    {
      var r :| IsRoot(cfg, s, env, r) && InHistory(objs, r, c);
      HistoryIsClosed(objs, r, c);
      forall n | InHistory(objs, r, n)
        ensures n in names
      {
        RebuiltHoldsHistories(objs, cfg, s, env, r, n);
      }
    }
  }

  lemma RebuildKeeps(objs: Objects, cfg: Config, s: State, env: EnvId)
    requires cfg.Valid() && IntactTrees(objs) && Inv(objs, cfg, s)
    ensures Inv(objs, cfg, s.(keep := s.keep[env := Rebuilt(objs, cfg, s, env)]))
  {
    hide IsRoot, Held, InHistory, Intact, Rebuilt;
    var s' := s.(keep := s.keep[env := Rebuilt(objs, cfg, s, env)]);
    SameRefs(cfg, s, s');
    forall e
      ensures EnvOk(objs, cfg, s', e)
    {
      assert EnvOk(objs, cfg, s, e);
      if e == env {
        RebuiltEnv(objs, cfg, s, s', env);
      } else {
        SameProtection(s, s', e);
        EnvStays(objs, cfg, s, s', e);
      }
    }
    forall id | id in s'.sessions
      ensures SessionOk(objs, cfg, s', s'.sessions[id])
    {
      SessionStays(objs, cfg, s, s', s.sessions[id]);
    }
  }

  /** What a moved session holds, the rebuild has found too: its commit is a root. */
  lemma MovedIsRebuilt(objs: Objects, cfg: Config, s: State, id: SessionId, n: Name)
    requires cfg.Valid() && Inv(objs, cfg, s)
    requires id in s.sessions && s.sessions[id].phase.Moved? && n in s.sessions[id].recorded
    ensures n in Rebuilt(objs, cfg, s, s.sessions[id].env)
  {
    hide IsRoot, Held, Rebuilt;
    var t := s.sessions[id];
    assert SessionOk(objs, cfg, s, t);
    HeldIsRoot(cfg, s, t.env, t.beganAt, t.phase.commit);
    AncestorOfItself(objs, t.phase.commit);
    RebuiltHoldsHistories(objs, cfg, s, t.env, t.phase.commit, n);
  }

  lemma RebuiltEnv(objs: Objects, cfg: Config, s: State, s': State, env: EnvId)
    requires cfg.Valid() && IntactTrees(objs) && Inv(objs, cfg, s)
    requires s' == s.(keep := s.keep[env := Rebuilt(objs, cfg, s, env)])
    requires forall r :: IsRoot(cfg, s', env, r) ==> IsRoot(cfg, s, env, r)
    ensures EnvOk(objs, cfg, s', env)
  {
    hide IsRoot, Held, InHistory, Intact;
    var names := Rebuilt(objs, cfg, s, env);
    RebuiltIsClosed(objs, cfg, s, env);
    assert KeepOf(s', env) == names;
    forall n | n in Protected(s', env)
      ensures n in names
    {
      if n !in names {
        var id :| id in s'.sessions && s'.sessions[id].env == env && s'.sessions[id].phase.Moved?
                  && n in s'.sessions[id].recorded;
        MovedIsRebuilt(objs, cfg, s, id, n);
      }
    }
    assert Protected(s', env) == names;
    assert EnvOk(objs, cfg, s, env);
    forall r | IsRoot(cfg, s, env, r)
      ensures r in names
    {
      CommitIsInItsHistory(objs, r);
      RebuiltHoldsHistories(objs, cfg, s, env, r, r);
    }
  }

  /** The own closure of a commit is its whole history exactly when it is a first commit. */
  lemma CoversIffFirst(objs: Objects, head: Name)
    requires IntactTrees(objs) && IsCommit(objs, head)
    ensures Covers(objs, head) <==> FirstCommit(objs, head)
  {
    hide Intact, InClosure;
    if Covers(objs, head) {
      forall p | p in Parents(objs, head) && IsCommit(objs, p)
        ensures p == head
      {
        ParentIsInHistory(objs, head, p);
        KeptCommitIsItself(objs, head, p);
      }
    }
    if FirstCommit(objs, head) {
      forall n | InHistory(objs, head, n)
        ensures Keeps(objs, head, n)
      {
        var c :| Ancestor(objs, head, c) && Keeps(objs, c, n);
        var path :| Lineage(objs, path) && path[0] == head && path[|path| - 1] == c;
        NothingBehindAFirstCommit(objs, head, path, |path| - 1);
      }
    }
  }

  lemma ParentIsInHistory(objs: Objects, head: Name, p: Name)
    requires p in Parents(objs, head) && IsCommit(objs, p)
    ensures InHistory(objs, head, p)
  {
    AncestorOfItself(objs, head);
    AncestorOn(objs, head, head, p);
    CommitIsInItsHistory(objs, p);
  }

  lemma {:induction false} NothingBehindAFirstCommit(objs: Objects, head: Name, path: seq<Name>, i: nat)
    requires FirstCommit(objs, head) && Lineage(objs, path) && path[0] == head && i < |path|
    requires IsCommit(objs, path[i])
    ensures path[i] == head
  {
    if i > 0 {
      assert IsCommit(objs, path[i - 1]);
      NothingBehindAFirstCommit(objs, head, path, i - 1);
    }
  }

  /** A fork keeps its head's own closure. That is sound exactly when the head is a first
      commit. */
  lemma ForkIsSoundIff(objs: Objects, cfg: Config, s: State, source: EnvId, from: RefName, env: EnvId, ref: RefName)
    requires cfg.Valid() && IntactTrees(objs) && Inv(objs, cfg, s)
    requires Target(s, source, from).Some? && Fresh(s, env)
    ensures var head := Target(s, source, from).value;
            EnvOk(objs, cfg, Forked(objs, s, head, env, ref), env) <==> FirstCommit(objs, head)
  {
    hide IsRoot, InHistory, Held, Intact, Keeps, FirstCommit;
    var head := Target(s, source, from).value;
    var s' := Forked(objs, s, head, env, ref);
    assert Live(s, source, head) && EnvOk(objs, cfg, s, source);
    LiveIsRoot(cfg, s, source, head);
    ForkedProtection(objs, cfg, s, source, head, env, ref);
    ForkedRoots(objs, cfg, s, head, env, ref);
    CommitIsInItsHistory(objs, head);
    CoversIffFirst(objs, head);
    if Covers(objs, head) {
      CoveredIsClosed(objs, head, Protected(s', env));
    } else {
      var n :| InHistory(objs, head, n) && !Keeps(objs, head, n);
      if EnvOk(objs, cfg, s', env) {
        ClosedHoldsHistory(objs, Protected(s', env), head, n);
      }
    }
  }

  lemma LiveIsRoot(cfg: Config, s: State, env: EnvId, r: Name)
    requires Live(s, env, r)
    ensures IsRoot(cfg, s, env, r)
  {
  }

  /** The head's closure is stored, and is all the new environment protects. */
  lemma ForkedProtection(objs: Objects, cfg: Config, s: State, source: EnvId, head: Name, env: EnvId, ref: RefName)
    requires EnvOk(objs, cfg, s, source) && IsRoot(cfg, s, source, head) && Fresh(s, env)
    ensures var s' := Forked(objs, s, head, env, ref);
            && IsCommit(objs, head)
            && (forall n :: n in Protected(s', env) <==> Keeps(objs, head, n))
            && (forall n :: n in Protected(s', env) ==> n in s'.stored)
            && forall e :: e != env ==> Protected(s', e) == Protected(s, e)
  {
    hide IsRoot, Keeps;
    var s' := Forked(objs, s, head, env, ref);
    assert KeepOf(s', env) == ClosureOfCommit(objs, s, head);
    forall n | Keeps(objs, head, n)
      ensures n in s.stored
    {
      assert n in Protected(s, source);
    }
    forall e | e != env
      ensures Protected(s', e) == Protected(s, e)
    {
      SameProtection(s, s', e);
    }
  }

  /** The head is the new environment's only root; the others keep theirs. */
  lemma ForkedRoots(objs: Objects, cfg: Config, s: State, head: Name, env: EnvId, ref: RefName)
    requires Fresh(s, env)
    ensures var s' := Forked(objs, s, head, env, ref);
            && (forall r :: IsRoot(cfg, s', env, r) ==> r == head) && Live(s', env, head) && IsRoot(cfg, s', env, head)
            && (forall e, r :: e != env && IsRoot(cfg, s', e, r) ==> IsRoot(cfg, s, e, r))
            && forall e, since, r :: since <= s.now && Held(s, e, since, r) ==> Held(s', e, since, r)
  {
    var s1 := WithRef(s, env, ref, Some(head));
    var s' := Forked(objs, s, head, env, ref);
    WithRefMovesRoots(cfg, s, env, ref, Some(head));
    SameRefs(cfg, s1, s');
    assert RefsOf(s', env)[ref] == head;
    assert RefsOf(s, env) == map[] && OpsOf(s, env) == [];
    forall r | IsRoot(cfg, s', env, r)
      ensures r == head
    {
      assert !Live(s, env, r) && !Logged(s, env, s.now - cfg.retentionUs, r);
    }
  }

  lemma CoveredIsClosed(objs: Objects, head: Name, names: set<Name>)
    requires IntactTrees(objs) && Covers(objs, head) && IsCommit(objs, head)
    requires forall n :: n in names <==> Keeps(objs, head, n)
    ensures Closed(objs, names)
  {
    hide InHistory, Keeps, Intact;
    CommitIsInItsHistory(objs, head);
    HistoryIsClosed(objs, head, head);
    forall c | c in names && IsCommit(objs, c)
      ensures c == head
    {
      KeptCommitIsItself(objs, head, c);
    }
  }

  lemma ForkKeepsIff(objs: Objects, cfg: Config, s: State, source: EnvId, from: RefName, env: EnvId, ref: RefName)
    requires cfg.Valid() && IntactTrees(objs) && Inv(objs, cfg, s)
    requires Enabled(objs, cfg, s, Fork(source, from, env, ref))
    ensures Inv(objs, cfg, Act(objs, cfg, s, Fork(source, from, env, ref)))
            <==> FirstCommit(objs, Target(s, source, from).value)
  {
    hide IsRoot, InHistory, Held, Intact, Closed, Protected, FirstCommit;
    var head := Target(s, source, from).value;
    var s' := Forked(objs, s, head, env, ref);
    ForkIsSoundIff(objs, cfg, s, source, from, env, ref);
    assert EnvOk(objs, cfg, s, source);
    assert Live(s, source, head);
    LiveIsRoot(cfg, s, source, head);
    ForkedProtection(objs, cfg, s, source, head, env, ref);
    ForkedRoots(objs, cfg, s, head, env, ref);
    forall e | e != env
      ensures EnvOk(objs, cfg, s', e)
    {
      assert EnvOk(objs, cfg, s, e);
      EnvStays(objs, cfg, s, s', e);
    }
    forall id | id in s'.sessions
      ensures SessionOk(objs, cfg, s', s'.sessions[id])
    {
      assert SessionOk(objs, cfg, s, s.sessions[id]);
      SessionStays(objs, cfg, s, s', s.sessions[id]);
    }
  }

  /** `delete`: the ref goes, then the keep-set is rebuilt from what remains. */
  lemma DeleteRefKeeps(objs: Objects, cfg: Config, s: State, env: EnvId, ref: RefName, complete: bool)
    requires cfg.Valid() && IntactTrees(objs) && Inv(objs, cfg, s)
    requires Enabled(objs, cfg, s, DeleteRef(env, ref, complete))
    ensures Inv(objs, cfg, Act(objs, cfg, s, DeleteRef(env, ref, complete)))
  {
    hide Inv, Rebuilt, WithRef;
    SetRefKeeps(objs, cfg, s, env, ref, None);
    RebuildKeeps(objs, cfg, WithRef(s, env, ref, None), env);
  }

  // ---- whole runs ----

  /** Every step keeps the invariant exactly when it is careful. For recording and waiting
      that is what the invariant itself says of leases: neither takes anything from the
      environments' protection, and when content is lost afterwards is said in
      `CollectionLosses`. */
  lemma ActKeepsIff(objs: Objects, cfg: Config, s: State, a: Action)
    requires cfg.Valid() && IntactTrees(objs) && Inv(objs, cfg, s) && Enabled(objs, cfg, s, a)
    ensures Inv(objs, cfg, Act(objs, cfg, s, a)) <==> Careful(objs, s, a)
  {
    hide Inv, FirstCommit, Protected, IntactTrees, Rebuilt;
    match a
    case Begin(id, env, ref) => BeginKeeps(objs, cfg, s, id, env, ref);
    case Record(id, commit, written) => RecordKeepsIff(objs, cfg, s, id, commit, written);
    case MoveRef(id) => MoveRefKeeps(objs, cfg, s, id);
    case Graduate(_) => EndKeeps(objs, cfg, s, a);
    case Abort(id) => AbortKeepsIff(objs, cfg, s, id);
    case SetRef(env, ref, target) => SetRefKeepsIff(objs, cfg, s, env, ref, target);
    case DeleteRef(env, ref, complete) => DeleteRefKeeps(objs, cfg, s, env, ref, complete);
    case RebuildKeep(env, complete) => RebuildKeeps(objs, cfg, s, env);
    case Tick(to) => TickKeepsIff(objs, cfg, s, to);
    case Sweep => SweepKeeps(objs, cfg, s);
    case Fork(source, from, env, ref) => ForkKeepsIff(objs, cfg, s, source, from, env, ref);
  }

  /** A ref may be set to a commit that its environment protects, and to nothing else. */
  lemma SetRefKeepsIff(objs: Objects, cfg: Config, s: State, env: EnvId, ref: RefName, target: Name)
    requires Inv(objs, cfg, s)
    ensures Inv(objs, cfg, WithRef(s, env, ref, Some(target)))
            <==> IsCommit(objs, target) && target in Protected(s, env)
  {
    hide IsRoot, Protected, WithRef, Closed, Live;
    var s' := WithRef(s, env, ref, Some(target));
    if IsCommit(objs, target) && target in Protected(s, env) {
      SetRefKeeps(objs, cfg, s, env, ref, Some(target));
    }
    if Inv(objs, cfg, s') {
      WithRefMovesRoots(cfg, s, env, ref, Some(target));
      SetIsLive(s, env, ref, target);
      LiveIsRoot(cfg, s', env, target);
      assert EnvOk(objs, cfg, s', env);
    }
  }

  lemma SetIsLive(s: State, env: EnvId, ref: RefName, to: Name)
    ensures Live(WithRef(s, env, ref, Some(to)), env, to) && WithRef(s, env, ref, Some(to)).stored == s.stored
  {
    assert RefsOf(WithRef(s, env, ref, Some(to)), env)[ref] == to;
  }

  /** A run: each step is one that can be taken where the run has got to. */
  ghost predicate Runs(objs: Objects, cfg: Config, s: State, actions: seq<Action>, end: State)
    decreases |actions|
  {
    if actions == [] then end == s
    else Enabled(objs, cfg, s, actions[0]) && Runs(objs, cfg, Act(objs, cfg, s, actions[0]), actions[1..], end)
  }

  /** Every step of the run is careful. */
  ghost predicate CarefulRun(objs: Objects, cfg: Config, s: State, actions: seq<Action>)
    decreases |actions|
  {
    actions != [] && Enabled(objs, cfg, s, actions[0]) ==>
      Careful(objs, s, actions[0]) && CarefulRun(objs, cfg, Act(objs, cfg, s, actions[0]), actions[1..])
  }

  lemma {:induction false} RunKeeps(objs: Objects, cfg: Config, s: State, actions: seq<Action>, end: State)
    requires cfg.Valid() && IntactTrees(objs) && Inv(objs, cfg, s)
    requires Runs(objs, cfg, s, actions, end) && CarefulRun(objs, cfg, s, actions)
    ensures Inv(objs, cfg, end)
    decreases |actions|
  {
    hide Inv, Careful, Enabled;
    if actions != [] {
      ActKeepsIff(objs, cfg, s, actions[0]);
      RunKeeps(objs, cfg, Act(objs, cfg, s, actions[0]), actions[1..], end);
    }
  }

  function Empty(now: int): (s: State)
  {
    State(map[], map[], map[], map[], map[], now)
  }

  lemma EmptyIsSound(objs: Objects, cfg: Config, now: int)
    ensures Inv(objs, cfg, Empty(now))
  {
    forall env
      ensures EnvOk(objs, cfg, Empty(now), env)
    {
      assert Protected(Empty(now), env) == {};
    }
  }

  /** Collection is safe: after any run of publishes, ref moves, undos, deletions,
      rebuilds, clock advances, forks, aborts and enforced sweeps in which every step is
      careful, everything reached from the full history of every live ref and
      of every retained operation is still stored. */
  lemma CollectionIsSafe(objs: Objects, cfg: Config, now: int, actions: seq<Action>, end: State)
    requires cfg.Valid() && IntactTrees(objs)
    requires Runs(objs, cfg, Empty(now), actions, end) && CarefulRun(objs, cfg, Empty(now), actions)
    ensures Safe(objs, cfg, end)
  {
    hide Inv, Runs, CarefulRun, Safe;
    EmptyIsSound(objs, cfg, now);
    RunKeeps(objs, cfg, Empty(now), actions, end);
    InvIsSafe(objs, cfg, end);
  }
}
