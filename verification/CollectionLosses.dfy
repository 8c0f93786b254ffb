/** Runs of the collection that lose content: what is lost when a fork, an abort, a publish
    whose lease has run out, or a ref set to any target is not careful. */
module CollectionLosses {
  // The exact conditions over runs of src/service/environments.py, src/service/commits.py,
  // src/service/refs.py and src/maintenance/gc.py, and runs from an empty store that meet
  // them.

  import opened ByteStrings
  import opened Model
  import opened TreeNodes
  import opened Closure
  import opened Rebuild
  import opened KeepSets
  import opened Sharding
  import opened Collection

  // ---- putting runs together ----

  lemma RunsFirst(objs: Objects, cfg: Config, s: State, a: Action, rest: seq<Action>, end: State)
    requires Enabled(objs, cfg, s, a) && Runs(objs, cfg, Act(objs, cfg, s, a), rest, end)
    ensures Runs(objs, cfg, s, [a] + rest, end)
  {
    assert ([a] + rest)[1..] == rest;
  }

  lemma {:induction false} RunsOn(objs: Objects, cfg: Config, s: State, a: seq<Action>, mid: State, b: seq<Action>,
                                  end: State)
    requires Runs(objs, cfg, s, a, mid) && Runs(objs, cfg, mid, b, end)
    ensures Runs(objs, cfg, s, a + b, end)
    decreases |a|
  {
    hide Enabled;
    if a == [] {
      assert a + b == b;
    } else {
      assert (a + b)[1..] == a[1..] + b;
      RunsOn(objs, cfg, Act(objs, cfg, s, a[0]), a[1..], mid, b, end);
    }
  }

  // ---- what a sweep leaves ----

  /** No lease of a session that has moved its ref has run out. */
  predicate MovedLeasesOpen(s: State, now: int)
  {
    forall id :: id in s.sessions && s.sessions[id].phase.Moved? ==> now < s.sessions[id].expiresAt
  }

  /** A sweep leaves what an environment protects, while those leases are open. */
  lemma ProtectedStays(objs: Objects, cfg: Config, s: State, env: EnvId, n: Name)
    requires EnvOk(objs, cfg, s, env) && MovedLeasesOpen(s, s.now) && n in Protected(s, env)
    ensures n in s.stored && !Swept(cfg, s, n)
  {
    hide IsRoot, Closed;
    if n in KeepOf(s, env) {
      assert env in s.keep && n in s.keep[env];
    } else {
      var id :| id in s.sessions && s.sessions[id].env == env && s.sessions[id].phase.Moved?
                && n in s.sessions[id].recorded;
    }
  }

  /** A sweep, and a root more: nothing is lost exactly when the sweep finds all that the
      new root's history reaches, and leaves it. */
  lemma OneMoreRootIsSafeIff(objs: Objects, cfg: Config, s: State, end: State, env: EnvId, r: Name)
    requires (forall e :: EnvOk(objs, cfg, s, e)) && MovedLeasesOpen(s, s.now)
    requires end.stored == Act(objs, cfg, s, Sweep).stored && IsRoot(cfg, end, env, r)
    requires forall e, x :: IsRoot(cfg, end, e, x) ==> IsRoot(cfg, s, e, x) || (e == env && x == r)
    ensures Safe(objs, cfg, end)
            <==> forall n :: InHistory(objs, r, n) ==> n in s.stored && !Swept(cfg, s, n)
  {
    hide IsRoot, InHistory, Closed, Protected, Swept;
    if forall n :: InHistory(objs, r, n) ==> n in s.stored && !Swept(cfg, s, n) {
      forall e, x, n | IsRoot(cfg, end, e, x) && InHistory(objs, x, n)
        ensures n in end.stored
      {
        if IsRoot(cfg, s, e, x) {
          assert EnvOk(objs, cfg, s, e);
          ClosedHoldsHistory(objs, Protected(s, e), x, n);
          ProtectedStays(objs, cfg, s, e, n);
        }
      }
    }
    if Safe(objs, cfg, end) {
      forall n | InHistory(objs, r, n)
        ensures n in s.stored && !Swept(cfg, s, n)
      {
        assert n in end.stored;
      }
    }
  }

  // ---- a publish whose lease has run out ----

  /** A sweep, and then the ref of a publish moves. */
  ghost function SweptThenMoved(objs: Objects, cfg: Config, s: State, id: SessionId): (end: State)
    requires id in s.sessions && s.sessions[id].phase.Recorded?
  {
    Act(objs, cfg, Act(objs, cfg, s, Sweep), MoveRef(id))
  }

  lemma SweptThenMovedIsSafeIff(objs: Objects, cfg: Config, s: State, id: SessionId)
    requires (forall e :: EnvOk(objs, cfg, s, e)) && MovedLeasesOpen(s, s.now)
    requires id in s.sessions && s.sessions[id].phase.Recorded?
    ensures Safe(objs, cfg, SweptThenMoved(objs, cfg, s, id))
            <==> forall n :: InHistory(objs, s.sessions[id].phase.commit, n) ==> n in s.stored && !Swept(cfg, s, n)
  {
    hide IsRoot, InHistory, Closed, Protected, Swept, EnvOk, WithRef, Live;
    var t := s.sessions[id];
    var swept := Act(objs, cfg, s, Sweep);
    var moved := WithRef(swept, t.env, t.ref, Some(t.phase.commit));
    var end := SweptThenMoved(objs, cfg, s, id);
    SameRefs(cfg, s, swept);
    WithRefMovesRoots(cfg, swept, t.env, t.ref, Some(t.phase.commit));
    SetIsLive(swept, t.env, t.ref, t.phase.commit);
    LiveIsRoot(cfg, moved, t.env, t.phase.commit);
    SameRefs(cfg, moved, end);
    SameRefs(cfg, end, moved);
    OneMoreRootIsSafeIff(objs, cfg, s, end, t.env, t.phase.commit);
  }

  /** A publish has recorded its content and waits, a sweep runs, and its ref moves. If
      the other publishes that have moved theirs keep their leases, everything every root
      reaches is still stored exactly when nothing the publish recorded is for the sweep to
      take: old enough, in no keep-set, and held by no open lease. */
  lemma ExpiredPublishIsSafeIff(objs: Objects, cfg: Config, s: State, id: SessionId, to: int)
    requires cfg.Valid() && IntactTrees(objs) && Inv(objs, cfg, s)
    requires id in s.sessions && s.sessions[id].phase.Recorded? && s.now <= to && MovedLeasesOpen(s, to)
    ensures Safe(objs, cfg, SweptThenMoved(objs, cfg, s.(now := to), id))
            <==> forall n :: n in s.sessions[id].recorded ==> !Swept(cfg, s.(now := to), n)
  {
    hide Closed, Protected, Swept, EnvOk, SweptThenMoved, InHistory, IntactTrees;
    var t, s1 := s.sessions[id], s.(now := to);
    RecordedJoins(objs, cfg, s, id);
    WaitProtects(objs, cfg, s, to);
    SweptThenMovedIsSafeIff(objs, cfg, s1, id);
    assert SessionOk(objs, cfg, s, t);
    forall n | InHistory(objs, t.phase.commit, n) && n !in t.recorded
      ensures n in s1.stored && !Swept(cfg, s1, n)
    {
      ClosedHoldsHistory(objs, Protected(s, t.env) + t.recorded, t.phase.commit, n);
      ProtectedStays(objs, cfg, s1, t.env, n);
    }
    forall n | n in t.recorded
      ensures InHistory(objs, t.phase.commit, n) && n in s1.stored
    {
      KeptIsInHistory(objs, t.phase.commit, n);
    }
  }

  /** The state after a build has recorded its content, however late, and has waited. */
  ghost function RecordedLate(objs: Objects, cfg: Config, s: State, id: SessionId, commit: Name, written: set<Name>,
                              to: int): (s': State)
    requires Enabled(objs, cfg, s, Record(id, commit, written))
  {
    Act(objs, cfg, s, Record(id, commit, written)).(now := to)
  }

  /** A build may outlast its lease and still record and move its ref. With a sweep before
      the move, nothing is lost exactly when the sweep finds the whole history of the new
      commit and leaves it; and if the environment still protects the parent commit, when
      it leaves what the commit itself keeps. */
  lemma LatePublishIsSafeIff(objs: Objects, cfg: Config, s: State, id: SessionId, commit: Name, written: set<Name>,
                             to: int)
    requires cfg.Valid() && IntactTrees(objs) && Inv(objs, cfg, s)
    requires Enabled(objs, cfg, s, Record(id, commit, written)) && s.now <= to && MovedLeasesOpen(s, to)
    ensures var late := RecordedLate(objs, cfg, s, id, commit, written, to);
            Safe(objs, cfg, SweptThenMoved(objs, cfg, late, id))
            <==> forall n :: InHistory(objs, commit, n) ==> n in late.stored && !Swept(cfg, late, n)
    ensures var late := RecordedLate(objs, cfg, s, id, commit, written, to);
            (forall p :: p in Parents(objs, commit) && IsCommit(objs, p) ==> p in Protected(s, s.sessions[id].env)) ==>
              (Safe(objs, cfg, SweptThenMoved(objs, cfg, late, id))
               <==> forall n :: Keeps(objs, commit, n) ==> !Swept(cfg, late, n))
  {
    hide Closed, Protected, Swept, EnvOk, SweptThenMoved, InHistory, IntactTrees, Keeps;
    var s1 := Act(objs, cfg, s, Record(id, commit, written));
    var late := RecordedLate(objs, cfg, s, id, commit, written, to);
    RecordProtects(objs, cfg, s, id, commit, written);
    WaitProtects(objs, cfg, s1, to);
    assert MovedLeasesOpen(late, to);
    SweptThenMovedIsSafeIff(objs, cfg, late, id);
    var env, kept := s.sessions[id].env, ClosureOfCommit(objs, s1, commit);
    forall n | Keeps(objs, commit, n)
      ensures InHistory(objs, commit, n) && n in late.stored && n in kept
    {
      KeptIsInHistory(objs, commit, n);
    }
    if forall p :: p in Parents(objs, commit) && IsCommit(objs, p) ==> p in Protected(s, env) {
      assert EnvOk(objs, cfg, late, env) && Protected(late, env) == Protected(s, env);
      ProtectionIsClosed(objs, cfg, late, env);
      ClosureJoins(objs, Protected(s, env), commit, kept);
      assert commit in kept by { CommitIsInItsHistory(objs, commit); }
      forall n | InHistory(objs, commit, n) && !Keeps(objs, commit, n)
        ensures n in late.stored && !Swept(cfg, late, n)
      {
        ClosedHoldsHistory(objs, Protected(s, env) + kept, commit, n);
        ProtectedStays(objs, cfg, late, env, n);
      }
    }
  }

  lemma ProtectionIsClosed(objs: Objects, cfg: Config, s: State, env: EnvId)
    requires EnvOk(objs, cfg, s, env)
    ensures Closed(objs, Protected(s, env))
  {
  }

  // ---- a ref set to any target ----

  /** A ref is set to any target, time passes, and a sweep runs: nothing is lost exactly
      when the sweep finds the target's whole history and leaves it. */
  lemma SetRefThenSweepIsSafeIff(objs: Objects, cfg: Config, s: State, env: EnvId, ref: RefName, target: Name, to: int)
    requires cfg.Valid() && Inv(objs, cfg, s) && s.now <= to && MovedLeasesOpen(s, to)
    ensures var end := Act(objs, cfg, WithRef(s, env, ref, Some(target)).(now := to), Sweep);
            Safe(objs, cfg, end)
            <==> forall n :: InHistory(objs, target, n) ==> n in s.stored && !Swept(cfg, s.(now := to), n)
  {
    hide IsRoot, InHistory, Closed, Protected, EnvOk, Live, Held, Swept, Safe, SessionOk, Act;
    var s1, waited := WithRef(s, env, ref, Some(target)), s.(now := to);
    var later := s1.(now := to);
    var end := Act(objs, cfg, later, Sweep);
    WaitProtects(objs, cfg, s, to);
    SetIsLive(s, env, ref, target);
    RefsDecideNoSweep(objs, cfg, waited, later);
    LiveByRefs(s1, end, env, target);
    LiveIsRoot(cfg, end, env, target);
    SameRefs(cfg, later, end);
    forall e, x | IsRoot(cfg, end, e, x)
      ensures IsRoot(cfg, waited, e, x) || (e == env && x == target)
    {
      RootAfterAWait(cfg, s, env, ref, target, to, e, x);
    }
    OneMoreRootIsSafeIff(objs, cfg, waited, end, env, target);
  }

  /** A sweep looks at the keep-sets, the sessions and the clock, never at the refs. */
  lemma RefsDecideNoSweep(objs: Objects, cfg: Config, s: State, s': State)
    requires s'.stored == s.stored && s'.keep == s.keep && s'.sessions == s.sessions && s'.now == s.now
    ensures forall n :: Swept(cfg, s', n) <==> Swept(cfg, s, n)
    ensures Act(objs, cfg, s', Sweep) == s'.(stored := Act(objs, cfg, s, Sweep).stored)
  {
    assert forall n :: Swept(cfg, s', n) <==> Swept(cfg, s, n);
  }

  /** A ref set before a wait makes no other roots than one set after it. */
  lemma RootAfterAWait(cfg: Config, s: State, env: EnvId, ref: RefName, target: Name, to: int, e: EnvId, x: Name)
    requires cfg.Valid() && s.now <= to && IsRoot(cfg, WithRef(s, env, ref, Some(target)).(now := to), e, x)
    ensures IsRoot(cfg, s.(now := to), e, x) || (e == env && x == target)
  {
    var before, after := WithRef(s, env, ref, Some(target)).(now := to), WithRef(s.(now := to), env, ref, Some(target));
    if !Live(before, e, x) {
      var i :| 0 <= i < |OpsOf(before, e)| && OpsOf(before, e)[i].atUs >= to - cfg.retentionUs
               && (OpsOf(before, e)[i].before == Some(x) || OpsOf(before, e)[i].after == Some(x));
      assert i < |OpsOf(after, e)| && OpsOf(after, e)[i].before == OpsOf(before, e)[i].before;
      assert Logged(after, e, to - cfg.retentionUs, x);
    } else {
      assert RefsOf(before, e) == RefsOf(after, e);
    }
    RootBefore(cfg, s.(now := to), env, ref, Some(target), e, x);
  }

  // ---- a session that ends after its ref has moved ----

  /** Right after such a session ends, a sweep leaves everything every root reaches in
      place exactly when nothing the session recorded is for it to take: old enough, in
      no keep-set, and held by no open lease. */
  lemma AbortThenSweepIsSafeIff(objs: Objects, cfg: Config, s: State, id: SessionId)
    requires cfg.Valid() && Inv(objs, cfg, s) && id in s.sessions && s.sessions[id].phase.Moved?
    ensures Safe(objs, cfg, Act(objs, cfg, Without(s, id), Sweep))
            <==> forall n :: n in s.sessions[id].recorded ==> !Swept(cfg, Without(s, id), n)
  {
    hide IsRoot, Held, Closed, Protected, InHistory, Keeps, Swept;
    var t, s1 := s.sessions[id], Without(s, id);
    var end := Act(objs, cfg, s1, Sweep);
    assert SessionOk(objs, cfg, s, t);
    SameRefs(cfg, s, end);
    SameRefs(cfg, end, s);
    if forall n :: n in t.recorded ==> !Swept(cfg, s1, n) {
      forall env, r, n | IsRoot(cfg, end, env, r) && InHistory(objs, r, n)
        ensures n in end.stored
      {
        assert EnvOk(objs, cfg, s, env);
        ClosedHoldsHistory(objs, Protected(s, env), r, n);
        ProtectedIsNotSwept(objs, cfg, s, id, env, n);
      }
    }
    if Safe(objs, cfg, end) {
      HeldIsRoot(cfg, s, t.env, t.beganAt, t.phase.commit);
      forall n | n in t.recorded
        ensures !Swept(cfg, s1, n)
      {
        KeptIsInHistory(objs, t.phase.commit, n);
        assert n in end.stored;
      }
    }
  }

  lemma KeptIsInHistory(objs: Objects, c: Name, n: Name)
    requires Keeps(objs, c, n)
    ensures InHistory(objs, c, n)
  {
    AncestorOfItself(objs, c);
  }

  /** What an environment protects, a sweep after the abort takes only if the session
      alone held it. */
  lemma ProtectedIsNotSwept(objs: Objects, cfg: Config, s: State, id: SessionId, env: EnvId, n: Name)
    requires Inv(objs, cfg, s) && id in s.sessions && n in Protected(s, env)
    requires n in s.sessions[id].recorded ==> !Swept(cfg, Without(s, id), n)
    ensures !Swept(cfg, Without(s, id), n)
  {
    var s1 := Without(s, id);
    if n in KeepOf(s, env) {
      assert env in s1.keep && n in s1.keep[env];
    } else {
      var other :| other in s.sessions && s.sessions[other].env == env && s.sessions[other].phase.Moved?
                   && n in s.sessions[other].recorded;
      assert SessionOk(objs, cfg, s, s.sessions[other]);
      assert other != id ==> other in s1.sessions;
    }
  }

  // ---- a fork whose source is deleted ----

  /** Nothing but one ref in one environment, and no session open. */
  predicate OnlyRef(s: State, env: EnvId, ref: RefName)
  {
    && s.keep.Keys <= {env} && s.refs.Keys == {env} && s.refs[env].Keys == {ref} && s.sessions == map[]
    && forall i :: 0 <= i < |OpsOf(s, env)| ==> OpsOf(s, env)[i].atUs <= s.now
  }

  /** Fork, delete the source ref, wait, rebuild the source's keep-set, sweep. */
  function ForkThenForget(source: EnvId, from: RefName, env: EnvId, ref: RefName, later: int): (actions: seq<Action>)
  {
    ForkAndDelete(source, from, env, ref) + (WaitAndRebuild(source, later) + ([Sweep] + []))
  }

  function ForkAndDelete(source: EnvId, from: RefName, env: EnvId, ref: RefName): (actions: seq<Action>)
  {
    [Fork(source, from, env, ref)] + ([DeleteRef(source, from, true)] + [])
  }

  function WaitAndRebuild(source: EnvId, later: int): (actions: seq<Action>)
  {
    [Tick(later)] + ([RebuildKeep(source, true)] + [])
  }

  /** What is left for a fork of `head`: no session, and no more than the closure of its
      head kept. */
  ghost predicate OnlyForkRemains(objs: Objects, s: State, source: EnvId, env: EnvId, head: Name,
                                  stored: map<Name, int>)
  {
    && s.sessions == map[] && s.stored == stored && Live(s, env, head)
    && s.keep.Keys <= {source, env} && (forall n :: n in KeepOf(s, env) ==> Keeps(objs, head, n))
    && RefsOf(s, source) == map[]
  }

  lemma ForkedOnly(objs: Objects, s: State, source: EnvId, from: RefName, env: EnvId, ref: RefName)
    requires OnlyRef(s, source, from) && Fresh(s, env) && env != source && Target(s, source, from).Some?
    ensures var head := Target(s, source, from).value;
            var s1 := Forked(objs, s, head, env, ref);
            && s1.sessions == map[] && s1.stored == s.stored && Live(s1, env, head) && s1.now == s.now
            && s1.keep.Keys <= {source, env}
            && (forall n :: n in KeepOf(s1, env) ==> Keeps(objs, head, n))
            && OpsOf(s1, source) == OpsOf(s, source) && RefsOf(s1, source) == RefsOf(s, source)
  {
    hide Keeps;
    var head := Target(s, source, from).value;
    var s1 := Forked(objs, s, head, env, ref);
    assert RefsOf(s1, env)[ref] == head;
  }

  /** Deleting the one ref empties the source of refs, and what it logs is as old as the
      deletion. */
  lemma DeletedOnly(objs: Objects, cfg: Config, s: State, source: EnvId, from: RefName)
    requires RefsOf(s, source).Keys == {from}
    requires forall i :: 0 <= i < |OpsOf(s, source)| ==> OpsOf(s, source)[i].atUs <= s.now
    ensures var s2 := Act(objs, cfg, s, DeleteRef(source, from, true));
            && s2.sessions == s.sessions && s2.stored == s.stored && s2.now == s.now
            && s2.keep.Keys == s.keep.Keys + {source}
            && RefsOf(s2, source) == map[]
            && (forall i :: 0 <= i < |OpsOf(s2, source)| ==> OpsOf(s2, source)[i].atUs <= s.now)
            && forall e :: e != source ==> RefsOf(s2, e) == RefsOf(s, e) && KeepOf(s2, e) == KeepOf(s, e)
  {
    hide Rebuilt;
    var s2 := Act(objs, cfg, s, DeleteRef(source, from, true));
    assert OpsOf(s2, source) == OpsOf(s, source) + [LoggedMove(s.now, Target(s, source, from), None)];
  }

  /** With no ref and no retained operation a rebuild finds nothing. */
  lemma NothingRemains(objs: Objects, cfg: Config, s: State, env: EnvId)
    requires RefsOf(s, env) == map[]
    requires forall i :: 0 <= i < |OpsOf(s, env)| ==> OpsOf(s, env)[i].atUs < s.now - cfg.retentionUs
    ensures Rebuilt(objs, cfg, s, env) == {}
  {
    assert forall r :: !IsRoot(cfg, s, env, r);
  }

  lemma {:induction false} ForkedAndDeleted(objs: Objects, cfg: Config, s: State, source: EnvId, from: RefName,
                                            env: EnvId, ref: RefName)
    returns (s2: State)
    requires cfg.Valid() && IntactTrees(objs) && Inv(objs, cfg, s)
    requires OnlyRef(s, source, from) && Fresh(s, env) && env != source
    ensures Runs(objs, cfg, s, ForkAndDelete(source, from, env, ref), s2)
    ensures var head := Target(s, source, from).value;
            && OnlyForkRemains(objs, s2, source, env, head, s.stored) && s2.now == s.now
            && (forall i :: 0 <= i < |OpsOf(s2, source)| ==> OpsOf(s2, source)[i].atUs <= s.now)
            && (FirstCommit(objs, head) ==> Inv(objs, cfg, s2))
  {
    hide Runs, Inv, Rebuilt, IntactTrees, FirstCommit, Keeps, Forked;
    var head := Target(s, source, from).value;
    var s1 := Act(objs, cfg, s, Fork(source, from, env, ref));
    ForkedOnly(objs, s, source, from, env, ref);
    s2 := Act(objs, cfg, s1, DeleteRef(source, from, true));
    DeletedOnly(objs, cfg, s1, source, from);
    LiveByRefs(s1, s2, env, head);
    if FirstCommit(objs, head) {
      ActKeepsIff(objs, cfg, s, Fork(source, from, env, ref));
      ActKeepsIff(objs, cfg, s1, DeleteRef(source, from, true));
    }
    RunsNothing(objs, cfg, s2);
    RunsFirst(objs, cfg, s1, DeleteRef(source, from, true), [], s2);
    RunsFirst(objs, cfg, s, Fork(source, from, env, ref), [DeleteRef(source, from, true)] + [], s2);
  }

  lemma {:induction false} WaitedAndRebuilt(objs: Objects, cfg: Config, s: State, source: EnvId, env: EnvId,
                                            head: Name, later: int)
    returns (s4: State)
    requires cfg.Valid() && IntactTrees(objs) && env != source && later > s.now + cfg.retentionUs
    requires OnlyForkRemains(objs, s, source, env, head, s.stored)
    requires forall i :: 0 <= i < |OpsOf(s, source)| ==> OpsOf(s, source)[i].atUs <= s.now
    ensures Runs(objs, cfg, s, WaitAndRebuild(source, later), s4)
    ensures OnlyForkRemains(objs, s4, source, env, head, s.stored) && s4.now == later && KeepOf(s4, source) == {}
    ensures KeepOf(s4, env) == KeepOf(s, env)
    ensures Inv(objs, cfg, s) ==> Inv(objs, cfg, s4)
  {
    hide Runs, Inv, Rebuilt, IntactTrees, Keeps;
    var s3 := Act(objs, cfg, s, Tick(later));
    assert OpsOf(s3, source) == OpsOf(s, source) && RefsOf(s3, source) == RefsOf(s, source);
    NothingRemains(objs, cfg, s3, source);
    s4 := Act(objs, cfg, s3, RebuildKeep(source, true));
    LiveByRefs(s, s4, env, head);
    if Inv(objs, cfg, s) {
      ActKeepsIff(objs, cfg, s, Tick(later));
      ActKeepsIff(objs, cfg, s3, RebuildKeep(source, true));
    }
    RunsNothing(objs, cfg, s4);
    RunsFirst(objs, cfg, s3, RebuildKeep(source, true), [], s4);
    RunsFirst(objs, cfg, s, Tick(later), [RebuildKeep(source, true)] + [], s4);
  }

  lemma LiveByRefs(s: State, s': State, env: EnvId, r: Name)
    requires Live(s, env, r) && RefsOf(s', env) == RefsOf(s, env)
    ensures Live(s', env, r)
  {
  }

  /** In an environment with one ref: fork it, delete it, and let the log age out. What
      the fork's live ref reaches is all still stored exactly when its head was a first
      commit; otherwise its parents are gone. */
  lemma {:induction false} ForgottenForkIsSafeIff(objs: Objects, cfg: Config, s: State, source: EnvId, from: RefName,
                                                  env: EnvId, ref: RefName, later: int)
    returns (end: State)
    requires cfg.Valid() && IntactTrees(objs) && Inv(objs, cfg, s)
    requires OnlyRef(s, source, from) && Fresh(s, env) && env != source && later > s.now + cfg.retentionUs
    requires forall n :: n in s.stored ==> later >= s.stored[n] + cfg.graceUs
    requires forall p :: p in Parents(objs, Target(s, source, from).value) ==> !PastTheEnd(p.digest)
    ensures Runs(objs, cfg, s, ForkThenForget(source, from, env, ref, later), end)
    ensures var head := Target(s, source, from).value;
            && Live(end, env, head) && (Safe(objs, cfg, end) <==> FirstCommit(objs, head))
            && forall p :: p in Parents(objs, head) && IsCommit(objs, p) && p != head ==> p !in end.stored
  {
    hide Runs, Inv, Rebuilt, IntactTrees, Keeps, PastTheEnd, InHistory;
    var head := Target(s, source, from).value;
    var s2 := ForkedAndDeleted(objs, cfg, s, source, from, env, ref);
    var s4 := WaitedAndRebuilt(objs, cfg, s2, source, env, head, later);
    end := Act(objs, cfg, s4, Sweep);
    RunsNothing(objs, cfg, end);
    RunsFirst(objs, cfg, s4, Sweep, [], end);
    RunsOn(objs, cfg, s2, WaitAndRebuild(source, later), s4, [Sweep] + [], end);
    RunsOn(objs, cfg, s, ForkAndDelete(source, from, env, ref), s2, WaitAndRebuild(source, later) + ([Sweep] + []),
        end);
    LiveByRefs(s4, end, env, head);
    forall p | p in Parents(objs, head) && IsCommit(objs, p) && p != head
      ensures p !in end.stored && !Safe(objs, cfg, end)
    {
      if Keeps(objs, head, p) { KeptCommitIsItself(objs, head, p); }
      assert !Kept(s4, p) by { assert p !in KeepOf(s4, source) && p !in KeepOf(s4, env); }
      ParentIsInHistory(objs, head, p);
      LiveIsRoot(cfg, end, env, head);
    }
    if FirstCommit(objs, head) {
      ActKeepsIff(objs, cfg, s4, Sweep);
      InvIsSafe(objs, cfg, end);
    }
  }

  // ---- two commits on an empty tree ----

  const EMPTY: Name := Name([0])
  const FIRST: Name := Name([1])
  const SECOND: Name := Name([2])

  function CommitOf(parents: seq<Name>): (o: Object)
  {
    Commit(EMPTY, parents, seq(CHANGE_ID_BYTES, _ => 0), [0x61], [0x61], 0, [], [])
  }

  function World(): (objs: Objects)
  {
    map[EMPTY := Tree(0, []), FIRST := CommitOf([]), SECOND := CommitOf([FIRST])]
  }

  lemma WorldCommits()
    ensures IsCommit(World(), FIRST) && Parents(World(), FIRST) == []
    ensures IsCommit(World(), SECOND) && Parents(World(), SECOND) == [FIRST]
    ensures FIRST != SECOND
  {
  }

  lemma OnlyTheEmptyTree(v: Place)
    ensures Reaches(World(), Place(EMPTY, TreeNode), v) <==> v == Place(EMPTY, TreeNode)
  {
    var root := Place(EMPTY, TreeNode);
    ReachesItself(World(), root);
    assert Children(World(), root) == [];
    if Reaches(World(), root, v) {
      ClosedHoldsReachable(World(), iset{root}, root, v);
    }
  }

  lemma WorldIsIntact()
    ensures IntactTrees(World())
  {
    forall v | Reaches(World(), Place(EMPTY, TreeNode), v)
      ensures Fits(World(), v)
    {
      OnlyTheEmptyTree(v);
    }
  }

  lemma WorldKeeps(c: Name)
    requires c == FIRST || c == SECOND
    ensures forall n :: Keeps(World(), c, n) <==> n in {c, EMPTY}
  {
    hide Reaches;
    forall n
      ensures InClosure(World(), EMPTY, n) <==> n == EMPTY
    {
      OnlyTheEmptyTree(Place(n, TreeNode));
      forall kind
        ensures Reaches(World(), Place(EMPTY, TreeNode), Place(n, kind)) ==> n == EMPTY
      {
        OnlyTheEmptyTree(Place(n, kind));
      }
    }
  }

  // ---- publishing ----

  function PublishSteps(id: SessionId, env: EnvId, ref: RefName, commit: Name,
                        content: set<Name>): (actions: seq<Action>)
  {
    [Begin(id, env, ref)] + ([Record(id, commit, content)] + ([MoveRef(id)] + []))
  }

  /** A session that has recorded its content. */
  function RecordedSession(cfg: Config, s: State, env: EnvId, ref: RefName, commit: Name,
                           content: set<Name>): (t: WriteSession)
  {
    WriteSession(env, ref, Target(s, env, ref), s.now, s.now + cfg.leaseUs, Recorded(commit), content)
  }

  lemma {:induction false} RecordedRun(objs: Objects, cfg: Config, s: State, id: SessionId, env: EnvId, ref: RefName,
                                       commit: Name, content: set<Name>)
    returns (s2: State)
    requires cfg.Valid() && id !in s.sessions && IsCommit(objs, commit)
    requires Parents(objs, commit) == ParentList(Target(s, env, ref))
    requires forall n :: Keeps(objs, commit, n) <==> n in content
    ensures s2 == s.(stored := Store(s, content),
                     sessions := s.sessions[id := RecordedSession(cfg, s, env, ref, commit, content)])
    ensures Enabled(objs, cfg, s, Begin(id, env, ref))
    ensures var s1 := Act(objs, cfg, s, Begin(id, env, ref));
            Enabled(objs, cfg, s1, Record(id, commit, content)) && s2 == Act(objs, cfg, s1, Record(id, commit, content))
    ensures IntactTrees(objs) && Inv(objs, cfg, s) ==> Inv(objs, cfg, s2)
  {
    hide Keeps, IsCommit, Parents, Inv, IntactTrees;
    var s1 := Act(objs, cfg, s, Begin(id, env, ref));
    s2 := Act(objs, cfg, s1, Record(id, commit, content));
    assert ClosureOfCommit(objs, s1.(stored := Store(s1, content)), commit) == content;
    assert s2.sessions == s.sessions[id := RecordedSession(cfg, s, env, ref, commit, content)];
    if IntactTrees(objs) && Inv(objs, cfg, s) {
      BeginKeeps(objs, cfg, s, id, env, ref);
      RecordKeeps(objs, cfg, s1, id, commit, content);
    }
  }

  /** Begin, record and move: the ref names the commit, and the session holds its content. */
  lemma {:induction false} PublishedRun(objs: Objects, cfg: Config, s: State, id: SessionId, env: EnvId, ref: RefName,
                                        commit: Name, content: set<Name>)
    returns (after: State)
    requires cfg.Valid() && id !in s.sessions && IsCommit(objs, commit)
    requires Parents(objs, commit) == ParentList(Target(s, env, ref))
    requires forall n :: Keeps(objs, commit, n) <==> n in content
    ensures Runs(objs, cfg, s, PublishSteps(id, env, ref, commit, content), after)
    ensures id in after.sessions && after.sessions - {id} == s.sessions
    ensures var t := after.sessions[id]; t.phase.Moved? && t.env == env && t.recorded == content
    ensures after == WithRef(s.(stored := Store(s, content)), env, ref, Some(commit)).(sessions := after.sessions)
    ensures IntactTrees(objs) && Inv(objs, cfg, s) ==> Inv(objs, cfg, after)
  {
    hide Keeps, Runs, IsCommit, Parents, WithRef, Inv, IntactTrees, Store, WithRebuild, Forked, Swept, PublishSteps;
    var s2 := RecordedRun(objs, cfg, s, id, env, ref, commit, content);
    after := Act(objs, cfg, s2, MoveRef(id));
    if IntactTrees(objs) && Inv(objs, cfg, s) { MoveRefKeeps(objs, cfg, s2, id); }
    WithRefLooksAtRefs(s2, s.(stored := Store(s, content)), env, ref, Some(commit));
    assert after.sessions - {id} == s.sessions;
    PublishStepsRun(objs, cfg, s, id, env, ref, commit, content, s2);
  }

  lemma {:induction false} PublishStepsRun(objs: Objects, cfg: Config, s: State, id: SessionId, env: EnvId,
                                           ref: RefName, commit: Name, content: set<Name>, s2: State)
    requires Enabled(objs, cfg, s, Begin(id, env, ref)) && Enabled(objs, cfg, s2, MoveRef(id))
    requires var s1 := Act(objs, cfg, s, Begin(id, env, ref));
             && Enabled(objs, cfg, s1, Record(id, commit, content))
             && s2 == Act(objs, cfg, s1, Record(id, commit, content))
    ensures Runs(objs, cfg, s, PublishSteps(id, env, ref, commit, content), Act(objs, cfg, s2, MoveRef(id)))
  {
    hide Runs, WithRef, Keeps, IsCommit, Parents;
    var after := Act(objs, cfg, s2, MoveRef(id));
    RunsNothing(objs, cfg, after);
    RunsFirst(objs, cfg, s2, MoveRef(id), [], after);
    var s1 := Act(objs, cfg, s, Begin(id, env, ref));
    RunsFirst(objs, cfg, s1, Record(id, commit, content), [MoveRef(id)] + [], after);
    RunsFirst(objs, cfg, s, Begin(id, env, ref), [Record(id, commit, content)] + ([MoveRef(id)] + []), after);
  }

  lemma WithRefLooksAtRefs(a: State, b: State, env: EnvId, ref: RefName, to: Option<Name>)
    requires b == a.(sessions := b.sessions)
    ensures WithRef(b, env, ref, to) == WithRef(a, env, ref, to).(sessions := b.sessions)
  {
    assert RefsOf(a, env) == RefsOf(b, env) && OpsOf(a, env) == OpsOf(b, env);
  }

  /** The same, and the session graduates. */
  lemma {:induction false} GraduatedRun(objs: Objects, cfg: Config, s: State, id: SessionId, env: EnvId, ref: RefName,
                                        commit: Name, content: set<Name>)
    returns (after: State)
    requires cfg.Valid() && id !in s.sessions && IsCommit(objs, commit)
    requires Parents(objs, commit) == ParentList(Target(s, env, ref))
    requires forall n :: Keeps(objs, commit, n) <==> n in content
    ensures Runs(objs, cfg, s, PublishSteps(id, env, ref, commit, content) + ([Graduate(id)] + []), after)
    ensures after.sessions == s.sessions && after.now == s.now && after.stored == Store(s, content)
    ensures after.keep == s.keep[env := KeepOf(s, env) + content]
    ensures after.refs == s.refs[env := RefsOf(s, env)[ref := commit]]
    ensures OpsOf(after, env) == OpsOf(s, env) + [LoggedMove(s.now, Target(s, env, ref), Some(commit))]
    ensures forall e :: e != env ==> OpsOf(after, e) == OpsOf(s, e)
    ensures after.ops.Keys == s.ops.Keys + {env}
    ensures IntactTrees(objs) && Inv(objs, cfg, s) ==> Inv(objs, cfg, after)
  {
    hide Runs, Keeps, Inv, IntactTrees;
    var s3 := PublishedRun(objs, cfg, s, id, env, ref, commit, content);
    after := Act(objs, cfg, s3, Graduate(id));
    if IntactTrees(objs) && Inv(objs, cfg, s) { EndKeeps(objs, cfg, s3, Graduate(id)); }
    RunsNothing(objs, cfg, after);
    RunsFirst(objs, cfg, s3, Graduate(id), [], after);
    RunsOn(objs, cfg, s, PublishSteps(id, env, ref, commit, content), s3, [Graduate(id)] + [], after);
  }

  /** From an empty store, two commits published one after the other. */
  lemma {:induction false} TwoPublishes(cfg: Config, now: int, env: EnvId, ref: RefName)
    returns (actions: seq<Action>, s: State)
    requires cfg.Valid()
    ensures Runs(World(), cfg, Empty(now), actions, s) && Inv(World(), cfg, s)
    ensures OnlyRef(s, env, ref) && Target(s, env, ref) == Some(SECOND) && s.now == now
    ensures s.ops.Keys == {env} && forall n :: n in s.stored ==> s.stored[n] == now
  {
    hide Runs, Inv, IntactTrees, Keeps, Enabled, Act, World, PublishSteps, IsCommit, Parents;
    var objs := World();
    WorldCommits();
    WorldIsIntact();
    EmptyIsSound(objs, cfg, now);
    WorldKeeps(FIRST);
    WorldKeeps(SECOND);
    var a := PublishSteps(0, env, ref, FIRST, {FIRST, EMPTY}) + ([Graduate(0)] + []);
    var s1 := GraduatedRun(objs, cfg, Empty(now), 0, env, ref, FIRST, {FIRST, EMPTY});
    assert Target(s1, env, ref) == Some(FIRST);
    var b := PublishSteps(1, env, ref, SECOND, {SECOND, EMPTY}) + ([Graduate(1)] + []);
    s := GraduatedRun(objs, cfg, s1, 1, env, ref, SECOND, {SECOND, EMPTY});
    RunsOn(objs, cfg, Empty(now), a, s1, b, s);
    actions := a + b;
  }

  /** From an empty store: publish twice, fork the second commit, delete the source. The
      fork's live ref reaches the first commit, and the first commit is gone. */
  lemma {:induction false} AForkLosesItsPast(cfg: Config, now: int, source: EnvId, env: EnvId, ref: RefName)
    returns (actions: seq<Action>, end: State)
    requires cfg.Valid() && env != source
    ensures Runs(World(), cfg, Empty(now), actions, end)
    ensures Live(end, env, SECOND) && InHistory(World(), SECOND, FIRST) && FIRST !in end.stored
    ensures !Safe(World(), cfg, end)
  {
    hide Runs, Inv, Keeps, InHistory, Safe, PastTheEnd, IntactTrees, World, IsCommit, Parents;
    var objs := World();
    WorldCommits();
    var published, s := TwoPublishes(cfg, now, source, ref);
    WorldIsIntact();
    var later := now + cfg.retentionUs + 1 + if cfg.graceUs > 0 then cfg.graceUs else 0;
    FirstIsNotPastTheEnd();
    end := ForgottenForkIsSafeIff(objs, cfg, s, source, ref, env, ref, later);
    actions := published + ForkThenForget(source, ref, env, ref, later);
    RunsOn(objs, cfg, Empty(now), published, s, ForkThenForget(source, ref, env, ref, later), end);
    ParentIsInHistory(objs, SECOND, FIRST);
  }

  lemma FirstIsNotPastTheEnd()
    ensures !PastTheEnd(FIRST.digest)
  {
  }

  /** From an empty store: a publish moves its ref and its session ends before it
      graduates. The ref is live, and a later sweep takes the commit it names. */
  lemma {:induction false} AnAbortedPublishIsLost(cfg: Config, now: int, env: EnvId, ref: RefName)
    returns (actions: seq<Action>, end: State)
    requires cfg.Valid()
    ensures Runs(World(), cfg, Empty(now), actions, end)
    ensures Live(end, env, FIRST) && FIRST !in end.stored && !Safe(World(), cfg, end)
  {
    hide Keeps, Runs, PastTheEnd, World, IsCommit, Parents, PublishSteps, InHistory, Inv, IntactTrees;
    var objs := World();
    WorldCommits();
    WorldKeeps(FIRST);
    var a := PublishSteps(0, env, ref, FIRST, {FIRST, EMPTY});
    var s1 := PublishedRun(objs, cfg, Empty(now), 0, env, ref, FIRST, {FIRST, EMPTY});
    var s2 := Act(objs, cfg, s1, Abort(0));
    var later := now + if cfg.graceUs > 0 then cfg.graceUs else 0;
    var s3 := Act(objs, cfg, s2, Tick(later));
    end := Act(objs, cfg, s3, Sweep);
    FirstIsNotPastTheEnd();
    assert s2.sessions == map[] && s3.keep == map[];
    assert s3.stored[FIRST] == now;
    assert FIRST !in end.stored;
    assert RefsOf(end, env)[ref] == FIRST;
    LiveIsRoot(cfg, end, env, FIRST);
    CommitIsInItsHistory(objs, FIRST);
    RunsNothing(objs, cfg, end);
    RunsFirst(objs, cfg, s3, Sweep, [], end);
    RunsFirst(objs, cfg, s2, Tick(later), [Sweep] + [], end);
    RunsFirst(objs, cfg, s1, Abort(0), [Tick(later)] + ([Sweep] + []), end);
    actions := a + ([Abort(0)] + ([Tick(later)] + ([Sweep] + [])));
    RunsOn(objs, cfg, Empty(now), a, s1, [Abort(0)] + ([Tick(later)] + ([Sweep] + [])), end);
  }

  /** From an empty store: a publish records its content, its lease runs out, a sweep
      takes the content, and then the ref moves to a commit that is gone. */
  lemma {:induction false} AnExpiredPublishIsLost(cfg: Config, now: int, env: EnvId, ref: RefName)
    returns (actions: seq<Action>, end: State)
    requires cfg.Valid()
    ensures Runs(World(), cfg, Empty(now), actions, end)
    ensures Live(end, env, FIRST) && FIRST !in end.stored && !Safe(World(), cfg, end)
  {
    hide Keeps, Runs, PastTheEnd, World, IsCommit, Parents, InHistory, WithRef, Inv, IntactTrees, Safe, Live;
    var objs, content := World(), {FIRST, EMPTY};
    WorldCommits();
    WorldKeeps(FIRST);
    WorldIsIntact();
    EmptyIsSound(objs, cfg, now);
    var s2 := RecordedRun(objs, cfg, Empty(now), 0, env, ref, FIRST, content);
    var later := now + cfg.leaseUs + if cfg.graceUs > 0 then cfg.graceUs else 0;
    FirstIsNotPastTheEnd();
    assert Swept(cfg, s2.(now := later), FIRST);
    ExpiredPublishIsSafeIff(objs, cfg, s2, 0, later);
    end := SweptThenMoved(objs, cfg, s2.(now := later), 0);
    actions := ExpiredSteps(env, ref, FIRST, content, later);
    ExpiredRun(objs, cfg, Empty(now), s2, env, ref, FIRST, content, later);
    SetIsLive(Act(objs, cfg, s2.(now := later), Sweep), env, ref, FIRST);
    LiveByRefs(WithRef(Act(objs, cfg, s2.(now := later), Sweep), env, ref, Some(FIRST)), end, env, FIRST);
  }

  function ExpiredSteps(env: EnvId, ref: RefName, commit: Name, content: set<Name>, later: int): (actions: seq<Action>)
  {
    [Begin(0, env, ref)] + ([Record(0, commit, content)] + ([Tick(later)] + ([Sweep] + ([MoveRef(0)] + []))))
  }

  lemma {:induction false} ExpiredRun(objs: Objects, cfg: Config, s: State, s2: State, env: EnvId, ref: RefName,
                                      commit: Name, content: set<Name>, later: int)
    requires Enabled(objs, cfg, s, Begin(0, env, ref))
    requires var s1 := Act(objs, cfg, s, Begin(0, env, ref));
             && Enabled(objs, cfg, s1, Record(0, commit, content)) && s2.now <= later
             && s2 == Act(objs, cfg, s1, Record(0, commit, content))
    ensures Runs(objs, cfg, s, ExpiredSteps(env, ref, commit, content, later),
                 SweptThenMoved(objs, cfg, s2.(now := later), 0))
  {
    hide Runs, WithRef, Keeps, IsCommit, Parents;
    var s1 := Act(objs, cfg, s, Begin(0, env, ref));
    var s3 := Act(objs, cfg, s2, Tick(later));
    var s4 := Act(objs, cfg, s3, Sweep);
    var end := SweptThenMoved(objs, cfg, s3, 0);
    RunsNothing(objs, cfg, end);
    RunsFirst(objs, cfg, s4, MoveRef(0), [], end);
    RunsFirst(objs, cfg, s3, Sweep, [MoveRef(0)] + [], end);
    RunsFirst(objs, cfg, s2, Tick(later), [Sweep] + ([MoveRef(0)] + []), end);
    RunsFirst(objs, cfg, s1, Record(0, commit, content), [Tick(later)] + ([Sweep] + ([MoveRef(0)] + [])), end);
    RunsFirst(objs, cfg, s, Begin(0, env, ref),
              [Record(0, commit, content)] + ([Tick(later)] + ([Sweep] + ([MoveRef(0)] + []))), end);
  }

  /** A ref of another environment is set, and the only ref of the first deleted. */
  lemma SetAndDeleted(objs: Objects, cfg: Config, s: State, source: EnvId, env: EnvId, ref: RefName, target: Name)
    requires s.sessions == map[] && s.keep.Keys <= {source} && env != source && RefsOf(s, source).Keys == {ref}
    requires forall i :: 0 <= i < |OpsOf(s, source)| ==> OpsOf(s, source)[i].atUs <= s.now
    ensures var s2 := WithRef(s, env, ref, Some(target));
            && Enabled(objs, cfg, s2, DeleteRef(source, ref, true))
            && var s3 := Act(objs, cfg, s2, DeleteRef(source, ref, true));
               && OnlyForkRemains(objs, s3, source, env, target, s.stored) && s3.now == s.now
               && KeepOf(s3, env) == {}
               && forall i :: 0 <= i < |OpsOf(s3, source)| ==> OpsOf(s3, source)[i].atUs <= s.now
  {
    hide Rebuilt, Keeps;
    var s2 := WithRef(s, env, ref, Some(target));
    assert RefsOf(s2, source) == RefsOf(s, source) && OpsOf(s2, source) == OpsOf(s, source);
    DeletedOnly(objs, cfg, s2, source, ref);
    SetIsLive(s, env, ref, target);
    LiveByRefs(s2, Act(objs, cfg, s2, DeleteRef(source, ref, true)), env, target);
  }

  function SetThenForget(source: EnvId, env: EnvId, ref: RefName, target: Name, later: int): (actions: seq<Action>)
  {
    [SetRef(env, ref, target)] + ([DeleteRef(source, ref, true)] + (WaitAndRebuild(source, later) + ([Sweep] + [])))
  }

  lemma {:induction false} SetRefRun(objs: Objects, cfg: Config, s: State, source: EnvId, env: EnvId, ref: RefName,
                                     target: Name, s4: State, later: int)
    requires var s2 := WithRef(s, env, ref, Some(target));
             && Enabled(objs, cfg, s2, DeleteRef(source, ref, true))
             && Runs(objs, cfg, Act(objs, cfg, s2, DeleteRef(source, ref, true)), WaitAndRebuild(source, later), s4)
    ensures Runs(objs, cfg, s, SetThenForget(source, env, ref, target, later), Act(objs, cfg, s4, Sweep))
  {
    hide Runs, WithRef, Rebuilt, WaitAndRebuild;
    var s2 := Act(objs, cfg, s, SetRef(env, ref, target));
    var s3 := Act(objs, cfg, s2, DeleteRef(source, ref, true));
    var end := Act(objs, cfg, s4, Sweep);
    var forget := WaitAndRebuild(source, later) + ([Sweep] + []);
    RunsNothing(objs, cfg, end);
    RunsFirst(objs, cfg, s4, Sweep, [], end);
    RunsOn(objs, cfg, s3, WaitAndRebuild(source, later), s4, [Sweep] + [], end);
    RunsFirst(objs, cfg, s2, DeleteRef(source, ref, true), forget, end);
    RunsFirst(objs, cfg, s, SetRef(env, ref, target), [DeleteRef(source, ref, true)] + forget, end);
  }

  /** Set a ref of one environment to a commit only another keeps, delete that other's only
      ref, let the log age out, rebuild and sweep: the commit is gone. */
  lemma {:induction false} SetThenForgetRun(objs: Objects, cfg: Config, s: State, source: EnvId, env: EnvId,
                                            ref: RefName, target: Name, later: int)
    returns (end: State)
    requires cfg.Valid() && IntactTrees(objs) && IsCommit(objs, target) && !PastTheEnd(target.digest)
    requires s.sessions == map[] && s.keep.Keys <= {source} && env != source && RefsOf(s, source).Keys == {ref}
    requires forall i :: 0 <= i < |OpsOf(s, source)| ==> OpsOf(s, source)[i].atUs <= s.now
    requires later > s.now + cfg.retentionUs && (target in s.stored ==> later >= s.stored[target] + cfg.graceUs)
    ensures Runs(objs, cfg, s, SetThenForget(source, env, ref, target, later), end)
    ensures Live(end, env, target) && target !in end.stored && !Safe(objs, cfg, end)
  {
    hide Keeps, Runs, PastTheEnd, IsCommit, InHistory, Inv, IntactTrees, Rebuilt, WithRef, WaitAndRebuild;
    var s2 := Act(objs, cfg, s, SetRef(env, ref, target));
    SetAndDeleted(objs, cfg, s, source, env, ref, target);
    var s3 := Act(objs, cfg, s2, DeleteRef(source, ref, true));
    var s4 := WaitedAndRebuilt(objs, cfg, s3, source, env, target, later);
    end := Act(objs, cfg, s4, Sweep);
    assert !Kept(s4, target) by { assert target !in KeepOf(s4, source) && target !in KeepOf(s4, env); }
    LiveByRefs(s4, end, env, target);
    LiveIsRoot(cfg, end, env, target);
    CommitIsInItsHistory(objs, target);
    SetRefRun(objs, cfg, s, source, env, ref, target, s4, later);
  }

  /** From an empty store: publish in one environment, set a ref of another to the commit,
      and delete the first. The ref that is left names a commit that is gone. */
  lemma {:induction false} AnUnkeptTargetIsLost(cfg: Config, now: int, source: EnvId, env: EnvId, ref: RefName)
    returns (actions: seq<Action>, end: State)
    requires cfg.Valid() && env != source
    ensures Runs(World(), cfg, Empty(now), actions, end)
    ensures Live(end, env, FIRST) && FIRST !in end.stored && !Safe(World(), cfg, end)
  {
    hide Keeps, Runs, PastTheEnd, World, IsCommit, Parents, InHistory, Inv, IntactTrees, PublishSteps, SetThenForget;
    hide Act, Enabled, Live, Safe;
    var objs, content := World(), {FIRST, EMPTY};
    WorldCommits();
    WorldKeeps(FIRST);
    WorldIsIntact();
    FirstIsNotPastTheEnd();
    var a := PublishSteps(0, source, ref, FIRST, content) + ([Graduate(0)] + []);
    var s := GraduatedRun(objs, cfg, Empty(now), 0, source, ref, FIRST, content);
    var later := now + cfg.retentionUs + 1 + if cfg.graceUs > 0 then cfg.graceUs else 0;
    end := SetThenForgetRun(objs, cfg, s, source, env, ref, FIRST, later);
    actions := a + SetThenForget(source, env, ref, FIRST, later);
    RunsOn(objs, cfg, Empty(now), a, s, SetThenForget(source, env, ref, FIRST, later), end);
  }

  lemma RunsNothing(objs: Objects, cfg: Config, s: State)
    ensures Runs(objs, cfg, s, [], s)
  {
  }
}
