/** Rebuilding a keep-set (src/maintenance/gc.py). */
module Rebuild {
  // `rebuild_keep_set` and `_walk_history`: the whole history of every root that is listed,
  // and nothing else.

  import opened ByteStrings
  import opened Model
  import opened TreeNodes
  import opened Closure
  import opened KeepSets
  import opened Sharding
  import opened ObjectStores
  import opened Collector

  const MAX_HISTORY_WALK: nat := 100_000
  const MAX_LISTED_REFS: nat := 1000
  const MAX_LISTED_OPS: nat := 10_000

  /** What an operation-log entry contributes: when it was made, and the commits it
      moved a ref between. */
  datatype LoggedMove = LoggedMove(atUs: int, before: Option<Name>, after: Option<Name>)

  // ---- history ----

  function Parents(objs: Objects, c: Name): (parents: seq<Name>)
  {
    if c in objs && objs[c].Commit? then objs[c].parents else []
  }

  predicate Lineage(objs: Objects, path: seq<Name>)
  {
    path != [] && forall i :: 0 < i < |path| ==> path[i] in Parents(objs, path[i - 1])
  }

  /** `c` is `head`, or an ancestor of it through commits this store holds. */
  ghost predicate Ancestor(objs: Objects, head: Name, c: Name)
  {
    exists path :: Lineage(objs, path) && path[0] == head && path[|path| - 1] == c
  }

  /** What one commit keeps: itself and everything its tree reaches. A commit that is
      not held keeps nothing. */
  ghost predicate Keeps(objs: Objects, c: Name, n: Name)
  {
    c in objs && objs[c].Commit? && (n == c || InClosure(objs, objs[c].tree, n))
  }

  /** What it keeps whatever else is broken: itself, and the closure of its tree if that
      can be read to the bottom. */
  ghost predicate SurelyKeeps(objs: Objects, c: Name, n: Name)
  {
    c in objs && objs[c].Commit? && (n == c || (Intact(objs, objs[c].tree) && InClosure(objs, objs[c].tree, n)))
  }

  ghost predicate SurelyInHistory(objs: Objects, head: Name, n: Name)
  {
    exists c :: Ancestor(objs, head, c) && SurelyKeeps(objs, c, n)
  }

  /** What the full history of a head reaches. */
  ghost predicate InHistory(objs: Objects, head: Name, n: Name)
  {
    exists c :: Ancestor(objs, head, c) && Keeps(objs, c, n)
  }

  /** Every tree of every commit that is held can be read to the bottom. */
  ghost predicate IntactTrees(objs: Objects)
  {
    forall c :: c in objs && objs[c].Commit? ==> Intact(objs, objs[c].tree)
  }

  lemma AncestorOfItself(objs: Objects, c: Name)
    ensures Ancestor(objs, c, c)
  {
    assert Lineage(objs, [c]) && [c][0] == c && [c][|[c]| - 1] == c;
  }

  lemma AncestorOn(objs: Objects, head: Name, c: Name, parent: Name)
    requires Ancestor(objs, head, c) && parent in Parents(objs, c)
    ensures Ancestor(objs, head, parent)
  {
    var path :| Lineage(objs, path) && path[0] == head && path[|path| - 1] == c;
    var longer := path + [parent];
    assert Lineage(objs, longer) && longer[0] == head && longer[|longer| - 1] == parent;
  }

  /** A set of commits closed under parents holds every ancestor of its members. */
  lemma ClosedHoldsAncestors(objs: Objects, closed: set<Name>, head: Name, c: Name)
    requires head in closed && Ancestor(objs, head, c)
    requires forall v, w :: v in closed && w in Parents(objs, v) ==> w in closed
    ensures c in closed
  {
    var path :| Lineage(objs, path) && path[0] == head && path[|path| - 1] == c;
    AlongTheLineage(objs, closed, path, |path| - 1);
  }

  lemma {:induction false} AlongTheLineage(objs: Objects, closed: set<Name>, path: seq<Name>, i: nat)
    requires Lineage(objs, path) && path[0] in closed && i < |path|
    requires forall v, w :: v in closed && w in Parents(objs, v) ==> w in closed
    ensures path[i] in closed
  {
    if i > 0 {
      AlongTheLineage(objs, closed, path, i - 1);
    }
  }

  function AllParents(objs: Objects): (names: set<Name>)
  {
    set c, p | c in objs && p in Parents(objs, c) :: p
  }

  // ---- one head ----

  /** The rebuild after some heads: `visited` is their ancestors, `reachable` what those
      keep, except that a tree that cannot be read may be missing from it. */
  ghost predicate Walked(objs: Objects, heads: set<Name>, frontier: seq<Name>, reachable: set<Name>, visited: set<Name>)
  {
    && (forall h :: h in heads ==> h in visited || h in frontier)
    && (forall c, p :: c in visited && p in Parents(objs, c) ==> p in visited || p in frontier)
    && (forall c :: c in visited || c in frontier ==> exists h :: h in heads && Ancestor(objs, h, c))
    && (forall n :: n in reachable ==> exists c :: c in visited && Keeps(objs, c, n))
    && forall c, n :: c in visited && SurelyKeeps(objs, c, n) ==> n in reachable
  }

  /** More commits lie behind `head` than one walk will look at. */
  ghost predicate TooDeep(objs: Objects, head: Name)
  {
    exists behind: set<Name> :: |behind| > 100_000 && forall c :: c in behind ==> Ancestor(objs, head, c)
  }

  /** `_closure`: what a tree reaches, or nothing when it cannot be read. */
  method ClosureOf(objs: Objects, tree: Name) returns (names: set<Name>)
    ensures Intact(objs, tree) ==> forall n :: n in names <==> InClosure(objs, tree, n)
    ensures forall n :: n in names ==> InClosure(objs, tree, n)
  {
    var r := TreeClosure(objs, tree);
    names := if r.Ok? then set n | n in r.value else {};
  }

  lemma OneMoreCommit(objs: Objects, heads: set<Name>, frontier: seq<Name>, reachable: set<Name>, visited: set<Name>,
                      c: Name, kept: set<Name>)
    requires Walked(objs, heads, frontier + [c], reachable, visited)
    requires forall n :: n in kept ==> Keeps(objs, c, n)
    requires forall n :: SurelyKeeps(objs, c, n) ==> n in kept
    ensures Walked(objs, heads, frontier + Parents(objs, c), reachable + kept, visited + {c})
  {
    hide Ancestor, Keeps, SurelyKeeps, Parents;
    assert c in frontier + [c];
    forall p | p in Parents(objs, c)
      ensures exists h :: h in heads && Ancestor(objs, h, p)
    {
      var h :| h in heads && Ancestor(objs, h, c);
      AncestorOn(objs, h, c, p);
    }
    forall n | n in reachable + kept
      ensures exists d :: d in visited + {c} && Keeps(objs, d, n)
    {
      if n in kept { assert c in visited + {c} && Keeps(objs, c, n); }
    }
    assert forall d :: d in frontier + [c] <==> d in frontier || d == c;
  }

  lemma AlreadyVisited(objs: Objects, heads: set<Name>, frontier: seq<Name>, reachable: set<Name>, visited: set<Name>,
                       c: Name)
    requires Walked(objs, heads, frontier + [c], reachable, visited) && c in visited
    ensures Walked(objs, heads, frontier, reachable, visited)
  {
    hide Ancestor, Keeps, Parents;
    assert forall d :: d in frontier + [c] <==> d in frontier || d == c;
  }

  lemma OneMoreHead(objs: Objects, heads: set<Name>, reachable: set<Name>, visited: set<Name>, head: Name)
    requires Walked(objs, heads, [], reachable, visited)
    ensures Walked(objs, heads + {head}, [head], reachable, visited)
  {
    hide Ancestor, Keeps, Parents;
    AncestorOfItself(objs, head);
    forall c | c in visited
      ensures exists h :: h in heads + {head} && Ancestor(objs, h, c)
    {
      var h :| h in heads && Ancestor(objs, h, c);
    }
  }

  /** `_walk_history`: `head` and its ancestors, skipping what an earlier head already
      visited. It gives up only on a history deeper than its bound. */
  method WalkHistory(objs: Objects, head: Name, reachable: set<Name>, visited: set<Name>, ghost heads: set<Name>)
    returns (complete: bool, reachable': set<Name>, visited': set<Name>)
    ensures complete && Walked(objs, heads, [], reachable, visited) ==>
              Walked(objs, heads + {head}, [], reachable', visited')
    ensures !complete ==> TooDeep(objs, head)
  {
    hide Ancestor, Keeps, SurelyKeeps, Parents, Walked, AllParents;
    ghost var sound := Walked(objs, heads, [], reachable, visited);
    ghost var world := AllParents(objs) + {head};
    reachable', visited' := reachable, visited;
    var frontier, walked := [head], 0;
    ghost var behind: set<Name> := {};
    if sound { OneMoreHead(objs, heads, reachable, visited, head); }
    AncestorOfItself(objs, head);
    while frontier != []
      invariant sound ==> Walked(objs, heads + {head}, frontier, reachable', visited')
      invariant forall c :: c in behind || c in frontier ==> Ancestor(objs, head, c)
      invariant behind <= visited' && walked == |behind|
      invariant forall c :: c in frontier ==> c in world
      decreases world - visited', |frontier|
    {
      var c := frontier[|frontier| - 1];
      ghost var waiting := frontier;
      frontier := frontier[..|frontier| - 1];
      assert waiting == frontier + [c];
      if c in visited' {
        if sound { AlreadyVisited(objs, heads + {head}, frontier, reachable', visited', c); }
      } else {
        if walked >= MAX_HISTORY_WALK {
          assert |behind + {c}| == |behind| + 1;
          return false, reachable', visited';
        }
        var kept := KeptBy(objs, c);
        ParentsFollow(objs, head, c);
        if sound { OneMoreCommit(objs, heads + {head}, frontier, reachable', visited', c, kept); }
        visited', walked, behind := visited' + {c}, walked + 1, behind + {c};
        reachable' := reachable' + kept;
        frontier := frontier + Parents(objs, c);
      }
    }
    complete := true;
  }

  lemma ParentsFollow(objs: Objects, head: Name, c: Name)
    requires Ancestor(objs, head, c)
    ensures forall p :: p in Parents(objs, c) ==> Ancestor(objs, head, p) && p in AllParents(objs)
  {
    hide Ancestor;
    forall p | p in Parents(objs, c)
      ensures Ancestor(objs, head, p)
    {
      AncestorOn(objs, head, c, p);
    }
  }

  /** The commit's own name and its closure, when the store holds the commit. */
  method KeptBy(objs: Objects, c: Name) returns (kept: set<Name>)
    ensures forall n :: n in kept ==> Keeps(objs, c, n)
    ensures forall n :: SurelyKeeps(objs, c, n) ==> n in kept
  {
    hide Intact, InClosure;
    kept := {};
    if c in objs && objs[c].Commit? {
      var names := ClosureOf(objs, objs[c].tree);
      kept := {c} + names;
    }
  }

  // ---- the rebuild ----

  /** The heads a rebuild starts from: the listed refs, then both sides of every listed
      operation that is not older than the horizon. */
  function Heads(refs: seq<Name>, ops: seq<LoggedMove>, horizon: int): (heads: seq<Name>)
  {
    Listed(refs, MAX_LISTED_REFS) + OpHeads(Listed(ops, MAX_LISTED_OPS), horizon)
  }

  /** What a listing with a limit returns. */
  function Listed<T>(rows: seq<T>, limit: nat): (listed: seq<T>)
  {
    if |rows| <= limit then rows else rows[..limit]
  }

  /** What it leaves out. */
  function Beyond<T>(rows: seq<T>, limit: nat): (rest: seq<T>)
  {
    if |rows| <= limit then [] else rows[limit..]
  }

  function OpHeads(ops: seq<LoggedMove>, horizon: int): (heads: seq<Name>)
  {
    if ops == [] then []
    else (if ops[0].atUs < horizon then [] else Side(ops[0].before) + Side(ops[0].after)) + OpHeads(ops[1..], horizon)
  }

  function Side(commit: Option<Name>): (heads: seq<Name>)
  {
    if commit.None? then [] else [commit.value]
  }

  function SetOf(names: seq<Name>): (s: set<Name>)
    ensures forall n :: n in s <==> n in names
  {
    set n | n in names
  }

  lemma SetOfMore(names: seq<Name>, i: nat)
    requires i < |names|
    ensures SetOf(names[..i + 1]) == SetOf(names[..i]) + {names[i]}
  {
    assert names[..i + 1] == names[..i] + [names[i]];
  }

  // ---- histories, by the objects' own fields ----

  predicate Committed(objs: Objects, c: Name)
  {
    c in objs && objs[c].Commit?
  }

  /** The names hold every head that is a stored commit; and with a commit, everything its
      tree reaches and every stored commit it lists among its parents, at whatever place. */
  ghost predicate HoldsHistories(objs: Objects, heads: seq<Name>, names: set<Name>)
  {
    && (forall h :: h in heads && Committed(objs, h) ==> h in names)
    && (forall c, n :: c in names && Committed(objs, c) && InClosure(objs, objs[c].tree, n) ==> n in names)
    && forall c, i :: c in names && Committed(objs, c) && 0 <= i < |objs[c].parents| ==>
         Committed(objs, objs[c].parents[i]) ==> objs[c].parents[i] in names
  }

  /** And nothing they could do without. */
  ghost predicate IsLeastHistory(objs: Objects, heads: seq<Name>, names: set<Name>)
  {
    && HoldsHistories(objs, heads, names)
    && forall other: set<Name> :: HoldsHistories(objs, heads, other) ==> names <= other
  }

  lemma HistoriesHold(objs: Objects, heads: seq<Name>, names: set<Name>)
    requires IntactTrees(objs)
    requires forall n :: n in names <==> exists h :: h in heads && InHistory(objs, h, n)
    ensures HoldsHistories(objs, heads, names)
  {
    hide Ancestor, InClosure, IntactTrees;
    forall h | h in heads && Committed(objs, h)
      ensures h in names
    {
      AncestorOfItself(objs, h);
      CommitInHistory(objs, h, h);
    }
    forall c | c in names && Committed(objs, c)
      ensures forall n :: InClosure(objs, objs[c].tree, n) ==> n in names
      ensures forall i :: 0 <= i < |objs[c].parents| && Committed(objs, objs[c].parents[i]) ==>
                            objs[c].parents[i] in names
    {
      var h :| h in heads && InHistory(objs, h, c);
      CommitInHistory(objs, h, c);
      forall n | InClosure(objs, objs[c].tree, n)
        ensures n in names
      {
        assert Keeps(objs, c, n) && InHistory(objs, h, n);
      }
      forall i | 0 <= i < |objs[c].parents| && Committed(objs, objs[c].parents[i])
        ensures objs[c].parents[i] in names
      {
        AncestorOn(objs, h, c, objs[c].parents[i]);
        CommitInHistory(objs, h, objs[c].parents[i]);
      }
    }
  }

  lemma {:induction false} HoldsAlongTheLineage(objs: Objects, heads: seq<Name>, names: set<Name>, path: seq<Name>,
                                                i: nat)
    requires HoldsHistories(objs, heads, names) && Lineage(objs, path) && path[0] in heads && i < |path|
    requires Committed(objs, path[i])
    ensures path[i] in names
  {
    hide InClosure;
    if i > 0 {
      assert path[i] in Parents(objs, path[i - 1]);
      HoldsAlongTheLineage(objs, heads, names, path, i - 1);
    }
  }

  lemma HistoriesAreLeast(objs: Objects, heads: seq<Name>, names: set<Name>, other: set<Name>)
    requires forall n :: n in names ==> exists h :: h in heads && InHistory(objs, h, n)
    requires HoldsHistories(objs, heads, other)
    ensures names <= other
  {
    hide InClosure;
    forall n | n in names
      ensures n in other
    {
      var h :| h in heads && InHistory(objs, h, n);
      var c :| Ancestor(objs, h, c) && Keeps(objs, c, n);
      var path :| Lineage(objs, path) && path[0] == h && path[|path| - 1] == c;
      HoldsAlongTheLineage(objs, heads, other, path, |path| - 1);
    }
  }

  lemma LeastHistory(objs: Objects, heads: seq<Name>, names: set<Name>)
    requires IntactTrees(objs)
    requires forall n :: n in names <==> exists h :: h in heads && InHistory(objs, h, n)
    ensures IsLeastHistory(objs, heads, names)
  {
    hide InHistory, IntactTrees, HoldsHistories;
    HistoriesHold(objs, heads, names);
    forall other: set<Name> | HoldsHistories(objs, heads, other)
      ensures names <= other
    {
      HistoriesAreLeast(objs, heads, names, other);
    }
  }

  /** The heads are the first thousand refs, and both sides of those of the first ten thousand
      operations that are retained. */
  lemma HeadsAreTheListed(refs: seq<Name>, ops: seq<LoggedMove>, horizon: int, h: Name)
    ensures h in Heads(refs, ops, horizon) <==>
              || (exists i :: 0 <= i < |refs| && i < 1000 && refs[i] == h)
              || exists i :: 0 <= i < |ops| && i < 10_000 && ops[i].atUs >= horizon
                             && (ops[i].before == Some(h) || ops[i].after == Some(h))
  {
    var someRefs, someOps := Listed(refs, MAX_LISTED_REFS), Listed(ops, MAX_LISTED_OPS);
    OpHeadsAre(someOps, horizon);
    assert forall i :: 0 <= i < |someRefs| ==> someRefs[i] == refs[i];
    assert forall i :: 0 <= i < |someOps| ==> someOps[i] == ops[i];
    if i :| 0 <= i < |refs| && i < 1000 && refs[i] == h {
      assert someRefs[i] == h;
    }
    if i :| 0 <= i < |ops| && i < 10_000 && ops[i].atUs >= horizon
            && (ops[i].before == Some(h) || ops[i].after == Some(h)) {
      assert someOps[i] == ops[i];
      assert Moved(someOps, horizon, h);
    }
  }

  lemma RootsAreHeads(objs: Objects, refs: seq<Name>, ops: seq<LoggedMove>, horizon: int, names: set<Name>)
    requires IsLeastHistory(objs, Heads(refs, ops, horizon), names)
    ensures forall i :: 0 <= i < |refs| && i < 1000 && Committed(objs, refs[i]) ==> refs[i] in names
    ensures forall i, c :: 0 <= i < |ops| && i < 10_000 && ops[i].atUs >= horizon
                           && (ops[i].before == Some(c) || ops[i].after == Some(c)) && Committed(objs, c) ==>
                             c in names
  {
    hide InClosure, Heads;
    forall i | 0 <= i < |refs| && i < 1000
      ensures refs[i] in Heads(refs, ops, horizon)
    {
      HeadsAreTheListed(refs, ops, horizon, refs[i]);
    }
    forall i, c | 0 <= i < |ops| && i < 10_000 && ops[i].atUs >= horizon
                  && (ops[i].before == Some(c) || ops[i].after == Some(c))
      ensures c in Heads(refs, ops, horizon)
    {
      HeadsAreTheListed(refs, ops, horizon, c);
    }
  }

  /** `rebuild_keep_set`: the new set is what the full history of the listed roots
      reaches, where only trees that cannot be read may be missing; exactly that, if all
      can; and a walk that gave up leaves every keep-set as it was. */
  method RebuildKeepSet(objs: Objects, keepSets: KeepSetTable, env: EnvId, refs: seq<Name>, ops: seq<LoggedMove>,
                        now: int, retentionUs: int)
    returns (size: nat, complete: bool)
    modifies keepSets
    ensures size == |keepSets.Of(env)|
    ensures forall other :: other != env ==> keepSets.Of(other) == old(keepSets.Of(other))
    ensures complete ==> forall n :: n in keepSets.Of(env) ==>
              exists h :: h in Heads(refs, ops, now - retentionUs) && InHistory(objs, h, n)
    ensures complete ==> forall h, n :: h in Heads(refs, ops, now - retentionUs) && SurelyInHistory(objs, h, n) ==>
              n in keepSets.Of(env)
    ensures complete && IntactTrees(objs) ==> forall n :: n in keepSets.Of(env) <==>
              exists h :: h in Heads(refs, ops, now - retentionUs) && InHistory(objs, h, n)
    ensures complete && IntactTrees(objs) ==> forall c :: c in objs && objs[c].Commit? ==>
              (c in keepSets.Of(env) <==> exists h :: h in Heads(refs, ops, now - retentionUs) && Ancestor(objs, h, c))
    ensures complete && IntactTrees(objs) ==>
              IsLeastHistory(objs, Heads(refs, ops, now - retentionUs), keepSets.Of(env))
    ensures complete && IntactTrees(objs) ==>
              && (forall i :: 0 <= i < |refs| && i < 1000 && Committed(objs, refs[i]) ==> refs[i] in keepSets.Of(env))
              && forall i, c :: 0 <= i < |ops| && i < 10_000 && ops[i].atUs >= now - retentionUs
                                && (ops[i].before == Some(c) || ops[i].after == Some(c)) && Committed(objs, c) ==>
                   c in keepSets.Of(env)
    ensures !complete ==> keepSets.Of(env) == old(keepSets.Of(env))
    ensures !complete ==> exists h :: h in Heads(refs, ops, now - retentionUs) && TooDeep(objs, h)
  {
    hide Walked, InHistory, SurelyInHistory, IntactTrees, TooDeep, Ancestor, IsLeastHistory;
    var heads := Heads(refs, ops, now - retentionUs);
    var reachable: set<Name>, visited: set<Name> := {}, {};
    complete := true;
    NothingWalked(objs);
    assert SetOf(heads[..0]) == {};
    for i := 0 to |heads|
      invariant keepSets.table == old(keepSets.table)
      invariant complete ==> Walked(objs, SetOf(heads[..i]), [], reachable, visited)
      invariant !complete ==> exists h :: h in heads && TooDeep(objs, h)
    {
      var done;
      SetOfMore(heads, i);
      done, reachable, visited := WalkHistory(objs, heads[i], reachable, visited, SetOf(heads[..i]));
      complete := complete && done;
    }
    if !complete {
      return |keepSets.Of(env)|, false;
    }
    assert heads[..|heads|] == heads;
    WalkedIsHistory(objs, SetOf(heads), reachable, visited);
    if IntactTrees(objs) {
      AllIsSure(objs);
      CommitsInHistory(objs, heads);
      LeastHistory(objs, heads, reachable);
      RootsAreHeads(objs, refs, ops, now - retentionUs, reachable);
    }
    size := keepSets.Replace(env, reachable);
  }

  /** A commit is in a history as an ancestor only: no tree that can be read holds one. */
  lemma CommitInHistory(objs: Objects, head: Name, c: Name)
    requires IntactTrees(objs) && c in objs && objs[c].Commit?
    ensures InHistory(objs, head, c) <==> Ancestor(objs, head, c)
  {
    hide Ancestor, Intact, InClosure;
    if Ancestor(objs, head, c) {
      assert Keeps(objs, c, c);
    }
    if d :| Ancestor(objs, head, d) && Keeps(objs, d, c) {
      if d != c { NoCommitInATree(objs, objs[d].tree, c); }
    }
  }

  lemma NoCommitInATree(objs: Objects, tree: Name, c: Name)
    requires Intact(objs, tree) && c in objs && objs[c].Commit?
    ensures !InClosure(objs, tree, c)
  {
    forall kind
      ensures !Reaches(objs, Place(tree, TreeNode), Place(c, kind))
    {
      assert !Fits(objs, Place(c, kind));
    }
  }

  lemma CommitsInHistory(objs: Objects, heads: seq<Name>)
    requires IntactTrees(objs)
    ensures forall c :: c in objs && objs[c].Commit? ==>
              ((exists h :: h in heads && InHistory(objs, h, c)) <==> exists h :: h in heads && Ancestor(objs, h, c))
  {
    hide Ancestor, InHistory, IntactTrees;
    forall c | c in objs && objs[c].Commit?
      ensures (exists h :: h in heads && InHistory(objs, h, c)) <==> exists h :: h in heads && Ancestor(objs, h, c)
    {
      forall h | h in heads
        ensures InHistory(objs, h, c) <==> Ancestor(objs, h, c)
      {
        CommitInHistory(objs, h, c);
      }
    }
  }

  lemma NothingWalked(objs: Objects)
    ensures Walked(objs, {}, [], {}, {})
  {
  }

  /** Where every tree can be read, everything kept is surely kept. */
  lemma AllIsSure(objs: Objects)
    requires IntactTrees(objs)
    ensures forall head, n :: InHistory(objs, head, n) ==> SurelyInHistory(objs, head, n)
  {
    hide Ancestor, Intact, InClosure;
  }

  /** A finished walk has reached the histories of its heads. */
  lemma WalkedIsHistory(objs: Objects, heads: set<Name>, reachable: set<Name>, visited: set<Name>)
    requires Walked(objs, heads, [], reachable, visited)
    ensures forall n :: n in reachable ==> exists h :: h in heads && InHistory(objs, h, n)
    ensures forall h, n :: h in heads && SurelyInHistory(objs, h, n) ==> n in reachable
  {
    hide Ancestor, Keeps, SurelyKeeps, Parents;
    forall n | n in reachable
      ensures exists h :: h in heads && InHistory(objs, h, n)
    {
      var c :| c in visited && Keeps(objs, c, n);
      var h :| h in heads && Ancestor(objs, h, c);
      assert InHistory(objs, h, n);
    }
    forall h, n | h in heads && SurelyInHistory(objs, h, n)
      ensures n in reachable
    {
      var c :| Ancestor(objs, h, c) && SurelyKeeps(objs, c, n);
      ClosedHoldsAncestors(objs, visited, h, c);
    }
  }

  // ---- which roots are listed ----

  /** One side of a retained operation. */
  ghost predicate Moved(ops: seq<LoggedMove>, horizon: int, h: Name)
  {
    exists i :: 0 <= i < |ops| && ops[i].atUs >= horizon && (ops[i].before == Some(h) || ops[i].after == Some(h))
  }

  /** A root: a ref's target, or either side of a retained operation. */
  ghost predicate AnyRoot(refs: seq<Name>, ops: seq<LoggedMove>, horizon: int, h: Name)
  {
    h in refs || Moved(ops, horizon, h)
  }

  lemma {:induction false} OpHeadsAre(ops: seq<LoggedMove>, horizon: int)
    ensures forall h :: h in OpHeads(ops, horizon) <==> Moved(ops, horizon, h)
  {
    if ops != [] {
      OpHeadsAre(ops[1..], horizon);
      assert ops == [ops[0]] + ops[1..];
      MovedInEither([ops[0]], ops[1..], horizon);
      assert forall h :: Moved([ops[0]], horizon, h) <==>
          ops[0].atUs >= horizon && (ops[0].before == Some(h) || ops[0].after == Some(h)) by {
        forall h | ops[0].atUs >= horizon && (ops[0].before == Some(h) || ops[0].after == Some(h))
          ensures Moved([ops[0]], horizon, h)
        {
          assert [ops[0]][0] == ops[0];
        }
      }
    }
  }

  lemma MovedInEither(a: seq<LoggedMove>, b: seq<LoggedMove>, horizon: int)
    ensures forall h :: Moved(a + b, horizon, h) <==> Moved(a, horizon, h) || Moved(b, horizon, h)
  {
    var ops := a + b;
    forall h
      ensures Moved(ops, horizon, h) <==> Moved(a, horizon, h) || Moved(b, horizon, h)
    {
      if i :| 0 <= i < |a| && a[i].atUs >= horizon && (a[i].before == Some(h) || a[i].after == Some(h)) {
        assert ops[i] == a[i];
      }
      if i :| 0 <= i < |b| && b[i].atUs >= horizon && (b[i].before == Some(h) || b[i].after == Some(h)) {
        assert ops[|a| + i] == b[i];
      }
    }
  }

  /** What lies within the listing limits. */
  ghost predicate ListedRoot(refs: seq<Name>, ops: seq<LoggedMove>, horizon: int, h: Name)
  {
    AnyRoot(Listed(refs, MAX_LISTED_REFS), Listed(ops, MAX_LISTED_OPS), horizon, h)
  }

  /** What lies beyond them. */
  ghost predicate UnlistedRoot(refs: seq<Name>, ops: seq<LoggedMove>, horizon: int, h: Name)
  {
    AnyRoot(Beyond(refs, MAX_LISTED_REFS), Beyond(ops, MAX_LISTED_OPS), horizon, h)
  }

  lemma RootsAreEither(refs: seq<Name>, ops: seq<LoggedMove>, horizon: int)
    ensures forall h :: h in Heads(refs, ops, horizon) <==> ListedRoot(refs, ops, horizon, h)
    ensures forall h :: AnyRoot(refs, ops, horizon, h) <==>
                        ListedRoot(refs, ops, horizon, h) || UnlistedRoot(refs, ops, horizon, h)
  {
    hide Moved;
    OpHeadsAre(Listed(ops, MAX_LISTED_OPS), horizon);
    assert refs == Listed(refs, MAX_LISTED_REFS) + Beyond(refs, MAX_LISTED_REFS);
    assert ops == Listed(ops, MAX_LISTED_OPS) + Beyond(ops, MAX_LISTED_OPS);
    MovedInEither(Listed(ops, MAX_LISTED_OPS), Beyond(ops, MAX_LISTED_OPS), horizon);
  }

  /** The walk starts from every ref and both sides of every retained operation exactly
      when what lies beyond the listing limits also occurs within them. */
  lemma HeadsAreTheRootsIff(refs: seq<Name>, ops: seq<LoggedMove>, horizon: int)
    ensures (forall h :: h in Heads(refs, ops, horizon) <==> AnyRoot(refs, ops, horizon, h))
            <==> forall h :: UnlistedRoot(refs, ops, horizon, h) ==> ListedRoot(refs, ops, horizon, h)
  {
    hide Heads, AnyRoot, ListedRoot, UnlistedRoot;
    RootsAreEither(refs, ops, horizon);
  }

  lemma {:induction false} AncestorThrough(objs: Objects, head: Name, path: seq<Name>, i: nat)
    requires Lineage(objs, path) && Ancestor(objs, head, path[0]) && i < |path|
    ensures Ancestor(objs, head, path[i])
  {
    hide Ancestor;
    if i > 0 {
      AncestorThrough(objs, head, path, i - 1);
      AncestorOn(objs, head, path[i - 1], path[i]);
    }
  }

  lemma AncestorOfAncestor(objs: Objects, head: Name, b: Name, c: Name)
    requires Ancestor(objs, head, b) && Ancestor(objs, b, c)
    ensures Ancestor(objs, head, c)
  {
    var path :| Lineage(objs, path) && path[0] == b && path[|path| - 1] == c;
    AncestorThrough(objs, head, path, |path| - 1);
  }

  /** A commit that is not stored has itself as its only ancestor, and keeps nothing. */
  lemma NothingBehindAMissingCommit(objs: Objects, c: Name, n: Name)
    requires c !in objs || !objs[c].Commit?
    ensures !InHistory(objs, c, n)
  {
    forall d | Ancestor(objs, c, d)
      ensures d == c
    {
      ClosedHoldsAncestors(objs, {c}, c, d);
    }
  }

  /** A rebuild starts from enough roots: what any root's history reaches, the history of
      a listed one does. */
  ghost predicate RebuildIsWhole(objs: Objects, refs: seq<Name>, ops: seq<LoggedMove>, horizon: int)
  {
    forall r, n :: AnyRoot(refs, ops, horizon, r) && InHistory(objs, r, n) ==>
                     exists h :: h in Heads(refs, ops, horizon) && InHistory(objs, h, n)
  }

  /** Exactly when the rebuilt set has everything: each commit beyond the listing limits
      that is stored is an ancestor of one within them. */
  lemma RebuildIsWholeIff(objs: Objects, refs: seq<Name>, ops: seq<LoggedMove>, horizon: int)
    requires IntactTrees(objs)
    ensures RebuildIsWhole(objs, refs, ops, horizon)
            <==> forall b :: UnlistedRoot(refs, ops, horizon, b) && b in objs && objs[b].Commit? ==>
                               exists h :: h in Heads(refs, ops, horizon) && Ancestor(objs, h, b)
  {
    hide Heads, AnyRoot, ListedRoot, UnlistedRoot, Ancestor, Keeps, IntactTrees;
    RootsAreEither(refs, ops, horizon);
    if forall b :: UnlistedRoot(refs, ops, horizon, b) && b in objs && objs[b].Commit? ==>
          exists h :: h in Heads(refs, ops, horizon) && Ancestor(objs, h, b) {
      forall r, n | AnyRoot(refs, ops, horizon, r) && InHistory(objs, r, n)
        ensures exists h :: h in Heads(refs, ops, horizon) && InHistory(objs, h, n)
      {
        if UnlistedRoot(refs, ops, horizon, r) {
          if r !in objs || !objs[r].Commit? { NothingBehindAMissingCommit(objs, r, n); }
          var h :| h in Heads(refs, ops, horizon) && Ancestor(objs, h, r);
          var c :| Ancestor(objs, r, c) && Keeps(objs, c, n);
          AncestorOfAncestor(objs, h, r, c);
          assert InHistory(objs, h, n);
        }
      }
    }
    if RebuildIsWhole(objs, refs, ops, horizon) {
      forall b | UnlistedRoot(refs, ops, horizon, b) && b in objs && objs[b].Commit?
        ensures exists h :: h in Heads(refs, ops, horizon) && Ancestor(objs, h, b)
      {
        AncestorOfItself(objs, b);
        CommitInHistory(objs, b, b);
        var h :| h in Heads(refs, ops, horizon) && InHistory(objs, h, b);
        CommitInHistory(objs, h, b);
      }
    }
  }

  /** A thousand refs to one first commit, and another ref: what that one names is a live
      root, and no listed root has it as an ancestor. */
  lemma ARefBeyondTheLimitIsForgotten(objs: Objects, a: Name, b: Name, horizon: int)
    requires a != b && b in objs && objs[b].Commit? && Parents(objs, a) == []
    ensures var refs := seq(MAX_LISTED_REFS, i => a) + [b];
            && AnyRoot(refs, [], horizon, b)
            && !exists h :: h in Heads(refs, [], horizon) && Ancestor(objs, h, b)
  {
    hide Ancestor;
    var listed := seq(MAX_LISTED_REFS, i => a);
    var refs := listed + [b];
    assert refs[|refs| - 1] == b;
    assert refs[..MAX_LISTED_REFS] == listed;
    assert OpHeads([], horizon) == [];
    forall h | h in Heads(refs, [], horizon)
      ensures !Ancestor(objs, h, b)
    {
      assert h == a;
      if Ancestor(objs, a, b) { ClosedHoldsAncestors(objs, {a}, a, b); }
    }
  }

  /** A rebuild and then a sweep: of the old commits that nothing else protects, exactly
      the ancestors of listed roots survive, whatever other refs still name. */
  method RebuildThenSweep(store: ObjectStore, keepSets: KeepSetTable, env: EnvId, refs: seq<Name>, ops: seq<LoggedMove>,
                          retentionUs: int, envs: seq<seq<Session>>, config: Config, now: int)
    returns (complete: bool, report: Report)
    requires store.Valid() && IntactTrees(store.objects) && BitsOk(config.shardBits)
    requires FullDigests(store.catalog.Keys) && FullDigests(keepSets.All())
    requires forall h, n :: h in Heads(refs, ops, now - retentionUs) && InHistory(store.objects, h, n) ==>
                              |n.digest| == DIGEST_BYTES
    modifies store, keepSets
    ensures complete && report.enforced ==>
              forall c :: && c in old(store.objects) && old(store.objects)[c].Commit?
                          && old(store.catalog)[c].writtenAtUs <= now - config.graceUs
                          && !SeenLeased(envs, now, c) && !PastTheEnd(c.digest)
                          && (forall other :: other != env ==> c !in old(keepSets.Of(other)))
                          ==> (c in store.objects <==>
                               exists h :: && h in Heads(refs, ops, now - retentionUs)
                                           && Ancestor(old(store.objects), h, c))
  {
    hide Heads, InHistory, Ancestor, IntactTrees, SeenLeased, PastTheEnd, NamesEncodings, Injective, TooDeep;
    var _, done := RebuildKeepSet(store.objects, keepSets, env, refs, ops, now, retentionUs);
    complete := done;
    KeptNames(keepSets, env);
    report := Run(store, keepSets, envs, config, now, true);
  }

  /** Everything needed anywhere is needed by this environment or by another. */
  lemma KeptNames(keepSets: KeepSetTable, env: EnvId)
    ensures forall n :: n in keepSets.All() <==>
              n in keepSets.Of(env) || exists other :: other != env && n in keepSets.Of(other)
  {
    forall n | n in keepSets.All()
      ensures n in keepSets.Of(env) || exists other :: other != env && n in keepSets.Of(other)
    {
      var owner :| owner in keepSets.table && n in keepSets.table[owner];
      assert n in keepSets.Of(owner);
    }
    forall owner, n | n in keepSets.Of(owner)
      ensures n in keepSets.All()
    {
      assert owner in keepSets.table && n in keepSets.table[owner];
    }
  }
}
