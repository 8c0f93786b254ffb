/** The safety argument speaks of what every name would hold; the collector reads only
    what is stored. On a store that has lost nothing the two are the same. */
module CollectionOnStore {
  import opened ByteStrings
  import opened Model
  import opened TreeNodes
  import opened BlobNodes
  import opened Directory
  import opened Closure
  import opened ClosureReads
  import opened Rebuild
  import opened KeepSets
  import Sharding
  import opened Collection

  lemma SameChildren(objs: Objects, stored: set<Name>, v: Place)
    ensures v.name in stored ==> Children(Among(objs, stored), v) == Children(objs, v)
    ensures v.name !in stored ==> Children(Among(objs, stored), v) == []
  {
  }

  /** What the store reaches, there is to reach. */
  lemma StoredReaches(objs: Objects, stored: set<Name>, from: Place, to: Place)
    requires Reaches(Among(objs, stored), from, to)
    ensures Reaches(objs, from, to)
  {
    hide Children;
    var path :| Linked(Among(objs, stored), path) && path[0] == from && path[|path| - 1] == to;
    forall i | 0 < i < |path|
      ensures path[i] in Children(objs, path[i - 1])
    {
      SameChildren(objs, stored, path[i - 1]);
    }
    assert Linked(objs, path);
  }

  /** What there is to reach, a store that holds all of it reaches. */
  lemma ReachesStored(objs: Objects, stored: set<Name>, from: Place, to: Place)
    requires Reaches(objs, from, to) && forall v :: Reaches(objs, from, v) ==> v.name in stored
    ensures Reaches(Among(objs, stored), from, to)
  {
    hide Children;
    var path :| Linked(objs, path) && path[0] == from && path[|path| - 1] == to;
    forall i | 0 < i < |path|
      ensures path[i] in Children(Among(objs, stored), path[i - 1])
    {
      AlongIsReached(objs, path, i - 1);
      SameChildren(objs, stored, path[i - 1]);
    }
    assert Linked(Among(objs, stored), path);
  }

  lemma AlongIsReached(objs: Objects, path: seq<Place>, i: nat)
    requires Linked(objs, path) && i < |path|
    ensures Reaches(objs, path[0], path[i])
  {
    assert Linked(objs, path[..i + 1]);
  }

  lemma SameParents(objs: Objects, stored: set<Name>, c: Name)
    ensures c in stored ==> Rebuild.Parents(Among(objs, stored), c) == Rebuild.Parents(objs, c)
    ensures c !in stored ==> Rebuild.Parents(Among(objs, stored), c) == []
  {
  }

  lemma StoredAncestor(objs: Objects, stored: set<Name>, head: Name, c: Name)
    requires Ancestor(Among(objs, stored), head, c)
    ensures Ancestor(objs, head, c)
  {
    hide Rebuild.Parents;
    var path :| Lineage(Among(objs, stored), path) && path[0] == head && path[|path| - 1] == c;
    forall i | 0 < i < |path|
      ensures path[i] in Rebuild.Parents(objs, path[i - 1])
    {
      SameParents(objs, stored, path[i - 1]);
    }
    assert Lineage(objs, path);
  }

  lemma AncestorStored(objs: Objects, stored: set<Name>, head: Name, c: Name)
    requires Ancestor(objs, head, c) && forall n :: InHistory(objs, head, n) ==> n in stored
    ensures Ancestor(Among(objs, stored), head, c)
  {
    var path :| Lineage(objs, path) && path[0] == head && path[|path| - 1] == c;
    forall i | 0 < i < |path|
      ensures path[i] in Rebuild.Parents(Among(objs, stored), path[i - 1])
    {
      assert Lineage(objs, path[..i]);
      assert Ancestor(objs, head, path[i - 1]);
      assert path[i] in Rebuild.Parents(objs, path[i - 1]);
      assert IsCommit(objs, path[i - 1]);
      assert Keeps(objs, path[i - 1], path[i - 1]);
      assert InHistory(objs, head, path[i - 1]);
      SameParents(objs, stored, path[i - 1]);
    }
    assert Lineage(Among(objs, stored), path);
  }

  /** A history that is stored reads the same from the store. */
  lemma HistoryReadsTheSame(objs: Objects, stored: set<Name>, head: Name, n: Name)
    requires forall m :: InHistory(objs, head, m) ==> m in stored
    ensures InHistory(Among(objs, stored), head, n) <==> InHistory(objs, head, n)
  {
    hide Ancestor, Reaches;
    if InHistory(Among(objs, stored), head, n) {
      var c :| Ancestor(Among(objs, stored), head, c) && Keeps(Among(objs, stored), c, n);
      StoredAncestor(objs, stored, head, c);
      StoredKeeps(objs, stored, c, n);
    }
    if InHistory(objs, head, n) {
      var c :| Ancestor(objs, head, c) && Keeps(objs, c, n);
      AncestorStored(objs, stored, head, c);
      forall m | Keeps(objs, c, m)
        ensures m in stored
      {
        assert InHistory(objs, head, m);
      }
      KeepsStored(objs, stored, c, n);
    }
  }

  lemma StoredKeeps(objs: Objects, stored: set<Name>, c: Name, n: Name)
    requires Keeps(Among(objs, stored), c, n)
    ensures Keeps(objs, c, n)
  {
    hide Reaches;
    if n != c {
      var kind :| Reaches(Among(objs, stored), Place(objs[c].tree, TreeNode), Place(n, kind));
      StoredReaches(objs, stored, Place(objs[c].tree, TreeNode), Place(n, kind));
    }
  }

  lemma KeepsStored(objs: Objects, stored: set<Name>, c: Name, n: Name)
    requires Keeps(objs, c, n) && forall m :: Keeps(objs, c, m) ==> m in stored
    ensures Keeps(Among(objs, stored), c, n)
  {
    hide Reaches;
    assert Keeps(objs, c, c);
    if n != c {
      var root := Place(objs[c].tree, TreeNode);
      var kind :| Reaches(objs, root, Place(n, kind));
      forall v | Reaches(objs, root, v)
        ensures v.name in stored
      {
        assert v == Place(v.name, v.kind);
        assert InClosure(objs, objs[c].tree, v.name);
        assert Keeps(objs, c, v.name);
      }
      ReachesStored(objs, stored, root, Place(n, kind));
    }
  }

  /** In any sound state, walking the store gives the keep-set the safety argument
      assumes: every name the roots' full histories reach, and no other. */
  lemma RebuildFromTheStore(objs: Objects, cfg: Config, s: State, env: EnvId, n: Name)
    requires Inv(objs, cfg, s)
    ensures n in Rebuilt(objs, cfg, s, env) <==>
              exists r :: IsRoot(cfg, s, env, r) && InHistory(Among(objs, s.stored.Keys), r, n)
  {
    hide InHistory, IsRoot, Inv;
    InvIsSafe(objs, cfg, s);
    forall r | IsRoot(cfg, s, env, r)
      ensures InHistory(Among(objs, s.stored.Keys), r, n) <==> InHistory(objs, r, n)
    {
      HistoryReadsTheSame(objs, s.stored.Keys, r, n);
    }
  }

  // ---- what a sweep takes ----

  /** A stored name is gone after a sweep exactly when it is old enough, no environment keeps
      it, no session whose lease is open recorded it, and the scan reaches it. */
  lemma SweepTakesIff(objs: Objects, cfg: Config, s: State, n: Name)
    requires n in s.stored
    ensures n !in Collection.Act(objs, cfg, s, Sweep).stored <==>
              && s.now - s.stored[n] >= cfg.graceUs
              && (forall env :: env in s.keep ==> n !in s.keep[env])
              && (forall id :: id in s.sessions && s.now < s.sessions[id].expiresAt ==> n !in s.sessions[id].recorded)
              && !(|n.digest| >= 4 && forall i :: 0 <= i < 4 ==> n.digest[i] == 0xFF)
  {
    assert Sharding.PastTheEnd(n.digest) <==> |n.digest| >= 4 && n.digest[..4] == [0xFF, 0xFF, 0xFF, 0xFF];
    assert |n.digest| >= 4 ==> forall i :: 0 <= i < 4 ==> n.digest[..4][i] == n.digest[i];
  }

  /** Content that was there already keeps the time it was first written at, however often it
      is written again, so the grace period does not start anew; and the session holds all the
      commit keeps, what it did not have to write included. */
  lemma RecordingKeepsWriteTimes(objs: Objects, cfg: Config, s: State, id: SessionId, commit: Name, written: set<Name>,
                                 n: Name)
    requires Enabled(objs, cfg, s, Record(id, commit, written))
    ensures var after := Collection.Act(objs, cfg, s, Record(id, commit, written));
            && (n in after.stored <==> n in s.stored || n in written)
            && (n in s.stored ==> after.stored[n] == s.stored[n])
            && (n in written && n !in s.stored ==> after.stored[n] == s.now)
            && (n in after.sessions[id].recorded
                <==> n == commit || InClosure(objs, objs[commit].tree, n))
  {
    hide InClosure;
    assert Keeps(objs, commit, n) <==> n == commit || InClosure(objs, objs[commit].tree, n);
  }

  // ---- what a live ref still gives ----

  /** A line of commits, each listed among the parents of the one before. */
  predicate ParentPath(objs: Objects, path: seq<Name>)
  {
    && path != [] && (forall i :: 0 <= i < |path| ==> IsCommit(objs, path[i]))
    && forall i :: 0 < i < |path| ==> path[i] in objs[path[i - 1]].parents
  }

  lemma PathIsHistory(objs: Objects, path: seq<Name>, n: Name)
    requires ParentPath(objs, path)
    requires n == path[|path| - 1] || InClosure(objs, objs[path[|path| - 1]].tree, n)
    ensures InHistory(objs, path[0], n)
  {
    hide InClosure;
    assert Lineage(objs, path);
    assert Ancestor(objs, path[0], path[|path| - 1]) && Keeps(objs, path[|path| - 1], n);
  }

  /** Where a reader may start: at a commit a ref names, or at one that an operation not
      older than the retention moved a ref from or to. */
  predicate StartsAt(cfg: Config, s: State, env: EnvId, c: Name)
  {
    || (exists ref :: ref in RefsOf(s, env) && RefsOf(s, env)[ref] == c)
    || exists i :: 0 <= i < |OpsOf(s, env)| && OpsOf(s, env)[i].atUs >= s.now - cfg.retentionUs
                   && (OpsOf(s, env)[i].before == Some(c) || OpsOf(s, env)[i].after == Some(c))
  }

  lemma StartIsRoot(cfg: Config, s: State, env: EnvId, c: Name)
    requires StartsAt(cfg, s, env, c)
    ensures IsRoot(cfg, s, env, c)
  {
  }

  /** After any careful run, start at a live ref or a retained operation and follow parents
      in any way: every commit come past is stored, and the tree of each is the directory it
      was, read from what is stored, with every file's bytes as they were. */
  lemma EveryVersionStaysReadable(objs: Objects, cfg: Config, now: int, actions: seq<Action>, end: State, env: EnvId,
                                  path: seq<Name>, d: Item)
    requires cfg.Valid() && IntactTrees(objs)
    requires Runs(objs, cfg, Empty(now), actions, end) && CarefulRun(objs, cfg, Empty(now), actions)
    requires ParentPath(objs, path) && StartsAt(cfg, end, env, path[0])
    requires d.Dir? && Whole(objs, objs[path[|path| - 1]].tree, d)
    ensures var c, held := path[|path| - 1], Among(objs, end.stored.Keys);
            && c in held && held[c] == objs[c] && Whole(held, objs[c].tree, d)
            && forall p: Path :: At(d, p).Some? && At(d, p).value.Leaf? ==>
                 FileBytes(held, At(d, p).value.target) == FileBytes(objs, At(d, p).value.target)
  {
    hide Runs, CarefulRun, InHistory, InClosure, Whole, IntactTrees, StartsAt, IsRoot;
    CollectionIsSafe(objs, cfg, now, actions, end);
    StartIsRoot(cfg, end, env, path[0]);
    var c := path[|path| - 1];
    PathIsHistory(objs, path, c);
    assert c in end.stored.Keys;
    forall n | InClosure(objs, objs[c].tree, n)
      ensures n in end.stored.Keys
    {
      PathIsHistory(objs, path, n);
    }
    ClosureIsWhatReadingNeeds(objs, end.stored.Keys, objs[c].tree, d);
  }
}
