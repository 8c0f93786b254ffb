/** What each environment still needs (src/store/keepsets.py), and the scan of one
    shard of a digest-ordered table that it shares with the write catalog
    (src/store/catalog.py). */
module KeepSets {
  import opened ByteStrings
  import opened Model
  import opened Sums
  import opened Validation
  import opened NameOrder
  import opened Sharding

  type EnvId = string

  predicate FullDigests(names: set<Name>)
  {
    forall n :: n in names ==> |n.digest| == DIGEST_BYTES
  }

  /** What the scan of one shard finds: everything in the shard that is not past the
      end of the range. */
  predicate InShard(n: Name, bits: int, shard: int)
  {
    ShardOf(n.digest, bits) == Ok(shard) && !PastTheEnd(n.digest)
  }

  /** `SELECT … WHERE digest >= low AND digest < high ORDER BY digest`. */
  method ScanShard(names: set<Name>, bits: int, shard: nat) returns (rows: seq<Name>)
    requires BitsOk(bits) && shard < ShardCount(bits) && FullDigests(names)
    ensures forall n :: n in rows <==> n in names && InShard(n, bits, shard)
    ensures Distinct(rows)
    ensures forall i :: 0 < i < |rows| ==> Less(rows[i - 1].digest, rows[i].digest)
  {
    hide Within, ShardOf, PastTheEnd, SortedNames, ShardCount, Be;
    var bounds := ShardBounds(bits, shard).value;
    forall n | n in names
      ensures Within(n.digest, bounds) <==> InShard(n, bits, shard)
    {
      BoundsMatchShards(n.digest, bits, shard);
      if PastTheEnd(n.digest) { PastTheEndIsInTheLastShard(n.digest, bits); }
    }
    var digests := set n | n in names && Within(n.digest, bounds) :: n.digest;
    var sorted := SortNames(digests);
    rows := seq(|sorted|, i requires 0 <= i < |sorted| => Name(sorted[i]));
    forall n
      ensures n in rows <==> n in names && InShard(n, bits, shard)
    {
      if n in names && InShard(n, bits, shard) {
        assert n.digest in digests && n.digest in sorted;
        var i :| 0 <= i < |sorted| && sorted[i] == n.digest;
        assert rows[i] == n;
      }
      if n in rows {
        assert n.digest in sorted;
        var m :| m in names && Within(m.digest, bounds) && m.digest == n.digest;
        assert m == n;
      }
    }
    forall i, j | 0 <= i < j < |rows|
      ensures rows[i] != rows[j]
    {
      AscendingPairwise(sorted, i, j);
      LessIrreflexive(sorted[i]);
    }
  }

  class KeepSetTable {
    var table: map<EnvId, set<Name>>

    constructor ()
      ensures table == map[]
    {
      table := map[];
    }

    /** One environment's keep-set. */
    function Of(env: EnvId): (names: set<Name>)
      reads this
    {
      if env in table then table[env] else {}
    }

    /** Everything any environment needs. */
    function All(): (names: set<Name>)
      reads this
      ensures forall n :: n in names <==> exists env :: env in table && n in table[env]
    {
      set env, n | env in table && n in table[env] :: n
    }

    /** To be needed anywhere is to be needed by some environment. */
    lemma NeededByOne()
      ensures forall n :: n in All() <==> exists env :: n in Of(env)
    {
      forall env, n | n in Of(env)
        ensures n in All()
      {
        assert env in table && n in table[env];
      }
      forall n | n in All()
        ensures exists env :: n in Of(env)
      {
        var env :| env in table && n in table[env];
        assert n in Of(env);
      }
    }

    /** `merge`: the set only grows, and only this environment's. */
    method Merge(env: EnvId, names: seq<Name>) returns (added: nat)
      modifies this
      ensures Of(env) == old(Of(env)) + (set n | n in names)
      ensures forall other :: other != env ==> Of(other) == old(Of(other))
      ensures added == |(set n | n in names) - old(Of(env))|
    {
      var extra := (set n | n in names) - Of(env);
      if names == [] {
        assert Of(env) == Of(env) + (set n | n in names);
        return 0;
      }
      table := table[env := Of(env) + (set n | n in names)];
      added := |extra|;
    }

    /** `replace`: the set becomes exactly what it is given. */
    method Replace(env: EnvId, names: set<Name>) returns (count: nat)
      modifies this
      ensures Of(env) == names && count == |names|
      ensures forall other :: other != env ==> Of(other) == old(Of(other))
    {
      table := table[env := names];
      count := |names|;
    }

    method Drop(env: EnvId) returns (removed: nat)
      modifies this
      ensures Of(env) == {} && removed == |old(Of(env))|
      ensures forall other :: other != env ==> Of(other) == old(Of(other))
    {
      removed := |Of(env)|;
      table := table - {env};
    }

    /** `live`: which of the names any environment needs. */
    method Live(names: seq<Name>) returns (live: set<Name>)
      ensures forall n :: n in live <==> n in names && exists env :: n in Of(env)
    {
      NeededByOne();
      live := set n | n in names && n in All();
    }

    /** `holds`: which of the names this environment needs. */
    method Holds(env: EnvId, names: seq<Name>) returns (held: set<Name>)
      ensures forall n :: n in held <==> n in names && n in Of(env)
    {
      held := set n | n in names && n in Of(env);
    }

    /** `iter_shard`: one shard of what is needed anywhere. */
    method IterShard(bits: int, shard: nat) returns (rows: seq<Name>)
      requires BitsOk(bits) && shard < ShardCount(bits) && FullDigests(All())
      ensures forall n :: n in rows <==> n in All() && InShard(n, bits, shard)
      ensures Distinct(rows)
    {
      rows := ScanShard(All(), bits, shard);
    }
  }

  /** What environments share survives the deletion of any of them: after some keep-sets
      are dropped, a name is live exactly when an environment that stays needed it. */
  method LiveAfterDrops(keepSets: KeepSetTable, gone: seq<EnvId>, names: seq<Name>) returns (live: set<Name>)
    modifies keepSets
    ensures forall n :: n in live <==> n in names && exists env :: env !in gone && n in old(keepSets.Of(env))
  {
    for i := 0 to |gone|
      invariant forall env :: keepSets.Of(env) == if env in gone[..i] then {} else old(keepSets.Of(env))
    {
      var _ := keepSets.Drop(gone[i]);
      assert gone[..i + 1] == gone[..i] + [gone[i]];
    }
    assert gone[..|gone|] == gone;
    assert forall env :: keepSets.Of(env) == if env in gone then {} else old(keepSets.Of(env));
    live := keepSets.Live(names);
    forall n, env | env !in gone && n in old(keepSets.Of(env))
      ensures exists other :: n in keepSets.Of(other)
    {
      assert n in keepSets.Of(env);
    }
    forall n, env | n in keepSets.Of(env)
      ensures exists other :: other !in gone && n in old(keepSets.Of(other))
    {
      assert env !in gone && n in old(keepSets.Of(env));
    }
  }

  /** Merging into one environment makes every merged name live and held there, and
      leaves what the others hold alone. */
  method HeldAfterMerge(keepSets: KeepSetTable, env: EnvId, names: seq<Name>, other: EnvId)
    returns (held: set<Name>, live: set<Name>, heldByOther: set<Name>)
    modifies keepSets
    ensures held == live == set n | n in names
    ensures other != env ==> forall n :: n in heldByOther <==> n in names && n in old(keepSets.Of(other))
  {
    var _ := keepSets.Merge(env, names);
    held := keepSets.Holds(env, names);
    live := keepSets.Live(names);
    assert forall n :: n in names ==> n in keepSets.Of(env);
    heldByOther := keepSets.Holds(other, names);
  }
}
