/** Names in ascending order: what `sorted` gives for a set of byte strings. */
module NameOrder {
  import opened ByteStrings
  import opened Validation

  /** `names` lists `keys` in ascending order: Python's `sorted`. */
  ghost predicate Sorts(names: seq<Bytes>, keys: set<Bytes>)
  {
    Ascending(names) && forall k :: k in names <==> k in keys
  }

  lemma {:induction false} SmallestKey(keys: set<Bytes>) returns (least: Bytes)
    requires keys != {}
    ensures least in keys && forall k :: k in keys ==> LessEq(least, k)
    decreases |keys|
  {
    var some :| some in keys;
    if keys == {some} {
      least := some;
    } else {
      var below := SmallestKey(keys - {some});
      LessTotal(below, some);
      least := if Less(some, below) then some else below;
      forall k | k in keys
        ensures LessEq(least, k)
      {
        if k != some {
          assert k in keys - {some};
          if least == some && k != below { LessTransitive(some, below, k); }
        }
      }
    }
  }

  /** The names of a finite set, in order. */
  ghost function SortedNames(keys: set<Bytes>): (names: seq<Bytes>)
    ensures Sorts(names, keys)
  {
    if keys == {} then []
    else
      var least := Least(keys);
      var rest := SortedNames(keys - {least});
      LeastFirst(least, rest, keys);
      [least] + rest
  }

  ghost function Least(keys: set<Bytes>): (least: Bytes)
    requires keys != {}
    ensures least in keys && forall k :: k in keys ==> LessEq(least, k)
  {
    assert exists k :: k in keys && forall other :: other in keys ==> LessEq(k, other) by {
      var k := SmallestKey(keys);
    }
    var k :| k in keys && forall other :: other in keys ==> LessEq(k, other);
    k
  }

  lemma LeastFirst(least: Bytes, rest: seq<Bytes>, keys: set<Bytes>)
    requires least in keys && Sorts(rest, keys - {least})
    requires forall k :: k in keys ==> LessEq(least, k)
    ensures Sorts([least] + rest, keys)
  {
    var names := [least] + rest;
    forall i | 0 < i < |names|
      ensures Less(names[i - 1], names[i])
    {
      assert names[i] == rest[i - 1];
      assert names[i] in rest;
    }
    assert forall k :: k in names <==> k == least || k in rest;
  }

  /** A set has one ascending listing. */
  lemma {:induction false} SortsOneWay(a: seq<Bytes>, b: seq<Bytes>, keys: set<Bytes>)
    requires Sorts(a, keys) && Sorts(b, keys)
    ensures a == b
    decreases |a|
  {
    ListsNothing(a, keys);
    ListsNothing(b, keys);
    if a != [] {
      SameFirst(a, b, keys);
      DropFirst(a, keys);
      DropFirst(b, keys);
      SortsOneWay(a[1..], b[1..], keys - {a[0]});
      assert a == [a[0]] + a[1..] && b == [b[0]] + b[1..];
    }
  }

  lemma ListsNothing(names: seq<Bytes>, keys: set<Bytes>)
    requires Sorts(names, keys)
    ensures names == [] <==> keys == {}
  {
    if names != [] { assert names[0] in names; }
  }

  lemma SameFirst(a: seq<Bytes>, b: seq<Bytes>, keys: set<Bytes>)
    requires Sorts(a, keys) && Sorts(b, keys) && a != [] && b != []
    ensures a[0] == b[0]
  {
    assert a[0] in a && b[0] in b;
    var i :| 0 <= i < |b| && b[i] == a[0];
    var j :| 0 <= j < |a| && a[j] == b[0];
    if i > 0 && j > 0 {
      AscendingPairwise(b, 0, i);
      AscendingPairwise(a, 0, j);
      LessAsymmetric(a[0], b[0]);
    }
  }

  lemma DropFirst(names: seq<Bytes>, keys: set<Bytes>)
    requires Sorts(names, keys) && names != []
    ensures Sorts(names[1..], keys - {names[0]})
  {
    forall k
      ensures k in names[1..] <==> k in keys - {names[0]}
    {
      if k in names[1..] {
        var i :| 1 <= i < |names| && names[i] == k;
        AscendingPairwise(names, 0, i);
        LessIrreflexive(k);
        assert k in names;
      } else if k in keys && k != names[0] {
        assert k in names;
      }
    }
  }

  lemma {:induction false} NamesAreAsMany(names: seq<Bytes>, keys: set<Bytes>)
    requires Sorts(names, keys)
    ensures |names| == |keys|
  {
    ListsNothing(names, keys);
    if names != [] {
      assert names[0] in names;
      DropFirst(names, keys);
      NamesAreAsMany(names[1..], keys - {names[0]});
    }
  }

  /** Where a name belongs among ascending names. */
  method Insert(names: seq<Bytes>, name: Bytes, ghost keys: set<Bytes>) returns (more: seq<Bytes>)
    requires Sorts(names, keys) && name !in keys
    ensures Sorts(more, keys + {name})
  {
    var i := 0;
    while i < |names| && Less(names[i], name)
      invariant 0 <= i <= |names|
      invariant i > 0 ==> Less(names[i - 1], name)
    {
      i := i + 1;
    }
    if i < |names| {
      assert names[i] in names;
      LessTotal(names[i], name);
    }
    more := names[..i] + [name] + names[i..];
    forall j | 0 < j < |more|
      ensures Less(more[j - 1], more[j])
    {
      if j < i {
        assert more[j] == names[j] && more[j - 1] == names[j - 1];
      } else if j > i + 1 {
        assert more[j] == names[j - 1] && more[j - 1] == names[j - 2];
      }
    }
    assert names == names[..i] + names[i..];
  }

  /** `sorted` over the dictionary's keys. */
  method SortNames(keys: set<Bytes>) returns (names: seq<Bytes>)
    ensures names == SortedNames(keys)
  {
    names := [];
    var rest, done: set<Bytes> := keys, {};
    while rest != {}
      invariant rest + done == keys && rest !! done
      invariant Sorts(names, done)
      decreases |rest|
    {
      var k :| k in rest;
      names := Insert(names, k, done);
      rest, done := rest - {k}, done + {k};
    }
    assert done == keys;
    SortsOneWay(names, SortedNames(keys), keys);
  }
}
