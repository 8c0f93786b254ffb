/** Sums of sizes, powers of two, and sequences cut into consecutive runs. */
module Sums {

  function Sum(xs: seq<nat>): (total: nat)
  {
    if xs == [] then 0 else xs[0] + Sum(xs[1..])
  }

  lemma {:induction false} SumOfConcat(a: seq<nat>, b: seq<nat>)
    ensures Sum(a + b) == Sum(a) + Sum(b)
  {
    if a == [] {
      assert a + b == b;
    } else {
      assert (a + b)[1..] == a[1..] + b;
      SumOfConcat(a[1..], b);
    }
  }

  lemma SumOfOne(x: nat)
    ensures Sum([x]) == x
  {
    assert [x][1..] == [];
  }

  lemma SumOfSnoc(a: seq<nat>, x: nat)
    ensures Sum(a + [x]) == Sum(a) + x
  {
    SumOfConcat(a, [x]);
  }

  /** A sum of bounded items is bounded. */
  lemma {:induction false} SumBounds(xs: seq<nat>, low: nat, high: nat)
    requires forall x :: x in xs ==> low <= x <= high
    ensures low * |xs| <= Sum(xs) <= high * |xs|
  {
    if xs != [] {
      var n := |xs[1..]|;
      assert forall x :: x in xs[1..] ==> x in xs;
      assert xs[0] in xs;
      SumBounds(xs[1..], low, high);
      OneMoreTimes(low, n);
      OneMoreTimes(high, n);
    }
  }

  lemma OneMoreTimes(k: nat, n: nat)
    ensures k * (n + 1) == k * n + k
  {
  }

  function Concat<T>(parts: seq<seq<T>>): (whole: seq<T>)
  {
    if parts == [] then [] else parts[0] + Concat(parts[1..])
  }

  lemma {:induction false} ConcatOfConcat<T>(a: seq<seq<T>>, b: seq<seq<T>>)
    ensures Concat(a + b) == Concat(a) + Concat(b)
  {
    if a == [] {
      assert a + b == b;
    } else {
      assert (a + b)[1..] == a[1..] + b;
      ConcatOfConcat(a[1..], b);
    }
  }

  lemma ConcatOfSnoc<T>(a: seq<seq<T>>, x: seq<T>)
    ensures Concat(a + [x]) == Concat(a) + x
  {
    ConcatOfConcat(a, [x]);
    assert [x][1..] == [];
  }

  function Pow2(k: nat): (p: nat)
    ensures p > 0
  {
    if k == 0 then 1 else 2 * Pow2(k - 1)
  }

  lemma {:induction false} Pow2Splits(k: nat, n: nat)
    requires k <= n
    ensures Pow2(n) == Pow2(n - k) * Pow2(k)
  {
    if k == n {
      assert Pow2(0) * Pow2(k) == Pow2(k);
    } else {
      Pow2Splits(k, n - 1);
      assert 2 * (Pow2(n - 1 - k) * Pow2(k)) == (2 * Pow2(n - 1 - k)) * Pow2(k);
    }
  }

  function Plus(xs: seq<nat>, offset: nat): (ys: seq<nat>)
    ensures |ys| == |xs|
    ensures forall i :: 0 <= i < |xs| ==> ys[i] == xs[i] + offset
  {
    seq(|xs|, i requires 0 <= i < |xs| => xs[i] + offset)
  }

  lemma ShiftTail(rest: seq<nat>, size: nat, i: nat, tail: seq<nat>)
    requires 0 < i <= |rest| && rest[i..] == Plus(tail, rest[i - 1])
    ensures ([size] + Plus(rest, size))[i + 1..] == Plus(tail, size + rest[i - 1])
  {
    var shifted := [size] + Plus(rest, size);
    forall j | 0 <= j < |tail|
      ensures shifted[i + 1..][j] == tail[j] + (size + rest[i - 1])
    {
      assert rest[i + j] == rest[i..][j];
    }
  }
}
