/** Partitioning names by hash prefix (src/store/sharding.py). */
module Sharding {
  // A shard is a number computed from a digest on one side and a range of digests on the
  // other, and the two agree except at the very end of the range.

  import opened ByteStrings
  import opened Model

  const MAX_PREFIX_BITS: nat := 24
  const PREFIX_BYTES: nat := 3
  const PREFIX_SPACE: nat := 0x100_0000

  predicate BitsOk(bits: int)
  {
    0 < bits <= MAX_PREFIX_BITS
  }

  /** The number the first three bytes of a digest spell. */
  function Leading(digest: Bytes): (n: nat)
  {
    FromBe(if |digest| < PREFIX_BYTES then digest else digest[..PREFIX_BYTES])
  }

  /** `n << k`. */
  function Shl(n: nat, k: nat): (r: nat)
  {
    if k == 0 then n else 2 * Shl(n, k - 1)
  }

  /** `n >> k`. */
  function Shr(n: nat, k: nat): (r: nat)
  {
    if k == 0 then n else Shr(n / 2, k - 1)
  }

  function ShardCount(bits: nat): (count: nat)
  {
    Shl(1, bits)
  }

  function ShardOf(digest: Bytes, bits: int): (r: Result<nat>)
  {
    if !BitsOk(bits) then Err(OutOfRange) else Ok(Shr(Leading(digest), MAX_PREFIX_BITS - bits))
  }

  /** The half-open range of digests of one shard. */
  function ShardBounds(bits: int, shard: int): (r: Result<(Bytes, Bytes)>)
  {
    if !BitsOk(bits) || !(0 <= shard < ShardCount(bits)) then Err(OutOfRange)
    else
      ShardsFit(bits, shard);
      var low, high := Shl(shard, MAX_PREFIX_BITS - bits), Shl(shard + 1, MAX_PREFIX_BITS - bits);
      Ok((Be(low, PREFIX_BYTES), if high < PREFIX_SPACE then Be(high, PREFIX_BYTES) else [0xFF, 0xFF, 0xFF, 0xFF]))
  }

  /** The condition of the range scan. */
  predicate Within(digest: Bytes, bounds: (Bytes, Bytes))
  {
    LessEq(bounds.0, digest) && Less(digest, bounds.1)
  }

  /** A digest no range reaches: the sentinel after the last shard does not sort above it. */
  predicate PastTheEnd(digest: Bytes)
  {
    |digest| >= 4 && digest[..4] == [0xFF, 0xFF, 0xFF, 0xFF]
  }

  lemma {:induction false} ShlGrows(a: nat, b: nat, k: nat)
    requires a < b
    ensures Shl(a, k) < Shl(b, k)
  {
    if k > 0 {
      ShlGrows(a, b, k - 1);
    }
  }

  lemma {:induction false} ShlTwice(n: nat, j: nat, k: nat)
    ensures Shl(Shl(n, j), k) == Shl(n, j + k)
  {
    if k > 0 {
      ShlTwice(n, j, k - 1);
    }
  }

  lemma ThreeBytes()
    ensures Shl(1, MAX_PREFIX_BITS) == Pow256(PREFIX_BYTES) == PREFIX_SPACE
  {
    assert Shl(1, 8) == 0x100;
    assert Shl(1, 16) == 0x1_0000;
    assert Pow256(1) == 0x100 && Pow256(2) == 0x1_0000;
  }

  /** The shards tile the three-byte numbers. */
  lemma ShardsFit(bits: nat, shard: nat)
    requires BitsOk(bits) && shard < ShardCount(bits)
    ensures Shl(shard, MAX_PREFIX_BITS - bits) < PREFIX_SPACE == Pow256(PREFIX_BYTES)
    ensures Shl(shard + 1, MAX_PREFIX_BITS - bits) <= PREFIX_SPACE
    ensures Shl(shard + 1, MAX_PREFIX_BITS - bits) == PREFIX_SPACE <==> shard == ShardCount(bits) - 1
  {
    ThreeBytes();
    hide Shl, Pow256;
    var width := MAX_PREFIX_BITS - bits;
    ShlTwice(1, bits, width);
    ShlGrows(shard, ShardCount(bits), width);
    if shard + 1 < ShardCount(bits) {
      ShlGrows(shard + 1, ShardCount(bits), width);
    }
  }

  /** Comparing a digest with a three-byte bound compares its leading three bytes. */
  lemma PrefixOrder(digest: Bytes, bound: Bytes)
    requires |digest| >= PREFIX_BYTES && |bound| == PREFIX_BYTES
    ensures LessEq(bound, digest) <==> FromBe(bound) <= Leading(digest)
    ensures Less(digest, bound) <==> Leading(digest) < FromBe(bound)
  {
    Spelled(bound);
    Spelled(digest[..PREFIX_BYTES]);
    var d, b := digest, bound;
    assert Less(d, b) == (d[0] < b[0] || (d[0] == b[0] && Less(d[1..], b[1..])));
    assert Less(d[1..], b[1..]) == (d[1] < b[1] || (d[1] == b[1] && Less(d[1..][1..], b[1..][1..])));
    assert Less(d[1..][1..], b[1..][1..]) == (d[2] < b[2]);
    assert Less(b, d) == (b[0] < d[0] || (b[0] == d[0] && Less(b[1..], d[1..])));
    assert Less(b[1..], d[1..]) == (b[1] < d[1] || (b[1] == d[1] && Less(b[1..][1..], d[1..][1..])));
    assert Less(b[1..][1..], d[1..][1..]) == (b[2] < d[2] || (b[2] == d[2] && |d| > 3));
    if |d| == 3 && d[0] == b[0] && d[1] == b[1] && d[2] == b[2] { assert d == b; }
  }

  lemma Spelled(b: Bytes)
    requires |b| == PREFIX_BYTES
    ensures FromBe(b) == 0x1_0000 * (b[0] as int) + 0x100 * (b[1] as int) + b[2] as int
  {
    assert b[..2][..1] == b[..1] && b[..1][..0] == [];
    assert FromBe(b[..1]) == b[0];
    assert FromBe(b[..2]) == 0x100 * (b[0] as int) + b[1] as int;
  }

  /** Which shard a number is in, by shifting it and by bounds. */
  lemma {:induction false} ShiftIsARange(n: nat, k: nat, shard: nat)
    ensures Shr(n, k) == shard <==> Shl(shard, k) <= n < Shl(shard + 1, k)
  {
    if k > 0 {
      ShiftIsARange(n / 2, k - 1, shard);
    }
  }

  /** The sentinel sorts above a digest exactly when the digest does not start with
      four 0xFF bytes. */
  lemma SentinelOrder(digest: Bytes)
    requires |digest| >= 4
    ensures Less(digest, [0xFF, 0xFF, 0xFF, 0xFF]) <==> !PastTheEnd(digest)
  {
    var s: Bytes := [0xFF, 0xFF, 0xFF, 0xFF];
    var d := digest;
    assert d[..4] == [d[0], d[1], d[2], d[3]];
    assert Less(d, s) == (d[0] < 0xFF || Less(d[1..], s[1..]));
    assert Less(d[1..], s[1..]) == (d[1] < 0xFF || Less(d[2..], s[2..])) by {
      assert d[1..][1..] == d[2..] && s[1..][1..] == s[2..];
    }
    assert Less(d[2..], s[2..]) == (d[2] < 0xFF || Less(d[3..], s[3..])) by {
      assert d[2..][1..] == d[3..] && s[2..][1..] == s[3..];
    }
    assert Less(d[3..], s[3..]) == (d[3] < 0xFF) by {
      assert s[3..][1..] == [];
    }
  }

  /** The range scan of a shard finds exactly the digests of that shard, for every bit
      width, except those the last sentinel does not reach. */
  lemma BoundsMatchShards(digest: Bytes, bits: int, shard: nat)
    requires BitsOk(bits) && shard < ShardCount(bits) && |digest| >= 4
    ensures Within(digest, ShardBounds(bits, shard).value) <==>
              ShardOf(digest, bits) == Ok(shard) && !(shard == ShardCount(bits) - 1 && PastTheEnd(digest))
  {
    hide Shl, Shr, Pow256, Less, LessEq, FromBe, Be, PastTheEnd;
    var width := MAX_PREFIX_BITS - bits;
    var low, high := Shl(shard, width), Shl(shard + 1, width);
    ShardsFit(bits, shard);
    ShiftIsARange(Leading(digest), width, shard);
    FromBeOfBe(low, PREFIX_BYTES);
    PrefixOrder(digest, Be(low, PREFIX_BYTES));
    LeadingFits(digest);
    if high < PREFIX_SPACE {
      FromBeOfBe(high, PREFIX_BYTES);
      PrefixOrder(digest, Be(high, PREFIX_BYTES));
    } else {
      SentinelOrder(digest);
    }
  }

  lemma LeadingFits(digest: Bytes)
    ensures |digest| >= PREFIX_BYTES ==> Leading(digest) < PREFIX_SPACE
  {
    ThreeBytes();
    if |digest| >= PREFIX_BYTES {
      assert |digest[..PREFIX_BYTES]| == PREFIX_BYTES;
    }
  }

  /** A digest past the end belongs to the last shard, so no scan finds it. */
  lemma PastTheEndIsInTheLastShard(digest: Bytes, bits: int)
    requires BitsOk(bits) && PastTheEnd(digest)
    ensures ShardOf(digest, bits) == Ok(ShardCount(bits) - 1)
  {
    assert digest[..PREFIX_BYTES] == digest[..4][..PREFIX_BYTES];
    Spelled(digest[..PREFIX_BYTES]);
    hide Shl, Shr;
    ShlOfOne(bits);
    ShardsFit(bits, ShardCount(bits) - 1);
    LastShardStarts(bits);
    ShiftIsARange(Leading(digest), MAX_PREFIX_BITS - bits, ShardCount(bits) - 1);
  }

  lemma {:induction false} ShlOfOne(k: nat)
    ensures Shl(1, k) > 0
  {
    if k > 0 {
      ShlOfOne(k - 1);
    }
  }

  /** The last shard holds the largest three-byte number. */
  lemma LastShardStarts(bits: nat)
    requires BitsOk(bits) && ShardCount(bits) > 0
    ensures Shl(ShardCount(bits) - 1, MAX_PREFIX_BITS - bits) <= PREFIX_SPACE - 1
  {
    ShardsFit(bits, ShardCount(bits) - 1);
  }

  /** Every digest has one shard. */
  lemma EveryDigestHasAShard(digest: Bytes, bits: int)
    requires BitsOk(bits) && |digest| >= PREFIX_BYTES
    ensures ShardOf(digest, bits).value < ShardCount(bits)
  {
    hide Shl, Shr, Leading;
    var n, width := Leading(digest), MAX_PREFIX_BITS - bits;
    var shard := Shr(n, width);
    LeadingFits(digest);
    ThreeBytes();
    ShiftIsARange(n, width, shard);
    ShlTwice(1, bits, width);
    if shard > ShardCount(bits) {
      ShlGrows(ShardCount(bits), shard, width);
    }
  }
}
