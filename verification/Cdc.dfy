/** FastCDC (src/format/cdc.py). */
module Cdc {
  // Where a byte string is cut into chunks. The gear table and the two mask tests are
  // arbitrary functions: no boundary below depends on their values.

  import opened ByteStrings
  import opened Model
  import opened Sums

  const WORD := 0x1_0000_0000_0000_0000

  datatype ChunkParams = ChunkParams(minSize: nat, avgSize: nat, maxSize: nat,
                                     gear: Byte -> nat, hitsShort: nat -> bool, hitsLong: nat -> bool)
  {
    /** What `__post_init__` asks of the sizes. */
    predicate Valid()
    {
      0 < minSize <= avgSize <= maxSize
    }
  }

  // ---- the gear hash ----

  function Roll(p: ChunkParams, fingerprint: nat, b: Byte): (next: nat)
  {
    (2 * fingerprint + p.gear(b)) % WORD
  }

  /** The fingerprint after hashing `window` from `seed`. */
  function Hash(p: ChunkParams, seed: nat, window: Bytes): (fingerprint: nat)
  {
    if window == [] then seed else Roll(p, Hash(p, seed, window[..|window| - 1]), window[|window| - 1])
  }

  lemma WordIsPow2()
    ensures Pow2(64) == WORD
  {
    Pow2Splits(32, 64);
    Pow2Splits(16, 32);
    assert Pow2(16) == 0x1_0000 by {
      Pow2Splits(8, 16);
      assert Pow2(8) == 256;
    }
  }

  lemma SameRemainder(x: nat, y: nat, c: int, m: nat)
    requires m > 0 && x - y == c * m
    ensures x % m == y % m
  {
    var q, r := y / m, y % m;
    assert x == (q + c) * m + r;
    RemainderUnique(x, q + c, r, m);
  }

  lemma MultipleIsFar(d: int, m: nat)
    ensures d >= 1 ==> d * m >= m
    ensures d <= -1 ==> d * m + m <= 0
  {
  }

  lemma RemainderUnique(x: nat, q: int, r: nat, m: nat)
    requires r < m && x == q * m + r
    ensures x % m == r
  {
    var d := q - x / m;
    assert d * m == x % m - r;
    MultipleIsFar(d, m);
  }

  /** Reducing two congruent numbers modulo a multiple of m keeps them congruent. */
  lemma ReduceModMultiple(u: nat, v: nat, c: int, w: nat, m: nat, word: nat)
    requires m > 0 && w > 0 && word == w * m && u - v == c * m
    ensures word > 0 && (u % word) % m == (v % word) % m
  {
    var qu, qv := u / word, v / word;
    assert word > 0 by { MultipleIsFar(w, m); }
    assert qu * word == (qu * w) * m && qv * word == (qv * w) * m;
    assert u % word == u - (qu * w) * m && v % word == v - (qv * w) * m;
    var d := c - qu * w + qv * w;
    assert d * m == c * m - (qu * w) * m + (qv * w) * m;
    SameRemainder(u % word, v % word, d, m);
  }

  /** One more byte fixes one more low bit. */
  lemma RollFixesABit(p: ChunkParams, x: nat, y: nat, b: Byte, k: nat)
    requires 0 < k <= 64
    requires x % Pow2(k - 1) == y % Pow2(k - 1)
    ensures Roll(p, x, b) % Pow2(k) == Roll(p, y, b) % Pow2(k)
  {
    var h, m := Pow2(k - 1), Pow2(k);
    assert m == 2 * h;
    WordIsPow2();
    Pow2Splits(k, 64);
    hide Pow2;
    var c := Doubled(x, y, p.gear(b), h);
    ReduceModMultiple(2 * x + p.gear(b), 2 * y + p.gear(b), c, Pow2(64 - k), m, WORD);
  }

  /** Doubling numbers that agree modulo h makes them agree modulo 2h. */
  lemma Doubled(x: nat, y: nat, g: nat, h: nat) returns (c: int)
    requires h > 0 && x % h == y % h
    ensures (2 * x + g) - (2 * y + g) == c * (2 * h)
  {
    c := x / h - y / h;
    assert c * h == (x / h) * h - (y / h) * h == x - y;
    assert c * (2 * h) == 2 * (c * h);
  }

  /** The low k bits of the hash depend only on the last k bytes, whatever was
      hashed before them. */
  lemma {:induction false} LowBitsForgetTheStart(p: ChunkParams, s: nat, t: nat, window: Bytes, k: nat)
    requires k <= 64 && k <= |window|
    ensures Hash(p, s, window) % Pow2(k) == Hash(p, t, window) % Pow2(k)
  {
    if k > 0 {
      var front := window[..|window| - 1];
      LowBitsForgetTheStart(p, s, t, front, k - 1);
      RollFixesABit(p, Hash(p, s, front), Hash(p, t, front), window[|window| - 1], k);
    }
  }

  /** After 64 hashed bytes the start of the chunk no longer matters at all. */
  lemma HashForgetsTheStart(p: ChunkParams, s: nat, t: nat, window: Bytes)
    requires |window| >= 64
    ensures Hash(p, s, window) == Hash(p, t, window)
  {
    LowBitsForgetTheStart(p, s, t, window, 64);
    WordIsPow2();
  }

  // ---- the hash without the loop ----

  /** What each byte of a window adds to its fingerprint: the last byte counts once, the
      one before it twice, the one before that four times, and so on. */
  function Weights(p: ChunkParams, window: Bytes): (weights: seq<nat>)
    ensures |weights| == |window|
  {
    seq(|window|, j requires 0 <= j < |window| => p.gear(window[|window| - 1 - j]) * Pow2(j))
  }

  /** The fingerprint of a window, in closed form. */
  function Fingerprint(p: ChunkParams, window: Bytes): (fingerprint: nat)
  {
    Sum(Weights(p, window)) % 0x1_0000_0000_0000_0000
  }

  lemma {:induction false} HashIsTheWeightedSum(p: ChunkParams, window: Bytes)
    ensures Hash(p, 0, window) == Fingerprint(p, window)
  {
    if window != [] {
      var front, b := window[..|window| - 1], window[|window| - 1];
      HashIsTheWeightedSum(p, front);
      WeightsOfMore(p, front, b);
      assert window == front + [b];
      var total := Sum(Weights(p, front));
      SameRemainder(2 * (total % WORD) + p.gear(b), 2 * total + p.gear(b), -2 * (total / WORD), WORD);
    }
  }

  lemma WeightsOfMore(p: ChunkParams, front: Bytes, b: Byte)
    ensures Sum(Weights(p, front + [b])) == 2 * Sum(Weights(p, front)) + p.gear(b)
  {
    var window, doubled := front + [b], Doubles(Weights(p, front));
    forall j | 0 <= j < |front|
      ensures Weights(p, window)[j + 1] == doubled[j]
    {
      assert window[|window| - 1 - (j + 1)] == front[|front| - 1 - j];
      TwiceAProduct(p.gear(front[|front| - 1 - j]), Pow2(j));
    }
    assert Weights(p, window) == [p.gear(b)] + doubled;
    SumOfConcat([p.gear(b)], doubled);
    SumOfOne(p.gear(b));
    SumOfDoubles(Weights(p, front));
  }

  function Doubles(xs: seq<nat>): (ys: seq<nat>)
  {
    seq(|xs|, i requires 0 <= i < |xs| => 2 * xs[i])
  }

  lemma TwiceAProduct(x: nat, y: nat)
    ensures 2 * (x * y) == x * (2 * y)
  {
  }

  lemma {:induction false} SumOfDoubles(xs: seq<nat>)
    ensures Sum(Doubles(xs)) == 2 * Sum(xs)
  {
    if xs != [] {
      assert Doubles(xs)[1..] == Doubles(xs[1..]);
      SumOfDoubles(xs[1..]);
    }
  }

  // ---- the cut point ----

  predicate Hits(p: ChunkParams, normal: nat, fingerprint: nat, index: nat)
  {
    if index < normal then p.hitsShort(fingerprint) else p.hitsLong(fingerprint)
  }

  /** The first position from `index` on at which the chunk may end: where the hash
      hits the mask in force, or `end`. */
  function Scan(p: ChunkParams, data: Bytes, normal: nat, end: nat, fingerprint: nat, index: nat): (cut: nat)
    requires index <= end <= |data|
    ensures index <= cut <= end
    decreases end - index
  {
    if index == end then end
    else
      var next := Roll(p, fingerprint, data[index]);
      if Hits(p, normal, next, index) then index else Scan(p, data, normal, end, next, index + 1)
  }

  function Min(a: nat, b: nat): (m: nat)
  {
    if a <= b then a else b
  }

  /** The length of the first chunk of `data`. */
  function Cut(p: ChunkParams, data: Bytes): (size: nat)
    requires p.Valid()
    ensures size <= |data|
    ensures data != [] ==> size > 0
  {
    if |data| <= p.minSize then |data|
    else
      var end := Min(|data|, p.maxSize);
      Scan(p, data, Min(p.avgSize, end), end, 0, p.minSize)
  }

  /** Whether everything hashed up to and including position `i` hits the mask in force there. */
  predicate HitsAt(p: ChunkParams, data: Bytes, normal: nat, i: nat)
    requires p.minSize <= i < |data|
  {
    Hits(p, normal, Hash(p, 0, data[p.minSize..i + 1]), i)
  }

  /** A chunk may end before position `i`: below the average size where the fingerprint of
      everything from the minimum size on hits the short mask, from there on the long one. */
  predicate MayEndAt(p: ChunkParams, data: Bytes, i: nat)
    requires p.minSize <= i < |data|
  {
    var fingerprint := Fingerprint(p, data[p.minSize..i + 1]);
    (i < p.avgSize && p.hitsShort(fingerprint)) || (i >= p.avgSize && p.hitsLong(fingerprint))
  }

  /** The cut without the loop: input no longer than the minimum is one chunk; otherwise the
      chunk ends where it first may, and if it may nowhere, at the maximum size or the end. */
  lemma CutIsTheFirstHit(p: ChunkParams, data: Bytes)
    requires p.Valid()
    ensures |data| <= p.minSize ==> Cut(p, data) == |data|
    ensures |data| > p.minSize ==>
              var cut := Cut(p, data);
              && p.minSize <= cut <= |data| && cut <= p.maxSize
              && (forall i :: p.minSize <= i < cut ==> !MayEndAt(p, data, i))
              && (cut < |data| && cut < p.maxSize ==> MayEndAt(p, data, cut))
  {
    if |data| > p.minSize {
      var end := Min(|data|, p.maxSize);
      var normal := Min(p.avgSize, end);
      assert data[p.minSize..p.minSize] == [];
      ScanFindsTheFirstHit(p, data, normal, end, p.minSize);
      forall i | p.minSize <= i < end
        ensures HitsAt(p, data, normal, i) <==> MayEndAt(p, data, i)
      {
        HashIsTheWeightedSum(p, data[p.minSize..i + 1]);
      }
    }
  }

  lemma {:induction false} ScanFindsTheFirstHit(p: ChunkParams, data: Bytes, normal: nat, end: nat, index: nat)
    requires p.Valid() && p.minSize <= index <= end <= |data|
    ensures var cut := Scan(p, data, normal, end, Hash(p, 0, data[p.minSize..index]), index);
            && (forall i :: index <= i < cut ==> !HitsAt(p, data, normal, i))
            && (cut < end ==> HitsAt(p, data, normal, cut))
    decreases end - index
  {
    if index < end {
      var window := data[p.minSize..index + 1];
      assert window[..|window| - 1] == data[p.minSize..index];
      ScanFindsTheFirstHit(p, data, normal, end, index + 1);
    }
  }

  function Chunks(p: ChunkParams, data: Bytes): (chunks: seq<Bytes>)
    requires p.Valid()
    decreases |data|
  {
    if data == [] then [] else [data[..Cut(p, data)]] + Chunks(p, data[Cut(p, data)..])
  }

  /** `cut_point`. */
  method CutPoint(data: Bytes, p: ChunkParams) returns (size: nat)
    requires p.Valid()
    ensures size == Cut(p, data)
  {
    var length := |data|;
    if length <= p.minSize {
      return length;
    }
    var end := Min(length, p.maxSize);
    var normal := Min(p.avgSize, end);
    var fingerprint := 0;
    var index := p.minSize;
    while index < normal
      invariant p.minSize <= index <= normal
      invariant Scan(p, data, normal, end, fingerprint, index) == Cut(p, data)
    {
      fingerprint := Roll(p, fingerprint, data[index]);
      if p.hitsShort(fingerprint) {
        return index;
      }
      index := index + 1;
    }
    while index < end
      invariant normal <= index <= end
      invariant Scan(p, data, normal, end, fingerprint, index) == Cut(p, data)
    {
      fingerprint := Roll(p, fingerprint, data[index]);
      if p.hitsLong(fingerprint) {
        return index;
      }
      index := index + 1;
    }
    size := end;
  }

  /** `chunk_bytes`. */
  method ChunkBytes(data: Bytes, p: ChunkParams) returns (chunks: seq<Bytes>)
    requires p.Valid()
    ensures chunks == Chunks(p, data)
  {
    hide Cut;
    chunks := [];
    var offset := 0;
    while offset < |data|
      invariant offset <= |data|
      invariant Chunks(p, data) == chunks + Chunks(p, data[offset..])
    {
      ghost var rest := data[offset..];
      var size := CutPoint(data[offset..], p);
      assert Chunks(p, rest) == [rest[..size]] + Chunks(p, rest[size..]);
      assert rest[..size] == data[offset..offset + size];
      assert rest[size..] == data[offset + size..];
      chunks := chunks + [data[offset..offset + size]];
      offset := offset + size;
    }
  }

  // ---- what the chunks are ----

  predicate ChunkSizesOk(p: ChunkParams, chunks: seq<Bytes>)
  {
    && (forall i :: 0 <= i < |chunks| ==> 0 < |chunks[i]| <= p.maxSize)
    && (forall i :: 0 <= i < |chunks| - 1 ==> p.minSize <= |chunks[i]|)
  }

  /** The chunks are the input, in order, and only the last may be short. */
  lemma {:induction false} ChunksPartitionTheInput(p: ChunkParams, data: Bytes)
    requires p.Valid()
    ensures Concat(Chunks(p, data)) == data
    ensures ChunkSizesOk(p, Chunks(p, data))
    decreases |data|
  {
    if data != [] {
      var size := Cut(p, data);
      var tail := Chunks(p, data[size..]);
      ChunksPartitionTheInput(p, data[size..]);
      assert data == data[..size] + data[size..];
      if tail == [] {
        assert data[size..] == Concat(tail) == [];
      } else {
        assert Concat(tail) != [];
        assert |data| > p.minSize;
      }
      var chunks := [data[..size]] + tail;
      forall i | 0 <= i < |chunks|
        ensures 0 < |chunks[i]| <= p.maxSize
        ensures i < |chunks| - 1 ==> p.minSize <= |chunks[i]|
      {
        if i > 0 { assert chunks[i] == tail[i - 1]; }
      }
    }
  }

  // ---- the stream ----

  lemma {:induction false} ScanAgrees(p: ChunkParams, a: Bytes, b: Bytes, normal: nat, end: nat,
                                fingerprint: nat, index: nat)
    requires index <= end <= |a| && end <= |b| && a[..end] == b[..end]
    ensures Scan(p, a, normal, end, fingerprint, index) == Scan(p, b, normal, end, fingerprint, index)
    decreases end - index
  {
    if index < end {
      assert a[index] == a[..end][index] == b[..end][index] == b[index];
      ScanAgrees(p, a, b, normal, end, Roll(p, fingerprint, a[index]), index + 1);
    }
  }

  /** A full buffer always decides the next boundary: bytes past `max_size` are
      never looked at. */
  lemma CutNeedsOnlyMaxSize(p: ChunkParams, buffer: Bytes, rest: Bytes)
    requires p.Valid() && |buffer| >= p.maxSize
    ensures Cut(p, buffer + rest) == Cut(p, buffer)
  {
    var whole := buffer + rest;
    assert whole[..p.maxSize] == buffer[..p.maxSize];
    if |buffer| > p.minSize {
      ScanAgrees(p, whole, buffer, Min(p.avgSize, p.maxSize), p.maxSize, 0, p.minSize);
    }
  }

  /** Cutting a buffer that is full, or that is all there is, takes the first chunk
      of everything still to come. */
  lemma StreamStep(p: ChunkParams, buffer: Bytes, rest: Bytes, size: nat)
    requires p.Valid() && buffer != [] && size == Cut(p, buffer)
    requires |buffer| >= p.maxSize || rest == []
    ensures Chunks(p, buffer + rest) == [buffer[..size]] + Chunks(p, buffer[size..] + rest)
  {
    if |buffer| >= p.maxSize {
      CutNeedsOnlyMaxSize(p, buffer, rest);
    } else {
      assert buffer + rest == buffer;
    }
    assert (buffer + rest)[..size] == buffer[..size];
    assert (buffer + rest)[size..] == buffer[size..] + rest;
  }

  lemma TakeABlock(blocks: seq<Bytes>, next: nat, buffer: Bytes)
    requires next < |blocks|
    ensures buffer + Concat(blocks[next..]) == (buffer + blocks[next]) + Concat(blocks[next + 1..])
  {
    assert blocks[next..][1..] == blocks[next + 1..];
    assert buffer + (blocks[next] + Concat(blocks[next + 1..])) == (buffer + blocks[next]) + Concat(blocks[next + 1..]);
  }

  /** `chunk_stream`: the source hands over `blocks`, one per read, and an empty
      read once they are used up. However it splits its reads, the chunks are those
      of the whole input. */
  method ChunkStream(blocks: seq<Bytes>, p: ChunkParams) returns (chunks: seq<Bytes>)
    requires p.Valid()
    requires forall i :: 0 <= i < |blocks| ==> blocks[i] != []
    ensures chunks == Chunks(p, Concat(blocks))
  {
    hide Chunks, Cut, Concat;
    chunks := [];
    var buffer: Bytes := [];
    var next := 0;
    var exhausted := false;
    assert blocks[0..] == blocks && [] + Concat(blocks) == Concat(blocks);
    ghost var pending := Concat(blocks);
    while true
      invariant next <= |blocks|
      invariant exhausted ==> next == |blocks|
      invariant pending == buffer + Concat(blocks[next..])
      invariant Chunks(p, Concat(blocks)) == chunks + Chunks(p, pending)
      decreases |pending|
    {
      while !exhausted && |buffer| < p.maxSize
        invariant next <= |blocks|
        invariant exhausted ==> next == |blocks|
        invariant pending == buffer + Concat(blocks[next..])
        decreases |blocks| - next, !exhausted
      {
        var block := if next < |blocks| then blocks[next] else [];
        if block == [] {
          exhausted := true;
          break;
        }
        TakeABlock(blocks, next, buffer);
        buffer := buffer + block;
        next := next + 1;
      }
      ghost var rest := Concat(blocks[next..]);
      if exhausted { NothingLeft(p, blocks, buffer); }
      if buffer == [] {
        assert pending == [];
        return;
      }
      var size := CutPoint(buffer, p);
      StreamStep(p, buffer, rest, size);
      chunks := chunks + [buffer[..size]];
      buffer := buffer[size..];
      pending := buffer + rest;
      if exhausted && buffer == [] {
        assert pending == [];
        return;
      }
    }
  }

  lemma NothingLeft(p: ChunkParams, blocks: seq<Bytes>, buffer: Bytes)
    requires p.Valid()
    ensures Concat(blocks[|blocks|..]) == []
    ensures Chunks(p, []) == []
    ensures buffer + [] == buffer
  {
  }

  // ---- re-synchronisation ----

  /** Every offset at which a chunk ends. */
  function CutOffsets(p: ChunkParams, data: Bytes): (cuts: seq<nat>)
    requires p.Valid()
    decreases |data|
  {
    if data == [] then []
    else var size := Cut(p, data); [size] + Plus(CutOffsets(p, data[size..]), size)
  }

  lemma {:induction false} ScanStopsBeforeEdit(p: ChunkParams, a: Bytes, b: Bytes, normalA: nat, normalB: nat,
                                         endA: nat, endB: nat, fingerprint: nat, index: nat, same: nat)
    requires index <= endA <= |a| && index <= endB <= |b|
    requires same <= |a| && same <= |b| && a[..same] == b[..same]
    requires normalA == normalB || (same <= normalA && same <= normalB)
    requires endA == endB || (same <= endA && same <= endB)
    requires Scan(p, a, normalA, endA, fingerprint, index) < same
    ensures Scan(p, b, normalB, endB, fingerprint, index) == Scan(p, a, normalA, endA, fingerprint, index)
    decreases endA - index
  {
    if index < endA {
      assert a[index] == a[..same][index] == b[..same][index] == b[index];
      var next := Roll(p, fingerprint, a[index]);
      if !Hits(p, normalA, next, index) {
        ScanStopsBeforeEdit(p, a, b, normalA, normalB, endA, endB, next, index + 1, same);
      }
    }
  }

  /** A cut decided strictly before the first edited byte stays where it was. */
  lemma CutBeforeEditStays(p: ChunkParams, a: Bytes, b: Bytes, same: nat)
    requires p.Valid()
    requires same <= |a| && same <= |b| && a[..same] == b[..same]
    requires Cut(p, a) < same
    ensures Cut(p, b) == Cut(p, a)
  {
    if |a| > p.minSize && |b| > p.minSize {
      var endA, endB := Min(|a|, p.maxSize), Min(|b|, p.maxSize);
      ScanStopsBeforeEdit(p, a, b, Min(p.avgSize, endA), Min(p.avgSize, endB), endA, endB, 0, p.minSize, same);
    }
  }

  /** Editing a file from byte `same` on keeps every cut that lies before it. */
  lemma {:induction false} CutsBeforeEditStay(p: ChunkParams, a: Bytes, b: Bytes, same: nat, k: nat)
    requires p.Valid()
    requires same <= |a| && same <= |b| && a[..same] == b[..same]
    requires k < |CutOffsets(p, a)| && CutOffsets(p, a)[k] < same
    ensures k < |CutOffsets(p, b)| && CutOffsets(p, b)[k] == CutOffsets(p, a)[k]
    decreases k
  {
    var size := Cut(p, a);
    var tail := CutOffsets(p, a[size..]);
    assert size < same by {
      if k > 0 { assert CutOffsets(p, a)[k] == tail[k - 1] + size; }
    }
    CutBeforeEditStays(p, a, b, same);
    if k > 0 {
      var a', b', same' := a[size..], b[size..], same - size;
      assert a'[..same'] == a[..same][size..] == b[..same][size..] == b'[..same'];
      CutsBeforeEditStay(p, a', b', same', k - 1);
    }
  }

  /** Once two inputs with the same remaining suffix share a cut, every later cut
      coincides. */
  lemma {:induction false} SharedCutResynchronises(p: ChunkParams, a: Bytes, b: Bytes, i: nat, j: nat)
    requires p.Valid()
    requires i < |CutOffsets(p, a)| && j < |CutOffsets(p, b)|
    requires CutOffsets(p, a)[i] <= |a| && CutOffsets(p, b)[j] <= |b|
    requires a[CutOffsets(p, a)[i]..] == b[CutOffsets(p, b)[j]..]
    ensures CutOffsets(p, a)[i + 1..] == Plus(CutOffsets(p, a[CutOffsets(p, a)[i]..]), CutOffsets(p, a)[i])
    ensures CutOffsets(p, b)[j + 1..] == Plus(CutOffsets(p, a[CutOffsets(p, a)[i]..]), CutOffsets(p, b)[j])
  {
    LaterCutsDependOnTheSuffix(p, a, i);
    LaterCutsDependOnTheSuffix(p, b, j);
  }

  lemma {:induction false} LaterCutsDependOnTheSuffix(p: ChunkParams, data: Bytes, i: nat)
    requires p.Valid()
    requires i < |CutOffsets(p, data)|
    ensures var c := CutOffsets(p, data)[i];
            c <= |data| && CutOffsets(p, data)[i + 1..] == Plus(CutOffsets(p, data[c..]), c)
    decreases i
  {
    hide CutOffsets, Cut;
    var size := Cut(p, data);
    OffsetsSplit(p, data);
    var suffix := data[size..];
    var rest := CutOffsets(p, suffix);
    if i == 0 {
      assert ([size] + Plus(rest, size))[1..] == Plus(rest, size);
    } else {
      LaterCutsDependOnTheSuffix(p, suffix, i - 1);
      ShiftTail(rest, size, i, CutOffsets(p, suffix[rest[i - 1]..]));
      assert suffix[rest[i - 1]..] == data[size + rest[i - 1]..];
    }
  }

  lemma OffsetsSplit(p: ChunkParams, data: Bytes)
    requires p.Valid() && CutOffsets(p, data) != []
    ensures var size := Cut(p, data);
            size <= |data| && CutOffsets(p, data) == [size] + Plus(CutOffsets(p, data[size..]), size)
  {
  }

  // ---- the masks ----

  /** `_mask_with_bits`: the top `bits` bits of a 64-bit word. */
  function MaskWithBits(bits: bv7): (mask: bv64)
    requires 1 <= bits <= 63
  {
    ((1 << bits) - 1) << (64 - bits)
  }

  /** Such a mask misses a fingerprint exactly when its top bits are all zero. */
  lemma MaskTestsTheTopBits(fingerprint: bv64, bits: bv7)
    requires 1 <= bits <= 63
    ensures fingerprint & MaskWithBits(bits) == 0 <==> fingerprint < (1 << (64 - bits))
  {
  }

  /** The production masks, 22 and 18 bits wide around an average of 2^20. */
  lemma ProductionMasks()
    ensures MaskWithBits(22) == 0xFFFF_FC00_0000_0000
    ensures MaskWithBits(18) == 0xFFFF_C000_0000_0000
  {
  }
}
