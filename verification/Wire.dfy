/** The byte-level reader and writer (src/format/wire.py). */
module Wire {
  // Each field has a pure `Write` and a pure `Read`; a pair is lawful when reading undoes
  // writing on any continuation, and whatever reads was written. The classes at the end
  // are the mutable `Writer` and `Cursor`, proved against them.

  import opened ByteStrings
  import opened Model

  type Read<T> = Result<(T, Bytes)>

  const TWO_63 := 0x8000_0000_0000_0000
  const TWO_64 := 0x1_0000_0000_0000_0000

  // ---- fields as pure functions ----

  function Take(b: Bytes, n: nat): (r: Read<Bytes>)
  {
    if n > |b| then Err(Malformed) else Ok((b[..n], b[n..]))
  }

  function WriteUint(width: nat, value: int): (r: Result<Bytes>)
  {
    if 0 <= value < Pow256(width) then Ok(Be(value, width)) else Err(OutOfRange)
  }

  function ReadUint(width: nat, b: Bytes): (r: Read<int>)
  {
    var (raw, rest) :- Take(b, width);
    Ok((FromBe(raw), rest))
  }

  /** Two's complement, eight bytes. */
  function WriteI64(value: int): (r: Result<Bytes>)
  {
    if -TWO_63 <= value < TWO_63
    then WriteUint(8, if value < 0 then value + TWO_64 else value)
    else Err(OutOfRange)
  }

  function ReadI64(b: Bytes): (r: Read<int>)
  {
    var (raw, rest) :- ReadUint(8, b);
    Ok((if raw >= TWO_63 then raw - TWO_64 else raw, rest))
  }

  /** Exactly `width` raw bytes; a value of another width is one its type refuses. */
  function WriteRaw(width: nat, value: Bytes): (r: Result<Bytes>)
  {
    if |value| == width then Ok(value) else Err(OutOfRange)
  }

  function WriteName(name: Name): (r: Result<Bytes>)
  {
    WriteRaw(DIGEST_BYTES, name.digest)
  }

  function ReadName(b: Bytes): (r: Read<Name>)
  {
    var (raw, rest) :- Take(b, DIGEST_BYTES);
    Ok((Name(raw), rest))
  }

  /** A length prefix of `width` bytes, then the value. */
  function WriteBytes(width: nat, value: Bytes): (r: Result<Bytes>)
  {
    var prefix :- WriteUint(width, |value|);
    Ok(prefix + value)
  }

  function ReadBytes(width: nat, b: Bytes): (r: Read<Bytes>)
  {
    var (length, rest) :- ReadUint(width, b);
    Take(rest, length)
  }

  /** One write after another: the first failure is the failure of the whole. */
  function Then(first: Result<Bytes>, second: Result<Bytes>): (r: Result<Bytes>)
  {
    var a :- first;
    var b :- second;
    Ok(a + b)
  }

  function WriteAll<T>(write: T -> Result<Bytes>, xs: seq<T>): (r: Result<Bytes>)
  {
    if xs == [] then Ok([]) else Then(write(xs[0]), WriteAll(write, xs[1..]))
  }

  function ReadAll<T>(read: Bytes -> Read<T>, count: nat, b: Bytes): (r: Read<seq<T>>)
    ensures r.Ok? ==> |r.value.0| == count
  {
    if count == 0 then Ok(([], b))
    else
      var (x, rest) :- read(b);
      var (xs, end) :- ReadAll(read, count - 1, rest);
      Ok(([x] + xs, end))
  }

  // ---- the laws ----

  ghost predicate ReadsBack<T(!new)>(write: T -> Result<Bytes>, read: Bytes -> Read<T>)
  {
    forall x: T, rest: Bytes {:trigger read(write(x).value + rest)} ::
      write(x).Ok? ==> read(write(x).value + rest) == Ok((x, rest))
  }

  ghost predicate WritesBack<T(!new)>(write: T -> Result<Bytes>, read: Bytes -> Read<T>)
  {
    forall b: Bytes {:trigger read(b)} ::
      read(b).Ok? ==> Then(write(read(b).value.0), Ok(read(b).value.1)) == Ok(b)
  }

  ghost predicate Lawful<T(!new)>(write: T -> Result<Bytes>, read: Bytes -> Read<T>)
  {
    ReadsBack(write, read) && WritesBack(write, read)
  }

  lemma TakeOfConcat(a: Bytes, b: Bytes)
    ensures Take(a + b, |a|) == Ok((a, b))
  {
    assert (a + b)[..|a|] == a;
    assert (a + b)[|a|..] == b;
  }

  lemma UintLaws(width: nat, value: int, rest: Bytes)
    ensures WriteUint(width, value).Ok? ==>
              ReadUint(width, WriteUint(width, value).value + rest) == Ok((value, rest))
    ensures ReadUint(width, rest).Ok? ==>
              Then(WriteUint(width, ReadUint(width, rest).value.0), Ok(ReadUint(width, rest).value.1)) == Ok(rest)
  {
    if WriteUint(width, value).Ok? {
      TakeOfConcat(Be(value, width), rest);
      FromBeOfBe(value, width);
    }
    if |rest| >= width {
      BeOfFromBe(rest[..width]);
      assert rest == rest[..width] + rest[width..];
    }
  }

  lemma I64Laws(value: int, rest: Bytes)
    ensures WriteI64(value).Ok? ==> ReadI64(WriteI64(value).value + rest) == Ok((value, rest))
    ensures ReadI64(rest).Ok? ==>
              Then(WriteI64(ReadI64(rest).value.0), Ok(ReadI64(rest).value.1)) == Ok(rest)
  {
    PowersOf256();
    UintLaws(8, if value < 0 then value + TWO_64 else value, rest);
  }

  lemma NameLaws(name: Name, rest: Bytes)
    ensures WriteName(name).Ok? ==> ReadName(WriteName(name).value + rest) == Ok((name, rest))
    ensures ReadName(rest).Ok? ==>
              Then(WriteName(ReadName(rest).value.0), Ok(ReadName(rest).value.1)) == Ok(rest)
  {
    TakeOfConcat(name.digest, rest);
    if |rest| >= DIGEST_BYTES {
      assert rest == rest[..DIGEST_BYTES] + rest[DIGEST_BYTES..];
    }
  }

  lemma NameLawful()
    ensures Lawful(WriteName, ReadName)
  {
    forall name: Name, rest: Bytes
      ensures WriteName(name).Ok? ==> ReadName(WriteName(name).value + rest) == Ok((name, rest))
    {
      NameLaws(name, rest);
    }
    forall b: Bytes
      ensures ReadName(b).Ok? ==> Then(WriteName(ReadName(b).value.0), Ok(ReadName(b).value.1)) == Ok(b)
    {
      NameLaws(Name([]), b);
    }
  }

  lemma BytesLaws(width: nat, value: Bytes, rest: Bytes)
    ensures WriteBytes(width, value).Ok? ==>
              ReadBytes(width, WriteBytes(width, value).value + rest) == Ok((value, rest))
    ensures ReadBytes(width, rest).Ok? ==>
              Then(WriteBytes(width, ReadBytes(width, rest).value.0), Ok(ReadBytes(width, rest).value.1)) == Ok(rest)
  {
    if WriteBytes(width, value).Ok? {
      BytesReadBack(width, value, rest);
    }
    if ReadBytes(width, rest).Ok? {
      BytesWriteBack(width, rest);
    }
  }

  lemma ReadUintIsNat(width: nat, b: Bytes)
    ensures ReadUint(width, b).Ok? ==> ReadUint(width, b).value.0 >= 0
  {
  }

  lemma BytesReadBack(width: nat, value: Bytes, rest: Bytes)
    requires WriteBytes(width, value).Ok?
    ensures ReadBytes(width, WriteBytes(width, value).value + rest) == Ok((value, rest))
  {
    hide WriteUint, ReadUint;
    UintLaws(width, |value|, value + rest);
    assert WriteBytes(width, value).value + rest == WriteUint(width, |value|).value + (value + rest);
    TakeOfConcat(value, rest);
  }

  lemma BytesWriteBack(width: nat, rest: Bytes)
    requires ReadBytes(width, rest).Ok?
    ensures Then(WriteBytes(width, ReadBytes(width, rest).value.0), Ok(ReadBytes(width, rest).value.1)) == Ok(rest)
  {
    ReadUintIsNat(width, rest);
    hide WriteUint, ReadUint;
    UintLaws(width, 0, rest);
    var (length, tail) := ReadUint(width, rest).value;
    var prefix := WriteUint(width, length).value;
    assert rest == prefix + tail;
    assert tail == tail[..length] + tail[length..];
    assert prefix + (tail[..length] + tail[length..]) == (prefix + tail[..length]) + tail[length..];
  }

  /** A counted list inherits the law of its element. */
  lemma {:induction false} AllReadsBack<T(!new)>(write: T -> Result<Bytes>, read: Bytes -> Read<T>,
                                           xs: seq<T>, rest: Bytes)
    requires Lawful(write, read)
    requires WriteAll(write, xs).Ok?
    ensures ReadAll(read, |xs|, WriteAll(write, xs).value + rest) == Ok((xs, rest))
  {
    if xs == [] {
      assert WriteAll(write, xs).value + rest == rest;
    } else {
      var head, tail := write(xs[0]).value, WriteAll(write, xs[1..]).value;
      var b := WriteAll(write, xs).value + rest;
      assert b == head + (tail + rest);
      assert read(write(xs[0]).value + (tail + rest)) == Ok((xs[0], tail + rest));
      AllReadsBack(write, read, xs[1..], rest);
      assert [xs[0]] + xs[1..] == xs;
    }
  }

  lemma {:induction false} AllWritesBack<T(!new)>(write: T -> Result<Bytes>, read: Bytes -> Read<T>,
                                            count: nat, b: Bytes)
    requires Lawful(write, read)
    requires ReadAll(read, count, b).Ok?
    ensures Then(WriteAll(write, ReadAll(read, count, b).value.0), Ok(ReadAll(read, count, b).value.1)) == Ok(b)
  {
    if count == 0 {
      assert [] + b == b;
    } else {
      var (x, rest) := read(b).value;
      AllWritesBack(write, read, count - 1, rest);
      var (xs, end) := ReadAll(read, count - 1, rest).value;
      var head, tail := write(x).value, WriteAll(write, xs).value;
      assert Then(write(read(b).value.0), Ok(read(b).value.1)) == Ok(b);
      assert b == head + rest && rest == tail + end;
      assert ([x] + xs)[1..] == xs;
      assert WriteAll(write, [x] + xs) == Ok(head + tail);
      assert (head + tail) + end == head + (tail + end);
    }
  }

  lemma ThenAssociates(a: Result<Bytes>, b: Result<Bytes>, c: Result<Bytes>)
    ensures Then(Then(a, b), c) == Then(a, Then(b, c))
  {
    if a.Ok? && b.Ok? && c.Ok? {
      assert (a.value + b.value) + c.value == a.value + (b.value + c.value);
    }
  }

  lemma ThenNothing(a: Result<Bytes>)
    ensures Then(a, Ok([])) == a
  {
    if a.Ok? {
      assert a.value + [] == a.value;
    }
  }

  // ---- the mutable writer and reader ----

  /** Accumulates the encoding of one object. */
  class Writer {
    var buf: Bytes

    constructor ()
      ensures buf == []
    {
      buf := [];
    }

    ghost predicate Appended(was: Bytes, written: Result<Bytes>, r: Outcome)
      reads this
    {
      match written
      case Ok(bytes) => r == Pass && buf == was + bytes
      case Err(e) => r == Fail(e) && buf == was
    }

    method Uint(width: nat, value: int) returns (r: Outcome)
      modifies this
      ensures Appended(old(buf), WriteUint(width, value), r)
    {
      if !(0 <= value < Pow256(width)) {
        return Fail(OutOfRange);
      }
      buf := buf + Be(value, width);
      r := Pass;
    }

    method I64(value: int) returns (r: Outcome)
      modifies this
      ensures Appended(old(buf), WriteI64(value), r)
    {
      if !(-TWO_63 <= value < TWO_63) {
        return Fail(OutOfRange);
      }
      r := Uint(8, if value < 0 then value + TWO_64 else value);
    }

    method Raw(width: nat, value: Bytes) returns (r: Outcome)
      modifies this
      ensures Appended(old(buf), WriteRaw(width, value), r)
    {
      if |value| != width {
        return Fail(OutOfRange);
      }
      buf := buf + value;
      r := Pass;
    }

    method BytesField(width: nat, value: Bytes) returns (r: Outcome)
      modifies this
      ensures Appended(old(buf), WriteBytes(width, value), r)
    {
      if |value| >= Pow256(width) {
        return Fail(OutOfRange);
      }
      buf := buf + Be(|value|, width);
      buf := buf + value;
      r := Pass;
    }
  }

  /** A bounds-checked reader over an encoded object. */
  class Cursor {
    const data: Bytes
    var pos: nat

    constructor (data: Bytes)
      ensures Valid() && this.data == data && Rest() == data
    {
      this.data := data;
      pos := 0;
    }

    ghost predicate Valid()
      reads this
    {
      pos <= |data|
    }

    function Rest(): (rest: Bytes)
      requires Valid()
      reads this
    {
      data[pos..]
    }

    /** `r` is what `spec` reads from the bytes that were left, and the cursor now
        stands where `spec` stops. */
    ghost predicate Advanced<T>(spec: Read<T>, r: Result<T>)
      reads this
    {
      Valid() &&
      match spec
      case Ok(pair) => r == Ok(pair.0) && Rest() == pair.1
      case Err(e) => r == Err(e)
    }

    method TakeBytes(n: nat) returns (r: Result<Bytes>)
      requires Valid()
      modifies this
      ensures Advanced(Take(old(Rest()), n), r)
    {
      var end := pos + n;
      if end > |data| {
        return Err(Malformed);
      }
      r := Ok(data[pos..end]);
      assert data[pos..][..n] == data[pos..end];
      assert data[pos..][n..] == data[end..];
      pos := end;
    }

    method Uint(width: nat) returns (r: Result<int>)
      requires Valid()
      modifies this
      ensures Advanced(ReadUint(width, old(Rest())), r)
    {
      var raw :- TakeBytes(width);
      r := Ok(FromBe(raw));
    }

    method I64() returns (r: Result<int>)
      requires Valid()
      modifies this
      ensures Advanced(ReadI64(old(Rest())), r)
    {
      var raw :- Uint(8);
      r := Ok(if raw >= TWO_63 then raw - TWO_64 else raw);
    }

    method NameField() returns (r: Result<Name>)
      requires Valid()
      modifies this
      ensures Advanced(ReadName(old(Rest())), r)
    {
      var raw :- TakeBytes(DIGEST_BYTES);
      r := Ok(Name(raw));
    }

    method BytesField(width: nat) returns (r: Result<Bytes>)
      requires Valid()
      modifies this
      ensures Advanced(ReadBytes(width, old(Rest())), r)
    {
      var length :- Uint(width);
      r := TakeBytes(length);
    }

    method ExpectExhausted() returns (r: Outcome)
      requires Valid()
      ensures r == if Rest() == [] then Pass else Fail(Malformed)
    {
      r := if |data| - pos > 0 then Fail(Malformed) else Pass;
    }
  }
}
