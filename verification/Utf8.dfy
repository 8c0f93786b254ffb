/** UTF-8 (section 3 of RFC 3629), as the codec checks it. */
module Utf8 {
  // The check walks bytes; here it is tied to the characters it stands for: what passes is
  // exactly what encoding some characters gives, and no two texts share their bytes.

  import opened ByteStrings
  import opened Model
  import opened Sums
  import opened Validation

  /** A character: a code point that is not half of a surrogate pair. */
  predicate IsScalar(c: nat)
  {
    c < 0xD800 || 0xE000 <= c < 0x11_0000
  }

  function Encoded(c: nat): (b: Bytes)
    requires IsScalar(c)
    ensures 1 <= |b| <= 4
  {
    if c < 0x80 then [c]
    else if c < 0x800 then [0xC0 + c / 0x40, 0x80 + c % 0x40]
    else if c < 0x1_0000 then [0xE0 + c / 0x1000, 0x80 + c / 0x40 % 0x40, 0x80 + c % 0x40]
    else [0xF0 + c / 0x4_0000, 0x80 + c / 0x1000 % 0x40, 0x80 + c / 0x40 % 0x40, 0x80 + c % 0x40]
  }

  type Text = seq<nat>

  predicate IsText(text: Text)
  {
    forall i :: 0 <= i < |text| ==> IsScalar(text[i])
  }

  function TextBytes(text: Text): (b: Bytes)
    requires IsText(text)
  {
    if text == [] then [] else Encoded(text[0]) + TextBytes(text[1..])
  }

  // ---- one character ----

  lemma EncodedIsRead(c: nat, rest: Bytes)
    requires IsScalar(c)
    ensures FirstCharacter(Encoded(c) + rest) == |Encoded(c)|
  {
    var b := Encoded(c) + rest;
    assert b[0] == Encoded(c)[0];
    if |Encoded(c)| >= 2 { assert b[1] == Encoded(c)[1]; }
    if |Encoded(c)| >= 3 { assert b[2] == Encoded(c)[2]; }
    if |Encoded(c)| >= 4 { assert b[3] == Encoded(c)[3]; }
  }

  /** The character that bytes of the right shape stand for. */
  lemma ReadIsEncoded(b: Bytes) returns (c: nat)
    requires b != [] && FirstCharacter(b) > 0
    ensures IsScalar(c) && Encoded(c) == b[..FirstCharacter(b)]
  {
    var n := FirstCharacter(b);
    var b0: int := b[0];
    if n == 1 {
      c := b0;
    } else if n == 2 {
      var b1: int := b[1];
      c := (b0 - 0xC0) * 0x40 + (b1 - 0x80);
      assert c / 0x40 == b0 - 0xC0 && c % 0x40 == b1 - 0x80;
    } else if n == 3 {
      c := ReadThree(b);
    } else {
      c := ReadFour(b);
    }
  }

  lemma ReadThree(b: Bytes) returns (c: nat)
    requires b != [] && FirstCharacter(b) == 3
    ensures IsScalar(c) && Encoded(c) == b[..3]
  {
    var b0: int, b1: int, b2: int := b[0], b[1], b[2];
    var high := (b0 - 0xE0) * 0x40 + (b1 - 0x80);
    c := high * 0x40 + (b2 - 0x80);
    assert c / 0x40 == high && c % 0x40 == b2 - 0x80;
    assert high / 0x40 == b0 - 0xE0 && high % 0x40 == b1 - 0x80;
    assert c / 0x1000 == b0 - 0xE0;
  }

  lemma ReadFour(b: Bytes) returns (c: nat)
    requires b != [] && FirstCharacter(b) == 4
    ensures IsScalar(c) && Encoded(c) == b[..4]
  {
    var b0: int, b1: int, b2: int, b3: int := b[0], b[1], b[2], b[3];
    var high := (b0 - 0xF0) * 0x40 + (b1 - 0x80);
    var middle := high * 0x40 + (b2 - 0x80);
    c := middle * 0x40 + (b3 - 0x80);
    assert c / 0x40 == middle && c % 0x40 == b3 - 0x80;
    assert c / 0x1000 == high && c / 0x40 % 0x40 == b2 - 0x80;
    assert c / 0x4_0000 == b0 - 0xF0 && c / 0x1000 % 0x40 == b1 - 0x80;
  }

  lemma EncodedOnce(c: nat, d: nat)
    requires IsScalar(c) && IsScalar(d) && Encoded(c) == Encoded(d)
    ensures c == d
  {
    Digits(c);
    Digits(d);
    var b, e := Encoded(c), Encoded(d);
    assert |b| == |e| && b[0] == e[0];
    if |b| >= 2 { assert b[1] == e[1]; }
    if |b| >= 3 { assert b[2] == e[2]; }
    if |b| >= 4 { assert b[3] == e[3]; }
  }

  lemma Digits(c: nat)
    requires c < 0x11_0000
    ensures c < 0x1_0000 ==> c == 0x1000 * (c / 0x1000) + 0x40 * (c / 0x40 % 0x40) + c % 0x40
    ensures c == 0x4_0000 * (c / 0x4_0000) + 0x1000 * (c / 0x1000 % 0x40) + 0x40 * (c / 0x40 % 0x40) + c % 0x40
  {
    var a := c / 0x40;
    var b := a / 0x40;
    assert b == c / 0x1000;
    assert b / 0x40 == c / 0x4_0000;
  }

  // ---- whole texts ----

  lemma {:induction false} TextIsValid(text: Text)
    requires IsText(text)
    ensures ValidUtf8(TextBytes(text))
  {
    hide FirstCharacter, Encoded;
    if text != [] {
      TextIsValid(text[1..]);
      EncodedIsRead(text[0], TextBytes(text[1..]));
      var b := TextBytes(text);
      assert b[|Encoded(text[0])|..] == TextBytes(text[1..]);
    }
  }

  lemma {:induction false} ValidIsText(b: Bytes) returns (text: Text)
    requires ValidUtf8(b)
    ensures IsText(text) && TextBytes(text) == b
    decreases |b|
  {
    hide FirstCharacter, Encoded;
    if b == [] {
      text := [];
    } else {
      var n := FirstCharacter(b);
      var c := ReadIsEncoded(b);
      var rest := ValidIsText(b[n..]);
      text := [c] + rest;
      assert text[1..] == rest;
      assert b == b[..n] + b[n..];
    }
  }

  /** The check accepts exactly the bytes of some text: no overlong form, no surrogate, no
      stray byte, nothing past the last code point. */
  lemma ValidIffText(b: Bytes)
    ensures ValidUtf8(b) <==> exists text: Text :: IsText(text) && TextBytes(text) == b
  {
    hide ValidUtf8, TextBytes;
    if ValidUtf8(b) {
      var text := ValidIsText(b);
    }
    if text: Text :| IsText(text) && TextBytes(text) == b {
      TextIsValid(text);
    }
  }

  /** And a text has its own bytes: comparing bytes compares texts. */
  lemma {:induction false} TextsHaveTheirOwnBytes(a: Text, b: Text)
    requires IsText(a) && IsText(b) && TextBytes(a) == TextBytes(b)
    ensures a == b
    decreases |a|
  {
    hide FirstCharacter, Encoded;
    if a != [] && b != [] {
      var bytes := TextBytes(a);
      EncodedIsRead(a[0], TextBytes(a[1..]));
      EncodedIsRead(b[0], TextBytes(b[1..]));
      var n := |Encoded(a[0])|;
      assert bytes[..n] == Encoded(a[0]) && bytes[..n] == Encoded(b[0]);
      assert bytes[n..] == TextBytes(a[1..]) && bytes[n..] == TextBytes(b[1..]);
      EncodedOnce(a[0], b[0]);
      TextsHaveTheirOwnBytes(a[1..], b[1..]);
      assert a == [a[0]] + a[1..] && b == [b[0]] + b[1..];
    }
  }

  // ---- names on a path ----

  /** A path as it is shown: its names with a slash between them. */
  function Joined(path: seq<Bytes>): (b: Bytes)
  {
    if path == [] then []
    else if |path| == 1 then path[0]
    else path[0] + [0x2F] + Joined(path[1..])
  }

  lemma JoinedStarts(path: seq<Bytes>)
    requires path != []
    ensures |path| == 1 ==> Joined(path) == path[0]
    ensures |path| > 1 ==> Joined(path) == path[0] + ([0x2F] + Joined(path[1..]))
  {
    assert |path| > 1 ==> path[0] + [0x2F] + Joined(path[1..]) == path[0] + ([0x2F] + Joined(path[1..]));
  }

  predicate LegalPath(path: seq<Bytes>)
  {
    forall i :: 0 <= i < |path| ==> EntryNameOk(path[i])
  }

  /** The first name ends where the first slash is, or with the whole. */
  lemma FirstSlash(path: seq<Bytes>)
    requires path != [] && LegalPath(path)
    ensures var whole, n := Joined(path), |path[0]|;
            && n <= |whole| && whole[..n] == path[0]
            && (forall k :: 0 <= k < n ==> whole[k] != 0x2F)
            && (n < |whole| ==> whole[n] == 0x2F)
            && (n < |whole| <==> |path| > 1)
  {
    hide Joined, ValidUtf8;
    JoinedStarts(path);
    var whole, n := Joined(path), |path[0]|;
    forall k | 0 <= k < n
      ensures whole[k] != 0x2F
    {
      assert whole[k] == path[0][k] && path[0][k] in path[0];
    }
  }

  lemma FirstNamesAgree(a: seq<Bytes>, b: seq<Bytes>)
    requires a != [] && b != [] && LegalPath(a) && LegalPath(b) && Joined(a) == Joined(b)
    ensures a[0] == b[0] && (|a| == 1 <==> |b| == 1)
  {
    hide Joined, EntryNameOk;
    FirstSlash(a);
    FirstSlash(b);
    assert |a[0]| == |b[0]|;
  }

  /** No two paths of legal names look the same, and no name on one stands for a directory
      above it. */
  lemma {:induction false} PathsLookDifferent(a: seq<Bytes>, b: seq<Bytes>)
    requires LegalPath(a) && LegalPath(b) && Joined(a) == Joined(b)
    ensures a == b
    ensures forall i :: 0 <= i < |a| ==> a[i] != [] && a[i] != [0x2E] && a[i] != [0x2E, 0x2E]
  {
    hide ValidUtf8;
    if a == [] || b == [] {
      if a != [] { JoinedStarts(a); }
      if b != [] { JoinedStarts(b); }
    } else {
      FirstNamesAgree(a, b);
      if |a| > 1 {
        JoinedStarts(a);
        JoinedStarts(b);
        var n := |a[0]|;
        assert Joined(a)[n + 1..] == Joined(a[1..]) && Joined(b)[n + 1..] == Joined(b[1..]);
        PathsLookDifferent(a[1..], b[1..]);
      }
      assert a == [a[0]] + a[1..] && b == [b[0]] + b[1..];
    }
  }
}
