/**
 UTF-8 as RFC 3629 defines it: which byte strings a decoder that refuses errors accepts, and how text is encoded.
 */
module Utf8 {
  import opened UnicodeText
  import opened Bytes

  type Scalar = c: int | 0 <= c < 0x11_0000 && !(0xD800 <= c < 0xE000)

  const REPLACEMENT: Scalar := 0xFFFD

  predicate Tail(b: Byte) { 0x80 <= b <= 0xBF }

  /** How long the well-formed character at the front is, or 0 if there is none (section 4 of RFC 3629). */
  function Width(b: Bytes): nat {
    if b == [] then 0
    else if b[0] <= 0x7F then 1
    else if |b| >= 2 && 0xC2 <= b[0] <= 0xDF && Tail(b[1]) then 2
    else if |b| >= 3 && 0xE0 <= b[0] <= 0xEF && Tail(b[1]) && Tail(b[2])
            && (b[0] == 0xE0 ==> b[1] >= 0xA0) && (b[0] == 0xED ==> b[1] <= 0x9F) then 3
    else if |b| >= 4 && 0xF0 <= b[0] <= 0xF4 && Tail(b[1]) && Tail(b[2]) && Tail(b[3])
            && (b[0] == 0xF0 ==> b[1] >= 0x90) && (b[0] == 0xF4 ==> b[1] <= 0x8F) then 4
    else 0
  }

  /** Nothing but well-formed characters. */
  predicate ValidUtf8(b: Bytes) {
    b == [] || (0 < Width(b) <= |b| && ValidUtf8(b[Width(b)..]))
  }

  function EncodeScalar(c: Scalar): (b: Bytes)
    ensures 1 <= |b| <= 4
  {
    if c < 0x80 then [c]
    else if c < 0x800 then [0xC0 + c / 0x40, 0x80 + c % 0x40]
    else if c < 0x1_0000 then [0xE0 + c / 0x1000, 0x80 + c / 0x40 % 0x40, 0x80 + c % 0x40]
    else [0xF0 + c / 0x4_0000, 0x80 + c / 0x1000 % 0x40, 0x80 + c / 0x40 % 0x40, 0x80 + c % 0x40]
  }

  function EncodeAll(s: seq<Scalar>): Bytes {
    if s == [] then [] else EncodeScalar(s[0]) + EncodeAll(s[1..])
  }

  predicate Paired(t: Text) {
    |t| > 1 && IsHigh(t[0]) && IsLow(t[1])
  }

  /** The first scalar of a text: a surrogate pair joined, an unpaired surrogate replaced. */
  function ScalarAt(t: Text): Scalar
    requires t != []
  {
    if Paired(t) then 0x1_0000 + (t[0] - 0xD800) * 0x400 + (t[1] - 0xDC00)
    else if IsHigh(t[0]) || IsLow(t[0]) then REPLACEMENT
    else t[0]
  }

  function Scalars(t: Text): seq<Scalar> {
    if t == [] then []
    else if Paired(t) then [ScalarAt(t)] + Scalars(t[2..])
    else [ScalarAt(t)] + Scalars(t[1..])
  }

  /** Buffer.from(text). */
  function Encode(t: Text): Bytes { EncodeAll(Scalars(t)) }

  lemma EncodeScalarWidth(c: Scalar)
    ensures Width(EncodeScalar(c)) == |EncodeScalar(c)|
  {
    if 0x800 <= c < 0x1_0000 {
      SecondOfThree(c);
    } else if 0x1_0000 <= c {
      SecondOfFour(c);
    }
  }

  lemma SecondOfThree(c: Scalar)
    requires 0x800 <= c < 0x1_0000
    ensures 0 <= c / 0x1000 <= 0xF
    ensures c / 0x1000 == 0 ==> c / 0x40 % 0x40 >= 0x20
    ensures c / 0x1000 == 0xD ==> c / 0x40 % 0x40 < 0x20
  {
    assert c / 0x1000 == c / 0x40 / 0x40;
  }

  lemma SecondOfFour(c: Scalar)
    requires 0x1_0000 <= c
    ensures 0 <= c / 0x4_0000 <= 4
    ensures c / 0x4_0000 == 0 ==> c / 0x1000 % 0x40 >= 0x10
    ensures c / 0x4_0000 == 4 ==> c / 0x1000 % 0x40 < 0x10
  {
    assert c / 0x4_0000 == c / 0x1000 / 0x40;
  }

  lemma WidthFront(a: Bytes, b: Bytes)
    requires Width(a) > 0
    ensures Width(a + b) == Width(a) <= |a|
  {
  }

  /** Three digits to base 64, read back. */
  lemma Digits(x: int, y: int, z: int)
    requires 0 <= y < 0x40 && 0 <= z < 0x40
    ensures var c := x * 0x1000 + y * 0x40 + z; c / 0x1000 == x && c / 0x40 % 0x40 == y && c % 0x40 == z
  {
    var c := x * 0x1000 + y * 0x40 + z;
    assert c / 0x40 == x * 0x40 + y;
  }

  lemma DecodeScalar(b: Bytes) returns (c: Scalar)
    requires Width(b) == |b| && b != []
    ensures EncodeScalar(c) == b
  {
    var d := seq(|b|, k requires 0 <= k < |b| => b[k] as int);
    if |b| == 1 {
      c := d[0];
    } else if |b| == 2 {
      Digits(0, d[0] - 0xC0, d[1] - 0x80);
      c := (d[0] - 0xC0) * 0x40 + (d[1] - 0x80);
    } else if |b| == 3 {
      Digits(d[0] - 0xE0, d[1] - 0x80, d[2] - 0x80);
      c := (d[0] - 0xE0) * 0x1000 + (d[1] - 0x80) * 0x40 + (d[2] - 0x80);
    } else {
      DecodeWide(b, d[0] - 0xF0, d[1] - 0x80, d[2] - 0x80, d[3] - 0x80);
      c := (d[0] - 0xF0) * 0x4_0000 + (d[1] - 0x80) * 0x1000 + (d[2] - 0x80) * 0x40 + (d[3] - 0x80);
    }
  }

  lemma DecodeWide(b: Bytes, w: int, x: int, y: int, z: int)
    requires |b| == 4 && Width(b) == 4 && b == [0xF0 + w, 0x80 + x, 0x80 + y, 0x80 + z]
    ensures var c := w * 0x4_0000 + x * 0x1000 + y * 0x40 + z;
      0x1_0000 <= c < 0x11_0000 && EncodeScalar(c) == b
  {
    var c := w * 0x4_0000 + x * 0x1000 + y * 0x40 + z;
    Digits(w * 0x40 + x, y, z);
    assert c / 0x1000 == w * 0x40 + x;
    assert c / 0x4_0000 == w;
  }

  lemma {:induction false} EncodedIsUtf8(s: seq<Scalar>)
    ensures ValidUtf8(EncodeAll(s))
  {
    if s != [] {
      var c, rest := EncodeScalar(s[0]), EncodeAll(s[1..]);
      EncodeScalarWidth(s[0]);
      WidthFront(c, rest);
      EncodedIsUtf8(s[1..]);
      hide EncodeScalar, Width;
      assert (c + rest)[|c|..] == rest;
    }
  }

  lemma WidthAlone(b: Bytes)
    requires 0 < Width(b) <= |b|
    ensures Width(b[..Width(b)]) == Width(b)
  {
  }

  lemma {:induction false} Decoded(b: Bytes) returns (s: seq<Scalar>)
    requires ValidUtf8(b)
    ensures EncodeAll(s) == b
  {
    hide EncodeScalar, Width;
    if b == [] {
      s := [];
    } else {
      var w := Width(b);
      var rest := Decoded(b[w..]);
      WidthAlone(b);
      var c := DecodeScalar(b[..w]);
      s := [c] + rest;
      assert s[1..] == rest;
      assert b == b[..w] + b[w..];
    }
  }

  /** The table accepts exactly the encodings of sequences of scalar values. */
  lemma Utf8Meaning(b: Bytes)
    ensures ValidUtf8(b) <==> exists s :: EncodeAll(s) == b
  {
    if ValidUtf8(b) {
      var s := Decoded(b);
    }
    forall s | EncodeAll(s) == b ensures ValidUtf8(b) {
      EncodedIsUtf8(s);
    }
  }

  lemma {:induction false} EncodedLength(t: Text)
    ensures |Encode(t)| == Utf8Length(t)
  {
    if t != [] {
      if IsHigh(t[0]) && |t| > 1 && IsLow(t[1]) {
        EncodedLength(t[2..]);
      } else {
        EncodedLength(t[1..]);
      }
    }
  }

  /** A line feed belongs to no longer character, so it parts well-formed text from well-formed text. */
  lemma {:induction false} LineFeedParts(a: Bytes, b: Bytes)
    ensures ValidUtf8(a + [10] + b) <==> ValidUtf8(a) && ValidUtf8(b)
  {
    var all := a + [10] + b;
    if a == [] {
      assert all[1..] == b;
    } else {
      LineFeedWidth(a, b);
      if Width(all) > 0 {
        var w := Width(all);
        LineFeedParts(a[w..], b);
        assert all[w..] == a[w..] + [10] + b;
      }
    }
  }

  lemma LineFeedWidth(a: Bytes, b: Bytes)
    requires a != []
    ensures Width(a + [10] + b) == Width(a) <= |a|
  {
    var all := a + [10] + b;
    assert all[|a|] == 10 && forall k :: 0 <= k < |a| ==> all[k] == a[k];
  }

  /** After an ended line what follows decides alone. */
  lemma LinesPart(a: Bytes, b: Bytes)
    requires a != [] && a[|a| - 1] == 10
    ensures ValidUtf8(a + b) <==> ValidUtf8(a) && ValidUtf8(b)
  {
    var line := a[..|a| - 1];
    assert a == line + [10] + [] && a + b == line + [10] + b;
    LineFeedParts(line, []);
    LineFeedParts(line, b);
  }

  lemma {:induction false} EncodeAppend(s: Text, c: CodeUnit)
    requires c < 0x80
    ensures Encode(s + [c]) == Encode(s) + [c as Byte]
  {
    hide EncodeScalar;
    var all := s + [c];
    if s == [] {
      assert all[1..] == [];
      assert Scalars(all) == [c as Scalar];
      assert EncodeAll([c as Scalar]) == EncodeScalar(c as Scalar) + [];
      OneByte(c);
    } else {
      var w := if Paired(s) then 2 else 1;
      EncodeAppend(s[w..], c);
      assert all[w..] == s[w..] + [c];
      SameStart(s, c);
      assert EncodeAll(Scalars(s)) == EncodeScalar(ScalarAt(s)) + EncodeAll(Scalars(s[w..]));
      assert EncodeAll(Scalars(all)) == EncodeScalar(ScalarAt(s)) + EncodeAll(Scalars(all[w..]));
    }
  }

  lemma OneByte(c: CodeUnit)
    requires c < 0x80
    ensures EncodeScalar(c as Scalar) == [c as Byte]
  {
  }

  /** A plain unit at the end changes nothing of the first scalar. */
  lemma SameStart(s: Text, c: CodeUnit)
    requires s != [] && c < 0x80
    ensures ScalarAt(s + [c]) == ScalarAt(s) && (Paired(s + [c]) <==> Paired(s))
  {
    assert (s + [c])[0] == s[0] && |s| > 1 ==> (s + [c])[1] == s[1];
  }
}
