/** Fixed-width octal fields: toString(8), padStart and parseInt(_, 8). */
module Octal {
  import opened Bytes

  const ZERO: Byte := 0x30

  predicate IsOctalDigit(b: Byte) { 0x30 <= b <= 0x37 }

  predicate AllOctal(b: Bytes) {
    forall k :: 0 <= k < |b| ==> IsOctalDigit(b[k])
  }

  function Pow8(n: nat): nat {
    if n == 0 then 1 else 8 * Pow8(n - 1)
  }

  /** value.toString(8) */
  function ToOctal(value: nat): (r: Bytes)
    ensures r != [] && AllOctal(r)
  {
    if value < 8 then [ZERO + value] else ToOctal(value / 8) + [ZERO + value % 8]
  }

  /** padStart(width, "0") */
  function PadStart(digits: Bytes, width: nat): (r: Bytes)
    ensures |r| >= width && |r| >= |digits|
    ensures AllOctal(digits) ==> AllOctal(r)
  {
    if |digits| >= width then digits else seq(width - |digits|, _ => ZERO) + digits
  }

  /** parseInt(digits, 8) on octal digits. */
  function ParseOctal(digits: Bytes): nat
    requires AllOctal(digits)
  {
    if digits == [] then 0 else 8 * ParseOctal(digits[..|digits| - 1]) + (digits[|digits| - 1] - ZERO)
  }

  lemma {:induction false} ParseToOctal(value: nat)
    ensures ParseOctal(ToOctal(value)) == value
  {
    if value >= 8 {
      ParseToOctal(value / 8);
      assert ToOctal(value)[..|ToOctal(value)| - 1] == ToOctal(value / 8);
    } else {
      assert [ZERO + value][..0] == [];
    }
  }

  lemma {:induction false} ParsePrepend(digits: Bytes, zeros: nat)
    requires AllOctal(digits)
    ensures AllOctal(seq(zeros, _ => ZERO) + digits)
    ensures ParseOctal(seq(zeros, _ => ZERO) + digits) == ParseOctal(digits)
  {
    var z := seq(zeros, _ => ZERO);
    if digits != [] {
      ParsePrepend(digits[..|digits| - 1], zeros);
      assert (z + digits)[..|z + digits| - 1] == z + digits[..|digits| - 1];
    } else if zeros > 0 {
      ParsePrepend([], zeros - 1);
      assert (z + digits)[..zeros - 1] == seq(zeros - 1, _ => ZERO) + [];
    } else {
      assert z + digits == [];
    }
  }

  lemma ParsePadded(value: nat, width: nat)
    ensures ParseOctal(PadStart(ToOctal(value), width)) == value
  {
    ParseToOctal(value);
    if |ToOctal(value)| < width {
      ParsePrepend(ToOctal(value), width - |ToOctal(value)|);
    }
  }

  lemma {:induction false} OctalWidth(value: nat, width: nat)
    requires 0 < width && value < Pow8(width)
    ensures |ToOctal(value)| <= width
  {
    if value >= 8 {
      assert width > 1;
      OctalWidth(value / 8, width - 1);
    }
  }

  /** A number field: padded to `length - 1` digits and closed by a NUL, as far as `length` bytes reach. */
  function OctalField(length: nat, value: nat): (r: Bytes)
    requires length > 0
    ensures |r| == length
  {
    (PadStart(ToOctal(value), length - 1) + [0])[..length]
  }

  predicate IsField(length: nat, b: Bytes)
    requires length > 0
  {
    |b| == length && AllOctal(b[..length - 1]) && b[length - 1] == 0
  }

  /** toString("ascii"), which drops the highest bit of every byte. */
  function SevenBit(b: Bytes): (r: Bytes)
    ensures |r| == |b| && forall k :: 0 <= k < |b| ==> r[k] == b[k] % 0x80
  {
    seq(|b|, k requires 0 <= k < |b| => b[k] % 0x80)
  }

  lemma FieldIsSevenBit(length: nat, b: Bytes)
    requires length > 0 && IsField(length, b)
    ensures SevenBit(b) == b
  {
    assert forall k :: 0 <= k < length - 1 ==> b[..length - 1][k] == b[k];
  }

  /** A field wide enough for its value reads back as that value. */
  lemma {:induction false} FieldRoundTrip(length: nat, value: nat)
    requires length > 1 && value < Pow8(length - 1)
    ensures IsField(length, OctalField(length, value))
    ensures ParseOctal(OctalField(length, value)[..length - 1]) == value
  {
    OctalWidth(value, length - 1);
    ParsePadded(value, length - 1);
    var padded := PadStart(ToOctal(value), length - 1);
    assert (padded + [0])[..length] == padded + [0];
    assert (padded + [0])[..length - 1] == padded;
  }
}
