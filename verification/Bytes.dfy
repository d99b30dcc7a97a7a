/** Byte strings. */
module Bytes {
  type Byte = b: int | 0 <= b < 256
  type Bytes = seq<Byte>

  function Ascii(s: string): (r: Bytes)
    requires forall k :: 0 <= k < |s| ==> s[k] < 128 as char
    ensures |r| == |s| && forall k :: 0 <= k < |r| ==> r[k] < 128
  {
    seq(|s|, i requires 0 <= i < |s| => s[i] as int)
  }

  function Zeros(n: nat): (r: Bytes)
    ensures |r| == n
  {
    seq(n, _ => 0)
  }

  predicate AllZero(b: Bytes) {
    forall k :: 0 <= k < |b| ==> b[k] == 0
  }

  lemma ZeroBytes(b: Bytes)
    ensures AllZero(b) <==> b == Zeros(|b|)
  {
  }

  function Sum(b: Bytes): (n: nat)
    ensures n <= 255 * |b|
  {
    if b == [] then 0 else b[0] + Sum(b[1..])
  }

  /** Little-endian, as readUInt32LE reads it. */
  function Word32(b: Bytes): nat
    requires |b| == 4
  {
    (b[0] as int) + (b[1] as int) * 0x100 + (b[2] as int) * 0x1_0000 + (b[3] as int) * 0x100_0000
  }
}
