/**
 * Bytes, 32-bit words, the little-endian word layout shared by the packer's
 * `struct.pack('<I', …)` and the device's packed C structs, and ASCII
 * decimal numbers as written by Python's `str()` and read back by the device.
 */
module Bytes {
  type byte = x: int | 0 <= x < 0x100
  type u32 = x: int | 0 <= x < 0x1_0000_0000

  /** Little-endian encoding of a 32-bit word, least significant byte first. */
  function LE32(x: u32): (r: seq<byte>)
    ensures |r| == 4
  {
    [x % 0x100, x / 0x100 % 0x100, x / 0x1_0000 % 0x100, x / 0x100_0000]
  }

  /** The 32-bit word stored little-endian in four bytes. */
  function ReadLE32(s: seq<byte>): (x: u32)
    requires |s| == 4
  {
    var b0: int, b1: int, b2: int, b3: int := s[0], s[1], s[2], s[3];
    assert b2 + 0x100 * b3 < 0x1_0000;
    assert b1 + 0x100 * (b2 + 0x100 * b3) < 0x100_0000;
    b0 + 0x100 * (b1 + 0x100 * (b2 + 0x100 * b3))
  }

  lemma ReadLE32OfLE32(x: u32)
    ensures ReadLE32(LE32(x)) == x
  {
    var q1 := x / 0x100;
    var q2 := q1 / 0x100;
    var q3 := q2 / 0x100;
    assert x == x % 0x100 + 0x100 * q1;
    assert q1 == q1 % 0x100 + 0x100 * q2;
    assert q2 == q2 % 0x100 + 0x100 * q3;
    assert x / 0x1_0000 == q2;
    assert x / 0x100_0000 == q3;
  }

  lemma SplitByte(lo: int, hi: nat)
    requires 0 <= lo < 0x100
    ensures (lo + 0x100 * hi) % 0x100 == lo
    ensures (lo + 0x100 * hi) / 0x100 == hi
  {
  }

  lemma DivTwice(x: nat)
    ensures x / 0x100 / 0x100 == x / 0x1_0000
    ensures x / 0x1_0000 / 0x100 == x / 0x100_0000
  {
  }

  lemma LE32OfReadLE32(s: seq<byte>)
    requires |s| == 4
    ensures LE32(ReadLE32(s)) == s
  {
    var hi2: int := s[2] as int + 0x100 * (s[3] as int);
    var hi: int := s[1] as int + 0x100 * hi2;
    var x := ReadLE32(s);
    SplitByte(s[0], hi);
    SplitByte(s[1], hi2);
    SplitByte(s[2], s[3]);
    DivTwice(x);
  }

  // ---------------------------------------------------------------------------
  // ASCII decimal numbers

  const ZERO: byte := 0x30

  predicate IsDigit(b: int) { 0x30 <= b <= 0x39 }

  /** `str(n)` for a non-negative integer, as ASCII bytes. */
  function Decimal(n: nat): (r: seq<byte>)
    ensures 1 <= |r|
    ensures forall i :: 0 <= i < |r| ==> IsDigit(r[i])
    decreases n
  {
    if n < 10 then [ZERO + n] else Decimal(n / 10) + [ZERO + n % 10]
  }

  /** The value of a string of ASCII decimal digits, most significant first. */
  function DigitsValue(s: seq<byte>): nat
    requires forall i :: 0 <= i < |s| ==> IsDigit(s[i])
  {
    if s == [] then 0
    else
      assert IsDigit(s[|s| - 1]);
      DigitsValue(s[..|s| - 1]) * 10 + (s[|s| - 1] - 0x30)
  }

  lemma {:induction false} DigitsValueOfDecimal(n: nat)
    ensures DigitsValue(Decimal(n)) == n
    decreases n
  {
    var d := Decimal(n);
    if n >= 10 {
      assert d[..|d| - 1] == Decimal(n / 10);
      DigitsValueOfDecimal(n / 10);
    }
  }

  /** A decimal string of k digits denotes a number below 10^k. */
  function Pow10(k: nat): (r: nat)
    ensures r >= 1
  {
    if k == 0 then 1 else 10 * Pow10(k - 1)
  }

  lemma {:induction false} DigitsValueBound(s: seq<byte>)
    requires forall i :: 0 <= i < |s| ==> IsDigit(s[i])
    ensures DigitsValue(s) < Pow10(|s|)
  {
    if s != [] {
      DigitsValueBound(s[..|s| - 1]);
    }
  }
}
