/**
 * The two checksums of the system.
 *
 * CRC-16/XMODEM (polynomial 0x1021, initial value 0, most significant bit
 * first, no final XOR) protects every YMODEM frame; the host computes it
 * with `calculate_crc`. CRC-32 (IEEE 802.3, the reflected polynomial
 * 0xEDB88320, initial value and final XOR 0xFFFFFFFF) binds a firmware
 * header and the configuration record to their contents; the host uses
 * Python's `binascii.crc32` and the device its own `crc32_calculate`, whose
 * bodies are not part of this model: both are this one specification.
 */
module Crc {
  import opened Bytes

  // ---------------------------------------------------------------------------
  // CRC-16/XMODEM, byte at a time

  /**
   * One step of the CRC-16 shift register: shift left, folding in the
   * polynomial 0x1021 when the top bit falls out.
   */
  function Shift16(c: bv16): bv16
  {
    if c & 0x8000 != 0 then (c << 1) ^ 0x1021 else c << 1
  }

  function ShiftN16(c: bv16, n: nat): bv16
  {
    if n == 0 then c else Shift16(ShiftN16(c, n - 1))
  }

  /** The register after one data byte: XOR it into the high half, then eight shifts. */
  function Crc16Byte(c: bv16, b: byte): bv16
  {
    ShiftN16(c ^ ((b as bv16) << 8), 8)
  }

  /** The register after a byte string, starting from `c`. */
  function Crc16From(c: bv16, data: seq<byte>): bv16
  {
    if data == [] then c else Crc16Byte(Crc16From(c, data[..|data| - 1]), data[|data| - 1])
  }

  /** CRC-16/XMODEM of a byte string: the register starts at 0. */
  function Crc16(data: seq<byte>): bv16
  {
    Crc16From(0, data)
  }

  lemma ShiftTop(x: bv16)
    requires x & 0x8000 != 0
    ensures Shift16(x) == (x << 1) ^ 0x1021
  {
  }

  lemma ShiftLow(x: bv16)
    requires x & 0x8000 == 0
    ensures Shift16(x) == x << 1
  {
  }

  lemma ShiftNStep(x: bv16, k: nat)
    ensures ShiftN16(x, k + 1) == Shift16(ShiftN16(x, k))
  {
  }

  lemma Crc16Snoc(d: seq<byte>)
    requires d != []
    ensures Crc16(d) == ShiftN16(Crc16(d[..|d| - 1]) ^ ((d[|d| - 1] as bv16) << 8), 8)
  {
  }

  lemma Below16(x: bv16)
    ensures 0 <= x as int < 0x1_0000
  {
  }

  /**
   * `calculate_crc`: the host's CRC loop. Its result is the CRC-16/XMODEM of
   * the data and always fits in 16 bits. The host keeps the register in an
   * unbounded integer and masks it to 16 bits after every shift; a 16-bit
   * register, whose shift drops exactly the bit that mask clears, performs
   * the same computation.
   */
  method CalculateCrc(data: seq<byte>) returns (crc: int)
    ensures 0 <= crc < 0x1_0000
    ensures crc == Crc16Value(data)
  {
    var c: bv16 := 0;
    for i := 0 to |data|
      invariant c == Crc16(data[..i])
    {
      Crc16Snoc(data[..i + 1]);
      assert data[..i + 1][..i] == data[..i];
      c := c ^ ((data[i] as bv16) << 8);
      ghost var start := c;
      for k := 0 to 8
        invariant c == ShiftN16(start, k)
      {
        ShiftNStep(start, k);
        if c & 0x8000 != 0 {
          ShiftTop(c);
          c := (c << 1) ^ 0x1021;
        } else {
          ShiftLow(c);
          c := c << 1;
        }
      }
    }
    assert data[..|data|] == data;
    Below16(c);
    crc := c as int;
  }

  // ---------------------------------------------------------------------------
  // Properties of CRC-16/XMODEM

  lemma {:induction false} ShiftNZero(k: nat)
    ensures ShiftN16(0, k) == 0
  {
    if k > 0 {
      ShiftNZero(k - 1);
    }
  }

  /** The register never leaves zero on zero bytes: a block of zeros has CRC 0. */
  lemma {:induction false} Crc16OfZeros(n: nat)
    ensures Crc16(seq(n, _ => 0)) == 0
  {
    if n > 0 {
      var z := seq(n, _ => 0);
      assert z[..n - 1] == seq(n - 1, _ => 0);
      Crc16OfZeros(n - 1);
      ShiftNZero(8);
    }
  }

  /** The CRC as the integer the host holds. */
  function Crc16Value(data: seq<byte>): (r: nat)
    ensures r < 0x1_0000
  {
    Below16(Crc16(data));
    Crc16(data) as int
  }

  /**
   * The CRC bytes as a frame carries them, high byte first: the host stores
   * `(crc >> 8) & 0xFF` and `crc & 0xFF` of the integer it computed.
   */
  function Crc16Bytes(v: nat): (r: seq<byte>)
    requires v < 0x1_0000
    ensures |r| == 2
  {
    [v / 0x100, v % 0x100]
  }

  lemma SplitWord(c: bv16)
    ensures c as int == ((c >> 8) as int) * 0x100 + (c & 0xFF) as int
  {
  }

  lemma LowBelow(c: bv16)
    ensures (c & 0xFF) as int < 0x100
  {
  }

  lemma DivModOf(x: int, hi: int, lo: int)
    requires x == hi * 0x100 + lo && 0 <= lo < 0x100
    ensures x / 0x100 == hi && x % 0x100 == lo
  {
  }

  /** The two bytes are the register's high and low halves. */
  lemma Crc16BytesAreHalves(c: bv16)
    ensures Crc16Bytes(c as int) == [(c >> 8) as int, (c & 0xFF) as int]
  {
    var hi, lo, x := (c >> 8) as int, (c & 0xFF) as int, c as int;
    SplitWord(c);
    LowBelow(c);
    DivModOf(x, hi, lo);
  }

  lemma LowShift(z: bv16)
    requires z < 0x8000
    ensures Shift16(z) == z << 1
  {
  }

  lemma LowShifts(z: bv16)
    requires z < 0x100
    ensures z << 1 < 0x8000 && (z << 1) << 1 < 0x8000 && ((z << 1) << 1) << 1 < 0x8000
    ensures (((z << 1) << 1) << 1) << 1 < 0x8000
    ensures ((((z << 1) << 1) << 1) << 1) << 1 < 0x8000
    ensures (((((z << 1) << 1) << 1) << 1) << 1) << 1 < 0x8000
    ensures ((((((z << 1) << 1) << 1) << 1) << 1) << 1) << 1 < 0x8000
    ensures (((((((z << 1) << 1) << 1) << 1) << 1) << 1) << 1) << 1 == z << 8
  {
  }

  /** While the high byte is clear, eight shifts only move the low byte up. */
  lemma ShiftsOfLowByte(z: bv16)
    requires z < 0x100
    ensures ShiftN16(z, 8) == z << 8
  {
    LowShifts(z);
    var z1 := z << 1;
    var z2 := z1 << 1;
    var z3 := z2 << 1;
    var z4 := z3 << 1;
    var z5 := z4 << 1;
    var z6 := z5 << 1;
    var z7 := z6 << 1;
    LowShift(z);
    LowShift(z1);
    LowShift(z2);
    LowShift(z3);
    LowShift(z4);
    LowShift(z5);
    LowShift(z6);
    LowShift(z7);
    assert ShiftN16(z, 1) == z1;
    assert ShiftN16(z, 2) == z2;
    assert ShiftN16(z, 3) == z3;
    assert ShiftN16(z, 4) == z4;
    assert ShiftN16(z, 5) == z5;
    assert ShiftN16(z, 6) == z6;
    assert ShiftN16(z, 7) == z7;
  }

  lemma ToIntAndBack(x: bv16)
    ensures (x as int) as bv16 == x
  {
  }

  lemma SplitRegister(c: bv16)
    ensures c ^ ((c >> 8) << 8) == c & 0xFF
    ensures c & 0xFF < 0x100
  {
  }

  lemma XorSelf(z: bv16)
    ensures z ^ z == 0
  {
  }

  /** Running the register over its own two bytes, high byte first, returns it to 0. */
  lemma FoldOwnCrc(c: bv16)
    ensures Crc16Byte(Crc16Byte(c, (c >> 8) as int), (c & 0xFF) as int) == 0
  {
    var hi, lo := c >> 8, c & 0xFF;
    ToIntAndBack(hi);
    ToIntAndBack(lo);
    SplitRegister(c);
    ShiftsOfLowByte(lo);
    XorSelf(lo << 8);
    ShiftNZero(8);
  }

  /** Appending a byte runs the register over that byte once more. */
  lemma Crc16Append(d: seq<byte>, b: byte)
    ensures Crc16(d + [b]) == Crc16Byte(Crc16(d), b)
  {
    assert (d + [b])[..|d|] == d;
  }

  /**
   * A receiver that runs the CRC over a payload followed by its two CRC bytes
   * obtains 0: this is how the check value in a frame is meant to be used.
   */
  lemma Crc16OfPayloadAndCrc(data: seq<byte>)
    ensures Crc16(data + Crc16Bytes(Crc16Value(data))) == 0
  {
    var c := Crc16(data);
    Crc16BytesAreHalves(c);
    var hi: byte, lo: byte := (c >> 8) as int, (c & 0xFF) as int;
    assert data + Crc16Bytes(Crc16Value(data)) == (data + [hi]) + [lo];
    Crc16Append(data, hi);
    Crc16Append(data + [hi], lo);
    FoldOwnCrc(c);
  }

  // ---------------------------------------------------------------------------
  // CRC-32 (IEEE 802.3)

  function Shift32(c: bv32): bv32
  {
    if c & 1 != 0 then (c >> 1) ^ 0xEDB8_8320 else c >> 1
  }

  function Crc32Byte(c: bv32, b: byte): bv32
  {
    var x := c ^ (b as bv32);
    Shift32(Shift32(Shift32(Shift32(Shift32(Shift32(Shift32(Shift32(x))))))))
  }

  /** The CRC-32 register after the data, starting from all ones. */
  function Crc32Register(data: seq<byte>): bv32
  {
    if data == [] then 0xFFFF_FFFF else Crc32Byte(Crc32Register(data[..|data| - 1]), data[|data| - 1])
  }

  /** CRC-32 of a byte string, as `binascii.crc32(data) & 0xFFFFFFFF` returns it. */
  function Crc32(data: seq<byte>): u32
  {
    (Crc32Register(data) ^ 0xFFFF_FFFF) as int
  }

  // ---------------------------------------------------------------------------
  // Check values: both CRCs over the ASCII digits "123456789"

  /** The nine ASCII digits "123456789", the standard CRC check input. */
  const CheckInput: seq<byte> := [0x31, 0x32, 0x33, 0x34, 0x35, 0x36, 0x37, 0x38, 0x39]

  /** Crc16Byte written out as its eight shifts. */
  lemma Crc16ByteUnrolled(c: bv16, b: byte)
    ensures Crc16Byte(c, b) == Shift16(Shift16(Shift16(Shift16(Shift16(Shift16(Shift16(Shift16(c ^ ((b as bv16) << 8)))))))))
  {
    var x := c ^ ((b as bv16) << 8);
    assert ShiftN16(x, 1) == Shift16(x);
    assert ShiftN16(x, 2) == Shift16(Shift16(x));
    assert ShiftN16(x, 3) == Shift16(Shift16(Shift16(x)));
    assert ShiftN16(x, 4) == Shift16(Shift16(Shift16(Shift16(x))));
    assert ShiftN16(x, 5) == Shift16(Shift16(Shift16(Shift16(Shift16(x)))));
    assert ShiftN16(x, 6) == Shift16(Shift16(Shift16(Shift16(Shift16(Shift16(x))))));
    assert ShiftN16(x, 7) == Shift16(Shift16(Shift16(Shift16(Shift16(Shift16(Shift16(x)))))));
  }

  /** The CRC-16 register after each digit of the check input. */
  lemma Crc16Steps()
    ensures Crc16Byte(0x0000, 0x31) == 0x2672
    ensures Crc16Byte(0x2672, 0x32) == 0x20b5
    ensures Crc16Byte(0x20b5, 0x33) == 0x9752
    ensures Crc16Byte(0x9752, 0x34) == 0xd789
    ensures Crc16Byte(0xd789, 0x35) == 0x546c
    ensures Crc16Byte(0x546c, 0x36) == 0x20e4
    ensures Crc16Byte(0x20e4, 0x37) == 0x86d6
    ensures Crc16Byte(0x86d6, 0x38) == 0x9015
    ensures Crc16Byte(0x9015, 0x39) == 0x31c3
  {
    Crc16ByteUnrolled(0x0000, 0x31);
    Crc16ByteUnrolled(0x2672, 0x32);
    Crc16ByteUnrolled(0x20b5, 0x33);
    Crc16ByteUnrolled(0x9752, 0x34);
    Crc16ByteUnrolled(0xd789, 0x35);
    Crc16ByteUnrolled(0x546c, 0x36);
    Crc16ByteUnrolled(0x20e4, 0x37);
    Crc16ByteUnrolled(0x86d6, 0x38);
    Crc16ByteUnrolled(0x9015, 0x39);
  }

  /** The catalogued check value of CRC-16/XMODEM. */
  lemma Crc16CheckValue()
    ensures Crc16(CheckInput) == 0x31C3
  {
    Crc16Steps();
    var p0: seq<byte> := [];
    var p1 := p0 + [0x31];
    var p2 := p1 + [0x32];
    var p3 := p2 + [0x33];
    var p4 := p3 + [0x34];
    var p5 := p4 + [0x35];
    var p6 := p5 + [0x36];
    var p7 := p6 + [0x37];
    var p8 := p7 + [0x38];
    var p9 := p8 + [0x39];
    Crc16Append(p0, 0x31);
    Crc16Append(p1, 0x32);
    Crc16Append(p2, 0x33);
    Crc16Append(p3, 0x34);
    Crc16Append(p4, 0x35);
    Crc16Append(p5, 0x36);
    Crc16Append(p6, 0x37);
    Crc16Append(p7, 0x38);
    Crc16Append(p8, 0x39);
    assert p9 == CheckInput;
  }

  /** The CRC-32 register after each digit of the check input. */
  lemma Crc32Steps()
    ensures Crc32Byte(0xFFFF_FFFF, 0x31) == 0x7c231048
    ensures Crc32Byte(0x7c231048, 0x32) == 0xb0acbb32
    ensures Crc32Byte(0xb0acbb32, 0x33) == 0x77b79c2d
    ensures Crc32Byte(0x77b79c2d, 0x34) == 0x641c1f5c
    ensures Crc32Byte(0x641c1f5c, 0x35) == 0x340ac5e3
    ensures Crc32Byte(0x340ac5e3, 0x36) == 0xf68d2c9e
    ensures Crc32Byte(0xf68d2c9e, 0x37) == 0xaffc9660
    ensures Crc32Byte(0xaffc9660, 0x38) == 0x651f2550
    ensures Crc32Byte(0x651f2550, 0x39) == 0x340bc6d9
  {
  }

  /** Appending a byte runs the CRC-32 register over that byte once more. */
  lemma Crc32Append(d: seq<byte>, b: byte)
    ensures Crc32Register(d + [b]) == Crc32Byte(Crc32Register(d), b)
  {
    assert (d + [b])[..|d|] == d;
  }

  /** The catalogued check value of CRC-32 (IEEE 802.3), which `binascii.crc32` also returns. */
  lemma Crc32CheckValue()
    ensures Crc32(CheckInput) == 0xCBF4_3926
  {
    Crc32Steps();
    var p0: seq<byte> := [];
    var p1 := p0 + [0x31];
    var p2 := p1 + [0x32];
    var p3 := p2 + [0x33];
    var p4 := p3 + [0x34];
    var p5 := p4 + [0x35];
    var p6 := p5 + [0x36];
    var p7 := p6 + [0x37];
    var p8 := p7 + [0x38];
    var p9 := p8 + [0x39];
    Crc32Append(p0, 0x31);
    Crc32Append(p1, 0x32);
    Crc32Append(p2, 0x33);
    Crc32Append(p3, 0x34);
    Crc32Append(p4, 0x35);
    Crc32Append(p5, 0x36);
    Crc32Append(p6, 0x37);
    Crc32Append(p7, 0x38);
    Crc32Append(p8, 0x39);
    assert p9 == CheckInput;
    assert Crc32Register(CheckInput) == 0x340b_c6d9;
  }
}
