/**
 * What the bootloader's YMODEM receiver guarantees, stated about `Step`:
 * the state table, the invariant linking the write address to the bytes
 * counted, the clamping of every write to the announced file size, the
 * reading of that size, and the bytes of a frame it never looks at.
 */
module YmodemReceiverProperties {
  import opened Bytes
  import opened RxQueue
  import opened YmodemFrames
  import opened YmodemReceiver

  // ---------------------------------------------------------------------------
  // The state table

  /**
   * The receiver's transitions as a table: from a state and a frame type,
   * the next state and the bytes answered on the UART.
   */
  function Table(status: byte, t: byte): (byte, seq<byte>)
  {
    match status
    case 0 => if t == SOH then (1, [ACK, CRC16]) else (0, [])
    case 1 =>
      if t == SOH || t == STX then (1, [ACK])
      else if t == EOT then (2, [NAK])
      else (0, [])
    case 2 => if t == EOT then (3, [ACK, CRC16]) else (2, [])
    case _ => if t == SOH then (0, [ACK, YMODEM_END]) else (0, [])
  }

  /**
   * An empty buffer changes nothing; any other buffer moves the receiver
   * (in one of its four states) as the table says, answering the table's
   * bytes and nothing else. Only whether the buffer is empty matters, not
   * how many bytes it holds.
   */
  lemma StepFollowsTable(s: Rx, data: seq<byte>, len: int)
    requires |data| == DOWNLOAD_BUF_SIZE && s.status <= 3
    ensures len == 0 ==> Step(s, data, len) == s
    ensures len != 0 ==>
      var r := Step(s, data, len);
      r == Step(s, data, 1)
      && r.status == Table(s.status, data[0]).0 && r.status <= 3
      && r.uart == s.uart + Table(s.status, data[0]).1
  {
  }

  /**
   * `g_ymodem_success` is raised only by the second EOT, received in
   * state 2, and dropped only by an unexpected frame in state 1.
   */
  lemma SuccessFlag(s: Rx, data: seq<byte>, len: int)
    requires |data| == DOWNLOAD_BUF_SIZE
    ensures var r := Step(s, data, len);
      (r.success != s.success) <==>
        (len != 0
         && ((s.status == 2 && data[0] == EOT && s.success != 1)
             || (s.status == 1 && data[0] !in {SOH, STX, EOT} && s.success != 0)))
    ensures var r := Step(s, data, len); r.success != s.success ==> r.success == (if s.status == 2 then 1 else 0)
  {
  }

  // ---------------------------------------------------------------------------
  // Counting and writing

  /**
   * What the receiver keeps true between frames: it never counts more
   * bytes than the file announced, stays in one of its four states, and
   * once a session has started the write address is the target advanced by
   * the bytes counted.
   */
  predicate Consistent(s: Rx)
  {
    s.byteCount <= s.fileSize && s.status <= 3
    && (s.status != 0 ==> s.addr == (s.target + s.byteCount) % U32_MOD)
  }

  lemma InitialConsistent()
    ensures Consistent(Rx(0, 0, 0, APP_SECTOR_ADDR, 0, 0, 0, [], []))
  {
  }

  lemma AddWrapped(a: int, b: int, w: int)
    requires 0 <= a && 0 <= b && 0 <= w
    ensures ((a + b) % U32_MOD + w) % U32_MOD == (a + (b + w)) % U32_MOD
  {
  }

  /**
   * A data block in state 1 programs `min(block, fileSize - byteCount)`
   * bytes, taken from offset 3, at the current address; the count grows by
   * exactly that much without wrapping, and the address with it.
   */
  lemma DataBlockClamped(s: Rx, data: seq<byte>, len: int)
    requires |data| == DOWNLOAD_BUF_SIZE && len != 0
    requires s.status == 1 && (data[0] == SOH || data[0] == STX)
    requires s.byteCount <= s.fileSize
    ensures var block := if data[0] == SOH then 128 else 1024;
      var w := if s.fileSize - s.byteCount < block then s.fileSize - s.byteCount else block;
      var r := Step(s, data, len);
      r.byteCount == s.byteCount + w <= s.fileSize
      && r.addr == (s.addr + w) % U32_MOD
      && r.flash == s.flash + (if w > 0 then [Program(s.addr, data[3..3 + w])] else [])
      && r.status == 1 && r.fileSize == s.fileSize
  {
    var block := if data[0] == SOH then 128 else 1024;
    var w := if s.fileSize - s.byteCount < block then s.fileSize - s.byteCount else block;
    assert (s.fileSize - s.byteCount) % U32_MOD == s.fileSize - s.byteCount;
    assert WriteLength(data[0], s.fileSize, s.byteCount) == w;
    assert (s.byteCount + w) % U32_MOD == s.byteCount + w;
    assert Step(s, data, len) == DataBlock(s, data);
  }

  /** Every frame keeps the receiver consistent, and none moves the target. */
  lemma StepKeepsConsistent(s: Rx, data: seq<byte>, len: int)
    requires |data| == DOWNLOAD_BUF_SIZE && Consistent(s)
    ensures Consistent(Step(s, data, len)) && Step(s, data, len).target == s.target
  {
    if len != 0 && s.status == 1 && (data[0] == SOH || data[0] == STX) {
      DataBlockClamped(s, data, len);
      var w := Step(s, data, len).byteCount - s.byteCount;
      AddWrapped(s.target, s.byteCount, w);
    }
  }

  lemma ResetKeepsConsistent(s: Rx)
    requires Consistent(s)
    ensures Consistent(Reset(s)) && Reset(s).status == 0 && Reset(s).byteCount == 0
  {
  }

  // ---------------------------------------------------------------------------
  // Reading the file size

  /** The end of the run of ASCII digits starting at `i`. */
  function DigitsEnd(data: seq<byte>, i: nat): (e: nat)
    requires i <= |data|
    ensures i <= e <= |data|
    ensures forall k :: i <= k < e ==> IsDigit(data[k])
    ensures e < |data| ==> !IsDigit(data[e])
    decreases |data| - i
  {
    if i < |data| && IsDigit(data[i]) then DigitsEnd(data, i + 1) else i
  }

  lemma MulMod(a: int, d: int)
    requires 0 <= a && 0 <= d
    ensures ((a % U32_MOD) * 10 + d) % U32_MOD == (a * 10 + d) % U32_MOD
  {
    var q := a / U32_MOD;
    assert a * 10 + d == (a % U32_MOD) * 10 + d + (q * 10) * U32_MOD;
  }

  lemma DigitsSnoc(s: seq<byte>, d: byte)
    requires forall k :: 0 <= k < |s| ==> IsDigit(s[k])
    requires IsDigit(d)
    ensures DigitsValue(s + [d]) == DigitsValue(s) * 10 + (d - ZERO)
  {
    assert (s + [d])[..|s|] == s;
  }

  /**
   * The digit scan keeps the value of the digits read so far, modulo 2^32,
   * and stops at the first non-digit.
   */
  lemma {:induction false} ParseDigitsValue(data: seq<byte>, start: nat, i: nat, acc: u32)
    requires |data| == DOWNLOAD_BUF_SIZE && start <= i <= |data|
    requires forall k :: start <= k < i ==> IsDigit(data[k])
    requires acc == DigitsValue(data[start..i]) % U32_MOD
    ensures ParseDigits(data, i, acc) == DigitsValue(data[start..DigitsEnd(data, i)]) % U32_MOD
    decreases |data| - i
  {
    if i < |data| && IsDigit(data[i]) {
      var d := data[i] - ZERO;
      var next: u32 := (acc * 10 + d) % U32_MOD;
      NextAccumulator(data[start..i], data[i], acc);
      assert data[start..i + 1] == data[start..i] + [data[i]];
      ParseDigitsValue(data, start, i + 1, next);
    }
  }

  lemma NextAccumulator(s: seq<byte>, d: byte, acc: u32)
    requires forall k :: 0 <= k < |s| ==> IsDigit(s[k])
    requires IsDigit(d) && acc == DigitsValue(s) % U32_MOD
    ensures (acc * 10 + (d - ZERO)) % U32_MOD == DigitsValue(s + [d]) % U32_MOD
  {
    var v := DigitsValue(s);
    DigitsSnoc(s, d);
    MulMod(v, d - ZERO);
    assert acc * 10 + (d - ZERO) == (v % U32_MOD) * 10 + (d - ZERO);
  }

  lemma {:induction false} DigitsEndFrom(data: seq<byte>, start: nat, i: nat)
    requires start <= i <= |data|
    requires forall k :: start <= k < i ==> IsDigit(data[k])
    ensures DigitsEnd(data, i) == DigitsEnd(data, start)
    decreases i - start
  {
    if i > start {
      DigitsEndFrom(data, start, i - 1);
    }
  }

  /**
   * The size the receiver reads is the decimal value of the digits that
   * follow the name's terminator, reduced modulo 2^32 as the 32-bit
   * accumulator wraps.
   */
  lemma FileSizeIsDecimal(data: seq<byte>)
    requires |data| == DOWNLOAD_BUF_SIZE
    ensures var start := NameEnd(data, 3) + 1;
      FileSize(data) == DigitsValue(data[start..DigitsEnd(data, start)]) % U32_MOD
  {
    var start := NameEnd(data, 3) + 1;
    ParseDigitsValue(data, start, start, 0);
  }

  /** A name without NUL bytes, stored from offset `i`, ends where the name ends. */
  lemma {:induction false} NameEndAt(data: seq<byte>, i: nat, n: nat)
    requires |data| == DOWNLOAD_BUF_SIZE && 3 <= i <= n <= 130
    requires forall k :: i <= k < n ==> data[k] != 0
    requires data[n] == 0
    ensures NameEnd(data, i) == n
    decreases n - i
  {
    if i < n {
      NameEndAt(data, i + 1, n);
    }
  }

  /**
   * The inverse of the host's block 0: a buffer holding, from offset 3, a
   * name without NUL bytes, a NUL, `str(n)` and a byte that is not a digit
   * announces the size `n` modulo 2^32 (so exactly `n` for any file the
   * 32-bit counter can describe).
   */
  lemma FileSizeOfFields(data: seq<byte>, name: seq<byte>, n: nat)
    requires |data| == DOWNLOAD_BUF_SIZE && |name| <= 127
    requires forall k :: 0 <= k < |name| ==> name[k] != 0
    requires var e := 4 + |name| + |Decimal(n)|;
      e < |data| && data[3..e] == name + [0] + Decimal(n) && !IsDigit(data[e])
    ensures FileSize(data) == n % U32_MOD
  {
    var d := Decimal(n);
    var start := 4 + |name|;
    var e := start + |d|;
    assert data[3..e][..|name|] == name;
    forall k | 3 <= k < 3 + |name|
      ensures data[k] != 0
    {
      assert data[k] == data[3..e][k - 3];
    }
    assert data[3 + |name|] == data[3..e][|name|] == 0;
    NameEndAt(data, 3, 3 + |name|);
    assert data[start..e] == data[3..e][|name| + 1..] == d;
    forall k | start <= k < e
      ensures IsDigit(data[k])
    {
      assert data[k] == d[k - start];
    }
    DigitsEndFrom(data, start, e);
    assert DigitsEnd(data, e) == e;
    FileSizeIsDecimal(data);
    DigitsValueOfDecimal(n);
  }

  // ---------------------------------------------------------------------------
  // Bytes never examined

  lemma {:induction false} NameEndSame(a: seq<byte>, b: seq<byte>, i: nat)
    requires |a| == |b| == DOWNLOAD_BUF_SIZE && 3 <= i <= 131
    requires a[3..] == b[3..]
    ensures NameEnd(a, i) == NameEnd(b, i)
    decreases 131 - i
  {
    assert a[i] == a[3..][i - 3] == b[3..][i - 3] == b[i];
    if a[i] != 0 && i < 131 {
      NameEndSame(a, b, i + 1);
    }
  }

  lemma {:induction false} ParseDigitsSame(a: seq<byte>, b: seq<byte>, i: nat, acc: u32)
    requires |a| == |b| == DOWNLOAD_BUF_SIZE && 3 <= i <= |a|
    requires a[3..] == b[3..]
    ensures ParseDigits(a, i, acc) == ParseDigits(b, i, acc)
    decreases |a| - i
  {
    if i < |a| {
      assert a[i] == a[3..][i - 3] == b[3..][i - 3] == b[i];
      if IsDigit(a[i]) {
        ParseDigitsSame(a, b, i + 1, (acc * 10 + (a[i] - ZERO)) % U32_MOD);
      }
    }
  }

  /**
   * The block number and its complement (bytes 1 and 2) are never
   * examined: whatever they hold, the frame has the same effect.
   */
  lemma IgnoresBlockNumber(s: Rx, data: seq<byte>, len: int, b1: byte, b2: byte)
    requires |data| == DOWNLOAD_BUF_SIZE
    ensures Step(s, data[1 := b1][2 := b2], len) == Step(s, data, len)
  {
    var other := data[1 := b1][2 := b2];
    assert other[3..] == data[3..];
    NameEndSame(other, data, 3);
    ParseDigitsSame(other, data, NameEnd(data, 3) + 1, 0);
    assert other[3..131] == data[3..][..128];
    assert other[3..1027] == data[3..][..1024];
  }

  /**
   * Once block 0 is in, only the type byte and the payload (bytes 3 up to
   * the block size) matter: the CRC bytes after the payload are never
   * examined.
   */
  lemma IgnoresCrc(s: Rx, data: seq<byte>, other: seq<byte>, len: int)
    requires |data| == |other| == DOWNLOAD_BUF_SIZE && s.status != 0
    requires data[0] == other[0]
    requires var size := BlockSize(data[0]); data[3..3 + size] == other[3..3 + size]
    ensures Step(s, other, len) == Step(s, data, len)
  {
    if len != 0 && s.status == 1 && (data[0] == SOH || data[0] == STX) {
      var w := WriteLength(data[0], s.fileSize, s.byteCount);
      var size := BlockSize(data[0]);
      assert data[3..3 + w] == data[3..3 + size][..w] == other[3..3 + size][..w] == other[3..3 + w];
    }
  }
}
