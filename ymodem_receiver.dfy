/**
 * The bootloader's YMODEM receiver (`Boot/Protocol/YModem/ymodem.c`).
 *
 * `ymodem_recv` handles one burst of bytes, drained from the receive queue
 * into the download buffer, as one frame. It walks a four-state machine:
 * 0 waits for block 0 (file name and size), 1 programs data blocks, 2 waits
 * for the second EOT, 3 waits for the closing block. Flash erases and
 * writes are recorded in a log instead of changing a flash array, and every
 * byte sent back on the UART is appended to `uart`.
 *
 * The pure function `Step` says what one call does; class `Receiver`, whose
 * fields are the file's globals, is proved to compute it.
 */
module YmodemReceiver {
  import opened Bytes
  import opened IapLayout
  import opened RxQueue
  import opened YmodemFrames

  const U32_MOD: nat := 0x1_0000_0000

  /** `YMODEM_END`: the byte that closes a session. */
  const YMODEM_END: byte := 0x4F

  /** The defaults of the bootloader's header: bank A and its sector count. */
  const APP_SECTOR_ADDR: u32 := APP_A_SECTOR_ADDR
  const APP_ERASE_SECTORS: nat := APP_A_ERASE_SECTORS

  /** One call into the flash driver. */
  datatype FlashOp = Erase(addr: u32, sectors: nat) | Program(addr: u32, bytes: seq<byte>)

  /**
   * The receiver's globals: `ymodem_status`, `ymodem_addr`,
   * `ymodem_packet_count`, `g_ymodem_target_addr`, `g_ymodem_success`,
   * `g_ymodem_byte_count`, `g_ymodem_file_size`, and what went to the UART
   * and to the flash driver.
   */
  datatype Rx = Rx(
    status: byte,
    addr: u32,
    packetCount: nat,
    target: u32,
    success: byte,
    byteCount: u32,
    fileSize: u32,
    uart: seq<byte>,
    flash: seq<FlashOp>)

  // ---------------------------------------------------------------------------
  // Block 0: the file size

  /**
   * Where the name scan stops: the first NUL at or after `i`, or offset 131
   * (the end of the 128-byte payload) when there is none before it.
   */
  function NameEnd(data: seq<byte>, i: nat): (r: nat)
    requires |data| == DOWNLOAD_BUF_SIZE && 3 <= i <= 131
    ensures i <= r <= 131
    decreases 131 - i
  {
    if data[i] != 0 && i < 131 then NameEnd(data, i + 1) else i
  }

  /**
   * The digit scan: `size = size * 10 + digit` in 32-bit arithmetic for
   * every ASCII digit from `i` on, stopping at the first other byte (or at
   * the end of the buffer).
   */
  function ParseDigits(data: seq<byte>, i: nat, acc: u32): u32
    requires |data| == DOWNLOAD_BUF_SIZE && i <= |data|
    decreases |data| - i
  {
    if i < |data| && IsDigit(data[i]) then ParseDigits(data, i + 1, (acc * 10 + (data[i] - ZERO)) % U32_MOD)
    else acc
  }

  /** The file size read from block 0: the digits right after the name's terminator. */
  function FileSize(data: seq<byte>): u32
    requires |data| == DOWNLOAD_BUF_SIZE
  {
    ParseDigits(data, NameEnd(data, 3) + 1, 0)
  }

  /** The erase size chosen for the target address; every choice is 20 sectors. */
  function EraseSectors(addr: u32): (r: nat)
    ensures r == 20
  {
    if addr == APP_A_SECTOR_ADDR then APP_A_ERASE_SECTORS
    else if addr == APP_B_SECTOR_ADDR then APP_B_ERASE_SECTORS
    else APP_ERASE_SECTORS
  }

  // ---------------------------------------------------------------------------
  // Data blocks

  function BlockSize(t: byte): nat
  {
    if t == SOH then 128 else 1024
  }

  /** The bytes of a data block to program: the block, cut to what the file still lacks. */
  function WriteLength(t: byte, fileSize: u32, byteCount: u32): nat
  {
    var remaining := (fileSize - byteCount) % U32_MOD;
    if remaining < BlockSize(t) then remaining else BlockSize(t)
  }

  /** A data block in state 1: program the clamped length from offset 3, then ACK. */
  function DataBlock(s: Rx, data: seq<byte>): Rx
    requires |data| == DOWNLOAD_BUF_SIZE
  {
    var w := WriteLength(data[0], s.fileSize, s.byteCount);
    var s1 :=
      if w > 0 then
        s.(flash := s.flash + [Program(s.addr, data[3..3 + w])],
           addr := (s.addr + w) % U32_MOD,
           byteCount := (s.byteCount + w) % U32_MOD)
      else s;
    s1.(uart := s1.uart + [ACK])
  }

  /** Block 0 in state 0: restart the counters, read the size, erase the target, ACK and 'C'. */
  function FirstBlock(s: Rx, data: seq<byte>): Rx
    requires |data| == DOWNLOAD_BUF_SIZE
  {
    s.(addr := s.target, byteCount := 0, packetCount := 0,
       fileSize := FileSize(data),
       flash := s.flash + [Erase(s.target, EraseSectors(s.target))],
       uart := s.uart + [ACK, CRC16],
       status := 1)
  }

  /**
   * `ymodem_recv` on a buffer holding `len` fresh bytes (the rest of the
   * 1200 bytes is whatever an earlier burst left there).
   */
  function Step(s: Rx, data: seq<byte>, len: int): Rx
    requires |data| == DOWNLOAD_BUF_SIZE
  {
    if len == 0 then s
    else
      var t := data[0];
      if s.status == 0 then
        if t == SOH then FirstBlock(s, data) else s
      else if s.status == 1 then
        if t == SOH || t == STX then DataBlock(s, data)
        else if t == EOT then s.(uart := s.uart + [NAK], status := 2)
        else s.(status := 0, success := 0)
      else if s.status == 2 then
        if t == EOT then s.(uart := s.uart + [ACK, CRC16], success := 1, status := 3) else s
      else if s.status == 3 then
        if t == SOH then s.(uart := s.uart + [ACK, YMODEM_END], status := 0) else s.(status := 0)
      else s
  }

  /** `ymodem_reset`: back to state 0 with no success and no bytes counted. */
  function Reset(s: Rx): Rx
  {
    s.(status := 0, success := 0, byteCount := 0)
  }

  // ---------------------------------------------------------------------------
  // The globals and the handlers

  class Receiver {
    var status: byte
    var addr: u32
    var packetCount: nat
    var target: u32
    var success: byte
    var byteCount: u32
    var fileSize: u32
    var uart: seq<byte>
    var flash: seq<FlashOp>

    function State(): Rx
      reads this
    {
      Rx(status, addr, packetCount, target, success, byteCount, fileSize, uart, flash)
    }

    /** The globals' initial values; the target defaults to bank A. */
    constructor()
      ensures State() == Rx(0, 0, 0, APP_SECTOR_ADDR, 0, 0, 0, [], [])
    {
      status, addr, packetCount, target, success := 0, 0, 0, APP_SECTOR_ADDR, 0;
      byteCount, fileSize, uart, flash := 0, 0, [], [];
    }

    method SendByte(b: byte)
      modifies this
      ensures State() == old(State()).(uart := old(uart) + [b])
    {
      uart := uart + [b];
    }

    /** The name scan and the digit scan of block 0, as pointer loops over the buffer. */
    method ParseFileSize(data: array<byte>) returns (size: u32)
      requires data.Length == DOWNLOAD_BUF_SIZE
      ensures size == FileSize(data[..])
    {
      var p := 3;
      while data[p] != 0 && p < 3 + 128
        invariant 3 <= p <= 131
        invariant NameEnd(data[..], p) == NameEnd(data[..], 3)
        decreases 131 - p
      {
        p := p + 1;
      }
      p := p + 1;
      size := 0;
      while p < DOWNLOAD_BUF_SIZE && IsDigit(data[p])
        invariant p <= DOWNLOAD_BUF_SIZE
        invariant ParseDigits(data[..], p, size) == FileSize(data[..])
      {
        size := (size * 10 + (data[p] - ZERO)) % U32_MOD;
        p := p + 1;
      }
    }

    /** Case 0 on block 0: the counters restart, the size is parsed, the target erased. */
    method FirstBlockIn(data: array<byte>)
      requires data.Length == DOWNLOAD_BUF_SIZE && status == 0
      modifies this
      ensures State() == FirstBlock(old(State()), data[..])
    {
      addr := target;
      byteCount := 0;
      packetCount := 0;
      fileSize := ParseFileSize(data);
      var sectors := EraseSectors(addr);
      flash := flash + [Erase(addr, sectors)];
      SendByte(ACK);
      SendByte(CRC16);
      status := status + 1;
    }

    /** Case 1 on a data block: program what the file still lacks, at most one block. */
    method DataBlockIn(data: array<byte>)
      requires data.Length == DOWNLOAD_BUF_SIZE
      modifies this
      ensures State() == DataBlock(old(State()), data[..])
    {
      var t := data[0];
      var blockSize := if t == SOH then 128 else 1024;
      var toWrite := blockSize;
      var remaining := (fileSize - byteCount) % U32_MOD;
      if remaining < blockSize {
        toWrite := remaining;
      }
      if toWrite > 0 {
        flash := flash + [Program(addr, data[3..3 + toWrite])];
        addr := (addr + toWrite) % U32_MOD;
        byteCount := (byteCount + toWrite) % U32_MOD;
      }
      SendByte(ACK);
    }

    /** `ymodem_recv`: one step of the state machine, after which the buffer is empty. */
    method Recv(buf: DownloadBuf)
      requires buf.data.Length == DOWNLOAD_BUF_SIZE
      modifies this, buf
      ensures State() == Step(old(State()), old(buf.data[..]), old(buf.len))
      ensures buf.len == 0
    {
      if buf.len == 0 {
        return;
      }
      var t := buf.data[0];
      if status == 0 {
        if t == SOH {
          FirstBlockIn(buf.data);
        }
      } else if status == 1 {
        if t == SOH || t == STX {
          DataBlockIn(buf.data);
        } else if t == EOT {
          SendByte(NAK);
          status := status + 1;
        } else {
          status := 0;
          success := 0;
        }
      } else if status == 2 {
        if t == EOT {
          SendByte(ACK);
          SendByte(CRC16);
          success := 1;
          status := status + 1;
        }
      } else if status == 3 {
        if t == SOH {
          SendByte(ACK);
          SendByte(YMODEM_END);
          status := 0;
        } else {
          status := 0;
        }
      }
      buf.len := 0;
    }

    /** `ymodem_reset`: the state machine restarts and the receive queue is emptied. */
    method ResetReceiver(q: Queue)
      requires q.queue.Length == MAX_QUEUE_SIZE
      modifies this, q
      ensures State() == Reset(old(State()))
      ensures q.Valid() && q.Contents() == [] && unchanged(q.queue)
    {
      status := 0;
      success := 0;
      byteCount := 0;
      q.Initiate();
    }

    /** The protocol part of `ymodem_init`: an empty queue and state 0. */
    method Init(q: Queue)
      requires q.queue.Length == MAX_QUEUE_SIZE
      modifies this, q
      ensures State() == old(State()).(status := 0)
      ensures q.Valid() && q.Contents() == [] && unchanged(q.queue)
    {
      q.Initiate();
      status := 0;
    }

    /**
     * `TIM3_IRQHandler`: when the line has gone quiet and bytes are queued,
     * the whole burst becomes one frame: it is drained into the buffer and
     * handed to `ymodem_recv`. With nothing queued nothing happens.
     */
    method OnQuiet(q: Queue, buf: DownloadBuf)
      requires q.Valid() && buf.data.Length == DOWNLOAD_BUF_SIZE && buf.data != q.queue
      modifies this, q, buf, buf.data
      ensures q.Valid() && q.Contents() == [] && unchanged(q.queue)
      ensures old(q.Contents()) == [] ==> unchanged(this, q, buf, buf.data)
      ensures old(q.Contents()) != [] ==>
                var burst := old(q.Contents());
                State() == Step(old(State()), burst + old(buf.data[..])[|burst|..], |burst|)
                && buf.len == 0
    {
      var pending := q.NotEmpty();
      if pending == 1 {
        ghost var burst, before := q.Contents(), buf.data[..];
        Drain(q, buf);
        assert buf.data[..] == burst + before[|burst|..] by {
          assert buf.data[..] == buf.data[..buf.len] + buf.data[buf.len..];
        }
        Recv(buf);
      }
    }
  }
}
