/**
 * The older YMODEM receiver (`Boot/HARDWARE/YModem/ymodem.c`), written for
 * a single application area at 0x08003000 (52 KB, after a 12 KB boot
 * area). It has the same queue, drain loop and four states as the newer
 * receiver, but it does not read the file size: every data block is
 * programmed whole, 128 or 1024 bytes, padding included. It keeps no
 * success flag or byte count, and in state 3 only a block 0 moves it.
 */
module LegacyReceiver {
  import opened Bytes
  import opened RxQueue
  import opened YmodemFrames
  import opened YmodemReceiver
  import opened YmodemReceiverProperties

  /** The application area of this receiver's bootloader header. */
  const LEGACY_APP_SECTOR_ADDR: u32 := 0x0800_3000
  const LEGACY_APP_SECTOR_SIZE: nat := 0xD000
  const LEGACY_APP_ERASE_SECTORS: nat := LEGACY_APP_SECTOR_SIZE / 1024

  /** The receiver's globals `ymodem_status` and `ymodem_addr`, and what went to the UART and the flash. */
  datatype LegacyRx = LegacyRx(status: byte, addr: u32, uart: seq<byte>, flash: seq<FlashOp>)

  /** A data block in state 1: program the whole block from offset 3, then ACK. */
  function WholeBlock(s: LegacyRx, data: seq<byte>): LegacyRx
    requires |data| == DOWNLOAD_BUF_SIZE
  {
    var size := BlockSize(data[0]);
    s.(flash := s.flash + [Program(s.addr, data[3..3 + size])],
       addr := (s.addr + size) % U32_MOD,
       uart := s.uart + [ACK])
  }

  /** `ymodem_recv` of the older receiver on a buffer holding `len` fresh bytes. */
  function LegacyStep(s: LegacyRx, data: seq<byte>, len: int): LegacyRx
    requires |data| == DOWNLOAD_BUF_SIZE
  {
    if len == 0 then s
    else
      var t := data[0];
      if s.status == 0 then
        if t == SOH then
          s.(addr := LEGACY_APP_SECTOR_ADDR,
             flash := s.flash + [Erase(LEGACY_APP_SECTOR_ADDR, LEGACY_APP_ERASE_SECTORS)],
             uart := s.uart + [ACK, CRC16],
             status := 1)
        else s
      else if s.status == 1 then
        if t == SOH || t == STX then WholeBlock(s, data)
        else if t == EOT then s.(uart := s.uart + [NAK], status := 2)
        else s.(status := 0)
      else if s.status == 2 then
        if t == EOT then s.(uart := s.uart + [ACK, CRC16], status := 3) else s
      else if s.status == 3 then
        if t == SOH then s.(uart := s.uart + [ACK, YMODEM_END], status := 0) else s
      else s
  }

  class LegacyReceiverState {
    var status: byte
    var addr: u32
    var uart: seq<byte>
    var flash: seq<FlashOp>

    function State(): LegacyRx
      reads this
    {
      LegacyRx(status, addr, uart, flash)
    }

    constructor()
      ensures State() == LegacyRx(0, 0, [], [])
    {
      status, addr, uart, flash := 0, 0, [], [];
    }

    method SendByte(b: byte)
      modifies this
      ensures State() == old(State()).(uart := old(uart) + [b])
    {
      uart := uart + [b];
    }

    /** `ymodem_recv`: one step of the state machine, after which the buffer is empty. */
    method Recv(buf: DownloadBuf)
      requires buf.data.Length == DOWNLOAD_BUF_SIZE
      modifies this, buf
      ensures State() == LegacyStep(old(State()), old(buf.data[..]), old(buf.len))
      ensures buf.len == 0
    {
      if buf.len == 0 {
        return;
      }
      var t := buf.data[0];
      if status == 0 {
        if t == SOH {
          addr := LEGACY_APP_SECTOR_ADDR;
          flash := flash + [Erase(addr, LEGACY_APP_ERASE_SECTORS)];
          SendByte(ACK);
          SendByte(CRC16);
          status := status + 1;
        }
      } else if status == 1 {
        if t == SOH || t == STX {
          if t == SOH {
            flash := flash + [Program(addr, buf.data[3..3 + 128])];
            addr := (addr + 128) % U32_MOD;
          } else {
            flash := flash + [Program(addr, buf.data[3..3 + 1024])];
            addr := (addr + 1024) % U32_MOD;
          }
          SendByte(ACK);
        } else if t == EOT {
          SendByte(NAK);
          status := status + 1;
        } else {
          status := 0;
        }
      } else if status == 2 {
        if t == EOT {
          SendByte(ACK);
          SendByte(CRC16);
          status := status + 1;
        }
      } else if status == 3 {
        if t == SOH {
          SendByte(ACK);
          SendByte(YMODEM_END);
          status := 0;
        }
      }
      buf.len := 0;
    }

    /** The protocol part of `ymodem_init`: an empty queue and state 0. */
    method Init(q: Queue)
      requires q.queue.Length == MAX_QUEUE_SIZE
      modifies this, q
      ensures State() == old(State()).(status := 0)
      ensures q.Valid() && q.Contents() == [] && unchanged(q.queue)
    {
      q.Initiate();
      status := 0;
    }

    /** `TIM3_IRQHandler`: a queued burst is drained into the buffer and handled as one frame. */
    method OnQuiet(q: Queue, buf: DownloadBuf)
      requires q.Valid() && buf.data.Length == DOWNLOAD_BUF_SIZE && buf.data != q.queue
      modifies this, q, buf, buf.data
      ensures q.Valid() && q.Contents() == [] && unchanged(q.queue)
      ensures old(q.Contents()) == [] ==> unchanged(this, q, buf, buf.data)
      ensures old(q.Contents()) != [] ==>
                var burst := old(q.Contents());
                State() == LegacyStep(old(State()), burst + old(buf.data[..])[|burst|..], |burst|)
                && buf.len == 0
    {
      var pending := q.NotEmpty();
      if pending == 1 {
        ghost var burst, before := q.Contents(), buf.data[..];
        Drain(q, buf);
        assert buf.data[..] == burst + before[|burst|..] by {
          assert buf.data[..] == buf.data[..buf.len] + buf.data[buf.len..];
        }
        Recv(buf);
      }
    }
  }

  // ---------------------------------------------------------------------------
  // Properties

  /** The older table: the newer receiver's, except that state 3 ignores anything but block 0. */
  function LegacyTable(status: byte, t: byte): (byte, seq<byte>)
  {
    if status == 3 && t != SOH then (3, []) else Table(status, t)
  }

  /**
   * An empty buffer changes nothing; any other buffer moves the receiver
   * as the older table says and answers exactly the table's bytes.
   */
  lemma LegacyFollowsTable(s: LegacyRx, data: seq<byte>, len: int)
    requires |data| == DOWNLOAD_BUF_SIZE && s.status <= 3
    ensures len == 0 ==> LegacyStep(s, data, len) == s
    ensures len != 0 ==>
      var r := LegacyStep(s, data, len);
      r.status == LegacyTable(s.status, data[0]).0
      && r.uart == s.uart + LegacyTable(s.status, data[0]).1
  {
  }

  /**
   * Block 0 always erases the 52 sectors of the application area, which
   * run exactly to the end of the 64 KB flash, and writing restarts there.
   */
  lemma LegacyFirstBlock(s: LegacyRx, data: seq<byte>, len: int)
    requires |data| == DOWNLOAD_BUF_SIZE && len != 0 && s.status == 0 && data[0] == SOH
    ensures var r := LegacyStep(s, data, len);
      r.addr == LEGACY_APP_SECTOR_ADDR && r.status == 1
      && r.flash == s.flash + [Erase(LEGACY_APP_SECTOR_ADDR, 52)]
      && LEGACY_APP_SECTOR_ADDR + 52 * 1024 == 0x0800_0000 + 64 * 1024
  {
  }

  /**
   * A data block is programmed whole, 128 bytes after SOH and 1024 after
   * STX, whatever the file size, and the address advances by the same.
   */
  lemma LegacyWritesWholeBlocks(s: LegacyRx, data: seq<byte>, len: int)
    requires |data| == DOWNLOAD_BUF_SIZE && len != 0 && s.status == 1
    requires data[0] == SOH || data[0] == STX
    ensures var size := if data[0] == SOH then 128 else 1024;
      var r := LegacyStep(s, data, len);
      r.flash == s.flash + [Program(s.addr, data[3..3 + size])]
      && |data[3..3 + size]| == size
      && r.addr == (s.addr + size) % U32_MOD && r.status == 1
  {
  }

  /** The block number and its complement are never examined, in any state. */
  lemma LegacyIgnoresBlockNumber(s: LegacyRx, data: seq<byte>, len: int, b1: byte, b2: byte)
    requires |data| == DOWNLOAD_BUF_SIZE
    ensures LegacyStep(s, data[1 := b1][2 := b2], len) == LegacyStep(s, data, len)
  {
    var other := data[1 := b1][2 := b2];
    assert other[3..131] == data[3..131];
    assert other[3..1027] == data[3..1027];
  }
}
