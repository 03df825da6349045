/**
 * The pieces together: the host's YMODEM sender talking to the
 * bootloader's receiver, the receiver's flash calls landing the file in
 * the target bank, and the upgrade accepting what the packer produced.
 *
 * Each frame the sender writes is taken to reach the receiver as one
 * burst, handled by one `ymodem_recv` call (the quiet-line timer splits
 * bursts): the burst lands at the start of the download buffer, over
 * whatever the previous burst left there.
 */
module EndToEnd {
  import opened Wrappers
  import opened Bytes
  import opened Crc
  import opened IapLayout
  import opened FlashMemory
  import opened FirmwareVerify
  import opened ConfigManager
  import opened Bootloader
  import opened FirmwarePacker
  import opened YmodemFrames
  import opened YmodemSender
  import opened YmodemSenderProperties
  import opened RxQueue
  import opened YmodemReceiver
  import opened YmodemReceiverProperties
  import opened LegacyReceiver

  // ---------------------------------------------------------------------------
  // A session on the receiver

  /** A burst of `frame` landing at the start of the download buffer. */
  function Land(buf: seq<byte>, frame: seq<byte>): (r: seq<byte>)
    requires |buf| == DOWNLOAD_BUF_SIZE && |frame| <= DOWNLOAD_BUF_SIZE
    ensures |r| == DOWNLOAD_BUF_SIZE && r[..|frame|] == frame
  {
    frame + buf[|frame|..]
  }

  /** Every frame is a non-empty burst that fits the download buffer. */
  predicate Fits(frames: seq<seq<byte>>)
  {
    forall k :: 0 <= k < |frames| ==> 1 <= |frames[k]| <= DOWNLOAD_BUF_SIZE
  }

  /** The receiver handling `frames` one burst each, and the buffer it is left with. */
  function Session(s: Rx, buf: seq<byte>, frames: seq<seq<byte>>): (r: (Rx, seq<byte>))
    requires |buf| == DOWNLOAD_BUF_SIZE && Fits(frames)
    ensures |r.1| == DOWNLOAD_BUF_SIZE
    decreases |frames|
  {
    if frames == [] then (s, buf)
    else
      var b := Land(buf, frames[0]);
      assert forall k :: 0 <= k < |frames| - 1 ==> frames[1..][k] == frames[k + 1];
      Session(Step(s, b, |frames[0]|), b, frames[1..])
  }

  lemma FitsAppend(a: seq<seq<byte>>, b: seq<seq<byte>>)
    requires Fits(a) && Fits(b)
    ensures Fits(a + b)
  {
    forall k | 0 <= k < |a + b|
      ensures 1 <= |(a + b)[k]| <= DOWNLOAD_BUF_SIZE
    {
      if k >= |a| {
        assert (a + b)[k] == b[k - |a|];
      }
    }
  }

  /** Handling two runs of frames one after the other is handling them together. */
  lemma {:induction false} SessionAppend(s: Rx, buf: seq<byte>, a: seq<seq<byte>>, b: seq<seq<byte>>)
    requires |buf| == DOWNLOAD_BUF_SIZE && Fits(a) && Fits(b)
    ensures Fits(a + b)
    ensures var (s1, buf1) := Session(s, buf, a);
      |buf1| == DOWNLOAD_BUF_SIZE && Session(s, buf, a + b) == Session(s1, buf1, b)
    decreases |a|
  {
    FitsAppend(a, b);
    if a != [] {
      var b0 := Land(buf, a[0]);
      assert (a + b)[0] == a[0];
      assert (a + b)[1..] == a[1..] + b;
      assert Fits(a[1..]) by {
        forall k | 0 <= k < |a[1..]|
          ensures 1 <= |a[1..][k]| <= DOWNLOAD_BUF_SIZE
        {
          assert a[1..][k] == a[k + 1];
        }
      }
      var s1 := Step(s, b0, |a[0]|);
      SessionAppend(s1, b0, a[1..], b);
      assert Session(s, buf, a) == Session(s1, b0, a[1..]);
      assert Session(s, buf, a + b) == Session(s1, b0, (a + b)[1..]);
    } else {
      assert a + b == b;
    }
  }

  // ---------------------------------------------------------------------------
  // Data blocks

  /** What the receiver needs of a data frame: the type byte for the block's size and the block at offset 3. */
  predicate Carries(frame: seq<byte>, c: seq<byte>)
  {
    1 <= |c| && (|c| == 1024 || |c| <= 128)
    && 3 + |c| <= |frame| <= DOWNLOAD_BUF_SIZE
    && frame[0] == (if |c| == 1024 then STX else SOH)
    && frame[3..3 + |c|] == c
  }

  /** Every frame the sender builds for a block it reads carries that block. */
  lemma DataFrameCarries(n: nat, c: seq<byte>)
    requires 1 <= |c| && (|c| == 1024 || |c| <= 128)
    ensures Carries(DataFrame(n, c), c)
  {
    DataFrameHeader(n, c);
    DataFrameCarriesData(n, c);
  }

  lemma {:induction false} ChunksNonEmpty(content: seq<byte>, sent: nat)
    ensures forall k :: 0 <= k < |Chunks(content, sent)| ==> 1 <= |Chunks(content, sent)[k]|
    decreases |content| - sent
  {
    if sent < |content| {
      var c := Chunk(content, sent);
      ChunksStep(content, sent, c);
      ChunksNonEmpty(content, sent + |c|);
    }
  }

  /** The sender's data frames for a file each carry the file's next block. */
  lemma FramesCarryChunks(content: seq<byte>)
    ensures var blocks := Chunks(content, 0);
      forall k :: 0 <= k < |blocks| ==> Carries(Frames(blocks, 1)[k], blocks[k])
  {
    var blocks := Chunks(content, 0);
    ChunkSizes(content, 0);
    ChunksNonEmpty(content, 0);
    forall k | 0 <= k < |blocks|
      ensures Carries(Frames(blocks, 1)[k], blocks[k])
    {
      FrameAt(blocks, k);
      DataFrameCarries(k + 1, blocks[k]);
    }
  }

  /** One flash write per block, each starting where the previous one ended. */
  function Programs(addr: u32, blocks: seq<seq<byte>>): seq<FlashOp>
    decreases |blocks|
  {
    if blocks == [] then []
    else [YmodemReceiver.Program(addr, blocks[0])] + Programs((addr + |blocks[0]|) % U32_MOD, blocks[1..])
  }

  lemma WellSizedTail(blocks: seq<seq<byte>>)
    requires WellSized(blocks) && blocks != []
    ensures WellSized(blocks[1..])
  {
    var t := blocks[1..];
    forall i | 0 <= i < |t|
      ensures |t[i]| == 1024 || (|t[i]| <= 128 && (i < |t| - 1 ==> |t[i]| == 128))
    {
      assert t[i] == blocks[i + 1];
    }
  }

  /** The receiver writes a carried block whole when the announced size still covers it. */
  lemma ReceiveBlock(s: Rx, buf: seq<byte>, frame: seq<byte>, c: seq<byte>, rest: nat)
    requires |buf| == DOWNLOAD_BUF_SIZE && Carries(frame, c)
    requires s.status == 1 && s.byteCount + |c| + rest == s.fileSize
    requires |c| != 1024 && rest > 0 ==> |c| == 128
    ensures var b := Land(buf, frame);
      Step(s, b, |frame|) == s.(flash := s.flash + [YmodemReceiver.Program(s.addr, c)],
                               addr := (s.addr + |c|) % U32_MOD,
                               byteCount := s.byteCount + |c|,
                               uart := s.uart + [ACK])
  {
    var b := Land(buf, frame);
    assert b[0] == frame[0];
    assert b[3..3 + |c|] == frame[3..3 + |c|] == c;
    DataBlockClamped(s, b, |frame|);
    assert Step(s, b, |frame|) == DataBlock(s, b);
  }

  lemma CarriedFit(frames: seq<seq<byte>>, blocks: seq<seq<byte>>)
    requires |frames| == |blocks|
    requires forall k :: 0 <= k < |blocks| ==> Carries(frames[k], blocks[k])
    ensures Fits(frames)
    ensures frames != [] ==> forall k :: 0 <= k < |blocks| - 1 ==> Carries(frames[1..][k], blocks[1..][k])
  {
    forall k | 0 <= k < |frames|
      ensures 1 <= |frames[k]| <= DOWNLOAD_BUF_SIZE
    {
      assert Carries(frames[k], blocks[k]);
    }
    if frames != [] {
      forall k | 0 <= k < |blocks| - 1
        ensures Carries(frames[1..][k], blocks[1..][k])
      {
        assert Carries(frames[k + 1], blocks[k + 1]);
      }
    }
  }

  /** What a run of blocks does to the receiver: the writes, the address, the count and the ACKs. */
  function AfterBlocks(s: Rx, blocks: seq<seq<byte>>): Rx
  {
    s.(flash := s.flash + Programs(s.addr, blocks),
       addr := (s.addr + |Concat(blocks)|) % U32_MOD,
       byteCount := s.fileSize,
       uart := s.uart + seq(|blocks|, _ => ACK))
  }

  lemma AfterBlocksStep(s: Rx, c: seq<byte>, blocks: seq<seq<byte>>)
    requires blocks != [] && blocks[0] == c
    ensures var s1 := s.(flash := s.flash + [YmodemReceiver.Program(s.addr, c)],
                         addr := (s.addr + |c|) % U32_MOD,
                         uart := s.uart + [ACK]);
      AfterBlocks(s1, blocks[1..]) == AfterBlocks(s, blocks)
  {
    var rest := Concat(blocks[1..]);
    assert Concat(blocks) == c + rest;
    AddWrapped(s.addr, |c|, |rest|);
    assert Programs(s.addr, blocks) == [YmodemReceiver.Program(s.addr, c)] + Programs((s.addr + |c|) % U32_MOD, blocks[1..]);
    assert [ACK] + seq(|blocks| - 1, _ => ACK) == seq(|blocks|, _ => ACK);
  }

  /**
   * Frames carrying the blocks of the rest of the announced file, sized as
   * the sender cuts them, make the receiver program each block whole at
   * consecutive addresses, count them all and acknowledge each.
   */
  lemma {:induction false} ReceiveBlocks(s: Rx, buf: seq<byte>, frames: seq<seq<byte>>, blocks: seq<seq<byte>>)
    requires |buf| == DOWNLOAD_BUF_SIZE && |frames| == |blocks|
    requires forall k :: 0 <= k < |blocks| ==> Carries(frames[k], blocks[k])
    requires WellSized(blocks)
    requires s.status == 1 && s.byteCount + |Concat(blocks)| == s.fileSize
    ensures Fits(frames)
    ensures Session(s, buf, frames).0 == AfterBlocks(s, blocks)
    decreases |blocks|
  {
    CarriedFit(frames, blocks);
    if blocks != [] {
      var c := blocks[0];
      var rest := Concat(blocks[1..]);
      assert Concat(blocks) == c + rest;
      assert Carries(frames[0], c);
      ReceiveBlock(s, buf, frames[0], c, |rest|);
      var b := Land(buf, frames[0]);
      var s1 := Step(s, b, |frames[0]|);
      WellSizedTail(blocks);
      ReceiveBlocks(s1, b, frames[1..], blocks[1..]);
      assert Session(s, buf, frames) == Session(s1, b, frames[1..]);
      AfterBlocksStep(s, c, blocks);
    }
  }

  // ---------------------------------------------------------------------------
  // Block 0

  /**
   * Block 0 from the sender, with a name of NUL-free ASCII bytes that
   * leaves room for both terminators, starts the session: the receiver
   * learns the size (modulo 2^32), erases the target and restarts writing
   * there.
   */
  lemma ReceiveHeader(s: Rx, buf: seq<byte>, name: string, size: nat)
    requires |buf| == DOWNLOAD_BUF_SIZE && s.status == 0
    requires |AsciiBytes(name)| + |Decimal(size)| <= 126
    requires forall k :: 0 <= k < |AsciiBytes(name)| ==> AsciiBytes(name)[k] != 0
    ensures FileInfoFrame(name, size).Some? && |FileInfoFrame(name, size).value| == 133
    ensures var h := FileInfoFrame(name, size).value;
      Step(s, Land(buf, h), |h|)
        == s.(addr := s.target, byteCount := 0, packetCount := 0, fileSize := size % U32_MOD,
              flash := s.flash + [YmodemReceiver.Erase(s.target, 20)],
              uart := s.uart + [ACK, CRC16], status := 1)
  {
    FileInfoFrameFields(name, size);
    var h := FileInfoFrame(name, size).value;
    var b := Land(buf, h);
    var ascii := AsciiBytes(name);
    var e := 4 + |ascii| + |Decimal(size)|;
    assert b[..133] == h;
    assert b[0] == h[..3][0] == SOH;
    assert b[3..e + 1] == h[3..e + 1] == ascii + [0] + Decimal(size) + [0];
    assert b[3..e] == (ascii + [0] + Decimal(size) + [0])[..e - 3] == ascii + [0] + Decimal(size);
    assert b[e] == b[3..e + 1][e - 3] == 0;
    FileSizeOfFields(b, ascii, size);
  }

  // ---------------------------------------------------------------------------
  // The whole session

  /** The frames the sender writes when every answer is the expected one. */
  function SenderFrames(name: string, content: seq<byte>): seq<seq<byte>>
    requires FileInfoFrame(name, |content|).Some?
  {
    [FileInfoFrame(name, |content|).value] + Frames(Chunks(content, 0), 1) + [[EOT], [EOT]]
  }

  /** One frame is one call. */
  lemma SessionOne(s: Rx, buf: seq<byte>, frame: seq<byte>)
    requires |buf| == DOWNLOAD_BUF_SIZE && 1 <= |frame| <= DOWNLOAD_BUF_SIZE
    ensures Fits([frame])
    ensures Session(s, buf, [frame]) == (Step(s, Land(buf, frame), |frame|), Land(buf, frame))
  {
    assert [frame][1..] == [];
  }

  /** The two EOTs that end the file: NAK, then ACK and 'C', the success flag, state 3. */
  lemma ReceiveEots(s: Rx, buf: seq<byte>)
    requires |buf| == DOWNLOAD_BUF_SIZE && s.status == 1
    ensures Fits([[EOT], [EOT]])
    ensures Session(s, buf, [[EOT], [EOT]]).0
      == s.(uart := s.uart + [NAK, ACK, CRC16], success := 1, status := 3)
  {
    var b3 := Land(buf, [EOT]);
    var s3 := Step(s, b3, 1);
    assert b3[0] == EOT;
    SessionOne(s, buf, [EOT]);
    var b4 := Land(b3, [EOT]);
    assert b4[0] == EOT;
    SessionOne(s3, b3, [EOT]);
    SessionAppend(s, buf, [[EOT]], [[EOT]]);
    assert [[EOT]] + [[EOT]] == [[EOT], [EOT]];
    assert s.uart + [NAK] + [ACK, CRC16] == s.uart + [NAK, ACK, CRC16];
  }

  /** The first frame of a run is one call, then the rest follows. */
  lemma SessionCons(s: Rx, buf: seq<byte>, frame: seq<byte>, rest: seq<seq<byte>>)
    requires |buf| == DOWNLOAD_BUF_SIZE && 1 <= |frame| <= DOWNLOAD_BUF_SIZE && Fits(rest)
    ensures Fits([frame] + rest)
    ensures Session(s, buf, [frame] + rest)
      == Session(Step(s, Land(buf, frame), |frame|), Land(buf, frame), rest)
  {
    SessionOne(s, buf, frame);
    SessionAppend(s, buf, [frame], rest);
  }

  /** Two EOTs after any run of frames that leaves the receiver in state 1. */
  lemma ThenEots(s: Rx, buf: seq<byte>, frames: seq<seq<byte>>, r: Rx)
    requires |buf| == DOWNLOAD_BUF_SIZE && Fits(frames)
    requires Session(s, buf, frames).0 == r && r.status == 1
    ensures Fits(frames + [[EOT], [EOT]])
    ensures Session(s, buf, frames + [[EOT], [EOT]]).0
      == r.(uart := r.uart + [NAK, ACK, CRC16], success := 1, status := 3)
  {
    var mid := Session(s, buf, frames);
    ReceiveEots(mid.0, mid.1);
    SessionAppend(s, buf, frames, [[EOT], [EOT]]);
  }

  /**
   * After block 0, frames carrying the blocks of the announced file and
   * two EOTs: every block written, every byte counted, every block
   * acknowledged, then NAK, ACK and 'C', the success flag and state 3.
   */
  lemma ReceiveFile(s: Rx, buf: seq<byte>, frames: seq<seq<byte>>, blocks: seq<seq<byte>>)
    requires |buf| == DOWNLOAD_BUF_SIZE
    requires s.status == 1 && s.byteCount + |Concat(blocks)| == s.fileSize
    requires |frames| == |blocks| && WellSized(blocks)
    requires forall k :: 0 <= k < |blocks| ==> Carries(frames[k], blocks[k])
    ensures Fits(frames + [[EOT], [EOT]])
    ensures Session(s, buf, frames + [[EOT], [EOT]]).0
      == AfterBlocks(s, blocks).(uart := AfterBlocks(s, blocks).uart + [NAK, ACK, CRC16], success := 1, status := 3)
  {
    ReceiveBlocks(s, buf, frames, blocks);
    ThenEots(s, buf, frames, AfterBlocks(s, blocks));
  }

  /** The receiver just after block 0 announced a file of `size` bytes. */
  function AfterHeader(s: Rx, size: nat): Rx
  {
    s.(addr := s.target, byteCount := 0, packetCount := 0, fileSize := size % U32_MOD,
       flash := s.flash + [YmodemReceiver.Erase(s.target, 20)],
       uart := s.uart + [ACK, CRC16], status := 1)
  }

  /**
   * A whole session: a block 0 that the receiver takes as announcing the
   * file's size, then the file's blocks and two EOTs.
   */
  lemma ReceiveSession(s: Rx, buf: seq<byte>, h: seq<byte>, frames: seq<seq<byte>>, blocks: seq<seq<byte>>)
    requires |buf| == DOWNLOAD_BUF_SIZE && 1 <= |h| <= DOWNLOAD_BUF_SIZE
    requires Step(s, Land(buf, h), |h|) == AfterHeader(s, |Concat(blocks)|)
    requires |Concat(blocks)| < U32_MOD
    requires |frames| == |blocks| && WellSized(blocks)
    requires forall k :: 0 <= k < |blocks| ==> Carries(frames[k], blocks[k])
    ensures Fits([h] + (frames + [[EOT], [EOT]]))
    ensures var r := AfterBlocks(AfterHeader(s, |Concat(blocks)|), blocks);
      Session(s, buf, [h] + (frames + [[EOT], [EOT]])).0
        == r.(uart := r.uart + [NAK, ACK, CRC16], success := 1, status := 3)
  {
    var s1 := AfterHeader(s, |Concat(blocks)|);
    ReceiveFile(s1, Land(buf, h), frames, blocks);
    SessionCons(s, buf, h, frames + [[EOT], [EOT]]);
  }

  /** The state a whole session ends in, field by field. */
  lemma SessionEnd(s: Rx, blocks: seq<seq<byte>>)
    requires |Concat(blocks)| < U32_MOD
    ensures var r := AfterBlocks(AfterHeader(s, |Concat(blocks)|), blocks);
      r.fileSize == |Concat(blocks)| && r.byteCount == |Concat(blocks)|
      && r.flash == s.flash + [YmodemReceiver.Erase(s.target, 20)] + Programs(s.target, blocks)
      && r.uart == s.uart + [ACK, CRC16] + seq(|blocks|, _ => ACK)
  {
  }

  /**
   * The receiver, waiting for block 0, handles the frames a successful
   * transfer writes (block 0, the data blocks, two EOTs) so that it erases
   * the target, programs the file block by block from the target on,
   * counts every byte, raises the success flag and sits in state 3; it
   * answers ACK and 'C' to block 0, ACK to every data block, NAK to the
   * first EOT and ACK and 'C' to the second.
   */
  lemma SenderToReceiver(s: Rx, buf: seq<byte>, name: string, content: seq<byte>)
    requires |buf| == DOWNLOAD_BUF_SIZE && s.status == 0
    requires |AsciiBytes(name)| + |Decimal(|content|)| <= 126
    requires forall k :: 0 <= k < |AsciiBytes(name)| ==> AsciiBytes(name)[k] != 0
    requires |content| < U32_MOD
    ensures FileInfoFrame(name, |content|).Some? && Fits(SenderFrames(name, content))
    ensures var r := Session(s, buf, SenderFrames(name, content)).0;
      r.status == 3 && r.success == 1
      && r.fileSize == |content| && r.byteCount == |content|
      && r.flash == s.flash + [YmodemReceiver.Erase(s.target, 20)] + Programs(s.target, Chunks(content, 0))
      && r.uart == s.uart + [ACK, CRC16] + seq(|Chunks(content, 0)|, _ => ACK) + [NAK, ACK, CRC16]
  {
    ReceiveHeader(s, buf, name, |content|);
    var h := FileInfoFrame(name, |content|).value;
    var blocks := Chunks(content, 0);
    var frames := Frames(blocks, 1);
    FramesCarryChunks(content);
    ChunkSizes(content, 0);
    ChunksCover(content, 0);
    assert content[0..] == content;
    ReceiveSession(s, buf, h, frames, blocks);
    SessionEnd(s, blocks);
    assert SenderFrames(name, content) == [h] + (frames + [[EOT], [EOT]]);
  }

  // ---------------------------------------------------------------------------
  // From the receiver's flash calls to the flash

  /** A flash call that stays inside the flash. */
  predicate InFlash(op: FlashOp)
  {
    match op
    case Erase(addr, sectors) => Within(addr, sectors * FLASH_SECTOR_SIZE)
    case Program(addr, bytes) => Within(addr, |bytes|)
  }

  /** The flash after the calls in `ops`, in order. */
  function Apply(f: Flash, ops: seq<FlashOp>): Flash
    requires forall k :: 0 <= k < |ops| ==> InFlash(ops[k])
    decreases |ops|
  {
    if ops == [] then f
    else
      var op := ops[0];
      assert InFlash(op);
      var f1 := match op
        case Erase(addr, sectors) => FlashMemory.Erase(f, addr, sectors)
        case Program(addr, bytes) => FlashMemory.Program(f, addr, bytes);
      assert forall k :: 0 <= k < |ops| - 1 ==> ops[1..][k] == ops[k + 1];
      Apply(f1, ops[1..])
  }

  /**
   * The receiver's consecutive block writes, from an address where the
   * whole file fits, store the file there in one piece.
   */
  lemma {:induction false} ApplyPrograms(f: Flash, addr: u32, blocks: seq<seq<byte>>)
    requires Within(addr, |Concat(blocks)|)
    ensures forall k :: 0 <= k < |Programs(addr, blocks)| ==> InFlash(Programs(addr, blocks)[k])
    ensures Apply(f, Programs(addr, blocks)) == FlashMemory.Program(f, addr, Concat(blocks))
    decreases |blocks|
  {
    if blocks != [] {
      var c := blocks[0];
      var rest := Concat(blocks[1..]);
      assert Concat(blocks) == c + rest;
      var next: u32 := (addr + |c|) % U32_MOD;
      assert next == addr + |c|;
      var ops := Programs(addr, blocks);
      ApplyPrograms(FlashMemory.Program(f, addr, c), next, blocks[1..]);
      assert ops[1..] == Programs(next, blocks[1..]);
      ProgramAdjacent(f, addr, c, rest);
    }
  }

  /**
   * The flash calls of a successful session, from an empty log, applied to
   * the flash: the target bank is erased and the file programmed at its
   * start, which is exactly the reception the upgrade model assumes.
   */
  lemma SessionLandsFile(f: Flash, s: Rx, buf: seq<byte>, name: string, content: seq<byte>)
    requires |buf| == DOWNLOAD_BUF_SIZE && s.status == 0 && s.flash == []
    requires s.target == APP_A_SECTOR_ADDR || s.target == APP_B_SECTOR_ADDR
    requires Within(s.target, |content|)
    requires |AsciiBytes(name)| + |Decimal(|content|)| <= 126
    requires forall k :: 0 <= k < |AsciiBytes(name)| ==> AsciiBytes(name)[k] != 0
    ensures FileInfoFrame(name, |content|).Some? && Fits(SenderFrames(name, content))
    ensures var ops := Session(s, buf, SenderFrames(name, content)).0.flash;
      (forall k :: 0 <= k < |ops| ==> InFlash(ops[k]))
      && Apply(f, ops) == Bootloader.Receive(f, s.target, content)
  {
    SenderToReceiver(s, buf, name, content);
    var blocks := Chunks(content, 0);
    var ops := Session(s, buf, SenderFrames(name, content)).0.flash;
    ChunksCover(content, 0);
    assert content[0..] == content;
    var erased := FlashMemory.Erase(f, s.target, 20);
    ApplyPrograms(erased, s.target, blocks);
    assert ops[0] == YmodemReceiver.Erase(s.target, 20);
    assert ops[1..] == Programs(s.target, blocks);
    assert BankSectors(s.target) == 20;
  }

  // ---------------------------------------------------------------------------
  // The packer's file through the upgrade

  /**
   * The upgrade installs an image made of a header and a firmware whose
   * size and CRC-32 the header carries exactly when the firmware is from 1
   * to 20480 bytes; otherwise it stops at the header.
   */
  lemma PackedImageOutcome(d: Dev, h: FirmwareInfo, firmware: seq<byte>, eraseWorks: bool)
    requires Within(BankAddr(Not(d.config.activeBank)), FIRMWARE_INFO_SIZE + |firmware|)
    requires h.magic == FIRMWARE_MAGIC && h.firmwareSize == |firmware| && h.firmwareCrc32 == Crc32(firmware)
    ensures var (r, d1) := Upgrade(d, EncodeInfo(h) + firmware, eraseWorks);
      (r.Installed? <==> 1 <= |firmware| <= 20480)
      && (!r.Installed? ==> r == HeaderRejected)
  {
    if 1 <= |firmware| <= APP_BANK_SIZE {
      PackedImageInstalls(d, h, firmware, eraseWorks);
    } else {
      var image := EncodeInfo(h) + firmware;
      var addr := BankAddr(Not(d.config.activeBank));
      var f3 := Staged(d, image, eraseWorks);
      ReceivedImage(d, image, eraseWorks);
      ReadPart(f3, addr, |image|, 0, FIRMWARE_INFO_SIZE);
      assert image[..FIRMWARE_INFO_SIZE] == EncodeInfo(h);
      ParseHeaderOfEncoded(f3, addr, h);
    }
  }

  /**
   * A file the packer writes, received into the inactive bank, is
   * installed exactly when its image is from 1 to 20480 bytes, and then
   * the bank's entry is the packer's header as written (its valid flag is
   * already set).
   */
  lemma PackedFileInstalls(d: Dev, input: Option<seq<byte>>, version: string, timestamp: int,
                           confirmLarge: bool, eraseWorks: bool)
    requires PackFirmware(input, version, timestamp, confirmLarge).Ok?
    requires Within(BankAddr(Not(d.config.activeBank)), |PackFirmware(input, version, timestamp, confirmLarge).value|)
    ensures var out := PackFirmware(input, version, timestamp, confirmLarge).value;
      var (r, d1) := Upgrade(d, out, eraseWorks);
      (r.Installed? <==> 1 <= |input.value| <= 20480)
      && (r.Installed? ==>
            BankInfo(d1.config, d1.config.activeBank)
              == PackedInfo(ParseVersion(version).value, |input.value|, Crc32(input.value), timestamp))
  {
    var out := PackFirmware(input, version, timestamp, confirmLarge).value;
    var data := input.value;
    var h := PackedInfo(ParseVersion(version).value, |data|, Crc32(data), timestamp);
    PackFirmwareLayout(input, version, timestamp, confirmLarge);
    assert out == out[..24] + out[24..] == EncodeInfo(h) + data;
    PackedImageOutcome(d, h, data, eraseWorks);
    if 1 <= |data| <= APP_BANK_SIZE {
      PackedImageInstalls(d, h, data, eraseWorks);
      UpgradeSuccessSwitches(d, out, eraseWorks);
    }
  }

  // ---------------------------------------------------------------------------
  // The older receiver

  /**
   * Where the newer receiver stops at the announced size, the older one
   * programs the sender's 0x1A padding too: a short last block is written
   * as 128 bytes.
   */
  lemma LegacyWritesPadding(s: LegacyRx, buf: seq<byte>, n: nat, c: seq<byte>)
    requires |buf| == DOWNLOAD_BUF_SIZE && s.status == 1 && 1 <= |c| < 128
    ensures var frame := DataFrame(n, c);
      |frame| == 133
      && LegacyStep(s, Land(buf, frame), |frame|).flash
         == s.flash + [YmodemReceiver.Program(s.addr, c + seq(128 - |c|, _ => PAD))]
  {
    var frame := DataFrame(n, c);
    DataFrameHeader(n, c);
    DataFrameCarriesData(n, c);
    var b := Land(buf, frame);
    assert b[..133] == frame;
    assert b[0] == frame[0] == SOH;
    LegacyWritesWholeBlocks(s, b, |frame|);
    assert b[3..131] == frame[3..131];
    assert frame[3..131] == c + seq(128 - |c|, _ => PAD) by {
      assert frame[3..131][..|c|] == frame[3..3 + |c|] == c;
      forall i | |c| <= i < 128
        ensures frame[3..131][i] == PAD
      {
        assert frame[3..131][i] == frame[3 + i];
      }
    }
  }
}
