/**
 * What the host's YMODEM sender promises, proved about the phase functions
 * of module YmodemSender (and so, through their `ensures`, about the
 * methods of class `Sender`): how the file is cut into blocks, how each
 * handshake reacts to the device, and that nothing is written once the
 * transfer is cancelled.
 */
module YmodemSenderProperties {
  import opened Wrappers
  import opened Bytes
  import opened YmodemFrames
  import opened YmodemSender

  // ---------------------------------------------------------------------------
  // Cancellation: a link only moves forward, and a cancelled one not at all

  predicate Suffix<T(==)>(a: seq<T>, b: seq<T>)
  {
    |b| <= |a| && b == a[|a| - |b|..]
  }

  /**
   * `b` can follow `a`: the port is the same, the log only grew, replies
   * were only consumed; and nothing changes once cancelled, or without a port.
   */
  predicate Extends(a: Link, b: Link)
  {
    && b.portOpen == a.portOpen
    && |a.written| <= |b.written| && b.written[..|a.written|] == a.written
    && Suffix(a.replies, b.replies)
    && (a.cancelled ==> b == a)
    && (!a.portOpen ==> b.written == a.written)
  }

  lemma ExtendsTrans(a: Link, b: Link, c: Link)
    requires Extends(a, b) && Extends(b, c)
    ensures Extends(a, c)
  {
    assert c.written[..|a.written|] == c.written[..|b.written|][..|a.written|];
    assert c.replies == a.replies[|a.replies| - |b.replies|..][|b.replies| - |c.replies|..];
  }

  /** `cancel_transfer` writes nothing: its CA bytes are blocked by the flag it has just set. */
  lemma CancelWritesNothing(l: Link)
    ensures Cancel(l) == l.(cancelled := true)
  {
  }

  lemma WriteExtends(l: Link, d: seq<byte>)
    ensures Extends(l, Write(l, d))
  {
  }

  lemma ReceiveExtends(l: Link)
    ensures Extends(l, Receive(l).1)
    ensures Receive(l).0.Some? ==> !Receive(l).1.cancelled
  {
    if l.portOpen && !l.cancelled && l.replies != [] {
      assert l.replies[1..] == l.replies[|l.replies| - |l.replies[1..]|..];
    }
  }

  lemma {:induction false} SyncExtends(l: Link, polls: nat)
    ensures Extends(l, Sync(l, polls).1)
    decreases polls
  {
    if polls > 0 && !l.cancelled {
      var (b, l1) := Receive(l);
      ReceiveExtends(l);
      if b == Some(CRC16) {
        assert Sync(l, polls).1 == Receive(l1).1;
        ReceiveExtends(l1);
        ExtendsTrans(l, l1, Receive(l1).1);
      } else {
        assert Sync(l, polls).1 == Sync(l1, polls - 1).1;
        SyncExtends(l1, polls - 1);
        ExtendsTrans(l, l1, Sync(l1, polls - 1).1);
      }
    }
  }

  lemma {:induction false} HeaderAcksExtends(l: Link, retry: nat)
    ensures Extends(l, HeaderAcks(l, retry).1)
    decreases 5 - retry
  {
    if retry < 5 && !l.cancelled {
      var (a, l1) := Receive(l);
      ReceiveExtends(l);
      if a == Some(ACK) {
        ReceiveExtends(l1);
        ExtendsTrans(l, l1, Receive(l1).1);
      } else if a.None? {
        HeaderAcksExtends(l1, retry + 1);
        ExtendsTrans(l, l1, HeaderAcks(l1, retry + 1).1);
      }
    }
  }

  lemma {:induction false} PacketAcksExtends(l: Link, retry: nat)
    ensures Extends(l, PacketAcks(l, retry).1)
    decreases 3 - retry
  {
    if retry < 3 && !l.cancelled {
      var (a, l1) := Receive(l);
      ReceiveExtends(l);
      if a != Some(ACK) && a != Some(NAK) {
        PacketAcksExtends(l1, retry + 1);
        ExtendsTrans(l, l1, PacketAcks(l1, retry + 1).1);
      }
    }
  }

  lemma SendPacketExtends(l: Link, frame: seq<byte>)
    ensures Extends(l, SendPacket(l, frame).1)
  {
    if !l.cancelled {
      var l1 := Write(l, frame);
      WriteExtends(l, frame);
      PacketAcksExtends(l1, 0);
      ExtendsTrans(l, l1, PacketAcks(l1, 0).1);
    }
  }

  lemma {:induction false} SendWithRetriesExtends(l: Link, frame: seq<byte>, retry: nat)
    ensures Extends(l, SendWithRetries(l, frame, retry).1)
    decreases 3 - retry
  {
    if retry < 3 {
      var (ok, l1) := SendPacket(l, frame);
      SendPacketExtends(l, frame);
      if !ok && !l1.cancelled {
        SendWithRetriesExtends(l1, frame, retry + 1);
        ExtendsTrans(l, l1, SendWithRetries(l1, frame, retry + 1).1);
      }
    }
  }

  lemma {:induction false} DataLoopExtends(l: Link, frames: seq<seq<byte>>, i: nat)
    ensures Extends(l, DataLoop(l, frames, i).1)
    decreases |frames| - i
  {
    if !l.cancelled && i < |frames| {
      var (ok, l1) := SendWithRetries(l, frames[i], 0);
      SendWithRetriesExtends(l, frames[i], 0);
      if ok {
        DataLoopExtends(l1, frames, i + 1);
        ExtendsTrans(l, l1, DataLoop(l1, frames, i + 1).1);
      }
    }
  }

  lemma {:induction false} AwaitNakExtends(l: Link, retry: nat)
    ensures Extends(l, AwaitNak(l, retry))
    decreases 5 - retry
  {
    if retry < 5 {
      var (r, l1) := Receive(l);
      ReceiveExtends(l);
      if r != Some(NAK) {
        AwaitNakExtends(l1, retry + 1);
        ExtendsTrans(l, l1, AwaitNak(l1, retry + 1));
      }
    }
  }

  lemma {:induction false} AwaitAckExtends(l: Link, retry: nat)
    ensures Extends(l, AwaitAck(l, retry).1)
    decreases 10 - retry
  {
    if retry < 10 {
      var (r, l1) := Receive(l);
      ReceiveExtends(l);
      if r != Some(ACK) {
        AwaitAckExtends(l1, retry + 1);
        ExtendsTrans(l, l1, AwaitAck(l1, retry + 1).1);
      }
    }
  }

  lemma FinishExtends(l: Link)
    ensures Extends(l, Finish(l).1)
  {
    var l1 := Write(l, [EOT]);
    WriteExtends(l, [EOT]);
    var l2 := AwaitNak(l1, 0);
    AwaitNakExtends(l1, 0);
    ExtendsTrans(l, l1, l2);
    var l3 := Write(l2, [EOT]);
    WriteExtends(l2, [EOT]);
    ExtendsTrans(l, l2, l3);
    AwaitAckExtends(l3, 0);
    ExtendsTrans(l, l3, AwaitAck(l3, 0).1);
  }

  lemma OpeningExtends(l: Link, header: Option<seq<byte>>, polls: nat)
    ensures Extends(l, Opening(l, header, polls).1)
  {
    var (synced, l1) := Sync(l, polls);
    SyncExtends(l, polls);
    if synced && !l1.cancelled && header.Some? {
      var l2 := Write(l1, header.value);
      WriteExtends(l1, header.value);
      ExtendsTrans(l, l1, l2);
      HeaderAcksExtends(l2, 0);
      ExtendsTrans(l, l2, HeaderAcks(l2, 0).1);
    }
  }

  lemma RunExtends(l: Link, header: Option<seq<byte>>, frames: seq<seq<byte>>, polls: nat)
    ensures Extends(l, Run(l, header, frames, polls).1)
  {
    var (opening, l1) := Opening(l, header, polls);
    OpeningExtends(l, header, polls);
    if opening.None? {
      var (failed, l2) := DataLoop(l1, frames, 0);
      DataLoopExtends(l1, frames, 0);
      ExtendsTrans(l, l1, l2);
      if failed.None? && !l2.cancelled {
        FinishExtends(l2);
        ExtendsTrans(l, l2, Finish(l2).1);
      }
    }
  }

  /**
   * Every transfer only consumes replies and appends to the log; once the
   * cancel flag is set in any phase, that phase and every later one leave
   * the link exactly as it is, so not a single byte, CA included, is written
   * after cancellation; and with the port closed nothing is written at all.
   */
  lemma TransferExtends(l: Link, name: string, file: Option<seq<byte>>, polls: nat)
    ensures Extends(l.(cancelled := false), Transfer(l, name, file, polls).1)
  {
    if file.Some? {
      RunExtends(l.(cancelled := false), FileInfoFrame(name, |file.value|), Frames(Chunks(file.value, 0), 1), polls);
    }
  }

  // ---------------------------------------------------------------------------
  // Cutting the file into blocks

  function Concat(blocks: seq<seq<byte>>): seq<byte>
  {
    if blocks == [] then [] else blocks[0] + Concat(blocks[1..])
  }

  /** The blocks, in order, are exactly the rest of the file. */
  lemma {:induction false} ChunksCover(content: seq<byte>, sent: nat)
    requires sent <= |content|
    ensures Concat(Chunks(content, sent)) == content[sent..]
    decreases |content| - sent
  {
    if sent < |content| {
      var c := Chunk(content, sent);
      var cs := Chunks(content, sent);
      assert cs[1..] == Chunks(content, sent + |c|);
      ChunksCover(content, sent + |c|);
      assert content[sent..] == c + content[sent + |c|..];
    }
  }

  /** Every block is 1024 bytes or at most 128, and every short block but the last is 128. */
  predicate WellSized(cs: seq<seq<byte>>)
  {
    forall i :: 0 <= i < |cs| ==> |cs[i]| == 1024 || (|cs[i]| <= 128 && (i < |cs| - 1 ==> |cs[i]| == 128))
  }

  /** The 1024-byte blocks come first. */
  predicate LongFirst(cs: seq<seq<byte>>)
  {
    forall i, j :: 0 <= i < j < |cs| && |cs[j]| == 1024 ==> |cs[i]| == 1024
  }

  lemma ConsWellSized(c: seq<byte>, rest: seq<seq<byte>>)
    requires WellSized(rest)
    requires |c| == 1024 || (|c| <= 128 && (rest != [] ==> |c| == 128))
    ensures WellSized([c] + rest)
  {
    var cs := [c] + rest;
    forall i | 0 <= i < |cs|
      ensures |cs[i]| == 1024 || (|cs[i]| <= 128 && (i < |cs| - 1 ==> |cs[i]| == 128))
    {
      if i > 0 {
        assert cs[i] == rest[i - 1];
      }
    }
  }

  lemma ConsLongFirst(c: seq<byte>, rest: seq<seq<byte>>)
    requires LongFirst(rest)
    requires |c| != 1024 ==> forall k :: 0 <= k < |rest| ==> |rest[k]| <= 128
    ensures LongFirst([c] + rest)
  {
    var cs := [c] + rest;
    forall i, j | 0 <= i < j < |cs| && |cs[j]| == 1024
      ensures |cs[i]| == 1024
    {
      assert cs[j] == rest[j - 1];
      if i > 0 {
        assert cs[i] == rest[i - 1];
      }
    }
  }

  /**
   * `send_file` reads the file in 1024-byte blocks while that many remain,
   * then in 128-byte blocks with a shorter last one.
   */
  lemma {:induction false} ChunkSizes(content: seq<byte>, sent: nat)
    ensures WellSized(Chunks(content, sent)) && LongFirst(Chunks(content, sent))
    decreases |content| - sent
  {
    if sent < |content| {
      var c := Chunk(content, sent);
      var rest := Chunks(content, sent + |c|);
      ChunksStep(content, sent, c);
      ChunkSizes(content, sent + |c|);
      if |c| != 1024 {
        // Fewer than 1024 bytes remained, so every later block is short too.
        ShortTail(content, sent + |c|);
      }
      ConsWellSized(c, rest);
      ConsLongFirst(c, rest);
    }
  }

  lemma {:induction false} ShortTail(content: seq<byte>, sent: nat)
    requires |content| - sent < 1024
    ensures forall i :: 0 <= i < |Chunks(content, sent)| ==> |Chunks(content, sent)[i]| <= 128
    decreases |content| - sent
  {
    if sent < |content| {
      ShortTail(content, sent + |Chunk(content, sent)|);
    }
  }

  // ---------------------------------------------------------------------------
  // Data blocks and their acknowledgements

  /** A reply `send_data_packet` neither accepts nor refuses: it costs one wait. */
  predicate Ignored(r: Reply)
  {
    r == Silence || (r.Byte? && r.b != ACK && r.b != NAK)
  }

  /**
   * Within one `send_data_packet`: after at most two ignored replies, an ACK
   * succeeds and a NAK fails at once, each consuming exactly what was read.
   */
  lemma {:induction false} PacketAnswered(l: Link, retry: nat, ignored: nat)
    requires l.portOpen && !l.cancelled
    requires retry + ignored < 3 && ignored < |l.replies|
    requires forall i :: 0 <= i < ignored ==> Ignored(l.replies[i])
    requires l.replies[ignored] == Byte(ACK) || l.replies[ignored] == Byte(NAK)
    ensures PacketAcks(l, retry) == (l.replies[ignored] == Byte(ACK), l.(replies := l.replies[ignored + 1..]))
    decreases ignored
  {
    var l1 := l.(replies := l.replies[1..]);
    if ignored > 0 {
      assert Receive(l) == (None, l1) || Receive(l) == (Some(l.replies[0].b), l1);
      PacketAnswered(l1, retry + 1, ignored - 1);
      assert l.replies[ignored + 1..] == l1.replies[ignored..];
    }
  }

  /** Three ignored replies exhaust `send_data_packet`'s waits: it fails after three reads. */
  lemma {:induction false} PacketTimesOut(l: Link, retry: nat)
    requires l.portOpen && !l.cancelled && retry <= 3
    requires 3 - retry <= |l.replies|
    requires forall i :: 0 <= i < 3 - retry ==> Ignored(l.replies[i])
    ensures PacketAcks(l, retry) == (false, l.(replies := l.replies[3 - retry..]))
    decreases 3 - retry
  {
    if retry < 3 {
      var l1 := l.(replies := l.replies[1..]);
      assert Receive(l) == (None, l1) || Receive(l) == (Some(l.replies[0].b), l1);
      PacketTimesOut(l1, retry + 1);
      assert l.replies[3 - retry..] == l1.replies[3 - (retry + 1)..];
    }
  }

  /** A NAKed block is sent again, the same frame, three times in all, then given up. */
  lemma RefusedBlockSentThrice(l: Link, frame: seq<byte>)
    requires l.portOpen && !l.cancelled && 3 <= |l.replies|
    requires l.replies[0] == l.replies[1] == l.replies[2] == Byte(NAK)
    ensures SendWithRetries(l, frame, 0)
      == (false, l.(replies := l.replies[3..], written := l.written + [frame, frame, frame]))
  {
    var l1 := l.(replies := l.replies[1..], written := l.written + [frame]);
    var l2 := l1.(replies := l1.replies[1..], written := l1.written + [frame]);
    var l3 := l2.(replies := l2.replies[1..], written := l2.written + [frame]);
    PacketAnswered(Write(l, frame), 0, 0);
    PacketAnswered(Write(l1, frame), 0, 0);
    PacketAnswered(Write(l2, frame), 0, 0);
    assert SendWithRetries(l2, frame, 2) == (false, l3);
    assert SendWithRetries(l1, frame, 1) == (false, l3);
    assert l.replies[3..] == l3.replies;
    assert l.written + [frame, frame, frame] == l3.written;
  }

  /** A block the device ACKs at once is written once and costs one reply. */
  lemma AckedBlock(l: Link, frame: seq<byte>)
    requires l.portOpen && !l.cancelled && l.replies != [] && l.replies[0] == Byte(ACK)
    ensures SendWithRetries(l, frame, 0)
      == (true, l.(replies := l.replies[1..], written := l.written + [frame]))
  {
    PacketAnswered(Write(l, frame), 0, 0);
  }

  /**
   * A device that ACKs every block at once receives every remaining frame,
   * in order, each once; one reply is read per block.
   */
  lemma {:induction false} DataLoopAllAcked(l: Link, frames: seq<seq<byte>>, i: nat)
    requires l.portOpen && !l.cancelled && i <= |frames|
    requires |frames| - i <= |l.replies|
    requires forall j :: 0 <= j < |frames| - i ==> l.replies[j] == Byte(ACK)
    ensures DataLoop(l, frames, i)
      == (None, l.(replies := l.replies[|frames| - i..], written := l.written + frames[i..]))
    decreases |frames| - i
  {
    if i < |frames| {
      var l1 := l.(replies := l.replies[1..], written := l.written + [frames[i]]);
      AckedBlock(l, frames[i]);
      DataLoopAllAcked(l1, frames, i + 1);
      assert l1.replies[|frames| - (i + 1)..] == l.replies[|frames| - i..];
      assert l1.written + frames[i + 1..] == l.written + frames[i..];
    } else {
      assert l.replies[0..] == l.replies && l.written + frames[i..] == l.written;
    }
  }

  // ---------------------------------------------------------------------------
  // Sync and block 0

  /**
   * `wait_for_sync` skips every reply but 'C', and on the first 'C' succeeds
   * after reading exactly one more reply, whatever it is.
   */
  lemma {:induction false} SyncOnFirstC(l: Link, polls: nat, skipped: nat)
    requires l.portOpen && !l.cancelled
    requires skipped < polls && skipped < |l.replies| && l.replies[skipped] == Byte(CRC16)
    requires forall i :: 0 <= i < skipped ==> l.replies[i] != Byte(CRC16) && l.replies[i] != CancelNow
    ensures Sync(l, polls) == (true, Receive(l.(replies := l.replies[skipped + 1..])).1)
    decreases skipped
  {
    var l1 := l.(replies := l.replies[1..]);
    if skipped > 0 {
      assert Receive(l).1 == l1;
      SyncOnFirstC(l1, polls - 1, skipped - 1);
      assert l.replies[skipped + 1..] == l1.replies[skipped..];
    }
  }

  /** Without a 'C' in its polls, `wait_for_sync` fails having read one reply per poll. */
  lemma {:induction false} SyncTimesOut(l: Link, polls: nat)
    requires l.portOpen && !l.cancelled && polls <= |l.replies|
    requires forall i :: 0 <= i < polls ==> l.replies[i] != Byte(CRC16) && l.replies[i] != CancelNow
    ensures Sync(l, polls) == (false, l.(replies := l.replies[polls..]))
    decreases polls
  {
    if polls > 0 {
      var l1 := l.(replies := l.replies[1..]);
      assert Receive(l).1 == l1;
      SyncTimesOut(l1, polls - 1);
      assert l.replies[polls..] == l1.replies[polls - 1..];
    }
  }

  /**
   * `send_file_header`'s wait: after fewer than five timeouts, an ACK makes
   * the result whether the next byte is 'C'.
   */
  lemma {:induction false} HeaderAcked(l: Link, retry: nat, silent: nat)
    requires l.portOpen && !l.cancelled
    requires retry + silent < 5 && silent + 2 <= |l.replies|
    requires forall i :: 0 <= i < silent ==> l.replies[i] == Silence
    requires l.replies[silent] == Byte(ACK) && l.replies[silent + 1].Byte?
    ensures HeaderAcks(l, retry) == (l.replies[silent + 1] == Byte(CRC16), l.(replies := l.replies[silent + 2..]))
    decreases silent
  {
    var l1 := l.(replies := l.replies[1..]);
    if silent > 0 {
      HeaderAcked(l1, retry + 1, silent - 1);
      assert l.replies[silent + 2..] == l1.replies[silent + 1..];
    } else {
      assert l1.replies[1..] == l.replies[2..];
    }
  }

  /** Any byte other than ACK fails `send_file_header` at once. */
  lemma {:induction false} HeaderRefused(l: Link, retry: nat, silent: nat)
    requires l.portOpen && !l.cancelled
    requires retry + silent < 5 && silent < |l.replies|
    requires forall i :: 0 <= i < silent ==> l.replies[i] == Silence
    requires l.replies[silent].Byte? && l.replies[silent].b != ACK
    ensures HeaderAcks(l, retry) == (false, l.(replies := l.replies[silent + 1..]))
    decreases silent
  {
    var l1 := l.(replies := l.replies[1..]);
    if silent > 0 {
      HeaderRefused(l1, retry + 1, silent - 1);
      assert l.replies[silent + 1..] == l1.replies[silent..];
    }
  }

  /** Five timeouts fail `send_file_header`. */
  lemma {:induction false} HeaderTimesOut(l: Link, retry: nat)
    requires l.portOpen && !l.cancelled && retry <= 5 && 5 - retry <= |l.replies|
    requires forall i :: 0 <= i < 5 - retry ==> l.replies[i] == Silence
    ensures HeaderAcks(l, retry) == (false, l.(replies := l.replies[5 - retry..]))
    decreases 5 - retry
  {
    if retry < 5 {
      var l1 := l.(replies := l.replies[1..]);
      HeaderTimesOut(l1, retry + 1);
      assert l.replies[5 - retry..] == l1.replies[5 - (retry + 1)..];
    }
  }

  // ---------------------------------------------------------------------------
  // End of transmission

  predicate NoCancel(replies: seq<Reply>)
  {
    forall i :: 0 <= i < |replies| ==> replies[i] != CancelNow
  }

  /** Reading without a cancel in the script leaves the log and flag alone. */
  lemma QuietReceive(l: Link)
    requires !l.cancelled && NoCancel(l.replies)
    ensures var l1 := Receive(l).1;
      l1.written == l.written && !l1.cancelled && l1.portOpen == l.portOpen
      && NoCancel(l1.replies) && |l.replies| - 1 <= |l1.replies|
  {
  }

  lemma {:induction false} AwaitNakQuiet(l: Link, retry: nat)
    requires retry <= 5 && !l.cancelled && NoCancel(l.replies)
    ensures var l1 := AwaitNak(l, retry);
      l1.written == l.written && !l1.cancelled && l1.portOpen == l.portOpen
      && NoCancel(l1.replies) && |l.replies| - (5 - retry) <= |l1.replies|
    decreases 5 - retry
  {
    if retry < 5 {
      QuietReceive(l);
      var (r, l1) := Receive(l);
      if r != Some(NAK) {
        AwaitNakQuiet(l1, retry + 1);
      }
    }
  }

  lemma {:induction false} AwaitAckQuiet(l: Link, retry: nat)
    requires retry <= 10 && !l.cancelled && NoCancel(l.replies)
    ensures var l1 := AwaitAck(l, retry).1;
      l1.written == l.written && !l1.cancelled && l1.portOpen == l.portOpen
      && |l.replies| - (10 - retry) <= |l1.replies|
    decreases 10 - retry
  {
    if retry < 10 {
      QuietReceive(l);
      var (r, l1) := Receive(l);
      if r != Some(ACK) {
        AwaitAckQuiet(l1, retry + 1);
      }
    }
  }

  /**
   * Unless the user cancels, the end of a transfer writes exactly two EOT
   * bytes whether or not the NAK comes, reads at most 5 + 10 replies, and
   * reports success whether or not the final ACK comes.
   */
  lemma FinishWritesTwoEots(l: Link)
    requires l.portOpen && !l.cancelled && NoCancel(l.replies)
    ensures Finish(l).0.ok
    ensures Finish(l).1.written == l.written + [[EOT], [EOT]]
    ensures |l.replies| - 15 <= |Finish(l).1.replies|
  {
    var l1 := Write(l, [EOT]);
    AwaitNakQuiet(l1, 0);
    var l2 := AwaitNak(l1, 0);
    AwaitAckQuiet(Write(l2, [EOT]), 0);
  }

  // ---------------------------------------------------------------------------
  // Whole transfers

  /** A device that answers the sync and block 0 as it should: the opening succeeds. */
  lemma OpeningAccepted(l: Link, header: seq<byte>, polls: nat)
    requires l.portOpen && !l.cancelled && 1 <= polls && 4 <= |l.replies|
    requires l.replies[..4] == [Byte(CRC16), Byte(CRC16), Byte(ACK), Byte(CRC16)]
    ensures Opening(l, Some(header), polls)
      == (None, l.(replies := l.replies[4..], written := l.written + [header]))
  {
    var l1 := l.(replies := l.replies[2..]);
    assert l.replies[0] == Byte(CRC16) && l.replies[1..][0] == Byte(CRC16);
    SyncOnFirstC(l, polls, 0);
    assert Sync(l, polls) == (true, l1);
    var l2 := Write(l1, header);
    assert l2.replies[0] == Byte(ACK) && l2.replies[1] == Byte(CRC16);
    HeaderAcked(l2, 0, 0);
    assert l2.replies[2..] == l.replies[4..];
  }

  /**
   * A device that answers the sync with 'C', acknowledges block 0 and then
   * NAKs every block sees block 0 and then exactly three copies of the
   * first data frame, and the transfer fails on block 1.
   */
  lemma AlwaysNakRun(l: Link, header: seq<byte>, frames: seq<seq<byte>>, polls: nat, rest: seq<Reply>)
    requires l.portOpen && !l.cancelled && 1 <= polls && frames != []
    requires l.replies == [Byte(CRC16), Byte(CRC16), Byte(ACK), Byte(CRC16), Byte(NAK), Byte(NAK), Byte(NAK)] + rest
    ensures Run(l, Some(header), frames, polls)
      == (Outcome(false, PacketFailed(1)),
          Link(true, false, rest, l.written + [header, frames[0], frames[0], frames[0]]))
  {
    OpeningAccepted(l, header, polls);
    var l2 := l.(replies := l.replies[4..], written := l.written + [header]);
    var f := frames[0];
    RefusedBlockSentThrice(l2, f);
    var l3 := l2.(replies := l2.replies[3..], written := l2.written + [f, f, f]);
    assert DataLoop(l2, frames, 0) == (Some(1), l3);
    assert Blocks(l2, frames) == (Some(Outcome(false, PacketFailed(1))), l3);
    assert l.replies[4..][3..] == rest;
    assert l.written + [header] + [f, f, f] == l.written + [header, f, f, f];
    assert l3 == Link(true, false, rest, l.written + [header, f, f, f]);
  }

  /** The same for `send_file` itself: three copies of the frame of block 1. */
  lemma AlwaysNakDevice(l: Link, name: string, content: seq<byte>, polls: nat, rest: seq<Reply>)
    requires l.portOpen && 1 <= polls && content != []
    requires FileInfoFrame(name, |content|).Some?
    requires l.replies == [Byte(CRC16), Byte(CRC16), Byte(ACK), Byte(CRC16), Byte(NAK), Byte(NAK), Byte(NAK)] + rest
    ensures var f := DataFrame(1, Chunk(content, 0));
      Transfer(l, name, Some(content), polls)
      == (Outcome(false, PacketFailed(1)),
          Link(true, false, rest, l.written + [FileInfoFrame(name, |content|).value, f, f, f]))
  {
    var blocks := Chunks(content, 0);
    ChunksStep(content, 0, Chunk(content, 0));
    FrameAt(blocks, 0);
    AlwaysNakRun(l.(cancelled := false), FileInfoFrame(name, |content|).value, Frames(blocks, 1), polls, rest);
  }

  /**
   * A device that answers everything as it should receives block 0, every
   * data frame once and in order, and two EOTs; the transfer ends confirmed.
   */
  lemma CooperativeRun(l: Link, header: seq<byte>, frames: seq<seq<byte>>, polls: nat, rest: seq<Reply>)
    requires l.portOpen && !l.cancelled && 1 <= polls
    requires l.replies == [Byte(CRC16), Byte(CRC16), Byte(ACK), Byte(CRC16)] + seq(|frames|, _ => Byte(ACK))
                          + [Byte(NAK), Byte(ACK)] + rest
    ensures Run(l, Some(header), frames, polls)
      == (Outcome(true, Sent), Link(true, false, rest, l.written + [header] + frames + [[EOT], [EOT]]))
  {
    var k := |frames|;
    AcksThenEnd(l.replies, k, rest);
    OpeningAccepted(l, header, polls);
    var l2 := l.(replies := l.replies[4..], written := l.written + [header]);
    DataLoopAllAcked(l2, frames, 0);
    assert frames[0..] == frames;
    var l3 := l2.(replies := [Byte(NAK), Byte(ACK)] + rest, written := l2.written + frames);
    assert Blocks(l2, frames) == (None, l3);
    FinishAnswered(l3, rest);
  }

  lemma AcksThenEnd(replies: seq<Reply>, k: nat, rest: seq<Reply>)
    requires replies == [Byte(CRC16), Byte(CRC16), Byte(ACK), Byte(CRC16)] + seq(k, _ => Byte(ACK))
                        + [Byte(NAK), Byte(ACK)] + rest
    ensures replies[..4] == [Byte(CRC16), Byte(CRC16), Byte(ACK), Byte(CRC16)]
    ensures forall j :: 0 <= j < k ==> replies[4..][j] == Byte(ACK)
    ensures replies[4..][k..] == [Byte(NAK), Byte(ACK)] + rest
  {
  }

  /** An end of transmission answered by NAK and then ACK: two EOTs, two replies, confirmed. */
  lemma FinishAnswered(l: Link, rest: seq<Reply>)
    requires l.portOpen && !l.cancelled && l.replies == [Byte(NAK), Byte(ACK)] + rest
    ensures Finish(l) == (Outcome(true, Sent), l.(replies := rest, written := l.written + [[EOT], [EOT]]))
  {
    var l1 := Write(l, [EOT]);
    assert l1.replies[1..] == [Byte(ACK)] + rest;
    assert AwaitNak(l1, 0) == l1.(replies := [Byte(ACK)] + rest);
    var l2 := Write(AwaitNak(l1, 0), [EOT]);
    assert l2.replies[1..] == rest;
    assert AwaitAck(l2, 0) == (true, l2.(replies := rest));
    assert l.written + [[EOT]] + [[EOT]] == l.written + [[EOT], [EOT]];
  }

  /**
   * The same for `send_file` itself: the device receives block 0 and the
   * file cut into blocks, numbered from 1, which together are the file.
   */
  lemma CooperativeDevice(l: Link, name: string, content: seq<byte>, polls: nat, rest: seq<Reply>)
    requires l.portOpen && 1 <= polls
    requires FileInfoFrame(name, |content|).Some?
    requires l.replies == [Byte(CRC16), Byte(CRC16), Byte(ACK), Byte(CRC16)]
                          + seq(|Chunks(content, 0)|, _ => Byte(ACK)) + [Byte(NAK), Byte(ACK)] + rest
    ensures Transfer(l, name, Some(content), polls)
      == (Outcome(true, Sent),
          Link(true, false, rest,
               l.written + [FileInfoFrame(name, |content|).value] + Frames(Chunks(content, 0), 1)
               + [[EOT], [EOT]]))
    ensures Concat(Chunks(content, 0)) == content
  {
    CooperativeRun(l.(cancelled := false), FileInfoFrame(name, |content|).value, Frames(Chunks(content, 0), 1), polls, rest);
    ChunksCover(content, 0);
    assert content[0..] == content;
  }
}
