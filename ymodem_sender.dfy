/**
 * The host's YMODEM sender, `SimpleYModemSender`.
 *
 * The serial port is a scripted channel: the replies the device will give,
 * one per read, where `Silence` is a read that times out and `CancelNow` is
 * the user pressing cancel while the sender is blocked in that read (the
 * read then returns nothing). Every `write` appends the bytes written to a
 * log. Wall-clock timeouts become a bounded number of polls.
 *
 * `Link` is the state the sender's methods change; each phase of the
 * transfer is first a pure function from one `Link` to the next, and the
 * methods of class `Sender` are proved to compute exactly those functions.
 */
module YmodemSender {
  import opened Wrappers
  import opened Bytes
  import opened YmodemFrames

  datatype Reply = Byte(b: byte) | Silence | CancelNow

  /** The port (open or not), the cancel flag, the replies still to come, and what was written. */
  datatype Link = Link(portOpen: bool, cancelled: bool, replies: seq<Reply>, written: seq<seq<byte>>)

  /** The message part of `send_file`'s `(ok, message)` result. */
  datatype Reason =
    | Cancelled
    | FileMissing
    | SyncFailed
    | HeaderFailed
    | PacketFailed(n: nat)
    | Raised          // an exception inside the transfer, caught by `send_file`
    | Sent
    | SentUnconfirmed // all blocks went out, but the final ACK never came

  datatype Outcome = Outcome(ok: bool, reason: Reason)

  // ---------------------------------------------------------------------------
  // The port

  /** `send_byte` / `send_data`: nothing is written without a port or once cancelled. */
  function Write(l: Link, d: seq<byte>): (r: Link)
    ensures r.replies == l.replies && r.cancelled == l.cancelled && r.portOpen == l.portOpen
    ensures r.written == if l.portOpen && !l.cancelled then l.written + [d] else l.written
  {
    if l.portOpen && !l.cancelled then l.(written := l.written + [d]) else l
  }

  /** `cancel_transfer`: the flag is set first, so its two CA bytes are never written. */
  function Cancel(l: Link): Link
  {
    Write(Write(l.(cancelled := true), [CA]), [CA])
  }

  /** `receive_byte`: no read without a port or once cancelled; otherwise the next reply. */
  function Receive(l: Link): (Option<byte>, Link)
  {
    if !l.portOpen || l.cancelled || l.replies == [] then (None, l)
    else
      var rest := l.(replies := l.replies[1..]);
      match l.replies[0]
      case Byte(b) => (Some(b), rest)
      case Silence => (None, rest)
      case CancelNow => (None, Cancel(rest))
  }

  // ---------------------------------------------------------------------------
  // The phases of a transfer

  /** `wait_for_sync`: poll until a 'C', then read one more byte, whatever it is. */
  function Sync(l: Link, polls: nat): (bool, Link)
    decreases polls
  {
    if polls == 0 || l.cancelled then (false, l)
    else
      var (b, l1) := Receive(l);
      if b == Some(CRC16) then (true, Receive(l1).1)
      else Sync(l1, polls - 1)
  }

  /** The acknowledgement loop of `send_file_header`, from its `retry`-th timeout on. */
  function HeaderAcks(l: Link, retry: nat): (bool, Link)
    decreases 5 - retry
  {
    if retry >= 5 || l.cancelled then (false, l)
    else
      var (a, l1) := Receive(l);
      if a == Some(ACK) then
        var (c, l2) := Receive(l1);
        (c == Some(CRC16), l2)
      else if a.None? then HeaderAcks(l1, retry + 1)
      else (false, l1)
  }

  /** `send_file_header` once block 0 is built, or None when building it raised. */
  function SendHeader(l: Link, header: Option<seq<byte>>): (Option<bool>, Link)
  {
    match header
    case None => (None, l)
    case Some(frame) =>
      var (ok, l1) := HeaderAcks(Write(l, frame), 0);
      (Some(ok), l1)
  }

  /** The acknowledgement loop of `send_data_packet`, from its `retry`-th wait on. */
  function PacketAcks(l: Link, retry: nat): (bool, Link)
    decreases 3 - retry
  {
    if retry >= 3 || l.cancelled then (false, l)
    else
      var (a, l1) := Receive(l);
      if a == Some(ACK) then (true, l1)
      else if a == Some(NAK) then (false, l1)
      else PacketAcks(l1, retry + 1)
  }

  /** `send_data_packet`, whose frame is `frame`. */
  function SendPacket(l: Link, frame: seq<byte>): (bool, Link)
  {
    if l.cancelled then (false, l)
    else PacketAcks(Write(l, frame), 0)
  }

  /** `send_file`'s retry loop around one block, from its `retry`-th attempt on. */
  function SendWithRetries(l: Link, frame: seq<byte>, retry: nat): (bool, Link)
    decreases 3 - retry
  {
    if retry >= 3 then (false, l)
    else
      var (ok, l1) := SendPacket(l, frame);
      if ok then (true, l1)
      else if l1.cancelled then (false, l1)
      else SendWithRetries(l1, frame, retry + 1)
  }

  /** The block read at offset `sent`: 1024 bytes while that many remain, else at most 128. */
  function Chunk(content: seq<byte>, sent: nat): (r: seq<byte>)
    requires sent < |content|
    ensures 1 <= |r| && sent + |r| <= |content|
    ensures r == content[sent..sent + |r|]
    ensures |r| == 1024 || |r| <= 128
  {
    var remaining := |content| - sent;
    if remaining >= 1024 then content[sent..sent + 1024]
    else content[sent..sent + if remaining < 128 then remaining else 128]
  }

  /** The blocks `send_file` reads from offset `sent` on. */
  function Chunks(content: seq<byte>, sent: nat): seq<seq<byte>>
    decreases |content| - sent
  {
    if sent >= |content| then []
    else [Chunk(content, sent)] + Chunks(content, sent + |Chunk(content, sent)|)
  }

  lemma ChunksStep(content: seq<byte>, sent: nat, c: seq<byte>)
    requires sent < |content| && c == Chunk(content, sent)
    ensures Chunks(content, sent) == [c] + Chunks(content, sent + |c|)
  {
  }

  /** The frames of `blocks`, numbered from `n`. */
  function Frames(blocks: seq<seq<byte>>, n: nat): (r: seq<seq<byte>>)
    ensures |r| == |blocks|
  {
    seq(|blocks|, i requires 0 <= i < |blocks| => DataFrame(n + i, blocks[i]))
  }

  /** The block loop reads block k at offset `sent`, then moves past it. */
  lemma NextBlock(content: seq<byte>, sent: nat, blocks: seq<seq<byte>>, k: nat)
    requires sent < |content| && k <= |blocks| && blocks[k..] == Chunks(content, sent)
    ensures k < |blocks| && blocks[k] == Chunk(content, sent)
    ensures blocks[k + 1..] == Chunks(content, sent + |Chunk(content, sent)|)
  {
    ChunksStep(content, sent, Chunk(content, sent));
    assert blocks[k + 1..] == blocks[k..][1..];
  }

  lemma NoBlockLeft(content: seq<byte>, sent: nat, blocks: seq<seq<byte>>, k: nat)
    requires |content| <= sent && k <= |blocks| && blocks[k..] == Chunks(content, sent)
    ensures k == |Frames(blocks, 1)|
  {
  }

  /** Frame k of `Frames(blocks, 1)` is block k under number k + 1. */
  lemma FrameAt(blocks: seq<seq<byte>>, k: nat)
    requires k < |blocks|
    ensures Frames(blocks, 1)[k] == DataFrame(k + 1, blocks[k])
  {
  }

  /**
   * `send_file`'s block loop from block `i` of `frames` on (the frame of
   * block number i + 1); Some(i + 1) when that block fails.
   */
  function DataLoop(l: Link, frames: seq<seq<byte>>, i: nat): (Option<nat>, Link)
    decreases |frames| - i
  {
    if l.cancelled || i >= |frames| then (None, l)
    else
      var (ok, l1) := SendWithRetries(l, frames[i], 0);
      if !ok then (Some(i + 1), l1)
      else DataLoop(l1, frames, i + 1)
  }

  /** One turn of the block loop on block k, whose frame is built from its number and data. */
  lemma DataLoopStep(l: Link, blocks: seq<seq<byte>>, k: nat)
    requires k < |blocks| && !l.cancelled
    ensures var (ok, l1) := SendWithRetries(l, DataFrame(k + 1, blocks[k]), 0);
      DataLoop(l, Frames(blocks, 1), k) == if ok then DataLoop(l1, Frames(blocks, 1), k + 1) else (Some(k + 1), l1)
  {
    FrameAt(blocks, k);
  }

  /**
   * One turn of the block loop seen from the start of the loop, on the
   * block read at offset `sent`: it is block k, the rest of the blocks are
   * read after it, and success leaves the rest of the loop to do while
   * failure ends it on block k + 1.
   */
  lemma BlockTurn(content: seq<byte>, sent: nat, blocks: seq<seq<byte>>, k: nat,
                  start: Link, before: Link, ok: bool, after: Link)
    requires sent < |content| && k <= |blocks| && blocks[k..] == Chunks(content, sent)
    requires !before.cancelled
    requires DataLoop(before, Frames(blocks, 1), k) == DataLoop(start, Frames(blocks, 1), 0)
    requires (ok, after) == SendWithRetries(before, DataFrame(k + 1, Chunk(content, sent)), 0)
    ensures k < |blocks| && blocks[k + 1..] == Chunks(content, sent + |Chunk(content, sent)|)
    ensures ok ==> DataLoop(after, Frames(blocks, 1), k + 1) == DataLoop(start, Frames(blocks, 1), 0)
    ensures !ok ==> Blocks(start, Frames(blocks, 1)) == (Some(Outcome(false, PacketFailed(k + 1))), after)
  {
    NextBlock(content, sent, blocks, k);
    DataLoopStep(before, blocks, k);
  }

  /** The block loop left with the link cancelled or every block sent. */
  lemma BlocksExit(start: Link, l: Link, frames: seq<seq<byte>>, k: nat)
    requires l.cancelled || k >= |frames|
    requires DataLoop(l, frames, k) == DataLoop(start, frames, 0)
    ensures Blocks(start, frames) == (if l.cancelled then Some(Outcome(false, Cancelled)) else None, l)
  {
  }

  /** Up to five reads waiting for the NAK that answers the first EOT. */
  function AwaitNak(l: Link, retry: nat): Link
    decreases 5 - retry
  {
    if retry >= 5 then l
    else
      var (r, l1) := Receive(l);
      if r == Some(NAK) then l1 else AwaitNak(l1, retry + 1)
  }

  /** Up to ten reads waiting for the ACK that answers the second EOT. */
  function AwaitAck(l: Link, retry: nat): (bool, Link)
    decreases 10 - retry
  {
    if retry >= 10 then (false, l)
    else
      var (r, l1) := Receive(l);
      if r == Some(ACK) then (true, l1) else AwaitAck(l1, retry + 1)
  }

  /** The end of `send_file`: EOT, wait for NAK, EOT, wait for ACK; it succeeds either way. */
  function Finish(l: Link): (Outcome, Link)
  {
    var l1 := AwaitNak(Write(l, [EOT]), 0);
    var (ack, l2) := AwaitAck(Write(l1, [EOT]), 0);
    (Outcome(true, if ack then Sent else SentUnconfirmed), l2)
  }

  /**
   * The opening of `send_file`: sync, then block 0, checking the cancel flag
   * after each. None when the data blocks may follow.
   */
  function Opening(l: Link, header: Option<seq<byte>>, polls: nat): (Option<Outcome>, Link)
  {
    var (synced, l1) := Sync(l, polls);
    if !synced then (Some(Outcome(false, SyncFailed)), l1)
    else if l1.cancelled then (Some(Outcome(false, Cancelled)), l1)
    else
      var (acked, l2) := SendHeader(l1, header);
      if acked.None? then (Some(Outcome(false, Raised)), l2)
      else if !acked.value then (Some(Outcome(false, HeaderFailed)), l2)
      else if l2.cancelled then (Some(Outcome(false, Cancelled)), l2)
      else (None, l2)
  }

  /** The data blocks of `send_file` and the cancel check after them. None when EOT may follow. */
  function Blocks(l: Link, frames: seq<seq<byte>>): (Option<Outcome>, Link)
  {
    var (failed, l1) := DataLoop(l, frames, 0);
    if failed.Some? then (Some(Outcome(false, PacketFailed(failed.value))), l1)
    else if l1.cancelled then (Some(Outcome(false, Cancelled)), l1)
    else (None, l1)
  }

  /** A transfer with block 0 (None when building it raised) and the data frames already built. */
  function Run(l: Link, header: Option<seq<byte>>, frames: seq<seq<byte>>, polls: nat): (Outcome, Link)
  {
    var (opening, l1) := Opening(l, header, polls);
    if opening.Some? then (opening.value, l1)
    else
      var (blocks, l2) := Blocks(l1, frames);
      if blocks.Some? then (blocks.value, l2)
      else Finish(l2)
  }

  /**
   * `send_file` for a file with the given name and contents (None when it
   * does not exist): reset the cancel flag, then the opening, the data
   * blocks and the end of transmission, with block 0 built from the name
   * and size and the data frames from the file cut into blocks numbered
   * from 1. Each frame is a function of its block, so building it ahead
   * of its turn changes nothing.
   */
  function Transfer(l: Link, name: string, file: Option<seq<byte>>, polls: nat): (Outcome, Link)
  {
    var l0 := l.(cancelled := false);
    if file.None? then (Outcome(false, FileMissing), l0)
    else Run(l0, FileInfoFrame(name, |file.value|), Frames(Chunks(file.value, 0), 1), polls)
  }

  // ---------------------------------------------------------------------------
  // The sender object

  class Sender {
    var portOpen: bool
    var isCancelled: bool
    var replies: seq<Reply>
    var written: seq<seq<byte>>

    function State(): Link
      reads this
    {
      Link(portOpen, isCancelled, replies, written)
    }

    /** A sender whose port is open or not, before any transfer. */
    constructor(portOpen: bool, replies: seq<Reply>)
      ensures State() == Link(portOpen, false, replies, [])
    {
      this.portOpen := portOpen;
      this.isCancelled := false;
      this.replies := replies;
      this.written := [];
    }

    method SendByte(b: byte)
      modifies this
      ensures State() == Write(old(State()), [b])
    {
      if portOpen && !isCancelled {
        written := written + [[b]];
      }
    }

    method SendData(data: seq<byte>)
      modifies this
      ensures State() == Write(old(State()), data)
    {
      if portOpen && !isCancelled {
        written := written + [data];
      }
    }

    method ReceiveByte() returns (r: Option<byte>)
      modifies this
      ensures (r, State()) == Receive(old(State()))
    {
      if !portOpen || isCancelled || replies == [] {
        return None;
      }
      var reply := replies[0];
      replies := replies[1..];
      match reply
      case Byte(b) =>
        r := Some(b);
      case Silence =>
        r := None;
      case CancelNow =>
        CancelTransfer();
        r := None;
    }

    method CancelTransfer()
      modifies this
      ensures State() == Cancel(old(State()))
    {
      isCancelled := true;
      if portOpen {
        SendByte(CA);
        SendByte(CA);
      }
    }

    method WaitForSync(polls: nat) returns (ok: bool)
      modifies this
      ensures (ok, State()) == Sync(old(State()), polls)
    {
      var waited := 0;
      while waited < polls && !isCancelled
        invariant waited <= polls
        invariant Sync(State(), polls - waited) == Sync(old(State()), polls)
      {
        var b := ReceiveByte();
        if b == Some(CRC16) {
          var extra := ReceiveByte();
          return true;
        }
        waited := waited + 1;
      }
      return false;
    }

    /** `send_file_header`; None when building block 0 raises `IndexError`. */
    method SendFileHeader(name: string, size: nat) returns (r: Option<bool>)
      modifies this
      ensures (r, State()) == SendHeader(old(State()), FileInfoFrame(name, size))
    {
      var header := BuildFileInfoFrame(name, size);
      if header.None? {
        return None;
      }
      SendData(header.value);
      ghost var start := State();
      var ackRetry := 0;
      while ackRetry < 5 && !isCancelled
        invariant ackRetry <= 5
        invariant HeaderAcks(State(), ackRetry) == HeaderAcks(start, 0)
        decreases 5 - ackRetry
      {
        var ack := ReceiveByte();
        if ack == Some(ACK) {
          var secondC := ReceiveByte();
          return Some(secondC == Some(CRC16));
        } else if ack.None? {
          ackRetry := ackRetry + 1;
        } else {
          return Some(false);
        }
      }
      return Some(false);
    }

    method SendDataPacket(n: nat, data: seq<byte>) returns (ok: bool)
      modifies this
      ensures (ok, State()) == SendPacket(old(State()), DataFrame(n, data))
    {
      if isCancelled {
        return false;
      }
      var packet := BuildDataFrame(n, data);
      SendData(packet);
      ghost var start := State();
      var ackRetry := 0;
      while ackRetry < 3 && !isCancelled
        invariant ackRetry <= 3
        invariant PacketAcks(State(), ackRetry) == PacketAcks(start, 0)
        decreases 3 - ackRetry
      {
        var ack := ReceiveByte();
        if ack == Some(ACK) {
          return true;
        } else if ack == Some(NAK) {
          return false;
        }
        ackRetry := ackRetry + 1;
      }
      return false;
    }

    /** The part of `reset_transfer_state` this model keeps: the cancel flag is cleared. */
    method ResetTransferState()
      modifies this
      ensures State() == old(State()).(cancelled := false)
    {
      isCancelled := false;
    }

    /** `send_file`: the outcome and the new state are those of `Transfer`. */
    method SendFile(name: string, file: Option<seq<byte>>, polls: nat) returns (outcome: Outcome)
      modifies this
      ensures (outcome, State()) == Transfer(old(State()), name, file, polls)
    {
      ResetTransferState();
      if file.None? {
        return Outcome(false, FileMissing);
      }
      var content := file.value;
      var failure := Open(name, |content|, polls);
      if failure.Some? {
        return failure.value;
      }
      failure := SendBlocks(content);
      if failure.Some? {
        return failure.value;
      }
      outcome := EndTransfer();
    }

    /** Sync and block 0, as `send_file` starts a transfer. */
    method Open(name: string, fileSize: nat, polls: nat) returns (failure: Option<Outcome>)
      modifies this
      ensures (failure, State()) == Opening(old(State()), FileInfoFrame(name, fileSize), polls)
    {
      var synced := WaitForSync(polls);
      if !synced {
        return Some(Outcome(false, SyncFailed));
      }
      if isCancelled {
        return Some(Outcome(false, Cancelled));
      }
      var header := SendFileHeader(name, fileSize);
      if header.None? {
        return Some(Outcome(false, Raised));
      }
      if !header.value {
        return Some(Outcome(false, HeaderFailed));
      }
      if isCancelled {
        return Some(Outcome(false, Cancelled));
      }
      return None;
    }

    /** `send_file`'s block loop: 1024-byte blocks while that many remain, then 128-byte ones. */
    method SendBlocks(content: seq<byte>) returns (failure: Option<Outcome>)
      modifies this
      ensures (failure, State()) == Blocks(old(State()), Frames(Chunks(content, 0), 1))
    {
      ghost var start := State();
      ghost var blocks := Chunks(content, 0);
      ghost var frames := Frames(blocks, 1);
      var fileSize := |content|;
      var packetNum: nat := 1;
      var bytesSent: nat := 0;
      while !isCancelled && bytesSent < fileSize
        invariant bytesSent <= fileSize && 1 <= packetNum <= |blocks| + 1
        invariant blocks[packetNum - 1..] == Chunks(content, bytesSent)
        invariant DataLoop(State(), frames, packetNum - 1) == DataLoop(start, frames, 0)
        decreases fileSize - bytesSent
      {
        var data := Chunk(content, bytesSent);
        ghost var offset := bytesSent;
        bytesSent := bytesSent + |data|;
        ghost var before := State();
        var success := SendBlock(packetNum, data);
        BlockTurn(content, offset, blocks, packetNum - 1, start, before, success, State());
        if !success {
          return Some(Outcome(false, PacketFailed(packetNum)));
        }
        packetNum := packetNum + 1;
      }
      if !isCancelled {
        NoBlockLeft(content, bytesSent, blocks, packetNum - 1);
      }
      BlocksExit(start, State(), frames, packetNum - 1);
      if isCancelled {
        return Some(Outcome(false, Cancelled));
      }
      return None;
    }

    /** `send_file`'s `for retry in range(3)` around one block. */
    method SendBlock(n: nat, data: seq<byte>) returns (success: bool)
      modifies this
      ensures (success, State()) == SendWithRetries(old(State()), DataFrame(n, data), 0)
    {
      ghost var start := State();
      success := false;
      var retry := 0;
      while retry < 3
        invariant retry <= 3
        invariant SendWithRetries(State(), DataFrame(n, data), retry) == SendWithRetries(start, DataFrame(n, data), 0)
        decreases 3 - retry
      {
        var ok := SendDataPacket(n, data);
        if ok {
          return true;
        } else if isCancelled {
          return false;
        }
        retry := retry + 1;
      }
    }

    /** The EOT handshake at the end of `send_file`. */
    method EndTransfer() returns (outcome: Outcome)
      modifies this
      ensures (outcome, State()) == Finish(old(State()))
    {
      SendByte(EOT);
      ghost var afterEot := State();
      var retry := 0;
      while retry < 5
        invariant retry <= 5
        invariant AwaitNak(State(), retry) == AwaitNak(afterEot, 0)
      {
        var response := ReceiveByte();
        if response == Some(NAK) {
          break;
        }
        retry := retry + 1;
      }
      SendByte(EOT);
      ghost var afterSecondEot := State();
      var ackReceived := false;
      retry := 0;
      while retry < 10
        invariant retry <= 10
        invariant AwaitAck(State(), retry) == AwaitAck(afterSecondEot, 0)
      {
        var response := ReceiveByte();
        if response == Some(ACK) {
          ackReceived := true;
          break;
        }
        retry := retry + 1;
      }
      outcome := Outcome(true, if ackReceived then Sent else SentUnconfirmed);
    }
  }
}
