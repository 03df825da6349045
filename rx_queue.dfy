/**
 * The device's receive path: the circular byte queue `seq_queue_t` that the
 * USART interrupt fills one byte at a time, and the download buffer
 * `download_buf_t` into which the TIM3 interrupt drains a whole burst before
 * handing it to the YMODEM frame handler. Both receivers of the system
 * declare the same queue and the same drain loop.
 */
module RxQueue {
  import opened Bytes

  const MAX_QUEUE_SIZE: nat := 1200
  const DOWNLOAD_BUF_SIZE: nat := 1200

  /**
   * The bytes held by a ring of slots, oldest first: `count` slots starting
   * at `front`, wrapping round the end of the array.
   */
  function Ring(slots: seq<byte>, front: int, count: int): (r: seq<byte>)
    requires |slots| == MAX_QUEUE_SIZE
    requires 0 <= front < MAX_QUEUE_SIZE && 0 <= count <= MAX_QUEUE_SIZE
    ensures |r| == count
  {
    seq(count, i requires 0 <= i < count => slots[(front + i) % MAX_QUEUE_SIZE])
  }

  /** Distinct offsets below the capacity reach distinct slots. */
  lemma DistinctSlots(front: int, i: int, j: int)
    requires 0 <= front < MAX_QUEUE_SIZE && 0 <= i < j < MAX_QUEUE_SIZE
    ensures (front + i) % MAX_QUEUE_SIZE != (front + j) % MAX_QUEUE_SIZE
  {
    if front + j < MAX_QUEUE_SIZE {
    } else if front + i < MAX_QUEUE_SIZE {
      assert (front + j) % MAX_QUEUE_SIZE == front + j - MAX_QUEUE_SIZE;
    } else {
      assert (front + j) % MAX_QUEUE_SIZE == front + j - MAX_QUEUE_SIZE;
      assert (front + i) % MAX_QUEUE_SIZE == front + i - MAX_QUEUE_SIZE;
    }
  }

  /** Adding whole turns of the ring does not move a slot. */
  lemma {:induction false} AddTurns(x: int, q: nat)
    ensures (x + q * MAX_QUEUE_SIZE) % MAX_QUEUE_SIZE == x % MAX_QUEUE_SIZE
    decreases q
  {
    if q > 0 {
      AddTurns(x, q - 1);
      assert x + q * MAX_QUEUE_SIZE == (x + (q - 1) * MAX_QUEUE_SIZE) + MAX_QUEUE_SIZE;
    }
  }

  lemma StepMod(a: int, k: int)
    requires 0 <= a && 0 <= k
    ensures ((a % MAX_QUEUE_SIZE) + k) % MAX_QUEUE_SIZE == (a + k) % MAX_QUEUE_SIZE
  {
    var q := a / MAX_QUEUE_SIZE;
    assert a == q * MAX_QUEUE_SIZE + a % MAX_QUEUE_SIZE;
    AddTurns(a % MAX_QUEUE_SIZE + k, q);
  }

  /** Storing at the slot after the last one adds that byte at the back. */
  lemma RingPush(slots: seq<byte>, front: int, count: int, x: byte)
    requires |slots| == MAX_QUEUE_SIZE
    requires 0 <= front < MAX_QUEUE_SIZE && 0 <= count < MAX_QUEUE_SIZE
    ensures Ring(slots[(front + count) % MAX_QUEUE_SIZE := x], front, count + 1) == Ring(slots, front, count) + [x]
  {
    var rear := (front + count) % MAX_QUEUE_SIZE;
    var a, b := Ring(slots[rear := x], front, count + 1), Ring(slots, front, count) + [x];
    forall i | 0 <= i < count + 1
      ensures a[i] == b[i]
    {
      if i < count {
        DistinctSlots(front, i, count);
      }
    }
  }

  /** Advancing `front` by one slot drops the oldest byte. */
  lemma RingPop(slots: seq<byte>, front: int, count: int)
    requires |slots| == MAX_QUEUE_SIZE
    requires 0 <= front < MAX_QUEUE_SIZE && 0 < count <= MAX_QUEUE_SIZE
    ensures Ring(slots, (front + 1) % MAX_QUEUE_SIZE, count - 1) == Ring(slots, front, count)[1..]
  {
    var a, b := Ring(slots, (front + 1) % MAX_QUEUE_SIZE, count - 1), Ring(slots, front, count)[1..];
    forall i | 0 <= i < count - 1
      ensures a[i] == b[i]
    {
      StepMod(front + 1, i);
    }
  }

  /**
   * The queue's full test, `count > 0 && rear == front`, holds exactly when
   * all 1200 slots are taken, as long as `rear` is `count` slots past `front`.
   */
  lemma FullIffAtCapacity(front: int, rear: int, count: int)
    requires 0 <= front < MAX_QUEUE_SIZE && 0 <= count <= MAX_QUEUE_SIZE
    requires rear == (front + count) % MAX_QUEUE_SIZE
    ensures (count > 0 && rear == front) <==> count == MAX_QUEUE_SIZE
  {
    if 0 < count < MAX_QUEUE_SIZE {
      DistinctSlots(front, 0, count);
    }
  }

  /** `seq_queue_t`: 1200 byte slots with the indices of the oldest byte and the next free slot. */
  class Queue {
    const queue: array<byte>
    var rear: int
    var front: int
    var count: int

    /** The indices stay in range and `rear` is always `count` slots past `front`. */
    ghost predicate Valid()
      reads this
    {
      queue.Length == MAX_QUEUE_SIZE
      && 0 <= front < MAX_QUEUE_SIZE && 0 <= rear < MAX_QUEUE_SIZE
      && 0 <= count <= MAX_QUEUE_SIZE
      && rear == (front + count) % MAX_QUEUE_SIZE
    }

    /** The queued bytes, oldest first. */
    ghost function Contents(): seq<byte>
      reads this, queue
      requires Valid()
    {
      Ring(queue[..], front, count)
    }

    /** The statically allocated queue: zeroed slots, nothing queued. */
    constructor()
      ensures Valid() && Contents() == [] && fresh(queue)
    {
      queue := new byte[MAX_QUEUE_SIZE](_ => 0);
      rear, front, count := 0, 0, 0;
    }

    /** `queue_initiate`: forget everything queued; the slots are left as they are. */
    method Initiate()
      requires queue.Length == MAX_QUEUE_SIZE
      modifies this
      ensures Valid() && Contents() == []
      ensures unchanged(queue)
    {
      rear := 0;
      front := 0;
      count := 0;
    }

    /** `queue_not_empty`: 1 exactly when some byte is queued. */
    method NotEmpty() returns (r: int)
      requires Valid()
      ensures r == 0 || r == 1
      ensures r == 1 <==> Contents() != []
    {
      if count != 0 {
        r := 1;
      } else {
        r := 0;
      }
    }

    /**
     * `queue_append`: a full queue refuses the byte (result 0) and is left
     * as it was; otherwise the byte joins the back (result 1).
     */
    method Append(x: byte) returns (r: int)
      requires Valid()
      modifies this, queue
      ensures Valid()
      ensures |old(Contents())| == MAX_QUEUE_SIZE ==> r == 0 && unchanged(this, queue)
      ensures |old(Contents())| < MAX_QUEUE_SIZE ==> r == 1 && Contents() == old(Contents()) + [x]
    {
      FullIffAtCapacity(front, rear, count);
      if count > 0 && rear == front {
        return 0;
      }
      RingPush(queue[..], front, count, x);
      queue[rear] := x;
      rear := (rear + 1) % MAX_QUEUE_SIZE;
      count := count + 1;
      StepMod(front + count - 1, 1);
      r := 1;
    }

    /**
     * `queue_delete`: an empty queue gives result 0 and writes nothing;
     * otherwise the oldest byte leaves the queue and is stored at `dst[i]`
     * (result 1). The destination may point one past the end of its array
     * as long as nothing is queued.
     */
    method Delete(dst: array<byte>, i: int) returns (r: int)
      requires Valid() && dst != queue
      requires 0 <= i <= dst.Length
      requires count > 0 ==> i < dst.Length
      modifies this, dst
      ensures Valid()
      ensures old(Contents()) == [] ==> r == 0 && unchanged(this, dst)
      ensures old(Contents()) != [] ==>
                r == 1 && Contents() == old(Contents())[1..]
                && dst[..] == old(dst[..])[i := old(Contents())[0]]
    {
      if count == 0 {
        return 0;
      }
      RingPop(queue[..], front, count);
      dst[i] := queue[front];
      front := (front + 1) % MAX_QUEUE_SIZE;
      count := count - 1;
      StepMod(front + count, 1);
      r := 1;
    }
  }

  /** `download_buf_t`: a 1200-byte frame buffer and the number of bytes it holds. */
  class DownloadBuf {
    const data: array<byte>
    var len: int

    constructor()
      ensures data.Length == DOWNLOAD_BUF_SIZE && len == 0 && fresh(data)
    {
      data := new byte[DOWNLOAD_BUF_SIZE](_ => 0);
      len := 0;
    }
  }

  /** One more byte taken from the queue extends the copied prefix by one. */
  lemma CopiedOne(d0: seq<byte>, d1: seq<byte>, queued: seq<byte>, before: seq<byte>, n: int)
    requires 0 <= n < |d0| == |before| && n < |queued|
    requires d1 == d0[n := queued[n]]
    requires d0[..n] == queued[..n] && d0[n..] == before[n..]
    ensures d1[..n + 1] == queued[..n + 1] && d1[n + 1..] == before[n + 1..]
  {
    assert d1[..n + 1] == d0[..n] + [queued[n]];
    assert queued[..n + 1] == queued[..n] + [queued[n]];
    assert d1[n + 1..] == d0[n + 1..];
    assert d0[n + 1..] == d0[n..][1..];
  }

  /**
   * The drain loop of `TIM3_IRQHandler`: `len` restarts at 0 and every
   * queued byte moves, oldest first, to `data[len++]` until a delete fails.
   * The queue ends empty, `len` is the number of bytes that were queued,
   * and the buffer beyond them keeps whatever an earlier burst left there.
   */
  method Drain(q: Queue, buf: DownloadBuf)
    requires q.Valid() && buf.data.Length == DOWNLOAD_BUF_SIZE && buf.data != q.queue
    modifies q, buf, buf.data
    ensures q.Valid() && q.Contents() == []
    ensures buf.len == |old(q.Contents())|
    ensures buf.data[..buf.len] == old(q.Contents())
    ensures buf.data[buf.len..] == old(buf.data[..])[buf.len..]
    ensures unchanged(q.queue)
  {
    ghost var queued := q.Contents();
    ghost var before := buf.data[..];
    buf.len := 0;
    var result := 1;
    while result != 0
      invariant q.Valid() && unchanged(q.queue)
      invariant 0 <= result <= 1
      invariant 0 <= buf.len && buf.len + q.count == |queued|
      invariant q.Contents() == queued[buf.len..]
      invariant buf.data[..buf.len] == queued[..buf.len]
      invariant buf.data[buf.len..] == before[buf.len..]
      invariant result == 0 ==> q.count == 0
      decreases q.count + result
    {
      ghost var len0, d0 := buf.len, buf.data[..];
      result := q.Delete(buf.data, buf.len);
      if result == 1 {
        buf.len := buf.len + 1;
        CopiedOne(d0, buf.data[..], queued, before, len0);
      }
    }
  }
}
