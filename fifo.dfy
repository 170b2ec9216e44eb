/** The overwriting FIFO ring queue of project/utils.c: `Q_SIZE` packet slots,
    a `front` and a `back` index and a `size`, all `uint8_t`. A push onto a
    full queue drops the oldest packet. `Q_SIZE` is a constructor parameter. */
module Fifo {
  import opened Packets
  import opened Ring

  /** The queue contents after pushing `p` onto `c` in a queue of `cap`
      slots: the oldest packet goes when the queue is full. */
  function Pushed(c: seq<Packet>, p: Packet, cap: nat): seq<Packet>
    requires 0 < cap
  {
    if |c| == cap then c[1..] + [p] else c + [p]
  }

  /** The contents after pushing every packet of `ps` in turn. */
  function PushedAll(c: seq<Packet>, ps: seq<Packet>, cap: nat): seq<Packet>
    requires 0 < cap && |c| <= cap
    decreases |ps|
  {
    if ps == [] then c else PushedAll(Pushed(c, ps[0], cap), ps[1..], cap)
  }

  /** One push never lets the queue outgrow its slots, and what stays is
      the newest part of the old contents followed by `p`. */
  lemma PushedNewest(c: seq<Packet>, p: Packet, cap: nat)
    requires 0 < cap && |c| <= cap
    ensures var r := Pushed(c, p, cap);
            |r| == Min(|c| + 1, cap) && r == (c + [p])[|c| + 1 - |r|..]
  {
    if |c| == cap {
      assert (c + [p])[1..] == c[1..] + [p];
    } else {
      assert (c + [p])[0..] == c + [p];
    }
  }

  /** Any run of pushes leaves exactly the newest `cap` packets of the old
      contents followed by the pushed ones, oldest first. */
  lemma {:induction false} PushedAllNewest(c: seq<Packet>, ps: seq<Packet>, cap: nat)
    requires 0 < cap && |c| <= cap
    ensures var r := PushedAll(c, ps, cap);
            |r| == Min(|c| + |ps|, cap) && r == (c + ps)[|c| + |ps| - |r|..]
    decreases |ps|
  {
    if ps != [] {
      var c1 := Pushed(c, ps[0], cap);
      PushedNewest(c, ps[0], cap);
      PushedAllNewest(c1, ps[1..], cap);
      var r := PushedAll(c, ps, cap);
      var d := |c| + 1 - |c1|;
      assert c1 == (c + [ps[0]])[d..];
      assert c1 + ps[1..] == (c + ps)[d..] by {
        assert c + ps == (c + [ps[0]]) + ps[1..];
      }
      assert r == (c1 + ps[1..])[|c1| + |ps| - 1 - |r|..];
    }
  }

  /** A `queue_t` of `capacity` slots, with the packets from `front` to
      `back` as its logical contents. */
  class FifoQueue {
    const capacity: nat
    const queue: array<Packet>
    var front: nat
    var back: nat
    var size: nat
    /** The packets from oldest to newest. */
    ghost var Contents: seq<Packet>

    ghost predicate Valid()
      reads this, queue
    {
      0 < capacity < 0x100 && queue.Length == capacity &&
      front < capacity && back < capacity && size <= capacity &&
      back == Wrap(front + size, capacity) &&
      |Contents| == size && Laid(Contents, queue[..], front, capacity)
    }

    /** `q_init`: zero-filled storage, so both indices and the size start
        at 0 and the queue is empty. */
    constructor (capacity: nat)
      requires 0 < capacity < 0x100
      ensures Valid() && fresh(queue)
      ensures this.capacity == capacity && Contents == []
      ensures front == 0 && back == 0 && size == 0
    {
      this.capacity := capacity;
      queue := new Packet[capacity](_ => Packet(0, 0, 0, 0, 0, ZeroPayload()));
      front, back, size := 0, 0, 0;
      Contents := [];
    }

    /** `increment`: the slot after `idx`, wrapping at `Q_SIZE`. */
    function Increment(idx: nat): (r: nat)
      requires 0 < capacity && idx < capacity
      ensures r < capacity && r == Wrap(idx + 1, capacity)
    {
      if idx == capacity - 1 then 0 else idx + 1
    }

    /** `decrement`: the slot before `idx`, wrapping at 0. */
    function Decrement(idx: nat): (r: nat)
      requires 0 < capacity && idx < capacity
      ensures r < capacity && r == Wrap(idx + capacity - 1, capacity)
    {
      if idx == 0 then capacity - 1 else idx - 1
    }

    /** `increment` and `decrement` undo each other. */
    lemma StepsInverse(idx: nat)
      requires 0 < capacity && idx < capacity
      ensures Decrement(Increment(idx)) == idx
      ensures Increment(Decrement(idx)) == idx
    {
    }

    /** `q_clear` as written: both indices go back to 0 but `size` is kept,
        so a queue that held some but not all of its slots no longer
        satisfies its own invariant. */
    method ClearAsWritten()
      requires Valid()
      modifies this
      ensures front == 0 && back == 0 && size == old(size)
      ensures 0 < old(size) < capacity ==> !Valid()
    {
      front := 0;
      back := 0;
    }

    /** `q_clear` as intended: the queue emptied, the size reset too. */
    method Clear()
      requires Valid()
      modifies this
      ensures Valid() && Contents == [] && size == 0
      ensures front == 0 && back == 0
    {
      front, back, size := 0, 0, 0;
      Contents := [];
    }

    /** `q_push`: appends `pkt`; a full queue first drops its oldest packet,
        so the size stays `Q_SIZE`. */
    method Push(pkt: Packet)
      requires Valid()
      modifies this, queue
      ensures Valid()
      ensures Contents == Pushed(old(Contents), pkt, capacity)
      ensures size == if old(size) == capacity then capacity else old(size) + 1
      ensures old(size) < capacity ==> front == old(front)
    {
      if size == capacity {
        DropOldest();
      }
      Append(pkt);
    }

    /** The full-queue branch of `q_push`: the front moves past the oldest
        packet, which is lost. */
    method DropOldest()
      requires Valid() && size == capacity
      modifies this
      ensures Valid() && size == capacity - 1
      ensures Contents == old(Contents)[1..]
    {
      front := Increment(front);
      size := size - 1;
      Contents := Contents[1..];
    }

    /** The store of `q_push`: `pkt` written at the back of a queue with a
        free slot. */
    method Append(pkt: Packet)
      requires Valid() && size < capacity
      modifies this, queue
      ensures Valid() && size == old(size) + 1 && front == old(front)
      ensures Contents == old(Contents) + [pkt]
    {
      queue[back] := pkt;
      back := Increment(back);
      size := size + 1;
      Contents := Contents + [pkt];
    }

    /** `q_pop`: NULL and no change when empty, otherwise the oldest packet,
        which leaves the queue. */
    method Pop() returns (r: Option<Packet>)
      requires Valid()
      modifies this
      ensures Valid()
      ensures r == Head(old(Contents))
      ensures Contents == if old(Contents) == [] then [] else old(Contents)[1..]
    {
      if size == 0 {
        return None;
      }
      r := Some(queue[front]);
      front := Increment(front);
      size := size - 1;
      Contents := Contents[1..];
    }

    /** `q_top`: the oldest packet, NULL when empty. */
    function Top(): (r: Option<Packet>)
      reads this, queue
      requires Valid()
      ensures r == Head(Contents)
    {
      if size == 0 then None else Some(queue[front])
    }

    /** `q_size`: how many packets the queue holds. */
    function Size(): (n: nat)
      reads this, queue
      requires Valid()
      ensures n == |Contents| && n <= capacity
    {
      size
    }
  }

  /** A queue of four slots holding one packet, cleared by the `q_clear` as
      written: it still reports one packet, and the top is the cleared one. */
  method StaleAfterClear(pkt: Packet) returns (n: nat, top: Option<Packet>)
    ensures n == 1 && top == Some(pkt)
  {
    var q := new FifoQueue(4);
    q.Push(pkt);
    assert q.Contents == [pkt] && q.front == 0;
    assert q.queue[0] == pkt by {
      assert q.Contents[0] == q.queue[Wrap(q.front + 0, q.capacity)];
    }
    q.ClearAsWritten();
    n := q.size;
    top := if q.size == 0 then None else Some(q.queue[q.front]);
  }

  /** The same queue cleared by the corrected `Clear` reports no packet. */
  method EmptyAfterClear(pkt: Packet) returns (n: nat, top: Option<Packet>)
    ensures n == 0 && top == None
  {
    var q := new FifoQueue(4);
    q.Push(pkt);
    q.Clear();
    n := q.Size();
    top := q.Top();
  }
}
