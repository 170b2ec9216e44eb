/** The bounded double-ended ring buffer of project/deque.c. It holds the
    unacknowledged segments of the sender (appended at the back, popped at the
    front) and the out-of-order segments of the receiver (kept sorted by
    sequence number, without duplicates). Sequence numbers are host order. */
module Deques {
  import opened Packets
  import opened Ring

  /** Where `q_try_insert_keep_sorted` puts `p`: in front of the first entry
      whose sequence number is larger, or at the back if there is none. */
  function InsertSorted(s: seq<Packet>, p: Packet): seq<Packet>
  {
    if s == [] || s[0].seqNum > p.seqNum then [p] + s
    else [s[0]] + InsertSorted(s[1..], p)
  }

  /** The shifting loop stops at index `i` exactly when everything before `i`
      is at most `p` and the entry at `i` (if any) is larger: the result is
      `p` spliced in at `i`. */
  lemma {:induction false} InsertSortedAt(s: seq<Packet>, p: Packet, i: nat)
    requires i <= |s|
    requires forall j :: 0 <= j < i ==> s[j].seqNum <= p.seqNum
    requires i < |s| ==> s[i].seqNum > p.seqNum
    ensures InsertSorted(s, p) == s[..i] + [p] + s[i..]
  {
    if i == 0 {
      assert s[..0] == [] && s[0..] == s;
    } else {
      InsertSortedAt(s[1..], p, i - 1);
      assert s[..i] == [s[0]] + s[1..][..i - 1];
      assert s[i..] == s[1..][i - 1..];
    }
  }

  /** Inserting adds exactly `p` to the entries. */
  lemma {:induction false} InsertSortedMultiset(s: seq<Packet>, p: Packet)
    ensures multiset(InsertSorted(s, p)) == multiset(s) + multiset{p}
  {
    if s == [] || s[0].seqNum > p.seqNum {
    } else {
      InsertSortedMultiset(s[1..], p);
      assert s == [s[0]] + s[1..];
    }
  }

  /** Inserting adds `p` and keeps every entry that was there. */
  lemma {:induction false} InsertSortedElements(s: seq<Packet>, p: Packet)
    ensures forall q :: q in InsertSorted(s, p) <==> q in s || q == p
  {
    if s == [] || s[0].seqNum > p.seqNum {
    } else {
      InsertSortedElements(s[1..], p);
      assert s == [s[0]] + s[1..];
    }
  }

  /** A segment below every entry of a strictly increasing run can be put in
      front of it. */
  lemma ConsIncreasing(x: Packet, r: seq<Packet>)
    requires StrictlyIncreasing(r)
    requires forall q :: q in r ==> x.seqNum < q.seqNum
    ensures StrictlyIncreasing([x] + r)
  {
    forall i, j | 0 <= i < j < |r| + 1 ensures ([x] + r)[i].seqNum < ([x] + r)[j].seqNum {
      assert ([x] + r)[j] == r[j - 1];
      if i > 0 {
        assert ([x] + r)[i] == r[i - 1];
      }
    }
  }

  /** On entries sorted by strictly increasing sequence number, inserting a
      segment whose number is not yet present keeps them strictly sorted. */
  lemma {:induction false} InsertSortedKeepsOrder(s: seq<Packet>, p: Packet)
    requires StrictlyIncreasing(s)
    requires forall q :: q in s ==> q.seqNum != p.seqNum
    ensures StrictlyIncreasing(InsertSorted(s, p))
  {
    if s == [] || s[0].seqNum > p.seqNum {
      if s != [] {
        ConsIncreasing(p, s);
      }
    } else {
      var t := s[1..];
      assert forall q :: q in t ==> q in s;
      InsertSortedKeepsOrder(t, p);
      InsertSortedElements(t, p);
      forall q | q in t ensures s[0].seqNum < q.seqNum {
        var j :| 0 <= j < |t| && t[j] == q;
        assert s[j + 1] == q;
      }
      ConsIncreasing(s[0], InsertSorted(t, p));
    }
  }

  /** The array `a` after the first `m` steps of the shift that starts at
      the free slot `start`: each of the first `m` slots after `start` holds
      what the slot after it held. */
  function Shifted(a: seq<Packet>, cap: nat, start: nat, m: nat): (r: seq<Packet>)
    requires 0 < cap && |a| == cap && start < cap && m < cap
    ensures |r| == cap
    decreases m
  {
    if m == 0 then a
    else Shifted(a, cap, start, m - 1)[Slot(cap, start, m - 1) := a[Slot(cap, start, m)]]
  }

  /** What a slot within one lap of `start` holds after `m` shift steps:
      the slots before step `m` hold their successors, the others are
      untouched. */
  lemma {:induction false} ShiftedSlot(a: seq<Packet>, cap: nat, start: nat, m: nat, j: nat)
    requires 0 < cap && |a| == cap && start < cap && m < cap && j < cap
    ensures Shifted(a, cap, start, m)[Slot(cap, start, j)]
            == if j < m then a[Slot(cap, start, j + 1)] else a[Slot(cap, start, j)]
  {
    if m > 0 {
      ShiftedSlot(a, cap, start, m - 1, j);
      SlotInjective(cap, start, j, m - 1);
    }
  }

  /** Where the shift of `q_try_insert_keep_sorted` stopped, read back on
      the entries: the `m` moved entries are at most `pkt`, the next larger. */
  lemma ShiftStops(c: seq<Packet>, a0: seq<Packet>, cap: nat, f: nat, g: nat, m: nat, pkt: Packet)
    requires 0 < cap && |a0| == cap && f < cap && |c| < cap && m <= |c|
    requires g == Wrap(f + cap - 1, cap)
    requires Laid(c, a0, f, cap)
    requires forall j :: 0 < j <= m ==> a0[Slot(cap, g, j)].seqNum <= pkt.seqNum
    requires m < |c| ==> a0[Slot(cap, g, m + 1)].seqNum > pkt.seqNum
    ensures forall j :: 0 <= j < m ==> c[j].seqNum <= pkt.seqNum
    ensures m < |c| ==> c[m].seqNum > pkt.seqNum
  {
    forall j | 0 <= j < m ensures c[j].seqNum <= pkt.seqNum {
      SlotAfterPred(cap, f, j);
    }
    if m < |c| {
      SlotAfterPred(cap, f, m);
    }
  }

  /** After `m` shift steps and the write of `pkt` into the slot left free,
      the slots from the new front hold the old entries with `pkt` spliced in
      at `m`. */
  lemma ShiftedLayout(c: seq<Packet>, a0: seq<Packet>, cap: nat, f: nat, g: nat, m: nat, pkt: Packet)
    requires 0 < cap && |a0| == cap && f < cap && |c| < cap && m <= |c|
    requires g == Wrap(f + cap - 1, cap)
    requires Laid(c, a0, f, cap)
    ensures Laid(c[..m] + [pkt] + c[m..], Shifted(a0, cap, g, m)[Slot(cap, g, m) := pkt], g, cap)
  {
    var r := c[..m] + [pkt] + c[m..];
    var a1 := Shifted(a0, cap, g, m)[Slot(cap, g, m) := pkt];
    forall j | 0 <= j <= |c| ensures r[j] == a1[Wrap(g + j, cap)] {
      ShiftedSlot(a0, cap, g, m, j);
      ShiftedLayoutAt(c, a0, Shifted(a0, cap, g, m), cap, f, g, m, pkt, j);
    }
  }

  /** One slot of `ShiftedLayout`, given what the shift left in that slot. */
  lemma ShiftedLayoutAt(c: seq<Packet>, a0: seq<Packet>, sh: seq<Packet>, cap: nat, f: nat, g: nat, m: nat, pkt: Packet, j: nat)
    requires 0 < cap && |a0| == cap && |sh| == cap && f < cap && |c| < cap && m <= |c| && j <= |c|
    requires g == Wrap(f + cap - 1, cap)
    requires Laid(c, a0, f, cap)
    requires sh[Slot(cap, g, j)] == if j < m then a0[Slot(cap, g, j + 1)] else a0[Slot(cap, g, j)]
    ensures (c[..m] + [pkt] + c[m..])[j] == sh[Slot(cap, g, m) := pkt][Wrap(g + j, cap)]
  {
    var r := c[..m] + [pkt] + c[m..];
    assert Wrap(g + j, cap) == Slot(cap, g, j);
    SlotInjective(cap, g, j, m);
    if j < m {
      SlotAfterPred(cap, f, j);
      assert r[j] == c[j] == a0[Wrap(f + j, cap)];
    } else if j > m {
      SlotAfterPred(cap, f, j - 1);
      assert r[j] == c[j - 1] == a0[Wrap(f + (j - 1), cap)];
    } else {
      assert r[j] == pkt;
    }
  }

  class Deque {
    const capacity: nat
    const queue: array<Packet>
    var front: nat
    var back: nat
    var size: nat
    /** The entries from front to back. */
    ghost var Contents: seq<Packet>

    ghost predicate Valid()
      reads this, queue
    {
      0 < capacity < 0x100 && queue.Length == capacity &&
      front < capacity && back < capacity && size <= capacity &&
      back == Wrap(front + size, capacity) &&
      |Contents| == size && Laid(Contents, queue[..], front, capacity)
    }

    /** `q_init`: an empty buffer of `capacity` slots (a `uint8_t`). */
    constructor (capacity: nat)
      requires 0 < capacity < 0x100
      ensures Valid() && fresh(queue)
      ensures this.capacity == capacity && Contents == []
    {
      this.capacity := capacity;
      queue := new Packet[capacity];
      front, back, size := 0, 0, 0;
      Contents := [];
    }

    /** The slot after `idx`, wrapping at the end. */
    function Increment(idx: nat): (r: nat)
      requires 0 < capacity && idx < capacity
      ensures r == Wrap(idx + 1, capacity)
    {
      if idx == capacity - 1 then 0 else idx + 1
    }

    /** The slot before `idx`, wrapping at the start. */
    function Decrement(idx: nat): (r: nat)
      requires 0 < capacity && idx < capacity
      ensures r == Wrap(idx + capacity - 1, capacity)
    {
      if idx == 0 then capacity - 1 else idx - 1
    }

    /** Stepping forward and back are mutually inverse. */
    lemma IncrementDecrement(idx: nat)
      requires 0 < capacity && idx < capacity
      ensures Decrement(Increment(idx)) == idx
      ensures Increment(Decrement(idx)) == idx
    {
    }

    /** `q_clear` */
    method Clear()
      requires Valid()
      modifies this
      ensures Valid() && Contents == []
      ensures front == 0 && back == 0
    {
      front, back, size := 0, 0, 0;
      Contents := [];
    }

    /** `q_size` */
    function Size(): (n: nat)
      reads this, queue
      requires Valid()
      ensures n == |Contents| && n <= capacity
    {
      size
    }

    /** `q_full` */
    function Full(): (b: bool)
      reads this, queue
      requires Valid()
      ensures b <==> |Contents| == capacity
    {
      size == capacity
    }

    /** `q_empty` */
    function Empty(): (b: bool)
      reads this, queue
      requires Valid()
      ensures b <==> Contents == []
    {
      size == 0
    }

    /** `q_front`: the oldest (lowest) entry, NULL when empty. */
    function Front(): (r: Option<Packet>)
      reads this, queue
      requires Valid()
      ensures r == Head(Contents)
    {
      if size == 0 then None else Some(queue[front])
    }

    /** `q_push_back` */
    method PushBack(pkt: Packet) returns (ok: bool)
      requires Valid()
      modifies this, queue
      ensures Valid()
      ensures ok <==> |old(Contents)| < capacity
      ensures ok ==> Contents == old(Contents) + [pkt]
      ensures !ok ==> unchanged(this) && unchanged(queue)
    {
      if Full() {
        return false;
      }
      queue[back] := pkt;
      back := Increment(back);
      size := size + 1;
      Contents := Contents + [pkt];
      return true;
    }

    /** `q_push_front` */
    method PushFront(pkt: Packet) returns (ok: bool)
      requires Valid()
      modifies this, queue
      ensures Valid()
      ensures ok <==> |old(Contents)| < capacity
      ensures ok ==> Contents == [pkt] + old(Contents)
      ensures !ok ==> unchanged(this) && unchanged(queue)
    {
      if Full() {
        return false;
      }
      front := Decrement(front);
      queue[front] := pkt;
      size := size + 1;
      Contents := [pkt] + Contents;
      return true;
    }

    /** `q_try_insert_keep_sorted`: refuses when full or when an entry with
        the same sequence number is present, otherwise inserts in order. */
    method TryInsertKeepSorted(pkt: Packet) returns (ok: bool)
      requires Valid()
      modifies this, queue
      ensures Valid()
      ensures ok <==> |old(Contents)| < capacity && forall q :: q in old(Contents) ==> q.seqNum != pkt.seqNum
      ensures Contents == if ok then InsertSorted(old(Contents), pkt) else old(Contents)
    {
      if Full() {
        return false;
      }
      var dup := HasSeq(pkt.seqNum);
      if dup {
        return false;
      }
      ShiftInsert(pkt);
      return true;
    }

    /** The duplicate scan of `q_try_insert_keep_sorted`: walks the slots from
        `front` to `back` looking for sequence number `sn`. */
    method HasSeq(sn: u32) returns (found: bool)
      requires Valid() && |Contents| < capacity
      ensures found <==> exists q :: q in Contents && q.seqNum == sn
    {
      var i := front;
      ghost var k := 0;
      while i != back
        invariant k <= size && i == Wrap(front + k, capacity)
        invariant forall j :: 0 <= j < k ==> Contents[j].seqNum != sn
        decreases size - k
      {
        if queue[i].seqNum == sn {
          assert Contents[k] in Contents;
          return true;
        }
        i := Increment(i);
        k := k + 1;
      }
      assert k == size;
      return false;
    }

    /** The shifting part of `q_try_insert_keep_sorted`: opens a slot before
        the front, moves every entry not larger than `pkt` one slot towards
        it and writes `pkt` into the gap that is left. */
    method ShiftInsert(pkt: Packet)
      requires Valid() && |Contents| < capacity
      modifies this, queue
      ensures Valid()
      ensures Contents == InsertSorted(old(Contents), pkt)
    {
      ghost var c := Contents;
      ghost var f := front;
      ghost var a0 := queue[..];
      front := Decrement(front);
      var curr, m := ShiftDown(front, size, pkt);
      ShiftStops(c, a0, capacity, f, front, m, pkt);
      InsertSortedAt(c, pkt, m);
      ShiftedLayout(c, a0, capacity, f, front, m, pkt);
      queue[curr] := pkt;
      size := size + 1;
      Contents := c[..m] + [pkt] + c[m..];
    }

    /** The loop of `q_try_insert_keep_sorted`: starting at the free slot
        `start`, copies the next slot into the current one for as long as the
        next entry is not larger than `pkt`, among the `n` entries that follow
        `start`. Returns the slot left free and how many entries moved. */
    method ShiftDown(start: nat, n: nat, pkt: Packet) returns (curr: nat, m: nat)
      requires 0 < capacity == queue.Length && start < capacity && n < capacity
      modifies queue
      ensures m <= n && curr == Slot(capacity, start, m)
      ensures queue[..] == Shifted(old(queue[..]), capacity, start, m)
      ensures forall j :: 0 < j <= m ==> old(queue[..])[Slot(capacity, start, j)].seqNum <= pkt.seqNum
      ensures m < n ==> old(queue[..])[Slot(capacity, start, m + 1)].seqNum > pkt.seqNum
    {
      ghost var a0 := queue[..];
      curr, m := start, 0;
      while m < n
        invariant m <= n && curr == Slot(capacity, start, m)
        invariant queue[..] == Shifted(a0, capacity, start, m)
        invariant forall j :: 0 < j <= m ==> a0[Slot(capacity, start, j)].seqNum <= pkt.seqNum
      {
        var next := Increment(curr);
        assert next == Slot(capacity, start, m + 1);
        ShiftedSlot(a0, capacity, start, m, m + 1);
        if queue[next].seqNum > pkt.seqNum {
          break;
        }
        queue[curr] := queue[next];
        curr := next;
        m := m + 1;
      }
    }

    /** `q_pop_front`: NULL when empty, else the oldest entry, removed. */
    method PopFront() returns (r: Option<Packet>)
      requires Valid()
      modifies this
      ensures Valid()
      ensures r == Head(old(Contents))
      ensures Contents == if old(Contents) == [] then old(Contents) else old(Contents)[1..]
    {
      if Empty() {
        return None;
      }
      r := Some(queue[front]);
      front := Increment(front);
      size := size - 1;
      Contents := Contents[1..];
    }

    /** `q_pop_front_get_next`: drops the front (if any) and returns the new one. */
    method PopFrontGetNext() returns (r: Option<Packet>)
      requires Valid()
      modifies this
      ensures Valid()
      ensures Contents == if old(Contents) == [] then old(Contents) else old(Contents)[1..]
      ensures r == Head(Contents)
    {
      var _ := PopFront();
      r := Front();
    }
  }
}
