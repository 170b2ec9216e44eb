/** The steady-state transport of project/common.c: the `params` record of a
    client or server, the send buffer of unacknowledged segments, the
    reorder buffer of future segments, and one turn of the listening loop.
    Sequence numbers are kept in host order; the source keeps them in
    network order, but since the byte-order conversions are mutually inverse
    bijections, raw equality is host-order equality and every ordering test
    in the source is already taken after `ntohl`. */
module Transport {
  import opened Packets
  import opened Deques

  /** The running count of duplicate acknowledgements that triggers a resend. */
  const DUP_ACK_LIMIT: nat := 3

  /** The retransmission a resend of the send buffer's front produces: that
      segment, or nothing when the buffer is empty. */
  function FrontSend(q: seq<Packet>): (r: seq<Packet>)
    ensures |r| <= 1
    ensures r == [] <==> q == []
    ensures r != [] ==> r[0] == q[0]
  {
    if q == [] then [] else [q[0]]
  }

  /** Segments of the send buffer follow each other without gap or overlap,
      and the last one ends where the next new segment will start. */
  ghost predicate Chained(s: seq<Packet>, next: u32)
  {
    forall i :: 0 <= i < |s| ==> NextSeq(s[i]) == StartAfter(s, i, next)
  }

  /** Where the segment after entry `i` starts: the next entry, or `next`
      after the last one. */
  function StartAfter(s: seq<Packet>, i: nat, next: u32): u32
    requires i < |s|
  {
    if i + 1 < |s| then s[i + 1].seqNum else next
  }

  /** Appending a segment that starts at `next` extends the chain. */
  lemma ChainedSnoc(s: seq<Packet>, next: u32, p: Packet)
    requires Chained(s, next) && p.seqNum == next
    ensures Chained(s + [p], NextSeq(p))
  {
    var t := s + [p];
    forall i | 0 <= i < |t|
      ensures NextSeq(t[i]) == StartAfter(t, i, NextSeq(p))
    {
      if i < |s| {
        assert t[i] == s[i];
        if i + 1 < |s| {
          assert t[i + 1] == s[i + 1];
        } else {
          assert t[i + 1] == p;
        }
      }
    }
  }

  /** Dropping entries from the front keeps the rest chained. */
  lemma ChainedSuffix(s: seq<Packet>, next: u32, k: nat)
    requires Chained(s, next) && k <= |s|
    ensures Chained(s[k..], next)
  {
    var t := s[k..];
    forall i | 0 <= i < |t|
      ensures NextSeq(t[i]) == StartAfter(t, i, next)
    {
      assert t[i] == s[k + i];
      if i + 1 < |t| {
        assert t[i + 1] == s[k + i + 1];
      }
    }
  }

  /** How many front entries of the send buffer an acknowledgement of `ack`
      clears: the longest prefix whose sequence numbers are below it. */
  function AckedCount(q: seq<Packet>, ack: u32): (k: nat)
    ensures k <= |q|
  {
    if q == [] || q[0].seqNum >= ack then 0 else 1 + AckedCount(q[1..], ack)
  }

  /** The cleared entries are exactly those before the first one that is not
      below `ack`. */
  lemma {:induction false} AckedCountSpec(q: seq<Packet>, ack: u32)
    ensures forall i :: 0 <= i < AckedCount(q, ack) ==> q[i].seqNum < ack
    ensures AckedCount(q, ack) < |q| ==> q[AckedCount(q, ack)].seqNum >= ack
  {
    if q != [] && q[0].seqNum < ack {
      AckedCountSpec(q[1..], ack);
      forall i | 0 < i < AckedCount(q, ack) ensures q[i].seqNum < ack {
        assert q[i] == q[1..][i - 1];
      }
    }
  }

  /** Clearing is idempotent: what it leaves behind holds nothing more to
      clear for the same acknowledgement. */
  lemma AckedCountIdempotent(q: seq<Packet>, ack: u32)
    ensures AckedCount(q[AckedCount(q, ack)..], ack) == 0
  {
    AckedCountSpec(q, ack);
  }

  /** How many front entries of the reorder buffer the cascading delivery
      that starts at `r` takes: while the front starts exactly at the
      expected number, it is delivered and the expectation moves past it. */
  function DrainCount(q: seq<Packet>, r: u32): (k: nat)
    ensures k <= |q|
  {
    if q == [] || q[0].seqNum != r then 0 else 1 + DrainCount(q[1..], NextSeq(q[0]))
  }

  /** The delivered entries start one after the other from `r`, and the
      first entry left behind (if any) does not start where they end. */
  lemma {:induction false} DrainCountSpec(q: seq<Packet>, r: u32)
    ensures forall i :: 0 <= i < DrainCount(q, r) ==> q[i].seqNum == Advance(r, TotalLength(q[..i]))
    ensures DrainCount(q, r) < |q| ==> q[DrainCount(q, r)].seqNum != Advance(r, TotalLength(q[..DrainCount(q, r)]))
  {
    if q != [] && q[0].seqNum == r {
      var t := q[1..];
      var r1 := NextSeq(q[0]);
      DrainCountSpec(t, r1);
      forall i | 0 <= i <= DrainCount(t, r1) && i <= |t|
        ensures Advance(r, TotalLength(q[..i + 1])) == Advance(r1, TotalLength(t[..i]))
      {
        assert q[..i + 1] == [q[0]] + t[..i];
        assert ([q[0]] + t[..i])[1..] == t[..i];
        AdvanceAdd(r, q[0].length, TotalLength(t[..i]));
      }
      forall i | 0 < i < DrainCount(q, r)
        ensures q[i].seqNum == Advance(r, TotalLength(q[..i]))
      {
        assert q[i] == t[i - 1];
      }
    }
  }

  /** Dropping entries from the front of a strictly increasing run keeps it so. */
  lemma IncreasingSuffix(s: seq<Packet>, k: nat)
    requires StrictlyIncreasing(s) && k <= |s|
    ensures StrictlyIncreasing(s[k..])
  {
    forall a, b | 0 <= a < b < |s| - k ensures s[k..][a].seqNum < s[k..][b].seqNum {
      assert s[k..][a] == s[k + a] && s[k..][b] == s[k + b];
    }
  }

  /** Delivering entry `i` extends the delivered prefix by its data and
      moves the expectation past it. */
  lemma DeliverNext(q: seq<Packet>, i: nat, r: u32)
    requires i < |q|
    ensures Advance(r, TotalLength(q[..i + 1])) == Advance(Advance(r, TotalLength(q[..i])), q[i].length)
    ensures Payloads(q[..i + 1]) == Payloads(q[..i]) + [Data(q[i])]
  {
    assert q[..i + 1] == q[..i] + [q[i]];
    TotalLengthSnoc(q[..i], q[i]);
    AdvanceAdd(r, TotalLength(q[..i]), q[i].length);
  }

  /** The drain loop's bookkeeping: delivering the front and moving the
      expectation past it leaves one fewer entry to deliver. */
  lemma DrainCountStep(q: seq<Packet>, i: nat, r: u32)
    requires i < |q| && q[i].seqNum == r
    ensures DrainCount(q[i..], r) == 1 + DrainCount(q[i + 1..], NextSeq(q[i]))
  {
    assert q[i..][1..] == q[i + 1..];
  }

  /** What the timer check of a turn resends: the oldest unacknowledged
      segment of `q`, once more than a second has passed since `before`. */
  function TimeoutResends(q: seq<Packet>, now: int, before: int): seq<Packet>
  {
    if now - before > CLOCKS_PER_SEC then FrontSend(q) else []
  }

  /** The duplicate count after acknowledgement `ack` when `lastAck` was
      the last one seen and `count` the running count: a repeat moves it
      on (back to 0 at the limit), a new acknowledgement keeps it. */
  function DupCount(ack: u32, lastAck: u32, count: nat): nat
  {
    if ack == lastAck then (count + 1) % DUP_ACK_LIMIT else count
  }

  /** What the duplicate check resends: the oldest unacknowledged segment
      of `q` when a repeat of `lastAck` brings the running count to the
      limit. */
  function DupResends(q: seq<Packet>, ack: u32, lastAck: u32, count: nat): seq<Packet>
  {
    if ack == lastAck && count + 1 == DUP_ACK_LIMIT then FrontSend(q) else []
  }

  /** The send buffer `q` once acknowledgement `ack` has cleared it. */
  function Outstanding(q: seq<Packet>, ack: u32): seq<Packet>
  {
    q[AckedCount(q, ack)..]
  }

  /** Whether `p_send_payload_ack` sends new data: the send buffer `q` has
      a free slot and the data source has something. */
  predicate SendsData(q: seq<Packet>, cap: nat, chunk: seq<u8>)
  {
    |q| < cap && |chunk| > 0
  }

  /** The packet buffer `buf` filled with `chunk` as a data segment. */
  function DataPacket(buf: Packet, ack: u32, seqNum: u32, chunk: seq<u8>): Packet
    requires |chunk| <= MSS
  {
    buf.(ackNum := ack, seqNum := seqNum, length := |chunk|, flags := PKT_ACK,
         payload := chunk + buf.payload[|chunk|..])
  }

  /** The packet buffer `buf` turned into an acknowledgement without data. */
  function EmptyAck(buf: Packet, ack: u32): Packet
  {
    buf.(flags := PKT_ACK, ackNum := ack, seqNum := 0, length := 0)
  }

  /** The receive side after a data segment: the reorder buffer, the
      expected number and the chunks written out. */
  datatype Receipt = Receipt(buffer: seq<Packet>, expected: u32, delivered: seq<seq<u8>>)

  /** What handling segment `pkt` does to the reorder buffer `q` of `cap`
      slots when `r` is expected: the expected segment is delivered with
      every buffered one that continues it; a later one is inserted when
      there is room and its number is new; an earlier one is dropped. */
  function Handled(q: seq<Packet>, r: u32, pkt: Packet, cap: nat): Receipt
  {
    if pkt.seqNum == r then
      var r1 := Advance(r, pkt.length);
      var k := DrainCount(q, r1);
      Receipt(q[k..], Advance(r1, TotalLength(q[..k])), [Data(pkt)] + Payloads(q[..k]))
    else if pkt.seqNum > r && |q| < cap && forall x :: x in q ==> x.seqNum != pkt.seqNum then
      Receipt(InsertSorted(q, pkt), r, [])
    else
      Receipt(q, r, [])
  }

  /** The state of one endpoint (`params`). */
  class Params {
    /** Next in-order sequence number expected from the peer. */
    var recvSeq: u32
    /** Sequence number the next new segment will carry. */
    var sendSeq: u32
    /** Last acknowledgement number seen, for duplicate detection. */
    var recvAck: u32
    /** Duplicates of `recvAck` seen in a row. */
    var ackCount: u32
    /** Segments sent but not yet acknowledged, oldest first. */
    const sendQ: Deque
    /** Future segments received out of order, by sequence number. */
    const recvQ: Deque
    /** The outgoing packet buffer, reused for every send. */
    var pktSend: Packet
    /** Clock reading when the retransmission timer was last reset. */
    var before: int
    /** Every chunk written to the output sink, in order. */
    var output: seq<seq<u8>>
    /** Every packet handed to the network, in order. */
    ghost var sent: seq<Packet>

    ghost predicate Valid()
      reads this, sendQ, sendQ.queue, recvQ, recvQ.queue
    {
      sendQ.Valid() && recvQ.Valid() &&
      sendQ != recvQ && sendQ.queue != recvQ.queue &&
      ackCount < DUP_ACK_LIMIT &&
      Chained(sendQ.Contents, sendSeq) &&
      StrictlyIncreasing(recvQ.Contents)
    }

    /** `p_init`, state part: empty buffers of `capacity` slots, nothing
        expected yet, an initial sequence number drawn from `r` with bit 31
        cleared, no acknowledgement seen and the timer started at `now`. */
    constructor (capacity: nat, r: u32, now: int)
      requires 0 < capacity < 0x100
      ensures Valid() && fresh(sendQ) && fresh(recvQ) && fresh(sendQ.queue) && fresh(recvQ.queue)
      ensures sendQ.Contents == [] && recvQ.Contents == []
      ensures recvSeq == 0 && sendSeq == MaskRand(r) && sendSeq < 0x8000_0000
      ensures recvAck == 0xFFFF_FFFF && ackCount == 0 && before == now
      ensures pktSend == Packet(0, 0, 0, 0, 0, ZeroPayload())
      ensures output == [] && sent == []
    {
      pktSend := Packet(0, 0, 0, 0, 0, ZeroPayload());
      recvSeq := 0;
      sendSeq := MaskRand(r);
      recvQ := new Deque(capacity);
      sendQ := new Deque(capacity);
      recvAck := 0xFFFF_FFFF;
      ackCount := 0;
      before := now;
      output := [];
      sent := [];
    }

    /** `p_retransmit_on_timeout`: once more than a second has passed since
        the timer was reset, reset it and resend the oldest unacknowledged
        segment, if any. */
    method RetransmitOnTimeout(now: int)
      requires Valid()
      modifies this
      ensures Valid()
      ensures before == if now - old(before) > CLOCKS_PER_SEC then now else old(before)
      ensures sent == old(sent) + if now - old(before) > CLOCKS_PER_SEC then FrontSend(sendQ.Contents) else []
      ensures recvSeq == old(recvSeq) && sendSeq == old(sendSeq) && recvAck == old(recvAck)
      ensures ackCount == old(ackCount) && pktSend == old(pktSend) && output == old(output)
    {
      if now - before > CLOCKS_PER_SEC {
        before := now;
        var front := sendQ.Front();
        if front.Some? {
          sent := sent + [front.value];
        }
      }
    }

    /** `p_send_payload_ack`: unless the send buffer is full or the source
        has nothing (`chunk` is what a read would deliver, at most MSS
        bytes), put the data in the packet buffer with the current sequence
        and acknowledgement numbers, keep a copy in the send buffer, advance
        the sequence number past it (wrapping at 2^32) and send it. */
    method SendPayloadAck(chunk: seq<u8>) returns (ok: bool)
      requires Valid() && |chunk| <= MSS
      modifies this, sendQ, sendQ.queue
      ensures Valid()
      ensures ok <==> |old(sendQ.Contents)| < sendQ.capacity && |chunk| > 0
      ensures ok ==> pktSend.seqNum == old(sendSeq) && pktSend.ackNum == recvSeq &&
                     pktSend.flags == PKT_ACK && Data(pktSend) == chunk &&
                     pktSend.unused == old(pktSend.unused)
      ensures ok ==> pktSend == DataPacket(old(pktSend), recvSeq, old(sendSeq), chunk)
      ensures ok ==> sendQ.Contents == old(sendQ.Contents) + [pktSend] &&
                     sendSeq == Advance(old(sendSeq), |chunk|) && sent == old(sent) + [pktSend]
      ensures !ok ==> sendQ.Contents == old(sendQ.Contents) && sendSeq == old(sendSeq) &&
                      sent == old(sent) && pktSend == old(pktSend)
      ensures recvSeq == old(recvSeq) && recvAck == old(recvAck) && ackCount == old(ackCount)
      ensures before == old(before) && output == old(output)
    {
      if sendQ.Full() {
        return false;
      }
      if |chunk| == 0 {
        return false;
      }
      pktSend := pktSend.(ackNum := recvSeq, seqNum := sendSeq, length := |chunk|, flags := PKT_ACK,
                          payload := chunk + pktSend.payload[|chunk|..]);
      assert Data(pktSend) == chunk;
      ok := sendQ.PushBack(pktSend);
      ChainedSnoc(old(sendQ.Contents), sendSeq, pktSend);
      sendSeq := Advance(sendSeq, |chunk|);
      sent := sent + [pktSend];
    }

    /** `p_retransmit_on_duplicate_ack`: an acknowledgement equal to the last
        one seen counts as a duplicate, and the duplicate that brings the
        running count to three resets it and resends the oldest
        unacknowledged segment; any other acknowledgement is only
        remembered, and the count is kept, so it carries over to the
        duplicates of the new value. */
    method RetransmitOnDuplicateAck(ack: u32)
      requires Valid()
      modifies this
      ensures Valid()
      ensures ack == old(recvAck) ==>
                recvAck == old(recvAck) && ackCount == (old(ackCount) + 1) % DUP_ACK_LIMIT &&
                sent == old(sent) + if old(ackCount) + 1 == DUP_ACK_LIMIT then FrontSend(sendQ.Contents) else []
      ensures ack != old(recvAck) ==> recvAck == ack && ackCount == old(ackCount) && sent == old(sent)
      ensures recvSeq == old(recvSeq) && sendSeq == old(sendSeq) && pktSend == old(pktSend)
      ensures before == old(before) && output == old(output)
    {
      if ack == recvAck {
        ackCount := ackCount + 1;
        if ackCount == DUP_ACK_LIMIT {
          ackCount := 0;
          var front := sendQ.Front();
          if front.Some? {
            sent := sent + [front.value];
          }
        }
      } else {
        recvAck := ack;
      }
    }

    /** `p_handle_data_packet`: a segment that starts at the expected number
        is delivered, and so is every buffered segment that then starts
        exactly where the delivered data ends; a later segment is offered to
        the reorder buffer; an earlier one is dropped. */
    method HandleDataPacket(pkt: Packet)
      requires Valid()
      modifies this, recvQ, recvQ.queue
      ensures Valid()
      ensures pkt.seqNum == old(recvSeq) ==>
                var q := old(recvQ.Contents);
                var r := Advance(old(recvSeq), pkt.length);
                var k := DrainCount(q, r);
                recvQ.Contents == q[k..] &&
                output == old(output) + [Data(pkt)] + Payloads(q[..k]) &&
                recvSeq == Advance(r, TotalLength(q[..k]))
      ensures pkt.seqNum > old(recvSeq) ==>
                recvSeq == old(recvSeq) && output == old(output) &&
                recvQ.Contents == if |old(recvQ.Contents)| < recvQ.capacity &&
                                     forall q :: q in old(recvQ.Contents) ==> q.seqNum != pkt.seqNum
                                  then InsertSorted(old(recvQ.Contents), pkt) else old(recvQ.Contents)
      ensures pkt.seqNum < old(recvSeq) ==>
                recvSeq == old(recvSeq) && output == old(output) && recvQ.Contents == old(recvQ.Contents)
      ensures var h := Handled(old(recvQ.Contents), old(recvSeq), pkt, recvQ.capacity);
              recvQ.Contents == h.buffer && recvSeq == h.expected && output == old(output) + h.delivered
      ensures sendSeq == old(sendSeq) && recvAck == old(recvAck) && ackCount == old(ackCount)
      ensures pktSend == old(pktSend) && before == old(before) && sent == old(sent)
    {
      ghost var h := Handled(recvQ.Contents, recvSeq, pkt, recvQ.capacity);
      if pkt.seqNum == recvSeq {
        DeliverExpected(pkt);
        assert recvQ.Contents == h.buffer && recvSeq == h.expected;
      } else if pkt.seqNum > recvSeq {
        BufferFuture(pkt);
        assert recvQ.Contents == h.buffer;
      }
    }

    /** The in-order branch of `p_handle_data_packet`: `pkt` is written out,
        the expectation moves past it, and the buffered segments that
        continue it are delivered too. */
    method DeliverExpected(pkt: Packet)
      requires Valid() && pkt.seqNum == recvSeq
      modifies this, recvQ
      ensures Valid()
      ensures var q := old(recvQ.Contents);
              var r := Advance(old(recvSeq), pkt.length);
              var k := DrainCount(q, r);
              recvQ.Contents == q[k..] &&
              output == old(output) + [Data(pkt)] + Payloads(q[..k]) &&
              recvSeq == Advance(r, TotalLength(q[..k]))
      ensures sendSeq == old(sendSeq) && recvAck == old(recvAck) && ackCount == old(ackCount)
      ensures pktSend == old(pktSend) && before == old(before) && sent == old(sent)
    {
      output := output + [Data(pkt)];
      recvSeq := Advance(recvSeq, pkt.length);
      Drain();
    }

    /** The future-segment branch of `p_handle_data_packet`: `pkt` goes into
        the reorder buffer at its sorted place when there is a free slot
        and its number is new there. */
    method BufferFuture(pkt: Packet)
      requires Valid() && pkt.seqNum > recvSeq
      modifies recvQ, recvQ.queue
      ensures Valid()
      ensures recvQ.Contents == if |old(recvQ.Contents)| < recvQ.capacity &&
                                   forall q :: q in old(recvQ.Contents) ==> q.seqNum != pkt.seqNum
                                then InsertSorted(old(recvQ.Contents), pkt) else old(recvQ.Contents)
    {
      if |recvQ.Contents| < recvQ.capacity && forall q :: q in recvQ.Contents ==> q.seqNum != pkt.seqNum {
        InsertSortedKeepsOrder(recvQ.Contents, pkt);
      }
      var _ := recvQ.TryInsertKeepSorted(pkt);
    }

    /** The cascading delivery loop of `p_handle_data_packet`: while the
        reorder buffer's front starts at the expected number, deliver it,
        move the expectation past it and drop it from the buffer. */
    method Drain()
      requires Valid()
      modifies this, recvQ
      ensures Valid()
      ensures var q := old(recvQ.Contents);
              var k := DrainCount(q, old(recvSeq));
              recvQ.Contents == q[k..] &&
              output == old(output) + Payloads(q[..k]) &&
              recvSeq == Advance(old(recvSeq), TotalLength(q[..k]))
      ensures recvQ.Contents == [] || recvQ.Contents[0].seqNum != recvSeq
      ensures sendSeq == old(sendSeq) && recvAck == old(recvAck) && ackCount == old(ackCount)
      ensures pktSend == old(pktSend) && before == old(before) && sent == old(sent)
    {
      ghost var q := recvQ.Contents;
      var r, delivered := DrainFrom(recvSeq);
      IncreasingSuffix(q, DrainCount(q, old(recvSeq)));
      recvSeq, output := r, output + delivered;
    }

    /** The loop of the cascading delivery, starting from the expected
        number `r0`: returns the expectation after it and the delivered
        chunks in order. */
    method DrainFrom(r0: u32) returns (r: u32, delivered: seq<seq<u8>>)
      requires recvQ.Valid()
      modifies recvQ
      ensures recvQ.Valid()
      ensures var q := old(recvQ.Contents);
              var k := DrainCount(q, r0);
              recvQ.Contents == q[k..] && delivered == Payloads(q[..k]) &&
              r == Advance(r0, TotalLength(q[..k]))
      ensures recvQ.Contents == [] || recvQ.Contents[0].seqNum != r
    {
      ghost var q := recvQ.Contents;
      r, delivered := r0, [];
      ghost var i := 0;
      var front := recvQ.Front();
      while front.Some? && front.value.seqNum == r
        invariant recvQ.Valid() && i <= |q| && recvQ.Contents == q[i..] && front == Head(recvQ.Contents)
        invariant r == Advance(r0, TotalLength(q[..i]))
        invariant delivered == Payloads(q[..i])
        invariant DrainCount(q, r0) == i + DrainCount(q[i..], r)
        decreases |q| - i
      {
        var p := front.value;
        DrainCountStep(q, i, r);
        DeliverNext(q, i, r0);
        assert q[i + 1..] == q[i..][1..];
        delivered := delivered + [Data(p)];
        r := Advance(r, p.length);
        front := recvQ.PopFrontGetNext();
        i := i + 1;
      }
    }

    /** `p_clear_acked_packets_from_sbuf`: drop every front entry of the send
        buffer whose sequence number is below `ack`; true iff any was. */
    method ClearAckedPacketsFromSbuf(ack: u32) returns (popped: bool)
      requires Valid()
      modifies sendQ
      ensures Valid()
      ensures sendQ.Contents == old(sendQ.Contents)[AckedCount(old(sendQ.Contents), ack)..]
      ensures popped <==> AckedCount(old(sendQ.Contents), ack) > 0
    {
      ghost var q := sendQ.Contents;
      ghost var i := 0;
      popped := false;
      var front := sendQ.Front();
      while front.Some? && front.value.seqNum < ack
        modifies sendQ
        invariant sendQ.Valid() && i <= |q| && sendQ.Contents == q[i..] && front == Head(sendQ.Contents)
        invariant AckedCount(q, ack) == i + AckedCount(q[i..], ack)
        invariant popped <==> i > 0
        decreases |q| - i
      {
        assert q[i..][1..] == q[i + 1..];
        popped := true;
        front := sendQ.PopFrontGetNext();
        i := i + 1;
      }
      ChainedSuffix(q, sendSeq, i);
    }

    /** `p_send_empty_ack`: acknowledge without data, with sequence number
        0 and length 0, leaving the send side as it is. */
    method SendEmptyAck()
      requires Valid()
      modifies this
      ensures Valid()
      ensures pktSend == old(pktSend).(flags := PKT_ACK, ackNum := recvSeq, seqNum := 0, length := 0)
      ensures sent == old(sent) + [pktSend]
      ensures recvSeq == old(recvSeq) && sendSeq == old(sendSeq) && recvAck == old(recvAck)
      ensures ackCount == old(ackCount) && before == old(before) && output == old(output)
    {
      pktSend := pktSend.(flags := PKT_ACK, ackNum := recvSeq, seqNum := 0, length := 0);
      sent := sent + [pktSend];
    }

    /** One turn of `p_listen`. `now` is the clock at the top of the turn,
        `incoming` the packet the socket delivered (None when there was
        none), `chunk` what the data source would deliver if read, and
        `ackTime` the clock when new acknowledgements reset the timer.
        Nothing received: the timer check, then new data is sent if it
        can be. A packet received: the timer check, the duplicate count and
        the clearing of acknowledged segments; for a packet with data also
        its delivery and one reply, carrying new data when it can, else an
        empty acknowledgement of the new expectation. */
    method ListenStep(now: int, incoming: Option<Packet>, chunk: seq<u8>, ackTime: int)
      requires Valid() && |chunk| <= MSS
      modifies this, sendQ, sendQ.queue, recvQ, recvQ.queue
      ensures Valid()
      ensures incoming.None? ==>
                before == (if now - old(before) > CLOCKS_PER_SEC then now else old(before)) &&
                recvAck == old(recvAck) && ackCount == old(ackCount) &&
                recvSeq == old(recvSeq) && output == old(output) && recvQ.Contents == old(recvQ.Contents)
      ensures incoming.None? && SendsData(old(sendQ.Contents), sendQ.capacity, chunk) ==>
                pktSend == DataPacket(old(pktSend), old(recvSeq), old(sendSeq), chunk) &&
                sendQ.Contents == old(sendQ.Contents) + [pktSend] &&
                sendSeq == Advance(old(sendSeq), |chunk|) &&
                sent == old(sent) + TimeoutResends(old(sendQ.Contents), now, old(before)) + [pktSend]
      ensures incoming.None? && !SendsData(old(sendQ.Contents), sendQ.capacity, chunk) ==>
                pktSend == old(pktSend) && sendQ.Contents == old(sendQ.Contents) && sendSeq == old(sendSeq) &&
                sent == old(sent) + TimeoutResends(old(sendQ.Contents), now, old(before))
      ensures incoming.Some? ==>
                var ack := incoming.value.ackNum;
                recvAck == ack && ackCount == DupCount(ack, old(recvAck), old(ackCount)) &&
                before == (if AckedCount(old(sendQ.Contents), ack) > 0 then ackTime
                           else if now - old(before) > CLOCKS_PER_SEC then now else old(before))
      ensures incoming.Some? && incoming.value.length == 0 ==>
                var ack := incoming.value.ackNum;
                recvSeq == old(recvSeq) && output == old(output) && recvQ.Contents == old(recvQ.Contents) &&
                sendQ.Contents == Outstanding(old(sendQ.Contents), ack) &&
                sendSeq == old(sendSeq) && pktSend == old(pktSend) &&
                sent == old(sent) + TimeoutResends(old(sendQ.Contents), now, old(before)) +
                        DupResends(old(sendQ.Contents), ack, old(recvAck), old(ackCount))
      ensures incoming.Some? && incoming.value.length != 0 ==>
                var pkt := incoming.value;
                var h := Handled(old(recvQ.Contents), old(recvSeq), pkt, recvQ.capacity);
                recvQ.Contents == h.buffer && recvSeq == h.expected && output == old(output) + h.delivered &&
                sent == old(sent) + TimeoutResends(old(sendQ.Contents), now, old(before)) +
                        DupResends(old(sendQ.Contents), pkt.ackNum, old(recvAck), old(ackCount)) + [pktSend]
      ensures incoming.Some? && incoming.value.length != 0 &&
              SendsData(Outstanding(old(sendQ.Contents), incoming.value.ackNum), sendQ.capacity, chunk) ==>
                pktSend == DataPacket(old(pktSend), recvSeq, old(sendSeq), chunk) &&
                sendQ.Contents == Outstanding(old(sendQ.Contents), incoming.value.ackNum) + [pktSend] &&
                sendSeq == Advance(old(sendSeq), |chunk|)
      ensures incoming.Some? && incoming.value.length != 0 &&
              !SendsData(Outstanding(old(sendQ.Contents), incoming.value.ackNum), sendQ.capacity, chunk) ==>
                pktSend == EmptyAck(old(pktSend), recvSeq) &&
                sendQ.Contents == Outstanding(old(sendQ.Contents), incoming.value.ackNum) &&
                sendSeq == old(sendSeq)
    {
      RetransmitOnTimeout(now);
      if incoming.None? {
        var _ := SendPayloadAck(chunk);
      } else {
        Receive(incoming.value, chunk, ackTime);
      }
    }

    /** The branch of a `p_listen` turn that handles a received packet:
        its acknowledgement, then, for a packet with data, its data and
        exactly one reply. */
    method Receive(pkt: Packet, chunk: seq<u8>, ackTime: int)
      requires Valid() && |chunk| <= MSS
      modifies this, sendQ, sendQ.queue, recvQ, recvQ.queue
      ensures Valid()
      ensures recvAck == pkt.ackNum && ackCount == DupCount(pkt.ackNum, old(recvAck), old(ackCount))
      ensures before == if AckedCount(old(sendQ.Contents), pkt.ackNum) > 0 then ackTime else old(before)
      ensures pkt.length == 0 ==>
                recvSeq == old(recvSeq) && output == old(output) && recvQ.Contents == old(recvQ.Contents) &&
                sendQ.Contents == Outstanding(old(sendQ.Contents), pkt.ackNum) &&
                sendSeq == old(sendSeq) && pktSend == old(pktSend) &&
                sent == old(sent) + DupResends(old(sendQ.Contents), pkt.ackNum, old(recvAck), old(ackCount))
      ensures pkt.length != 0 ==>
                var h := Handled(old(recvQ.Contents), old(recvSeq), pkt, recvQ.capacity);
                recvQ.Contents == h.buffer && recvSeq == h.expected && output == old(output) + h.delivered &&
                sent == old(sent) + DupResends(old(sendQ.Contents), pkt.ackNum, old(recvAck), old(ackCount)) + [pktSend]
      ensures pkt.length != 0 && SendsData(Outstanding(old(sendQ.Contents), pkt.ackNum), sendQ.capacity, chunk) ==>
                pktSend == DataPacket(old(pktSend), recvSeq, old(sendSeq), chunk) &&
                sendQ.Contents == Outstanding(old(sendQ.Contents), pkt.ackNum) + [pktSend] &&
                sendSeq == Advance(old(sendSeq), |chunk|)
      ensures pkt.length != 0 && !SendsData(Outstanding(old(sendQ.Contents), pkt.ackNum), sendQ.capacity, chunk) ==>
                pktSend == EmptyAck(old(pktSend), recvSeq) &&
                sendQ.Contents == Outstanding(old(sendQ.Contents), pkt.ackNum) &&
                sendSeq == old(sendSeq)
    {
      Acknowledge(pkt.ackNum, ackTime);
      if pkt.length != 0 {
        Respond(pkt, chunk);
      }
    }

    /** The acknowledgement part of a received packet: duplicate counting,
        then clearing of acknowledged segments, which resets the timer to
        `ackTime` if any were cleared. */
    method Acknowledge(ack: u32, ackTime: int)
      requires Valid()
      modifies this, sendQ
      ensures Valid()
      ensures recvAck == ack && ackCount == DupCount(ack, old(recvAck), old(ackCount))
      ensures sent == old(sent) + DupResends(old(sendQ.Contents), ack, old(recvAck), old(ackCount))
      ensures sendQ.Contents == Outstanding(old(sendQ.Contents), ack)
      ensures before == if AckedCount(old(sendQ.Contents), ack) > 0 then ackTime else old(before)
      ensures recvSeq == old(recvSeq) && output == old(output)
      ensures sendSeq == old(sendSeq) && pktSend == old(pktSend)
    {
      RetransmitOnDuplicateAck(ack);
      var popped := ClearAckedPacketsFromSbuf(ack);
      if popped {
        before := ackTime;
      }
    }

    /** The data part of a received packet with data: its handling, then one
        reply, carrying new data when there is room and data to send, else
        an empty acknowledgement; either way it acknowledges the expectation
        the handling left. */
    method Respond(pkt: Packet, chunk: seq<u8>)
      requires Valid() && |chunk| <= MSS
      modifies this, sendQ, sendQ.queue, recvQ, recvQ.queue
      ensures Valid()
      ensures var h := Handled(old(recvQ.Contents), old(recvSeq), pkt, recvQ.capacity);
              recvQ.Contents == h.buffer && recvSeq == h.expected && output == old(output) + h.delivered
      ensures sent == old(sent) + [pktSend]
      ensures SendsData(old(sendQ.Contents), sendQ.capacity, chunk) ==>
                pktSend == DataPacket(old(pktSend), recvSeq, old(sendSeq), chunk) &&
                sendQ.Contents == old(sendQ.Contents) + [pktSend] &&
                sendSeq == Advance(old(sendSeq), |chunk|)
      ensures !SendsData(old(sendQ.Contents), sendQ.capacity, chunk) ==>
                pktSend == EmptyAck(old(pktSend), recvSeq) &&
                sendQ.Contents == old(sendQ.Contents) && sendSeq == old(sendSeq)
      ensures recvAck == old(recvAck) && ackCount == old(ackCount) && before == old(before)
    {
      HandleDataPacket(pkt);
      var ok := SendPayloadAck(chunk);
      if !ok {
        SendEmptyAck();
      }
    }
  }
}
