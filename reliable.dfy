/** The linked-list iteration of the transport, project/reliable.c: header
    byte-order conversion, packet construction, and the send and receive
    windows, whose linked lists are modelled as sequences of packets in list
    order (head first). */
module Reliable {
  import opened Packets

  /** MAX_WINDOW_SIZE / MSS: a window holds at most 20240 / 1012 packets. */
  const MAX_WINDOW_SIZE: nat := 20240
  const WINDOW_SLOTS: nat := MAX_WINDOW_SIZE / MSS

  /** Byte `i` (0 = least significant) of a 32-bit value. */
  function ByteOf(x: u32, i: nat): u8
    requires i < 4
  {
    if i == 0 then x % 0x100
    else if i == 1 then x / 0x100 % 0x100
    else if i == 2 then x / 0x100 / 0x100 % 0x100
    else x / 0x100 / 0x100 / 0x100
  }

  /** The 32-bit value with bytes `a` (most significant) to `d`. */
  function Compose32(a: u8, b: u8, c: u8, d: u8): u32
  {
    a * 0x100_0000 + b * 0x1_0000 + c * 0x100 + d
  }

  lemma ComposeBytes(a: u8, b: u8, c: u8, d: u8)
    ensures var y := Compose32(a, b, c, d);
            ByteOf(y, 0) == d && ByteOf(y, 1) == c && ByteOf(y, 2) == b && ByteOf(y, 3) == a
  {
    var y := Compose32(a, b, c, d);
    var y1 := (a * 0x100 + b) * 0x100 + c;
    var y2 := a * 0x100 + b;
    assert y == y1 * 0x100 + d;
    assert y1 == y2 * 0x100 + c;
    assert y / 0x100 == y1 && y % 0x100 == d;
    assert y1 / 0x100 == y2 && y1 % 0x100 == c;
    assert y2 / 0x100 == a && y2 % 0x100 == b;
  }

  lemma DecomposeBytes(x: u32)
    ensures x == Compose32(ByteOf(x, 3), ByteOf(x, 2), ByteOf(x, 1), ByteOf(x, 0))
  {
    var x1 := x / 0x100;
    var x2 := x1 / 0x100;
    var x3 := x2 / 0x100;
    assert x == x1 * 0x100 + x % 0x100;
    assert x1 == x2 * 0x100 + x1 % 0x100;
    assert x2 == x3 * 0x100 + x2 % 0x100;
    assert x3 < 0x100;
  }

  /** `htonl`/`ntohl` on a little-endian host: the four bytes reversed. */
  function Swap32(x: u32): (r: u32)
    ensures ByteOf(r, 0) == ByteOf(x, 3) && ByteOf(r, 1) == ByteOf(x, 2)
    ensures ByteOf(r, 2) == ByteOf(x, 1) && ByteOf(r, 3) == ByteOf(x, 0)
  {
    ComposeBytes(ByteOf(x, 0), ByteOf(x, 1), ByteOf(x, 2), ByteOf(x, 3));
    Compose32(ByteOf(x, 0), ByteOf(x, 1), ByteOf(x, 2), ByteOf(x, 3))
  }

  /** Swapping twice restores the value, so `ntohl` undoes `htonl`. */
  lemma {:induction false} Swap32Involution(x: u32)
    ensures Swap32(Swap32(x)) == x
  {
    var y := Swap32(x);
    DecomposeBytes(x);
    DecomposeBytes(Swap32(y));
  }

  /** `htons`/`ntohs` on a little-endian host: the two bytes exchanged. */
  function Swap16(x: u16): (r: u16)
    ensures r % 0x100 == x / 0x100 && r / 0x100 == x % 0x100
  {
    (x % 0x100) * 0x100 + x / 0x100
  }

  lemma Swap16Involution(x: u16)
    ensures Swap16(Swap16(x)) == x
  {
  }

  /** `packet_to_network`: the acknowledgement, sequence and length fields
      converted to network byte order, nothing else touched. */
  function ToNetwork(p: Packet): (r: Packet)
    ensures r.flags == p.flags && r.unused == p.unused && r.payload == p.payload
    ensures r.seqNum == Swap32(p.seqNum) && r.ackNum == Swap32(p.ackNum)
    ensures r.length == Swap16(p.length)
  {
    Packet(Swap32(p.ackNum), Swap32(p.seqNum), Swap16(p.length), p.flags, p.unused, p.payload)
  }

  /** `packet_to_host`: the same three fields converted back. */
  function ToHost(p: Packet): (r: Packet)
    ensures r.flags == p.flags && r.unused == p.unused && r.payload == p.payload
    ensures r.seqNum == Swap32(p.seqNum) && r.ackNum == Swap32(p.ackNum)
    ensures r.length == Swap16(p.length)
  {
    Packet(Swap32(p.ackNum), Swap32(p.seqNum), Swap16(p.length), p.flags, p.unused, p.payload)
  }

  /** A packet sent and received arrives as it was built: converting to
      network order and back is the identity, in either order. */
  lemma NetworkRoundTrip(p: Packet)
    ensures ToHost(ToNetwork(p)) == p
    ensures ToNetwork(ToHost(p)) == p
  {
    Swap32Involution(p.ackNum);
    Swap32Involution(p.seqNum);
    Swap16Involution(p.length);
  }

  /** `create_packet`: the four header fields as given; `unused` and every
      payload byte zero. */
  function CreatePacket(seqNum: u32, ackNum: u32, length: u16, flags: u8): (p: Packet)
    ensures p.seqNum == seqNum && p.ackNum == ackNum && p.length == length && p.flags == flags
    ensures p.unused == 0 && p.payload == ZeroPayload()
  {
    Packet(ackNum, seqNum, length, flags, 0, ZeroPayload())
  }

  /** Where the insertion of add_to_*_window puts `p`: before the head if
      the head is larger, otherwise after the head, before the first later
      node that is not smaller. */
  function InsertInOrder(s: seq<Packet>, p: Packet): seq<Packet>
  {
    if s == [] || s[0].seqNum > p.seqNum then [p] + s
    else [s[0]] + InsertBeforeNotSmaller(s[1..], p)
  }

  /** The walk of the insertion: `p` goes in front of the first node whose
      number is not smaller than its own. */
  function InsertBeforeNotSmaller(s: seq<Packet>, p: Packet): seq<Packet>
  {
    if s == [] || s[0].seqNum >= p.seqNum then [p] + s
    else [s[0]] + InsertBeforeNotSmaller(s[1..], p)
  }

  /** The walk stops at `i` when every node in `s[..i]` is smaller than `p`
      and the node at `i`, if any, is not: `p` is spliced in there. */
  lemma {:induction false} InsertBeforeNotSmallerAt(s: seq<Packet>, p: Packet, i: nat)
    requires i <= |s|
    requires forall j :: 0 <= j < i ==> s[j].seqNum < p.seqNum
    requires i < |s| ==> s[i].seqNum >= p.seqNum
    ensures InsertBeforeNotSmaller(s, p) == s[..i] + [p] + s[i..]
  {
    if i == 0 {
      assert s[..0] == [] && s[0..] == s;
    } else {
      InsertBeforeNotSmallerAt(s[1..], p, i - 1);
      assert s[..i] == [s[0]] + s[1..][..i - 1];
      assert s[i..] == s[1..][i - 1..];
    }
  }

  /** The inserted list holds exactly the old nodes and `p`. */
  lemma {:induction false} InsertBeforeNotSmallerMultiset(s: seq<Packet>, p: Packet)
    ensures multiset(InsertBeforeNotSmaller(s, p)) == multiset(s) + multiset{p}
  {
    if s == [] || s[0].seqNum >= p.seqNum {
    } else {
      InsertBeforeNotSmallerMultiset(s[1..], p);
      assert s == [s[0]] + s[1..];
    }
  }

  lemma InsertInOrderMultiset(s: seq<Packet>, p: Packet)
    ensures multiset(InsertInOrder(s, p)) == multiset(s) + multiset{p}
  {
    if s == [] || s[0].seqNum > p.seqNum {
    } else {
      InsertBeforeNotSmallerMultiset(s[1..], p);
      assert s == [s[0]] + s[1..];
    }
  }

  /** Putting a node that is not larger than any node of a sorted list in
      front of it keeps the list sorted. */
  lemma ConsNonDecreasing(x: Packet, r: seq<Packet>)
    requires NonDecreasing(r)
    requires forall q :: q in r ==> x.seqNum <= q.seqNum
    ensures NonDecreasing([x] + r)
  {
    forall i, j | 0 <= i < j < |r| + 1 ensures ([x] + r)[i].seqNum <= ([x] + r)[j].seqNum {
      assert ([x] + r)[j] == r[j - 1];
      if i > 0 {
        assert ([x] + r)[i] == r[i - 1];
      }
    }
  }

  /** The tail of a sorted list is sorted and not below its head. */
  lemma NonDecreasingTail(s: seq<Packet>)
    requires NonDecreasing(s) && s != []
    ensures NonDecreasing(s[1..])
    ensures forall q :: q in s[1..] ==> s[0].seqNum <= q.seqNum
  {
    forall q | q in s[1..] ensures s[0].seqNum <= q.seqNum {
      var j :| 0 <= j < |s[1..]| && s[1..][j] == q;
      assert s[j + 1] == q;
    }
  }

  lemma {:induction false} InsertBeforeNotSmallerSorted(s: seq<Packet>, p: Packet)
    requires NonDecreasing(s)
    ensures NonDecreasing(InsertBeforeNotSmaller(s, p))
  {
    if s == [] || s[0].seqNum >= p.seqNum {
      if s != [] {
        ConsNonDecreasing(p, s);
      }
    } else {
      NonDecreasingTail(s);
      InsertBeforeNotSmallerSorted(s[1..], p);
      InsertBeforeNotSmallerMultiset(s[1..], p);
      forall q | q in InsertBeforeNotSmaller(s[1..], p) ensures s[0].seqNum <= q.seqNum {
        assert q in multiset(InsertBeforeNotSmaller(s[1..], p));
      }
      ConsNonDecreasing(s[0], InsertBeforeNotSmaller(s[1..], p));
    }
  }

  /** Insertion keeps a window sorted by sequence number (ties allowed). */
  lemma InsertInOrderSorted(s: seq<Packet>, p: Packet)
    requires NonDecreasing(s)
    ensures NonDecreasing(InsertInOrder(s, p))
  {
    if s == [] || s[0].seqNum > p.seqNum {
      if s != [] {
        ConsNonDecreasing(p, s);
      }
    } else {
      NonDecreasingTail(s);
      InsertBeforeNotSmallerSorted(s[1..], p);
      InsertBeforeNotSmallerMultiset(s[1..], p);
      forall q | q in InsertBeforeNotSmaller(s[1..], p) ensures s[0].seqNum <= q.seqNum {
        assert q in multiset(InsertBeforeNotSmaller(s[1..], p));
      }
      ConsNonDecreasing(s[0], InsertBeforeNotSmaller(s[1..], p));
    }
  }

  /** The position search of add_to_*_window: the head test, then the walk
      along `next` pointers while the next node is smaller than `p`. */
  method InsertPosition(s: seq<Packet>, p: Packet) returns (i: nat)
    ensures i <= |s|
    ensures InsertInOrder(s, p) == s[..i] + [p] + s[i..]
  {
    if s == [] || s[0].seqNum > p.seqNum {
      return 0;
    }
    var cur := 0;
    while cur + 1 < |s| && s[cur + 1].seqNum < p.seqNum
      invariant cur < |s|
      invariant forall j :: 0 < j <= cur ==> s[j].seqNum < p.seqNum
    {
      cur := cur + 1;
    }
    InsertBeforeNotSmallerAt(s[1..], p, cur);
    assert s == [s[0]] + s[1..];
    assert s[..cur + 1] == [s[0]] + s[1..][..cur];
    assert s[cur + 1..] == s[1..][cur..];
    i := cur + 1;
  }

  /** The nodes an acknowledgement of `ack` leaves: those whose number is
      not below it, in list order. */
  function Unacked(s: seq<Packet>, ack: u32): (r: seq<Packet>)
    ensures |r| <= |s|
  {
    if s == [] then [] else Kept(s[0], ack) + Unacked(s[1..], ack)
  }

  /** What the acknowledgement leaves of one node. */
  function Kept(p: Packet, ack: u32): seq<Packet>
  {
    if p.seqNum < ack then [] else [p]
  }

  lemma {:induction false} UnackedAppend(a: seq<Packet>, b: seq<Packet>, ack: u32)
    ensures Unacked(a + b, ack) == Unacked(a, ack) + Unacked(b, ack)
  {
    if a == [] {
      assert a + b == b;
    } else {
      var h := Kept(a[0], ack);
      assert (a + b)[0] == a[0] && (a + b)[1..] == a[1..] + b;
      assert Unacked(a + b, ack) == h + Unacked(a[1..] + b, ack);
      UnackedAppend(a[1..], b, ack);
      assert h + (Unacked(a[1..], ack) + Unacked(b, ack)) == (h + Unacked(a[1..], ack)) + Unacked(b, ack);
    }
  }

  /** `process_ack` removes exactly the nodes below `ack`, wherever they
      sit: a node survives iff it was there and is not below `ack`. */
  lemma {:induction false} UnackedMembers(s: seq<Packet>, ack: u32)
    ensures forall q :: q in Unacked(s, ack) <==> q in s && q.seqNum >= ack
  {
    if s != [] {
      UnackedMembers(s[1..], ack);
      assert s == [s[0]] + s[1..];
    }
  }

  /** What survives is a sorted list again when the list was sorted. */
  lemma {:induction false} UnackedSorted(s: seq<Packet>, ack: u32)
    requires NonDecreasing(s)
    ensures NonDecreasing(Unacked(s, ack))
  {
    if s != [] {
      NonDecreasingTail(s);
      UnackedSorted(s[1..], ack);
      if s[0].seqNum >= ack {
        UnackedMembers(s[1..], ack);
        ConsNonDecreasing(s[0], Unacked(s[1..], ack));
      }
    }
  }

  /** A second acknowledgement with the same number removes nothing. */
  lemma {:induction false} UnackedIdempotent(s: seq<Packet>, ack: u32)
    ensures Unacked(Unacked(s, ack), ack) == Unacked(s, ack)
  {
    if s != [] {
      UnackedIdempotent(s[1..], ack);
      if s[0].seqNum >= ack {
        var t := [s[0]] + Unacked(s[1..], ack);
        assert Unacked(s, ack) == t;
        assert t[0] == s[0] && t[1..] == Unacked(s[1..], ack);
        assert Unacked(t, ack) == [t[0]] + Unacked(t[1..], ack);
      } else {
        assert Unacked(s, ack) == [] + Unacked(s[1..], ack) == Unacked(s[1..], ack);
      }
    }
  }

  /** The result of the single delivery pass of process_received_data. */
  datatype Delivery = Delivery(kept: seq<Packet>, out: seq<seq<u8>>, expected: u32)

  /** The delivery pass over `s` with expectation `e`: a node whose number
      is not above the expectation is written out and moves the expectation
      past its length; any other node stays. Later nodes are compared with
      the expectation as it stands when the walk reaches them. */
  function Deliver(s: seq<Packet>, e: u32): (d: Delivery)
    ensures |d.kept| <= |s|
  {
    if s == [] then Delivery([], [], e)
    else if s[0].seqNum <= e then
      DeliverHead(s[0], Deliver(s[1..], Advance(e, s[0].length)))
    else
      KeepHead(s[0], Deliver(s[1..], e))
  }

  /** The head written out before what the rest of the pass produced. */
  function DeliverHead(p: Packet, d: Delivery): Delivery
  {
    Delivery(d.kept, [Data(p)] + d.out, d.expected)
  }

  /** The head kept before what the rest of the pass kept. */
  function KeepHead(p: Packet, d: Delivery): Delivery
  {
    Delivery([p] + d.kept, d.out, d.expected)
  }

  /** How many front nodes of a sorted list the pass delivers. */
  function DeliveredCount(s: seq<Packet>, e: u32): (k: nat)
    ensures k <= |s|
  {
    if s == [] || s[0].seqNum > e then 0 else 1 + DeliveredCount(s[1..], Advance(e, s[0].length))
  }

  /** On a sorted list the pass delivers a prefix: the output is the data of
      that prefix in list order, the new expectation is the old one advanced
      by its total length (wrapping at 2^32), and the rest stays. */
  lemma {:induction false} DeliverSorted(s: seq<Packet>, e: u32)
    requires NonDecreasing(s)
    ensures var k := DeliveredCount(s, e);
            var d := Deliver(s, e);
            d.kept == s[k..] && d.out == Payloads(s[..k]) &&
            d.expected == Advance(e, TotalLength(s[..k]))
  {
    if s == [] {
    } else if s[0].seqNum > e {
      KeptAll(s, e);
    } else {
      NonDecreasingTail(s);
      var t := s[1..];
      DeliverSorted(t, Advance(e, s[0].length));
      var k := DeliveredCount(s, e);
      var pre := t[..k - 1];
      assert s[k..] == t[k - 1..];
      assert s[..k] == [s[0]] + pre;
      TotalLengthCons(s[0], pre);
      PayloadsCons(s[0], pre);
      AdvanceAdd(e, s[0].length, TotalLength(pre));
    }
  }

  /** On a sorted list every node the pass keeps is above the expectation
      it ends with, so a second pass delivers nothing more. */
  lemma {:induction false} DeliverKeptAbove(s: seq<Packet>, e: u32)
    requires NonDecreasing(s)
    ensures forall q :: q in Deliver(s, e).kept ==> q.seqNum > Deliver(s, e).expected
  {
    if s == [] {
    } else if s[0].seqNum > e {
      KeptAll(s, e);
      NonDecreasingTail(s);
      assert forall q :: q in s ==> q == s[0] || q in s[1..];
    } else {
      NonDecreasingTail(s);
      DeliverKeptAbove(s[1..], Advance(e, s[0].length));
    }
  }

  lemma PayloadsCons(p: Packet, t: seq<Packet>)
    ensures Payloads([p] + t) == [Data(p)] + Payloads(t)
  {
  }

  lemma TotalLengthCons(p: Packet, t: seq<Packet>)
    ensures TotalLength([p] + t) == p.length + TotalLength(t)
  {
    assert ([p] + t)[1..] == t;
  }

  /** When the head of a sorted list is above the expectation, the pass
      keeps everything and writes nothing. */
  lemma {:induction false} KeptAll(s: seq<Packet>, e: u32)
    requires NonDecreasing(s) && s != [] && s[0].seqNum > e
    ensures Deliver(s, e) == Delivery(s, [], e)
  {
    if |s| > 1 {
      NonDecreasingTail(s);
      KeptAll(s[1..], e);
    }
    assert s == [s[0]] + s[1..];
  }

  /** One more node examined by the acknowledgement walk. */
  lemma UnackedSnoc(s: seq<Packet>, c: nat, ack: u32)
    requires c < |s|
    ensures Unacked(s[..c + 1], ack) == Unacked(s[..c], ack) + Kept(s[c], ack)
  {
    assert s[..c + 1] == s[..c] + [s[c]];
    UnackedAppend(s[..c], [s[c]], ack);
    assert [s[c]][1..] == [];
  }

  /** What the pass produced on a prefix, followed by what it produces on
      the rest. */
  function DeliverJoin(kept: seq<Packet>, out: seq<seq<u8>>, d: Delivery): Delivery
  {
    Delivery(kept + d.kept, out + d.out, d.expected)
  }

  /** One node further through the delivery pass. */
  lemma DeliverStep(s: seq<Packet>, c: nat, e: u32, kept: seq<Packet>, out: seq<seq<u8>>)
    requires c < |s|
    ensures DeliverJoin(kept, out, Deliver(s[c..], e)) ==
            if s[c].seqNum <= e then DeliverJoin(kept, out + [Data(s[c])], Deliver(s[c + 1..], Advance(e, s[c].length)))
            else DeliverJoin(kept + [s[c]], out, Deliver(s[c + 1..], e))
  {
    assert s[c..][0] == s[c] && s[c..][1..] == s[c + 1..];
  }

  /** The walk of process_ack over the list: every node below `ack` is
      unlinked where it stands, the others are stepped over. */
  method AckWalk(s: seq<Packet>, ack: u32) returns (ns: seq<Packet>, found: bool)
    ensures ns == Unacked(s, ack)
    ensures found <==> |ns| < |s|
  {
    ns := s;
    ghost var c := 0;
    var j := 0;
    found := false;
    while j < |ns|
      invariant c <= |s| && j <= |ns|
      invariant ns[..j] == Unacked(s[..c], ack) && ns[j..] == s[c..]
      invariant found <==> j < c
      decreases |ns| - j
    {
      UnackedSnoc(s, c, ack);
      assert ns[j] == s[c] && ns[j + 1..] == s[c + 1..] by {
        assert ns[j..][0] == s[c..][0] && ns[j..][1..] == s[c..][1..];
      }
      if ns[j].seqNum < ack {
        found := true;
        var rest := ns[j + 1..];
        ns := ns[..j] + rest;
        assert ns[..j] == Unacked(s[..c + 1], ack) && ns[j..] == rest;
      } else {
        assert ns[..j + 1] == ns[..j] + [s[c]];
        j := j + 1;
      }
      c := c + 1;
    }
    assert s[..c] == s;
    assert ns == ns[..j];
  }

  /** The walk of process_received_data over the list: every node not above
      the expectation as it stands is written out and unlinked. */
  method DeliveryWalk(s: seq<Packet>, e0: u32) returns (ns: seq<Packet>, out: seq<seq<u8>>, e: u32)
    ensures Deliver(s, e0) == Delivery(ns, out, e)
  {
    ns := s;
    e := e0;
    out := [];
    ghost var kept: seq<Packet> := [];
    ghost var c := 0;
    var j := 0;
    while j < |ns|
      invariant c <= |s| && j <= |ns|
      invariant ns[..j] == kept && ns[j..] == s[c..]
      invariant DeliverJoin(kept, out, Deliver(s[c..], e)) == Deliver(s, e0)
      decreases |ns| - j
    {
      var p := ns[j];
      assert p == s[c] && ns[j + 1..] == s[c + 1..] by {
        assert ns[j..][0] == s[c..][0] && ns[j..][1..] == s[c..][1..];
      }
      DeliverStep(s, c, e, kept, out);
      if p.seqNum <= e {
        out := out + [Data(p)];
        e := Advance(e, p.length);
        var rest := ns[j + 1..];
        ns := ns[..j] + rest;
        assert ns[..j] == kept && ns[j..] == rest;
      } else {
        assert ns[..j + 1] == ns[..j] + [p];
        kept := kept + [p];
        j := j + 1;
      }
      c := c + 1;
    }
    assert s[c..] == [];
    assert ns == ns[..j];
  }

  /** A `send_window`: the unacknowledged packets, their count, the next
      sequence number to use and the clock of the last new acknowledgement. */
  class SendWindow {
    var nodes: seq<Packet>
    var size: int
    var seqNum: u32
    var lastAckTime: int

    ghost predicate Valid()
      reads this
    {
      size == |nodes| <= WINDOW_SLOTS && NonDecreasing(nodes)
    }

    /** `init_send_window`: empty, with an initial sequence number drawn from
        `r` (a `rand()` result) below UINT32_MAX / 2, and the timer at `now`. */
    constructor (r: u32, now: int)
      ensures Valid() && nodes == [] && size == 0
      ensures seqNum == r % 0x7FFF_FFFF && seqNum < 0x7FFF_FFFF && lastAckTime == now
    {
      nodes := [];
      size := 0;
      seqNum := r % 0x7FFF_FFFF;
      lastAckTime := now;
    }

    /** `add_to_send_window`: refused when the window holds 20 packets;
        otherwise `pkt` goes in by sequence number and the next sequence
        number moves past its length (wrapping at 2^32). */
    method Add(pkt: Packet) returns (ok: bool)
      requires Valid()
      modifies this
      ensures Valid()
      ensures ok <==> old(size) < WINDOW_SLOTS
      ensures ok ==> nodes == InsertInOrder(old(nodes), pkt) && size == old(size) + 1 &&
                     seqNum == Advance(old(seqNum), pkt.length)
      ensures ok ==> multiset(nodes) == multiset(old(nodes)) + multiset{pkt}
      ensures !ok ==> nodes == old(nodes) && size == old(size) && seqNum == old(seqNum)
      ensures lastAckTime == old(lastAckTime)
    {
      if size >= WINDOW_SLOTS {
        return false;
      }
      var i := InsertPosition(nodes, pkt);
      InsertInOrderSorted(nodes, pkt);
      InsertInOrderMultiset(nodes, pkt);
      nodes := nodes[..i] + [pkt] + nodes[i..];
      size := size + 1;
      seqNum := Advance(seqNum, pkt.length);
      return true;
    }

    /** `get_retransmit_packet`: the head, which on a sorted window has the
        lowest sequence number; NULL when the window is empty. */
    function RetransmitPacket(): (r: Option<Packet>)
      reads this
      requires Valid()
      ensures r.None? <==> nodes == []
      ensures r.Some? ==> r.value == nodes[0]
      ensures r.Some? ==> forall q :: q in nodes ==> r.value.seqNum <= q.seqNum
    {
      if nodes == [] then None else Some(nodes[0])
    }

    /** `process_ack`: walks the whole list and unlinks every node below
        `ack`, resetting the timer to `now` for each; true iff any was. */
    method ProcessAck(ack: u32, now: int) returns (found: bool)
      requires Valid()
      modifies this
      ensures Valid()
      ensures nodes == Unacked(old(nodes), ack)
      ensures size == old(size) - (|old(nodes)| - |nodes|)
      ensures found <==> |nodes| < |old(nodes)|
      ensures lastAckTime == if found then now else old(lastAckTime)
      ensures found ==> !CheckRetransmit(now)
      ensures seqNum == old(seqNum)
    {
      var ns;
      ns, found := AckWalk(nodes, ack);
      UnackedSorted(nodes, ack);
      if found {
        lastAckTime := now;
      }
      nodes := ns;
      size := |ns|;
    }

    /** `check_retransmit`: false on an empty window, otherwise whether a
        full second has passed since the last new acknowledgement. */
    function CheckRetransmit(now: int): (r: bool)
      reads this
      ensures r ==> size != 0
      ensures size != 0 ==> (r <==> now - lastAckTime >= CLOCKS_PER_SEC)
    {
      if size == 0 then false else now - lastAckTime >= CLOCKS_PER_SEC
    }

    /** `cleanup_send_window`: the list released, the window empty. */
    method Cleanup()
      modifies this
      ensures Valid() && nodes == [] && size == 0
      ensures seqNum == old(seqNum) && lastAckTime == old(lastAckTime)
    {
      nodes := [];
      size := 0;
    }
  }

  /** A `recv_window`: the packets received but not yet written, their count
      and the next sequence number expected. */
  class RecvWindow {
    var nodes: seq<Packet>
    var size: int
    var expectSeq: u32
    /** Every chunk written to the output descriptor, in order. */
    var output: seq<seq<u8>>

    ghost predicate Valid()
      reads this
    {
      size == |nodes| <= WINDOW_SLOTS && NonDecreasing(nodes)
    }

    /** `init_recv_window`: empty, expecting sequence number 0. */
    constructor ()
      ensures Valid() && nodes == [] && size == 0 && expectSeq == 0 && output == []
    {
      nodes := [];
      size := 0;
      expectSeq := 0;
      output := [];
    }

    /** `add_to_recv_window`: refused when the window holds 20 packets;
        otherwise `pkt` goes in by sequence number, duplicates allowed. */
    method Add(pkt: Packet) returns (ok: bool)
      requires Valid()
      modifies this
      ensures Valid()
      ensures ok <==> old(size) < WINDOW_SLOTS
      ensures ok ==> nodes == InsertInOrder(old(nodes), pkt) && size == old(size) + 1
      ensures ok ==> multiset(nodes) == multiset(old(nodes)) + multiset{pkt}
      ensures !ok ==> nodes == old(nodes) && size == old(size)
      ensures expectSeq == old(expectSeq) && output == old(output)
    {
      if size >= WINDOW_SLOTS {
        return false;
      }
      var i := InsertPosition(nodes, pkt);
      InsertInOrderSorted(nodes, pkt);
      InsertInOrderMultiset(nodes, pkt);
      nodes := nodes[..i] + [pkt] + nodes[i..];
      size := size + 1;
      return true;
    }

    /** `process_received_data`: one walk over the list that writes out and
        unlinks every node not above the expectation as it stands, moving the
        expectation past it; returns the final expectation. */
    method ProcessReceivedData() returns (r: u32)
      requires Valid()
      modifies this
      ensures Valid()
      ensures var d := Deliver(old(nodes), old(expectSeq));
              nodes == d.kept && output == old(output) + d.out && expectSeq == d.expected
      ensures size == |nodes| && r == expectSeq
    {
      var ns, out, e := DeliveryWalk(nodes, expectSeq);
      DeliverKeptSorted(nodes, expectSeq);
      nodes := ns;
      size := |ns|;
      expectSeq := e;
      output := output + out;
      r := e;
    }

    /** `cleanup_recv_window`: the list released, the window empty. */
    method Cleanup()
      modifies this
      ensures Valid() && nodes == [] && size == 0
      ensures expectSeq == old(expectSeq) && output == old(output)
    {
      nodes := [];
      size := 0;
    }
  }

  /** A suffix of a sorted list is sorted. */
  lemma NonDecreasingSuffix(s: seq<Packet>, k: nat)
    requires NonDecreasing(s) && k <= |s|
    ensures NonDecreasing(s[k..])
  {
    forall i, j | 0 <= i < j < |s| - k ensures s[k..][i].seqNum <= s[k..][j].seqNum {
      assert s[k..][i] == s[k + i] && s[k..][j] == s[k + j];
    }
  }

  /** What the delivery pass keeps of a sorted list is sorted. */
  lemma DeliverKeptSorted(s: seq<Packet>, e: u32)
    requires NonDecreasing(s)
    ensures NonDecreasing(Deliver(s, e).kept)
  {
    DeliverSorted(s, e);
    NonDecreasingSuffix(s, DeliveredCount(s, e));
  }
}
