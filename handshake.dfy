/** The server side of the connection handshake, the receive loop of
    `main` in project/server.c: a SYN is answered with a SYN-ACK, and the
    handshake is complete once an ACK acknowledges `send_seq + 1`. Sequence
    numbers are compared as received, without byte-order conversion. */
module Handshake {
  import opened Packets

  /** The loop's variables `recv_seq`, `send_seq`, `ready_to_send`, `syn`. */
  datatype State = State(recvSeq: u32, sendSeq: u32, ready: bool, syn: bool)

  /** The reply to a SYN: acknowledges `recvSeq`, carries `sendSeq`, no
      data, flags ACK|SYN; the rest of the reused send buffer is kept. */
  function SynAck(h: State, buf: Packet): (r: Packet)
    ensures r.ackNum == h.recvSeq && r.seqNum == h.sendSeq && r.length == 0
    ensures HasSyn(r.flags) && HasAck(r.flags)
    ensures r.unused == buf.unused && r.payload == buf.payload
  {
    Packet(h.recvSeq, h.sendSeq, 0, PKT_SYN_ACK, buf.unused, buf.payload)
  }

  /** What one received packet does to the handshake variables. A SYN
      bit wins over an ACK bit. */
  function Next(h: State, p: Packet): (r: State)
    ensures HasSyn(p.flags) ==>
              r == h.(recvSeq := Advance(p.seqNum, 1), syn := true)
    ensures !HasSyn(p.flags) && !HasAck(p.flags) ==> r == h
    ensures !HasSyn(p.flags) && HasAck(p.flags) ==>
              var expected := Advance(h.sendSeq, 1);
              (p.ackNum > expected ==> r == h) &&
              (p.ackNum < expected ==> r == h.(recvSeq := Advance(p.seqNum, 1), sendSeq := p.ackNum)) &&
              (p.ackNum == expected ==> r == h.(ready := true))
  {
    if HasSyn(p.flags) then
      h.(recvSeq := Advance(p.seqNum, 1), syn := true)
    else if HasAck(p.flags) then
      var expected := Advance(h.sendSeq, 1);
      if p.ackNum > expected then h
      else if p.ackNum < expected then h.(recvSeq := Advance(p.seqNum, 1), sendSeq := p.ackNum)
      else h.(ready := true)
    else h
  }

  /** The loop over a run of received packets: it ends as soon as the
      handshake is complete, so later packets are never looked at. */
  function Run(h: State, ps: seq<Packet>): (r: State)
    ensures h.ready || ps == [] ==> r == h
    ensures r.ready ==> h.ready || ps != []
    decreases |ps|
  {
    if h.ready || ps == [] then h else Run(Next(h, ps[0]), ps[1..])
  }

  /** An ACK (without SYN) that acknowledges `send_seq + 1` in state `h`. */
  predicate Completes(h: State, p: Packet)
  {
    !HasSyn(p.flags) && HasAck(p.flags) && p.ackNum == Advance(h.sendSeq, 1)
  }

  /** One packet completes the handshake exactly when it is an ACK that
      acknowledges `send_seq + 1`, and a completed handshake never reopens. */
  lemma NextReady(h: State, p: Packet)
    ensures !h.ready ==> (Next(h, p).ready <==> Completes(h, p))
    ensures h.ready ==> Next(h, p).ready
  {
  }

  /** A run that completes the handshake contains a packet that completed
      it: an ACK of `send_seq + 1` in the state the run had reached. */
  lemma {:induction false} RunReadyWitness(h: State, ps: seq<Packet>)
    requires !h.ready && Run(h, ps).ready
    ensures exists i :: 0 <= i < |ps| && !Run(h, ps[..i]).ready && Completes(Run(h, ps[..i]), ps[i])
    decreases |ps|
  {
    assert ps != [];
    var h1 := Next(h, ps[0]);
    assert ps[..0] == [];
    if h1.ready {
      NextReady(h, ps[0]);
      assert Completes(Run(h, ps[..0]), ps[0]);
    } else {
      RunReadyWitness(h1, ps[1..]);
      var i :| 0 <= i < |ps[1..]| && !Run(h1, ps[1..][..i]).ready && Completes(Run(h1, ps[1..][..i]), ps[1..][i]);
      assert ps[..i + 1][1..] == ps[1..][..i];
      assert Run(h, ps[..i + 1]) == Run(h1, ps[1..][..i]);
      assert ps[i + 1] == ps[1..][i];
    }
  }

  /** Once the handshake is complete, further packets change nothing. */
  lemma {:induction false} RunStops(h: State, ps: seq<Packet>, qs: seq<Packet>)
    requires Run(h, ps).ready
    ensures Run(h, ps + qs) == Run(h, ps)
    decreases |ps|
  {
    if !h.ready {
      assert ps != [];
      assert (ps + qs)[0] == ps[0] && (ps + qs)[1..] == ps[1..] + qs;
      RunStops(Next(h, ps[0]), ps[1..], qs);
    }
  }

  /** The server's handshake variables and its reused send buffer. */
  class Server {
    var recvSeq: u32
    var sendSeq: u32
    var readyToSend: bool
    var syn: bool
    var pktSend: Packet
    /** Every packet handed to `send_packet`, in order. */
    ghost var sent: seq<Packet>

    function Current(): State
      reads this
    {
      State(recvSeq, sendSeq, readyToSend, syn)
    }

    /** The start of `main`: `send_seq` is `rand() & RANDMASK` for the
        `rand()` result `r`, so below 2^31; nothing is received yet. */
    constructor (r: u32)
      ensures sendSeq == MaskRand(r) && sendSeq < 0x8000_0000
      ensures !readyToSend && !syn && sent == []
    {
      recvSeq := 0;
      sendSeq := MaskRand(r);
      readyToSend := false;
      syn := false;
      pktSend := Packet(0, 0, 0, 0, 0, ZeroPayload());
      sent := [];
    }

    /** One iteration of the loop: returns true (the loop exits) when the
        handshake was already complete; otherwise handles the packet
        received, if any. */
    method Step(incoming: Option<Packet>) returns (done: bool)
      modifies this
      ensures done <==> old(readyToSend)
      ensures done || incoming.None? ==>
                Current() == old(Current()) && pktSend == old(pktSend) && sent == old(sent)
      ensures !done && incoming.Some? ==> Current() == Next(old(Current()), incoming.value)
      ensures !done && incoming.Some? && HasSyn(incoming.value.flags) ==>
                pktSend == SynAck(Current(), old(pktSend)) && sent == old(sent) + [pktSend]
      ensures !done && incoming.Some? && !HasSyn(incoming.value.flags) ==>
                pktSend == old(pktSend) && sent == old(sent)
    {
      if readyToSend {
        return true;
      }
      if incoming.Some? {
        var p := incoming.value;
        if HasSyn(p.flags) {
          recvSeq := Advance(p.seqNum, 1);
          pktSend := Packet(recvSeq, sendSeq, 0, PKT_SYN_ACK, pktSend.unused, pktSend.payload);
          syn := true;
          sent := sent + [pktSend];
        } else if HasAck(p.flags) {
          var expected := Advance(sendSeq, 1);
          if p.ackNum > expected {
          } else if p.ackNum < expected {
            recvSeq := Advance(p.seqNum, 1);
            sendSeq := p.ackNum;
          } else {
            readyToSend := true;
          }
        }
      }
      return false;
    }
  }
}
