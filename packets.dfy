/** The fixed-size segment record shared by every iteration of the transport,
    and the small helpers the engines use to talk about runs of segments. */
module Packets {

  /** Unsigned machine integers of the record's fields. */
  type u8 = x: int | 0 <= x < 0x100
  type u16 = x: int | 0 <= x < 0x1_0000
  type u32 = x: int | 0 <= x < 0x1_0000_0000

  /** Maximum segment size: the number of payload bytes every record carries. */
  const MSS: nat := 1012

  /** Flag bits of the `flags` byte. */
  const PKT_SYN: u8 := 1
  const PKT_ACK: u8 := 2

  /** `PKT_ACK | PKT_SYN`. */
  const PKT_SYN_ACK: u8 := 3

  /** Clock ticks per second of the C `clock()` (POSIX fixes it at one million). */
  const CLOCKS_PER_SEC: int := 1_000_000

  /** `flags & PKT_SYN != 0` */
  predicate HasSyn(flags: u8) { flags % 2 == 1 }

  /** `flags & PKT_ACK != 0` */
  predicate HasAck(flags: u8) { flags / 2 % 2 == 1 }

  /** `rand() & RANDMASK` with RANDMASK = `~(1 << 31)`: bit 31 cleared. */
  function MaskRand(r: u32): (s: u32)
    ensures s < 0x8000_0000
    ensures r < 0x8000_0000 ==> s == r
  {
    r % 0x8000_0000
  }

  /** The payload array of a record always holds exactly MSS bytes. */
  type Payload = s: seq<u8> | |s| == MSS witness seq(1012, _ => 0)

  /** An all-zero payload array. */
  function ZeroPayload(): (z: Payload)
    ensures forall i :: 0 <= i < |z| ==> z[i] == 0
  {
    seq(MSS, _ => 0)
  }

  /** One segment. `ackNum` and `seqNum` are unsigned 32-bit, `length` 16-bit. */
  datatype Packet = Packet(ackNum: u32, seqNum: u32, length: u16, flags: u8, unused: u8, payload: Payload)

  datatype Option<T> = None | Some(value: T)

  function Min(a: int, b: int): int { if a < b then a else b }

  /** The bytes a sink receives for `p`: the first `length` payload bytes
      (capped at MSS, the size of the array). */
  function Data(p: Packet): (d: seq<u8>)
    ensures |d| == Min(p.length, MSS)
    ensures d <= p.payload
  {
    p.payload[..Min(p.length, MSS)]
  }

  /** The sequence number that follows `p`. */
  function NextSeq(p: Packet): u32 { Advance(p.seqNum, p.length) }

  /** Sum of the payload lengths of a run of segments (unbounded). */
  function TotalLength(s: seq<Packet>): nat
  {
    if s == [] then 0 else s[0].length + TotalLength(s[1..])
  }

  /** Extending a run by one segment adds that segment's length. */
  lemma {:induction false} TotalLengthSnoc(s: seq<Packet>, p: Packet)
    ensures TotalLength(s + [p]) == TotalLength(s) + p.length
  {
    if s == [] {
      assert s + [p] == [p];
    } else {
      assert (s + [p])[1..] == s[1..] + [p];
      TotalLengthSnoc(s[1..], p);
    }
  }

  /** Unsigned 32-bit addition `r + n`: the sum wraps modulo 2^32. */
  function Advance(r: u32, n: nat): (s: u32)
    ensures r + n < 0x1_0000_0000 ==> s == r + n
    ensures 0x1_0000_0000 <= r + n < 0x2_0000_0000 ==> s == r + n - 0x1_0000_0000
  {
    (r + n) % 0x1_0000_0000
  }

  /** Two successive advances are one advance by the sum. */
  lemma AdvanceAdd(r: u32, m: nat, n: nat)
    ensures Advance(Advance(r, m), n) == Advance(r, m + n)
  {
  }

  /** The chunks a sink receives for a run of segments, in order. */
  function Payloads(s: seq<Packet>): (out: seq<seq<u8>>)
    ensures |out| == |s|
    ensures forall i :: 0 <= i < |s| ==> out[i] == Data(s[i])
  {
    seq(|s|, i requires 0 <= i < |s| => Data(s[i]))
  }

  /** Segments ordered by sequence number, ties allowed. */
  ghost predicate NonDecreasing(s: seq<Packet>)
  {
    forall i, j :: 0 <= i < j < |s| ==> s[i].seqNum <= s[j].seqNum
  }

  /** Segments ordered by sequence number, no two sharing one. */
  ghost predicate StrictlyIncreasing(s: seq<Packet>)
  {
    forall i, j :: 0 <= i < j < |s| ==> s[i].seqNum < s[j].seqNum
  }

  /** The first element of a run, if any: what a C accessor returns as a
      pointer to the first element or NULL. */
  function Head(s: seq<Packet>): (r: Option<Packet>)
    ensures r.None? <==> s == []
    ensures r.Some? ==> r.value == s[0]
  {
    if s == [] then None else Some(s[0])
  }
}
