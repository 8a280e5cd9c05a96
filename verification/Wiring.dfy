/** The rings of the connections: who owns which, and what each holds. */
module Wiring {
  import opened Bytes
  import opened UdpInfo
  import opened Lists
  import opened Rings
  import opened Connections

  ghost function SendRings(cs: seq<Conn>): set<Ring> {
    set c | c in cs :: c.sendBuffer
  }

  ghost function ReceiveRings(cs: seq<Conn>): set<Ring> {
    set c | c in cs :: c.receiveBuffer
  }

  ghost function RecordsIn(rs: set<Ring>): set<UdpPayload>
    reads rs
  {
    set r, p | r in rs && p in r.items :: p
  }

  /** No ring serves two purposes. */
  ghost predicate OwnRings(cs: seq<Conn>) {
    && (forall i, j | 0 <= i < j < |cs| :: cs[i].sendBuffer != cs[j].sendBuffer)
    && (forall i, j | 0 <= i < j < |cs| :: cs[i].receiveBuffer != cs[j].receiveBuffer)
    && (forall i, j | 0 <= i < |cs| && 0 <= j < |cs| :: cs[i].sendBuffer != cs[j].receiveBuffer)
  }

  /** Every connection has two well-formed rings of its own. As a record is at home in one ring at
      most, none is in two. */
  ghost predicate Wired(cs: seq<Conn>)
    reads *
  {
    OwnRings(cs) && forall i | 0 <= i < |cs| :: RingValid(cs[i].sendBuffer) && RingValid(cs[i].receiveBuffer)
  }

  lemma RecordInOneRing(cs: seq<Conn>, q: Ring, r: Ring, p: UdpPayload)
    requires Wired(cs) && {q, r} <= SendRings(cs) + ReceiveRings(cs)
    requires p in q.items && p in r.items
    ensures q == r
  {
    assert q in {q, r} && r in {q, r};
    assert RingValid(q) && RingValid(r);
    assert p.home == q && p.home == r;
  }

  /** None of these buffers, a caller's own, is the buffer of a queued record. */
  ghost predicate Foreign(cs: seq<Conn>, own: set<array<byte>>)
    reads *
  {
    && (forall i, p | 0 <= i < |cs| && p in cs[i].sendBuffer.items :: p.data !in own)
    && (forall i, p | 0 <= i < |cs| && p in cs[i].receiveBuffer.items :: p.data !in own)
  }

  /** What the send rings hold, in list order. */
  ghost function Sends(cs: seq<Conn>): (qs: seq<seq<Datagram>>)
    requires Wired(cs)
    reads *
    ensures |qs| == |cs|
    ensures forall i | 0 <= i < |cs| :: qs[i] == Contents(cs[i].sendBuffer)
  {
    seq(|cs|, i requires 0 <= i < |cs| && Wired(cs) reads * => Contents(cs[i].sendBuffer))
  }

  /** What the receive rings hold, in list order. */
  ghost function Receives(cs: seq<Conn>): (qs: seq<seq<Datagram>>)
    requires Wired(cs)
    reads *
    ensures |qs| == |cs|
    ensures forall i | 0 <= i < |cs| :: qs[i] == Contents(cs[i].receiveBuffer)
  {
    seq(|cs|, i requires 0 <= i < |cs| && Wired(cs) reads * => Contents(cs[i].receiveBuffer))
  }

  // ----- What a call leaves alone -----

  twostate predicate BuffersKept(cs: seq<Conn>)
    reads *
  {
    forall r | r in SendRings(cs) + ReceiveRings(cs) :: OwnBuffers(r)
  }

  /** A buffer of the caller's that was in no ring still is in none. */
  twostate lemma ForeignStays(cs: seq<Conn>, new own: set<array<byte>>)
    requires old(allocated(own)) && old(Foreign(cs, own)) && BuffersKept(cs)
    ensures Foreign(cs, own)
  {
    forall i, p | 0 <= i < |cs| && (p in cs[i].sendBuffer.items || p in cs[i].receiveBuffer.items)
      ensures p.data !in own
    {
      assert cs[i] in cs;
      assert OwnBuffers(cs[i].sendBuffer) && OwnBuffers(cs[i].receiveBuffer);
    }
  }

  /** The rings of these connections hold what they held. */
  twostate predicate RingsAsBefore(cs: seq<Conn>)
    requires old(Wired(cs))
    reads *
  {
    Wired(cs) && Sends(cs) == old(Sends(cs)) && Receives(cs) == old(Receives(cs)) && BuffersKept(cs)
  }

  /** What touches no ring, record or buffer leaves all rings alone. */
  twostate lemma RingsKept(cs: seq<Conn>)
    requires old(Wired(cs))
    requires forall r: Ring | old(allocated(r)) :: r.items == old(r.items)
    requires forall p: UdpPayload | old(allocated(p)) :: SameRecord(p)
    requires forall b: array<byte> | old(allocated(b)) :: SameBuffer(b)
    ensures RingsAsBefore(cs)
  {
    forall i | 0 <= i < |cs|
      ensures RingValid(cs[i].sendBuffer) && Contents(cs[i].sendBuffer) == old(Contents(cs[i].sendBuffer))
      ensures RingValid(cs[i].receiveBuffer) && Contents(cs[i].receiveBuffer) == old(Contents(cs[i].receiveBuffer))
    {
      RingKept(cs[i].sendBuffer);
      RingKept(cs[i].receiveBuffer);
    }
    forall r | r in SendRings(cs) + ReceiveRings(cs)
      ensures OwnBuffers(r)
    {
      RingKept(r);
    }
  }

  /** What touches no ring and no record leaves the same records queued, with the same buffers. */
  twostate lemma RecordsKept(cs: seq<Conn>, new own: set<array<byte>>)
    requires old(allocated(own)) && old(Foreign(cs, own))
    requires forall r: Ring | old(allocated(r)) :: r.items == old(r.items)
    requires forall p: UdpPayload | old(allocated(p)) :: SameRecord(p)
    ensures Foreign(cs, own)
    ensures RecordsIn(ReceiveRings(cs)) == old(RecordsIn(ReceiveRings(cs)))
  {
    forall i, p | 0 <= i < |cs| && p in cs[i].sendBuffer.items
      ensures p.data !in own
    {
      assert SameRecord(p) && p in old(cs[i].sendBuffer.items);
    }
    forall i, p | 0 <= i < |cs| && p in cs[i].receiveBuffer.items
      ensures p.data !in own
    {
      assert SameRecord(p) && p in old(cs[i].receiveBuffer.items);
    }
    assert forall r | r in ReceiveRings(cs) :: r.items == old(r.items);
  }

  // ----- Records come and go -----

  /** A connection with two fresh empty rings has come to the front. */
  twostate predicate ConnAdded(was: seq<Conn>, new now: seq<Conn>)
    reads *
  {
    && |now| == |was| + 1 && now[1..] == was
    && fresh(now[0].sendBuffer) && fresh(now[0].receiveBuffer) && now[0].sendBuffer != now[0].receiveBuffer
    && now[0].sendBuffer.items == [] && now[0].receiveBuffer.items == []
  }

  lemma IsCons<X>(t: seq<X>, x: X, s: seq<X>)
    requires |t| == |s| + 1 && t[0] == x && forall i | 0 <= i < |s| :: t[i + 1] == s[i]
    ensures t == [x] + s
  {
  }

  twostate lemma WiredAfterAdding(was: seq<Conn>, new now: seq<Conn>, new own: set<array<byte>>)
    requires Wired(was) && ConnAdded(was, now) && Foreign(was, own)
    ensures Wired(now) && Foreign(now, own)
    ensures Sends(now) == [[]] + Sends(was) && Receives(now) == [[]] + Receives(was)
  {
    assert forall i | 0 <= i < |was| :: now[i + 1] == was[i];
    assert Contents(now[0].sendBuffer) == [] && Contents(now[0].receiveBuffer) == [];
    IsCons(Sends(now), [], Sends(was));
    IsCons(Receives(now), [], Receives(was));
  }

  lemma WiredAfterDelete(cs: seq<Conn>, k: nat, own: set<array<byte>>)
    requires Wired(cs) && k < |cs| && Foreign(cs, own)
    ensures Wired(AfterDelete(cs, k)) && Foreign(AfterDelete(cs, k), own)
    ensures Sends(AfterDelete(cs, k)) == AfterDelete(Sends(cs), k)
    ensures Receives(AfterDelete(cs, k)) == AfterDelete(Receives(cs), k)
  {
    var t := AfterDelete(cs, k);
    assert forall i | 0 <= i < |t| :: t[i] == if k == 0 then cs[i + 1] else cs[i];
  }

  lemma SameRings(cs: seq<Conn>, ds: seq<Conn>, own: set<array<byte>>)
    requires Wired(cs) && SameButInfos(cs, ds) && Foreign(cs, own)
    ensures Wired(ds) && Foreign(ds, own) && Sends(ds) == Sends(cs) && Receives(ds) == Receives(cs)
  {
    assert forall i | 0 <= i < |cs| :: ds[i].sendBuffer == cs[i].sendBuffer && ds[i].receiveBuffer == cs[i].receiveBuffer;
  }

  // ----- One ring changes -----

  twostate predicate RingAsBefore(r: Ring)
    reads *
  {
    RingValid(r) && old(RingValid(r)) && Contents(r) == old(Contents(r)) && OwnBuffers(r)
  }

  /** What touches one ring, the records at home in it and the caller's buffer leaves all other rings
      alone. */
  twostate lemma OthersKept(cs: seq<Conn>, new ring: Ring, new buf: array?<byte>)
    requires old(Wired(cs)) && (buf != null ==> old(allocated(buf)) && old(Foreign(cs, {buf})))
    requires forall r: Ring | old(allocated(r)) && r != ring :: r.items == old(r.items)
    requires forall p: UdpPayload | old(allocated(p)) && old(p.home) != ring :: SameRecord(p)
    requires forall b: array<byte> | old(allocated(b)) && b != buf :: SameBuffer(b)
    ensures forall r | r in SendRings(cs) + ReceiveRings(cs) && r != ring :: RingAsBefore(r)
  {
    forall r | r in SendRings(cs) + ReceiveRings(cs) && r != ring
      ensures RingAsBefore(r)
    {
      RingKept(r);
    }
  }

  twostate lemma SendRingChanged(cs: seq<Conn>, new k: nat)
    requires old(Wired(cs)) && k < |cs| && RingValid(cs[k].sendBuffer) && OwnBuffers(cs[k].sendBuffer)
    requires forall r: Ring | old(allocated(r)) && r != cs[k].sendBuffer :: r.items == old(r.items)
    requires forall p: UdpPayload | old(allocated(p)) && old(p.home) != cs[k].sendBuffer :: SameRecord(p)
    requires forall b: array<byte> | old(allocated(b)) :: SameBuffer(b)
    ensures Wired(cs) && Receives(cs) == old(Receives(cs)) && BuffersKept(cs)
    ensures Sends(cs) == old(Sends(cs))[k := Contents(cs[k].sendBuffer)]
  {
    OthersKept(cs, cs[k].sendBuffer, null);
    assert forall i | 0 <= i < |cs| :: RingAsBefore(cs[i].receiveBuffer) && (i != k ==> RingAsBefore(cs[i].sendBuffer));
  }

  twostate lemma ReceiveRingChanged(cs: seq<Conn>, new k: nat, new buf: array?<byte>)
    requires old(Wired(cs)) && (buf != null ==> old(allocated(buf)) && old(Foreign(cs, {buf})))
    requires k < |cs| && RingValid(cs[k].receiveBuffer) && OwnBuffers(cs[k].receiveBuffer)
    requires forall r: Ring | old(allocated(r)) && r != cs[k].receiveBuffer :: r.items == old(r.items)
    requires forall p: UdpPayload | old(allocated(p)) && old(p.home) != cs[k].receiveBuffer :: SameRecord(p)
    requires forall b: array<byte> | old(allocated(b)) && b != buf :: SameBuffer(b)
    ensures Wired(cs) && Sends(cs) == old(Sends(cs)) && BuffersKept(cs)
    ensures Receives(cs) == old(Receives(cs))[k := Contents(cs[k].receiveBuffer)]
  {
    OthersKept(cs, cs[k].receiveBuffer, buf);
    assert forall i | 0 <= i < |cs| :: RingAsBefore(cs[i].sendBuffer) && (i != k ==> RingAsBefore(cs[i].receiveBuffer));
  }

  /** What touches send rings alone leaves the receive rings alone. */
  twostate lemma SendRingsChanged(cs: seq<Conn>)
    requires old(Wired(cs)) && forall i | 0 <= i < |cs| :: RingValid(cs[i].sendBuffer) && OwnBuffers(cs[i].sendBuffer)
    requires forall r: Ring | old(allocated(r)) && r !in SendRings(cs) :: r.items == old(r.items)
    requires forall p: UdpPayload | old(allocated(p)) :: SameRecord(p)
    requires forall b: array<byte> | old(allocated(b)) :: SameBuffer(b)
    ensures Wired(cs) && Receives(cs) == old(Receives(cs)) && BuffersKept(cs)
  {
    forall i | 0 <= i < |cs|
      ensures RingValid(cs[i].receiveBuffer) && Contents(cs[i].receiveBuffer) == old(Contents(cs[i].receiveBuffer))
    {
      RingKept(cs[i].receiveBuffer);
    }
    forall r | r in SendRings(cs) + ReceiveRings(cs)
      ensures OwnBuffers(r)
    {
      if r !in SendRings(cs) {
        RingKept(r);
      }
    }
  }
}
