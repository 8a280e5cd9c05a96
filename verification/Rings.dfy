/** The contract assumed of a DPDK ring: a bounded first-in first-out queue. A ring
    of RING_SIZE slots holds one element less. */
module Rings {
  import opened Bytes
  import opened UdpInfo

  const RING_SIZE: nat := 1024
  const CAPACITY: nat := RING_SIZE - 1

  /** A full ring refuses the element and stays as it is. */
  function Enqueue<T>(q: seq<T>, x: T): seq<T> {
    if |q| < CAPACITY then q + [x] else q
  }

  /** A ring takes 1023 elements and not one more. */
  lemma RingTakes1023<T>(q: seq<T>, x: T)
    ensures Enqueue(q, x) == if |q| <= 1022 then q + [x] else q
  {
  }

  class Ring {
    var items: seq<UdpPayload>

    constructor ()
      ensures items == []
    {
      items := [];
    }

    /** `rte_ring_mp_enqueue`: zero, or a negative error when full. */
    method MpEnqueue(p: UdpPayload) returns (r: int)
      modifies this`items
      ensures items == Enqueue(old(items), p)
      ensures r < 0 <==> old(|items|) >= CAPACITY
    {
      if |items| < CAPACITY {
        items := items + [p];
        return 0;
      }
      return -105;
    }

    /** `rte_ring_mc_dequeue`: zero and the oldest element, or a negative error when empty. */
    method McDequeue() returns (r: int, p: UdpPayload?)
      modifies this`items
      ensures r < 0 <==> old(items) == []
      ensures r < 0 ==> p == null && items == []
      ensures r >= 0 ==> p == old(items)[0] && items == old(items)[1..]
    {
      if items == [] {
        return -2, null;
      }
      r, p := 0, items[0];
      items := items[1..];
    }
  }

  // ----- What a ring holds -----

  /** No record is queued twice, each is well formed and at home in this ring, hence in no other, and
      the ring is not over its capacity. */
  ghost predicate RingValid(r: Ring)
    reads r, r.items
  {
    && |r.items| <= CAPACITY
    && (forall i | 0 <= i < |r.items| :: r.items[i].Valid() && r.items[i].home == r)
    && (forall i, j | 0 <= i < j < |r.items| :: r.items[i] != r.items[j])
  }

  ghost function Payloads(ps: seq<UdpPayload>): (ds: seq<Datagram>)
    requires forall i | 0 <= i < |ps| :: ps[i].Valid()
    reads ps, set p | p in ps :: p.data
    ensures |ds| == |ps|
    ensures forall i | 0 <= i < |ps| :: ds[i] == ps[i].Value()
  {
    seq(|ps|, i requires 0 <= i < |ps| && ps[i].Valid() reads ps, set p | p in ps :: p.data => ps[i].Value())
  }

  ghost function Contents(r: Ring): seq<Datagram>
    requires RingValid(r)
    reads r, r.items, set p | p in r.items :: p.data
  {
    Payloads(r.items)
  }

  twostate predicate SameRecord(p: UdpPayload)
    reads p
  {
    unchanged(p)
  }

  twostate predicate SameBuffer(b: array<byte>)
    reads b
  {
    unchanged(b)
  }

  /** Every record in the ring has a new buffer, or is one that was there with that buffer before: no
      buffer of a caller has come into the ring. */
  twostate predicate OwnBuffers(r: Ring)
    reads r, r.items
  {
    forall p | p in r.items :: fresh(p.data) || (p in old(r.items) && p.data == old(p.data))
  }

  /** A ring holds what it held when nothing has touched it, its records or their buffers. */
  twostate lemma RingKept(r: Ring)
    requires old(RingValid(r)) && r.items == old(r.items)
    requires forall p | p in r.items :: SameRecord(p) && SameBuffer(p.data)
    ensures RingValid(r) && Contents(r) == old(Contents(r)) && OwnBuffers(r)
  {
    assert forall i | 0 <= i < |r.items| :: r.items[i].Value() == old(r.items[i].Value());
  }

  /** A new record goes into a ring; a full ring drops it. */
  method EnqueueNew(ring: Ring, p: UdpPayload)
    requires RingValid(ring) && p.Valid() && p !in ring.items
    requires p.home == null || p.home == ring
    modifies ring`items, p`home
    ensures RingValid(ring)
    ensures Contents(ring) == Enqueue(old(Contents(ring)), old(p.Value()))
    ensures ring.items == Enqueue(old(ring.items), p)
  {
    ghost var was := Contents(ring);
    p.home := ring;
    var _ := ring.MpEnqueue(p);
    assert Contents(ring) == Enqueue(was, p.Value());
  }

  /** No ring is shared. */
  ghost predicate AllDifferent(rs: seq<Ring>) {
    forall i, j | 0 <= i < j < |rs| :: rs[i] != rs[j]
  }
}
