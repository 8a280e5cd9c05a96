/** The body of `hz_process_out_udp` (`src/udp.c`) on the heap: a walk over the connection list
    that dequeues from and requeues to the send rings. */
module SweepIo {
  import opened FrameHeaders
  import opened Lists
  import opened UdpInfo
  import opened Rings
  import opened Connections
  import opened OutSweep
  import ArpTable

  /** A frame on the output ring: the arguments of `hz_send_udp` and `hz_send_arp`. */
  datatype OutFrame = Udp(d: Datagram, dstMac: Mac) | Arp(f: ArpTable.ArpFrame)

  class OutRing {
    var frames: seq<OutFrame>

    constructor ()
      ensures frames == []
    {
      frames := [];
    }

    /** `rte_ring_mp_enqueue_burst` of one frame, its result ignored. */
    method Burst(f: OutFrame)
      modifies this
      ensures frames == Enqueue(old(frames), f)
    {
      if |frames| < CAPACITY {
        frames := frames + [f];
      }
    }
  }

  /** An unresolved destination is announced with an ARP packet of opcode reply addressed to
      this host's own link-layer address, as the code has it. */
  function OnWire<X>(frame: Frame<X>, deviceMac: Mac): OutFrame {
    match frame
    case UdpOut(_, p, mac) => Udp(p.d, mac)
    case ArpOut(_, p) => Arp(ArpTable.ArpFrame(ArpTable.ARP_OP_REPLY, deviceMac, p.d.srcIp, p.d.dstIp))
  }

  /** A frame is a UDP frame exactly if its datagram's destination was resolved, and then it is of that datagram
      and to that address; else it is an ARP packet from the datagram's source for its destination. */
  lemma WireOf<X>(k: nat, p: Parcel<X>, es: seq<ArpTable.ArpEntry>, deviceMac: Mac)
    ensures var w, found := OnWire(FrameFor(k, p, es), deviceMac), ArpTable.Lookup(es, p.d.dstIp);
            && (w.Udp? <==> found.Some?)
            && (w.Udp? ==> w.d == p.d && w.dstMac == found.value)
            && (w.Arp? ==> w.f.opcode == 2 && w.f.dstMac == deviceMac && w.f.sip == p.d.srcIp && w.f.dip == p.d.dstIp)
  {
  }

  /** The output ring after a sequence of frames: those that did not fit are gone. */
  function AfterBursts<X>(q: seq<OutFrame>, frames: seq<Frame<X>>, deviceMac: Mac): seq<OutFrame>
    decreases |frames|
  {
    if frames == [] then q
    else Enqueue(AfterBursts(q, frames[..|frames| - 1], deviceMac), OnWire(frames[|frames| - 1], deviceMac))
  }

  lemma AfterOneMore<X>(q: seq<OutFrame>, frames: seq<Frame<X>>, f: Frame<X>, deviceMac: Mac)
    ensures AfterBursts(q, frames + [f], deviceMac) == Enqueue(AfterBursts(q, frames, deviceMac), OnWire(f, deviceMac))
  {
    assert (frames + [f])[..|frames|] == frames;
  }

  function Wires<X>(frames: seq<Frame<X>>, deviceMac: Mac): (w: seq<OutFrame>)
    ensures |w| == |frames|
  {
    seq(|frames|, i requires 0 <= i < |frames| => OnWire(frames[i], deviceMac))
  }

  /** Of the frames of a sweep exactly the first ones enter the output ring, as many as it has room for. */
  lemma {:induction false} FirstFramesEnter<X>(q: seq<OutFrame>, frames: seq<Frame<X>>, deviceMac: Mac)
    requires |q| <= CAPACITY
    ensures AfterBursts(q, frames, deviceMac) ==
            q + Wires(frames, deviceMac)[..if |q| + |frames| <= CAPACITY then |frames| else CAPACITY - |q|]
    decreases |frames|
  {
    if frames != [] {
      var front := frames[..|frames| - 1];
      FirstFramesEnter(q, front, deviceMac);
      assert Wires(frames, deviceMac) == Wires(front, deviceMac) + [OnWire(frames[|frames| - 1], deviceMac)];
    }
  }

  /** No frame is refused if and only if there is room for all of them. */
  lemma AllFramesEnterIff<X>(q: seq<OutFrame>, frames: seq<Frame<X>>, deviceMac: Mac)
    requires |q| <= CAPACITY
    ensures AfterBursts(q, frames, deviceMac) == q + Wires(frames, deviceMac) <==> |q| + |frames| <= CAPACITY
  {
    FirstFramesEnter(q, frames, deviceMac);
    assert |q + Wires(frames, deviceMac)| == |q| + |frames|;
  }

  // ----- Send rings as values, each record tagged with itself -----

  ghost function Parcels(ps: seq<UdpPayload>): (r: seq<Parcel<UdpPayload>>)
    requires forall i | 0 <= i < |ps| :: ps[i].Valid()
    reads ps, set p | p in ps :: p.data
    ensures |r| == |ps|
    ensures forall i | 0 <= i < |ps| :: r[i] == Parcel(ps[i], ps[i].Value())
  {
    seq(|ps|, i requires 0 <= i < |ps| && ps[i].Valid() reads ps, set p | p in ps :: p.data =>
      Parcel(ps[i], ps[i].Value()))
  }

  ghost predicate Holds(ring: Ring, q: seq<Parcel<UdpPayload>>)
    reads ring, ring.items, set p | p in ring.items :: p.data
  {
    RingValid(ring) && Parcels(ring.items) == q
  }

  /** Puts a parked record back at the tail. */
  method Park(ring: Ring, p: UdpPayload, ghost q: seq<Parcel<UdpPayload>>)
    requires Holds(ring, q) && p.Valid() && p !in ring.items && p.home == ring
    modifies ring`items
    ensures Holds(ring, Enqueue(q, Parcel(p, p.Value())))
  {
    var _ := ring.MpEnqueue(p);
    assert Parcels(ring.items) == Enqueue(q, Parcel(p, p.Value()));
  }

  method Unqueue(ring: Ring, ghost q: seq<Parcel<UdpPayload>>) returns (p: UdpPayload)
    requires Holds(ring, q) && q != []
    modifies ring`items
    ensures Holds(ring, q[1..]) && p !in ring.items && p.Valid() && p.home == ring && q[0] == Parcel(p, p.Value())
  {
    var _, x := ring.McDequeue();
    p := x;
    assert Parcels(ring.items) == q[1..];
  }

  /** The two calls that build a frame and hand it to the output ring. */
  method Emit(p: UdpPayload, mac: ArpTable.Option<Mac>, out: OutRing, deviceMac: Mac)
    requires p.Valid()
    modifies out
    ensures out.frames == Enqueue(old(out.frames), match mac
              case Some(m) => Udp(p.Value(), m)
              case None => Arp(ArpTable.ArpFrame(ArpTable.ARP_OP_REPLY, deviceMac, p.srcIp, p.dstIp)))
  {
    if mac == ArpTable.None {
      out.Burst(Arp(ArpTable.ArpFrame(ArpTable.ARP_OP_REPLY, deviceMac, p.srcIp, p.dstIp)));
    } else {
      var d := Datagram(p.srcIp, p.dstIp, p.srcPort, p.dstPort, p.protocol, p.data[..p.dataLength]);
      out.Burst(Udp(d, mac.value));
    }
  }

  /** The loop body for a ring that has a datagram. */
  method ServeHead(ring: Ring, arp: ArpTable.Table, out: OutRing, deviceMac: Mac, ghost k: nat,
                   ghost q: seq<Parcel<UdpPayload>>, ghost es: seq<ArpTable.ArpEntry>)
    requires Holds(ring, q) && q != [] && arp.Valid() && arp.Value() == es
    modifies ring`items, out
    ensures Holds(ring, ServeRing(q, es))
    ensures out.frames == Enqueue(old(out.frames), OnWire(FrameFor(k, q[0], es), deviceMac))
  {
    var p := Unqueue(ring, q);
    var mac := arp.GetMacByIp(p.dstIp);
    assert mac == ArpTable.Lookup(es, q[0].d.dstIp);
    Emit(p, mac, out, deviceMac);
    assert out.frames == Enqueue(old(out.frames), OnWire(FrameFor(k, q[0], es), deviceMac));
    if mac == ArpTable.None {
      Park(ring, p, q[1..]);
    }
  }

  /** What a sweep only reads: the connection list and the ARP table. */
  ghost predicate Standing(head: Node?<Conn>, s: seq<Node<Conn>>, rs: seq<Ring>, arp: ArpTable.Table,
                           es: seq<ArpTable.ArpEntry>)
    reads s, arp, arp.chain
  {
    Chain(head, s) && SendRingsOf(s, rs) && arp.Valid() && arp.Value() == es
  }

  /** The same seen from all send rings: the others keep what they hold. */
  method ServeAt(ring: Ring, arp: ArpTable.Table, out: OutRing, deviceMac: Mac, ghost head: Node?<Conn>,
                 ghost s: seq<Node<Conn>>, ghost rs: seq<Ring>, ghost k: nat,
                 ghost now: seq<seq<Parcel<UdpPayload>>>, ghost es: seq<ArpTable.ArpEntry>)
    returns (ghost next: seq<seq<Parcel<UdpPayload>>>)
    requires k < |rs| == |now| && rs[k] == ring && now[k] != []
    requires AllDifferent(rs)
    requires forall i | 0 <= i < |rs| :: Holds(rs[i], now[i])
    requires Standing(head, s, rs, arp, es)
    modifies ring`items, out
    ensures Standing(head, s, rs, arp, es)
    ensures next == now[k := ServeRing(now[k], es)]
    ensures forall i | 0 <= i < |rs| :: Holds(rs[i], next[i])
    ensures out.frames == Enqueue(old(out.frames), OnWire(FrameFor(k, now[k][0], es), deviceMac))
  {
    ServeHead(ring, arp, out, deviceMac, k, now[k], es);
    next := now[k := ServeRing(now[k], es)];
  }

  /** The sweep of qs has come to list position k: `done` is emitted, `now` is what the rings hold. */
  ghost predicate Underway<X>(qs: seq<seq<Parcel<X>>>, es: seq<ArpTable.ArpEntry>, now: seq<seq<Parcel<X>>>, k: nat,
                              done: seq<Frame<X>>)
  {
    && k <= |now|
    && SweepFrom(now, es, k).rings == Sweep(qs, es).rings
    && done + SweepFrom(now, es, k).out == Sweep(qs, es).out
  }

  lemma SweepGoesOn<X>(qs: seq<seq<Parcel<X>>>, es: seq<ArpTable.ArpEntry>, now: seq<seq<Parcel<X>>>, k: nat,
                       done: seq<Frame<X>>)
    requires Underway(qs, es, now, k, done) && k < |now| && now[k] != []
    ensures Underway(qs, es, now[k := ServeRing(now[k], es)], k + 1, done + [FrameFor(k, now[k][0], es)])
  {
    var frame, rest := FrameFor(k, now[k][0], es), SweepFrom(now[k := ServeRing(now[k], es)], es, k + 1).out;
    assert done + ([frame] + rest) == done + [frame] + rest;
  }

  lemma SweepIsOver<X>(qs: seq<seq<Parcel<X>>>, es: seq<ArpTable.ArpEntry>, now: seq<seq<Parcel<X>>>, k: nat,
                       done: seq<Frame<X>>)
    requires Underway(qs, es, now, k, done) && (k == |now| || now[k] == [])
    ensures now == Sweep(qs, es).rings && done == Sweep(qs, es).out
  {
    assert done + [] == done;
  }

  /** `hz_process_out_udp`: the send rings, the output ring, and every record that moved are as
      the sweep of module OutSweep has them. `qs` names what the rings hold before. */
  method ProcessOutUdp(head: Node?<Conn>, arp: ArpTable.Table, out: OutRing, deviceMac: Mac,
                       ghost s: seq<Node<Conn>>, ghost rs: seq<Ring>, ghost qs: seq<seq<Parcel<UdpPayload>>>)
    requires OneWay(head, s) && SendRingsOf(s, rs) && AllDifferent(rs) && arp.Valid()
    requires |qs| == |rs| && forall i | 0 <= i < |rs| :: Holds(rs[i], qs[i])
    modifies rs`items, out
    ensures var r := Sweep(qs, old(arp.Value()));
            && (forall i | 0 <= i < |rs| :: Holds(rs[i], r.rings[i]))
            && out.frames == AfterBursts(old(out.frames), r.out, deviceMac)
  {
    ghost var es := arp.Value();
    ghost var k, now, done := 0, qs, [];
    OneWayIsChain(head, s);
    assert Standing(head, s, rs, arp, es);
    var info := head;
    while info != null
      invariant 0 <= k <= |s| == |now| && info == After(s, k - 1)
      invariant Standing(head, s, rs, arp, es)
      invariant forall i | 0 <= i < |rs| :: Holds(rs[i], now[i])
      invariant Underway(qs, es, now, k, done)
      invariant out.frames == AfterBursts(old(out.frames), done, deviceMac)
      decreases |s| - k
    {
      var ring := info.value.sendBuffer;
      assert ring == rs[k] && Holds(ring, now[k]);
      if ring.items == [] {
        SweepIsOver(qs, es, now, k, done);
        return;
      }
      ghost var frame := FrameFor(k, now[k][0], es);
      SweepGoesOn(qs, es, now, k, done);
      now := ServeAt(ring, arp, out, deviceMac, head, s, rs, k, now, es);
      AfterOneMore(old(out.frames), done, frame, deviceMac);
      done := done + [frame];
      assert info == s[k] && s[k].next == After(s, k);
      info := info.next;
      k := k + 1;
    }
    SweepIsOver(qs, es, now, k, done);
  }
}
