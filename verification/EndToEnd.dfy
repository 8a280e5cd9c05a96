/** One datagram from `hz_sendto` on one host to `hz_receive_from` on another. */
module EndToEnd {
  import opened Bytes
  import opened FrameHeaders
  import opened UdpInfo
  import opened UdpFrame
  import opened Rings
  import opened ArpTable
  import opened Connections
  import opened ReceiveQueue
  import opened OutSweep
  import SocketIo
  import SweepIo

  /** What a frame gets on its way that the payload does not decide: the sending device's address, the memory
      behind the payload, and the checksums the foreign functions computed. */
  datatype Link = Link(deviceMac: Mac, slack: seq<byte>, ipCksum: u16, udpCksum: u16)

  /** The receiving host: its connections, the list position k and the receive ring q of the one the datagram
      is for, the lengths of the reads that come before, and the room of the read that is to return it. */
  datatype Receiver = Receiver(conns: seq<ConnInfo>, k: nat, q: seq<Datagram>, lens: seq<nat>, len: nat)

  /** The bytes that leave the host for datagram d. */
  function Transmitted(d: Datagram, mac: Mac, link: Link): seq<byte>
    requires |d.data| < 0x1_0000 && |link.slack| == 8
  {
    WireBytes(link.deviceMac, mac, d, link.slack, link.ipCksum, link.udpCksum)
  }

  /** What the receiving host does with a frame: it enters the receive ring of that connection, and after one
      read for each datagram queued before, with any lengths, the next one returns `chunk`. */
  ghost predicate Arrives(wire: seq<byte>, to: Receiver, chunk: Chunk) {
    && Complete(wire) && DispatchedToUdp(wire)
    && SocketIo.Addressee(to.conns, Parse(wire)) == to.k
    && var now := AfterReads(Enqueue(to.q, Parse(wire)), to.lens);
       now != [] && Taken(now[0], to.len) == chunk
  }

  /** A socket bound to the destination, room in its ring, and room enough in the read. */
  ghost predicate Ready(to: Receiver, sender: ConnInfo, bytes: seq<byte>, dstIp: u32, dstPort: u16) {
    && First(to.conns, BySocket(dstIp, sender.sip, dstPort, sender.srcPort, PROTOCOL_UDP)) == to.k
    && |to.q| < CAPACITY && |to.lens| == |to.q| && to.len >= |bytes|
  }

  /** What a framed datagram is made of arrives whole, with the sender's address and port, for exactly the
      payloads of at most 65493 bytes. */
  lemma FrameArrivesIff(sender: ConnInfo, bytes: seq<byte>, dstIp: u32, dstPort: u16, mac: Mac, link: Link, to: Receiver)
    requires |link.slack| == 8 && Ready(to, sender, bytes, dstIp, dstPort)
    ensures var wire := Transmitted(SocketIo.Outgoing(sender, dstIp, dstPort, bytes), mac, link);
            Arrives(wire, to, Chunk(bytes, sender.sip, sender.srcPort)) <==> |bytes| <= 65493
  {
    var sent := SocketIo.Outgoing(sender, dstIp, dstPort, bytes);
    SocketIo.SendToKeepsAllBytesIff(sender, dstIp, dstPort, bytes);
    if |sent.data| > 65493 {
      LongFrameIsCut(sent, mac, link);
    } else {
      ShortFrameArrives(sent, mac, link, to);
    }
  }

  lemma LongFrameIsCut(d: Datagram, mac: Mac, link: Link)
    requires 65493 < |d.data| < 0x1_0000 && |link.slack| == 8
    ensures !Complete(Transmitted(d, mac, link))
  {
    WireIsCutImage(link.deviceMac, mac, d, link.slack, link.ipCksum, link.udpCksum);
  }

  lemma ShortFrameArrives(d: Datagram, mac: Mac, link: Link, to: Receiver)
    requires |d.data| <= 65493 && |link.slack| == 8
    requires First(to.conns, BySocket(d.dstIp, d.srcIp, d.dstPort, d.srcPort, PROTOCOL_UDP)) == to.k
    requires |to.q| < CAPACITY && |to.lens| == |to.q|
    ensures forall chunk :: Arrives(Transmitted(d, mac, link), to, chunk) <==> chunk == Taken(d, to.len)
  {
    SmallWireRoundTrip(link.deviceMac, mac, d, link.slack, link.ipCksum, link.udpCksum);
    var arrived := d.(protocol := PROTOCOL_UDP);
    assert Parse(Transmitted(d, mac, link)) == arrived;
    assert Enqueue(to.q, arrived) == to.q + [arrived];
    ReadsReachPosition(to.q + [arrived], to.lens);
    assert Taken(arrived, to.len) == Taken(d, to.len);
  }

  // ----- From the send ring -----

  ghost predicate FromRing<X>(frames: seq<Frame<X>>, k: nat, q: seq<Parcel<X>>, es: seq<ArpEntry>) {
    forall f | f in frames :: f.p in q && f == FrameFor(k, f.p, es)
  }

  lemma FromRingStep<X>(rest: seq<Frame<X>>, k: nat, q: seq<Parcel<X>>, es: seq<ArpEntry>)
    requires q != [] && FromRing(rest, k, ServeRing(q, es), es)
    ensures FromRing([FrameFor(k, q[0], es)] + rest, k, q, es)
  {
    assert forall x | x in ServeRing(q, es) :: x in q;
  }

  /** Every frame of a connection is of a datagram that was in its ring, made with the ARP table's answer. */
  lemma {:induction false} FramesFromRing<X>(rings: seq<seq<Parcel<X>>>, es: seq<ArpEntry>, k: nat, n: nat)
    requires k < |rings|
    ensures FromRing(OfSocket(Sweeps(rings, es, n).out, k), k, rings[k], es)
    decreases n
  {
    if n > 0 {
      FrameOfSweep(rings, es, k);
      SweepsStep(rings, es, n, k);
      FramesFromRing(Sweep(rings, es).rings, es, k, n - 1);
      var rest := OfSocket(Sweeps(Sweep(rings, es).rings, es, n - 1).out, k);
      if k < Reach(rings, 0) {
        FromRingStep(rest, k, rings[k], es);
      } else {
        assert [] + rest == rest;
      }
    }
  }

  /** A datagram put into a send ring with room is framed by the sweep that makes one rotation with it
      complete, behind those queued before. */
  lemma LastIsFramed<X>(rings: seq<seq<Parcel<X>>>, es: seq<ArpEntry>, k: nat, p: Parcel<X>)
    requires k < |rings| && |rings[k]| < CAPACITY && FrontLasts(rings, es, k, |rings[k]| + 1)
    ensures var after := rings[k := Enqueue(rings[k], p)];
            OfSocket(Sweeps(after, es, |rings[k]| + 1).out, k) == FramesFor(k, rings[k], es) + [FrameFor(k, p, es)]
  {
    var after := rings[k := rings[k] + [p]];
    assert FrontLasts(after, es, k, |after[k]|);
    RotationPartitions(after, es, k);
    FramesOfAppend(k, rings[k], p, es);
  }

  /** The frame is a UDP frame, and what it says goes out and arrives. */
  ghost predicate FrameReaches<X>(f: Frame<X>, link: Link, to: Receiver, chunk: Chunk)
    requires |link.slack| == 8
  {
    var w := SweepIo.OnWire(f, link.deviceMac);
    w.Udp? && |w.d.data| < 0x1_0000 && Arrives(Transmitted(w.d, w.dstMac, link), to, chunk)
  }

  /** Within n sweeps datagram p of the connection at list position k is framed, and the frame arrives. */
  ghost predicate ComesThrough<X>(rings: seq<seq<Parcel<X>>>, es: seq<ArpEntry>, k: nat, n: nat, p: Parcel<X>,
                                  link: Link, to: Receiver, chunk: Chunk)
    requires |link.slack| == 8
  {
    exists f | f in OfSocket(Sweeps(rings, es, n).out, k) :: f.p == p && FrameReaches(f, link, to, chunk)
  }

  lemma ComesThroughIff<X>(rings: seq<seq<Parcel<X>>>, es: seq<ArpEntry>, k: nat, n: nat, p: Parcel<X>, mac: Mac,
                           link: Link, to: Receiver, chunk: Chunk)
    requires k < |rings| && |link.slack| == 8 && |p.d.data| < 0x1_0000 && Lookup(es, p.d.dstIp) == Some(mac)
    ensures ComesThrough(rings, es, k, n, p, link, to, chunk) <==>
              UdpOut(k, p, mac) in OfSocket(Sweeps(rings, es, n).out, k) && Arrives(Transmitted(p.d, mac, link), to, chunk)
  {
    FramesFromRing(rings, es, k, n);
  }

  /** The datagram is framed within one rotation if and only if the ring had room for it. */
  lemma FramedIff<X>(rings: seq<seq<Parcel<X>>>, es: seq<ArpEntry>, k: nat, p: Parcel<X>, mac: Mac)
    requires k < |rings| && FrontLasts(rings, es, k, |rings[k]| + 1)
    requires p !in rings[k] && Lookup(es, p.d.dstIp) == Some(mac)
    ensures var after := rings[k := Enqueue(rings[k], p)];
            UdpOut(k, p, mac) in OfSocket(Sweeps(after, es, |rings[k]| + 1).out, k) <==> |rings[k]| < CAPACITY
  {
    if |rings[k]| < CAPACITY {
      LastIsFramed(rings, es, k, p);
      var frames := FramesFor(k, rings[k], es) + [FrameFor(k, p, es)];
      assert frames[|frames| - 1] == UdpOut(k, p, mac);
    } else {
      assert rings[k := Enqueue(rings[k], p)] == rings;
      FramesFromRing(rings, es, k, |rings[k]| + 1);
    }
  }

  /** From one call to the other. Given a resolved destination, a socket bound to it that is ready, and no
      ring in front that runs empty, a payload handed to `hz_sendto` comes through, whole and with the
      sender's address and port, if and only if the send ring has room for it and it has at most 65493
      bytes. */
  lemma SocketToSocket<X>(rings: seq<seq<Parcel<X>>>, es: seq<ArpEntry>, k: nat, tag: X,
                          sender: ConnInfo, bytes: seq<byte>, dstIp: u32, dstPort: u16, link: Link, to: Receiver)
    requires k < |rings| && FrontLasts(rings, es, k, |rings[k]| + 1)
    requires forall x | x in rings[k] :: x.tag != tag
    requires Lookup(es, dstIp) != None && |link.slack| == 8 && Ready(to, sender, bytes, dstIp, dstPort)
    ensures var p := Parcel(tag, SocketIo.Outgoing(sender, dstIp, dstPort, bytes));
            var after := rings[k := Enqueue(rings[k], p)];
            ComesThrough(after, es, k, |rings[k]| + 1, p, link, to, Chunk(bytes, sender.sip, sender.srcPort)) <==>
              |rings[k]| < CAPACITY && |bytes| <= 65493
  {
    var p := Parcel(tag, SocketIo.Outgoing(sender, dstIp, dstPort, bytes));
    var after, n := rings[k := Enqueue(rings[k], p)], |rings[k]| + 1;
    var mac := Lookup(es, dstIp).value;
    FramedIff(rings, es, k, p, mac);
    ComesThroughIff(after, es, k, n, p, mac, link, to, Chunk(bytes, sender.sip, sender.srcPort));
    FrameArrivesIff(sender, bytes, dstIp, dstPort, mac, link, to);
  }
}
