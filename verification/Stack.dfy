/** The calls on one connection list: each keeps the list and its rings well formed, changes what one
    ring holds, and leaves all others alone. */
module Stack {
  import opened Bytes
  import opened FrameHeaders
  import opened Lists
  import opened UdpInfo
  import opened Rings
  import opened Connections
  import opened Wiring
  import opened FdBitmap
  import opened SocketTable
  import opened OutSweep
  import opened ReceiveQueue
  import SocketIo
  import SweepIo
  import ArpTable
  import UdpFrame

  twostate predicate Same(o: object)
    reads o
  {
    unchanged(o)
  }

  /** What touches no list node, no table and no bitmap leaves the list and the bitmap as they were. */
  twostate lemma ListKept(t: Sockets)
    requires old(t.ListValid())
    requires forall u: Sockets | old(allocated(u)) :: Same(u)
    requires forall n: Node<Conn> | old(allocated(n)) :: Same(n)
    requires forall f: FdTable | old(allocated(f)) :: Same(f)
    requires forall b: array<uchar> | old(allocated(b)) :: Same(b)
    ensures t.ListValid() && t.Value() == old(t.Value())
  {
    assert Same(t) && Same(t.fds) && Same(t.fds.table);
    assert forall i | 0 <= i < |t.chain| :: Same(t.chain[i]);
  }

  // ----- hz_sendto -----

  /** `hz_sendto`. The result is `len` even when the ring was full or the length was cut. */
  method SendTo(t: Sockets, fd: int, buf: array<byte>, len: nat, dstIp: u32, dstPort: u16, ghost own: set<array<byte>>)
    returns (r: int)
    requires t.Valid() && len <= buf.Length && Foreign(t.conns, own)
    modifies SendRings(t.conns)`items
    ensures t.Valid() && t.Value() == old(t.Value()) && Foreign(t.conns, own)
    ensures Receives(t.conns) == old(Receives(t.conns))
    ensures SentTo(old(Sends(t.conns)), Sends(t.conns), t.Value().conns, fd, dstIp, dstPort, buf[..len], r)
  {
    var conn := GetConnInfoByFd(t.head, fd, t.chain);
    RingsKept(t.conns);
    RecordsKept(t.conns, own);
    if conn == null {
      return -1;
    }
    ghost var k := First(t.Value().conns, ByFd(fd));
    assert t.conns[k] in t.conns;
    QueueAt(t, conn.value, dstIp, dstPort, buf, len, k, own);
    return len;
  }

  /** The datagram is in the send ring of the connection with that descriptor, if there is one and its ring
      had room, and in no other. */
  ghost predicate SentTo(was: seq<seq<Datagram>>, now: seq<seq<Datagram>>, cs: seq<ConnInfo>, fd: int,
                         dstIp: u32, dstPort: u16, bytes: seq<byte>, r: int)
    requires |was| == |cs|
  {
    var k := First(cs, ByFd(fd));
    if k == -1 then r == -1 && now == was
    else r == |bytes| && now == was[k := Enqueue(was[k], SocketIo.Outgoing(cs[k], dstIp, dstPort, bytes))]
  }

  /** A send that finds its connection queues its bytes, all of them and nothing else, if and only if there
      are fewer than 65536 and the send ring has room; the result is the same in any case. */
  lemma SendQueuesIff(was: seq<seq<Datagram>>, now: seq<seq<Datagram>>, cs: seq<ConnInfo>, fd: int,
                      dstIp: u32, dstPort: u16, bytes: seq<byte>, r: int)
    requires |was| == |cs| && SentTo(was, now, cs, fd, dstIp, dstPort, bytes, r)
    requires First(cs, ByFd(fd)) >= 0
    ensures var k := First(cs, ByFd(fd));
            && r == |bytes|
            && |now| == |was| && (forall i | 0 <= i < |was| && i != k :: now[i] == was[i])
            && (now[k] == was[k] + [Datagram(cs[k].sip, dstIp, cs[k].srcPort, dstPort, cs[k].protocol, bytes)] <==>
                  |bytes| < 0x1_0000 && |was[k]| < CAPACITY)
  {
    var k := First(cs, ByFd(fd));
    SocketIo.SendToKeepsAllBytesIff(cs[k], dstIp, dstPort, bytes);
    if |was[k]| < CAPACITY {
      assert now[k] == was[k] + [SocketIo.Outgoing(cs[k], dstIp, dstPort, bytes)];
      assert now[k][|was[k]|] == SocketIo.Outgoing(cs[k], dstIp, dstPort, bytes);
    } else {
      assert |now[k]| == |was[k]|;
    }
  }

  /** A send on a descriptor no connection has fails and changes nothing. */
  lemma UnknownSend(was: seq<seq<Datagram>>, now: seq<seq<Datagram>>, cs: seq<ConnInfo>, fd: int,
                    dstIp: u32, dstPort: u16, bytes: seq<byte>, r: int)
    requires |was| == |cs| && SentTo(was, now, cs, fd, dstIp, dstPort, bytes, r)
    requires forall i | 0 <= i < |cs| :: cs[i].fd != fd
    ensures r == -1 && now == was
  {
    assert forall i | 0 <= i < |cs| :: !ByFd(fd)(cs[i]);
  }

  /** A full send ring: one byte is sent, one is reported, none is queued. */
  lemma FullRingSwallows(c: ConnInfo, d: Datagram, b: byte, now: seq<seq<Datagram>>, dstIp: u32, dstPort: u16, r: int)
    requires SentTo([seq(CAPACITY, _ => d)], now, [c], c.fd, dstIp, dstPort, [b], r)
    ensures r == 1 && now == [seq(CAPACITY, _ => d)]
  {
    FirstIs([c], ByFd(c.fd), 0);
  }

  method QueueAt(ghost t: Sockets, c: Conn, dstIp: u32, dstPort: u16, buf: array<byte>, len: nat, ghost k: nat,
                 ghost own: set<array<byte>>)
    requires t.Valid() && k < |t.conns| && c == t.conns[k] && len <= buf.Length && Foreign(t.conns, own)
    modifies c.sendBuffer`items
    ensures t.Valid() && t.Value() == old(t.Value()) && Foreign(t.conns, own)
    ensures Receives(t.conns) == old(Receives(t.conns))
    ensures Sends(t.conns) == old(Sends(t.conns))[k := Enqueue(old(Sends(t.conns))[k],
              SocketIo.Outgoing(c.info, dstIp, dstPort, buf[..len]))]
  {
    SocketIo.QueueOutgoing(c.sendBuffer, c.info, dstIp, dstPort, buf, len);
    SendRingChanged(t.conns, k);
    ForeignStays(t.conns, own);
    ListKept(t);
  }

  // ----- hz_receive_from -----

  /** `hz_receive_from` into a buffer of the caller's own: -1 for a descriptor no connection has. */
  method ReceiveFrom(t: Sockets, fd: int, buf: array<byte>, len: nat, ghost own: set<array<byte>>)
    returns (out: SocketIo.Outcome)
    requires t.Valid() && len <= buf.Length && Foreign(t.conns, own) && buf in own
    modifies ReceiveRings(t.conns)`items, buf
    modifies RecordsIn(ReceiveRings(t.conns))`data, RecordsIn(ReceiveRings(t.conns))`dataLength
    ensures t.Valid() && t.Value() == old(t.Value()) && Foreign(t.conns, own)
    ensures Sends(t.conns) == old(Sends(t.conns))
    ensures ReceivedFrom(old(Receives(t.conns)), Receives(t.conns), t.Value().conns, fd, len, old(buf[..]), buf[..], out)
  {
    ghost var k := First(t.Value().conns, ByFd(fd));
    if k != -1 {
      assert t.conns[k] in t.conns;
    }
    var conn := GetConnInfoByFd(t.head, fd, t.chain);
    RingsKept(t.conns);
    RecordsKept(t.conns, own);
    if conn == null {
      return SocketIo.Returned(-1, 0, 0);
    }
    out := ReceiveAt(t, conn.value.receiveBuffer, buf, len, k, own);
  }

  /** One read of the receive ring of the connection with that descriptor, if there is one, and of no
      other. */
  ghost predicate ReceivedFrom(was: seq<seq<Datagram>>, now: seq<seq<Datagram>>, cs: seq<ConnInfo>, fd: int, len: nat,
                               bufWas: seq<byte>, buf: seq<byte>, out: SocketIo.Outcome)
    requires |now| == |was| == |cs|
  {
    var k := First(cs, ByFd(fd));
    if k == -1 then out == SocketIo.Returned(-1, 0, 0) && now == was && buf == bufWas
    else now == was[k := now[k]] && SocketIo.RingRead(was[k], now[k], len, bufWas, buf, out)
  }

  /** What a caller gets: -1 and nothing for a descriptor no connection has. Else, from a ring that holds
      something, the front datagram's bytes as far as there is room, its length or the room as the result, the
      rest of the buffer as it was, the sender's address and port; what is left goes to the tail if it
      is not empty. No other ring changes. */
  lemma ReceiveReturns(was: seq<seq<Datagram>>, now: seq<seq<Datagram>>, cs: seq<ConnInfo>, fd: int, len: nat,
                       bufWas: seq<byte>, buf: seq<byte>, out: SocketIo.Outcome)
    requires |now| == |was| == |cs| && ReceivedFrom(was, now, cs, fd, len, bufWas, buf, out)
    ensures var k := First(cs, ByFd(fd));
            && (k == -1 ==> out == SocketIo.Returned(-1, 0, 0) && now == was && buf == bufWas)
            && (k != -1 && was[k] == [] ==> out == SocketIo.Waits && now == was && buf == bufWas)
            && (k != -1 && was[k] != [] ==>
                  var d := was[k][0];
                  var n := if len < |d.data| then len else |d.data|;
                  && out == SocketIo.Returned(n, d.srcIp, d.srcPort)
                  && n <= |bufWas| && buf == d.data[..n] + bufWas[n..]
                  && (forall i | 0 <= i < |was| && i != k :: now[i] == was[i])
                  && (n == |d.data| ==> now[k] == was[k][1..])
                  && (n < |d.data| && |was[k]| <= CAPACITY ==> now[k] == was[k][1..] + [d.(data := d.data[n..])]))
  {
    var k := First(cs, ByFd(fd));
    if k != -1 && was[k] != [] {
      assert now[k] == AfterRead(was[k], len);
      assert was[k][0].data[..|was[k][0].data|] == was[k][0].data;
    }
  }

  method ReceiveAt(ghost t: Sockets, ring: Ring, buf: array<byte>, len: nat, ghost k: nat, ghost own: set<array<byte>>)
    returns (out: SocketIo.Outcome)
    requires t.Valid() && k < |t.conns| && ring == t.conns[k].receiveBuffer && len <= buf.Length
    requires Foreign(t.conns, own) && buf in own
    modifies ring`items, buf
    modifies RecordsIn(ReceiveRings(t.conns))`data, RecordsIn(ReceiveRings(t.conns))`dataLength
    ensures t.Valid() && t.Value() == old(t.Value()) && Foreign(t.conns, own)
    ensures Sends(t.conns) == old(Sends(t.conns))
    ensures Receives(t.conns) == old(Receives(t.conns))[k := Receives(t.conns)[k]]
    ensures SocketIo.RingRead(old(Receives(t.conns))[k], Receives(t.conns)[k], len, old(buf[..]), buf[..], out)
  {
    RecordsOfOne(t.conns, k);
    out := ReadOne(t.conns, ring, buf, len, k, own);
    ListKept(t);
  }

  lemma RecordsOfOne(cs: seq<Conn>, k: nat)
    requires k < |cs|
    ensures cs[k].receiveBuffer in ReceiveRings(cs)
    ensures forall p | p in cs[k].receiveBuffer.items :: p in RecordsIn(ReceiveRings(cs))
  {
    assert cs[k] in cs;
  }

  method ReadOne(ghost cs: seq<Conn>, ring: Ring, buf: array<byte>, len: nat, ghost k: nat, ghost own: set<array<byte>>)
    returns (out: SocketIo.Outcome)
    requires Wired(cs) && k < |cs| && ring == cs[k].receiveBuffer && len <= buf.Length
    requires Foreign(cs, own) && buf in own
    modifies ring`items, ring.items`data, ring.items`dataLength, buf
    ensures Wired(cs) && Sends(cs) == old(Sends(cs)) && Foreign(cs, own)
    ensures Receives(cs) == old(Receives(cs))[k := Receives(cs)[k]]
    ensures SocketIo.RingRead(old(Receives(cs))[k], Receives(cs)[k], len, old(buf[..]), buf[..], out)
  {
    out := SocketIo.ReadRing(ring, buf, len);
    ReceiveRingChanged(cs, k, buf);
    ForeignStays(cs, own);
  }

  // ----- hz_process_udp -----

  /** `hz_process_udp`: `signalled` says whether the condition variable was signalled. */
  method ProcessUdp(t: Sockets, pkt: array<byte>, ghost own: set<array<byte>>) returns (signalled: bool)
    requires t.Valid() && UdpFrame.Complete(pkt[..]) && Foreign(t.conns, own)
    modifies ReceiveRings(t.conns)`items
    ensures t.Valid() && t.Value() == old(t.Value()) && Foreign(t.conns, own)
    ensures Sends(t.conns) == old(Sends(t.conns))
    ensures Demuxed(old(Receives(t.conns)), Receives(t.conns), t.Value().conns, old(UdpFrame.Parse(pkt[..])), signalled)
  {
    ghost var d := UdpFrame.Parse(pkt[..]);
    ghost var k := SocketIo.Addressee(t.Value().conns, d);
    if k != -1 {
      assert t.conns[k] in t.conns;
    }
    var conn := SocketIo.FindAddressee(t.head, pkt, t.chain);
    RingsKept(t.conns);
    RecordsKept(t.conns, own);
    if conn == null {
      return false;
    }
    AcceptAt(t, conn.value.receiveBuffer, pkt, d, k, own);
    return true;
  }

  /** The datagram is in the receive ring of its addressee, if there is one and its ring had room, and
      in no other. */
  ghost predicate Demuxed(was: seq<seq<Datagram>>, now: seq<seq<Datagram>>, cs: seq<ConnInfo>, d: Datagram, signalled: bool)
    requires |was| == |cs|
  {
    var k := SocketIo.Addressee(cs, d);
    && (signalled <==> k != -1)
    && now == if k == -1 then was else was[k := Enqueue(was[k], d)]
  }

  /** Where a datagram goes: to the tail of the ring of the first connection bound to its destination, if that
      has room, and nowhere else; the signal is given exactly if there is such a connection. */
  lemma DatagramGoes(was: seq<seq<Datagram>>, now: seq<seq<Datagram>>, cs: seq<ConnInfo>, d: Datagram, signalled: bool, k: nat)
    requires |was| == |cs| && Demuxed(was, now, cs, d, signalled) && k < |cs|
    ensures |now| == |was|
    ensures var bound := cs[k].sip == d.dstIp && cs[k].srcPort == d.dstPort;
            var first := bound && forall i | 0 <= i < k :: !(cs[i].sip == d.dstIp && cs[i].srcPort == d.dstPort);
            && (bound ==> signalled)
            && (first && |was[k]| < CAPACITY ==> now[k] == was[k] + [d])
            && (!first || |was[k]| >= CAPACITY ==> now[k] == was[k])
    ensures signalled ==> exists i | 0 <= i < |cs| :: cs[i].sip == d.dstIp && cs[i].srcPort == d.dstPort
  {
    var p := BySocket(d.dstIp, d.srcIp, d.dstPort, d.srcPort, PROTOCOL_UDP);
    assert forall i | 0 <= i < |cs| :: p(cs[i]) <==> cs[i].sip == d.dstIp && cs[i].srcPort == d.dstPort;
  }

  method AcceptAt(ghost t: Sockets, ring: Ring, pkt: array<byte>, ghost d: Datagram, ghost k: nat,
                  ghost own: set<array<byte>>)
    requires t.Valid() && k < |t.conns| && ring == t.conns[k].receiveBuffer && Foreign(t.conns, own)
    requires UdpFrame.Complete(pkt[..]) && d == UdpFrame.Parse(pkt[..])
    modifies ring`items
    ensures t.Valid() && t.Value() == old(t.Value()) && Foreign(t.conns, own)
    ensures Sends(t.conns) == old(Sends(t.conns))
    ensures Receives(t.conns) == old(Receives(t.conns))[k := Enqueue(old(Receives(t.conns))[k], d)]
  {
    SocketIo.Accept(ring, pkt);
    ReceiveRingChanged(t.conns, k, null);
    ForeignStays(t.conns, own);
    ListKept(t);
  }

  // ----- hz_process_out_udp -----

  /** The send rings with each record tagged with itself, as a sweep moves them. */
  ghost function SendParcels(cs: seq<Conn>): (qs: seq<seq<Parcel<UdpPayload>>>)
    requires Wired(cs)
    reads *
    ensures |qs| == |cs|
    ensures forall i | 0 <= i < |cs| :: qs[i] == SweepIo.Parcels(cs[i].sendBuffer.items)
  {
    seq(|cs|, i requires 0 <= i < |cs| && Wired(cs) reads * => SweepIo.Parcels(cs[i].sendBuffer.items))
  }

  function Untagged<X>(q: seq<Parcel<X>>): (ds: seq<Datagram>)
    ensures |ds| == |q|
  {
    seq(|q|, i requires 0 <= i < |q| => q[i].d)
  }

  /** Without the tags they are what the send rings hold. */
  lemma SendsAreUntagged(cs: seq<Conn>)
    requires Wired(cs)
    ensures forall i | 0 <= i < |cs| :: Sends(cs)[i] == Untagged(SendParcels(cs)[i])
  {
  }

  /** `hz_process_out_udp`: the send rings and the output ring are, record by record, as the sweep of
      module OutSweep has them. */
  method ProcessOutUdp(t: Sockets, arp: ArpTable.Table, out: SweepIo.OutRing, deviceMac: Mac, ghost own: set<array<byte>>)
    requires t.Valid() && arp.Valid() && Foreign(t.conns, own)
    modifies SendRings(t.conns)`items, out
    ensures t.Valid() && t.Value() == old(t.Value()) && Foreign(t.conns, own)
    ensures Receives(t.conns) == old(Receives(t.conns))
    ensures var r := Sweep(old(SendParcels(t.conns)), old(arp.Value()));
            && SendParcels(t.conns) == r.rings
            && (forall i | 0 <= i < |t.conns| :: Sends(t.conns)[i] == Untagged(r.rings[i]))
            && out.frames == SweepIo.AfterBursts(old(out.frames), r.out, deviceMac)
  {
    SweepRings(t.head, arp, out, deviceMac, t.chain, t.conns);
    ForeignStays(t.conns, own);
    SendsAreUntagged(t.conns);
    ListKept(t);
  }

  method SweepRings(head: Node?<Conn>, arp: ArpTable.Table, out: SweepIo.OutRing, deviceMac: Mac,
                    ghost s: seq<Node<Conn>>, ghost cs: seq<Conn>)
    requires OneWay(head, s) && cs == Conns(s) && Wired(cs) && arp.Valid()
    modifies SendRings(cs)`items, out
    ensures Wired(cs) && Receives(cs) == old(Receives(cs)) && BuffersKept(cs)
    ensures var r := Sweep(old(SendParcels(cs)), old(arp.Value()));
            && SendParcels(cs) == r.rings
            && out.frames == SweepIo.AfterBursts(old(out.frames), r.out, deviceMac)
  {
    ghost var rs := SendRingList(s, cs);
    ghost var es := arp.Value();
    SweepIo.ProcessOutUdp(head, arp, out, deviceMac, s, rs, SendParcels(cs));
    SweptRings(cs, es);
  }

  lemma SendRingList(s: seq<Node<Conn>>, cs: seq<Conn>) returns (rs: seq<Ring>)
    requires cs == Conns(s) && Wired(cs)
    ensures |rs| == |cs| && forall i | 0 <= i < |cs| :: rs[i] == cs[i].sendBuffer
    ensures SendRingsOf(s, rs) && AllDifferent(rs) && forall r | r in rs :: r in SendRings(cs)
    ensures forall i | 0 <= i < |rs| :: SweepIo.Holds(rs[i], SendParcels(cs)[i])
  {
    rs := seq(|cs|, i requires 0 <= i < |cs| => cs[i].sendBuffer);
    assert forall i | 0 <= i < |cs| :: cs[i] in cs;
  }

  lemma HeldParcels(cs: seq<Conn>, qs: seq<seq<Parcel<UdpPayload>>>)
    requires Wired(cs) && |qs| == |cs| && forall i | 0 <= i < |cs| :: SweepIo.Holds(cs[i].sendBuffer, qs[i])
    ensures SendParcels(cs) == qs
  {
  }

  /** What a sweep of the send rings leaves of all rings. */
  twostate lemma SweptRings(cs: seq<Conn>, new es: seq<ArpTable.ArpEntry>)
    requires old(Wired(cs))
    requires forall i | 0 <= i < |cs| :: SweepIo.Holds(cs[i].sendBuffer, Sweep(old(SendParcels(cs)), es).rings[i])
    requires forall r: Ring | old(allocated(r)) && r !in SendRings(cs) :: r.items == old(r.items)
    requires forall p: UdpPayload | old(allocated(p)) :: SameRecord(p)
    requires forall b: array<byte> | old(allocated(b)) :: SameBuffer(b)
    ensures Wired(cs) && Receives(cs) == old(Receives(cs)) && BuffersKept(cs)
    ensures SendParcels(cs) == Sweep(old(SendParcels(cs)), es).rings
  {
    SweptBuffers(cs, es);
    SendRingsChanged(cs);
    HeldParcels(cs, Sweep(old(SendParcels(cs)), es).rings);
  }

  twostate lemma SweptBuffers(cs: seq<Conn>, new es: seq<ArpTable.ArpEntry>)
    requires old(Wired(cs))
    requires forall i | 0 <= i < |cs| :: SweepIo.Holds(cs[i].sendBuffer, Sweep(old(SendParcels(cs)), es).rings[i])
    requires forall p: UdpPayload | old(allocated(p)) :: SameRecord(p)
    ensures forall i | 0 <= i < |cs| :: OwnBuffers(cs[i].sendBuffer)
  {
    forall i | 0 <= i < |cs|
      ensures OwnBuffers(cs[i].sendBuffer)
    {
      SweptSubset(old(SendParcels(cs)), es, i);
      ItemsSubset(cs[i].sendBuffer, old(SendParcels(cs))[i], Sweep(old(SendParcels(cs)), es).rings[i]);
    }
  }

  /** A sweep puts nothing into a ring that was not there. */
  lemma SweptSubset<X>(qs: seq<seq<Parcel<X>>>, es: seq<ArpTable.ArpEntry>, i: nat)
    requires i < |qs|
    ensures forall x | x in Sweep(qs, es).rings[i] :: x in qs[i]
  {
    SweepServesPrefix(qs, es);
  }

  twostate lemma ItemsSubset(ring: Ring, new was: seq<Parcel<UdpPayload>>, new now: seq<Parcel<UdpPayload>>)
    requires old(allocated(was)) && old(SweepIo.Holds(ring, was)) && SweepIo.Holds(ring, now)
    requires forall x | x in now :: x in was
    requires forall p: UdpPayload | old(allocated(p)) :: SameRecord(p)
    ensures OwnBuffers(ring)
  {
    forall p | p in ring.items
      ensures p in old(ring.items) && p.data == old(p.data)
    {
      var n :| 0 <= n < |ring.items| && ring.items[n] == p;
      assert now[n] in was;
      var m :| 0 <= m < |was| && was[m] == now[n];
      assert old(ring.items)[m] == p;
      assert SameRecord(p);
    }
  }
}
