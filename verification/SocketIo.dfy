/** The bodies of `hz_receive_from` and `hz_sendto` (`src/socket.c`) and of `hz_process_udp`
    (`src/udp.c`) on the heap: rings of references to payload records. */
module SocketIo {
  import opened Bytes
  import opened Lists
  import opened UdpInfo
  import opened Rings
  import opened Connections
  import opened ReceiveQueue
  import UdpFrame

  // ----- hz_receive_from -----

  /** A call on an empty ring waits; every other call returns. */
  datatype Outcome = Waits | Returned(n: int, srcIp: u32, srcPort: u16)

  /** The caller's buffer starts with `bytes` and is unchanged behind them. */
  twostate predicate Filled(buf: array<byte>, new bytes: seq<byte>)
    reads buf
  {
    && |bytes| <= buf.Length
    && forall i | 0 <= i < buf.Length :: buf[i] == if i < |bytes| then bytes[i] else old(buf[i])
  }

  /** A read shorter than the payload: its first bytes go to the caller, and the record gets a new
      buffer with the others. */
  method TakePrefix(p: UdpPayload, buf: array<byte>, len: nat)
    requires p.Valid() && len < p.dataLength && len <= buf.Length && p.data != buf
    modifies p`data, p`dataLength, buf
    ensures p.Valid() && fresh(p.data) && p.home == old(p.home)
    ensures p.Value() == Remainder(old(p.Value()), len)
    ensures Filled(buf, Taken(old(p.Value()), len).bytes)
  {
    ghost var was := p.Value();
    MemCopy(buf, 0, p.data, 0, len);
    var shorter := new byte[p.dataLength - len];
    MemCopy(shorter, 0, p.data, len, p.dataLength - len);
    assert shorter[..] == was.data[len..];
    p.dataLength := p.dataLength - len;
    p.data := shorter;
  }

  /** A record goes back into the ring it came from. */
  method Requeue(ring: Ring, p: UdpPayload, ghost q: seq<Datagram>, ghost d: Datagram)
    requires RingValid(ring) && Contents(ring) == q
    requires p.Valid() && p.Value() == d && p !in ring.items && p.home == ring
    modifies ring`items
    ensures RingValid(ring) && Contents(ring) == Enqueue(q, d)
    ensures ring.items == Enqueue(old(ring.items), p)
  {
    var _ := ring.MpEnqueue(p);
    assert Contents(ring) == Enqueue(q, d);
  }

  /** The branch of `hz_receive_from` for a short read: what is left goes to the tail. */
  method ShortRead(ring: Ring, p: UdpPayload, buf: array<byte>, len: nat, ghost q: seq<Datagram>, ghost d: Datagram)
    requires RingValid(ring) && Contents(ring) == q && p !in ring.items && p.home == ring
    requires p.Valid() && p.Value() == d && len < |d.data| && len <= buf.Length && p.data != buf
    requires forall o | o in ring.items :: o.data != buf
    modifies ring`items, p`data, p`dataLength, buf
    ensures RingValid(ring) && Contents(ring) == Enqueue(q, Remainder(d, len))
    ensures ring.items == Enqueue(old(ring.items), p) && fresh(p.data)
    ensures Filled(buf, Taken(d, len).bytes)
  {
    TakePrefix(p, buf, len);
    RingKept(ring);
    Requeue(ring, p, q, Remainder(d, len));
  }

  /** A read that takes all of the payload. */
  method TakeAll(p: UdpPayload, buf: array<byte>)
    requires p.Valid() && p.dataLength <= buf.Length && p.data != buf
    modifies buf
    ensures Filled(buf, p.Value().data)
  {
    MemCopy(buf, 0, p.data, 0, p.dataLength);
  }

  /** What `hz_receive_from` does with the record d it dequeued from a ring that now holds q. */
  method HandOver(ring: Ring, p: UdpPayload, buf: array<byte>, len: nat, ghost q: seq<Datagram>, ghost d: Datagram)
    returns (out: Outcome)
    requires RingValid(ring) && Contents(ring) == q && p !in ring.items && p.home == ring
    requires p.Valid() && p.Value() == d && len <= buf.Length && p.data != buf
    requires forall o | o in ring.items :: o.data != buf
    modifies ring`items, p`data, p`dataLength, buf
    ensures RingValid(ring) && Contents(ring) == if len < |d.data| then Enqueue(q, Remainder(d, len)) else q
    ensures forall o | o in ring.items :: o in old(ring.items) || (o == p && fresh(p.data))
    ensures out == Returned(|Taken(d, len).bytes|, d.srcIp, d.srcPort)
    ensures buf[..] == Taken(d, len).bytes + old(buf[..])[|Taken(d, len).bytes|..]
  {
    out := Returned(if len < p.dataLength then len else p.dataLength, p.srcIp, p.srcPort);
    if len < p.dataLength {
      ShortRead(ring, p, buf, len, q, d);
    } else {
      TakeAll(p, buf);
      RingKept(ring);
    }
    FilledIs(buf, Taken(d, len).bytes);
  }

  twostate lemma FilledIs(buf: array<byte>, new bytes: seq<byte>)
    requires Filled(buf, bytes)
    ensures buf[..] == bytes + old(buf[..])[|bytes|..]
  {
  }

  /** Takes the front record out of a ring, if it has one. */
  method Dequeue(ring: Ring, ghost q: seq<Datagram>) returns (p: UdpPayload?)
    requires RingValid(ring) && Contents(ring) == q
    modifies ring`items
    ensures p == null <==> q == []
    ensures RingValid(ring) && Contents(ring) == if q == [] then [] else q[1..]
    ensures forall o | o in ring.items :: o in old(ring.items)
    ensures p != null ==> p in old(ring.items) && p !in ring.items && p.home == ring && p.Valid() && p.Value() == q[0]
  {
    var r, front := ring.McDequeue();
    assert Contents(ring) == if q == [] then [] else q[1..];
    p := if r < 0 then null else front;
  }

  /** One read of a ring: an empty one waits and nothing changes; else the front datagram's next
      chunk is at the start of the caller's buffer, the sender's address and port are reported, and
      the ring is as AfterRead has it. */
  ghost predicate RingRead(was: seq<Datagram>, now: seq<Datagram>, len: nat, bufWas: seq<byte>, buf: seq<byte>, out: Outcome) {
    if was == [] then out == Waits && now == [] && buf == bufWas
    else
      var chunk := Taken(was[0], len);
      && out == Returned(|chunk.bytes|, chunk.srcIp, chunk.srcPort)
      && |chunk.bytes| <= len && |chunk.bytes| <= |bufWas| && buf == chunk.bytes + bufWas[|chunk.bytes|..]
      && now == AfterRead(was, len)
  }

  /** The part of `hz_receive_from` behind the lookup, up to the wait. */
  method ReadRing(ring: Ring, buf: array<byte>, len: nat) returns (out: Outcome)
    requires RingValid(ring) && len <= buf.Length
    requires forall p | p in ring.items :: p.data != buf
    modifies ring`items, ring.items`data, ring.items`dataLength, buf
    ensures RingValid(ring) && OwnBuffers(ring)
    ensures RingRead(old(Contents(ring)), Contents(ring), len, old(buf[..]), buf[..], out)
  {
    ghost var q := Contents(ring);
    var p := Dequeue(ring, q);
    if p == null {
      return Waits;
    }
    out := HandOver(ring, p, buf, len, q[1..], q[0]);
  }

  // ----- hz_sendto -----

  /** The record `hz_sendto` queues. Both places that note the length keep sixteen bits of it, so
      a longer buffer is cut. */
  function Outgoing(c: ConnInfo, dstIp: u32, dstPort: u16, bytes: seq<byte>): Datagram {
    Datagram(c.sip, dstIp, c.srcPort, dstPort, c.protocol, bytes[..ToU16(|bytes|)])
  }

  method NewOutgoing(info: ConnInfo, dstIp: u32, dstPort: u16, buf: array<byte>, len: nat) returns (p: UdpPayload)
    requires len <= buf.Length
    ensures fresh(p) && fresh(p.data) && p.Valid() && p.home == null && p.Value() == Outgoing(info, dstIp, dstPort, buf[..len])
  {
    p := CreateUdpPayload(info.sip, dstIp, info.srcPort, dstPort, info.protocol, buf, 0, ToU16(len));
    p.dataLength := ToU16(len);
    assert buf[0..0 + ToU16(len)] == buf[..len][..ToU16(len)];
  }

  /** The part of `hz_sendto` behind the lookup. */
  method QueueOutgoing(ring: Ring, info: ConnInfo, dstIp: u32, dstPort: u16, buf: array<byte>, len: nat)
    requires RingValid(ring) && len <= buf.Length
    modifies ring`items
    ensures RingValid(ring) && OwnBuffers(ring)
    ensures Contents(ring) == Enqueue(old(Contents(ring)), Outgoing(info, dstIp, dstPort, buf[..len]))
  {
    var p := NewOutgoing(info, dstIp, dstPort, buf, len);
    RingKept(ring);
    EnqueueNew(ring, p);
  }

  /** All bytes are queued if and only if there are fewer than 65536. */
  lemma SendToKeepsAllBytesIff(c: ConnInfo, dstIp: u32, dstPort: u16, bytes: seq<byte>)
    ensures Outgoing(c, dstIp, dstPort, bytes).data == bytes <==> |bytes| < 0x1_0000
  {
    assert |Outgoing(c, dstIp, dstPort, bytes).data| == ToU16(|bytes|);
  }

  // ----- hz_process_udp -----

  /** The connection a datagram is for: the first one bound to its destination. */
  ghost function Addressee(cs: seq<ConnInfo>, d: Datagram): int {
    First(cs, BySocket(d.dstIp, d.srcIp, d.dstPort, d.srcPort, PROTOCOL_UDP))
  }

  method FindAddressee(head: Node?<Conn>, pkt: array<byte>, ghost s: seq<Node<Conn>>) returns (conn: Node?<Conn>)
    requires OneWay(head, s) && UdpFrame.Complete(pkt[..])
    ensures var k := Addressee(Infos(s), UdpFrame.Parse(pkt[..])); conn == if k == -1 then null else s[k]
  {
    var srcIp, dstIp, srcPort, dstPort := ReadAddresses(pkt);
    conn := GetConnInfoBySocket(head, dstIp, srcIp, dstPort, srcPort, PROTOCOL_UDP, s);
  }

  /** The part of `hz_process_udp` behind the lookup. */
  method Accept(ring: Ring, pkt: array<byte>)
    requires RingValid(ring) && UdpFrame.Complete(pkt[..])
    modifies ring`items
    ensures RingValid(ring) && OwnBuffers(ring)
    ensures Contents(ring) == Enqueue(old(Contents(ring)), UdpFrame.Parse(pkt[..]))
  {
    var p := NewIncoming(pkt);
    RingKept(ring);
    EnqueueNew(ring, p);
  }

  method ReadAddresses(pkt: array<byte>) returns (srcIp: u32, dstIp: u32, srcPort: u16, dstPort: u16)
    requires UdpFrame.Complete(pkt[..])
    ensures var d := UdpFrame.Parse(pkt[..]);
            srcIp == d.srcIp && dstIp == d.dstIp && srcPort == d.srcPort && dstPort == d.dstPort
  {
    srcIp, dstIp := GetLe32(pkt[26..30]), GetLe32(pkt[30..34]);
    srcPort, dstPort := GetLe16(pkt[34..36]), GetLe16(pkt[36..38]);
    assert pkt[..][26..30] == pkt[26..30] && pkt[..][30..34] == pkt[30..34];
    assert pkt[..][34..36] == pkt[34..36] && pkt[..][36..38] == pkt[36..38];
  }

  method NewIncoming(pkt: array<byte>) returns (p: UdpPayload)
    requires UdpFrame.Complete(pkt[..])
    ensures fresh(p) && fresh(p.data) && p.Valid() && p.home == null && p.Value() == UdpFrame.Parse(pkt[..])
  {
    var srcIp, dstIp, srcPort, dstPort := ReadAddresses(pkt);
    assert pkt[..][38..40] == pkt[38..40];
    var length := ToU16(GetBe16(pkt[38..40]) - 8);
    p := CreateUdpPayload(srcIp, dstIp, srcPort, dstPort, PROTOCOL_UDP, pkt, 42, length);
    assert pkt[..][42..42 + length] == pkt[42..42 + length];
  }
}
