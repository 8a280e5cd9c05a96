/** `src/udp_info.c`: the payload record that travels through the rings. */
module UdpInfo {
  import opened Bytes

  const PROTOCOL_UDP: int := 2

  /** What a payload record says, whoever holds it. */
  datatype Datagram = Datagram(srcIp: u32, dstIp: u32, srcPort: u16, dstPort: u16, protocol: int, data: seq<byte>)

  class UdpPayload {
    var srcIp: u32
    var dstIp: u32
    var srcPort: u16
    var dstPort: u16
    var protocol: int
    var data: array<byte>
    var dataLength: u16
    ghost var home: object?  // the ring the record is in, or was taken from last

    ghost predicate Valid()
      reads this
    {
      dataLength <= data.Length
    }

    ghost function Value(): Datagram
      requires Valid()
      reads this, data
    {
      Datagram(srcIp, dstIp, srcPort, dstPort, protocol, data[..dataLength])
    }

    constructor (srcIp: u32, dstIp: u32, srcPort: u16, dstPort: u16, protocol: int, data: array<byte>, dataLength: u16)
      ensures this.srcIp == srcIp && this.dstIp == dstIp && this.srcPort == srcPort && this.dstPort == dstPort
      ensures this.protocol == protocol && this.data == data && this.dataLength == dataLength
      ensures home == null
    {
      this.srcIp, this.dstIp, this.srcPort, this.dstPort := srcIp, dstIp, srcPort, dstPort;
      this.protocol, this.data, this.dataLength := protocol, data, dataLength;
      home := null;
    }
  }

  function Zeros(n: nat): (z: seq<byte>)
    ensures |z| == n && forall i | 0 <= i < n :: z[i] == 0
  {
    seq(n, _ => 0)
  }

  /** `hz_create_udp_payload`. The bytes are copied into a buffer of the record's own, so
      nothing the caller does to its buffer afterwards reaches the record; a null
      source leaves the zeros that `memset` put there. */
  method CreateUdpPayload(srcIp: u32, dstIp: u32, srcPort: u16, dstPort: u16, protocol: int,
                          src: array?<byte>, from: nat, dataLength: u16)
    returns (p: UdpPayload)
    requires src != null ==> from + dataLength <= src.Length
    ensures fresh(p) && fresh(p.data) && p.Valid() && p.home == null
    ensures p.Value() == Datagram(srcIp, dstIp, srcPort, dstPort, protocol,
                                  if src == null then Zeros(dataLength) else src[from..from + dataLength])
  {
    var data := new byte[dataLength](_ => 0);
    if src != null {
      MemCopy(data, 0, src, from, dataLength);
      assert data[..dataLength] == src[from..from + dataLength];
    } else {
      assert data[..dataLength] == Zeros(dataLength);
    }
    p := new UdpPayload(srcIp, dstIp, srcPort, dstPort, protocol, data, dataLength);
  }
}
