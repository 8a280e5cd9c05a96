/** `src/deal_udp.c`, the writer of UDP frames, and the header parse of `hz_process_udp`
    that reads them back. */
module UdpFrame {
  import opened Bytes
  import opened FrameHeaders
  import opened UdpInfo

  const HEADERS_LEN: nat := 42

  /** The datagram-length field the builder derives from its 16-bit `total_length`. */
  function UdpLength(totalLength: u16): u16 {
    ToU16(totalLength - 34)
  }

  function UdpHeader(srcPort: u16, dstPort: u16, udpLength: u16, udpCksum: u16): (h: seq<byte>)
    ensures |h| == 8
  {
    Le16(srcPort) + Le16(dstPort) + Be16(udpLength) + Le16(udpCksum)
  }

  /** All the bytes the builder writes. `body` is what `rte_memcpy` takes from the payload's
      address: as many bytes as the datagram-length field says, header included, so
      eight bytes beyond the payload follow it. */
  function UdpImage(srcMac: Mac, dstMac: Mac, p: Datagram, totalLength: u16, body: seq<byte>,
                    ipCksum: u16, udpCksum: u16): seq<byte>
  {
    EthIpv4Image(srcMac, dstMac, ToU16(totalLength - 14), IPPROTO_UDP, ipCksum, p.srcIp, p.dstIp) +
    UdpHeader(p.srcPort, p.dstPort, UdpLength(totalLength), udpCksum) + body
  }

  /** `hz_build_udp_request`. `behind` is the memory behind the payload's buffer, which the copy may run
      into; `msg` is the room of the packet buffer. */
  method BuildUdpRequest(msg: array<byte>, srcMac: Mac, dstMac: Mac, sip: u32, dip: u32,
                         srcPort: u16, dstPort: u16, data: array<byte>, behind: seq<byte>, totalLength: u16,
                         ipCksum: u16, udpCksum: u16)
    requires msg != data
    requires HEADERS_LEN + UdpLength(totalLength) <= msg.Length
    requires UdpLength(totalLength) <= data.Length + |behind|
    modifies msg
    ensures msg[..42 + UdpLength(totalLength)] ==
            UdpImage(srcMac, dstMac, Datagram(sip, dip, srcPort, dstPort, PROTOCOL_UDP, []), totalLength,
                     (data[..] + behind)[..UdpLength(totalLength)], ipCksum, udpCksum)
  {
    WriteEthIpv4(msg, srcMac, dstMac, ToU16(totalLength - 14), IPPROTO_UDP, ipCksum, sip, dip);
    ghost var headers := msg[..34];
    Store(msg, 34, Le16(srcPort));
    Store(msg, 36, Le16(dstPort));
    var udpLength := UdpLength(totalLength);
    Store(msg, 38, Be16(udpLength));
    var body := (data[..] + behind)[..udpLength];
    Store(msg, 42, body);
    Store(msg, 40, Le16(0));
    Store(msg, 40, Le16(udpCksum));
    assert msg[..34] == headers;
    assert msg[34..42] == UdpHeader(srcPort, dstPort, udpLength, udpCksum);
    assert msg[42..42 + udpLength] == body;
    assert msg[..42 + udpLength] == msg[..34] + msg[34..42] + msg[42..42 + udpLength];
  }

  /** `hz_send_udp`: fills a packet buffer and sets its lengths. What goes on the wire is the first
      `dataLen` bytes of `room`; `behind` is the memory behind the payload's buffer. */
  method SendUdp(room: array<byte>, srcMac: Mac, dstMac: Mac, sip: u32, dip: u32,
                 srcPort: u16, dstPort: u16, data: array<byte>, behind: seq<byte>, udpDataLength: u16,
                 ipCksum: u16, udpCksum: u16)
    returns (pktLen: u32, dataLen: u16)
    requires room != data
    requires udpDataLength <= data.Length && |behind| == 8
    requires HEADERS_LEN + ToU16(udpDataLength + 8) <= room.Length
    modifies room
    ensures pktLen == udpDataLength + HEADERS_LEN
    ensures dataLen == WireLength(udpDataLength) <= room.Length
    ensures var p := Datagram(sip, dip, srcPort, dstPort, PROTOCOL_UDP, data[..udpDataLength]);
            OnTheWire(room[..], dataLen) ==
            WireBytes(srcMac, dstMac, p, (data[..] + behind)[udpDataLength..udpDataLength + 8], ipCksum, udpCksum)
  {
    ghost var memory := data[..] + behind;
    ghost var n: int := udpDataLength;
    ghost var p := Datagram(sip, dip, srcPort, dstPort, PROTOCOL_UDP, data[..udpDataLength]);
    BuiltLength(n);
    pktLen := udpDataLength + 42;
    dataLen := ToU16(pktLen);
    BuildUdpRequest(room, srcMac, dstMac, sip, dip, srcPort, dstPort, data, behind, ToU16(pktLen), ipCksum, udpCksum);
    assert p.data == memory[..n];
    assert room[..][..42 + ToU16(n + 8)] == room[..42 + ToU16(n + 8)];
    WireOfRoom(room[..], srcMac, dstMac, p, memory, ipCksum, udpCksum);
  }

  lemma BuiltLength(n: u16)
    ensures UdpLength(ToU16(n + 42)) == ToU16(n + 8)
  {
  }

  /** What leaves the host: the packet buffer's memory cut at its `data_len`. */
  function OnTheWire(room: seq<byte>, dataLen: u16): seq<byte>
    requires dataLen <= |room|
  {
    room[..dataLen]
  }

  /** The 16-bit `data_len` of the packet buffer. */
  function WireLength(n: u16): u16 {
    ToU16(n + 42)
  }

  function SentImage(srcMac: Mac, dstMac: Mac, p: Datagram, n: u16, body: seq<byte>,
                     ipCksum: u16, udpCksum: u16): (m: seq<byte>)
  {
    UdpImage(srcMac, dstMac, p, ToU16(n + 42), body, ipCksum, udpCksum)
  }

  /** What leaves the host for payload p: the packet buffer cut at its `data_len`. `slack`
      stands for the eight bytes of memory behind the payload. */
  function WireBytes(srcMac: Mac, dstMac: Mac, p: Datagram, slack: seq<byte>, ipCksum: u16, udpCksum: u16): seq<byte>
    requires |p.data| < 0x1_0000 && |slack| == 8
  {
    var n: u16 := |p.data|;
    var body := (p.data + slack)[..ToU16(n + 8)];
    var image := SentImage(srcMac, dstMac, p, n, body, ipCksum, udpCksum);
    if WireLength(n) <= |image| then image[..WireLength(n)] else image
  }

  // ----- Parsing: hz_pkt_process, hz_process_with_ipv4 and hz_process_udp -----

  /** The dispatch that leads to `hz_process_udp`. */
  predicate DispatchedToUdp(frame: seq<byte>)
    requires |frame| >= HEADERS_LEN
  {
    GetBe16(frame[12..14]) == ETHER_TYPE_IPV4 && frame[23] == IPPROTO_UDP
  }

  /** That dispatch, byte by byte: type 0x0800 at offset 12, protocol 17 at offset 23. */
  lemma DispatchedExactlyWhen(frame: seq<byte>)
    requires |frame| >= HEADERS_LEN
    ensures DispatchedToUdp(frame) <==> frame[12] == 0x08 && frame[13] == 0x00 && frame[23] == 17
  {
    assert frame[12..14] == [frame[12], frame[13]];
  }

  /** The payload length the parser computes: it too wraps at 16 bits. */
  function ParsedLength(frame: seq<byte>): u16
    requires |frame| >= HEADERS_LEN
  {
    ToU16(GetBe16(frame[38..40]) - 8)
  }

  /** The frame holds every byte the parser reads. */
  predicate Complete(frame: seq<byte>) {
    |frame| >= HEADERS_LEN && HEADERS_LEN + ParsedLength(frame) <= |frame|
  }

  function Parse(frame: seq<byte>): Datagram
    requires Complete(frame)
  {
    Datagram(GetLe32(frame[26..30]), GetLe32(frame[30..34]), GetLe16(frame[34..36]), GetLe16(frame[36..38]),
             PROTOCOL_UDP, frame[42..42 + ParsedLength(frame)])
  }

  /** The parser does not compare the length a frame announces with the length received. What follows
      the frame in the packet buffer becomes part of the datagram if and only if the frame announces more
      than it holds. */
  lemma StaleBytesIff(frame: seq<byte>, stale: seq<byte>)
    requires HEADERS_LEN <= |frame| && Complete(frame + stale)
    ensures ParsedLength(frame + stale) == ParsedLength(frame)
    ensures Parse(frame + stale).data <= frame[42..] <==> Complete(frame)
    ensures !Complete(frame) ==>
              Parse(frame + stale).data == frame[42..] + stale[..42 + ParsedLength(frame) - |frame|]
  {
    var memory, n := frame + stale, ParsedLength(frame);
    assert memory[38..40] == frame[38..40];
    assert memory[42..] == frame[42..] + stale;
    assert memory[42..42 + n] == memory[42..][..n];
    CutOfConcat(frame[42..], stale, n);
  }

  lemma CutOfConcat(a: seq<byte>, b: seq<byte>, n: nat)
    requires n <= |a| + |b|
    ensures (a + b)[..n] <= a <==> n <= |a|
    ensures n > |a| ==> (a + b)[..n] == a + b[..n - |a|]
  {
    if n <= |a| {
      assert (a + b)[..n] == a[..n];
    }
  }

  // ----- Round trip -----

  /** The length fields of a built frame: the 16-bit wrap of `total_length` cancels out, so
      they are right exactly while the true value fits sixteen bits (RFC 768, RFC 791
      section 3.1); the packet buffer's own length is right only up to 65493. */
  lemma LengthFields(n: u16)
    ensures ToU16(ToU16(n + 42) - 14) == n + 28 <==> n <= 65507
    ensures UdpLength(ToU16(n + 42)) == n + 8 <==> n <= 65527
    ensures WireLength(n) == n + 42 <==> n <= 65493
  {
  }

  /** The copy runs past the payload, by eight bytes, unless the length it takes has wrapped. */
  lemma CopyRunsPastPayloadIff(n: u16)
    ensures UdpLength(ToU16(n + 42)) > n <==> n <= 65527
    ensures n <= 65527 ==> UdpLength(ToU16(n + 42)) == n + 8
  {
  }

  /** The transmitted length is within the frame that was built; beyond 65493 bytes it has wrapped to less
      than the headers. */
  lemma WireFits(n: u16)
    ensures WireLength(n) <= 42 + ToU16(n + 8)
    ensures n <= 65493 ==> WireLength(n) == n + 42 && ToU16(n + 8) == n + 8
    ensures n > 65493 ==> WireLength(n) < 42
  {
  }

  /** A packet buffer that starts with the image the builder leaves, cut at its `data_len`. `memory` is what
      starts at the payload's address. */
  lemma WireOfRoom(room: seq<byte>, srcMac: Mac, dstMac: Mac, p: Datagram, memory: seq<byte>, ipCksum: u16, udpCksum: u16)
    requires |p.data| < 0x1_0000 && |p.data| + 8 <= |memory| && p.data == memory[..|p.data|]
    requires 42 + ToU16(|p.data| + 8) <= |room|
    requires room[..42 + ToU16(|p.data| + 8)] ==
             SentImage(srcMac, dstMac, p, |p.data|, memory[..ToU16(|p.data| + 8)], ipCksum, udpCksum)
    ensures WireLength(|p.data|) <= |room|
    ensures OnTheWire(room, WireLength(|p.data|)) ==
            WireBytes(srcMac, dstMac, p, memory[|p.data|..|p.data| + 8], ipCksum, udpCksum)
  {
    var n: int := |p.data|;
    WireFits(n);
    assert p.data + memory[n..n + 8] == memory[..n + 8];
    assert memory[..n + 8][..ToU16(n + 8)] == memory[..ToU16(n + 8)];
    var image := room[..42 + ToU16(n + 8)];
    assert WireLength(n) <= |image|;
    assert image[..WireLength(n)] == room[..WireLength(n)];
  }

  lemma SameSlice(a: seq<byte>, b: seq<byte>, i: nat, j: nat)
    requires i <= j <= |b| && b <= a
    ensures a[i..j] == b[i..j]
  {
  }

  lemma UdpHeaderFields(srcPort: u16, dstPort: u16, udpLength: u16, udpCksum: u16)
    ensures var h := UdpHeader(srcPort, dstPort, udpLength, udpCksum);
            && GetLe16(h[0..2]) == srcPort && GetLe16(h[2..4]) == dstPort && GetBe16(h[4..6]) == udpLength
            && GetLe16(h[6..8]) == udpCksum
  {
    var h := UdpHeader(srcPort, dstPort, udpLength, udpCksum);
    assert h[0..2] == Le16(srcPort) && h[2..4] == Le16(dstPort) && h[4..6] == Be16(udpLength) && h[6..8] == Le16(udpCksum);
    LoadStore(udpCksum, 0);
    LoadStore(srcPort, 0);
    LoadStore(dstPort, 0);
    LoadStore(udpLength, 0);
  }

  /** Every field of an image, read back by offset. */
  ghost predicate HasFields(m: seq<byte>, srcMac: Mac, dstMac: Mac, p: Datagram, ipLength: u16, udpLength: u16,
                            ipCksum: u16, udpCksum: u16, body: seq<byte>)
  {
    && |m| == 42 + |body|
    && m[..6] == dstMac && m[6..12] == srcMac
    && DispatchedToUdp(m)
    && m[14] == 0x45 && m[15] == 0
    && GetBe16(m[16..18]) == ipLength
    && m[18..22] == [0, 0, 0, 0] && m[22] == 64
    && GetLe16(m[24..26]) == ipCksum
    && GetLe32(m[26..30]) == p.srcIp && GetLe32(m[30..34]) == p.dstIp
    && GetLe16(m[34..36]) == p.srcPort && GetLe16(m[36..38]) == p.dstPort
    && GetBe16(m[38..40]) == udpLength
    && GetLe16(m[40..42]) == udpCksum
    && m[42..] == body
  }

  lemma ImageFields(srcMac: Mac, dstMac: Mac, p: Datagram, total: u16, body: seq<byte>, ipCksum: u16, udpCksum: u16)
    ensures HasFields(UdpImage(srcMac, dstMac, p, total, body, ipCksum, udpCksum),
                      srcMac, dstMac, p, ToU16(total - 14), UdpLength(total), ipCksum, udpCksum, body)
  {
    var h := EthIpv4Image(srcMac, dstMac, ToU16(total - 14), IPPROTO_UDP, ipCksum, p.srcIp, p.dstIp);
    var u := UdpHeader(p.srcPort, p.dstPort, UdpLength(total), udpCksum);
    EthIpv4Fields(srcMac, dstMac, ToU16(total - 14), IPPROTO_UDP, ipCksum, p.srcIp, p.dstIp);
    UdpHeaderFields(p.srcPort, p.dstPort, UdpLength(total), udpCksum);
    FieldsOfConcat(h + u + body, h, u, body);
  }

  lemma FieldsOfConcat(m: seq<byte>, h: seq<byte>, u: seq<byte>, body: seq<byte>)
    requires |h| == 34 && |u| == 8 && m == h + u + body
    ensures m[..6] == h[..6] && m[6..12] == h[6..12] && m[12..14] == h[12..14] && m[23] == h[23]
    ensures m[14] == h[14] && m[15] == h[15] && m[18..22] == h[18..22] && m[22] == h[22] && m[24..26] == h[24..26]
    ensures m[16..18] == h[16..18] && m[26..30] == h[26..30] && m[30..34] == h[30..34]
    ensures m[34..36] == u[0..2] && m[36..38] == u[2..4] && m[38..40] == u[4..6] && m[40..42] == u[6..8]
    ensures m[42..] == body
  {
  }

  /** A frame cut right behind its payload still parses to what its fields say. */
  lemma ParseOfCut(image: seq<byte>, srcMac: Mac, dstMac: Mac, p: Datagram, ipLength: u16, udpLength: u16,
                   ipCksum: u16, udpCksum: u16, body: seq<byte>)
    requires HasFields(image, srcMac, dstMac, p, ipLength, udpLength, ipCksum, udpCksum, body)
    requires |p.data| <= 65493 && udpLength == |p.data| + 8 && p.data <= body
    ensures var wire := image[..42 + |p.data|];
            Complete(wire) && DispatchedToUdp(wire) && Parse(wire) == p.(protocol := PROTOCOL_UDP)
  {
    var n := |p.data|;
    var wire := image[..42 + n];
    SameSlice(image, wire, 12, 14);
    SameSlice(image, wire, 26, 30);
    SameSlice(image, wire, 30, 34);
    SameSlice(image, wire, 34, 36);
    SameSlice(image, wire, 36, 38);
    SameSlice(image, wire, 38, 40);
    assert ParsedLength(wire) == n;
    assert wire[42..42 + n] == image[42..][..n];
  }

  lemma WireIsCutImage(srcMac: Mac, dstMac: Mac, p: Datagram, slack: seq<byte>, ipCksum: u16, udpCksum: u16)
    requires |p.data| < 0x1_0000 && |slack| == 8
    ensures var n: u16 := |p.data|;
            var image := SentImage(srcMac, dstMac, p, n, (p.data + slack)[..ToU16(n + 8)], ipCksum, udpCksum);
            var wire := WireBytes(srcMac, dstMac, p, slack, ipCksum, udpCksum);
            if n <= 65493 then n + 42 <= |image| && wire == image[..n + 42] else |wire| < 42
  {
    WireFits(|p.data|);
  }

  /** Whatever follows the payload in memory, the frame on the wire reaches the UDP parser
      and is read back as the datagram that was sent: for exactly the payloads
      of at most 65493 bytes. */
  lemma WireRoundTrip(srcMac: Mac, dstMac: Mac, p: Datagram, slack: seq<byte>, ipCksum: u16, udpCksum: u16)
    requires |p.data| < 0x1_0000 && |slack| == 8
    ensures var wire := WireBytes(srcMac, dstMac, p, slack, ipCksum, udpCksum);
            (Complete(wire) && DispatchedToUdp(wire) && Parse(wire) == p.(protocol := PROTOCOL_UDP)) <==>
              |p.data| <= 65493
  {
    WireIsCutImage(srcMac, dstMac, p, slack, ipCksum, udpCksum);
    if |p.data| <= 65493 {
      SmallWireRoundTrip(srcMac, dstMac, p, slack, ipCksum, udpCksum);
    }
  }

  lemma SmallLengths(n: nat)
    requires n <= 65493
    ensures ToU16(n + 42 - 14) == n + 28 && UdpLength(n + 42) == n + 8
  {
  }

  lemma SmallWireCut(srcMac: Mac, dstMac: Mac, p: Datagram, slack: seq<byte>, ipCksum: u16, udpCksum: u16)
    returns (image: seq<byte>)
    requires |p.data| <= 65493 && |slack| == 8
    ensures image == UdpImage(srcMac, dstMac, p, |p.data| + 42, p.data + slack, ipCksum, udpCksum)
    ensures |image| == 50 + |p.data|
    ensures WireBytes(srcMac, dstMac, p, slack, ipCksum, udpCksum) == image[..42 + |p.data|]
  {
    var n: int := |p.data|;
    assert ToU16(n + 8) == n + 8 && ToU16(n + 42) == n + 42;
    assert (p.data + slack)[..n + 8] == p.data + slack;
    image := UdpImage(srcMac, dstMac, p, n + 42, p.data + slack, ipCksum, udpCksum);
  }

  lemma SmallWireFields(srcMac: Mac, dstMac: Mac, p: Datagram, slack: seq<byte>, ipCksum: u16, udpCksum: u16)
    returns (image: seq<byte>)
    requires |p.data| <= 65493 && |slack| == 8
    ensures HasFields(image, srcMac, dstMac, p, |p.data| + 28, |p.data| + 8, ipCksum, udpCksum, p.data + slack)
    ensures WireBytes(srcMac, dstMac, p, slack, ipCksum, udpCksum) == image[..42 + |p.data|]
  {
    var n: int := |p.data|;
    image := SmallWireCut(srcMac, dstMac, p, slack, ipCksum, udpCksum);
    SmallLengths(n);
    ImageFields(srcMac, dstMac, p, n + 42, p.data + slack, ipCksum, udpCksum);
  }

  lemma SmallWireRoundTrip(srcMac: Mac, dstMac: Mac, p: Datagram, slack: seq<byte>, ipCksum: u16, udpCksum: u16)
    requires |p.data| <= 65493 && |slack| == 8
    ensures var wire := WireBytes(srcMac, dstMac, p, slack, ipCksum, udpCksum);
            Complete(wire) && DispatchedToUdp(wire) && Parse(wire) == p.(protocol := PROTOCOL_UDP)
  {
    var image := SmallWireFields(srcMac, dstMac, p, slack, ipCksum, udpCksum);
    ParseOfCut(image, srcMac, dstMac, p, |p.data| + 28, |p.data| + 8, ipCksum, udpCksum, p.data + slack);
  }

}
