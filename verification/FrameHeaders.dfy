/** The Ethernet and IPv4 headers the frame builders put in front of ICMP and UDP. */
module FrameHeaders {
  import opened Bytes

  const ETHER_LEN: nat := 14
  const IPV4_LEN: nat := 20
  const ETHER_TYPE_IPV4: u16 := 0x0800
  const IPPROTO_ICMP: byte := 1
  const IPPROTO_UDP: byte := 17

  type Mac = m: seq<byte> | |m| == 6 witness [0, 0, 0, 0, 0, 0]

  /** Addresses stay in network order throughout, so their host value is stored as it is;
      only `ether_type` and the length are converted. The header checksum is whatever
      the foreign `rte_ipv4_cksum` returned. */
  function EthIpv4Image(srcMac: Mac, dstMac: Mac, ipLength: u16, proto: byte, ipCksum: u16,
                        sip: u32, dip: u32): (h: seq<byte>)
    ensures |h| == ETHER_LEN + IPV4_LEN
  {
    dstMac + srcMac + Be16(ETHER_TYPE_IPV4) +
    [0x45, 0] + Be16(ipLength) + Le16(0) + Le16(0) + [64, proto] + Le16(ipCksum) + Le32(sip) + Le32(dip)
  }

  lemma EthIpv4Constants(srcMac: Mac, dstMac: Mac, ipLength: u16, proto: byte, ipCksum: u16, sip: u32, dip: u32)
    ensures var h := EthIpv4Image(srcMac, dstMac, ipLength, proto, ipCksum, sip, dip);
            h[14] == 0x45 && h[15] == 0 && h[18..22] == [0, 0, 0, 0] && h[22] == 64 && GetLe16(h[24..26]) == ipCksum
  {
    var h := EthIpv4Image(srcMac, dstMac, ipLength, proto, ipCksum, sip, dip);
    assert Le16(0) == [0, 0];
    assert h[18..22] == Le16(0) + Le16(0);
    assert h[24..26] == Le16(ipCksum);
    LoadStore(ipCksum, 0);
  }

  /** Where each field sits in the image, and that reading it gives back what was written. */
  lemma EthIpv4Fields(srcMac: Mac, dstMac: Mac, ipLength: u16, proto: byte, ipCksum: u16, sip: u32, dip: u32)
    ensures var h := EthIpv4Image(srcMac, dstMac, ipLength, proto, ipCksum, sip, dip);
            && h[..6] == dstMac && h[6..12] == srcMac
            && GetBe16(h[12..14]) == ETHER_TYPE_IPV4 && h[23] == proto
            && h[14] == 0x45 && h[15] == 0
            && GetBe16(h[16..18]) == ipLength
            && h[18..22] == [0, 0, 0, 0] && h[22] == 64
            && GetLe16(h[24..26]) == ipCksum
            && GetLe32(h[26..30]) == sip && GetLe32(h[30..34]) == dip
  {
    LoadStore(ETHER_TYPE_IPV4, sip);
    LoadStore(ipLength, dip);
    EthIpv4Constants(srcMac, dstMac, ipLength, proto, ipCksum, sip, dip);
  }

  method WriteEther(msg: array<byte>, srcMac: Mac, dstMac: Mac)
    requires ETHER_LEN <= msg.Length
    modifies msg
    ensures msg[..14] == dstMac + srcMac + Be16(ETHER_TYPE_IPV4)
    ensures msg[14..] == old(msg[14..])
  {
    Store(msg, 6, srcMac);
    Store(msg, 0, dstMac);
    Store(msg, 12, Be16(ETHER_TYPE_IPV4));
  }

  method WriteIpv4(msg: array<byte>, ipLength: u16, proto: byte, ipCksum: u16, sip: u32, dip: u32)
    requires ETHER_LEN + IPV4_LEN <= msg.Length
    modifies msg
    ensures msg[..14] == old(msg[..14])
    ensures msg[14..34] == [0x45, 0] + Be16(ipLength) + Le16(0) + Le16(0) + [64, proto] + Le16(ipCksum) + Le32(sip) + Le32(dip)
    ensures msg[34..] == old(msg[34..])
  {
    Store(msg, 14, [0x45, 0]);
    Store(msg, 16, Be16(ipLength));
    Store(msg, 18, Le16(0));
    Store(msg, 20, Le16(0));
    Store(msg, 22, [64, proto]);
    ghost var front := msg[..24];
    assert front[..14] == old(msg[..14]);
    assert front[14..] == [0x45, 0] + Be16(ipLength) + Le16(0) + Le16(0) + [64, proto];
    WriteAddresses(msg, ipCksum, sip, dip);
    assert msg[14..34] == msg[..24][14..] + msg[24..34];
    assert msg[..14] == msg[..24][..14];
  }

  /** The addresses, and the checksum computed when all else is in place. */
  method WriteAddresses(msg: array<byte>, ipCksum: u16, sip: u32, dip: u32)
    requires ETHER_LEN + IPV4_LEN <= msg.Length
    modifies msg
    ensures msg[..24] == old(msg[..24])
    ensures msg[24..34] == Le16(ipCksum) + Le32(sip) + Le32(dip)
    ensures msg[34..] == old(msg[34..])
  {
    Store(msg, 26, Le32(sip));
    Store(msg, 30, Le32(dip));
    Store(msg, 24, Le16(0));
    Store(msg, 24, Le16(ipCksum));
  }

  /** The statements common to `hz_build_icmp_request` and `hz_build_udp_request`. */
  method WriteEthIpv4(msg: array<byte>, srcMac: Mac, dstMac: Mac, ipLength: u16, proto: byte, ipCksum: u16,
                      sip: u32, dip: u32)
    requires ETHER_LEN + IPV4_LEN <= msg.Length
    modifies msg
    ensures msg[..34] == EthIpv4Image(srcMac, dstMac, ipLength, proto, ipCksum, sip, dip)
    ensures msg[34..] == old(msg[34..])
  {
    WriteEther(msg, srcMac, dstMac);
    WriteIpv4(msg, ipLength, proto, ipCksum, sip, dip);
    assert msg[..34] == msg[..14] + msg[14..34];
    assert old(msg[34..]) == old(msg[14..])[20..];
  }
}
