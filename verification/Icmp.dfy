/** The echo-reply builder of `src/icmp.c`. */
module Icmp {
  import opened Bytes
  import opened FrameHeaders
  import Checksum
  import ChecksumLaws

  const ICMP_LEN: nat := 8
  const ICMP_ECHO_REPLY: byte := 0

  /** Every header built carries type 0, code 0 and the request's identifier and sequence
      number, and its checksum verifies as RFC 792 asks. */
  method BuildIcmpRequest(msg: array<byte>, srcMac: Mac, dstMac: Mac, sip: u32, dip: u32,
                          id: u16, seqNum: u16, ipCksum: u16)
    requires 42 <= msg.Length
    modifies msg
    ensures msg[..34] == EthIpv4Image(srcMac, dstMac, 28, IPPROTO_ICMP, ipCksum, sip, dip)
    ensures msg[23] == 1 && GetBe16(msg[16..18]) == 28
    ensures msg[34] == 0 && msg[35] == 0
    ensures GetLe16(msg[38..40]) == id && GetLe16(msg[40..42]) == seqNum
    ensures Checksum.InternetChecksum(msg[34..42]) == 0
    ensures msg[42..] == old(msg[42..])
  {
    EthIpv4Fields(srcMac, dstMac, 28, IPPROTO_ICMP, ipCksum, sip, dip);
    WriteEthIpv4(msg, srcMac, dstMac, IPV4_LEN + ICMP_LEN, IPPROTO_ICMP, ipCksum, sip, dip);
    assert msg[42..] == old(msg[34..])[8..];
    WriteIcmpHeader(msg, id, seqNum);
    assert msg[16..18] == msg[..34][16..18] && msg[23] == msg[..34][23];
  }

  method WriteIcmpHeader(msg: array<byte>, id: u16, seqNum: u16)
    requires 42 <= msg.Length
    modifies msg
    ensures msg[..34] == old(msg[..34]) && msg[42..] == old(msg[42..])
    ensures msg[34] == ICMP_ECHO_REPLY && msg[35] == 0
    ensures GetLe16(msg[38..40]) == id && GetLe16(msg[40..42]) == seqNum
    ensures Checksum.InternetChecksum(msg[34..42]) == 0
  {
    WriteEcho(msg, id, seqNum);
    StoreChecksum(msg);
    assert msg[38..40] == [msg[38], msg[39]] == Le16(id);
    assert msg[40..42] == [msg[40], msg[41]] == Le16(seqNum);
    LoadStore(id, 0);
    LoadStore(seqNum, 0);
  }

  /** All fields but the checksum. */
  method WriteEcho(msg: array<byte>, id: u16, seqNum: u16)
    requires 42 <= msg.Length
    modifies msg
    ensures forall i | 0 <= i < 34 || 42 <= i < msg.Length :: msg[i] == old(msg[i])
    ensures msg[34] == ICMP_ECHO_REPLY && msg[35] == 0
    ensures msg[38] == Le16(id)[0] && msg[39] == Le16(id)[1] && msg[40] == Le16(seqNum)[0] && msg[41] == Le16(seqNum)[1]
  {
    Store(msg, 38, Le16(id));
    Store(msg, 40, Le16(seqNum));
    msg[35] := 0;
    msg[34] := ICMP_ECHO_REPLY;
  }

  /** The checksum field is zeroed, computed over the header and stored. */
  method StoreChecksum(msg: array<byte>)
    requires 42 <= msg.Length
    modifies msg
    ensures forall i | 0 <= i < msg.Length && i != 36 && i != 37 :: msg[i] == old(msg[i])
    ensures Checksum.InternetChecksum(msg[34..42]) == 0
  {
    Store(msg, 36, Le16(0));
    ghost var zeroed := msg[34..42];
    assert zeroed == ChecksumLaws.PutWord(zeroed, 2, 0);
    ChecksumLaws.StoredChecksumVerifies(zeroed, 2);
    var cksum, _ := Checksum.HzChecksum(msg, 34, 8);
    Store(msg, 36, Le16(cksum));
    assert msg[34..42] == ChecksumLaws.PutWord(zeroed, 2, cksum);
  }

}
