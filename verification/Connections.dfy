/** The connection records of `src/conn_status.h` and the two lookups of `src/socket.c`. */
module Connections {
  import opened Bytes
  import opened FrameHeaders
  import opened UdpInfo
  import opened Lists
  import opened Rings

  const PROTOCOL_TCP: int := 1

  /** A connection's descriptor and the addresses it is bound to. `protocol` is the
      `type` argument of `hz_socket` cut to eight bits. */
  datatype ConnInfo = ConnInfo(fd: int, sip: u32, dip: u32, srcPort: u16, dstPort: u16, protocol: byte,
                               srcMac: Mac, dstMac: Mac)

  datatype Conn = Conn(info: ConnInfo, sendBuffer: Ring, receiveBuffer: Ring)

  /** The connection records with their rings, in list order. */
  ghost function Conns(s: seq<Node<Conn>>): (cs: seq<Conn>)
    reads s
    ensures |cs| == |s|
    ensures forall i | 0 <= i < |s| :: cs[i] == s[i].value
  {
    seq(|s|, i requires 0 <= i < |s| reads s => s[i].value)
  }

  /** Their descriptors and addresses. */
  ghost function InfosOf(cs: seq<Conn>): (infos: seq<ConnInfo>)
    ensures |infos| == |cs|
    ensures forall i | 0 <= i < |cs| :: infos[i] == cs[i].info
  {
    seq(|cs|, i requires 0 <= i < |cs| => cs[i].info)
  }

  /** The same rings, in the same order. */
  ghost predicate SameButInfos(was: seq<Conn>, now: seq<Conn>) {
    |now| == |was| && forall i | 0 <= i < |was| :: now[i] == was[i].(info := now[i].info)
  }

  ghost function Infos(s: seq<Node<Conn>>): (cs: seq<ConnInfo>)
    reads s
    ensures |cs| == |s|
    ensures forall i | 0 <= i < |s| :: cs[i] == s[i].value.info
  {
    InfosOf(Conns(s))
  }

  /** rs are the send rings of the list's connections, in list order. */
  ghost predicate SendRingsOf(s: seq<Node<Conn>>, rs: seq<Ring>)
    reads s
  {
    |rs| == |s| && forall i | 0 <= i < |s| :: s[i].value.sendBuffer == rs[i]
  }

  /** The position of the first record satisfying p, or -1. */
  ghost function First(cs: seq<ConnInfo>, p: ConnInfo -> bool): (r: int)
    ensures -1 <= r < |cs|
    ensures r == -1 <==> forall k | 0 <= k < |cs| :: !p(cs[k])
    ensures r >= 0 ==> p(cs[r]) && forall k | 0 <= k < r :: !p(cs[k])
  {
    FirstFrom(cs, p, 0)
  }

  ghost function FirstFrom(cs: seq<ConnInfo>, p: ConnInfo -> bool, from: nat): (r: int)
    requires from <= |cs|
    ensures r == -1 || from <= r < |cs|
    ensures r == -1 <==> forall k | from <= k < |cs| :: !p(cs[k])
    ensures r >= 0 ==> p(cs[r]) && forall k | from <= k < r :: !p(cs[k])
    decreases |cs| - from
  {
    if from == |cs| then -1
    else if p(cs[from]) then from
    else FirstFrom(cs, p, from + 1)
  }

  function ByFd(fd: int): ConnInfo -> bool {
    (c: ConnInfo) => c.fd == fd
  }

  /** What `hz_get_conn_info_by_socket` compares: two fields for UDP, four for TCP. The
      record's own protocol is not looked at. */
  function BySocket(sip: u32, dip: u32, sPort: u16, dPort: u16, protocol: int): ConnInfo -> bool {
    (c: ConnInfo) =>
      if protocol == PROTOCOL_UDP then c.sip == sip && c.srcPort == sPort
      else protocol == PROTOCOL_TCP && c.sip == sip && c.srcPort == sPort && c.dstPort == dPort && c.dip == dip
  }

  /** A UDP lookup finds nothing iff no record has the address and port; else the first that has. A TCP lookup
      asks for the peer's address and port too, and a lookup for another protocol finds nothing. */
  lemma LookupFinds(cs: seq<ConnInfo>, sip: u32, dip: u32, sPort: u16, dPort: u16, protocol: int, k: nat)
    requires k < |cs|
    ensures var c, r := cs[k], First(cs, BySocket(sip, dip, sPort, dPort, protocol));
            && (protocol == 2 && c.sip == sip && c.srcPort == sPort ==> 0 <= r <= k)
            && (protocol == 1 && c.sip == sip && c.srcPort == sPort && c.dip == dip && c.dstPort == dPort ==> 0 <= r <= k)
            && (r == k ==> (protocol == 1 || protocol == 2) && c.sip == sip && c.srcPort == sPort)
            && (r == k && protocol == 1 ==> c.dip == dip && c.dstPort == dPort)
  {
    var p := BySocket(sip, dip, sPort, dPort, protocol);
    assert p(cs[k]) || First(cs, p) != k;
  }

  lemma FirstIs(cs: seq<ConnInfo>, p: ConnInfo -> bool, k: int)
    requires -1 <= k < |cs|
    requires k >= 0 ==> p(cs[k])
    requires forall j | 0 <= j < if k == -1 then |cs| else k :: !p(cs[j])
    ensures First(cs, p) == k
  {
  }

  /** `hz_get_conn_info_by_fd` */
  method GetConnInfoByFd(head: Node?<Conn>, fd: int, ghost s: seq<Node<Conn>>) returns (info: Node?<Conn>)
    requires OneWay(head, s)
    ensures var k := First(Infos(s), ByFd(fd)); info == if k == -1 then null else s[k]
  {
    OneWayIsChain(head, s);
    info := head;
    ghost var k := 0;
    while info != null
      invariant 0 <= k <= |s| && info == After(s, k - 1)
      invariant forall j | 0 <= j < k :: !ByFd(fd)(Infos(s)[j])
      decreases |s| - k
    {
      if info.value.info.fd == fd {
        FirstIs(Infos(s), ByFd(fd), k);
        return;
      }
      assert info == s[k] && s[k].next == After(s, k);
      info := info.next;
      k := k + 1;
    }
    FirstIs(Infos(s), ByFd(fd), -1);
  }

  /** `hz_get_conn_info_by_socket` */
  method GetConnInfoBySocket(head: Node?<Conn>, sip: u32, dip: u32, sPort: u16, dPort: u16, protocol: int,
                             ghost s: seq<Node<Conn>>)
    returns (info: Node?<Conn>)
    requires OneWay(head, s)
    ensures var k := First(Infos(s), BySocket(sip, dip, sPort, dPort, protocol));
            info == if k == -1 then null else s[k]
  {
    OneWayIsChain(head, s);
    info := head;
    ghost var k := 0;
    ghost var p := BySocket(sip, dip, sPort, dPort, protocol);
    while info != null
      invariant 0 <= k <= |s| && info == After(s, k - 1)
      invariant forall j | 0 <= j < k :: !p(Infos(s)[j])
      decreases |s| - k
    {
      var c := info.value.info;
      if protocol == PROTOCOL_UDP {
        if c.sip == sip && c.srcPort == sPort {
          FirstIs(Infos(s), p, k);
          return;
        }
      } else if protocol == PROTOCOL_TCP {
        if c.sip == sip && c.srcPort == sPort && c.dstPort == dPort && c.dip == dip {
          FirstIs(Infos(s), p, k);
          return;
        }
      }
      assert info == s[k] && s[k].next == After(s, k);
      info := info.next;
      k := k + 1;
    }
    FirstIs(Infos(s), p, -1);
  }

  // ----- The list operations behind hz_socket, hz_bind and hz_close -----

  /** `hz_init_connection_info` when nothing fails. */
  method InitConnectionInfo(info: ConnInfo) returns (conn: Conn)
    ensures conn.info == info
    ensures fresh(conn.sendBuffer) && fresh(conn.receiveBuffer) && conn.sendBuffer != conn.receiveBuffer
    ensures conn.sendBuffer.items == [] && conn.receiveBuffer.items == []
  {
    var send := new Ring();
    var receive := new Ring();
    conn := Conn(info, send, receive);
  }

  method InsertConn(list: Node?<Conn>, conn: Conn, ghost s: seq<Node<Conn>>) returns (head: Node?<Conn>, node: Node<Conn>)
    requires OneWay(list, s)
    ensures fresh(node) && node.value == conn
    ensures OneWay(head, [node] + s)
    ensures Conns([node] + s) == [conn] + old(Conns(s))
  {
    node := new Node(conn);
    head := InsertOneWay(list, node, s);
  }

  method RebindConn(node: Node<Conn>, sip: u32, port: u16, mac: Mac, ghost head: Node?<Conn>, ghost s: seq<Node<Conn>>, ghost k: nat)
    requires OneWay(head, s) && k < |s| && s[k] == node
    modifies node`value
    ensures OneWay(head, s)
    ensures node.value == old(node.value).(info := old(node.value.info).(sip := sip, srcPort := port, srcMac := mac))
    ensures Conns(s) == old(Conns(s))[k := node.value]
  {
    OneWayIsChain(head, s);
    ghost var was := Conns(s);
    node.value := node.value.(info := node.value.info.(sip := sip, srcPort := port, srcMac := mac));
    assert forall i | 0 <= i < |s| && i != k :: s[i] != node;
    assert Conns(s) == was[k := node.value];
    OneWayIsChain(head, s);
  }

  /** The front really leaves the list; any other record stays as its last one. */
  method RemoveConn(list: Node?<Conn>, node: Node<Conn>, ghost s: seq<Node<Conn>>, ghost k: nat)
    returns (head: Node?<Conn>, ghost rest: seq<Node<Conn>>)
    requires OneWay(list, s) && k < |s| && s[k] == node
    modifies s`next, s`prev
    ensures rest == AfterDelete(s, k)
    ensures OneWay(head, rest)
    ensures Conns(rest) == AfterDelete(old(Conns(s)), k)
  {
    ghost var was := Conns(s);
    head := DeleteOneWay(list, node, s, k);
    rest := AfterDelete(s, k);
    assert Conns(s) == was;
    ConnsAfterDelete(s, k);
  }

  lemma ConnsAfterDelete(s: seq<Node<Conn>>, k: nat)
    requires k < |s|
    ensures Conns(AfterDelete(s, k)) == AfterDelete(Conns(s), k)
  {
  }

  lemma InfosAfterDelete(cs: seq<Conn>, k: nat)
    requires k < |cs|
    ensures InfosOf(AfterDelete(cs, k)) == AfterDelete(InfosOf(cs), k)
  {
  }

  lemma InfosOfCons(c: Conn, cs: seq<Conn>)
    ensures InfosOf([c] + cs) == [c.info] + InfosOf(cs)
  {
  }

  lemma InfosAfterUpdate(cs: seq<Conn>, k: nat, c: Conn)
    requires k < |cs|
    ensures InfosOf(cs[k := c]) == InfosOf(cs)[k := c.info]
  {
  }
}
