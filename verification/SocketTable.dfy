/** `hz_socket`, `hz_bind` and `hz_close` of `src/socket.c`: the connection list and the
    descriptor bitmap they keep together. */
module SocketTable {
  import opened Bytes
  import opened FrameHeaders
  import opened UdpInfo
  import opened Lists
  import opened Connections
  import opened Wiring
  import opened FdBitmap

  const NO_MAC: Mac := [0, 0, 0, 0, 0, 0]

  /** The table as a value: the records in list order, the descriptors marked in the
      bitmap, and the counter, which no close decrements. */
  datatype Table = Table(conns: seq<ConnInfo>, used: set<int>, count: int)

  ghost function SocketSpec(t: Table, typ: int, initOk: bool): (Table, int) {
    var fd := LowestFree(t.used, DEFAULT_FD_NUM);
    if fd == -1 then (t, -1)
    else if !initOk then (t.(used := t.used + {fd}), -1)
    else (Table([ConnInfo(fd, 0, 0, 0, 0, typ % 0x100, NO_MAC, NO_MAC)] + t.conns, t.used + {fd}, t.count + 1), fd)
  }

  function Rebound(cs: seq<ConnInfo>, k: nat, sip: u32, port: u16, mac: Mac): seq<ConnInfo>
    requires k < |cs|
  {
    cs[k := cs[k].(sip := sip, srcPort := port, srcMac := mac)]
  }

  ghost function BindSpec(t: Table, fd: int, sip: u32, port: u16, mac: Mac): (Table, int) {
    var k := First(t.conns, ByFd(fd));
    if k == -1 then (t, -1)
    else (t.(conns := Rebound(t.conns, k, sip, port, mac)), 0)
  }

  /** Closing the front record removes it. Closing any other UDP record leaves it in the
      list, its memory freed, and loses the records behind it. */
  ghost function CloseSpec(t: Table, fd: int): (Table, int) {
    var k := First(t.conns, ByFd(fd));
    if k == -1 then (t, 0)
    else if t.conns[k].protocol != PROTOCOL_UDP then (t, 1)
    else (Table(AfterDelete(t.conns, k), t.used - {fd}, t.count), 1)
  }

  /** What a close does to the rings, or to what they hold, in list order. */
  ghost function AfterClose<X>(rs: seq<X>, t: Table, fd: int): seq<X>
    requires |rs| == |t.conns|
  {
    var k := First(t.conns, ByFd(fd));
    if k == -1 || t.conns[k].protocol != PROTOCOL_UDP then rs else AfterDelete(rs, k)
  }

  ghost predicate InRange(cs: seq<ConnInfo>) {
    forall i | 0 <= i < |cs| :: DEFAULT_FD_NUM <= cs[i].fd < MAX_FD_COUNT
  }

  lemma InRangeOfCons(c: ConnInfo, cs: seq<ConnInfo>)
    requires InRange(cs) && DEFAULT_FD_NUM <= c.fd < MAX_FD_COUNT
    ensures InRange([c] + cs)
  {
  }

  lemma InRangeAfterDelete(cs: seq<ConnInfo>, k: nat)
    requires InRange(cs) && k < |cs|
    ensures InRange(AfterDelete(cs, k))
  {
  }

  // ----- What each call returns and does -----

  /** A socket call fails exactly when memory is out or every descriptor is marked, and then changes no
      record. Else its result is the least unmarked descriptor, which is marked from then on and by which
      the new record, in front of all others, is found. */
  lemma SocketResult(t: Table, typ: int, ok: bool)
    ensures var (t', r) := SocketSpec(t, typ, ok);
            && (r == -1 <==> !ok || forall fd | 3 <= fd < 1024 :: fd in t.used)
            && (r == -1 ==> t'.conns == t.conns && t'.count == t.count)
            && (r != -1 ==>
                  && 3 <= r < 1024 && r !in t.used && (forall fd | 3 <= fd < r :: fd in t.used)
                  && t'.used == t.used + {r} && t'.count == t.count + 1
                  && |t'.conns| == |t.conns| + 1 && t'.conns[1..] == t.conns && First(t'.conns, ByFd(r)) == 0)
  {
    var (t', r) := SocketSpec(t, typ, ok);
    if r != -1 {
      FirstIs(t'.conns, ByFd(r), 0);
    }
  }

  /** The new record is unbound; its protocol is the type modulo 256. */
  lemma NewRecord(t: Table, typ: int, ok: bool)
    ensures var (t', r) := SocketSpec(t, typ, ok);
            r != -1 ==>
              var c := t'.conns[0];
              && c.fd == r && c.sip == 0 && c.dip == 0 && c.srcPort == 0 && c.dstPort == 0
              && 0 <= c.protocol < 256 && (exists q: int :: typ == 256 * q + c.protocol)
              && c.srcMac == [0, 0, 0, 0, 0, 0] && c.dstMac == [0, 0, 0, 0, 0, 0]
  {
    assert typ == 256 * (typ / 0x100) + typ % 0x100;
  }

  /** A bind of an unlisted descriptor fails and changes nothing. Else the first record with that descriptor
      has the new address, port and link-layer address, and nothing else is different. */
  lemma BindResult(t: Table, fd: int, sip: u32, port: u16, mac: Mac)
    ensures var (t', r) := BindSpec(t, fd, sip, port, mac);
            var k := First(t.conns, ByFd(fd));
            && (r == -1 <==> forall i | 0 <= i < |t.conns| :: t.conns[i].fd != fd)
            && (r == -1 ==> t' == t)
            && (r != -1 ==>
                  && r == 0 && k >= 0 && |t'.conns| == |t.conns| && t'.used == t.used && t'.count == t.count
                  && (forall i | 0 <= i < |t.conns| && i != k :: t'.conns[i] == t.conns[i])
                  && var was, now := t.conns[k], t'.conns[k];
                     && now.fd == was.fd == fd && now.sip == sip && now.srcPort == port && now.srcMac == mac
                     && now.dip == was.dip && now.dstPort == was.dstPort && now.protocol == was.protocol
                     && now.dstMac == was.dstMac)
  {
    assert (forall i | 0 <= i < |t.conns| :: t.conns[i].fd != fd) <==> forall i | 0 <= i < |t.conns| :: !ByFd(fd)(t.conns[i]);
  }

  /** A close gives 0 exactly for an unlisted descriptor, else 1. It changes the table exactly for a UDP
      socket: the descriptor is unmarked, and with distinct descriptors the front record is out of reach
      and all others are as before; behind the front, the records up to the closed one are left. */
  lemma CloseResult(t: Table, fd: int)
    ensures var (t', r) := CloseSpec(t, fd);
            var k := First(t.conns, ByFd(fd));
            && (r == 0 <==> forall i | 0 <= i < |t.conns| :: t.conns[i].fd != fd)
            && (r != 0 ==> r == 1)
            && (r == 0 || t.conns[k].protocol != 2 ==> t' == t)
            && (r != 0 && t.conns[k].protocol == 2 ==>
                  && t'.used == t.used - {fd} && t'.count == t.count
                  && (k == 0 ==> t.conns == [t.conns[0]] + t'.conns)
                  && (k > 0 ==> t'.conns <= t.conns && |t'.conns| == k + 1))
  {
    assert (forall i | 0 <= i < |t.conns| :: t.conns[i].fd != fd) <==> forall i | 0 <= i < |t.conns| :: !ByFd(fd)(t.conns[i]);
  }

  class Sockets {
    var head: Node?<Conn>
    var count: int
    const fds: FdTable
    ghost var chain: seq<Node<Conn>>
    ghost var conns: seq<Conn>  // the records in it

    ghost predicate Valid()
      reads *
    {
      ListValid() && Wired(conns)
    }

    ghost predicate ListValid()
      reads this, chain, fds, fds.table
    {
      && fds.Valid()
      && OneWay(head, chain)
      && conns == Conns(chain)
      && InRange(InfosOf(conns))
    }

    ghost function Value(): Table
      reads this, fds
    {
      Table(InfosOf(conns), fds.used, count)
    }

    constructor ()
      ensures Valid() && fresh(fds) && fresh(fds.table)
      ensures Value() == Table([], {}, 0) && conns == []
    {
      head, count, chain, conns := null, 0, [], [];
      fds := new FdTable();
    }

    // ----- The calls -----

    /** `hz_socket`: a new connection comes with two empty rings of its own, and the rings of the others
        keep what they hold. `initOk` says whether the foreign ring and memory allocations behind
        `hz_init_connection_info` succeeded. */
    method Socket(domain: int, typ: int, protocol: int, initOk: bool, ghost own: set<array<byte>>) returns (fd: int)
      requires Valid() && Foreign(conns, own)
      modifies this`head, this`count, this`chain, this`conns, fds`used, fds.table
      ensures Valid() && Foreign(conns, own)
      ensures Value() == SocketSpec(old(Value()), typ, initOk).0
      ensures fd == SocketSpec(old(Value()), typ, initOk).1
      ensures if fd == -1 then conns == old(conns) else ConnAdded(old(conns), conns)
      ensures Sends(conns) == (if fd == -1 then [] else [[]]) + old(Sends(conns))
      ensures Receives(conns) == (if fd == -1 then [] else [[]]) + old(Receives(conns))
    {
      ghost var was := conns;
      fd := AddKeepingRings(typ, initOk);
      ForeignStays(was, own);
      if fd != -1 {
        WiredAfterAdding(was, conns, own);
      }
    }

    /** `hz_bind`: no ring is touched. */
    method Bind(fd: int, sinAddr: u32, sinPort: u16, deviceMac: Mac, ghost own: set<array<byte>>) returns (r: int)
      requires Valid() && Foreign(conns, own)
      modifies this`conns, chain`value
      ensures Valid() && Foreign(conns, own)
      ensures Value() == BindSpec(old(Value()), fd, sinAddr, sinPort, deviceMac).0
      ensures r == BindSpec(old(Value()), fd, sinAddr, sinPort, deviceMac).1
      ensures Sends(conns) == old(Sends(conns)) && Receives(conns) == old(Receives(conns))
    {
      ghost var was := conns;
      r := RebindKeepingRings(fd, sinAddr, sinPort, deviceMac);
      ForeignStays(was, own);
      SameRings(was, conns, own);
    }

    /** `hz_close`: the connections left keep their rings and what those hold. */
    method Close(fd: int, ghost own: set<array<byte>>) returns (r: int)
      requires Valid() && Foreign(conns, own)
      modifies this`head, this`chain, this`conns, chain`next, chain`prev, fds`used, fds.table
      ensures Valid() && Foreign(conns, own)
      ensures Value() == CloseSpec(old(Value()), fd).0
      ensures r == CloseSpec(old(Value()), fd).1
      ensures conns == AfterClose(old(conns), old(Value()), fd)
      ensures Sends(conns) == AfterClose(old(Sends(conns)), old(Value()), fd)
      ensures Receives(conns) == AfterClose(old(Receives(conns)), old(Value()), fd)
    {
      ghost var was := conns;
      ghost var k := First(Value().conns, ByFd(fd));
      r := RemoveKeepingRings(fd);
      ForeignStays(was, own);
      if k != -1 {
        WiredAfterDelete(was, k, own);
      }
    }

    method AddKeepingRings(typ: int, initOk: bool) returns (fd: int)
      requires Valid()
      modifies this`head, this`count, this`chain, this`conns, fds`used, fds.table
      ensures ListValid()
      ensures Value() == SocketSpec(old(Value()), typ, initOk).0
      ensures fd == SocketSpec(old(Value()), typ, initOk).1
      ensures if fd == -1 then conns == old(conns) else ConnAdded(old(conns), conns)
      ensures RingsAsBefore(old(conns))
    {
      fd := AddSocket(typ, initOk);
      RingsKept(old(conns));
    }

    method RebindKeepingRings(fd: int, sinAddr: u32, sinPort: u16, deviceMac: Mac) returns (r: int)
      requires Valid()
      modifies this`conns, chain`value
      ensures ListValid()
      ensures Value() == BindSpec(old(Value()), fd, sinAddr, sinPort, deviceMac).0
      ensures r == BindSpec(old(Value()), fd, sinAddr, sinPort, deviceMac).1
      ensures SameButInfos(old(conns), conns)
      ensures RingsAsBefore(old(conns))
    {
      r := RebindSocket(fd, sinAddr, sinPort, deviceMac);
      RingsKept(old(conns));
    }

    method RemoveKeepingRings(fd: int) returns (r: int)
      requires Valid()
      modifies this`head, this`chain, this`conns, chain`next, chain`prev, fds`used, fds.table
      ensures ListValid()
      ensures Value() == CloseSpec(old(Value()), fd).0
      ensures r == CloseSpec(old(Value()), fd).1
      ensures conns == AfterClose(old(conns), old(Value()), fd)
      ensures RingsAsBefore(old(conns))
    {
      r := RemoveSocket(fd);
      RingsKept(old(conns));
    }

    // ----- What they do to the list and the bitmap -----

    method AddSocket(typ: int, initOk: bool) returns (fd: int)
      requires ListValid()
      modifies this`head, this`count, this`chain, this`conns, fds`used, fds.table
      ensures ListValid()
      ensures Value() == SocketSpec(old(Value()), typ, initOk).0
      ensures fd == SocketSpec(old(Value()), typ, initOk).1
      ensures if fd == -1 then conns == old(conns) else ConnAdded(old(conns), conns)
    {
      fd := fds.GetFdFromBitmap();
      if fd == -1 {
        return;
      }
      if !initOk {
        return -1;
      }
      Attach(ConnInfo(fd, 0, 0, 0, 0, typ % 0x100, NO_MAC, NO_MAC));
    }

    /** The list half of `hz_socket`: a new record with two empty rings goes to the front. */
    method Attach(info: ConnInfo)
      requires ListValid() && DEFAULT_FD_NUM <= info.fd < MAX_FD_COUNT
      modifies this`head, this`count, this`chain, this`conns
      ensures ListValid()
      ensures Value() == Table([info] + old(Value()).conns, old(Value()).used, old(count) + 1)
      ensures ConnAdded(old(conns), conns)
    {
      var conn := InitConnectionInfo(info);
      var node;
      head, node := InsertConn(head, conn, chain);
      InfosOfCons(conn, conns);
      InRangeOfCons(info, InfosOf(conns));
      chain, conns := [node] + chain, [conn] + conns;
      count := count + 1;
    }

    method RebindSocket(fd: int, sinAddr: u32, sinPort: u16, deviceMac: Mac) returns (r: int)
      requires ListValid()
      modifies this`conns, chain`value
      ensures ListValid()
      ensures Value() == BindSpec(old(Value()), fd, sinAddr, sinPort, deviceMac).0
      ensures r == BindSpec(old(Value()), fd, sinAddr, sinPort, deviceMac).1
      ensures SameButInfos(old(conns), conns)
    {
      var conn := GetConnInfoByFd(head, fd, chain);
      if conn == null {
        return -1;
      }
      Rebind(conn, sinAddr, sinPort, deviceMac, First(Infos(chain), ByFd(fd)));
      return 0;
    }

    method Rebind(conn: Node<Conn>, sip: u32, port: u16, mac: Mac, ghost k: nat)
      requires ListValid() && k < |chain| && chain[k] == conn
      modifies this`conns, conn`value
      ensures ListValid()
      ensures Value() == old(Value()).(conns := Rebound(old(Value()).conns, k, sip, port, mac))
      ensures SameButInfos(old(conns), conns)
    {
      RebindConn(conn, sip, port, mac, head, chain, k);
      InfosAfterUpdate(conns, k, conn.value);
      conns := conns[k := conn.value];
    }

    method RemoveSocket(fd: int) returns (r: int)
      requires ListValid()
      modifies this`head, this`chain, this`conns, chain`next, chain`prev, fds`used, fds.table
      ensures ListValid()
      ensures Value() == CloseSpec(old(Value()), fd).0
      ensures r == CloseSpec(old(Value()), fd).1
      ensures conns == AfterClose(old(conns), old(Value()), fd)
    {
      var conn := GetConnInfoByFd(head, fd, chain);
      if conn == null {
        return 0;
      }
      if conn.value.info.protocol == PROTOCOL_UDP {
        RemoveUdp(conn, fd, First(Infos(chain), ByFd(fd)));
      }
      return 1;
    }

    method RemoveUdp(conn: Node<Conn>, fd: int, ghost k: nat)
      requires ListValid() && k < |chain| && chain[k] == conn && conn.value.info.fd == fd
      modifies this`head, this`chain, this`conns, chain`next, chain`prev, fds`used, fds.table
      ensures ListValid()
      ensures Value() == Table(AfterDelete(old(Value()).conns, k), old(Value()).used - {fd}, old(Value()).count)
      ensures conns == AfterDelete(old(conns), k)
    {
      assert InfosOf(conns)[k].fd == fd;
      Detach(conn, k);
      ReleaseFd(fd);
    }

    /** The bitmap half of `hz_close`. */
    method ReleaseFd(fd: int)
      requires ListValid() && DEFAULT_FD_NUM <= fd < MAX_FD_COUNT
      modifies fds`used, fds.table
      ensures ListValid()
      ensures Value() == old(Value()).(used := old(Value()).used - {fd})
    {
      var _ := fds.ResetFd(fd);
    }

    /** The list half of `hz_close`. */
    method Detach(conn: Node<Conn>, ghost k: nat)
      requires ListValid() && k < |chain| && chain[k] == conn
      modifies this`head, this`chain, this`conns, chain`next, chain`prev
      ensures ListValid()
      ensures Value() == old(Value()).(conns := AfterDelete(old(Value()).conns, k))
      ensures conns == AfterDelete(old(conns), k)
    {
      InRangeAfterDelete(InfosOf(conns), k);
      InfosAfterDelete(conns, k);
      var h, rest := RemoveConn(head, conn, chain, k);
      head, chain, conns := h, rest, AfterDelete(conns, k);
    }
  }

  // ----- What every run keeps -----

  /** Listed descriptors are distinct, lie in [3, 1024) and have their bits set. A set bit
      need not be listed: a failed `hz_socket` leaves one behind. */
  ghost predicate Inv(t: Table) {
    && (forall i | 0 <= i < |t.conns| :: DEFAULT_FD_NUM <= t.conns[i].fd < MAX_FD_COUNT && t.conns[i].fd in t.used)
    && (forall i, j | 0 <= i < j < |t.conns| :: t.conns[i].fd != t.conns[j].fd)
  }

  datatype Op = OpSocket(typ: int, initOk: bool) | OpBind(fd: int, sip: u32, port: u16, mac: Mac) | OpClose(fd: int)

  ghost function Apply(t: Table, op: Op): Table {
    match op
    case OpSocket(typ, ok) => SocketSpec(t, typ, ok).0
    case OpBind(fd, sip, port, mac) => BindSpec(t, fd, sip, port, mac).0
    case OpClose(fd) => CloseSpec(t, fd).0
  }

  /** What a caller can check before the call: a close is of the most recently opened
      socket, of a socket that is not a UDP one, or of an unknown descriptor. */
  ghost predicate CloseSafe(t: Table, op: Op) {
    op.OpClose? ==>
      var k := First(t.conns, ByFd(op.fd));
      k <= 0 || t.conns[k].protocol != PROTOCOL_UDP
  }

  /** A step keeps the invariant if and only if it is not a close of a UDP socket behind
      the front of the list. */
  lemma StepKeepsInvIff(t: Table, op: Op)
    requires Inv(t)
    ensures Inv(Apply(t, op)) <==> CloseSafe(t, op)
  {
    match op {
      case OpSocket(typ, ok) => SocketKeepsInv(t, typ, ok);
      case OpBind(fd, sip, port, mac) =>
      case OpClose(fd) => CloseKeepsInvIff(t, fd);
    }
  }

  lemma SocketKeepsInv(t: Table, typ: int, ok: bool)
    requires Inv(t)
    ensures Inv(SocketSpec(t, typ, ok).0)
  {
    var t' := SocketSpec(t, typ, ok).0;
    assert forall i | 1 <= i < |t'.conns| && |t'.conns| == |t.conns| + 1 :: t'.conns[i] == t.conns[i - 1];
  }

  lemma CloseKeepsInvIff(t: Table, fd: int)
    requires Inv(t)
    ensures Inv(CloseSpec(t, fd).0) <==> CloseSafe(t, OpClose(fd))
  {
    var k := First(t.conns, ByFd(fd));
    if k > 0 && t.conns[k].protocol == PROTOCOL_UDP {
      var t' := CloseSpec(t, fd).0;
      assert t'.conns[k].fd !in t'.used;
    } else if k == 0 {
      assert t.conns[0].fd == fd;
      assert forall i | 0 <= i < |t.conns[1..]| :: t.conns[1..][i] == t.conns[i + 1];
    }
  }

  /** Exactly what an unsafe close costs: every record behind the closed one leaves the list
      with its bit still set, so neither lookup nor allocation sees that descriptor again. */
  lemma UnsafeCloseLosesTheRest(t: Table, fd: int, j: nat)
    requires Inv(t)
    requires var k := First(t.conns, ByFd(fd));
             k > 0 && t.conns[k].protocol == PROTOCOL_UDP && k < j < |t.conns|
    ensures var t' := CloseSpec(t, fd).0;
            && First(t'.conns, ByFd(t.conns[j].fd)) == -1
            && t.conns[j].fd in t'.used
            && LowestFree(t'.used, DEFAULT_FD_NUM) != t.conns[j].fd
  {
    var k := First(t.conns, ByFd(fd));
    var t' := CloseSpec(t, fd).0;
    forall i | 0 <= i < |t'.conns|
      ensures t'.conns[i].fd != t.conns[j].fd
    {
      assert t'.conns[i] == t.conns[i];
    }
    assert t.conns[k].fd == fd;
  }

  const NO_SOCKETS := Table([], {}, 0)

  /** A sequence of calls, each close safe when it is made. */
  ghost predicate SafeRun(t: Table, ops: seq<Op>)
    decreases |ops|
  {
    ops == [] || (CloseSafe(t, ops[0]) && SafeRun(Apply(t, ops[0]), ops[1..]))
  }

  ghost function Run(t: Table, ops: seq<Op>): Table
    decreases |ops|
  {
    if ops == [] then t else Run(Apply(t, ops[0]), ops[1..])
  }

  lemma {:induction false} RunKeepsInv(t: Table, ops: seq<Op>)
    requires Inv(t) && SafeRun(t, ops)
    ensures Inv(Run(t, ops))
    decreases |ops|
  {
    if ops != [] {
      StepKeepsInvIff(t, ops[0]);
      RunKeepsInv(Apply(t, ops[0]), ops[1..]);
    }
  }

  /** After any such run a new descriptor is one no open socket has, and looking a
      descriptor up gives the one record that owns it. */
  lemma AfterAnyRun(ops: seq<Op>, typ: int)
    requires SafeRun(NO_SOCKETS, ops)
    ensures var t := Run(NO_SOCKETS, ops);
            && (forall i | 0 <= i < |t.conns| :: t.conns[i].fd != SocketSpec(t, typ, true).1)
            && (forall i | 0 <= i < |t.conns| :: First(t.conns, ByFd(t.conns[i].fd)) == i)
  {
    RunKeepsInv(NO_SOCKETS, ops);
    var t := Run(NO_SOCKETS, ops);
    forall i | 0 <= i < |t.conns|
      ensures First(t.conns, ByFd(t.conns[i].fd)) == i
    {
      FirstIs(t.conns, ByFd(t.conns[i].fd), i);
    }
  }

  /** It does happen: of three UDP sockets the one in the middle is closed. The closed one stays listed, and
      the oldest is out of reach with its descriptor still marked. */
  lemma SomeCloseLoses()
    ensures var open := OpSocket(PROTOCOL_UDP, true);
            var t := Run(NO_SOCKETS, [open, open, open]);
            var t' := Apply(t, OpClose(4));
            && SafeRun(NO_SOCKETS, [open, open, open]) && !CloseSafe(t, OpClose(4))
            && First(t.conns, ByFd(3)) == 2 && First(t'.conns, ByFd(3)) == -1 && 3 in t'.used
            && First(t'.conns, ByFd(4)) == 1 && 4 !in t'.used
  {
    var t := ThreeSockets();
    FirstIs(t.conns, ByFd(3), 2);
    FirstIs(t.conns, ByFd(4), 1);
    var t' := Apply(t, OpClose(4));
    assert t'.conns == t.conns[..2];
    FirstIs(t'.conns, ByFd(3), -1);
    FirstIs(t'.conns, ByFd(4), 1);
  }

  lemma ThreeSockets() returns (t: Table)
    ensures var open := OpSocket(PROTOCOL_UDP, true);
            SafeRun(NO_SOCKETS, [open, open, open]) && t == Run(NO_SOCKETS, [open, open, open])
    ensures |t.conns| == 3 && t.conns[0].fd == 5 && t.conns[1].fd == 4 && t.conns[2].fd == 3
    ensures forall i | 0 <= i < 3 :: t.conns[i].protocol == PROTOCOL_UDP
    ensures t.used == {3, 4, 5}
  {
    var open := OpSocket(PROTOCOL_UDP, true);
    var a := NewSocket(NO_SOCKETS, 3);
    var b := NewSocket(a, 4);
    t := NewSocket(b, 5);
    assert [open, open, open][1..] == [open, open] && [open, open][1..] == [open] && [open][1..] == [];
    assert SafeRun(t, []) && Run(t, []) == t;
    assert SafeRun(b, [open]) && Run(b, [open]) == t;
    assert SafeRun(a, [open, open]) && Run(a, [open, open]) == t;
  }

  /** A UDP socket opened when fd is the least free descriptor. */
  lemma NewSocket(t: Table, fd: int) returns (t': Table)
    requires DEFAULT_FD_NUM <= fd < MAX_FD_COUNT && fd !in t.used
    requires forall f | DEFAULT_FD_NUM <= f < fd :: f in t.used
    ensures t' == Apply(t, OpSocket(PROTOCOL_UDP, true))
    ensures t' == Table([ConnInfo(fd, 0, 0, 0, 0, PROTOCOL_UDP, NO_MAC, NO_MAC)] + t.conns, t.used + {fd}, t.count + 1)
  {
    t' := Apply(t, OpSocket(PROTOCOL_UDP, true));
  }

  // ----- List order is creation order -----

  /** The table with, beside each record, how many sockets had been created before it. */
  datatype History = History(t: Table, births: seq<int>)

  ghost function Record(h: History, op: Op): History {
    var t' := Apply(h.t, op);
    if |t'.conns| > |h.t.conns| then History(t', [h.t.count] + h.births)
    else if |t'.conns| < |h.t.conns| && |h.births| > 0 then History(t', h.births[1..])
    else History(t', h.births)
  }

  ghost function RecordAll(h: History, ops: seq<Op>): History
    decreases |ops|
  {
    if ops == [] then h else RecordAll(Record(h, ops[0]), ops[1..])
  }

  ghost predicate YoungestFirst(h: History) {
    && |h.births| == |h.t.conns|
    && (forall i | 0 <= i < |h.births| :: h.births[i] < h.t.count)
    && (forall i, j | 0 <= i < j < |h.births| :: h.births[i] > h.births[j])
  }

  lemma RecordKeepsOrder(h: History, op: Op)
    requires YoungestFirst(h) && CloseSafe(h.t, op)
    ensures YoungestFirst(Record(h, op)) && Record(h, op).t == Apply(h.t, op)
  {
  }

  lemma {:induction false} RunIsYoungestFirst(h: History, ops: seq<Op>)
    requires YoungestFirst(h) && SafeRun(h.t, ops)
    ensures YoungestFirst(RecordAll(h, ops)) && RecordAll(h, ops).t == Run(h.t, ops)
    decreases |ops|
  {
    if ops != [] {
      RecordKeepsOrder(h, ops[0]);
      RunIsYoungestFirst(Record(h, ops[0]), ops[1..]);
    }
  }

  /** The record the packet thread finds for an address is the youngest live one bound to it. */
  lemma DemuxFindsYoungest(ops: seq<Op>, sip: u32, dip: u32, sPort: u16, dPort: u16, j: nat)
    requires SafeRun(NO_SOCKETS, ops)
    requires var t := Run(NO_SOCKETS, ops);
             j < |t.conns| && t.conns[j].sip == sip && t.conns[j].srcPort == sPort
    ensures var h := RecordAll(History(NO_SOCKETS, []), ops);
            var k := First(h.t.conns, BySocket(sip, dip, sPort, dPort, PROTOCOL_UDP));
            && 0 <= k < |h.births| && j < |h.births|
            && (k == j || h.births[k] > h.births[j])
  {
    var h := RecordAll(History(NO_SOCKETS, []), ops);
    RunIsYoungestFirst(History(NO_SOCKETS, []), ops);
    assert BySocket(sip, dip, sPort, dPort, PROTOCOL_UDP)(h.t.conns[j]);
  }
}
