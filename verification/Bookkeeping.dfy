/** What `hz_socket` and `hz_close` (`src/socket.c`) leave in the bitmap and the counter, and whose datagram
    the lookup of `src/udp.c` finds: exactly when each agrees with the connection list. */
module Bookkeeping {
  import opened Bytes
  import opened FrameHeaders
  import opened UdpInfo
  import opened Connections
  import opened FdBitmap
  import opened SocketTable

  // ----- Marked and listed descriptors -----

  ghost predicate Listed(cs: seq<ConnInfo>, fd: int) {
    exists i | 0 <= i < |cs| :: cs[i].fd == fd
  }

  /** The marked descriptors are the listed ones. */
  ghost predicate MarksMatch(t: Table) {
    forall fd :: fd in t.used <==> Listed(t.conns, fd)
  }

  /** What a caller can check before the call: memory and a descriptor are there, or no descriptor is; and
      a close is safe. */
  ghost predicate MarksSafe(t: Table, op: Op) {
    match op
    case OpSocket(_, ok) => ok || LowestFree(t.used, DEFAULT_FD_NUM) == -1
    case OpBind(_, _, _, _) => true
    case OpClose(_) => CloseSafe(t, op)
  }

  /** Marks and list go on matching if and only if the step is safe in that sense. */
  lemma StepKeepsMarksIff(t: Table, op: Op)
    requires Inv(t) && MarksMatch(t)
    ensures MarksMatch(Apply(t, op)) <==> MarksSafe(t, op)
  {
    match op {
      case OpSocket(typ, ok) => SocketKeepsMarksIff(t, typ, ok);
      case OpBind(fd, sip, port, mac) => BindKeepsListed(t, fd, sip, port, mac);
      case OpClose(fd) => CloseKeepsMarksIff(t, fd);
    }
  }

  lemma SocketKeepsMarksIff(t: Table, typ: int, ok: bool)
    requires MarksMatch(t)
    ensures MarksMatch(SocketSpec(t, typ, ok).0) <==> ok || LowestFree(t.used, DEFAULT_FD_NUM) == -1
  {
    var fd := LowestFree(t.used, DEFAULT_FD_NUM);
    var t' := SocketSpec(t, typ, ok).0;
    if fd != -1 && ok {
      forall f
        ensures Listed(t'.conns, f) <==> f == fd || Listed(t.conns, f)
      {
        ListedAfterInsert(t'.conns[0], t.conns, f);
      }
    } else if fd != -1 {
      assert fd in t'.used && !Listed(t'.conns, fd);
    }
  }

  lemma ListedAfterInsert(c: ConnInfo, cs: seq<ConnInfo>, fd: int)
    ensures Listed([c] + cs, fd) <==> c.fd == fd || Listed(cs, fd)
  {
    assert ([c] + cs)[0] == c && forall i | 0 <= i < |cs| :: ([c] + cs)[i + 1] == cs[i];
  }

  lemma BindKeepsListed(t: Table, fd: int, sip: u32, port: u16, mac: Mac)
    ensures BindSpec(t, fd, sip, port, mac).0.used == t.used
    ensures forall f :: Listed(BindSpec(t, fd, sip, port, mac).0.conns, f) <==> Listed(t.conns, f)
  {
    var t' := BindSpec(t, fd, sip, port, mac).0;
    assert |t'.conns| == |t.conns| && forall i | 0 <= i < |t.conns| :: t'.conns[i].fd == t.conns[i].fd;
  }

  lemma CloseKeepsMarksIff(t: Table, fd: int)
    requires Inv(t) && MarksMatch(t)
    ensures MarksMatch(CloseSpec(t, fd).0) <==> CloseSafe(t, OpClose(fd))
  {
    var k := First(t.conns, ByFd(fd));
    var t' := CloseSpec(t, fd).0;
    if k > 0 && t.conns[k].protocol == PROTOCOL_UDP {
      assert t'.conns[k].fd == fd && fd !in t'.used;
    } else if k == 0 && t.conns[0].protocol == PROTOCOL_UDP {
      forall f
        ensures Listed(t.conns, f) <==> t.conns[0].fd == f || Listed(t'.conns, f)
      {
        assert t.conns == [t.conns[0]] + t'.conns;
        ListedAfterInsert(t.conns[0], t'.conns, f);
      }
      assert forall i | 0 <= i < |t'.conns| :: t'.conns[i] == t.conns[i + 1];
      assert !Listed(t'.conns, fd);
    }
  }

  ghost predicate MarksSafeRun(t: Table, ops: seq<Op>)
    decreases |ops|
  {
    ops == [] || (MarksSafe(t, ops[0]) && MarksSafeRun(Apply(t, ops[0]), ops[1..]))
  }

  lemma {:induction false} RunKeepsMarks(t: Table, ops: seq<Op>)
    requires Inv(t) && MarksMatch(t) && MarksSafeRun(t, ops)
    ensures Inv(Run(t, ops)) && MarksMatch(Run(t, ops))
    decreases |ops|
  {
    if ops != [] {
      StepKeepsInvIff(t, ops[0]);
      StepKeepsMarksIff(t, ops[0]);
      RunKeepsMarks(Apply(t, ops[0]), ops[1..]);
    }
  }

  /** A descriptor that is marked and not listed stays so whatever is called afterwards: no lookup finds
      it, no close gives it back and no socket gets it. */
  lemma {:induction false} MarkedForGood(t: Table, ops: seq<Op>, fd: int)
    requires fd in t.used && !Listed(t.conns, fd)
    ensures fd in Run(t, ops).used && !Listed(Run(t, ops).conns, fd)
    decreases |ops|
  {
    if ops != [] {
      StepKeepsUnlistedMark(t, ops[0], fd);
      MarkedForGood(Apply(t, ops[0]), ops[1..], fd);
    }
  }

  lemma StepKeepsUnlistedMark(t: Table, op: Op, fd: int)
    requires fd in t.used && !Listed(t.conns, fd)
    ensures fd in Apply(t, op).used && !Listed(Apply(t, op).conns, fd)
  {
    var t' := Apply(t, op);
    match op {
      case OpSocket(typ, ok) =>
        if t'.conns != t.conns {
          ListedAfterInsert(t'.conns[0], t.conns, fd);
        }
      case OpBind(f, sip, port, mac) => BindKeepsListed(t, f, sip, port, mac);
      case OpClose(f) =>
        var k := First(t.conns, ByFd(f));
        if t' != t {
          assert t.conns[k].fd == f;
          assert forall i | 0 <= i < |t'.conns| :: t'.conns[i] == t.conns[if k == 0 then i + 1 else i];
        }
    }
  }

  /** It does happen: a `hz_socket` that runs out of memory costs descriptor 3 for good. */
  lemma FailedSocketCostsADescriptor(ops: seq<Op>)
    ensures var t := Run(NO_SOCKETS, [OpSocket(PROTOCOL_UDP, false)] + ops);
            3 in t.used && !Listed(t.conns, 3)
  {
    var op := OpSocket(PROTOCOL_UDP, false);
    var t := Apply(NO_SOCKETS, op);
    assert LowestFree({}, DEFAULT_FD_NUM) == 3;
    assert ([op] + ops)[1..] == ops;
    MarkedForGood(t, ops, 3);
  }

  // ----- The counter -----

  /** What a caller can check before the call: a close that removes the front record, or the records
      behind the one it is of, makes the list shorter. */
  ghost predicate CountSafe(t: Table, op: Op) {
    op.OpClose? ==>
      var k := First(t.conns, ByFd(op.fd));
      k == -1 || t.conns[k].protocol != PROTOCOL_UDP || (k > 0 && k + 1 == |t.conns|)
  }

  /** `count` goes on being the list's length if and only if the step is safe in that sense. */
  lemma StepKeepsCountIff(t: Table, op: Op)
    requires t.count == |t.conns|
    ensures Apply(t, op).count == |Apply(t, op).conns| <==> CountSafe(t, op)
  {
  }

  ghost predicate CountSafeRun(t: Table, ops: seq<Op>)
    decreases |ops|
  {
    ops == [] || (CountSafe(t, ops[0]) && CountSafeRun(Apply(t, ops[0]), ops[1..]))
  }

  lemma {:induction false} RunKeepsCount(t: Table, ops: seq<Op>)
    requires t.count == |t.conns| && CountSafeRun(t, ops)
    ensures Run(t, ops).count == |Run(t, ops).conns|
    decreases |ops|
  {
    if ops != [] {
      StepKeepsCountIff(t, ops[0]);
      RunKeepsCount(Apply(t, ops[0]), ops[1..]);
    }
  }

  /** It does happen: one socket opened and closed leaves an empty list and a count of one. */
  lemma CloseLeavesTheCount()
    ensures Run(NO_SOCKETS, [OpSocket(PROTOCOL_UDP, true), OpClose(3)]) == Table([], {}, 1)
  {
    var open := OpSocket(PROTOCOL_UDP, true);
    var t := NewSocket(NO_SOCKETS, 3);
    FirstIs(t.conns, ByFd(3), 0);
    assert t.conns[1..] == [];
    assert Apply(t, OpClose(3)) == Table([], {}, 1);
    assert [open, OpClose(3)][1..] == [OpClose(3)] && [OpClose(3)][1..] == [];
    assert Run(t, [OpClose(3)]) == Apply(t, OpClose(3));
  }

  // ----- Demultiplexing and protocols -----

  /** A record bound to the datagram's destination, whatever its protocol. */
  predicate BoundTo(c: ConnInfo, sip: u32, sPort: u16) {
    c.sip == sip && c.srcPort == sPort
  }

  /** The lookup for a UDP datagram finds the youngest UDP record bound to the address if and only if
      each record of another protocol bound there has a younger UDP record bound there. */
  lemma DemuxRespectsProtocolIff(cs: seq<ConnInfo>, sip: u32, dip: u32, sPort: u16, dPort: u16)
    ensures First(cs, BySocket(sip, dip, sPort, dPort, PROTOCOL_UDP)) ==
            First(cs, (c: ConnInfo) => BoundTo(c, sip, sPort) && c.protocol == PROTOCOL_UDP) <==>
              forall i | 0 <= i < |cs| && BoundTo(cs[i], sip, sPort) && cs[i].protocol != PROTOCOL_UDP ::
                HasYoungerUdp(cs, i, sip, sPort)
  {
    var p := BySocket(sip, dip, sPort, dPort, PROTOCOL_UDP);
    var u := (c: ConnInfo) => BoundTo(c, sip, sPort) && c.protocol == PROTOCOL_UDP;
    var k, m := First(cs, p), First(cs, u);
    assert forall i | 0 <= i < |cs| :: p(cs[i]) <==> BoundTo(cs[i], sip, sPort);
    assert forall i | 0 <= i < |cs| && u(cs[i]) :: p(cs[i]);
    if k == m {
      forall i | 0 <= i < |cs| && BoundTo(cs[i], sip, sPort) && cs[i].protocol != PROTOCOL_UDP
        ensures HasYoungerUdp(cs, i, sip, sPort)
      {
        assert p(cs[i]) && !u(cs[i]);
        assert k < i && u(cs[k]);
      }
    } else {
      assert k >= 0 && p(cs[k]) && !u(cs[k]);
      assert forall j | 0 <= j < k :: !p(cs[j]);
    }
  }

  ghost predicate HasYoungerUdp(cs: seq<ConnInfo>, i: int, sip: u32, sPort: u16)
    requires 0 <= i < |cs|
  {
    exists j | 0 <= j < i :: BoundTo(cs[j], sip, sPort) && cs[j].protocol == PROTOCOL_UDP
  }

  /** It does happen: a socket of the other protocol, bound to the address, gets the datagram. */
  lemma OtherProtocolGetsTheDatagram(sip: u32, dip: u32, sPort: u16, dPort: u16, mac: Mac)
    ensures var t := Run(NO_SOCKETS, [OpSocket(PROTOCOL_TCP, true), OpBind(3, sip, sPort, mac)]);
            && First(t.conns, BySocket(sip, dip, sPort, dPort, PROTOCOL_UDP)) == 0
            && t.conns[0].protocol == PROTOCOL_TCP
  {
    var open, bind := OpSocket(PROTOCOL_TCP, true), OpBind(3, sip, sPort, mac);
    assert LowestFree({}, DEFAULT_FD_NUM) == 3;
    var a := Apply(NO_SOCKETS, open);
    FirstIs(a.conns, ByFd(3), 0);
    var t := Apply(a, bind);
    assert [open, bind][1..] == [bind] && [bind][1..] == [];
    assert Run(a, [bind]) == t;
    FirstIs(t.conns, BySocket(sip, dip, sPort, dPort, PROTOCOL_UDP), 0);
  }
}
