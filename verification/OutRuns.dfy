/** Conservation of outbound datagrams over whole runs of sends, sockets opened and closed, changes of the
    ARP table, and sweeps. A sweep is taken step by step, as `hz_process_out_udp` (`src/udp.c`) makes it: what
    it takes out of a ring to park goes back in a step of its own, and sends on other cores fall in
    between. */
module OutRuns {
  import opened UdpInfo
  import opened Rings
  import opened ArpTable
  import opened OutSweep

  /** A datagram a send ring accepted, and the descriptor it was sent on. */
  datatype Sent = Sent(fd: int, d: Datagram)

  /** Whether a sweep is under way, and the list position it has come to. */
  datatype Progress = Idle | At(k: nat)

  datatype State = State(
    fds: seq<int>,                  // the connection list
    rings: seq<seq<Parcel<nat>>>,   // their send rings; a tag is the position in `sent`
    arp: seq<ArpEntry>,
    sweep: Progress,
    held: seq<Parcel<nat>>,         // the datagram the sweep is about to park, if any
    sent: seq<Sent>,
    framed: seq<Parcel<nat>>,       // all datagrams framed, in order
    dropped: seq<Parcel<nat>>,      // all datagrams still queued when their socket was closed
    lost: seq<Parcel<nat>>)         // all datagrams a full ring refused to take back

  datatype Op =
    | Open(fd: int)                 // hz_socket puts the new connection in front
    | SendTo(k: nat, d: Datagram)
    | CloseFront                    // hz_close of the youngest connection, the one close that is safe
    | SetArp(es: seq<ArpEntry>)
    | StartSweep
    | Serve                         // dequeue, look up, and frame or announce
    | PutBack                       // requeue what was announced

  /** Opening and sending happen at any time. The packet thread alone changes the ARP table and sweeps, one
      after the other; a close during a sweep is left out. */
  predicate Enabled(s: State, op: Op) {
    match op
    case Open(fd) => fd !in s.fds
    case SendTo(k, _) => k < |s.rings| && k < |s.fds|
    case CloseFront => s.sweep == Idle && s.fds != [] && s.rings != []
    case SetArp(_) => s.sweep == Idle
    case StartSweep => s.sweep == Idle
    case Serve => s.sweep.At? && s.held == []
    case PutBack => s.sweep.At? && s.held != [] && s.sweep.k < |s.rings|
  }

  function Apply(s: State, op: Op): State
    requires Enabled(s, op)
  {
    match op
    case Open(fd) =>
      s.(fds := [fd] + s.fds, rings := [[]] + s.rings, sweep := if s.sweep.At? then At(s.sweep.k + 1) else Idle)
    case SendTo(k, d) =>
      if |s.rings[k]| < CAPACITY
      then s.(rings := s.rings[k := s.rings[k] + [Parcel(|s.sent|, d)]], sent := s.sent + [Sent(s.fds[k], d)])
      else s
    case CloseFront => s.(fds := s.fds[1..], rings := s.rings[1..], dropped := s.dropped + s.rings[0])
    case SetArp(es) => s.(arp := es)
    case StartSweep => s.(sweep := At(0))
    case Serve =>
      var k := s.sweep.k;
      if k >= |s.rings| || s.rings[k] == [] then s.(sweep := Idle)
      else
        var p, t := s.rings[k][0], s.(rings := s.rings[k := s.rings[k][1..]]);
        if Resolved(p, s.arp) then t.(framed := s.framed + [p], sweep := At(k + 1)) else t.(held := [p])
    case PutBack =>
      var k, t := s.sweep.k, s.(held := [], sweep := At(s.sweep.k + 1));
      if |s.rings[k]| < CAPACITY then t.(rings := s.rings[k := s.rings[k] + s.held]) else t.(lost := s.lost + s.held)
  }

  /** The datagrams framed by a sweep. */
  function Framed<X>(out: seq<Frame<X>>): seq<Parcel<X>> {
    if out == [] then []
    else (if out[0].UdpOut? then [out[0].p] else []) + Framed(out[1..])
  }

  /** Everything queued in any ring. */
  ghost function Queued<X>(rings: seq<seq<Parcel<X>>>): multiset<Parcel<X>> {
    if rings == [] then multiset{} else multiset(rings[0]) + Queued(rings[1..])
  }

  /** All accepted datagrams, each under its own tag. */
  function AllSent(sent: seq<Sent>): (ps: seq<Parcel<nat>>)
    ensures |ps| == |sent|
    ensures forall i | 0 <= i < |sent| :: ps[i] == Parcel(i, sent[i].d)
  {
    seq(|sent|, i requires 0 <= i < |sent| => Parcel(i, sent[i].d))
  }

  /** Conservation: what is queued or in the sweep's hand, what has been framed, what went with its socket
      and what was lost is, together, what was accepted. */
  ghost predicate Conserves(s: State) {
    Queued(s.rings) + Elsewhere(s) == multiset(AllSent(s.sent))
  }

  ghost function Elsewhere(s: State): multiset<Parcel<nat>> {
    multiset(s.held) + multiset(s.framed) + multiset(s.dropped) + multiset(s.lost)
  }

  predicate OwnRing(q: seq<Parcel<nat>>, fd: int, sent: seq<Sent>) {
    |q| <= CAPACITY && forall n | 0 <= n < |q| :: q[n].tag < |sent| && sent[q[n].tag] == Sent(fd, q[n].d)
  }

  ghost predicate OwnRings(rings: seq<seq<Parcel<nat>>>, fds: seq<int>, sent: seq<Sent>)
    requires |rings| == |fds|
  {
    forall k | 0 <= k < |rings| :: OwnRing(rings[k], fds[k], sent)
  }

  ghost predicate Inv(s: State) {
    && |s.rings| == |s.fds|
    && (forall i, j | 0 <= i < j < |s.fds| :: s.fds[i] != s.fds[j])
    && OwnRings(s.rings, s.fds, s.sent)
    && (s.held != [] ==> |s.held| == 1 && s.sweep.At? && s.sweep.k < |s.fds| && OwnRing(s.held, s.fds[s.sweep.k], s.sent))
    && Conserves(s)
  }

  // ----- An atomic sweep -----

  lemma AddToBoth<T>(a: multiset<T>, b: multiset<T>, c: multiset<T>, d: multiset<T>, e: multiset<T>)
    requires b + c == d + e
    ensures (a + b) + c == (a + d) + e
  {
    assert (a + b) + c == a + (b + c) && (a + d) + e == a + (d + e);
  }

  /** Serving one ring and then the others moves what is framed out of the queue. */
  lemma Moves<T>(all: multiset<T>, served: multiset<T>, ring: multiset<T>, rest: multiset<T>,
                 now: multiset<T>, frame: multiset<T>, frames: multiset<T>)
    requires served + ring == all + rest
    requires rest + frame == ring
    requires now + frames == served
    ensures now + (frame + frames) == all
  {
    forall x: T
      ensures (now + (frame + frames))[x] == all[x]
    {
      assert (served + ring)[x] == (all + rest)[x] && (rest + frame)[x] == ring[x] && (now + frames)[x] == served[x];
    }
  }

  lemma {:induction false} QueuedOfUpdate<X>(rings: seq<seq<Parcel<X>>>, k: nat, q: seq<Parcel<X>>)
    requires k < |rings|
    ensures Queued(rings[k := q]) + multiset(rings[k]) == Queued(rings) + multiset(q)
  {
    if k == 0 {
      assert rings[k := q][1..] == rings[1..];
    } else {
      assert rings[k := q][1..] == rings[1..][k - 1 := q];
      QueuedOfUpdate(rings[1..], k - 1, q);
      AddToBoth(multiset(rings[0]), Queued(rings[1..][k - 1 := q]), multiset(rings[k]), Queued(rings[1..]), multiset(q));
    }
  }

  /** Serving a ring moves its first datagram out of it if it is framed, and within it if not. */
  lemma ServingConserves<X>(q: seq<Parcel<X>>, k: nat, es: seq<ArpEntry>)
    requires q != [] && |q| <= CAPACITY
    ensures multiset(ServeRing(q, es)) + multiset(Framed([FrameFor(k, q[0], es)])) == multiset(q)
  {
    assert q == [q[0]] + q[1..];
    assert Framed([FrameFor(k, q[0], es)]) == if Resolved(q[0], es) then [q[0]] else [];
  }

  ghost predicate WithinCapacity<X>(rings: seq<seq<Parcel<X>>>) {
    forall k | 0 <= k < |rings| :: |rings[k]| <= CAPACITY
  }

  lemma ServingKeepsCapacity<X>(rings: seq<seq<Parcel<X>>>, es: seq<ArpEntry>, from: nat)
    requires WithinCapacity(rings) && from < |rings| && rings[from] != []
    ensures WithinCapacity(rings[from := ServeRing(rings[from], es)])
  {
  }

  lemma FramedOfCons<X>(f: Frame<X>, out: seq<Frame<X>>)
    ensures Framed([f] + out) == Framed([f]) + Framed(out)
  {
    assert ([f] + out)[1..] == out && [f][1..] == [];
    assert Framed([f]) == if f.UdpOut? then [f.p] else [];
  }

  lemma ServingOneConserves<X>(rings: seq<seq<Parcel<X>>>, es: seq<ArpEntry>, from: nat, rest: Swept<X>)
    requires from < |rings| && rings[from] != [] && |rings[from]| <= CAPACITY
    requires Queued(rest.rings) + multiset(Framed(rest.out)) == Queued(rings[from := ServeRing(rings[from], es)])
    ensures Queued(rest.rings) + multiset(Framed([FrameFor(from, rings[from][0], es)] + rest.out)) == Queued(rings)
  {
    var q := rings[from];
    var frame := FrameFor(from, q[0], es);
    QueuedOfUpdate(rings, from, ServeRing(q, es));
    ServingConserves(q, from, es);
    FramedOfCons(frame, rest.out);
    Moves(Queued(rings), Queued(rings[from := ServeRing(q, es)]), multiset(q), multiset(ServeRing(q, es)),
          Queued(rest.rings), multiset(Framed([frame])), multiset(Framed(rest.out)));
  }

  /** What the rings held before is what they hold after, and what was framed. */
  ghost predicate Balanced<X>(rings: seq<seq<Parcel<X>>>, r: Swept<X>) {
    Queued(r.rings) + multiset(Framed(r.out)) == Queued(rings)
  }

  lemma SweepBalancesStep<X>(rings: seq<seq<Parcel<X>>>, es: seq<ArpEntry>, from: nat)
    requires from < |rings| && rings[from] != [] && |rings[from]| <= CAPACITY
    requires var next := rings[from := ServeRing(rings[from], es)]; Balanced(next, SweepFrom(next, es, from + 1))
    ensures Balanced(rings, SweepFrom(rings, es, from))
  {
    ServingOneConserves(rings, es, from, SweepFrom(rings[from := ServeRing(rings[from], es)], es, from + 1));
  }

  lemma NothingServed<X>(rings: seq<seq<Parcel<X>>>, es: seq<ArpEntry>, from: nat)
    requires from <= |rings| && (from < |rings| ==> rings[from] == [])
    ensures Balanced(rings, SweepFrom(rings, es, from))
  {
    assert SweepFrom(rings, es, from).out == [];
  }

  /** A sweep takes out of the rings exactly what it frames. */
  lemma {:induction false} SweepConserves<X>(rings: seq<seq<Parcel<X>>>, es: seq<ArpEntry>, from: nat)
    requires from <= |rings| && WithinCapacity(rings)
    ensures Balanced(rings, SweepFrom(rings, es, from))
    decreases |rings| - from
  {
    if from < |rings| && rings[from] != [] {
      ServingKeepsCapacity(rings, es, from);
      SweepConserves(rings[from := ServeRing(rings[from], es)], es, from + 1);
      SweepBalancesStep(rings, es, from);
    } else {
      NothingServed(rings, es, from);
    }
  }

  // ----- Each step conserves -----

  /** A ring that changes by one datagram changes what is queued by that datagram. */
  lemma Moved<T>(more: multiset<T>, less: multiset<T>, longer: seq<T>, shorter: seq<T>, p: T)
    requires less + multiset(longer) == more + multiset(shorter)
    requires multiset(longer) == multiset(shorter) + multiset{p}
    ensures more == less + multiset{p}
  {
    forall x: T
      ensures more[x] == (less + multiset{p})[x]
    {
      assert (less + multiset(longer))[x] == (more + multiset(shorter))[x];
    }
  }

  lemma QueuedLosesFront(rings: seq<seq<Parcel<nat>>>, k: nat)
    requires k < |rings| && rings[k] != []
    ensures Queued(rings) == Queued(rings[k := rings[k][1..]]) + multiset{rings[k][0]}
  {
    QueuedOfUpdate(rings, k, rings[k][1..]);
    assert rings[k] == [rings[k][0]] + rings[k][1..];
    Moved(Queued(rings), Queued(rings[k := rings[k][1..]]), rings[k], rings[k][1..], rings[k][0]);
  }

  lemma QueuedGains(rings: seq<seq<Parcel<nat>>>, k: nat, p: Parcel<nat>)
    requires k < |rings|
    ensures Queued(rings[k := rings[k] + [p]]) == Queued(rings) + multiset{p}
  {
    QueuedOfUpdate(rings, k, rings[k] + [p]);
    Moved(Queued(rings[k := rings[k] + [p]]), Queued(rings), rings[k] + [p], rings[k], p);
  }

  lemma AcrossTheSum<T>(a: multiset<T>, b: multiset<T>, p: multiset<T>)
    ensures (a + p) + b == a + (b + p)
  {
  }

  lemma ServeConserves(s: State)
    requires Conserves(s) && Enabled(s, Serve)
    ensures Conserves(Apply(s, Serve))
  {
    var t := Apply(s, Serve);
    if t.sweep.At? {
      var p := s.rings[s.sweep.k][0];
      QueuedLosesFront(s.rings, s.sweep.k);
      assert Elsewhere(t) == Elsewhere(s) + multiset{p};
      AcrossTheSum(Queued(t.rings), Elsewhere(s), multiset{p});
    }
  }

  lemma PutBackConserves(s: State)
    requires Conserves(s) && Enabled(s, PutBack) && |s.held| == 1
    ensures Conserves(Apply(s, PutBack))
  {
    var t, k := Apply(s, PutBack), s.sweep.k;
    assert s.held == [s.held[0]];
    if |s.rings[k]| < CAPACITY {
      QueuedGains(s.rings, k, s.held[0]);
      assert Elsewhere(s) == Elsewhere(t) + multiset{s.held[0]};
      AcrossTheSum(Queued(s.rings), Elsewhere(t), multiset{s.held[0]});
    } else {
      assert Elsewhere(s) == Elsewhere(t);
    }
  }

  lemma SendConserves(s: State, k: nat, d: Datagram)
    requires Conserves(s) && Enabled(s, SendTo(k, d)) && |s.rings[k]| < CAPACITY
    ensures Conserves(Apply(s, SendTo(k, d)))
  {
    var t := Apply(s, SendTo(k, d));
    var p: Parcel<nat> := Parcel(|s.sent|, d);
    QueuedGains(s.rings, k, p);
    AcrossTheSum(Queued(s.rings), Elsewhere(s), multiset{p});
    assert AllSent(t.sent) == AllSent(s.sent) + [p];
  }

  lemma OwnRingParts(q: seq<Parcel<nat>>, fd: int, sent: seq<Sent>)
    requires OwnRing(q, fd, sent) && q != []
    ensures OwnRing(q[1..], fd, sent) && OwnRing([q[0]], fd, sent)
  {
  }

  lemma OneRingChanged(rings: seq<seq<Parcel<nat>>>, fds: seq<int>, sent: seq<Sent>, k: nat, q: seq<Parcel<nat>>)
    requires |rings| == |fds| && OwnRings(rings, fds, sent) && k < |rings| && OwnRing(q, fds[k], sent)
    ensures OwnRings(rings[k := q], fds, sent)
  {
  }

  lemma OwnRingAfterPutBack(q: seq<Parcel<nat>>, held: seq<Parcel<nat>>, fd: int, sent: seq<Sent>)
    requires OwnRing(q, fd, sent) && OwnRing(held, fd, sent) && |q| + |held| <= CAPACITY
    ensures OwnRing(q + held, fd, sent)
  {
  }

  lemma OwnRingAfterSend(q: seq<Parcel<nat>>, fd: int, sent: seq<Sent>, d: Datagram)
    requires OwnRing(q, fd, sent)
    ensures forall e :: OwnRing(q, fd, sent + [e])
    ensures |q| < CAPACITY ==> OwnRing(q + [Parcel(|sent|, d)], fd, sent + [Sent(fd, d)])
  {
  }

  lemma SendKeepsInv(s: State, k: nat, d: Datagram)
    requires Inv(s) && Enabled(s, SendTo(k, d))
    ensures Inv(Apply(s, SendTo(k, d)))
  {
    if |s.rings[k]| < CAPACITY {
      SendConserves(s, k, d);
      var t := Apply(s, SendTo(k, d));
      forall j | 0 <= j < |t.rings|
        ensures OwnRing(t.rings[j], t.fds[j], t.sent)
      {
        OwnRingAfterSend(s.rings[j], s.fds[j], s.sent, d);
      }
      if s.held != [] {
        OwnRingAfterSend(s.held, s.fds[s.sweep.k], s.sent, d);
      }
    }
  }

  lemma ServeKeepsInv(s: State)
    requires Inv(s) && Enabled(s, Serve)
    ensures Inv(Apply(s, Serve))
  {
    ServeConserves(s);
    var t := Apply(s, Serve);
    if t.sweep.At? {
      var k := s.sweep.k;
      OwnRingParts(s.rings[k], s.fds[k], s.sent);
      OneRingChanged(s.rings, s.fds, s.sent, k, s.rings[k][1..]);
    }
  }

  lemma PutBackKeepsInv(s: State)
    requires Inv(s) && Enabled(s, PutBack)
    ensures Inv(Apply(s, PutBack))
  {
    PutBackConserves(s);
    var k := s.sweep.k;
    if |s.rings[k]| < CAPACITY {
      OwnRingAfterPutBack(s.rings[k], s.held, s.fds[k], s.sent);
      OneRingChanged(s.rings, s.fds, s.sent, k, s.rings[k] + s.held);
    }
  }

  lemma OpenKeepsInv(s: State, fd: int)
    requires Inv(s) && Enabled(s, Open(fd))
    ensures Inv(Apply(s, Open(fd)))
  {
    var t := Apply(s, Open(fd));
    assert t.rings[1..] == s.rings;
    forall j | 0 <= j < |t.rings|
      ensures OwnRing(t.rings[j], t.fds[j], t.sent)
    {
      assert j > 0 ==> OwnRing(s.rings[j - 1], s.fds[j - 1], s.sent);
    }
  }

  lemma CloseKeepsInv(s: State)
    requires Inv(s) && Enabled(s, CloseFront)
    ensures Inv(Apply(s, CloseFront))
  {
    var t := Apply(s, CloseFront);
    assert Queued(s.rings) == multiset(s.rings[0]) + Queued(s.rings[1..]);
    forall j | 0 <= j < |t.rings|
      ensures OwnRing(t.rings[j], t.fds[j], t.sent)
    {
      assert OwnRing(s.rings[j + 1], s.fds[j + 1], s.sent);
    }
  }

  lemma StepKeepsInv(s: State, op: Op)
    requires Inv(s) && Enabled(s, op)
    ensures Inv(Apply(s, op))
  {
    match op
    case Open(fd) => OpenKeepsInv(s, fd);
    case SendTo(k, d) => SendKeepsInv(s, k, d);
    case CloseFront => CloseKeepsInv(s);
    case SetArp(_) =>
    case StartSweep =>
    case Serve => ServeKeepsInv(s);
    case PutBack => PutBackKeepsInv(s);
  }

  // ----- Runs -----

  const EMPTY := State([], [], [], Idle, [], [], [], [], [])

  ghost predicate Runs(s: State, ops: seq<Op>)
    decreases |ops|
  {
    ops == [] || (Enabled(s, ops[0]) && Runs(Apply(s, ops[0]), ops[1..]))
  }

  ghost function Run(s: State, ops: seq<Op>): State
    requires Runs(s, ops)
    decreases |ops|
  {
    if ops == [] then s else Run(Apply(s, ops[0]), ops[1..])
  }

  lemma {:induction false} EveryRunConserves(s: State, ops: seq<Op>)
    requires Inv(s) && Runs(s, ops)
    ensures Inv(Run(s, ops))
    decreases |ops|
  {
    if ops != [] {
      StepKeepsInv(s, ops[0]);
      EveryRunConserves(Apply(s, ops[0]), ops[1..]);
    }
  }

  lemma Prepend(s: State, op: Op, rest: seq<Op>)
    requires Enabled(s, op) && Runs(Apply(s, op), rest)
    ensures Runs(s, [op] + rest) && Run(s, [op] + rest) == Run(Apply(s, op), rest)
  {
    assert ([op] + rest)[1..] == rest;
  }

  // ----- What that says of one datagram -----

  lemma {:induction false} UniqueIsOnce(sent: seq<Sent>, id: nat)
    requires id < |sent|
    ensures multiset(AllSent(sent))[Parcel(id, sent[id].d)] == 1
  {
    var ps, p := AllSent(sent), Parcel(id, sent[id].d);
    assert ps == ps[..id] + [p] + ps[id + 1..];
    assert p !in ps[..id] && p !in ps[id + 1..];
  }

  lemma {:induction false} QueuedInOwnRing(s: State, k: nat, p: Parcel<nat>)
    requires Inv(s) && k < |s.rings| && p in Queued(s.rings[k..])
    ensures exists j :: k <= j < |s.rings| && p in s.rings[j]
    decreases |s.rings| - k
  {
    if p !in s.rings[k] {
      assert s.rings[k..][1..] == s.rings[k + 1..];
      assert k + 1 < |s.rings|;
      QueuedInOwnRing(s, k + 1, p);
    }
  }

  /** In every reachable state an accepted datagram is, exactly once, in one of five places: queued in the
      send ring of the connection it was sent on, in the hand of a sweep that is about to put it back there,
      framed, dropped with its closed socket, or lost. */
  lemma EachDatagramExactlyOnce(ops: seq<Op>, id: nat)
    requires Runs(EMPTY, ops)
    requires id < |Run(EMPTY, ops).sent|
    ensures var s := Run(EMPTY, ops);
            var p := Parcel(id, s.sent[id].d);
            && Queued(s.rings)[p] + multiset(s.held)[p] + multiset(s.framed)[p] + multiset(s.dropped)[p] +
               multiset(s.lost)[p] == 1
            && (p in Queued(s.rings) ==>
                  exists k :: 0 <= k < |s.rings| && k < |s.fds| && p in s.rings[k] && s.fds[k] == s.sent[id].fd)
            && (p in s.held ==> s.sweep.At? && s.sweep.k < |s.fds| && s.fds[s.sweep.k] == s.sent[id].fd)
  {
    assert Inv(EMPTY) by {
      assert AllSent([]) == [];
    }
    EveryRunConserves(EMPTY, ops);
    var s := Run(EMPTY, ops);
    var p := Parcel(id, s.sent[id].d);
    UniqueIsOnce(s.sent, id);
    if p in Queued(s.rings) {
      assert s.rings[0..] == s.rings;
      QueuedInOwnRing(s, 0, p);
      var k :| 0 <= k < |s.rings| && p in s.rings[k];
      assert OwnRing(s.rings[k], s.fds[k], s.sent);
    }
  }

  // ----- What each step does -----

  /** A send goes to the tail of one ring, and is accepted under that ring's descriptor exactly when there is
      room. */
  lemma SendIsEnqueue(s: State, k: nat, d: Datagram)
    requires Enabled(s, SendTo(k, d))
    ensures var t := Apply(s, SendTo(k, d));
            && t.rings == s.rings[k := Enqueue(s.rings[k], Parcel(|s.sent|, d))]
            && t.sent == (if |s.rings[k]| < CAPACITY then s.sent + [Sent(s.fds[k], d)] else s.sent)
            && t == s.(rings := t.rings, sent := t.sent)
  {
  }

  /** A new connection comes in front with an empty ring, and a sweep under way stays where it was; a
      close of the front one takes its datagrams with it; the ARP table is what the packet thread sets. */
  lemma ListAndTableSteps(s: State, op: Op)
    requires Enabled(s, op)
    ensures var t := Apply(s, op);
            && (op.Open? ==> t.fds == [op.fd] + s.fds && t.rings == [[]] + s.rings && t.arp == s.arp && t.held == s.held)
            && (op.Open? && s.sweep.At? && s.sweep.k < |s.rings| ==> t.sweep.At? && t.rings[t.sweep.k] == s.rings[s.sweep.k])
            && (op.CloseFront? ==>
                  s.fds == [s.fds[0]] + t.fds && s.rings == [s.rings[0]] + t.rings && t.dropped == s.dropped + s.rings[0])
            && (op.SetArp? ==> t == s.(arp := op.es))
            && (!op.SetArp? ==> t.arp == s.arp)
            && (op == StartSweep ==> t == s.(sweep := At(0)))
  {
  }

  /** A step of a sweep looks at the ring at its position: an empty one ends the sweep; else the front
      datagram is taken out, and framed if its destination is known. What is not goes back to the tail of
      the same ring, and the sweep goes on with the next. */
  lemma SweepStep(s: State, k: nat)
    requires s.sweep == At(k) && k < |s.rings|
    ensures s.held == [] && s.rings[k] == [] ==> Apply(s, Serve) == s.(sweep := Idle)
    ensures s.held == [] && s.rings[k] != [] ==>
              var t := Apply(s, Serve);
              && t.rings == s.rings[k := s.rings[k][1..]]
              && if Lookup(s.arp, s.rings[k][0].d.dstIp) != None
                 then t.framed == s.framed + [s.rings[k][0]] && t.sweep == At(k + 1) && t.held == []
                 else t.framed == s.framed && t.sweep == At(k) && t.held == [s.rings[k][0]]
    ensures |s.held| == 1 ==>
              var t := Apply(s, PutBack);
              && t.rings == s.rings[k := Enqueue(s.rings[k], s.held[0])] && t.sweep == At(k + 1) && t.held == []
              && t.lost == s.lost + if |s.rings[k]| < CAPACITY then [] else s.held
  {
    if |s.held| == 1 {
      assert s.held == [s.held[0]];
    }
  }

  // ----- What is lost -----

  /** How many sends of the run are on the connection at list position k. */
  function SendsTo(ops: seq<Op>, k: nat): nat {
    if ops == [] then 0 else (if ops[0].SendTo? && ops[0].k == k then 1 else 0) + SendsTo(ops[1..], k)
  }

  /** Some requeue of the run met a full ring. */
  ghost predicate Overflows(s: State, ops: seq<Op>)
    requires Runs(s, ops)
    decreases |ops|
  {
    ops != [] &&
    ((ops[0] == PutBack && |s.rings[s.sweep.k]| >= CAPACITY) || Overflows(Apply(s, ops[0]), ops[1..]))
  }

  lemma LossOfStep(s: State, op: Op)
    requires Enabled(s, op)
    ensures s.lost <= Apply(s, op).lost
    ensures Apply(s, op).lost == s.lost <==> !(op == PutBack && |s.rings[s.sweep.k]| >= CAPACITY)
  {
  }

  /** A run loses nothing if and only if no requeue met a full ring. */
  lemma {:induction false} NothingLostIff(s: State, ops: seq<Op>)
    requires Runs(s, ops)
    ensures s.lost <= Run(s, ops).lost
    ensures Run(s, ops).lost == s.lost <==> !Overflows(s, ops)
    decreases |ops|
  {
    if ops != [] {
      LossOfStep(s, ops[0]);
      NothingLostIff(Apply(s, ops[0]), ops[1..]);
    }
  }

  lemma {:induction false} SendsThenPutBack(s: State, ops: seq<Op>)
    requires s.sweep.At? && s.sweep.k < |s.rings| && |s.rings[s.sweep.k]| <= CAPACITY && s.held != []
    requires Runs(s, ops) && forall op | op in ops :: op.SendTo?
    ensures Runs(s, ops + [PutBack])
    ensures Run(s, ops + [PutBack]).lost ==
            s.lost + if |s.rings[s.sweep.k]| + SendsTo(ops, s.sweep.k) >= CAPACITY then s.held else []
    decreases |ops|
  {
    if ops == [] {
      assert ops + [PutBack] == [PutBack] + [];
      Prepend(s, PutBack, []);
    } else {
      assert ops[0] in ops;
      SendsThenPutBack(Apply(s, ops[0]), ops[1..]);
      Prepend(s, ops[0], ops[1..] + [PutBack]);
      assert [ops[0]] + (ops[1..] + [PutBack]) == ops + [PutBack];
    }
  }

  /** A parked datagram is lost if and only if the sends on its socket between dequeue and requeue fill the
      ring. */
  lemma ParkingLosesIff(s: State, ops: seq<Op>)
    requires Enabled(s, Serve) && s.sweep.k < |s.rings| && 0 < |s.rings[s.sweep.k]| <= CAPACITY
    requires !Resolved(s.rings[s.sweep.k][0], s.arp)
    requires Runs(Apply(s, Serve), ops) && forall op | op in ops :: op.SendTo?
    ensures var all := [Serve] + (ops + [PutBack]);
            && Runs(s, all)
            && Run(s, all).lost ==
               s.lost + if |s.rings[s.sweep.k]| - 1 + SendsTo(ops, s.sweep.k) >= CAPACITY then [s.rings[s.sweep.k][0]]
                        else []
  {
    SendsThenPutBack(Apply(s, Serve), ops);
    Prepend(s, Serve, ops + [PutBack]);
  }

  lemma {:induction false} ManySends(s: State, d: Datagram, n: nat)
    requires |s.rings| == |s.fds| == 1
    ensures var ops := seq(n, _ => SendTo(0, d)); Runs(s, ops) && SendsTo(ops, 0) == n
    decreases n
  {
    if n > 0 {
      ManySends(Apply(s, SendTo(0, d)), d, n - 1);
      assert seq(n, _ => SendTo(0, d)) == [SendTo(0, d)] + seq(n - 1, _ => SendTo(0, d));
      Prepend(s, SendTo(0, d), seq(n - 1, _ => SendTo(0, d)));
      assert seq(n, _ => SendTo(0, d))[1..] == seq(n - 1, _ => SendTo(0, d));
    }
  }

  /** It does happen: one datagram waits for its destination, and as many sends as the ring holds fall
      between its dequeue and its requeue. */
  lemma SomeRunLoses(d: Datagram) returns (ops: seq<Op>)
    ensures Runs(EMPTY, ops) && Run(EMPTY, ops).lost == [Parcel(0, d)]
  {
    var a := Apply(EMPTY, Open(3));
    var b := Apply(a, SendTo(0, d));
    var c := Apply(b, StartSweep);
    var p: Parcel<nat> := Parcel(0, d);
    assert a.rings == [[]] && a.rings[0] + [p] == [p] && a.sent == [];
    assert b.rings == [[p]] == c.rings;
    var sends := seq(CAPACITY, _ => SendTo(0, d));
    ManySends(Apply(c, Serve), d, CAPACITY);
    ParkingLosesIff(c, sends);
    ops := [Serve] + (sends + [PutBack]);
    Prepend(b, StartSweep, ops);
    ops := [StartSweep] + ops;
    Prepend(a, SendTo(0, d), ops);
    ops := [SendTo(0, d)] + ops;
    Prepend(EMPTY, Open(3), ops);
    ops := [Open(3)] + ops;
  }

  // ----- Sweeps nothing falls into -----

  /** The steps of a sweep from list position k on. */
  function SweepSteps(rings: seq<seq<Parcel<nat>>>, es: seq<ArpEntry>, k: nat): seq<Op>
    requires k <= |rings|
    decreases |rings| - k
  {
    if k == |rings| || rings[k] == [] then [Serve]
    else
      (if Resolved(rings[k][0], es) then [Serve] else [Serve, PutBack]) +
      SweepSteps(rings[k := ServeRing(rings[k], es)], es, k + 1)
  }

  /** The state after the ring at position k has been served. */
  function AfterServing(s: State, k: nat): State
    requires k < |s.rings| && s.rings[k] != []
  {
    s.(rings := s.rings[k := ServeRing(s.rings[k], s.arp)], sweep := At(k + 1),
       framed := s.framed + Framed([FrameFor(k, s.rings[k][0], s.arp)]))
  }

  lemma FrameAtOnce(s: State, k: nat)
    requires s.sweep == At(k) && s.held == [] && k < |s.rings| && s.rings[k] != [] && Resolved(s.rings[k][0], s.arp)
    ensures Runs(s, [Serve]) && Run(s, [Serve]) == AfterServing(s, k)
  {
    Prepend(s, Serve, []);
    assert Framed([FrameFor(k, s.rings[k][0], s.arp)]) == [s.rings[k][0]];
  }

  lemma ParkAtOnce(s: State, k: nat)
    requires s.sweep == At(k) && s.held == [] && k < |s.rings| && 0 < |s.rings[k]| <= CAPACITY
    requires !Resolved(s.rings[k][0], s.arp)
    ensures Runs(s, [Serve, PutBack]) && Run(s, [Serve, PutBack]) == AfterServing(s, k)
  {
    var p, t := s.rings[k][0], Apply(s, Serve);
    assert t.rings[k] == s.rings[k][1..];
    Prepend(t, PutBack, []);
    Prepend(s, Serve, [PutBack]);
    assert Framed([FrameFor(k, p, s.arp)]) == [] && s.framed + [] == s.framed;
    assert t.rings[k := t.rings[k] + [p]] == s.rings[k := ServeRing(s.rings[k], s.arp)];
  }

  lemma ServeAtOnce(s: State, k: nat)
    requires s.sweep == At(k) && s.held == [] && k < |s.rings| && 0 < |s.rings[k]| <= CAPACITY
    ensures var ops := if Resolved(s.rings[k][0], s.arp) then [Serve] else [Serve, PutBack];
            Runs(s, ops) && Run(s, ops) == AfterServing(s, k)
  {
    if Resolved(s.rings[k][0], s.arp) {
      FrameAtOnce(s, k);
    } else {
      ParkAtOnce(s, k);
    }
  }

  lemma {:induction false} RunConcat(s: State, a: seq<Op>, b: seq<Op>)
    requires Runs(s, a) && Runs(Run(s, a), b)
    ensures Runs(s, a + b) && Run(s, a + b) == Run(Run(s, a), b)
    decreases |a|
  {
    if a == [] {
      assert a + b == b;
    } else {
      var t := Apply(s, a[0]);
      assert a == [a[0]] + a[1..];
      RunConcat(t, a[1..], b);
      Prepend(s, a[0], a[1..] + b);
      assert [a[0]] + (a[1..] + b) == a + b;
    }
  }

  lemma FramedGrows<X>(framed: seq<Parcel<X>>, f: Frame<X>, out: seq<Frame<X>>)
    ensures framed + Framed([f]) + Framed(out) == framed + Framed([f] + out)
  {
    FramedOfCons(f, out);
  }

  /** With no other step in between, the steps of a sweep are the sweep of module OutSweep: it frames what
      that frames, parks the rest and loses nothing. */
  lemma {:induction false} StepsAreSweep(s: State, k: nat)
    requires s.sweep == At(k) && s.held == [] && k <= |s.rings| && WithinCapacity(s.rings)
    ensures var ops, r := SweepSteps(s.rings, s.arp, k), SweepFrom(s.rings, s.arp, k);
            && Runs(s, ops)
            && Run(s, ops) == s.(rings := r.rings, sweep := Idle, framed := s.framed + Framed(r.out))
    decreases |s.rings| - k
  {
    if k == |s.rings| || s.rings[k] == [] {
      Prepend(s, Serve, []);
      assert s.framed + Framed<nat>([]) == s.framed;
    } else {
      var p := s.rings[k][0];
      var ops := if Resolved(p, s.arp) then [Serve] else [Serve, PutBack];
      ServeAtOnce(s, k);
      var t := Run(s, ops);
      ServingKeepsCapacity(s.rings, s.arp, k);
      StepsAreSweep(t, k + 1);
      RunConcat(s, ops, SweepSteps(t.rings, s.arp, k + 1));
      FramedGrows(s.framed, FrameFor(k, p, s.arp), SweepFrom(t.rings, s.arp, k + 1).out);
    }
  }

  /** From its start, the whole of it. */
  lemma SweepFromStart(s: State)
    requires s.sweep == Idle && s.held == [] && WithinCapacity(s.rings)
    ensures var ops, r := [StartSweep] + SweepSteps(s.rings, s.arp, 0), Sweep(s.rings, s.arp);
            && Runs(s, ops)
            && Run(s, ops) == s.(rings := r.rings, framed := s.framed + Framed(r.out))
  {
    var t := Apply(s, StartSweep);
    StepsAreSweep(t, 0);
    Prepend(s, StartSweep, SweepSteps(s.rings, s.arp, 0));
  }

  // ----- Sweeps behind an empty ring -----

  /** Opening a socket stops all output: until something is sent on the new socket, no number of
      sweeps frames a datagram of any other, whatever the ARP table says. */
  lemma OpeningStallsTheOthers(s: State, fd: int, k: nat, n: nat)
    requires Enabled(s, Open(fd)) && k < |s.rings|
    ensures var s' := Apply(s, Open(fd));
            var r := Sweeps(s'.rings, s'.arp, n);
            r.rings[k + 1] == s.rings[k] && OfSocket(r.out, k + 1) == []
  {
    EmptyRingStalls(Apply(s, Open(fd)).rings, s.arp, 0, k + 1, n);
  }
}
