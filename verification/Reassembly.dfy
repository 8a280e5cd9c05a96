/** Whole runs of one receive ring: datagrams arrive, calls take chunks, and the remainder of a
    short read goes back to the tail. A call's dequeue and its requeue are two steps, as in
    `hz_receive_from`, which has given the lock back in between. */
module Reassembly {
  import opened Bytes
  import opened UdpInfo
  import opened Rings
  import opened ReceiveQueue

  /** A queued datagram, or what is left of one. The identity, its position among the accepted
      datagrams, belongs to the model; no step looks at it. */
  datatype Item = Item(id: nat, d: Datagram)

  datatype Delivery = Delivery(id: nat, chunk: Chunk)

  datatype State = State(
    ring: seq<Item>,
    held: seq<Item>,          // the remainder a call has not requeued yet, if any
    lost: seq<Item>,          // remainders a full ring refused
    log: seq<Delivery>,       // all chunks handed out, in order
    accepted: seq<Datagram>)  // all datagrams the ring accepted, in order

  datatype Op =
    | Arrive(d: Datagram)
    | Take(len: nat)
    | PutBack

  predicate Enabled(s: State, op: Op) {
    match op
    case Arrive(_) => true
    case Take(_) => s.ring != [] && s.held == []
    case PutBack => s.held != []
  }

  function Apply(s: State, op: Op): State
    requires Enabled(s, op)
  {
    match op
    case Arrive(d) =>
      if |s.ring| < CAPACITY
      then s.(ring := s.ring + [Item(|s.accepted|, d)], accepted := s.accepted + [d])
      else s
    case Take(len) =>
      var x := s.ring[0];
      s.(ring := s.ring[1..], log := s.log + [Delivery(x.id, Taken(x.d, len))], held := LeftOver(x, len))
    case PutBack =>
      if |s.ring| < CAPACITY
      then s.(ring := s.ring + s.held, held := [])
      else s.(lost := s.lost + s.held, held := [])
  }

  function LeftOver(x: Item, len: nat): seq<Item> {
    if len < |x.d.data| then [Item(x.id, Remainder(x.d, len))] else []
  }

  /** The bytes delivered so far of one datagram, in order. */
  function Delivered(log: seq<Delivery>, id: nat): seq<byte> {
    if log == [] then []
    else
      var last := log[|log| - 1];
      Delivered(log[..|log| - 1], id) + if last.id == id then last.chunk.bytes else []
  }

  lemma DeliveredOfAppend(log: seq<Delivery>, e: Delivery, id: nat)
    ensures Delivered(log + [e], id) == Delivered(log, id) + if e.id == id then e.chunk.bytes else []
  {
    assert (log + [e])[..|log|] == log;
  }

  /** Everything of accepted datagrams that has not been delivered. */
  function Pending(s: State): multiset<Item> {
    multiset(s.lost) + multiset(s.held) + multiset(s.ring)
  }

  /** An item still says whose it is, and completes what has been delivered of it. */
  predicate Completes(x: Item, log: seq<Delivery>, accepted: seq<Datagram>) {
    && x.id < |accepted|
    && x.d == accepted[x.id].(data := x.d.data)
    && Delivered(log, x.id) + x.d.data == accepted[x.id].data
  }

  predicate FromSender(e: Delivery, accepted: seq<Datagram>) {
    e.id < |accepted| && e.chunk.srcIp == accepted[e.id].srcIp && e.chunk.srcPort == accepted[e.id].srcPort
  }

  predicate HasDelivery(log: seq<Delivery>, id: nat) {
    exists n | 0 <= n < |log| :: log[n].id == id
  }

  /** An accepted datagram of which nothing is pending has been delivered whole, in at least one
      chunk. */
  ghost predicate DoneOrPending(id: nat, p: multiset<Item>, log: seq<Delivery>, accepted: seq<Datagram>)
    requires id < |accepted|
  {
    (exists x :: x in p && x.id == id) || (HasDelivery(log, id) && Delivered(log, id) == accepted[id].data)
  }

  /** Reassembly: of every accepted datagram the delivered bytes, followed by the one item of it
      that is pending, if any, are the original bytes; every chunk names the sender. */
  ghost predicate Reassembles(p: multiset<Item>, log: seq<Delivery>, accepted: seq<Datagram>) {
    && (forall x | x in p :: p[x] == 1 && Completes(x, log, accepted))
    && (forall x, y | x in p && y in p && x.id == y.id :: x == y)
    && (forall n | 0 <= n < |log| :: FromSender(log[n], accepted))
    && (forall id: nat | id < |accepted| :: DoneOrPending(id, p, log, accepted))
  }

  ghost predicate Inv(s: State) {
    && |s.ring| <= CAPACITY && |s.held| <= 1
    && Reassembles(Pending(s), s.log, s.accepted)
    && (forall x | x in s.held || x in s.lost :: x.d.data != [])
  }

  lemma AcceptOne(p: multiset<Item>, log: seq<Delivery>, accepted: seq<Datagram>, d: Datagram)
    requires Reassembles(p, log, accepted)
    ensures Reassembles(p + multiset{Item(|accepted|, d)}, log, accepted + [d])
  {
    var x := Item(|accepted|, d);
    var p', accepted' := p + multiset{x}, accepted + [d];
    assert x !in p by {
      assert x in p ==> Completes(x, log, accepted);
    }
    forall y | y in p'
      ensures p'[y] == 1 && Completes(y, log, accepted')
    {
      NothingYet(log, accepted, |accepted|);
      assert y != x ==> y in p;
    }
    forall id: nat | id < |accepted'|
      ensures DoneOrPending(id, p', log, accepted')
    {
      DoneAfterAccept(p, log, accepted, d, id);
    }
  }

  lemma DoneAfterAccept(p: multiset<Item>, log: seq<Delivery>, accepted: seq<Datagram>, d: Datagram, id: nat)
    requires id <= |accepted|
    requires id < |accepted| ==> DoneOrPending(id, p, log, accepted)
    ensures DoneOrPending(id, p + multiset{Item(|accepted|, d)}, log, accepted + [d])
  {
    var p' := p + multiset{Item(|accepted|, d)};
    if id == |accepted| {
      assert Item(|accepted|, d) in p';
    } else if x :| x in p && x.id == id {
      assert x in p';
    }
  }

  lemma {:induction false} NothingYet(log: seq<Delivery>, accepted: seq<Datagram>, id: nat)
    requires forall n | 0 <= n < |log| :: FromSender(log[n], accepted)
    requires id >= |accepted|
    ensures Delivered(log, id) == []
  {
    if log != [] {
      NothingYet(log[..|log| - 1], accepted, id);
    }
  }

  /** Handing out a chunk e of item x, which leaves `rest` of it pending. */
  lemma TakeOne(others: multiset<Item>, x: Item, log: seq<Delivery>, accepted: seq<Datagram>, e: Delivery, rest: seq<Item>)
    requires Reassembles(others + multiset{x}, log, accepted)
    requires e.id == x.id && FromSender(e, accepted)
    requires if rest == [] then Delivered(log + [e], x.id) == accepted[x.id].data
             else |rest| == 1 && rest[0].id == x.id && Completes(rest[0], log + [e], accepted)
    ensures Reassembles(others + multiset(rest), log + [e], accepted)
  {
    OthersUntouched(others, x, log, accepted, e);
    RestJoins(others, x.id, log + [e], accepted, rest);
    forall id: nat | id < |accepted|
      ensures DoneOrPending(id, others + multiset(rest), log + [e], accepted)
    {
      DoneAfterTake(others, x, log, accepted, e, rest, id);
    }
  }

  lemma RestJoins(others: multiset<Item>, id: nat, log: seq<Delivery>, accepted: seq<Datagram>, rest: seq<Item>)
    requires forall y | y in others :: y.id != id && others[y] == 1 && Completes(y, log, accepted)
    requires forall y, z | y in others && z in others && y.id == z.id :: y == z
    requires rest != [] ==> |rest| == 1 && rest[0].id == id && Completes(rest[0], log, accepted)
    ensures var p := others + multiset(rest);
            && (forall y | y in p :: p[y] == 1 && Completes(y, log, accepted))
            && (forall y, z | y in p && z in p && y.id == z.id :: y == z)
  {
    if rest == [] {
      assert others + multiset(rest) == others;
    } else {
      assert rest == [rest[0]];
      assert rest[0] !in others;
    }
  }

  lemma DoneAfterTake(others: multiset<Item>, x: Item, log: seq<Delivery>, accepted: seq<Datagram>, e: Delivery,
                      rest: seq<Item>, id: nat)
    requires id < |accepted| && e.id == x.id
    requires DoneOrPending(id, others + multiset{x}, log, accepted)
    requires id == x.id ==> Delivered(log + [e], id) == accepted[id].data || (rest != [] && rest[0].id == id)
    ensures DoneOrPending(id, others + multiset(rest), log + [e], accepted)
  {
    DeliveredOfAppend(log, e, id);
    assert HasDelivery(log, id) || id == x.id ==> HasDelivery(log + [e], id) by {
      assert (log + [e])[|log|] == e && forall n | 0 <= n < |log| :: (log + [e])[n] == log[n];
    }
    if id == x.id {
      assert rest != [] ==> rest[0] in others + multiset(rest);
    } else if y :| y in others + multiset{x} && y.id == id {
      assert y in others + multiset(rest);
    }
  }

  lemma OthersUntouched(others: multiset<Item>, x: Item, log: seq<Delivery>, accepted: seq<Datagram>, e: Delivery)
    requires Reassembles(others + multiset{x}, log, accepted) && e.id == x.id
    ensures forall y | y in others :: y.id != x.id && others[y] == 1 && Completes(y, log + [e], accepted)
    ensures forall y, z | y in others && z in others && y.id == z.id :: y == z
  {
    var p := others + multiset{x};
    assert x in p && p[x] == 1;
    forall y | y in others
      ensures y.id != x.id && others[y] == 1 && Completes(y, log + [e], accepted)
    {
      assert y in p;
      assert p[y] == others[y] + if y == x then 1 else 0;
      DeliveredOfAppend(log, e, y.id);
    }
  }

  lemma SplitAgain(done: seq<byte>, bytes: seq<byte>, len: nat)
    requires len <= |bytes|
    ensures (done + bytes[..len]) + bytes[len..] == done + bytes
  {
  }

  lemma LeftOverCompletes(x: Item, log: seq<Delivery>, accepted: seq<Datagram>, len: nat)
    requires Completes(x, log, accepted)
    ensures var e, rest := Delivery(x.id, Taken(x.d, len)), LeftOver(x, len);
            && FromSender(e, accepted)
            && (rest != [] ==> Completes(rest[0], log + [e], accepted) && rest[0].d.data != [])
            && (rest == [] ==> Delivered(log + [e], x.id) == accepted[x.id].data)
  {
    DeliveredOfAppend(log, Delivery(x.id, Taken(x.d, len)), x.id);
    if len < |x.d.data| {
      SplitAgain(Delivered(log, x.id), x.d.data, len);
    }
  }

  lemma ArriveKeepsInv(s: State, d: Datagram)
    requires Inv(s)
    ensures Inv(Apply(s, Arrive(d)))
  {
    if |s.ring| < CAPACITY {
      AcceptOne(Pending(s), s.log, s.accepted, d);
      assert Pending(Apply(s, Arrive(d))) == Pending(s) + multiset{Item(|s.accepted|, d)};
    }
  }

  lemma PendingOfTake(s: State, len: nat) returns (others: multiset<Item>)
    requires Enabled(s, Take(len))
    ensures Pending(s) == others + multiset{s.ring[0]}
    ensures Pending(Apply(s, Take(len))) == others + multiset(LeftOver(s.ring[0], len))
  {
    others := multiset(s.lost) + multiset(s.ring[1..]);
    assert s.ring == [s.ring[0]] + s.ring[1..];
  }

  lemma TakeKeepsInv(s: State, len: nat)
    requires Inv(s) && Enabled(s, Take(len))
    ensures Inv(Apply(s, Take(len)))
  {
    var x := s.ring[0];
    var others := PendingOfTake(s, len);
    assert x in Pending(s);
    LeftOverCompletes(x, s.log, s.accepted, len);
    TakeOne(others, x, s.log, s.accepted, Delivery(x.id, Taken(x.d, len)), LeftOver(x, len));
  }

  lemma PutBackKeepsInv(s: State)
    requires Inv(s) && Enabled(s, PutBack)
    ensures Inv(Apply(s, PutBack))
  {
    assert Pending(Apply(s, PutBack)) == Pending(s);
  }

  lemma StepKeepsInv(s: State, op: Op)
    requires Inv(s) && Enabled(s, op)
    ensures Inv(Apply(s, op))
  {
    match op
    case Arrive(d) => ArriveKeepsInv(s, d);
    case Take(len) => TakeKeepsInv(s, len);
    case PutBack => PutBackKeepsInv(s);
  }

  // ----- Runs -----

  ghost predicate Runs(s: State, ops: seq<Op>)
    decreases |ops|
  {
    ops == [] || (Enabled(s, ops[0]) && Runs(Apply(s, ops[0]), ops[1..]))
  }

  ghost function Run(s: State, ops: seq<Op>): State
    requires Runs(s, ops)
    decreases |ops|
  {
    if ops == [] then s else Run(Apply(s, ops[0]), ops[1..])
  }

  const EMPTY := State([], [], [], [], [])

  /** Whatever arrivals and calls come, in whatever order and with whatever lengths, every
      reachable state reassembles. */
  lemma {:induction false} EveryRunReassembles(s: State, ops: seq<Op>)
    requires Inv(s) && Runs(s, ops)
    ensures Inv(Run(s, ops))
    decreases |ops|
  {
    if ops != [] {
      StepKeepsInv(s, ops[0]);
      EveryRunReassembles(Apply(s, ops[0]), ops[1..]);
    }
  }

  /** Some requeue of the run met a full ring. */
  ghost predicate Overflows(s: State, ops: seq<Op>)
    requires Runs(s, ops)
    decreases |ops|
  {
    ops != [] &&
    ((ops[0] == PutBack && |s.ring| >= CAPACITY) || Overflows(Apply(s, ops[0]), ops[1..]))
  }

  lemma LossOfStep(s: State, op: Op)
    requires Enabled(s, op)
    ensures s.lost <= Apply(s, op).lost
    ensures Apply(s, op).lost == s.lost <==> !(op == PutBack && |s.ring| >= CAPACITY)
  {
  }

  /** A run loses nothing if and only if no requeue met a full ring. */
  lemma {:induction false} NothingLostIff(s: State, ops: seq<Op>)
    requires Runs(s, ops)
    ensures s.lost <= Run(s, ops).lost
    ensures Run(s, ops).lost == s.lost <==> !Overflows(s, ops)
    decreases |ops|
  {
    if ops != [] {
      LossOfStep(s, ops[0]);
      NothingLostIff(Apply(s, ops[0]), ops[1..]);
    }
  }

  /** The steps of one call with room for len, the datagrams ds arriving between its dequeue
      and its requeue. */
  function CallWith(len: nat, ds: seq<Datagram>): seq<Op> {
    [Take(len)] + Arrivals(ds) + [PutBack]
  }

  function Arrivals(ds: seq<Datagram>): seq<Op> {
    if ds == [] then [] else [Arrive(ds[0])] + Arrivals(ds[1..])
  }

  /** The remainder of a short read is lost if and only if the datagrams that arrive in between fill
      the ring: it had one slot free after the dequeue, and as many more as it lacked before. */
  lemma CallLosesIff(s: State, len: nat, ds: seq<Datagram>)
    requires |s.ring| <= CAPACITY && s.held == []
    requires s.ring != [] && len < |s.ring[0].d.data|
    ensures Runs(s, CallWith(len, ds))
    ensures Run(s, CallWith(len, ds)).lost ==
            s.lost + if |s.ring| - 1 + |ds| >= CAPACITY then LeftOver(s.ring[0], len) else []
  {
    var t := Apply(s, Take(len));
    ArrivalsThenPutBack(t, ds);
    assert CallWith(len, ds)[1..] == Arrivals(ds) + [PutBack];
  }

  lemma {:induction false} ArrivalsThenPutBack(s: State, ds: seq<Datagram>)
    requires |s.ring| <= CAPACITY && s.held != []
    ensures var ops := Arrivals(ds) + [PutBack];
            && Runs(s, ops)
            && Run(s, ops).lost == s.lost + if |s.ring| + |ds| >= CAPACITY then s.held else []
    decreases |ds|
  {
    var ops := Arrivals(ds) + [PutBack];
    if ds == [] {
      assert ops == [PutBack] && ops[1..] == [];
      assert Run(s, ops) == Run(Apply(s, PutBack), []);
    } else {
      assert ops[0] == Arrive(ds[0]) && ops[1..] == Arrivals(ds[1..]) + [PutBack];
      ArrivalsThenPutBack(Apply(s, Arrive(ds[0])), ds[1..]);
    }
  }

  /** It does happen: a datagram of two bytes, a call that takes one of them, and as many datagrams
      in between as the ring holds. The second byte is never delivered. */
  lemma SomeRunLoses(d: Datagram, other: Datagram)
    requires |d.data| == 2
    ensures var ops := [Arrive(d)] + CallWith(1, seq(CAPACITY, _ => other));
            && Runs(EMPTY, ops)
            && Run(EMPTY, ops).lost == [Item(0, Remainder(d, 1))]
  {
    var ds := seq(CAPACITY, _ => other);
    var ops := [Arrive(d)] + CallWith(1, ds);
    var s := Apply(EMPTY, Arrive(d));
    assert s.ring == [Item(0, d)];
    CallLosesIff(s, 1, ds);
    assert ops[0] == Arrive(d) && ops[1..] == CallWith(1, ds);
    assert Run(EMPTY, ops) == Run(s, CallWith(1, ds));
  }

  /** A datagram whose remainder was lost stays short for ever: its delivered bytes are a proper
      prefix of it. */
  lemma LostMeansTruncated(s: State, k: nat)
    requires Inv(s) && k < |s.lost|
    ensures var x := s.lost[k];
            x.id < |s.accepted| && Delivered(s.log, x.id) < s.accepted[x.id].data
  {
    var x := s.lost[k];
    assert x in Pending(s);
  }

  // ----- Calls as atomic steps -----

  /** Arrivals and calls where no arrival falls between a call's dequeue and its requeue. */
  datatype Event = Arrival(d: Datagram) | Call(len: nat)

  function Occur(s: State, e: Event): State
    requires s.held == [] && (e.Call? ==> s.ring != [])
  {
    match e
    case Arrival(d) => Apply(s, Arrive(d))
    case Call(len) =>
      var t := Apply(s, Take(len));
      if t.held == [] then t else Apply(t, PutBack)
  }

  ghost predicate Occurs(s: State, es: seq<Event>)
    requires s.held == []
    decreases |es|
  {
    es == [] || ((es[0].Call? ==> s.ring != []) && Occurs(Occur(s, es[0]), es[1..]))
  }

  ghost function OccurAll(s: State, es: seq<Event>): State
    requires s.held == [] && Occurs(s, es)
    decreases |es|
  {
    if es == [] then s else OccurAll(Occur(s, es[0]), es[1..])
  }

  function Datagrams(items: seq<Item>): (ds: seq<Datagram>)
    ensures |ds| == |items|
  {
    seq(|items|, i requires 0 <= i < |items| => items[i].d)
  }

  /** An atomic call is the read of one call on the queue of datagrams, and hands out its chunk. */
  lemma CallIsRead(s: State, len: nat)
    requires s.held == [] && s.ring != [] && |s.ring| <= CAPACITY
    ensures var t := Occur(s, Call(len));
            && Datagrams(t.ring) == AfterRead(Datagrams(s.ring), len)
            && t.log == s.log + [Delivery(s.ring[0].id, Taken(s.ring[0].d, len))]
            && t.lost == s.lost
  {
    assert Datagrams(s.ring[1..]) == Datagrams(s.ring)[1..];
  }

  lemma OccurKeepsInv(s: State, e: Event)
    requires Inv(s) && s.held == [] && s.lost == [] && (e.Call? ==> s.ring != [])
    ensures var t := Occur(s, e); Inv(t) && t.held == [] && t.lost == []
  {
    match e
    case Arrival(d) => StepKeepsInv(s, Arrive(d));
    case Call(len) =>
      StepKeepsInv(s, Take(len));
      RequeueAfterTake(Apply(s, Take(len)));
  }

  lemma RequeueAfterTake(s: State)
    requires Inv(s) && s.lost == [] && |s.ring| < CAPACITY
    ensures s.held != [] ==> var t := Apply(s, PutBack); Inv(t) && t.held == [] && t.lost == []
  {
    if s.held != [] {
      StepKeepsInv(s, PutBack);
    }
  }

  /** An arrival goes to the tail of the queue of datagrams, and is accepted exactly when there is room. */
  lemma ArriveIsEnqueue(s: State, d: Datagram)
    ensures var t := Apply(s, Arrive(d));
            && Datagrams(t.ring) == Enqueue(Datagrams(s.ring), d)
            && t.accepted == (if |s.ring| < CAPACITY then s.accepted + [d] else s.accepted)
            && t.held == s.held && t.log == s.log && t.lost == s.lost
  {
  }

  /** A dequeue takes the front of the queue of datagrams and hands out its next chunk. */
  lemma TakeIsFront(s: State, len: nat)
    requires Enabled(s, Take(len))
    ensures var t := Apply(s, Take(len));
            && Datagrams(t.ring) == Datagrams(s.ring)[1..]
            && t.log == s.log + [Delivery(s.ring[0].id, Taken(s.ring[0].d, len))]
            && t.accepted == s.accepted && t.lost == s.lost
  {
  }

  /** A requeue goes to the tail of the queue as it is then, whatever has arrived in between. */
  lemma PutBackIsEnqueue(s: State)
    requires |s.held| == 1
    ensures var t := Apply(s, PutBack);
            && Datagrams(t.ring) == Enqueue(Datagrams(s.ring), s.held[0].d)
            && t.log == s.log && t.accepted == s.accepted && t.held == []
  {
  }

  /** The queue of datagrams after arrivals and calls. */
  ghost function QueueAfter(q: seq<Datagram>, es: seq<Event>): seq<Datagram>
    decreases |es|
  {
    if es == [] then q
    else
      match es[0]
      case Arrival(d) => QueueAfter(Enqueue(q, d), es[1..])
      case Call(len) => if q == [] then q else QueueAfter(AfterRead(q, len), es[1..])
  }

  /** The chunks those calls hand out, in order. */
  ghost function ChunksOf(q: seq<Datagram>, es: seq<Event>): seq<Chunk>
    decreases |es|
  {
    if es == [] then []
    else
      match es[0]
      case Arrival(d) => ChunksOf(Enqueue(q, d), es[1..])
      case Call(len) => if q == [] then [] else [Taken(q[0], len)] + ChunksOf(AfterRead(q, len), es[1..])
  }

  function Chunks(log: seq<Delivery>): (cs: seq<Chunk>)
    ensures |cs| == |log|
    ensures forall n | 0 <= n < |log| :: cs[n] == log[n].chunk
  {
    seq(|log|, n requires 0 <= n < |log| => log[n].chunk)
  }

  /** Over every run of arrivals and atomic calls the machine is the queue of module ReceiveQueue: same ring,
      same chunks in the same order. So a datagram is served when those before it have been. */
  lemma {:induction false} AtomicRunIsQueue(s: State, es: seq<Event>)
    requires |s.ring| <= CAPACITY && s.held == [] && Occurs(s, es)
    ensures Datagrams(OccurAll(s, es).ring) == QueueAfter(Datagrams(s.ring), es)
    ensures Chunks(OccurAll(s, es).log) == Chunks(s.log) + ChunksOf(Datagrams(s.ring), es)
    decreases |es|
  {
    if es != [] {
      var t := Occur(s, es[0]);
      match es[0] {
        case Arrival(d) => ArriveIsEnqueue(s, d);
        case Call(len) =>
          CallIsRead(s, len);
          assert Chunks(t.log) == Chunks(s.log) + [Taken(Datagrams(s.ring)[0], len)];
      }
      AtomicRunIsQueue(t, es[1..]);
    }
  }

  /** With atomic calls nothing is ever lost: for every accepted datagram the chunks delivered,
      followed by its remainder in the ring, are its bytes. */
  lemma {:induction false} AtomicRunReassembles(s: State, es: seq<Event>)
    requires Inv(s) && s.held == [] && s.lost == [] && Occurs(s, es)
    ensures var t := OccurAll(s, es);
            Inv(t) && t.held == [] && t.lost == [] && Reassembles(multiset(t.ring), t.log, t.accepted)
    decreases |es|
  {
    if es == [] {
      assert Pending(s) == multiset(s.ring);
    } else {
      OccurKeepsInv(s, es[0]);
      AtomicRunReassembles(Occur(s, es[0]), es[1..]);
    }
  }
}
