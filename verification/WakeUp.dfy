/** The wake-up protocol between the packet thread (`hz_process_udp`) and one receiver
    (`hz_receive_from`): every interleaving of their steps, spurious wake-ups included. The packet
    thread enqueues without the lock and signals with it; the receiver tests the ring with the lock,
    and `pthread_cond_wait` gives the lock back and falls asleep in one step. */
module WakeUp {
  import opened UdpInfo
  import opened Rings
  import opened Reassembly
  import ReceiveQueue

  datatype Owner = Free | ByPacket | ByReceiver

  /** Where the packet thread is: between datagrams, past its enqueue, past its lock, past its signal. */
  datatype PacketAt = Idle | Enqueued | Locked | Signalled

  /** Where the receiver is; `len` is the room the current call has. */
  datatype ReceiverAt =
    | Outside
    | Calling(len: nat)    // wants the lock
    | Testing(len: nat)    // holds it, about to dequeue
    | FoundEmpty(len: nat) // holds it, about to wait
    | Asleep(len: nat)
    | Woken(len: nat)      // wants the lock back
    | Dequeued             // holds it, has a datagram
    | Requeuing            // has given it back, a remainder in hand

  datatype Sys = Sys(data: State, mutex: Owner, packet: PacketAt, receiver: ReceiverAt)

  datatype Step =
    | PEnqueue(d: Datagram) | PLock | PSignal | PUnlock
    | RCall(len: nat) | RLock | RTest | RWait | RSpurious | RUnlock | RRequeue

  predicate CanStep(s: Sys, step: Step) {
    match step
    case PEnqueue(_) => s.packet == Idle
    case PLock => s.packet == Enqueued && s.mutex == Free
    case PSignal => s.packet == Locked
    case PUnlock => s.packet == Signalled
    case RCall(_) => s.receiver == Outside
    case RLock => (s.receiver.Calling? || s.receiver.Woken?) && s.mutex == Free
    case RTest => s.receiver.Testing? && s.data.held == []
    case RWait => s.receiver.FoundEmpty?
    case RSpurious => s.receiver.Asleep?
    case RUnlock => s.receiver == Dequeued
    case RRequeue => s.receiver == Requeuing && s.data.held != []
  }

  function Do(s: Sys, step: Step): Sys
    requires CanStep(s, step)
  {
    match step
    case PEnqueue(d) => s.(data := Apply(s.data, Arrive(d)), packet := Enqueued)
    case PLock => s.(mutex := ByPacket, packet := Locked)
    case PSignal =>
      s.(packet := Signalled, receiver := if s.receiver.Asleep? then Woken(s.receiver.len) else s.receiver)
    case PUnlock => s.(mutex := Free, packet := Idle)
    case RCall(len) => s.(receiver := Calling(len))
    case RLock => s.(mutex := ByReceiver, receiver := Testing(s.receiver.len))
    case RTest =>
      if s.data.ring == [] then s.(receiver := FoundEmpty(s.receiver.len))
      else s.(data := Apply(s.data, Take(s.receiver.len)), receiver := Dequeued)
    case RWait => s.(mutex := Free, receiver := Asleep(s.receiver.len))
    case RSpurious => s.(receiver := Woken(s.receiver.len))
    case RUnlock => s.(mutex := Free, receiver := if s.data.held == [] then Outside else Requeuing)
    case RRequeue => s.(data := Apply(s.data, PutBack), receiver := Outside)
  }

  const START := Sys(EMPTY, Free, Idle, Outside)

  ghost predicate Traces(s: Sys, steps: seq<Step>)
    decreases |steps|
  {
    steps == [] || (CanStep(s, steps[0]) && Traces(Do(s, steps[0]), steps[1..]))
  }

  ghost function After(s: Sys, steps: seq<Step>): Sys
    requires Traces(s, steps)
    decreases |steps|
  {
    if steps == [] then s else After(Do(s, steps[0]), steps[1..])
  }

  // ----- Safety -----

  /** A receiver asleep while the ring holds something has a signal coming: the packet thread is
      past its enqueue and not yet past its signal. */
  predicate NoLostWakeUp(s: Sys) {
    s.receiver.Asleep? && s.data.ring != [] ==> s.packet == Enqueued || s.packet == Locked
  }

  predicate MutualExclusion(s: Sys) {
    && (s.mutex == ByPacket <==> s.packet == Locked || s.packet == Signalled)
    && (s.mutex == ByReceiver <==> s.receiver.Testing? || s.receiver.FoundEmpty? || s.receiver == Dequeued)
  }

  /** What every reachable state satisfies. A receiver that has just found the ring empty still
      holds the lock, so a datagram it missed is from a packet thread that has not signalled. */
  ghost predicate Inv(s: Sys) {
    && MutualExclusion(s)
    && NoLostWakeUp(s)
    && (s.receiver.FoundEmpty? && s.data.ring != [] ==> s.packet == Enqueued)
    && (s.data.held != [] ==> s.receiver == Dequeued || s.receiver == Requeuing)
    && (s.receiver == Requeuing ==> s.data.held != [])
    && Reassembly.Inv(s.data)
  }

  lemma StepKeepsInv(s: Sys, step: Step)
    requires Inv(s) && CanStep(s, step)
    ensures Inv(Do(s, step))
  {
    match step
    case PEnqueue(d) => Reassembly.StepKeepsInv(s.data, Arrive(d));
    case RTest =>
      if s.data.ring != [] {
        Reassembly.StepKeepsInv(s.data, Take(s.receiver.len));
      }
    case RRequeue => Reassembly.StepKeepsInv(s.data, PutBack);
    case _ =>
  }

  lemma {:induction false} EveryTraceKeepsInv(s: Sys, steps: seq<Step>)
    requires Inv(s) && Traces(s, steps)
    ensures Inv(After(s, steps))
    decreases |steps|
  {
    if steps != [] {
      StepKeepsInv(s, steps[0]);
      EveryTraceKeepsInv(Do(s, steps[0]), steps[1..]);
    }
  }

  /** No interleaving loses a wake-up, and none delivers wrong bytes; in particular no
      receiver sleeps over a datagram once the packet thread is through with it. */
  lemma NoInterleavingLosesWakeUp(steps: seq<Step>)
    requires Traces(START, steps)
    ensures var s := After(START, steps);
            && NoLostWakeUp(s) && MutualExclusion(s)
            && Reassembles(Pending(s.data), s.data.log, s.data.accepted)
            && (s.receiver.Asleep? && s.packet == Idle ==> s.data.ring == [])
  {
    EveryTraceKeepsInv(START, steps);
  }

  // ----- One call -----

  /** The receiver is in a call with room for len and has not dequeued yet. */
  predicate InCall(s: Sys, len: nat) {
    s.receiver in {Calling(len), Testing(len), FoundEmpty(len), Asleep(len), Woken(len)}
  }

  /** What each step does to the queue, and to a call that has not dequeued yet: the packet thread's enqueue
      is an arrival, the receiver's test of a ring that holds something is a read with the room the call
      began with, its requeue puts the remainder back, and no other step touches the queue. */
  lemma StepEffect(s: Sys, step: Step)
    requires Inv(s) && CanStep(s, step)
    ensures var t := Do(s, step);
            && (step.PEnqueue? ==> t.data == Apply(s.data, Arrive(step.d)))
            && (step == RRequeue ==> t.data == Apply(s.data, PutBack))
            && (step == RTest && s.data.ring != [] ==> t.data == Apply(s.data, Take(s.receiver.len)) && t.receiver == Dequeued)
            && (!step.PEnqueue? && step != RRequeue && !(step == RTest && s.data.ring != []) ==> t.data == s.data)
            && (step.RCall? ==> t.receiver == Calling(step.len))
            && (step == PSignal && s.receiver.Asleep? ==> t.receiver == Woken(s.receiver.len))
            && (forall len | InCall(s, len) && !(step == RTest && s.data.ring != []) :: InCall(t, len))
  {
  }

  lemma StaysInCall(s: Sys, step: Step, len: nat)
    requires InCall(s, len) && CanStep(s, step) && !(step == RTest && s.data.ring != [])
    ensures InCall(Do(s, step), len) && Do(s, step).data.log == s.data.log
  {
  }

  lemma TestDelivers(s: Sys, len: nat)
    requires InCall(s, len) && CanStep(s, RTest) && s.data.ring != []
    ensures Do(s, RTest).data.log ==
            s.data.log + [Delivery(s.data.ring[0].id, ReceiveQueue.Taken(s.data.ring[0].d, len))]
  {
  }

  lemma LongerPrefix(s: Sys, steps: seq<Step>, m: nat)
    requires steps != [] && CanStep(s, steps[0]) && m < |steps| - 1 && Traces(Do(s, steps[0]), steps[1..][..m])
    ensures steps[m + 1] == steps[1..][m] && steps[m + 1..] == steps[1..][m..]
    ensures Traces(s, steps[..m + 1]) && After(s, steps[..m + 1]) == After(Do(s, steps[0]), steps[1..][..m])
  {
    var front := steps[..m + 1];
    assert front[0] == steps[0] && front[1..] == steps[1..][..m];
  }

  /** At step n, in state t, the call finds the ring non-empty. */
  ghost predicate FindsAt(s: Sys, steps: seq<Step>, len: nat, n: nat, t: Sys) {
    && n < |steps| && steps[n] == RTest
    && Traces(s, steps[..n]) && t == After(s, steps[..n]) && Traces(t, steps[n..])
    && InCall(t, len) && t.data.ring != [] && t.data.log == s.data.log
  }

  lemma FindsLater(s: Sys, steps: seq<Step>, len: nat, m: nat, t: Sys)
    requires steps != [] && CanStep(s, steps[0]) && Do(s, steps[0]).data.log == s.data.log
    requires FindsAt(Do(s, steps[0]), steps[1..], len, m, t)
    ensures FindsAt(s, steps, len, m + 1, t)
  {
    LongerPrefix(s, steps, m);
  }

  lemma {:induction false} CallFinds(s: Sys, steps: seq<Step>, len: nat) returns (n: nat, t: Sys)
    requires InCall(s, len) && Traces(s, steps) && !InCall(After(s, steps), len)
    ensures FindsAt(s, steps, len, n, t)
    decreases |steps|
  {
    if steps[0] == RTest && s.data.ring != [] {
      n, t := 0, s;
      assert steps[..0] == [] && steps[0..] == steps;
    } else {
      StaysInCall(s, steps[0], len);
      n, t := CallFinds(Do(s, steps[0]), steps[1..], len);
      FindsLater(s, steps, len, n, t);
      n := n + 1;
    }
  }

  /** However long a call waits, and whatever the packet thread does meanwhile, it hands out nothing before it
      finds the ring non-empty, and then the next chunk of the datagram in front, with the room it began
      with. n is the step at which it does and t the state then. */
  lemma CallDelivers(s: Sys, steps: seq<Step>, len: nat) returns (n: nat, t: Sys)
    requires InCall(s, len) && Traces(s, steps) && !InCall(After(s, steps), len)
    ensures n < |steps| && steps[n] == RTest
    ensures Traces(s, steps[..n]) && t == After(s, steps[..n]) && CanStep(t, RTest)
    ensures t.data.ring != [] && t.data.log == s.data.log
    ensures var x := t.data.ring[0];
            Do(t, RTest).data.log == s.data.log + [Delivery(x.id, ReceiveQueue.Taken(x.d, len))]
  {
    n, t := CallFinds(s, steps, len);
    assert steps[n..][0] == RTest;
    TestDelivers(t, len);
  }

  // ----- Progress -----

  /** The packet thread alone wakes a receiver that sleeps over a datagram: it is never blocked
      on the way to its signal, and the datagram is still there. */
  lemma SleeperIsWoken(s: Sys) returns (steps: seq<Step>)
    requires Inv(s) && s.receiver.Asleep? && s.data.ring != []
    ensures 1 <= |steps| <= 2 && Traces(s, steps)
    ensures After(s, steps).receiver == Woken(s.receiver.len) && After(s, steps).data == s.data
  {
    if s.packet == Enqueued {
      steps := [PLock, PSignal];
      var t := Do(s, PLock);
      assert steps[1..] == [PSignal] && [PSignal][1..] == [];
      assert Traces(t, [PSignal]) && After(t, [PSignal]) == Do(t, PSignal);
    } else {
      steps := [PSignal];
      assert steps[1..] == [];
    }
  }

  /** The steps a thread takes of its own accord: not a new datagram, a new call or a spurious
      wake-up. */
  predicate OwnStep(step: Step) {
    !step.PEnqueue? && !step.RCall? && !step.RSpurious?
  }

  /** No thread can take a step of its own accord. */
  ghost predicate Stuck(s: Sys) {
    forall step | OwnStep(step) :: !CanStep(s, step)
  }

  /** The packet thread has nothing to do, and the receiver is outside a call or asleep over an empty
      ring. */
  predicate AtRest(s: Sys) {
    s.packet == Idle && (s.receiver == Outside || (s.receiver.Asleep? && s.data.ring == []))
  }

  /** There is no deadlock: the system is stuck only where it is meant to rest. */
  lemma RestsExactlyWhen(s: Sys)
    requires Inv(s)
    ensures Stuck(s) <==> AtRest(s)
  {
    if !AtRest(s) {
      var step := NextStep(s);
      assert OwnStep(step) && CanStep(s, step);
    }
  }

  /** A step that can be taken wherever the system is not at rest. */
  function NextStep(s: Sys): (step: Step)
    requires Inv(s) && !AtRest(s)
    ensures OwnStep(step) && CanStep(s, step)
  {
    match s.packet
    case Locked => PSignal
    case Signalled => PUnlock
    case _ =>
      match s.receiver
      case Calling(_) => RLock
      case Testing(_) => RTest
      case FoundEmpty(_) => RWait
      case Woken(_) => RLock
      case Dequeued => RUnlock
      case Requeuing => RRequeue
      case _ => PLock
  }

  /** How many more steps the threads can take of their own accord, at most. A signal costs the
      packet thread more than the receiver it wakes can use. */
  function StepsAhead(s: Sys): nat {
    (match s.packet
     case Idle => 0
     case Enqueued => 15
     case Locked => 10
     case Signalled => 5) +
    (match s.receiver
     case Outside => 0
     case Calling(_) => 6
     case Testing(_) => 5
     case FoundEmpty(_) => 4
     case Asleep(_) => 3
     case Woken(_) => 6
     case Dequeued => 2
     case Requeuing => 1)
  }

  lemma OwnStepIsProgress(s: Sys, step: Step)
    requires CanStep(s, step) && OwnStep(step)
    ensures StepsAhead(Do(s, step)) < StepsAhead(s)
  {
  }

  lemma {:induction false} EveryScheduleIsShort(s: Sys, steps: seq<Step>)
    requires Traces(s, steps) && forall step | step in steps :: OwnStep(step)
    ensures |steps| + StepsAhead(After(s, steps)) <= StepsAhead(s)
    decreases |steps|
  {
    if steps != [] {
      assert steps[0] in steps;
      OwnStepIsProgress(s, steps[0]);
      EveryScheduleIsShort(Do(s, steps[0]), steps[1..]);
    }
  }

  /** Under every schedule: with no new datagram, call or spurious wake-up the threads come to rest
      after at most 21 steps, and until then there is always a next one. So a call returns, or
      sleeps over an empty ring. */
  lemma EveryScheduleComesToRest(s: Sys, steps: seq<Step>)
    requires Inv(s) && Traces(s, steps)
    requires forall step | step in steps :: OwnStep(step)
    ensures |steps| + StepsAhead(After(s, steps)) <= 21
    ensures Stuck(After(s, steps)) <==> AtRest(After(s, steps))
  {
    EveryScheduleIsShort(s, steps);
    AtMost21Ahead(s);
    var t := After(s, steps);
    EveryTraceKeepsInv(s, steps);
    RestsExactlyWhen(t);
  }

  lemma AtMost21Ahead(s: Sys)
    ensures StepsAhead(s) <= 21
  {
  }

  // ----- The protocol refines the queue -----

  /** Every step is one step of the queue or leaves it alone, so what is proved of all runs of
      the queue holds of all interleavings. */
  lemma StepRefinesQueue(s: Sys, step: Step)
    requires Inv(s) && CanStep(s, step)
    ensures var t := Do(s, step).data;
            || t == s.data
            || (exists op :: Enabled(s.data, op) && t == Apply(s.data, op))
  {
    match step
    case PEnqueue(d) => assert Enabled(s.data, Arrive(d));
    case RTest =>
      if s.data.ring != [] {
        assert Enabled(s.data, Take(s.receiver.len));
      }
    case RRequeue => assert Enabled(s.data, PutBack);
    case _ =>
  }

  /** A remainder is lost in exactly one kind of step: a requeue that meets a full ring. */
  lemma LossExactlyWhen(s: Sys, step: Step)
    requires Inv(s) && CanStep(s, step)
    ensures Do(s, step).data.lost != s.data.lost <==> step == RRequeue && |s.data.ring| == CAPACITY
  {
  }

  /** The packet thread's steps for the datagrams ds, one after the other. */
  function Rounds(ds: seq<Datagram>): seq<Step> {
    if ds == [] then [] else Round(ds[0]) + Rounds(ds[1..])
  }

  function Round(d: Datagram): seq<Step> {
    [PEnqueue(d), PLock, PSignal, PUnlock]
  }

  lemma Prepend(s: Sys, step: Step, rest: seq<Step>)
    requires CanStep(s, step) && Traces(Do(s, step), rest)
    ensures Traces(s, [step] + rest) && After(s, [step] + rest) == After(Do(s, step), rest)
  {
    assert ([step] + rest)[1..] == rest;
  }

  /** The packet thread handles d while the receiver is not asleep. */
  lemma OneRound(s: Sys, d: Datagram)
    requires s.mutex == Free && s.packet == Idle && !s.receiver.Asleep?
    ensures Traces(s, Round(d))
    ensures After(s, Round(d)) == s.(data := Apply(s.data, Arrive(d)))
  {
    var a := Do(s, PEnqueue(d));
    var b := Do(a, PLock);
    var c := Do(b, PSignal);
    Prepend(c, PUnlock, []);
    Prepend(b, PSignal, [PUnlock]);
    Prepend(a, PLock, [PSignal, PUnlock]);
    Prepend(s, PEnqueue(d), [PLock, PSignal, PUnlock]);
  }

  lemma {:induction false} TraceConcat(s: Sys, a: seq<Step>, b: seq<Step>)
    requires Traces(s, a) && Traces(After(s, a), b)
    ensures Traces(s, a + b) && After(s, a + b) == After(After(s, a), b)
    decreases |a|
  {
    if a == [] {
      assert a + b == b;
    } else {
      assert (a + b)[0] == a[0] && (a + b)[1..] == a[1..] + b;
      TraceConcat(Do(s, a[0]), a[1..], b);
    }
  }

  /** While a receiver has a remainder in hand the packet thread is free to run: the remainder is lost
      if and only if the datagrams it enqueues fill the ring. */
  lemma {:induction false} RoundsThenRequeue(s: Sys, ds: seq<Datagram>)
    requires s.mutex == Free && s.packet == Idle && s.receiver == Requeuing
    requires s.data.held != [] && |s.data.ring| <= CAPACITY
    ensures var steps := Rounds(ds) + [RRequeue];
            && Traces(s, steps)
            && After(s, steps).data.lost ==
               s.data.lost + if |s.data.ring| + |ds| >= CAPACITY then s.data.held else []
    decreases |ds|
  {
    if ds == [] {
      assert Rounds(ds) + [RRequeue] == [RRequeue] + [];
      Prepend(s, RRequeue, []);
    } else {
      OneRound(s, ds[0]);
      RoundsThenRequeue(After(s, Round(ds[0])), ds[1..]);
      TraceConcat(s, Round(ds[0]), Rounds(ds[1..]) + [RRequeue]);
      assert Rounds(ds) + [RRequeue] == Round(ds[0]) + (Rounds(ds[1..]) + [RRequeue]);
    }
  }

  /** How many datagrams the packet thread enqueues in a trace. */
  function Enqueues(steps: seq<Step>): nat {
    if steps == [] then 0 else (if steps[0].PEnqueue? then 1 else 0) + Enqueues(steps[1..])
  }

  /** The receiver is between the dequeue of a short read and the requeue. */
  predicate HasRemainder(s: Sys) {
    s.data.held != [] && |s.data.ring| <= CAPACITY && (s.receiver == Dequeued || s.receiver == Requeuing)
  }

  lemma RemainderStays(s: Sys, step: Step)
    requires HasRemainder(s) && CanStep(s, step) && step != RRequeue
    ensures var t := Do(s, step);
            && HasRemainder(t) && t.data.held == s.data.held && t.data.lost == s.data.lost
            && |t.data.ring| == if step.PEnqueue? && |s.data.ring| < CAPACITY then |s.data.ring| + 1 else |s.data.ring|
  {
  }

  lemma {:induction false} LostFromRemainderIff(s: Sys, steps: seq<Step>)
    requires HasRemainder(s) && Traces(s, steps + [RRequeue]) && RRequeue !in steps
    ensures After(s, steps + [RRequeue]).data.lost ==
            s.data.lost + if |s.data.ring| + Enqueues(steps) >= CAPACITY then s.data.held else []
    decreases |steps|
  {
    var all := steps + [RRequeue];
    if steps == [] {
      assert all[0] == RRequeue && all[1..] == [];
    } else {
      assert all[0] == steps[0] && all[1..] == steps[1..] + [RRequeue];
      RemainderStays(s, steps[0]);
      LostFromRemainderIff(Do(s, steps[0]), steps[1..]);
    }
  }

  /** From the dequeue of a short read on, whatever steps the two threads take up to the requeue: the
      remainder is lost if and only if the ring and the datagrams enqueued on the way fill it. */
  lemma LostUpToRequeueIff(s: Sys, steps: seq<Step>)
    requires Inv(s) && s.data.held != []
    requires Traces(s, steps + [RRequeue]) && RRequeue !in steps
    ensures After(s, steps + [RRequeue]).data.lost ==
            s.data.lost + if |s.data.ring| + Enqueues(steps) >= CAPACITY then s.data.held else []
  {
    LostFromRemainderIff(s, steps);
  }

  /** It does happen: the two threads can lose the second byte of a datagram of two. */
  lemma SomeTraceLoses(d: Datagram, other: Datagram) returns (steps: seq<Step>)
    requires |d.data| == 2
    ensures Traces(START, steps)
    ensures After(START, steps).data.lost == [Item(0, ReceiveQueue.Remainder(d, 1))]
  {
    var ds := seq(CAPACITY, _ => other);
    var s := START.(data := Apply(EMPTY, Arrive(d)));
    assert s.data.ring == [Item(0, d)];
    var a := Do(s, RCall(1));
    var b := Do(a, RLock);
    var c := Do(b, RTest);
    var t := Do(c, RUnlock);
    steps := Rounds(ds) + [RRequeue];
    RoundsThenRequeue(t, ds);
    Prepend(c, RUnlock, steps);
    steps := [RUnlock] + steps;
    Prepend(b, RTest, steps);
    steps := [RTest] + steps;
    Prepend(a, RLock, steps);
    steps := [RLock] + steps;
    Prepend(s, RCall(1), steps);
    steps := [RCall(1)] + steps;
    OneRound(START, d);
    TraceConcat(START, Round(d), steps);
    steps := Round(d) + steps;
  }
}
