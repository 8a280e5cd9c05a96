/** The outbound sweep of `hz_process_out_udp` (`src/udp.c`) on the send rings of the connection
    list: one datagram per ring, framed if its destination is known, else parked at the tail behind
    an ARP frame; the first empty ring ends the sweep. */
module OutSweep {
  import opened FrameHeaders
  import opened UdpInfo
  import opened Rings
  import opened ArpTable

  /** A queued datagram. The tag tells equal datagrams apart; no step looks at it. */
  datatype Parcel<X> = Parcel(tag: X, d: Datagram)

  /** What a sweep hands to the output ring for the connection at list position k. */
  datatype Frame<X> =
    | UdpOut(k: nat, p: Parcel<X>, mac: Mac)
    | ArpOut(k: nat, p: Parcel<X>)

  datatype Swept<X> = Swept(rings: seq<seq<Parcel<X>>>, out: seq<Frame<X>>)

  predicate Resolved<X>(p: Parcel<X>, es: seq<ArpEntry>) {
    Lookup(es, p.d.dstIp) != None
  }

  function FrameFor<X>(k: nat, p: Parcel<X>, es: seq<ArpEntry>): Frame<X> {
    match Lookup(es, p.d.dstIp)
    case Some(mac) => UdpOut(k, p, mac)
    case None => ArpOut(k, p)
  }

  function ServeRing<X>(q: seq<Parcel<X>>, es: seq<ArpEntry>): seq<Parcel<X>>
    requires q != []
  {
    if Resolved(q[0], es) then q[1..] else Enqueue(q[1..], q[0])
  }

  /** The loop from list position k on. */
  function SweepFrom<X>(rings: seq<seq<Parcel<X>>>, es: seq<ArpEntry>, k: nat): (r: Swept<X>)
    requires k <= |rings|
    ensures |r.rings| == |rings|
    decreases |rings| - k
  {
    if k == |rings| || rings[k] == [] then Swept(rings, [])
    else
      var rest := SweepFrom(rings[k := ServeRing(rings[k], es)], es, k + 1);
      Swept(rest.rings, [FrameFor(k, rings[k][0], es)] + rest.out)
  }

  function Sweep<X>(rings: seq<seq<Parcel<X>>>, es: seq<ArpEntry>): Swept<X> {
    SweepFrom(rings, es, 0)
  }

  // ----- Which rings a sweep serves -----

  /** The end of the longest run of non-empty rings from list position `from` on. */
  function Reach<X>(rings: seq<seq<Parcel<X>>>, from: nat): (end: nat)
    requires from <= |rings|
    ensures from <= end <= |rings|
    ensures forall k | from <= k < end :: rings[k] != []
    ensures end < |rings| ==> rings[end] == []
    decreases |rings| - from
  {
    if from == |rings| || rings[from] == [] then from else Reach(rings, from + 1)
  }

  lemma ReachIs<X>(rings: seq<seq<Parcel<X>>>, from: nat, end: nat)
    requires from <= end <= |rings|
    requires forall k | from <= k < end :: rings[k] != []
    requires end < |rings| ==> rings[end] == []
    ensures Reach(rings, from) == end
  {
  }

  /** r is what serving each ring of positions from..end once, in order, gives. */
  ghost predicate ServedOnce<X>(rings: seq<seq<Parcel<X>>>, es: seq<ArpEntry>, from: nat, end: nat, r: Swept<X>)
    requires from <= end <= |rings| && forall k | from <= k < end :: rings[k] != []
  {
    && |r.rings| == |rings|
    && |r.out| == end - from
    && (forall n | 0 <= n < end - from :: r.out[n] == FrameFor(from + n, rings[from + n][0], es))
    && (forall k | 0 <= k < |rings| :: r.rings[k] == if from <= k < end then ServeRing(rings[k], es) else rings[k])
  }

  lemma ServeOneMore<X>(rings: seq<seq<Parcel<X>>>, es: seq<ArpEntry>, from: nat, end: nat, rest: Swept<X>)
    requires from < end <= |rings| && forall k | from <= k < end :: rings[k] != []
    requires ServedOnce(rings[from := ServeRing(rings[from], es)], es, from + 1, end, rest)
    ensures ServedOnce(rings, es, from, end, Swept(rest.rings, [FrameFor(from, rings[from][0], es)] + rest.out))
  {
    var next := rings[from := ServeRing(rings[from], es)];
    var out := [FrameFor(from, rings[from][0], es)] + rest.out;
    forall n | 0 <= n < end - from
      ensures out[n] == FrameFor(from + n, rings[from + n][0], es)
    {
      if n > 0 {
        assert out[n] == rest.out[n - 1] == FrameFor(from + 1 + (n - 1), next[from + 1 + (n - 1)][0], es);
      }
    }
  }

  lemma ReachAfterServing<X>(rings: seq<seq<Parcel<X>>>, from: nat, q: seq<Parcel<X>>)
    requires from < |rings| && rings[from] != []
    ensures Reach(rings[from := q], from + 1) == Reach(rings, from) > from
  {
    ReachIs(rings[from := q], from + 1, Reach(rings, from));
  }

  lemma {:induction false} SweepServesFrom<X>(rings: seq<seq<Parcel<X>>>, es: seq<ArpEntry>, from: nat)
    requires from <= |rings|
    ensures ServedOnce(rings, es, from, Reach(rings, from), SweepFrom(rings, es, from))
    decreases |rings| - from
  {
    if from < |rings| && rings[from] != [] {
      var next := rings[from := ServeRing(rings[from], es)];
      ReachAfterServing(rings, from, ServeRing(rings[from], es));
      SweepServesFrom(next, es, from + 1);
      var rest := SweepFrom(next, es, from + 1);
      ServeOneMore(rings, es, from, Reach(rings, from), rest);
      assert SweepFrom(rings, es, from) == Swept(rest.rings, [FrameFor(from, rings[from][0], es)] + rest.out);
    } else {
      assert Reach(rings, from) == from && SweepFrom(rings, es, from) == Swept(rings, []);
    }
  }

  /** A sweep takes one datagram from each ring of exactly the longest list prefix of non-empty rings,
      emits one frame for each in list order, and leaves all other rings alone. */
  lemma SweepServesPrefix<X>(rings: seq<seq<Parcel<X>>>, es: seq<ArpEntry>)
    ensures ServedOnce(rings, es, 0, Reach(rings, 0), Sweep(rings, es))
  {
    SweepServesFrom(rings, es, 0);
  }

  // ----- Many sweeps -----

  function Sweeps<X>(rings: seq<seq<Parcel<X>>>, es: seq<ArpEntry>, n: nat): (r: Swept<X>)
    ensures |r.rings| == |rings|
    decreases n
  {
    if n == 0 then Swept(rings, [])
    else
      var first := Sweep(rings, es);
      var rest := Sweeps(first.rings, es, n - 1);
      Swept(rest.rings, first.out + rest.out)
  }

  /** The frames of the connection at list position k. */
  function OfSocket<X>(out: seq<Frame<X>>, k: nat): seq<Frame<X>> {
    if out == [] then []
    else (if out[0].k == k then [out[0]] else []) + OfSocket(out[1..], k)
  }

  lemma {:induction false} OfSocketConcat<X>(a: seq<Frame<X>>, b: seq<Frame<X>>, k: nat)
    ensures OfSocket(a + b, k) == OfSocket(a, k) + OfSocket(b, k)
  {
    if a == [] {
      assert a + b == b;
    } else {
      var front := if a[0].k == k then [a[0]] else [];
      OfSocketConcat(a[1..], b, k);
      assert (a + b)[0] == a[0] && (a + b)[1..] == a[1..] + b;
      assert front + (OfSocket(a[1..], k) + OfSocket(b, k)) == front + OfSocket(a[1..], k) + OfSocket(b, k);
    }
  }

  lemma {:induction false} OfSocketNone<X>(out: seq<Frame<X>>, k: nat)
    requires forall n | 0 <= n < |out| :: out[n].k != k
    ensures OfSocket(out, k) == []
  {
    if out != [] {
      OfSocketNone(out[1..], k);
    }
  }

  /** Frames of consecutive connections: each has one of its own. */
  lemma {:induction false} OfSocketOnce<X>(out: seq<Frame<X>>, from: nat, k: nat)
    requires from <= k && forall n | 0 <= n < |out| :: out[n].k == from + n
    ensures OfSocket(out, k) == if k - from < |out| then [out[k - from]] else []
  {
    if out != [] {
      var rest := out[1..];
      assert forall n | 0 <= n < |rest| :: rest[n] == out[n + 1];
      if from == k {
        OfSocketNone(rest, k);
      } else {
        OfSocketOnce(rest, from + 1, k);
      }
    }
  }

  lemma FrameOfServed<X>(rings: seq<seq<Parcel<X>>>, es: seq<ArpEntry>, end: nat, r: Swept<X>, k: nat)
    requires end <= |rings| && forall i | 0 <= i < end :: rings[i] != []
    requires ServedOnce(rings, es, 0, end, r)
    ensures OfSocket(r.out, k) == if k < end then [FrameFor(k, rings[k][0], es)] else []
  {
    forall n | 0 <= n < |r.out|
      ensures r.out[n] == FrameFor(n, rings[n][0], es)
    {
      assert r.out[n] == FrameFor(0 + n, rings[0 + n][0], es);
    }
    OfSocketOnce(r.out, 0, k);
  }

  /** In one sweep a connection emits one frame if no ring up to its own is empty, and else none. */
  lemma FrameOfSweep<X>(rings: seq<seq<Parcel<X>>>, es: seq<ArpEntry>, k: nat)
    requires k < |rings|
    ensures var r := Sweep(rings, es);
            if k < Reach(rings, 0) then
              OfSocket(r.out, k) == [FrameFor(k, rings[k][0], es)] && r.rings[k] == ServeRing(rings[k], es)
            else OfSocket(r.out, k) == [] && r.rings[k] == rings[k]
  {
    SweepServesPrefix(rings, es);
    FrameOfServed(rings, es, Reach(rings, 0), Sweep(rings, es), k);
  }

  function Unresolved<X>(q: seq<Parcel<X>>, es: seq<ArpEntry>): (r: seq<Parcel<X>>)
    ensures |r| <= |q|
  {
    if q == [] then []
    else (if Resolved(q[0], es) then [] else [q[0]]) + Unresolved(q[1..], es)
  }

  lemma {:induction false} UnresolvedOfAppend<X>(q: seq<Parcel<X>>, p: Parcel<X>, es: seq<ArpEntry>)
    ensures Unresolved(q + [p], es) == Unresolved(q, es) + if Resolved(p, es) then [] else [p]
  {
    if q != [] {
      UnresolvedOfAppend(q[1..], p, es);
      assert (q + [p])[1..] == q[1..] + [p];
    }
  }

  function FramesFor<X>(k: nat, q: seq<Parcel<X>>, es: seq<ArpEntry>): (r: seq<Frame<X>>)
    ensures |r| == |q|
  {
    if q == [] then [] else [FrameFor(k, q[0], es)] + FramesFor(k, q[1..], es)
  }

  lemma RotateOne<X>(todo: seq<Parcel<X>>, done: seq<Parcel<X>>, es: seq<ArpEntry>)
    requires todo != [] && |todo| + |done| <= CAPACITY
    ensures ServeRing(todo + Unresolved(done, es), es) == todo[1..] + Unresolved(done + [todo[0]], es)
  {
    UnresolvedOfAppend(done, todo[0], es);
    assert (todo + Unresolved(done, es))[1..] == todo[1..] + Unresolved(done, es);
  }

  lemma SweepsStep<X>(rings: seq<seq<Parcel<X>>>, es: seq<ArpEntry>, n: nat, k: nat)
    requires n > 0 && k < |rings|
    ensures var first := Sweep(rings, es);
            var rest := Sweeps(first.rings, es, n - 1);
            && Sweeps(rings, es, n).rings == rest.rings
            && OfSocket(Sweeps(rings, es, n).out, k) == OfSocket(first.out, k) + OfSocket(rest.out, k)
  {
    var first := Sweep(rings, es);
    OfSocketConcat(first.out, Sweeps(first.rings, es, n - 1).out, k);
  }

  lemma MovedOver<X>(done: seq<Parcel<X>>, todo: seq<Parcel<X>>)
    requires todo != []
    ensures done + [todo[0]] + todo[1..] == done + todo
  {
  }

  /** q is not empty at any of the next n sweeps: it is long enough, or has a datagram that is parked
      again and again. */
  predicate Lasts<X>(q: seq<Parcel<X>>, es: seq<ArpEntry>, n: nat) {
    |q| >= n || Unresolved(q, es) != []
  }

  lemma LastsStep<X>(q: seq<Parcel<X>>, es: seq<ArpEntry>, n: nat)
    requires n > 0 && |q| <= CAPACITY && Lasts(q, es, n)
    ensures q != [] && |ServeRing(q, es)| <= CAPACITY && Lasts(ServeRing(q, es), es, n - 1)
  {
    if !Resolved(q[0], es) {
      UnresolvedOfAppend(q[1..], q[0], es);
    }
  }

  ghost predicate FrontLasts<X>(rings: seq<seq<Parcel<X>>>, es: seq<ArpEntry>, k: nat, n: nat)
    requires k <= |rings|
  {
    forall j | 0 <= j < k :: |rings[j]| <= CAPACITY && Lasts(rings[j], es, n)
  }

  lemma FrontLastsStep<X>(rings: seq<seq<Parcel<X>>>, es: seq<ArpEntry>, k: nat, n: nat)
    requires n > 0 && k < |rings| && FrontLasts(rings, es, k, n) && rings[k] != []
    ensures k < Reach(rings, 0) && FrontLasts(Sweep(rings, es).rings, es, k, n - 1)
  {
    forall j | 0 <= j < k
      ensures rings[j] != []
    {
      LastsStep(rings[j], es, n);
    }
    SweepServesPrefix(rings, es);
    FrontLastsServed(rings, es, k, n, Reach(rings, 0), Sweep(rings, es));
  }

  lemma FrontLastsServed<X>(rings: seq<seq<Parcel<X>>>, es: seq<ArpEntry>, k: nat, n: nat, end: nat, r: Swept<X>)
    requires n > 0 && k <= end <= |rings| && forall i | 0 <= i < end :: rings[i] != []
    requires FrontLasts(rings, es, k, n) && ServedOnce(rings, es, 0, end, r)
    ensures FrontLasts(r.rings, es, k, n - 1)
  {
    forall j | 0 <= j < k
      ensures |r.rings[j]| <= CAPACITY && Lasts(r.rings[j], es, n - 1)
    {
      LastsStep(rings[j], es, n);
    }
  }

  /** Part of a rotation: `todo` not yet served, `done` served already. */
  lemma {:induction false} PartialRotation<X>(rings: seq<seq<Parcel<X>>>, es: seq<ArpEntry>, k: nat,
                                              todo: seq<Parcel<X>>, done: seq<Parcel<X>>)
    requires k < |rings| && rings[k] == todo + Unresolved(done, es)
    requires |todo| + |done| <= CAPACITY && FrontLasts(rings, es, k, |todo|)
    ensures var r := Sweeps(rings, es, |todo|);
            && r.rings[k] == Unresolved(done + todo, es)
            && OfSocket(r.out, k) == FramesFor(k, todo, es)
    decreases |todo|
  {
    if todo == [] {
      assert done + todo == done;
    } else {
      FrontLastsStep(rings, es, k, |todo|);
      FrameOfSweep(rings, es, k);
      RotateOne(todo, done, es);
      SweepsStep(rings, es, |todo|, k);
      PartialRotation(Sweep(rings, es).rings, es, k, todo[1..], done + [todo[0]]);
      MovedOver(done, todo);
    }
  }

  /** One rotation is a stable partition. With a fixed ARP table and no new sends, as many sweeps as the
      connection at list position k has datagrams frame exactly its resolved ones, in order, emit one
      ARP frame for each of the others, and leave those in its ring in their order, given that no
      ring in front runs empty. */
  lemma RotationPartitions<X>(rings: seq<seq<Parcel<X>>>, es: seq<ArpEntry>, k: nat)
    requires k < |rings| && |rings[k]| <= CAPACITY && FrontLasts(rings, es, k, |rings[k]|)
    ensures var r := Sweeps(rings, es, |rings[k]|);
            && r.rings[k] == Unresolved(rings[k], es)
            && OfSocket(r.out, k) == FramesFor(k, rings[k], es)
  {
    assert rings[k] + Unresolved([], es) == rings[k];
    PartialRotation(rings, es, k, rings[k], []);
    assert [] + rings[k] == rings[k];
  }

  /** One sweep neither serves an empty ring nor any ring behind it. */
  lemma NotServed<X>(rings: seq<seq<Parcel<X>>>, es: seq<ArpEntry>, j: nat, k: nat)
    requires j <= k < |rings| && rings[j] == []
    ensures Sweep(rings, es).rings[k] == rings[k] && OfSocket(Sweep(rings, es).out, k) == []
  {
    assert Reach(rings, 0) <= j;
    FrameOfSweep(rings, es, k);
  }

  /** An empty ring hides every connection behind it in the list: without new sends, no number of
      sweeps serves any of them. */
  lemma {:induction false} EmptyRingStalls<X>(rings: seq<seq<Parcel<X>>>, es: seq<ArpEntry>, j: nat, k: nat, n: nat)
    requires j <= k < |rings| && rings[j] == []
    ensures Sweeps(rings, es, n).rings[k] == rings[k] && OfSocket(Sweeps(rings, es, n).out, k) == []
    decreases n
  {
    if n > 0 {
      NotServed(rings, es, j, j);
      NotServed(rings, es, j, k);
      SweepsStep(rings, es, n, k);
      EmptyRingStalls(Sweep(rings, es).rings, es, j, k, n - 1);
    }
  }

  /** A ring in front that runs empty within n sweeps costs a connection at least one of its n frames. */
  lemma {:induction false} ShortRingStalls<X>(rings: seq<seq<Parcel<X>>>, es: seq<ArpEntry>, j: nat, k: nat, n: nat)
    requires j < k < |rings| && !Lasts(rings[j], es, n)
    ensures |OfSocket(Sweeps(rings, es, n).out, k)| < n
    decreases n
  {
    var i := Reach(rings, 0);
    if i <= j {
      EmptyRingStalls(rings, es, i, k, n);
    } else {
      var next := Sweep(rings, es).rings;
      FrameOfSweep(rings, es, j);
      FrameOfSweep(rings, es, k);
      assert Resolved(rings[j][0], es) && next[j] == rings[j][1..];
      SweepsStep(rings, es, n, k);
      ShortRingStalls(next, es, j, k, n - 1);
    }
  }

  /** The connection at list position k gets its whole rotation if and only if no ring in front runs empty
      before: each has at least as many datagrams, or one whose destination is unresolved. */
  lemma RotatesIff<X>(rings: seq<seq<Parcel<X>>>, es: seq<ArpEntry>, k: nat)
    requires k < |rings| && forall j | 0 <= j <= k :: |rings[j]| <= CAPACITY
    ensures OfSocket(Sweeps(rings, es, |rings[k]|).out, k) == FramesFor(k, rings[k], es) <==>
              forall j | 0 <= j < k :: Lasts(rings[j], es, |rings[k]|)
  {
    var n := |rings[k]|;
    if forall j | 0 <= j < k :: Lasts(rings[j], es, n) {
      RotationPartitions(rings, es, k);
    } else {
      var j :| 0 <= j < k && !Lasts(rings[j], es, n);
      ShortRingStalls(rings, es, j, k, n);
    }
  }

  lemma {:induction false} FramesOfAppend<X>(k: nat, q: seq<Parcel<X>>, p: Parcel<X>, es: seq<ArpEntry>)
    ensures FramesFor(k, q + [p], es) == FramesFor(k, q, es) + [FrameFor(k, p, es)]
  {
    if q != [] {
      assert (q + [p])[1..] == q[1..] + [p];
      FramesOfAppend(k, q[1..], p, es);
    }
  }
}
