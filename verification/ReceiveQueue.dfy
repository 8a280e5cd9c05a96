/** `hz_receive_from` seen from the receive ring: one call as a function on the queue of
    datagrams, and what a whole drain delivers, in which order and in how many calls. */
module ReceiveQueue {
  import opened Bytes
  import opened UdpInfo
  import opened Rings

  /** What one call gives its caller: the bytes, and the sender's address and port. */
  datatype Chunk = Chunk(bytes: seq<byte>, srcIp: u32, srcPort: u16)

  /** The bytes a call with room for `len` takes from d. */
  function Taken(d: Datagram, len: nat): Chunk {
    Chunk(if len < |d.data| then d.data[..len] else d.data, d.srcIp, d.srcPort)
  }

  /** The rest of d after a short read. */
  function Remainder(d: Datagram, len: nat): Datagram
    requires len <= |d.data|
  {
    d.(data := d.data[len..])
  }

  /** A short read puts the remainder at the tail of the ring. */
  function AfterRead(q: seq<Datagram>, len: nat): seq<Datagram>
    requires q != []
  {
    if len < |q[0].data| then Enqueue(q[1..], Remainder(q[0], len)) else q[1..]
  }

  /** Several reads, each with a length of its own; a read of an empty ring would wait. */
  function AfterReads(q: seq<Datagram>, lens: seq<nat>): seq<Datagram>
    decreases |lens|
  {
    if lens == [] || q == [] then q else AfterReads(AfterRead(q, lens[0]), lens[1..])
  }

  /** Whatever the lengths, a datagram with k others in front of it is what read number k + 1 finds. */
  lemma {:induction false} ReadsReachPosition(q: seq<Datagram>, lens: seq<nat>)
    requires |lens| < |q|
    ensures AfterReads(q, lens) != [] && AfterReads(q, lens)[0] == q[|lens|]
    decreases |lens|
  {
    if lens != [] {
      var next := AfterRead(q, lens[0]);
      assert q[1..] <= next;
      ReadsReachPosition(next, lens[1..]);
      assert next[|lens| - 1] == q[1..][|lens| - 1];
    }
  }

  // ----- Termination of a drain -----

  function Load(q: seq<Datagram>): nat {
    if q == [] then 0 else |q[0].data| + 1 + Load(q[1..])
  }

  lemma {:induction false} LoadOfAppend(q: seq<Datagram>, d: Datagram)
    ensures Load(q + [d]) == Load(q) + |d.data| + 1
  {
    if q != [] {
      assert (q + [d])[1..] == q[1..] + [d];
      LoadOfAppend(q[1..], d);
    }
  }

  /** While the ring has not overflowed, a call brings the drain closer to its end unless it asks
      for no bytes of a datagram that has some; that call only rotates the queue. */
  lemma ReadProgressesIff(q: seq<Datagram>, len: nat)
    requires q != [] && |q| <= CAPACITY
    ensures Load(AfterRead(q, len)) < Load(q) <==> len > 0 || q[0].data == []
    ensures len == 0 && q[0].data != [] ==> AfterRead(q, len) == q[1..] + [q[0]]
  {
    LoadOfAppend(q[1..], Remainder(q[0], if len <= |q[0].data| then len else 0));
    assert q[0].data[0..] == q[0].data;
  }

  /** What repeated calls with the same `len` deliver until the ring is empty. */
  function Drain(q: seq<Datagram>, len: nat): seq<Chunk>
    requires len > 0 && |q| <= CAPACITY
    decreases Load(q)
  {
    if q == [] then []
    else
      ReadProgressesIff(q, len);
      [Taken(q[0], len)] + Drain(AfterRead(q, len), len)
  }

  // ----- How many calls -----

  /** The calls one datagram of n bytes costs. */
  function CallsFor(n: nat, len: nat): nat
    requires len > 0
  {
    if n <= len then 1 else 1 + CallsFor(n - len, len)
  }

  lemma {:induction false} CallsForIsCeiling(n: nat, len: nat)
    requires len > 0
    ensures CallsFor(n, len) == if n == 0 then 1 else (n + len - 1) / len
    decreases n
  {
    if n > len {
      CallsForIsCeiling(n - len, len);
      DivStep(n - len + len - 1, len);
    } else if n > 0 {
      DivOne(n + len - 1, len);
    }
  }

  lemma DivStep(x: nat, len: nat)
    requires len > 0
    ensures (x + len) / len == x / len + 1
  {
    var q, r := x / len, x % len;
    assert x + len == (q + 1) * len + r;
    DivUnique(x + len, len, q + 1, r);
  }

  lemma DivOne(x: nat, len: nat)
    requires len > 0 && len <= x < 2 * len
    ensures x / len == 1
  {
    DivUnique(x, len, 1, x - len);
  }

  lemma DivUnique(x: nat, len: nat, q: nat, r: nat)
    requires len > 0 && x == q * len + r && r < len
    ensures x / len == q
  {
    var k := x / len - q;
    assert x == (x / len) * len + x % len;
    assert k * len == r - x % len;
    if k != 0 {
      MultipleIsFar(k, len);
      assert false;
    }
  }

  lemma MultipleIsFar(k: int, len: nat)
    requires k != 0
    ensures k * len >= len || k * len + len <= 0
  {
  }

  function TotalCalls(q: seq<Datagram>, len: nat): nat
    requires len > 0
  {
    if q == [] then 0 else CallsFor(|q[0].data|, len) + TotalCalls(q[1..], len)
  }

  lemma {:induction false} TotalCallsOfAppend(q: seq<Datagram>, d: Datagram, len: nat)
    requires len > 0
    ensures TotalCalls(q + [d], len) == TotalCalls(q, len) + CallsFor(|d.data|, len)
  {
    if q != [] {
      assert (q + [d])[1..] == q[1..] + [d];
      TotalCallsOfAppend(q[1..], d, len);
    }
  }

  /** A drain takes exactly max(1, ceil(n / len)) calls for every datagram of n bytes; an empty
      datagram costs one. */
  lemma {:induction false} DrainCallCount(q: seq<Datagram>, len: nat)
    requires len > 0 && |q| <= CAPACITY
    ensures |Drain(q, len)| == TotalCalls(q, len)
    decreases Load(q)
  {
    if q != [] {
      ReadProgressesIff(q, len);
      DrainCallCount(AfterRead(q, len), len);
      if len < |q[0].data| {
        TotalCallsOfAppend(q[1..], Remainder(q[0], len), len);
      }
    }
  }

  // ----- In which order -----

  /** Datagram d has a chunk starting at `off`. An empty datagram has one, at zero. */
  predicate HasChunk(d: Datagram, off: nat) {
    off == 0 || off < |d.data|
  }

  function ChunkAt(d: Datagram, off: nat, len: nat): Chunk
    requires HasChunk(d, off)
  {
    Chunk(if off + len < |d.data| then d.data[off..off + len] else d.data[off..], d.srcIp, d.srcPort)
  }

  ghost predicate AnyChunk(q: seq<Datagram>, off: nat) {
    exists k | 0 <= k < |q| :: HasChunk(q[k], off)
  }

  /** The bytes of the queue that lie beyond `off`, at most: it falls from round to round. */
  ghost function Ahead(q: seq<Datagram>, off: nat): nat {
    if off > Load(q) then 0 else Load(q) - off + 1
  }

  /** The pairs (off, k), k being a position in q, in lexicographic order from (off, i) on. Round
      after round every datagram long enough is visited once, in queue order. */
  ghost function Schedule(q: seq<Datagram>, len: nat, off: nat, i: nat): seq<(nat, nat)>
    requires len > 0 && i <= |q|
    decreases Ahead(q, off), |q| - i
  {
    if i < |q| then
      (if HasChunk(q[i], off) then [(off, i)] else []) + Schedule(q, len, off, i + 1)
    else if AnyChunk(q, off + len) then
      ChunkIsAhead(q, off + len);
      Schedule(q, len, off + len, 0)
    else []
  }

  lemma ChunkIsAhead(q: seq<Datagram>, off: nat)
    requires AnyChunk(q, off)
    ensures off <= Load(q)
  {
    var k :| 0 <= k < |q| && HasChunk(q[k], off);
    LoadBounds(q, k);
  }

  lemma {:induction false} LoadBounds(q: seq<Datagram>, k: nat)
    requires k < |q|
    ensures |q[k].data| < Load(q)
  {
    if k > 0 {
      LoadBounds(q[1..], k - 1);
    }
  }

  ghost predicate InBounds(q: seq<Datagram>, order: seq<(nat, nat)>) {
    forall n | 0 <= n < |order| :: order[n].1 < |q| && HasChunk(q[order[n].1], order[n].0)
  }

  /** The chunks the pairs of `order` stand for. */
  ghost function Deliver(q: seq<Datagram>, len: nat, order: seq<(nat, nat)>): seq<Chunk>
    requires InBounds(q, order)
  {
    seq(|order|, n requires 0 <= n < |order| => ChunkAt(q[order[n].1], order[n].0, len))
  }

  /** Lexicographic order on (off, k). */
  predicate Earlier(a: (nat, nat), b: (nat, nat)) {
    a.0 < b.0 || (a.0 == b.0 && a.1 < b.1)
  }

  ghost predicate Ordered(order: seq<(nat, nat)>) {
    forall m, n | 0 <= m < n < |order| :: Earlier(order[m], order[n])
  }

  ghost predicate NoneBefore(order: seq<(nat, nat)>, off: nat, i: nat) {
    forall n | 0 <= n < |order| :: order[n] == (off, i) || Earlier((off, i), order[n])
  }

  /** Pairs that each have a chunk, none before (off, i), and strictly ascending. */
  ghost predicate OrderedFrom(q: seq<Datagram>, order: seq<(nat, nat)>, off: nat, i: nat) {
    InBounds(q, order) && NoneBefore(order, off, i) && Ordered(order)
  }

  lemma OrderedCons(q: seq<Datagram>, off: nat, i: nat, rest: seq<(nat, nat)>)
    requires i < |q| && HasChunk(q[i], off) && OrderedFrom(q, rest, off, i + 1)
    ensures OrderedFrom(q, [(off, i)] + rest, off, i)
  {
  }

  lemma OrderedFromEarlier(q: seq<Datagram>, order: seq<(nat, nat)>, off: nat, i: nat, off': nat, i': nat)
    requires OrderedFrom(q, order, off', i') && Earlier((off, i), (off', i'))
    ensures OrderedFrom(q, order, off, i)
  {
  }

  /** Every pair of the schedule has a chunk there, none is listed twice, and later pairs are
      later in the order. */
  lemma {:induction false} ScheduleIsOrdered(q: seq<Datagram>, len: nat, off: nat, i: nat)
    requires len > 0 && i <= |q|
    ensures OrderedFrom(q, Schedule(q, len, off, i), off, i)
    decreases Ahead(q, off), |q| - i
  {
    if i < |q| {
      ScheduleIsOrdered(q, len, off, i + 1);
      ScheduleGrows(q, len, off, i);
    } else if AnyChunk(q, off + len) {
      ChunkIsAhead(q, off + len);
      ScheduleIsOrdered(q, len, off + len, 0);
      OrderedFromEarlier(q, Schedule(q, len, off + len, 0), off, i, off + len, 0);
    }
  }

  lemma ScheduleGrows(q: seq<Datagram>, len: nat, off: nat, i: nat)
    requires len > 0 && i < |q| && OrderedFrom(q, Schedule(q, len, off, i + 1), off, i + 1)
    ensures OrderedFrom(q, Schedule(q, len, off, i), off, i)
  {
    var rest := Schedule(q, len, off, i + 1);
    if HasChunk(q[i], off) {
      OrderedCons(q, off, i, rest);
    } else {
      OrderedFromEarlier(q, rest, off, i, off, i + 1);
      assert [] + rest == rest;
    }
  }

  /** Every chunk of every datagram is in the schedule: the offsets are the multiples of `len`. */
  lemma {:induction false} ScheduleIsComplete(q: seq<Datagram>, len: nat, off: nat, i: nat, ahead: nat, k: nat)
    requires len > 0 && i <= |q| && k < |q|
    requires ahead == 0 ==> i <= k
    requires HasChunk(q[k], off + ahead * len)
    ensures (off + ahead * len, k) in Schedule(q, len, off, i)
    decreases ahead, |q| - i
  {
    if i < |q| {
      if !(ahead == 0 && i == k) {
        ScheduleIsComplete(q, len, off, i + 1, ahead, k);
      }
    } else {
      OneRoundOn(off, ahead, len);
      assert HasChunk(q[k], off + len);
      ScheduleIsComplete(q, len, off + len, 0, ahead - 1, k);
    }
  }

  ghost predicate IsMultiple(x: nat, len: nat) {
    exists j: nat :: x == j * len
  }

  lemma {:induction false} ScheduleOffsets(q: seq<Datagram>, len: nat, off: nat, i: nat)
    requires len > 0 && i <= |q| && IsMultiple(off, len)
    ensures forall p | p in Schedule(q, len, off, i) :: IsMultiple(p.0, len)
    decreases Ahead(q, off), |q| - i
  {
    if i < |q| {
      ScheduleOffsets(q, len, off, i + 1);
    } else if AnyChunk(q, off + len) {
      ChunkIsAhead(q, off + len);
      var j: nat :| off == j * len;
      assert off + len == (j + 1) * len;
      ScheduleOffsets(q, len, off + len, 0);
    }
  }

  lemma OneRoundOn(off: nat, ahead: nat, len: nat)
    requires ahead > 0
    ensures off + ahead * len == (off + len) + (ahead - 1) * len >= off + len
  {
    assert (ahead - 1) * len >= 0;
  }

  // The queue in the middle of a round: the datagrams not yet served in it, then what is left of
  // those already served.

  function Left(d: Datagram, off: nat): seq<Datagram> {
    if HasChunk(d, off) then [Remainder(d, off)] else []
  }

  function Unserved(q: seq<Datagram>, off: nat, i: nat): (r: seq<Datagram>)
    requires i <= |q|
    ensures |r| <= |q| - i
    decreases |q| - i
  {
    if i == |q| then [] else Left(q[i], off) + Unserved(q, off, i + 1)
  }

  function Served(q: seq<Datagram>, off: nat, i: nat): (r: seq<Datagram>)
    requires i <= |q|
    ensures |r| <= i
  {
    if i == 0 then [] else Served(q, off, i - 1) + Left(q[i - 1], off)
  }

  lemma {:induction false} ServedThenUnserved(q: seq<Datagram>, off: nat, i: nat)
    requires i <= |q|
    ensures Served(q, off, i) + Unserved(q, off, i) == Unserved(q, off, 0)
  {
    if i > 0 {
      ServedThenUnserved(q, off, i - 1);
    }
  }

  lemma {:induction false} UnservedIsEmptyIff(q: seq<Datagram>, off: nat, i: nat)
    requires i <= |q|
    ensures Unserved(q, off, i) == [] <==> forall k | i <= k < |q| :: !HasChunk(q[k], off)
    decreases |q| - i
  {
    if i < |q| {
      UnservedIsEmptyIff(q, off, i + 1);
    }
  }

  lemma {:induction false} UnservedFromZero(q: seq<Datagram>, i: nat)
    requires i <= |q|
    ensures Unserved(q, 0, i) == q[i..]
    decreases |q| - i
  {
    if i < |q| {
      UnservedFromZero(q, i + 1);
      assert q[i].data[0..] == q[i].data;
    }
  }

  /** One call on a queue whose front is what is left of d: it takes the next chunk of d, and what
      is then left of d goes to the tail. */
  lemma ServeOne(d: Datagram, off: nat, len: nat, others: seq<Datagram>)
    requires len > 0 && HasChunk(d, off) && |others| < CAPACITY
    ensures var now := Left(d, off) + others;
            && now != []
            && Taken(now[0], len) == ChunkAt(d, off, len)
            && AfterRead(now, len) == others + Left(d, off + len)
  {
    var now := Left(d, off) + others;
    assert now[1..] == others;
    if off + len < |d.data| {
      assert d.data[off..][len..] == d.data[off + len..];
      assert d.data[off..][..len] == d.data[off..off + len];
    }
  }

  lemma DrainOne(q: seq<Datagram>, len: nat)
    requires len > 0 && 0 < |q| <= CAPACITY
    ensures |AfterRead(q, len)| <= CAPACITY
    ensures Drain(q, len) == [Taken(q[0], len)] + Drain(AfterRead(q, len), len)
  {
  }

  ghost function Midway(q: seq<Datagram>, len: nat, off: nat, i: nat): seq<Datagram>
    requires i <= |q|
  {
    Unserved(q, off, i) + Served(q, off + len, i)
  }

  lemma MidwaySplit(q: seq<Datagram>, len: nat, off: nat, i: nat) returns (others: seq<Datagram>)
    requires i < |q|
    ensures |others| < |q|
    ensures Midway(q, len, off, i) == Left(q[i], off) + others
    ensures Midway(q, len, off, i + 1) == others + Left(q[i], off + len)
  {
    others := Unserved(q, off, i + 1) + Served(q, off + len, i);
    assert Unserved(q, off, i) == Left(q[i], off) + Unserved(q, off, i + 1);
    assert Served(q, off + len, i + 1) == Served(q, off + len, i) + Left(q[i], off + len);
  }

  lemma MidwayStep(q: seq<Datagram>, len: nat, off: nat, i: nat)
    requires len > 0 && i < |q| <= CAPACITY
    ensures Drain(Midway(q, len, off, i), len) ==
            (if HasChunk(q[i], off) then [ChunkAt(q[i], off, len)] else []) + Drain(Midway(q, len, off, i + 1), len)
  {
    var now, next := Midway(q, len, off, i), Midway(q, len, off, i + 1);
    var others := MidwaySplit(q, len, off, i);
    if HasChunk(q[i], off) {
      ServeOne(q[i], off, len, others);
      DrainOne(now, len);
    } else {
      assert now == others == next;
    }
  }

  ghost predicate DrainFollows(q: seq<Datagram>, len: nat, off: nat, i: nat)
    requires len > 0 && i <= |q| <= CAPACITY
  {
    && InBounds(q, Schedule(q, len, off, i))
    && Drain(Midway(q, len, off, i), len) == Deliver(q, len, Schedule(q, len, off, i))
  }

  /** From the middle of any round on, the drain delivers what the schedule says. */
  lemma {:induction false} DrainFollowsSchedule(q: seq<Datagram>, len: nat, off: nat, i: nat)
    requires len > 0 && i <= |q| <= CAPACITY
    ensures DrainFollows(q, len, off, i)
    decreases Ahead(q, off), |q| - i
  {
    if i < |q| {
      DrainFollowsSchedule(q, len, off, i + 1);
      FollowsWithinRound(q, len, off, i);
    } else if AnyChunk(q, off + len) {
      ChunkIsAhead(q, off + len);
      DrainFollowsSchedule(q, len, off + len, 0);
      FollowsAcrossRounds(q, len, off);
    } else {
      FollowsAcrossRounds(q, len, off);
    }
  }

  lemma FollowsWithinRound(q: seq<Datagram>, len: nat, off: nat, i: nat)
    requires len > 0 && i < |q| <= CAPACITY && DrainFollows(q, len, off, i + 1)
    ensures DrainFollows(q, len, off, i)
  {
    var rest := Schedule(q, len, off, i + 1);
    MidwayStep(q, len, off, i);
    if HasChunk(q[i], off) {
      DeliverCons(q, len, (off, i), rest);
      assert Schedule(q, len, off, i) == [(off, i)] + rest;
    } else {
      assert [] + rest == rest;
      assert Schedule(q, len, off, i) == rest;
    }
  }

  lemma FollowsAcrossRounds(q: seq<Datagram>, len: nat, off: nat)
    requires len > 0 && |q| <= CAPACITY
    requires AnyChunk(q, off + len) ==> DrainFollows(q, len, off + len, 0)
    ensures DrainFollows(q, len, off, |q|)
  {
    NextRound(q, len, off);
    assert Schedule(q, len, off, |q|) == if AnyChunk(q, off + len) then Schedule(q, len, off + len, 0) else [];
  }

  lemma NextRound(q: seq<Datagram>, len: nat, off: nat)
    requires len > 0
    ensures Midway(q, len, off, |q|) == Midway(q, len, off + len, 0)
    ensures AnyChunk(q, off + len) <==> Midway(q, len, off + len, 0) != []
  {
    ServedThenUnserved(q, off + len, |q|);
    UnservedIsEmptyIff(q, off + len, 0);
  }

  lemma DeliverCons(q: seq<Datagram>, len: nat, p: (nat, nat), order: seq<(nat, nat)>)
    requires p.1 < |q| && HasChunk(q[p.1], p.0) && InBounds(q, order)
    ensures InBounds(q, [p] + order)
    ensures Deliver(q, len, [p] + order) == [ChunkAt(q[p.1], p.0, len)] + Deliver(q, len, order)
  {
  }

  /** The order of a drain: strictly ascending pairs, each with a chunk, at multiples of `len`. */
  ghost predicate IsRoundRobin(q: seq<Datagram>, len: nat, order: seq<(nat, nat)>) {
    && InBounds(q, order)
    && Ordered(order)
    && (forall p | p in order :: IsMultiple(p.0, len))
    && (forall j: nat, k: nat | k < |q| && HasChunk(q[k], j * len) :: (j * len, k) in order)
  }

  lemma ScheduleIsRoundRobin(q: seq<Datagram>, len: nat)
    requires len > 0
    ensures IsRoundRobin(q, len, Schedule(q, len, 0, 0))
  {
    ScheduleIsOrdered(q, len, 0, 0);
    assert 0 == 0 * len;
    ScheduleOffsets(q, len, 0, 0);
    forall j: nat, k: nat | k < |q| && HasChunk(q[k], j * len)
      ensures (j * len, k) in Schedule(q, len, 0, 0)
    {
      ScheduleIsComplete(q, len, 0, 0, j, k);
    }
  }

  /** Draining a ring with a fixed `len` and no arrivals delivers the chunks of all datagrams in
      lexicographic order of (chunk offset, queue position): the j-th chunk of every datagram
      long enough to have one comes before any datagram's next chunk. */
  lemma RoundRobinOrder(q: seq<Datagram>, len: nat) returns (order: seq<(nat, nat)>)
    requires len > 0 && |q| <= CAPACITY
    ensures IsRoundRobin(q, len, order)
    ensures Drain(q, len) == Deliver(q, len, order)
  {
    order := Schedule(q, len, 0, 0);
    ScheduleIsRoundRobin(q, len);
    DrainFollowsSchedule(q, len, 0, 0);
    UnservedFromZero(q, 0);
    assert Midway(q, len, 0, 0) == q;
  }
}
