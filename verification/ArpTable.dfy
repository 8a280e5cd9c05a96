/** The ARP list of `src/arp_table.c` and the branches of `src/arp.c` that change it,
    refining a map from address to link-layer address. */
module ArpTable {
  import opened Bytes
  import opened FrameHeaders
  import opened Lists

  datatype Option<T> = None | Some(value: T)

  const NODE_TYPE_DYNAMIC: byte := 0
  const ARP_OP_REQUEST: u16 := 1
  const ARP_OP_REPLY: u16 := 2

  datatype ArpEntry = ArpEntry(ip: u32, mac: Mac, typ: byte)

  /** The fields of an ARP packet the code reads. */
  datatype ArpPacket = ArpPacket(opcode: u16, sha: Mac, sip: u32, tip: u32)

  /** An ARP frame handed to the output ring; how its fields are laid out is not modelled. */
  datatype ArpFrame = ArpFrame(opcode: u16, dstMac: Mac, sip: u32, dip: u32)

  // ----- The list as a value -----

  function Lookup(es: seq<ArpEntry>, ip: u32): Option<Mac> {
    if es == [] then None
    else if es[0].ip == ip then Some(es[0].mac)
    else Lookup(es[1..], ip)
  }

  /** The `mac` of the first entry for ip overwritten. */
  function Overwrite(es: seq<ArpEntry>, ip: u32, mac: Mac): seq<ArpEntry> {
    if es == [] then []
    else if es[0].ip == ip then [es[0].(mac := mac)] + es[1..]
    else [es[0]] + Overwrite(es[1..], ip, mac)
  }

  function ReplySpec(es: seq<ArpEntry>, ip: u32, mac: Mac): seq<ArpEntry> {
    if Lookup(es, ip) == None then [ArpEntry(ip, mac, NODE_TYPE_DYNAMIC)] + es else es
  }

  /** `hz_update_arp_table` as it is written: the insertion macro evaluates the allocating
      call it is given each time it names its node, so the head ends up at a node of
      its own, with nothing behind it. */
  function UpdateSpec(es: seq<ArpEntry>, ip: u32, mac: Mac): seq<ArpEntry> {
    if Lookup(es, ip) == None then [ArpEntry(ip, mac, NODE_TYPE_DYNAMIC)] else Overwrite(es, ip, mac)
  }

  /** The same with the node allocated once. */
  function UpdateWithOneNode(es: seq<ArpEntry>, ip: u32, mac: Mac): seq<ArpEntry> {
    if Lookup(es, ip) == None then [ArpEntry(ip, mac, NODE_TYPE_DYNAMIC)] + es else Overwrite(es, ip, mac)
  }

  /** Only a packet addressed to this host counts: a request is answered, a reply recorded. */
  function ArpSpec(es: seq<ArpEntry>, localIp: u32, p: ArpPacket): (seq<ArpEntry>, Option<ArpFrame>) {
    if p.tip != localIp then (es, None)
    else if p.opcode == ARP_OP_REQUEST then (es, Some(ArpFrame(ARP_OP_REPLY, p.sha, p.tip, p.sip)))
    else if p.opcode == ARP_OP_REPLY then (ReplySpec(es, p.sip, p.sha), None)
    else (es, None)
  }

  /** A frame goes out exactly for a request to this host: a reply to the asker's link-layer address, from
      the address asked for to the asker. A reply to this host from an unbound sender is the one packet
      that changes the list: a dynamic entry for the sender goes in front. */
  lemma ArpAnswers(es: seq<ArpEntry>, localIp: u32, p: ArpPacket)
    ensures var (now, out) := ArpSpec(es, localIp, p);
            && (out.Some? <==> p.tip == localIp && p.opcode == 1)
            && (out.Some? ==>
                  && out.value.opcode == 2 && out.value.dstMac == p.sha
                  && out.value.sip == localIp && out.value.dip == p.sip)
            && (now != es <==> p.tip == localIp && p.opcode == 2 && Lookup(es, p.sip) == None)
            && (now != es ==> now == [ArpEntry(p.sip, p.sha, 0)] + es)
  {
    assert forall e: ArpEntry :: |[e] + es| != |es|;
  }

  /** How many entries an ARP packet adds: one for a reply to this host from an unbound sender. */
  function NewBindings(es: seq<ArpEntry>, localIp: u32, p: ArpPacket): nat {
    if p.tip == localIp && p.opcode == ARP_OP_REPLY && Lookup(es, p.sip) == None then 1 else 0
  }

  // ----- The code -----

  ghost function Entries(s: seq<Node<ArpEntry>>): (es: seq<ArpEntry>)
    reads s
    ensures |es| == |s|
    ensures forall i | 0 <= i < |s| :: es[i] == s[i].value
  {
    seq(|s|, i requires 0 <= i < |s| reads s => s[i].value)
  }

  /** What the loop that stopped at position k has found. */
  lemma {:induction false} StoppedAt(es: seq<ArpEntry>, ip: u32, mac: Mac, k: nat)
    requires k <= |es| && forall j | 0 <= j < k :: es[j].ip != ip
    requires k < |es| ==> es[k].ip == ip
    ensures Lookup(es, ip) == if k == |es| then None else Some(es[k].mac)
    ensures k < |es| ==> Overwrite(es, ip, mac) == es[k := es[k].(mac := mac)]
  {
    if k > 0 {
      StoppedAt(es[1..], ip, mac, k - 1);
    }
  }

  /** The loop shared by `hz_get_mac_by_ip` and `hz_update_arp_table`. */
  method Find(head: Node?<ArpEntry>, ip: u32, ghost s: seq<Node<ArpEntry>>) returns (node: Node?<ArpEntry>, ghost k: nat)
    requires OneWay(head, s)
    ensures k <= |s| && (forall j | 0 <= j < k :: s[j].value.ip != ip)
    ensures if node == null then k == |s| else k < |s| && node == s[k] && node.value.ip == ip
  {
    OneWayIsChain(head, s);
    node, k := head, 0;
    while node != null
      invariant 0 <= k <= |s| && node == After(s, k - 1)
      invariant forall j | 0 <= j < k :: s[j].value.ip != ip
      decreases |s| - k
    {
      if node.value.ip == ip {
        return;
      }
      assert node == s[k] && s[k].next == After(s, k);
      node, k := node.next, k + 1;
    }
  }

  /** `hz_create_arp_table_node` and the insertion of the node it makes. */
  method InsertEntry(list: Node?<ArpEntry>, e: ArpEntry, ghost s: seq<Node<ArpEntry>>)
    returns (head: Node?<ArpEntry>, node: Node<ArpEntry>)
    requires OneWay(list, s)
    ensures fresh(node) && OneWay(head, [node] + s)
    ensures Entries([node] + s) == [e] + old(Entries(s))
  {
    node := new Node(e);
    head := InsertOneWay(list, node, s);
  }

  class Table {
    var head: Node?<ArpEntry>
    var count: int
    ghost var chain: seq<Node<ArpEntry>>

    ghost predicate Valid()
      reads this, chain
    {
      OneWay(head, chain)
    }

    ghost function Value(): seq<ArpEntry>
      reads this, chain
    {
      Entries(chain)
    }

    constructor ()
      ensures Valid() && Value() == [] && count == 0
    {
      head, count, chain := null, 0, [];
    }

    /** `hz_get_mac_by_ip` */
    method GetMacByIp(ip: u32) returns (mac: Option<Mac>)
      requires Valid()
      ensures mac == Lookup(Value(), ip)
    {
      var node, k := Find(head, ip, chain);
      StoppedAt(Value(), ip, [0, 0, 0, 0, 0, 0], k);
      mac := if node == null then None else Some(node.value.mac);
    }

    /** The reply branch of `hz_process_with_arp`. */
    method RecordReply(sip: u32, sha: Mac)
      requires Valid()
      modifies this
      ensures Valid() && Value() == ReplySpec(old(Value()), sip, sha)
      ensures count == old(count) + if Lookup(old(Value()), sip) == None then 1 else 0
    {
      var mac := GetMacByIp(sip);
      if mac == None {
        var node;
        head, node := InsertEntry(head, ArpEntry(sip, sha, NODE_TYPE_DYNAMIC), chain);
        chain := [node] + chain;
        count := count + 1;
      }
    }

    /** `hz_process_with_arp` */
    method ProcessWithArp(localIp: u32, p: ArpPacket) returns (out: Option<ArpFrame>)
      requires Valid()
      modifies this
      ensures Valid() && (Value(), out) == ArpSpec(old(Value()), localIp, p)
      ensures count == old(count) + NewBindings(old(Value()), localIp, p)
    {
      out := None;
      if p.tip == localIp {
        if p.opcode == ARP_OP_REQUEST {
          out := Some(ArpFrame(ARP_OP_REPLY, p.sha, p.tip, p.sip));
        } else if p.opcode == ARP_OP_REPLY {
          RecordReply(p.sip, p.sha);
        }
      }
    }

    /** `hz_update_arp_table` */
    method Update(ip: u32, mac: Mac)
      requires Valid()
      modifies this, chain
      ensures Valid() && Value() == UpdateSpec(old(Value()), ip, mac)
      ensures count == old(count)
    {
      var node, k := Find(head, ip, chain);
      StoppedAt(Value(), ip, mac, k);
      if node != null {
        SetMac(node, mac, k);
        return;
      }
      var last := InsertAsWritten(head, ip, mac);
      head := last;
      chain := [last];
    }

    method SetMac(node: Node<ArpEntry>, mac: Mac, ghost k: nat)
      requires Valid() && k < |chain| && chain[k] == node
      modifies node
      ensures Valid() && Value() == old(Value())[k := old(Value())[k].(mac := mac)]
    {
      ghost var was := Value();
      OneWayIsChain(head, chain);
      node.value := node.value.(mac := mac);
      OneWayIsChain(head, chain);
      assert Value() == was[k := was[k].(mac := mac)];
    }
  }

  /** `INSERT_NODE_HEAD` with `hz_create_arp_table_node(...)` for its node: each statement of the
      macro makes a node of its own. The evaluation in the branch taken when the list head equals a
      node just allocated never happens. */
  method InsertAsWritten(list: Node?<ArpEntry>, ip: u32, mac: Mac) returns (head: Node<ArpEntry>)
    ensures fresh(head) && OneWay(head, [head]) && head.value == ArpEntry(ip, mac, NODE_TYPE_DYNAMIC)
  {
    var first := new Node(ArpEntry(ip, mac, NODE_TYPE_DYNAMIC));
    first.prev := null;
    var second := new Node(ArpEntry(ip, mac, NODE_TYPE_DYNAMIC));
    second.next := list;
    var compared := new Node(ArpEntry(ip, mac, NODE_TYPE_DYNAMIC));
    head := new Node(ArpEntry(ip, mac, NODE_TYPE_DYNAMIC));
  }

  // ----- Refinement of a map over whole runs -----

  ghost function AsMap(es: seq<ArpEntry>): map<u32, Mac> {
    if es == [] then map[] else AsMap(es[1..])[es[0].ip := es[0].mac]
  }

  predicate DistinctIps(es: seq<ArpEntry>) {
    forall i, j | 0 <= i < j < |es| :: es[i].ip != es[j].ip
  }

  lemma {:induction false} LookupIsMap(es: seq<ArpEntry>, ip: u32)
    ensures Lookup(es, ip) == if ip in AsMap(es) then Some(AsMap(es)[ip]) else None
  {
    if es != [] {
      LookupIsMap(es[1..], ip);
    }
  }

  lemma {:induction false} OverwriteIsMapUpdate(es: seq<ArpEntry>, ip: u32, mac: Mac)
    requires Lookup(es, ip) != None
    ensures AsMap(Overwrite(es, ip, mac)) == AsMap(es)[ip := mac]
    ensures |Overwrite(es, ip, mac)| == |es|
    ensures forall i | 0 <= i < |es| :: Overwrite(es, ip, mac)[i].ip == es[i].ip && Overwrite(es, ip, mac)[i].typ == es[i].typ
  {
    if es[0].ip != ip {
      OverwriteIsMapUpdate(es[1..], ip, mac);
      LookupIsMap(es, ip);
    }
  }

  datatype Op = OpArp(p: ArpPacket) | OpReverseReply(ip: u32, mac: Mac)

  function Step(es: seq<ArpEntry>, localIp: u32, op: Op): seq<ArpEntry> {
    match op
    case OpArp(p) => ArpSpec(es, localIp, p).0
    case OpReverseReply(ip, mac) => UpdateSpec(es, ip, mac)
  }

  /** The abstract table: a reply binds an address only if it is unbound, an update of a bound
      address rebinds it, and an update of an unbound one forgets all the others. */
  ghost function StepMap(m: map<u32, Mac>, localIp: u32, op: Op): map<u32, Mac> {
    match op
    case OpArp(p) =>
      if p.tip == localIp && p.opcode == ARP_OP_REPLY && p.sip !in m then m[p.sip := p.sha] else m
    case OpReverseReply(ip, mac) =>
      if ip in m then m[ip := mac] else map[ip := mac]
  }

  function Run(es: seq<ArpEntry>, localIp: u32, ops: seq<Op>): seq<ArpEntry>
    decreases |ops|
  {
    if ops == [] then es else Run(Step(es, localIp, ops[0]), localIp, ops[1..])
  }

  ghost function RunMap(m: map<u32, Mac>, localIp: u32, ops: seq<Op>): map<u32, Mac>
    decreases |ops|
  {
    if ops == [] then m else RunMap(StepMap(m, localIp, ops[0]), localIp, ops[1..])
  }

  lemma StepRefinesMap(es: seq<ArpEntry>, localIp: u32, op: Op)
    requires DistinctIps(es)
    ensures DistinctIps(Step(es, localIp, op))
    ensures AsMap(Step(es, localIp, op)) == StepMap(AsMap(es), localIp, op)
  {
    match op {
      case OpArp(p) =>
        LookupIsMap(es, p.sip);
        forall i | 0 <= i < |es| && Lookup(es, p.sip) == None
          ensures es[i].ip != p.sip
        {
          BoundIps(es, i);
        }
      case OpReverseReply(ip, mac) =>
        LookupIsMap(es, ip);
        if Lookup(es, ip) != None {
          OverwriteIsMapUpdate(es, ip, mac);
        }
    }
  }

  lemma {:induction false} BoundIps(es: seq<ArpEntry>, i: nat)
    requires i < |es|
    ensures Lookup(es, es[i].ip) != None
  {
    if i > 0 {
      BoundIps(es[1..], i - 1);
    }
  }

  lemma {:induction false} RunRefinesMap(es: seq<ArpEntry>, localIp: u32, ops: seq<Op>)
    requires DistinctIps(es)
    ensures DistinctIps(Run(es, localIp, ops))
    ensures AsMap(Run(es, localIp, ops)) == RunMap(AsMap(es), localIp, ops)
    decreases |ops|
  {
    if ops != [] {
      StepRefinesMap(es, localIp, ops[0]);
      RunRefinesMap(Step(es, localIp, ops[0]), localIp, ops[1..]);
    }
  }

  /** After any run from the empty table, lookup answers exactly what the map holds. */
  lemma LookupAfterAnyRun(localIp: u32, ops: seq<Op>, ip: u32)
    ensures var m := RunMap(map[], localIp, ops);
            Lookup(Run([], localIp, ops), ip) == if ip in m then Some(m[ip]) else None
  {
    RunRefinesMap([], localIp, ops);
    LookupIsMap(Run([], localIp, ops), ip);
  }

  predicate SameBinding(a: seq<ArpEntry>, b: seq<ArpEntry>, ip: u32) {
    Lookup(a, ip) == Lookup(b, ip)
  }

  /** An update leaves every other binding alone if and only if the address was already
      bound or no other one was. */
  lemma UpdateKeepsOthersIff(es: seq<ArpEntry>, ip: u32, mac: Mac)
    ensures (forall other | other != ip :: SameBinding(UpdateSpec(es, ip, mac), es, other)) <==>
              (Lookup(es, ip) != None || es == [])
    ensures Lookup(UpdateSpec(es, ip, mac), ip) == Some(mac)
    ensures Lookup(es, ip) == None ==> UpdateSpec(es, ip, mac) == [ArpEntry(ip, mac, 0)]
    ensures UpdateSpec(es, ip, mac) == UpdateWithOneNode(es, ip, mac) <==> Lookup(es, ip) != None || es == []
  {
    if Lookup(es, ip) != None {
      OverwriteIsMapUpdate(es, ip, mac);
      LookupIsMap(UpdateSpec(es, ip, mac), ip);
      forall other | other != ip
        ensures SameBinding(UpdateSpec(es, ip, mac), es, other)
      {
        LookupIsMap(UpdateSpec(es, ip, mac), other);
        LookupIsMap(es, other);
      }
    } else if es != [] {
      var other := es[0].ip;
      assert Lookup(es, other) != None && Lookup(UpdateSpec(es, ip, mac), other) == None;
      assert other != ip && !SameBinding(UpdateSpec(es, ip, mac), es, other);
      assert |UpdateWithOneNode(es, ip, mac)| == |es| + 1 > |UpdateSpec(es, ip, mac)|;
    } else {
      assert UpdateWithOneNode(es, ip, mac) == UpdateSpec(es, ip, mac);
    }
  }

  /** Two bound addresses, one reverse-ARP reply for a third: both are gone. */
  lemma UpdateForgets(a: Mac, b: Mac, c: Mac)
    ensures var es := [ArpEntry(1, a, NODE_TYPE_DYNAMIC), ArpEntry(2, b, NODE_TYPE_DYNAMIC)];
            && Lookup(es, 1) == Some(a) && Lookup(es, 2) == Some(b)
            && Lookup(UpdateSpec(es, 3, c), 1) == None && Lookup(UpdateSpec(es, 3, c), 2) == None
  {
    var es := [ArpEntry(1, a, NODE_TYPE_DYNAMIC), ArpEntry(2, b, NODE_TYPE_DYNAMIC)];
    assert es[1..] == [ArpEntry(2, b, NODE_TYPE_DYNAMIC)];
    assert Lookup(es[1..], 2) == Some(b) && Lookup(es[1..], 3) == None;
  }

  /** With ARP packets alone no binding is ever changed or removed, so the first reply for an
      address decides it for good. */
  lemma {:induction false} RepliesNeverRebind(es: seq<ArpEntry>, localIp: u32, ops: seq<Op>, ip: u32)
    requires forall op | op in ops :: op.OpArp?
    requires Lookup(es, ip) != None
    ensures Lookup(Run(es, localIp, ops), ip) == Lookup(es, ip)
    decreases |ops|
  {
    if ops != [] {
      var next := Step(es, localIp, ops[0]);
      assert Lookup(next, ip) == Lookup(es, ip) by {
        if next != es {
          assert next[1..] == es && next[0].ip == ops[0].p.sip;
        }
      }
      RepliesNeverRebind(next, localIp, ops[1..], ip);
    }
  }

  /** What a caller can check before an update: its address is bound, or nothing is. */
  predicate UpdateSafe(es: seq<ArpEntry>, op: Op) {
    op.OpReverseReply? ==> Lookup(es, op.ip) != None || es == []
  }

  /** A step unbinds no address if and only if it is not an update of an unbound address that meets
      a table with entries. */
  lemma StepForgetsNothingIff(es: seq<ArpEntry>, localIp: u32, op: Op)
    ensures (forall ip | Lookup(es, ip) != None :: Lookup(Step(es, localIp, op), ip) != None) <==> UpdateSafe(es, op)
  {
    match op {
      case OpArp(p) =>
        forall ip | Lookup(es, ip) != None
          ensures Lookup(Step(es, localIp, op), ip) != None
        {
          RepliesNeverRebind(es, localIp, [op], ip);
          assert Run(Step(es, localIp, op), localIp, [op][1..]) == Step(es, localIp, op);
        }
      case OpReverseReply(ip, mac) =>
        UpdateKeepsOthersIff(es, ip, mac);
        if !UpdateSafe(es, op) {
          assert Lookup(es, es[0].ip) != None && Lookup(Step(es, localIp, op), es[0].ip) == None;
        } else {
          forall other | Lookup(es, other) != None
            ensures Lookup(Step(es, localIp, op), other) != None
          {
            assert other != ip ==> SameBinding(UpdateSpec(es, ip, mac), es, other);
          }
        }
    }
  }

  ghost predicate SafeRun(es: seq<ArpEntry>, localIp: u32, ops: seq<Op>)
    decreases |ops|
  {
    ops == [] || (UpdateSafe(es, ops[0]) && SafeRun(Step(es, localIp, ops[0]), localIp, ops[1..]))
  }

  /** With no such update in it, a run never unbinds an address. */
  lemma {:induction false} SafeRunForgetsNothing(es: seq<ArpEntry>, localIp: u32, ops: seq<Op>, ip: u32)
    requires SafeRun(es, localIp, ops) && Lookup(es, ip) != None
    ensures Lookup(Run(es, localIp, ops), ip) != None
    decreases |ops|
  {
    if ops != [] {
      StepForgetsNothingIff(es, localIp, ops[0]);
      SafeRunForgetsNothing(Step(es, localIp, ops[0]), localIp, ops[1..], ip);
    }
  }

  // ----- The counter -----

  /** `arp_table->count++` happens for a reply to this host from an unbound sender, and nowhere
      else. */
  function CountStep(es: seq<ArpEntry>, localIp: u32, count: int, op: Op): int {
    match op
    case OpArp(p) => count + NewBindings(es, localIp, p)
    case OpReverseReply(_, _) => count
  }

  /** A step keeps `count` equal to the list's length if and only if it is not an update
      of an unbound address, or the list had exactly one entry. */
  lemma CountIsLengthIff(es: seq<ArpEntry>, localIp: u32, op: Op)
    ensures CountStep(es, localIp, |es|, op) == |Step(es, localIp, op)| <==> CountSafe(es, op)
  {
    if op.OpReverseReply? && Lookup(es, op.ip) != None {
      OverwriteIsMapUpdate(es, op.ip, op.mac);
    }
  }

  /** What a caller can check before a step. */
  predicate CountSafe(es: seq<ArpEntry>, op: Op) {
    op.OpArp? || Lookup(es, op.ip) != None || |es| == 1
  }

  function RunCount(es: seq<ArpEntry>, localIp: u32, count: int, ops: seq<Op>): int
    decreases |ops|
  {
    if ops == [] then count
    else RunCount(Step(es, localIp, ops[0]), localIp, CountStep(es, localIp, count, ops[0]), ops[1..])
  }

  ghost predicate CountSafeRun(es: seq<ArpEntry>, localIp: u32, ops: seq<Op>)
    decreases |ops|
  {
    ops == [] || (CountSafe(es, ops[0]) && CountSafeRun(Step(es, localIp, ops[0]), localIp, ops[1..]))
  }

  /** Over a run whose steps are all of that kind `count` stays the list's length. */
  lemma {:induction false} CountOfSafeRun(es: seq<ArpEntry>, localIp: u32, ops: seq<Op>)
    requires CountSafeRun(es, localIp, ops)
    ensures RunCount(es, localIp, |es|, ops) == |Run(es, localIp, ops)|
    decreases |ops|
  {
    if ops != [] {
      CountIsLengthIff(es, localIp, ops[0]);
      CountOfSafeRun(Step(es, localIp, ops[0]), localIp, ops[1..]);
    }
  }

  /** In particular over every run of ARP packets alone, from the empty table or any other whose
      `count` is right. */
  lemma {:induction false} CountOfReplyRun(es: seq<ArpEntry>, localIp: u32, ops: seq<Op>)
    requires forall op | op in ops :: op.OpArp?
    ensures CountSafeRun(es, localIp, ops)
    ensures RunCount(es, localIp, |es|, ops) == |Run(es, localIp, ops)|
    decreases |ops|
  {
    if ops != [] {
      CountOfReplyRun(Step(es, localIp, ops[0]), localIp, ops[1..]);
    }
    CountOfSafeRun(es, localIp, ops);
  }
}
