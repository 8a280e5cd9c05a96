/** The list macros of `src/list.h` on heap nodes, against the sequence of nodes they stand for. */
module Lists {

  class Node<T> {
    var value: T
    var next: Node?<T>
    var prev: Node?<T>

    /** A node as `memset` and the record initialisers leave it. */
    constructor (value: T)
      ensures this.value == value && next == null && prev == null
    {
      this.value, next, prev := value, null, null;
    }
  }

  /** The node behind position i of s, null behind the last one. */
  ghost function After<T>(s: seq<Node<T>>, i: int): Node?<T>
    requires -1 <= i < |s|
  {
    if i + 1 < |s| then s[i + 1] else null
  }

  /** The node in front of position i of s, null in front of the first one. */
  ghost function Before<T>(s: seq<Node<T>>, i: int): Node?<T>
    requires 0 <= i <= |s|
  {
    if i == 0 then null else s[i - 1]
  }

  ghost predicate Distinct<T>(s: seq<Node<T>>) {
    forall i, j | 0 <= i < j < |s| :: s[i] != s[j]
  }

  /** Following `next` from `head` visits exactly s and then null; no node comes twice. */
  ghost predicate Chain<T>(head: Node?<T>, s: seq<Node<T>>)
    reads s
  {
    && head == After(s, -1)
    && (forall i {:trigger s[i].next} | 0 <= i < |s| :: s[i].next == After(s, i))
    && Distinct(s)
  }

  /** The back links mirror the forward links. */
  ghost predicate BackLinked<T>(s: seq<Node<T>>)
    reads s
  {
    forall i {:trigger s[i].prev} | 0 <= i < |s| :: s[i].prev == Before(s, i)
  }

  /** No node has a back link: what the insertion macro leaves behind. */
  ghost predicate NoBackLinks<T>(s: seq<Node<T>>)
    reads s
  {
    forall i {:trigger s[i].prev} | 0 <= i < |s| :: s[i].prev == null
  }

  /** A chain determines its nodes: two sequences visited from one head are the same. */
  lemma {:induction false} ChainIsUnique<T>(head: Node?<T>, s: seq<Node<T>>, t: seq<Node<T>>)
    requires Chain(head, s) && Chain(head, t)
    ensures s == t
    decreases |s|
  {
    if s == [] || t == [] {
    } else {
      assert s[0] == t[0];
      ChainTail(head, s);
      ChainTail(head, t);
      ChainIsUnique(s[0].next, s[1..], t[1..]);
    }
  }

  lemma ChainTail<T>(head: Node?<T>, s: seq<Node<T>>)
    requires Chain(head, s) && s != []
    ensures Chain(s[0].next, s[1..])
  {
  }

  /** A list as the insertion macro builds it, node by node: forward links only. */
  ghost predicate OneWay<T>(head: Node?<T>, s: seq<Node<T>>)
    reads s
  {
    if s == [] then head == null
    else head == s[0] && s[0].prev == null && s[0] !in s[1..] && OneWay(s[0].next, s[1..])
  }

  lemma {:induction false} OneWayIsChain<T>(head: Node?<T>, s: seq<Node<T>>)
    ensures OneWay(head, s) <==> Chain(head, s) && NoBackLinks(s)
    decreases |s|
  {
    if s != [] {
      OneWayIsChain(s[0].next, s[1..]);
      if OneWay(head, s) {
        var t := s[1..];
        forall i | 0 <= i < |s|
          ensures s[i].next == After(s, i) && s[i].prev == null
        {
          if i > 0 {
            assert s[i] == t[i - 1] && t[i - 1].next == After(t, i - 1) && t[i - 1].prev == null;
          }
        }
        assert forall j | 0 < j < |s| :: s[j] == t[j - 1];
      }
      if Chain(head, s) && NoBackLinks(s) {
        ChainTail(head, s);
        assert s[0].next == After(s, 0) && s[0].prev == null;
        assert NoBackLinks(s[1..]);
      }
    }
  }

  function Without<T>(s: seq<T>, i: nat): (r: seq<T>)
    requires i < |s|
  {
    s[..i] + s[i + 1..]
  }

  /** `INSERT_NODE_HEAD`. A new node becomes the front of the list. The old front gets no
      back link, so back links are right afterwards exactly when the list was empty.
      Inserting the front node a second time ties it to itself. */
  method InsertNodeHead<T>(list: Node?<T>, node: Node<T>, ghost s: seq<Node<T>>) returns (head: Node?<T>)
    requires Chain(list, s)
    modifies node`next, node`prev
    ensures head == node && node.value == old(node.value)
    ensures node.next == list && node.prev == null
    ensures node !in s ==> Chain(head, [node] + s)
    ensures node !in s && old(NoBackLinks(s)) ==> NoBackLinks([node] + s)
    ensures node !in s && old(NoBackLinks(s) || BackLinked(s)) ==> (BackLinked([node] + s) <==> s == [])
  {
    head := list;
    node.prev := null;
    node.next := head;
    if head == node {
      head := node.next;
    }
    head := node;
    if node !in s {
      InsertedChain(list, node, s);
      if s != [] && old(NoBackLinks(s) || BackLinked(s)) {
        assert s[0].prev == null;
        assert ([node] + s)[1].prev == null && Before([node] + s, 1) == node;
      }
    }
  }

  lemma InsertedChain<T>(list: Node?<T>, node: Node<T>, s: seq<Node<T>>)
    requires Chain(list, s) && node !in s && node.next == list
    ensures Chain(node, [node] + s)
    ensures node.prev == null && NoBackLinks(s) ==> NoBackLinks([node] + s)
  {
    var t := [node] + s;
    forall i | 0 <= i < |t|
      ensures t[i].next == After(t, i)
    {
      if i > 0 {
        assert t[i] == s[i - 1] && After(t, i) == After(s, i - 1);
      }
    }
  }

  /** `DELETE_TARGET_NODE` on the node at position i.
      With back links in place exactly that node leaves the list and the back links stay
      in place. On a list the insertion macro built, which has none, the predecessor
      cannot be found: only the front is really removed, and any other node stays
      in the list while everything behind it is lost. */
  method DeleteTargetNode<T>(list: Node?<T>, node: Node<T>, ghost s: seq<Node<T>>, ghost i: nat)
    returns (head: Node?<T>)
    requires Chain(list, s) && i < |s| && s[i] == node
    requires BackLinked(s) || NoBackLinks(s)
    modifies s`next, s`prev
    ensures forall n | n in s :: n.value == old(n.value)
    ensures node.next == null && node.prev == null
    ensures old(BackLinked(s)) ==> Chain(head, Without(s, i)) && BackLinked(Without(s, i))
    ensures old(NoBackLinks(s)) ==> Chain(head, AfterDelete(s, i))
    ensures old(NoBackLinks(s)) ==> NoBackLinks(s)
    ensures old(NoBackLinks(s)) ==> (Chain(head, Without(s, i)) <==> i == 0)
  {
    ghost var linked, unlinked := BackLinked(s), NoBackLinks(s);
    assert node.next == After(s, i);
    assert node.prev == null || node.prev == Before(s, i);
    head := Unlink(list, node, s);
    if linked {
      LinkedDelete(head, s, i);
    }
    if unlinked {
      UnlinkedDelete(head, s, i);
    }
  }

  /** What is left of a list without back links when position i is deleted: the front really
      goes; any other position stays, as the last one. */
  function AfterDelete<T>(s: seq<T>, i: nat): seq<T>
    requires i < |s|
  {
    if i == 0 then s[1..] else s[..i + 1]
  }

  /** `INSERT_NODE_HEAD` on the lists this program has. */
  method InsertOneWay<T>(list: Node?<T>, node: Node<T>, ghost s: seq<Node<T>>) returns (head: Node?<T>)
    requires OneWay(list, s) && node !in s
    modifies node`next, node`prev
    ensures head == node && node.value == old(node.value)
    ensures OneWay(head, [node] + s)
  {
    OneWayIsChain(list, s);
    head := InsertNodeHead(list, node, s);
    OneWayIsChain(head, [node] + s);
  }

  /** `DELETE_TARGET_NODE` on the lists this program has. */
  method DeleteOneWay<T>(list: Node?<T>, node: Node<T>, ghost s: seq<Node<T>>, ghost i: nat) returns (head: Node?<T>)
    requires OneWay(list, s) && i < |s| && s[i] == node
    modifies s`next, s`prev
    ensures forall n | n in s :: n.value == old(n.value)
    ensures OneWay(head, AfterDelete(s, i))
  {
    OneWayIsChain(list, s);
    head := DeleteTargetNode(list, node, s, i);
    ghost var rest := AfterDelete(s, i);
    assert NoBackLinks(rest) by {
      assert forall k | 0 <= k < |rest| :: rest[k] == if i == 0 then s[k + 1] else s[k];
    }
    OneWayIsChain(head, rest);
  }

  /** The statements of the macro and what each leaves in the two links of every node. */
  method Unlink<T>(list: Node?<T>, node: Node<T>, ghost s: seq<Node<T>>) returns (head: Node?<T>)
    requires node in s
    requires node.prev == null || (node.prev in s && node.prev != node)
    requires node.next == null || (node.next in s && node.next != node)
    modifies s`next, s`prev
    ensures head == if list == node then old(node.next) else list
    ensures node.next == null && node.prev == null
    ensures forall n {:trigger n.next} | n in s && n != node ::
              n.next == if n == old(node.prev) then old(node.next) else old(n.next)
    ensures forall n {:trigger n.prev} | n in s && n != node ::
              n.prev == if n == old(node.next) then old(node.prev) else old(n.prev)
    ensures forall n | n in s :: n.value == old(n.value)
  {
    head := list;
    if node.prev != null {
      node.prev.next := node.next;
    }
    if node.next != null {
      node.next.prev := node.prev;
    }
    if head == node {
      head := node.next;
    }
    node.prev, node.next := null, null;
  }

  /** The links after deleting position i of a doubly linked list. */
  lemma LinkedDelete<T>(head: Node?<T>, s: seq<Node<T>>, i: nat)
    requires i < |s| && Distinct(s)
    requires head == if i == 0 then After(s, 0) else s[0]
    requires forall k {:trigger s[k].next} | 0 <= k < |s| && k != i :: s[k].next == After(s, if k + 1 == i then i else k)
    requires forall k {:trigger s[k].prev} | 0 <= k < |s| && k != i :: s[k].prev == Before(s, if k == i + 1 then i else k)
    ensures Chain(head, Without(s, i)) && BackLinked(Without(s, i))
  {
    var t := Without(s, i);
    forall k | 0 <= k < |t|
      ensures t[k].next == After(t, k) && t[k].prev == Before(t, k)
    {
      NeighboursWithout(s, i, k);
      var from := if k < i then k else k + 1;
      assert s[from].next == After(t, k) && s[from].prev == Before(t, k);
    }
    DistinctWithout(s, i);
  }

  lemma NeighboursWithout<T>(s: seq<Node<T>>, i: nat, k: nat)
    requires i < |s| && k < |s| - 1
    ensures var from := if k < i then k else k + 1;
            && Without(s, i)[k] == s[from]
            && After(Without(s, i), k) == After(s, if from + 1 == i then i else from)
            && Before(Without(s, i), k) == Before(s, if from == i + 1 then i else from)
  {
  }

  lemma DistinctWithout<T>(s: seq<Node<T>>, i: nat)
    requires i < |s| && Distinct(s)
    ensures Distinct(Without(s, i))
  {
  }

  /** The links after deleting position i of a list without back links. */
  lemma UnlinkedDelete<T>(head: Node?<T>, s: seq<Node<T>>, i: nat)
    requires i < |s| && Distinct(s)
    requires head == if i == 0 then After(s, 0) else s[0]
    requires s[i].next == null
    requires forall k {:trigger s[k].next} | 0 <= k < |s| && k != i :: s[k].next == After(s, k)
    ensures Chain(head, AfterDelete(s, i))
    ensures Chain(head, Without(s, i)) <==> i == 0
  {
    var t := AfterDelete(s, i);
    forall k | 0 <= k < |t|
      ensures t[k].next == After(t, k)
    {
      assert t[k] == if i == 0 then s[k + 1] else s[k];
    }
    if i == 0 {
      assert Without(s, 0) == t;
    } else if Chain(head, Without(s, i)) {
      ChainIsUnique(head, t, Without(s, i));
    }
  }
}
