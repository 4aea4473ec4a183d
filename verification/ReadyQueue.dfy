/** The queue of uops that are ready to issue, one per execution port (insert_ready_uop and RS_schedule of
    exec-STM.cpp): a singly linked list in program order. */
module ReadyQueue {
  import opened Ticks
  import opened RecencyLists
  import opened Sequences

  class Uop {
    const seqNum: nat
    const fuClass: nat
    var actionId: nat     // changes when the uop is squashed or replayed
    var whenReady: Tick
    var whenIssued: Tick
    var inReadyQ: bool

    constructor (seqNum: nat, fuClass: nat)
      ensures this.seqNum == seqNum && this.fuClass == fuClass && !inReadyQ && whenIssued == Never
    {
      this.seqNum, this.fuClass, actionId := seqNum, fuClass, 0;
      whenReady, whenIssued, inReadyQ := Never, Never, false;
    }
  }

  class Node {
    const uop: Uop
    const actionId: nat
    var next: Node?

    constructor (uop: Uop, actionId: nat)
      ensures this.uop == uop && this.actionId == actionId && next == null
    {
      this.uop, this.actionId, next := uop, actionId, null;
    }

    /** The uop has not been squashed since it was queued. */
    predicate Live()
      reads uop`actionId
    {
      uop.actionId == actionId
    }
  }

  /** What the port could issue in this cycle. */
  ghost predicate Eligible(n: Node, now: int, fuFree: nat -> bool)
    reads n.uop`actionId, n.uop`whenReady
  {
    n.Live() && n.uop.whenReady.By(now) && fuFree(n.uop.fuClass)
  }

  ghost predicate Sorted(nodes: seq<Node>) {
    forall i, j :: 0 <= i < j < |nodes| ==> nodes[i].uop.seqNum <= nodes[j].uop.seqNum
  }

  ghost function NodeAt(nodes: seq<Node>, k: int): Node? {
    if 0 <= k < |nodes| then nodes[k] else null
  }

  ghost predicate Linked(head: Node?, nodes: seq<Node>)
    reads (set n | n in nodes)`next
  {
    head == NodeAt(nodes, 0) && Distinct(nodes) && forall k :: 0 <= k < |nodes| ==> nodes[k].next == NodeAt(nodes, k + 1)
  }

  /** How many leading nodes are older. */
  ghost function Older(nodes: seq<Node>, seqNum: nat): (k: nat)
    ensures k <= |nodes| && forall j :: 0 <= j < k ==> nodes[j].uop.seqNum < seqNum
    ensures k < |nodes| ==> nodes[k].uop.seqNum >= seqNum
  {
    if nodes == [] || nodes[0].uop.seqNum >= seqNum then 0 else Older(nodes[1..], seqNum) + 1
  }

  ghost function Inserted(nodes: seq<Node>, k: nat, n: Node): seq<Node>
    requires k <= |nodes|
  {
    nodes[..k] + [n] + nodes[k..]
  }

  /** Inserting behind the older nodes keeps program order. */
  lemma InsertKeepsOrder(nodes: seq<Node>, n: Node)
    requires Sorted(nodes)
    ensures Sorted(Inserted(nodes, Older(nodes, n.uop.seqNum), n))
  {
    var k := Older(nodes, n.uop.seqNum);
    var r := Inserted(nodes, k, n);
    forall i, j | 0 <= i < j < |r| ensures r[i].uop.seqNum <= r[j].uop.seqNum {
      assert r[i] == if i < k then nodes[i] else if i == k then n else nodes[i - 1];
      assert r[j] == if j < k then nodes[j] else if j == k then n else nodes[j - 1];
    }
  }

  /** The first node that the port could issue, or |nodes|. */
  ghost function FirstEligible(nodes: seq<Node>, now: int, fuFree: nat -> bool): (k: nat)
    reads (set n | n in nodes :: n.uop)`actionId, (set n | n in nodes :: n.uop)`whenReady
    ensures k <= |nodes| && (k < |nodes| ==> Eligible(nodes[k], now, fuFree))
    ensures forall j :: 0 <= j < k ==> !Eligible(nodes[j], now, fuFree)
  {
    if nodes == [] || Eligible(nodes[0], now, fuFree) then 0 else FirstEligible(nodes[1..], now, fuFree) + 1
  }

  /** The node that the port issues: the first one it could issue, unless the head is not ready yet. */
  ghost function Issues(nodes: seq<Node>, now: int, fuFree: nat -> bool): Node?
    reads (set n | n in nodes :: n.uop)`actionId, (set n | n in nodes :: n.uop)`whenReady
  {
    if nodes != [] && !nodes[0].uop.whenReady.By(now) then null else NodeAt(nodes, FirstEligible(nodes, now, fuFree))
  }

  /** The live nodes, without one. */
  ghost function Remaining(nodes: seq<Node>, issued: Node?): seq<Node>
    reads (set n | n in nodes :: n.uop)`actionId
  {
    if nodes == [] then []
    else Remaining(nodes[..|nodes| - 1], issued)
         + if nodes[|nodes| - 1].Live() && nodes[|nodes| - 1] != issued then [nodes[|nodes| - 1]] else []
  }

  class Port {
    var readyQ: Node?
    ghost var nodes: seq<Node>

    ghost predicate Valid()
      reads this, (set n | n in nodes)`next
    {
      Linked(readyQ, nodes) && Sorted(nodes)
    }

    constructor ()
      ensures Valid() && nodes == []
    {
      readyQ, nodes := null, [];
    }

    /** The last node that is older, and the one behind it. */
    method FindPlace(seqNum: nat) returns (prev: Node?, current: Node?)
      requires Valid()
      ensures var k := Older(nodes, seqNum); prev == NodeAt(nodes, k - 1) && current == NodeAt(nodes, k)
    {
      current, prev := readyQ, null;
      ghost var k := 0;
      while current != null && current.uop.seqNum < seqNum
        invariant 0 <= k <= |nodes| && current == NodeAt(nodes, k) && prev == NodeAt(nodes, k - 1)
        invariant forall j :: 0 <= j < k ==> nodes[j].uop.seqNum < seqNum
        decreases |nodes| - k
      {
        prev := current;
        current := current.next;
        k := k + 1;
      }
      OlderIs(nodes, seqNum, k);
    }

    /** A uop becomes ready; it is queued behind the older ones. */
    method InsertReadyUop(uop: Uop, newActionId: nat) returns (ghost node: Node)
      requires Valid() && !uop.inReadyQ
      modifies this, (set n | n in nodes)`next, uop`inReadyQ, uop`actionId
      ensures Valid() && uop.inReadyQ && uop.actionId == newActionId
      ensures fresh(node) && node.uop == uop && node.actionId == newActionId
      ensures nodes == Inserted(old(nodes), Older(old(nodes), uop.seqNum), node)
      ensures multiset(nodes) == multiset(old(nodes)) + multiset{node}
    {
      hide Linked, Sorted, Inserted;
      ghost var k := Older(nodes, uop.seqNum);
      uop.inReadyQ := true;
      uop.actionId := newActionId;
      var n := new Node(uop, newActionId);
      InsertKeepsOrder(nodes, n);
      var prev, current := FindPlace(uop.seqNum);
      LinksAt(readyQ, nodes, k);
      if prev == null {
        n.next := readyQ;
        readyQ := n;
      } else {
        n.next := current;
        prev.next := n;
      }
      LinkedWith(nodes, k, n, readyQ);
      InsertedOnce(nodes, k, n);
      nodes := Inserted(nodes, k, n);
      node := n;
    }

    /** Takes rq out of the list, behind prev. */
    method RemoveNode(prev: Node?, rq: Node, ghost kept: seq<Node>, ghost rest: seq<Node>)
      requires Linked(readyQ, kept + [rq] + rest) && prev == NodeAt(kept, |kept| - 1)
      modifies this`readyQ, (set n | n in kept)`next
      ensures Linked(readyQ, kept + rest)
    {
      hide Linked, Distinct;
      LinksOf(readyQ, kept, rq, rest);
      var next := rq.next;
      if prev != null {
        prev.next := next;
      } else {
        readyQ := next;
      }
      LinkedWithout(kept, rq, rest, readyQ);
    }

    /** The issue cycle of the port. If the oldest queued uop is not ready yet, nothing happens. Otherwise the
        oldest eligible uop is issued, if there is one, and squashed uops leave the queue. */
    method Schedule(now: int, fuFree: nat -> bool) returns (issued: Uop?, ghost node: Node?)
      requires Valid()
      modifies this, (set n | n in nodes)`next, (set n | n in nodes :: n.uop)`whenIssued, (set n | n in nodes :: n.uop)`inReadyQ
      ensures Valid()
      ensures node == old(Issues(nodes, now, fuFree)) && issued == if node == null then null else node.uop
      ensures nodes == if old(nodes) != [] && !old(nodes)[0].uop.whenReady.By(now) then old(nodes)
                       else Remaining(old(nodes), node)
      ensures node != null ==>
        node in old(nodes) && node.uop.actionId == node.actionId && node.uop.whenReady.By(now) && fuFree(node.uop.fuClass)
      ensures issued != null ==> issued.whenIssued == At(now) && !issued.inReadyQ
      ensures forall n :: n in old(nodes) && n.uop != issued ==>
        n.uop.whenIssued == old(n.uop.whenIssued) && n.uop.inReadyQ == old(n.uop.inReadyQ)
    {
      hide *;
      issued, node := null, null;
      HeadIs(now, fuFree);
      if readyQ != null && !readyQ.uop.whenReady.By(now) {
        return;
      }
      ghost var was, i: nat, kept: seq<Node> := nodes, 0, [];
      var rq, prev: Node? := readyQ, null;
      Starts(now, fuFree);
      while rq != null
        invariant Going(was, i, kept, node, rq, prev, issued, now, fuFree) && i <= |was|
        invariant forall n :: n in was && n.uop != issued ==>
          n.uop.whenIssued == old(n.uop.whenIssued) && n.uop.inReadyQ == old(n.uop.inReadyQ)
        decreases |was| - i
      {
        rq, prev, kept, issued, node := Visit(rq, prev, issued, was, i, kept, node, now, fuFree);
        i := i + 1;
      }
      Ends(was, i, kept, node, prev, issued, now, fuFree);
      IssuedIsEligible(was, now, fuFree);
      nodes := kept;
      InOrder();
    }

    /** The state of the issue loop at the i-th of the nodes `was`: those before it have been dealt with, and
        `kept` remain of them. */
    ghost predicate Going(was: seq<Node>, i: nat, kept: seq<Node>, node: Node?, rq: Node?, prev: Node?, issued: Uop?,
                          now: int, fuFree: nat -> bool)
      reads this`readyQ, (set n | n in was)`next, (set n | n in kept)`next
      reads (if issued == null then {} else {issued})`whenIssued, (if issued == null then {} else {issued})`inReadyQ
      reads (set n | n in was :: n.uop)`actionId, (set n | n in was :: n.uop)`whenReady
    {
      && Passed(was, i, kept, node, now, fuFree) && Distinct(was)
      && Linked(readyQ, kept + was[i..]) && rq == NodeAt(was, i) && prev == NodeAt(kept, |kept| - 1)
      && issued == (if node == null then null else node.uop)
      && (issued != null ==> issued.whenIssued == At(now) && !issued.inReadyQ)
    }

    lemma Starts(now: int, fuFree: nat -> bool)
      requires Valid()
      ensures Going(nodes, 0, [], null, readyQ, null, null, now, fuFree)
    {
      LoopStarts(nodes, now, fuFree);
    }

    lemma Ends(was: seq<Node>, i: nat, kept: seq<Node>, node: Node?, prev: Node?, issued: Uop?, now: int, fuFree: nat -> bool)
      requires Going(was, i, kept, node, null, prev, issued, now, fuFree) && Sorted(was)
      ensures node == NodeAt(was, FirstEligible(was, now, fuFree)) && kept == Remaining(was, node)
      ensures Linked(readyQ, kept) && Sorted(kept) && issued == (if node == null then null else node.uop)
      ensures issued != null ==> issued.whenIssued == At(now) && !issued.inReadyQ
    {
      LoopEnds(was, i, kept, node, now, fuFree);
    }

    lemma InOrder()
      requires Linked(readyQ, nodes) && Sorted(nodes)
      ensures Valid()
    {
    }

    /** One round of the issue loop. */
    method Visit(rq: Node, prev: Node?, issued: Uop?, ghost was: seq<Node>, ghost i: nat, ghost kept: seq<Node>,
                 ghost node: Node?, now: int, fuFree: nat -> bool)
      returns (next: Node?, prev': Node?, ghost kept': seq<Node>, issued': Uop?, ghost node': Node?)
      requires Going(was, i, kept, node, rq, prev, issued, now, fuFree)
      modifies this`readyQ, (set n | n in was)`next, (set n | n in was :: n.uop)`whenIssued, (set n | n in was :: n.uop)`inReadyQ
      ensures i < |was| && Going(was, i + 1, kept', node', next, prev', issued', now, fuFree)
      ensures issued != null ==> issued' == issued
      ensures forall n :: n in was && n.uop != issued' ==>
        n.uop.whenIssued == old(n.uop.whenIssued) && n.uop.inReadyQ == old(n.uop.inReadyQ)
    {
      hide Going, Linked, FirstEligible, Passed, Distinct, Remaining, NodeAt;
      AtVisit(rq, prev, issued, was, i, kept, node, now, fuFree);
      ghost var rest := was[i + 1..];
      next, prev', kept', issued', node' := rq.next, prev, kept, issued, node;
      var uop := rq.uop;
      if uop.actionId != rq.actionId {
        RemoveNode(prev, rq, kept, rest);
      } else if uop.whenReady.By(now) && issued == null && fuFree(uop.fuClass) {
        RemoveNode(prev, rq, kept, rest);
        MarkIssued(uop, now);
        issued', node' := uop, rq;
      } else {
        prev', kept' := rq, kept + [rq];
      }
      assert kept' + rest == if kept' == kept then kept + rest else kept + [rq] + rest;
      Visited(was, i + 1, kept', node', next, prev', issued', now, fuFree);
    }

    /** What the round at node rq can rely on. */
    lemma AtVisit(rq: Node, prev: Node?, issued: Uop?, was: seq<Node>, i: nat, kept: seq<Node>, node: Node?,
                  now: int, fuFree: nat -> bool)
      requires Going(was, i, kept, node, rq, prev, issued, now, fuFree)
      ensures i < |was| && rq == was[i] && Linked(readyQ, kept + [rq] + was[i + 1..]) && Distinct(was)
      ensures rq.next == NodeAt(was, i + 1) && prev == NodeAt(kept, |kept| - 1)
      ensures rq == NodeAt(kept + [rq], |kept + [rq]| - 1) && forall k :: 0 <= k < |kept| ==> kept[k] in was
      ensures issued == (if node == null then null else node.uop)
      ensures issued != null ==> issued.whenIssued == At(now) && !issued.inReadyQ
      ensures !rq.Live() ==> Passed(was, i + 1, kept, node, now, fuFree)
      ensures node == null && Eligible(rq, now, fuFree) ==> Passed(was, i + 1, kept, rq, now, fuFree)
      ensures rq.Live() && (node != null || !Eligible(rq, now, fuFree)) ==>
        Passed(was, i + 1, kept + [rq], node, now, fuFree)
    {
      hide Linked, FirstEligible, Passed, Distinct, Remaining;
      AtNode(was, i);
      NextOf(readyQ, kept, rq, was[i + 1..]);
      NextAt(was, i + 1);
      KeptWithin(was, i, kept, node, now, fuFree);
      PassOne(was, i, kept, node, now, fuFree);
    }

    lemma Visited(was: seq<Node>, i: nat, kept: seq<Node>, node: Node?, rq: Node?, prev: Node?, issued: Uop?,
                  now: int, fuFree: nat -> bool)
      requires Passed(was, i, kept, node, now, fuFree) && Distinct(was) && i <= |was|
      requires Linked(readyQ, kept + was[i..]) && rq == NodeAt(was, i) && prev == NodeAt(kept, |kept| - 1)
      requires issued == (if node == null then null else node.uop)
      requires issued != null ==> issued.whenIssued == At(now) && !issued.inReadyQ
      ensures Going(was, i, kept, node, rq, prev, issued, now, fuFree)
    {
    }

    method MarkIssued(uop: Uop, now: int)
      modifies uop`whenIssued, uop`inReadyQ
      ensures uop.whenIssued == At(now) && !uop.inReadyQ
    {
      uop.whenIssued := At(now);
      uop.inReadyQ := false;
    }

    lemma HeadIs(now: int, fuFree: nat -> bool)
      requires Valid()
      ensures Issues(nodes, now, fuFree) == if nodes != [] && !nodes[0].uop.whenReady.By(now) then null
                                            else NodeAt(nodes, FirstEligible(nodes, now, fuFree))
      ensures readyQ == NodeAt(nodes, 0) && Distinct(nodes) && Linked(readyQ, nodes) && Sorted(nodes)
      ensures readyQ == if nodes == [] then null else nodes[0]
    {
    }
  }

  /** The state of the issue loop after the first i nodes. */
  ghost predicate Passed(was: seq<Node>, i: nat, kept: seq<Node>, node: Node?, now: int, fuFree: nat -> bool)
    reads (set n | n in was :: n.uop)`actionId, (set n | n in was :: n.uop)`whenReady
  {
    && i <= |was| && kept == Remaining(was[..i], node)
    && var f := FirstEligible(was, now, fuFree);
       if node == null then i <= f else f < i && node == was[f]
  }

  lemma KeptWithin(was: seq<Node>, i: nat, kept: seq<Node>, node: Node?, now: int, fuFree: nat -> bool)
    requires Passed(was, i, kept, node, now, fuFree)
    ensures forall k :: 0 <= k < |kept| ==> kept[k] in was
  {
    RemainingIn(was[..i], node);
  }

  lemma LoopStarts(was: seq<Node>, now: int, fuFree: nat -> bool)
    ensures Passed(was, 0, [], null, now, fuFree) && [] + was[0..] == was && NodeAt([], -1) == null
  {
  }

  lemma AtNode(was: seq<Node>, i: nat)
    requires i <= |was|
    ensures NodeAt(was, i) != null ==> i < |was| && NodeAt(was, i) == was[i] && was[i..] == [was[i]] + was[i + 1..]
  {
  }

  lemma NextAt(was: seq<Node>, i: nat)
    requires i <= |was|
    ensures NodeAt(was[i..], 0) == NodeAt(was, i)
  {
  }

  lemma LoopEnds(was: seq<Node>, i: nat, kept: seq<Node>, node: Node?, now: int, fuFree: nat -> bool)
    requires Passed(was, i, kept, node, now, fuFree) && i <= |was| && NodeAt(was, i) == null && Sorted(was)
    ensures node == NodeAt(was, FirstEligible(was, now, fuFree)) && kept == Remaining(was, node) && Sorted(kept)
    ensures kept + was[i..] == kept
  {
    PassedAll(was, i, kept, node, now, fuFree);
  }

  lemma PassOne(was: seq<Node>, i: nat, kept: seq<Node>, node: Node?, now: int, fuFree: nat -> bool)
    requires Passed(was, i, kept, node, now, fuFree) && i < |was| && Distinct(was)
    ensures !was[i].Live() ==> Passed(was, i + 1, kept, node, now, fuFree)
    ensures node == null && Eligible(was[i], now, fuFree) ==> Passed(was, i + 1, kept, was[i], now, fuFree)
    ensures was[i].Live() && (node != null || !Eligible(was[i], now, fuFree)) ==>
      Passed(was, i + 1, kept + [was[i]], node, now, fuFree)
  {
    assert was[..i] + [was[i]] == was[..i + 1];
    RemainingSnoc(was[..i], was[i], node);
    RemainingSnoc(was[..i], was[i], was[i]);
    NotBefore(was, i);
    RemainingOther(was[..i], was[i]);
  }

  lemma PassedAll(was: seq<Node>, i: nat, kept: seq<Node>, node: Node?, now: int, fuFree: nat -> bool)
    requires Passed(was, i, kept, node, now, fuFree) && i == |was| && Sorted(was)
    ensures node == NodeAt(was, FirstEligible(was, now, fuFree)) && kept == Remaining(was, node) && Sorted(kept)
  {
    assert was[..|was|] == was;
    RemainingSorted(was, node);
  }

  lemma NextOf(head: Node?, kept: seq<Node>, n: Node, rest: seq<Node>)
    requires Linked(head, kept + ([n] + rest))
    ensures Linked(head, kept + [n] + rest) && n.next == NodeAt(rest, 0) && n !in kept
  {
    assert kept + ([n] + rest) == kept + [n] + rest;
    LinksOf(head, kept, n, rest);
    var s := kept + [n] + rest;
    assert s[|kept|] == n && forall j :: 0 <= j < |kept| ==> s[j] == kept[j] && s[j] != s[|kept|];
  }

  lemma NotBefore(s: seq<Node>, i: nat)
    requires i < |s|
    ensures Distinct(s) ==> s[i] !in s[..i]
  {
  }

  lemma RemainingSnoc(nodes: seq<Node>, n: Node, issued: Node?)
    ensures Remaining(nodes + [n], issued)
            == Remaining(nodes, issued) + if n.Live() && n != issued then [n] else []
  {
    assert (nodes + [n])[..|nodes|] == nodes;
  }

  lemma {:induction false} RemainingOther(nodes: seq<Node>, n: Node)
    requires n !in nodes
    ensures Remaining(nodes, n) == Remaining(nodes, null)
  {
    if nodes == [] {
    } else {
      assert nodes[|nodes| - 1] in nodes;
      RemainingOther(nodes[..|nodes| - 1], n);
    }
  }

  lemma {:induction false} RemainingIn(nodes: seq<Node>, issued: Node?)
    ensures forall k :: 0 <= k < |Remaining(nodes, issued)| ==>
      Remaining(nodes, issued)[k] in nodes && Remaining(nodes, issued)[k].Live() && Remaining(nodes, issued)[k] != issued
    ensures forall k :: 0 <= k < |nodes| && nodes[k].Live() && nodes[k] != issued ==> nodes[k] in Remaining(nodes, issued)
  {
    if nodes == [] {
    } else {
      var init, last := nodes[..|nodes| - 1], nodes[|nodes| - 1];
      RemainingIn(init, issued);
      forall k | 0 <= k < |nodes| && nodes[k].Live() && nodes[k] != issued ensures nodes[k] in Remaining(nodes, issued) {
        if k < |init| { assert nodes[k] == init[k]; }
      }
    }
  }

  /** What remains is a part of the queue, in order. */
  lemma {:induction false} RemainingSorted(nodes: seq<Node>, issued: Node?)
    requires Sorted(nodes)
    ensures Sorted(Remaining(nodes, issued))
  {
    if nodes == [] {
    } else {
      var init, last := nodes[..|nodes| - 1], nodes[|nodes| - 1];
      RemainingSorted(init, issued);
      RemainingIn(init, issued);
      assert nodes == init + [last];
      SortedSnoc(Remaining(init, issued), init, last);
    }
  }

  lemma SortedSnoc(a: seq<Node>, init: seq<Node>, last: Node)
    requires Sorted(a) && Sorted(init + [last]) && forall k :: 0 <= k < |a| ==> a[k] in init
    ensures Sorted(a + [last])
  {
    var s := init + [last];
    forall k | 0 <= k < |a| ensures a[k].uop.seqNum <= last.uop.seqNum {
      var i :| 0 <= i < |init| && init[i] == a[k];
      assert s[i] == a[k] && s[|init|] == last;
    }
  }

  /** The queue without its node at position |kept|. */
  lemma LinkedWithout(kept: seq<Node>, n: Node, rest: seq<Node>, head: Node?)
    requires Distinct(kept + [n] + rest) && head == NodeAt(kept + rest, 0)
    requires forall j :: 0 <= j < |kept| - 1 ==> kept[j].next == kept[j + 1]
    requires kept != [] ==> kept[|kept| - 1].next == NodeAt(rest, 0)
    requires forall j :: 0 <= j < |rest| ==> rest[j].next == NodeAt(rest, j + 1)
    ensures Linked(head, kept + rest)
  {
    var s, r := kept + [n] + rest, kept + rest;
    forall i, j | 0 <= i < j < |r| ensures r[i] != r[j] {
      assert r[i] == s[if i < |kept| then i else i + 1] && r[j] == s[if j < |kept| then j else j + 1];
    }
    forall j | 0 <= j < |r| ensures r[j].next == NodeAt(r, j + 1) {
      if j + 1 < |kept| {
        assert r[j] == kept[j] && r[j + 1] == kept[j + 1];
      } else if j + 1 == |kept| {
        assert r[j] == kept[j] && kept[j].next == NodeAt(rest, 0);
        assert NodeAt(r, j + 1) == NodeAt(rest, 0);
      } else {
        var m := j - |kept|;
        assert r[j] == rest[m] && rest[m].next == NodeAt(rest, m + 1);
        assert m + 1 < |rest| ==> r[j + 1] == rest[m + 1];
      }
    }
  }

  lemma LinksOf(head: Node?, kept: seq<Node>, n: Node, rest: seq<Node>)
    requires Linked(head, kept + [n] + rest)
    ensures head == NodeAt(kept + [n], 0) && Distinct(kept + [n] + rest) && n.next == NodeAt(rest, 0)
    ensures forall j :: 0 <= j < |kept| - 1 ==> kept[j].next == kept[j + 1]
    ensures kept != [] ==> kept[|kept| - 1].next == n
    ensures forall j :: 0 <= j < |rest| ==> rest[j].next == NodeAt(rest, j + 1)
    ensures kept != [] ==> forall j :: 0 <= j < |kept| - 1 ==> kept[j] != kept[|kept| - 1]
    ensures kept != [] ==> forall j :: 0 <= j < |rest| ==> rest[j] != kept[|kept| - 1]
  {
    var s := kept + [n] + rest;
    assert forall j :: 0 <= j < |kept| ==> s[j] == kept[j];
    assert s[|kept|] == n && forall j :: 0 <= j < |rest| ==> s[|kept| + 1 + j] == rest[j];
    forall j | 0 <= j < |rest| ensures rest[j].next == NodeAt(rest, j + 1) {
      assert s[|kept| + 1 + j].next == NodeAt(s, |kept| + 2 + j);
    }
  }

  lemma OlderIs(nodes: seq<Node>, seqNum: nat, k: nat)
    requires k <= |nodes| && forall j :: 0 <= j < k ==> nodes[j].uop.seqNum < seqNum
    requires k < |nodes| ==> nodes[k].uop.seqNum >= seqNum
    ensures Older(nodes, seqNum) == k
  {
  }

  lemma LinksAt(head: Node?, nodes: seq<Node>, k: nat)
    requires Linked(head, nodes) && k <= |nodes|
    ensures head == NodeAt(nodes, 0) && Distinct(nodes)
    ensures forall j :: 0 <= j < |nodes| ==> nodes[j].next == NodeAt(nodes, j + 1)
    ensures k > 0 ==> forall j :: 0 <= j < |nodes| && j != k - 1 ==> nodes[j] != nodes[k - 1]
  {
  }

  /** The links are right once the new node has been put in at position k. */
  lemma LinkedWith(nodes: seq<Node>, k: nat, n: Node, head: Node?)
    requires k <= |nodes| && Distinct(nodes) && n !in nodes && n.next == NodeAt(nodes, k)
    requires head == if k == 0 then n else nodes[0]
    requires forall j :: 0 <= j < |nodes| ==> nodes[j].next == if j == k - 1 then n else NodeAt(nodes, j + 1)
    ensures Linked(head, Inserted(nodes, k, n))
  {
    hide Distinct;
    var r := Inserted(nodes, k, n);
    InsertedDistinct(nodes, k, n);
    assert forall j :: 0 <= j < k ==> r[j] == nodes[j];
    assert r[k] == n && forall j :: k < j < |r| ==> r[j] == nodes[j - 1];
    forall j | 0 <= j < |r| ensures r[j].next == NodeAt(r, j + 1) {
      if j > k {
        assert r[j] == nodes[j - 1] && nodes[j - 1].next == NodeAt(nodes, j);
      }
    }
  }

  lemma InsertedOnce(nodes: seq<Node>, k: nat, n: Node)
    requires k <= |nodes|
    ensures multiset(Inserted(nodes, k, n)) == multiset(nodes) + multiset{n}
  {
    assert nodes == nodes[..k] + nodes[k..];
  }

  lemma InsertedDistinct(nodes: seq<Node>, k: nat, n: Node)
    requires k <= |nodes| && Distinct(nodes) && n !in nodes
    ensures Distinct(Inserted(nodes, k, n))
  {
    var r := Inserted(nodes, k, n);
    forall i, j | 0 <= i < j < |r| ensures r[i] != r[j] {
      assert r[i] == if i < k then nodes[i] else if i == k then n else nodes[i - 1];
      assert r[j] == if j < k then nodes[j] else if j == k then n else nodes[j - 1];
    }
  }

  /** The first eligible node is the oldest one. */
  lemma FirstIsOldest(nodes: seq<Node>, now: int, fuFree: nat -> bool, n: Node)
    requires Sorted(nodes) && n in nodes && Eligible(n, now, fuFree)
    ensures var k := FirstEligible(nodes, now, fuFree);
            k < |nodes| && nodes[k].uop.seqNum <= n.uop.seqNum
  {
    var j :| 0 <= j < |nodes| && nodes[j] == n;
    assert FirstEligible(nodes, now, fuFree) <= j;
  }

  lemma IssuedIsEligible(nodes: seq<Node>, now: int, fuFree: nat -> bool)
    ensures var n := NodeAt(nodes, FirstEligible(nodes, now, fuFree));
            n != null ==> n in nodes && n.uop.actionId == n.actionId && n.uop.whenReady.By(now) && fuFree(n.uop.fuClass)
  {
  }

  /** If some uop has not been squashed, is ready and finds a functional unit, the port issues nothing exactly when the
      head of its queue is not ready, and then the head is older than the uop that could issue. */
  lemma HeadHoldsUp(nodes: seq<Node>, now: int, fuFree: nat -> bool, n: Node)
    requires Sorted(nodes) && n in nodes
    requires n.uop.actionId == n.actionId && n.uop.whenReady.By(now) && fuFree(n.uop.fuClass)
    ensures Issues(nodes, now, fuFree) == null <==> !nodes[0].uop.whenReady.By(now)
    ensures Issues(nodes, now, fuFree) == null ==> nodes[0].uop != n.uop && nodes[0].uop.seqNum <= n.uop.seqNum
  {
    FirstIsOldest(nodes, now, fuFree, n);
    var j :| 0 <= j < |nodes| && nodes[j] == n;
  }

  /** This happens: an uop that is not ready before cycle 10, and behind it a younger one that is ready from
      cycle 0 on, but does not issue in cycle 5. */
  method HeldUp() returns (port: Port, ghost n: Node)
    ensures port.Valid() && n in port.nodes && Eligible(n, 5, _ => true) && Issues(port.nodes, 5, _ => true) == null
  {
    hide Linked, Sorted, FirstEligible, Remaining, Inserted, Older, NodeAt;
    var older := new Uop(1, 0);
    var younger := new Uop(2, 0);
    older.whenReady, younger.whenReady := At(10), At(0);
    port := new Port();
    ghost var n0 := port.InsertReadyUop(older, 7);
    OneQueued(n0);
    n := port.InsertReadyUop(younger, 8);
    BothQueued(n0, n);
    assert port.nodes == [n0, n];
  }

  lemma OneQueued(n: Node)
    ensures Inserted([], Older([], n.uop.seqNum), n) == [n]
  {
  }

  lemma BothQueued(n0: Node, n1: Node)
    requires n0.uop.seqNum < n1.uop.seqNum
    ensures Inserted([n0], Older([n0], n1.uop.seqNum), n1) == [n0, n1]
  {
    assert Older([n0], n1.uop.seqNum) == 1;
  }
}
