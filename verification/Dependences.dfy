/** The dataflow graph between the uops of the out-of-order core: every uop points at the producers of
    its inputs, and every producer keeps a linked list of its consumers. Links are made when a uop is
    allocated (alloc-DPM.cpp) and undone when it is squashed (commit-DPM.cpp, commit-STM.cpp). */
module Dependences {
  import opened Sequences

  const MAX_IDEPS := 3

  /** A link in a producer's list: uop takes the producer's value as its input number opNum. */
  class Odep {
    var uop: Uop
    var opNum: nat
    var next: Odep?
    ghost var owner: Uop  // the producer

    constructor (uop: Uop, opNum: nat, next: Odep?, ghost owner: Uop)
      ensures this.uop == uop && this.opNum == opNum && this.next == next && this.owner == owner
    {
      this.uop, this.opNum, this.next, this.owner := uop, opNum, next, owner;
    }
  }

  class Uop {
    const seqNum: nat  // place in program order
    const mop: nat     // the macro-op it belongs to
    var idep: seq<Uop?>
    var odep: Odep?
    ghost var children: seq<Odep>  // the linked list that starts at odep
    ghost var links: seq<Odep?>    // for every input, its link in the producer's list

    // uop fusion: a fused group occupies one ROB entry
    var inFusion: bool
    var fusionHead: Uop?
    var fusionNext: Uop?
    ghost var group: seq<Uop>

    var isAllocated: bool

    constructor (seqNum: nat, mop: nat)
      ensures this.seqNum == seqNum && this.mop == mop && Unlinked() && !isAllocated
      ensures !inFusion && group == [this] && fusionNext == null
    {
      this.seqNum, this.mop := seqNum, mop;
      idep, links, odep, children := seq(MAX_IDEPS, _ => null), seq(MAX_IDEPS, _ => null), null, [];
      inFusion, fusionHead, fusionNext, isAllocated := false, null, null, false;
      group := [this];
    }

    /** The uop has no inputs and no consumers. */
    ghost predicate Unlinked()
      reads this
    {
      && |idep| == |links| == MAX_IDEPS && odep == null && children == []
      && forall i :: 0 <= i < MAX_IDEPS ==> idep[i] == null && links[i] == null
    }
  }

  ghost function At(s: seq<Odep>, k: nat): Odep? {
    if k < |s| then s[k] else null
  }

  /** The pointers from p.odep run through p.children. */
  ghost predicate Chain(p: Uop, links: set<Odep>)
    reads p`odep, p`children, links
  {
    && p.odep == At(p.children, 0) && Distinct(p.children)
    && forall k :: 0 <= k < |p.children| ==>
         p.children[k] in links && p.children[k].next == At(p.children, k + 1)
  }

  /** Link n belongs to producer p and is its consumer's link for that input. Consumers are younger. */
  ghost predicate LinkOk(n: Odep, p: Uop, live: set<Uop>)
    reads n, live`idep, live`links
  {
    && n.owner == p && n.uop in live && p.seqNum < n.uop.seqNum
    && n.opNum < |n.uop.idep| == |n.uop.links|
    && n.uop.links[n.opNum] == n && n.uop.idep[n.opNum] == p
  }

  /** The list of p's consumers. */
  ghost predicate ParentOk(p: Uop, live: set<Uop>, links: set<Odep>)
    reads p`odep, p`children, live`idep, live`links, links
  {
    Chain(p, links) && forall k :: 0 <= k < |p.children| ==> LinkOk(p.children[k], p, live)
  }

  /** The inputs of c: each has its link in its producer's list. Producers are older. */
  ghost predicate ChildOk(c: Uop, live: set<Uop>, links: set<Odep>)
    reads c`idep, c`links, live`children, links
  {
    && |c.idep| == |c.links| == MAX_IDEPS
    && forall i :: 0 <= i < MAX_IDEPS ==>
         && (c.idep[i] == null <==> c.links[i] == null)
         && (c.idep[i] != null ==>
               && c.idep[i] in live && c.idep[i].seqNum < c.seqNum && c.links[i] in links
               && c.links[i] in c.idep[i].children && c.links[i].uop == c && c.links[i].opNum == i)
  }

  /** idep and odep links are mutual inverses. */
  ghost predicate Graph(live: set<Uop>, links: set<Odep>)
    reads live`idep, live`links, live`odep, live`children, links
  {
    forall u :: u in live ==> ParentOk(u, live, links) && ChildOk(u, live, links)
  }

  ghost function Without(s: seq<Odep>, k: nat): (r: seq<Odep>)
    requires k < |s|
    ensures |r| == |s| - 1
    ensures forall j :: 0 <= j < |r| ==> r[j] == s[if j < k then j else j + 1]
  {
    s[..k] + s[k + 1..]
  }

  lemma WithoutKeeps(s: seq<Odep>, k: nat, n: Odep)
    requires k < |s| && n in s && n != s[k]
    ensures n in Without(s, k)
  {
    var m :| 0 <= m < |s| && s[m] == n;
    assert Without(s, k)[if m < k then m else m - 1] == n;
  }

  /** The walk along a producer's list to the link for input i of c. */
  method FindLink(parent: Uop, c: Uop, i: nat, ghost links: set<Odep>)
    returns (current: Odep?, prev: Odep?, ghost k: nat)
    requires Chain(parent, links)
    ensures k <= |parent.children| && current == At(parent.children, k)
    ensures current != null ==> current.uop == c && current.opNum == i
    ensures current == null ==>
      forall j :: 0 <= j < |parent.children| ==> parent.children[j].uop != c || parent.children[j].opNum != i
    ensures prev == if k == 0 then null else parent.children[k - 1]
  {
    current, prev, k := parent.odep, null, 0;
    while current != null && !(current.uop == c && current.opNum == i)
      invariant k <= |parent.children| && current == At(parent.children, k)
      invariant prev == if k == 0 then null else parent.children[k - 1]
      invariant forall j :: 0 <= j < k ==> parent.children[j].uop != c || parent.children[j].opNum != i
      decreases |parent.children| - k
    {
      prev := current;
      current := current.next;
      k := k + 1;
    }
  }

  /** Unlinks the link at position k of a producer's list. */
  method Unlink(parent: Uop, current: Odep, prev: Odep?, ghost k: nat, ghost links: set<Odep>)
    requires Chain(parent, links) && k < |parent.children| && current == parent.children[k]
    requires prev == if k == 0 then null else parent.children[k - 1]
    modifies parent`odep, parent`children, (if prev != null then {prev} else {})`next
    ensures Chain(parent, links) && parent.children == Without(old(parent.children), k)
  {
    if prev != null {
      prev.next := current.next;
    } else {
      parent.odep := current.next;
    }
    parent.children := Without(parent.children, k);
  }

  /** What changes when input i of c is taken out of the list of producer p, at position k. */
  twostate predicate Undone(c: Uop, i: nat, p: Uop, k: nat, live: set<Uop>, links: set<Odep>)
    reads live, links
  {
    && c in live && p in live && c != p && i < |old(c.idep)| && |old(c.links)| == |old(c.idep)|
    && k < |old(p.children)|
    && old(p.children[k].uop == c && p.children[k].opNum == i)
    && p.children == Without(old(p.children), k)
    && c.idep == old(c.idep)[i := null] && c.links == old(c.links)[i := null]
    && (forall u :: u in live && u != p ==> u.children == old(u.children) && u.odep == old(u.odep))
    && (forall u :: u in live && u != c ==> u.idep == old(u.idep) && u.links == old(u.links))
    && (forall n :: n in links ==> n.uop == old(n.uop) && n.opNum == old(n.opNum) && n.owner == old(n.owner))
    && (forall n :: n in links && !(k > 0 && n == old(p.children)[k - 1]) ==> n.next == old(n.next))
  }

  twostate lemma ParentsKept(new c: Uop, new i: nat, new p: Uop, new k: nat, live: set<Uop>, new links: set<Odep>, new u: Uop)
    requires old(allocated(links)) && c in live && p in live && u in live
    requires old(Graph(live, links)) && Undone(c, i, p, k, live, links) && Chain(p, links)
    ensures ParentOk(u, live, links)
  {
    assert old(ParentOk(u, live, links) && ParentOk(p, live, links));
    forall j | 0 <= j < |u.children| ensures LinkOk(u.children[j], u, live) && (u != p ==> u.children[j].next == old(u.children[j].next)) {
      var n := u.children[j];
      assert old(LinkOk(n, u, live));
      assert n.uop == c && n.opNum == i ==> n == old(p.children)[k] by {
        assert old(LinkOk(p.children[k], p, live));
      }
      assert k > 0 ==> old(LinkOk(p.children[k - 1], p, live));
    }
  }

  twostate lemma ChildrenKept(new c: Uop, new i: nat, new p: Uop, new k: nat, live: set<Uop>, new links: set<Odep>, new u: Uop)
    requires old(allocated(links)) && c in live && p in live && u in live
    requires old(Graph(live, links)) && Undone(c, i, p, k, live, links)
    ensures ChildOk(u, live, links)
  {
    assert old(ChildOk(u, live, links) && ParentOk(p, live, links));
    forall j | 0 <= j < MAX_IDEPS && u.idep[j] != null ensures u.links[j] in u.idep[j].children {
      if u.idep[j] == p {
        WithoutKeeps(old(p.children), k, u.links[j]);
      }
    }
  }

  /** Removes the link for input i of c from its producer's list. */
  method RemoveLink(parent: Uop, c: Uop, i: nat, ghost live: set<Uop>, ghost links: set<Odep>) returns (ghost k: nat)
    requires parent in live && Chain(parent, links)
    requires exists j :: 0 <= j < |parent.children| && parent.children[j].uop == c && parent.children[j].opNum == i
    modifies live`odep, live`children, links`next
    ensures k < |old(parent.children)| && old(parent.children[k].uop == c && parent.children[k].opNum == i)
    ensures parent.children == Without(old(parent.children), k) && Chain(parent, links)
    ensures forall u :: u in live && u != parent ==> u.children == old(u.children) && u.odep == old(u.odep)
    ensures forall n :: n in links && !(k > 0 && n == old(parent.children)[k - 1]) ==> n.next == old(n.next)
  {
    var current, prev;
    current, prev, k := FindLink(parent, c, i, links);
    Unlink(parent, current, prev, k, links);
  }

  /** The pointer changes that undo input i of c. */
  method TakeOut(c: Uop, i: nat, ghost live: set<Uop>, ghost links: set<Odep>) returns (ghost p: Uop, ghost k: nat)
    requires c in live && i < |c.idep| == |c.links| && c.idep[i] != null && c.idep[i] != c && c.idep[i] in live
    requires var p := c.idep[i];
             && Chain(p, links)
             && exists j :: 0 <= j < |p.children| && p.children[j].uop == c && p.children[j].opNum == i
    modifies c`idep, c`links, live`odep, live`children, links`next
    ensures p == old(c.idep[i]) && Undone(c, i, p, k, live, links) && Chain(p, links)
  {
    hide Chain, Without;
    p := c.idep[i];
    k := RemoveLink(c.idep[i], c, i, live, links);
    c.idep := c.idep[i := null];
    c.links := c.links[i := null];
  }

  /** Undoes input i of c; the graph of the others is kept. */
  method UndoOne(c: Uop, i: nat, ghost live: set<Uop>, ghost links: set<Odep>) returns (ghost p: Uop, ghost k: nat)
    requires Graph(live, links) && c in live && i < MAX_IDEPS && c.idep[i] != null
    modifies live`idep, live`links, live`odep, live`children, links`next
    ensures Graph(live, links)
    ensures p == old(c.idep[i]) && Undone(c, i, p, k, live, links)
  {
    assert ParentOk(c.idep[i], live, links) && ChildOk(c, live, links);
    p, k := TakeOut(c, i, live, links);
    forall u | u in live ensures ParentOk(u, live, links) && ChildOk(u, live, links) {
      ParentsKept(c, i, p, k, live, links, u);
      ChildrenKept(c, i, p, k, live, links, u);
    }
  }

  /** The links of s that do not belong to c. */
  ghost function Others(s: seq<Odep>, c: Uop): (r: seq<Odep>)
    reads s
  {
    if s == [] then [] else (if s[0].uop == c then [] else [s[0]]) + Others(s[1..], c)
  }

  lemma {:induction false} OthersWithout(s: seq<Odep>, c: Uop, k: nat)
    requires k < |s| && s[k].uop == c
    ensures Others(Without(s, k), c) == Others(s, c)
  {
    if k == 0 {
      assert Without(s, k) == s[1..];
    } else {
      assert Without(s, k)[0] == s[0] && Without(s, k)[1..] == Without(s[1..], k - 1);
      OthersWithout(s[1..], c, k - 1);
    }
  }

  lemma {:induction false} OthersAll(s: seq<Odep>, c: Uop)
    requires forall k :: 0 <= k < |s| ==> s[k].uop != c
    ensures Others(s, c) == s
  {
    if s == [] {
    } else {
      OthersAll(s[1..], c);
    }
  }

  twostate lemma OthersKept(new c: Uop, new i: nat, new p: Uop, new k: nat, live: set<Uop>, new links: set<Odep>)
    requires old(allocated(links)) && c in live && p in live
    requires old(Graph(live, links)) && Graph(live, links) && Undone(c, i, p, k, live, links)
    ensures forall u :: u in live ==> Others(u.children, c) == old(Others(u.children, c))
  {
    forall u | u in live ensures Others(u.children, c) == old(Others(u.children, c)) {
      assert old(ParentOk(u, live, links));
      SameUops(old(u.children), c, links);
      if u == p { OthersWithout(old(p.children), c, k); }
    }
  }

  twostate lemma {:induction false} SameUops(s: seq<Odep>, new c: Uop, new links: set<Odep>)
    requires old(allocated(c)) && old(allocated(links))
    requires forall n :: n in links ==> n.uop == old(n.uop)
    requires forall k :: 0 <= k < |s| ==> s[k] in links
    ensures Others(s, c) == old(Others(s, c))
    decreases |s|
  {
    if s == [] {
    } else {
      SameUops(s[1..], c, links);
    }
  }

  ghost predicate Youngest(c: Uop, live: set<Uop>) {
    forall u :: u in live && u != c ==> u.seqNum < c.seqNum
  }

  /** Input i of c is undone, if it has a producer. */
  method UndoInput(c: Uop, i: nat, ghost live: set<Uop>, ghost links: set<Odep>)
    requires Graph(live, links) && c in live && i < MAX_IDEPS == |c.idep|
    modifies live`idep, live`links, live`odep, live`children, links`next
    ensures Graph(live, links) && c.idep == old(c.idep)[i := null]
    ensures forall u :: u in live ==> Others(u.children, c) == old(Others(u.children, c))
    ensures forall u :: u in live - {c} ==> u.idep == old(u.idep)
  {
    if c.idep[i] != null {
      ghost var p, k := UndoOne(c, i, live, links);
      OthersKept(c, i, p, k, live, links);
    }
  }

  /** When the youngest uop has no inputs any more, no list mentions it and its own list is empty. */
  lemma NoLinksLeft(c: Uop, live: set<Uop>, links: set<Odep>)
    requires Graph(live, links) && c in live && Youngest(c, live)
    requires |c.idep| == MAX_IDEPS && forall j :: 0 <= j < MAX_IDEPS ==> c.idep[j] == null
    ensures c.Unlinked()
    ensures forall u :: u in live ==> Others(u.children, c) == u.children
  {
    assert ParentOk(c, live, links) && ChildOk(c, live, links);
    assert c.children == [] by {
      assert |c.children| > 0 ==> LinkOk(c.children[0], c, live);
    }
    forall u | u in live ensures Others(u.children, c) == u.children {
      assert ParentOk(u, live, links);
      forall k | 0 <= k < |u.children| ensures u.children[k].uop != c {
        assert LinkOk(u.children[k], u, live);
      }
      OthersAll(u.children, c);
    }
  }

  /** Cleans up between a squashed uop and its producers. When the youngest uop is squashed it has no
      consumers left, and everybody else keeps exactly the links to others, in order. */
  method UndoDependences(c: Uop, ghost live: set<Uop>, ghost links: set<Odep>)
    requires Graph(live, links) && c in live && Youngest(c, live)
    modifies live`idep, live`links, live`odep, live`children, links`next
    ensures Graph(live, links) && c.Unlinked()
    ensures forall u :: u in live - {c} ==> u.children == old(Others(u.children, c)) && u.idep == old(u.idep)
  {
    assert ChildOk(c, live, links);
    var i := 0;
    while i < MAX_IDEPS
      invariant 0 <= i <= MAX_IDEPS && Graph(live, links)
      invariant |c.idep| == MAX_IDEPS && forall j :: 0 <= j < i ==> c.idep[j] == null
      invariant forall u :: u in live ==> Others(u.children, c) == old(Others(u.children, c))
      invariant forall u :: u in live - {c} ==> u.idep == old(u.idep)
    {
      UndoInput(c, i, live, links);
      i := i + 1;
    }
    NoLinksLeft(c, live, links);
    assert c.odep == null;
  }

  /** The older uops have no consumers left; they have committed before. */
  ghost predicate OldestLinked(c: Uop, live: set<Uop>)
    reads live`children
  {
    forall u :: u in live && u.seqNum < c.seqNum ==> u.children == []
  }

  /** A producer has a consumer. */
  lemma InputListed(c: Uop, i: nat, live: set<Uop>, links: set<Odep>)
    requires Graph(live, links) && c in live && i < MAX_IDEPS
    ensures |c.idep| == MAX_IDEPS
    ensures c.idep[i] != null ==> c.idep[i] in live && c.idep[i].seqNum < c.seqNum && c.idep[i].children != []
  {
    assert ChildOk(c, live, links);
  }

  lemma NoInputs(c: Uop, live: set<Uop>, links: set<Odep>)
    requires Graph(live, links) && c in live && OldestLinked(c, live)
    ensures |c.idep| == |c.links| == MAX_IDEPS && forall i :: 0 <= i < MAX_IDEPS ==> c.idep[i] == null && c.links[i] == null
  {
    assert ChildOk(c, live, links);
    forall i | 0 <= i < MAX_IDEPS ensures c.idep[i] == null {
      InputListed(c, i, live, links);
    }
  }

  /** The pointer changes when the first consumer of c is told that its input has been committed. */
  method PopConsumer(c: Uop, ghost live: set<Uop>, ghost links: set<Odep>)
    requires ParentOk(c, live, links) && c in live && c.odep != null
    modifies live`idep, live`links, c`odep, c`children
    ensures |old(c.children)| > 0 && c.children == old(c.children)[1..] && Chain(c, links)
    ensures Undone(old(c.children[0].uop), old(c.children[0].opNum), c, 0, live, links)
    ensures old(c.children[0].opNum < |c.children[0].uop.idep| && c.children[0].uop.idep[c.children[0].opNum] == c)
  {
    var odep := c.odep;
    assert odep == c.children[0] && LinkOk(odep, c, live);
    assert Without(c.children, 0) == c.children[1..];
    c.odep := odep.next;
    c.children := c.children[1..];
    odep.uop.idep := odep.uop.idep[odep.opNum := null];
    odep.uop.links := odep.uop.links[odep.opNum := null];
  }

  lemma FirstConsumer(c: Uop, live: set<Uop>, links: set<Odep>)
    requires Graph(live, links) && c in live && c.odep != null
    ensures ParentOk(c, live, links) && c.children != []
  {
    assert ParentOk(c, live, links);
  }

  method ReleaseOne(c: Uop, ghost live: set<Uop>, ghost links: set<Odep>)
    requires Graph(live, links) && c in live && c.odep != null
    modifies live`idep, live`links, c`odep, c`children
    ensures Graph(live, links) && |old(c.children)| > 0 && c.children == old(c.children)[1..]
    ensures forall u :: u in live - {c} ==> u.children == old(u.children)
    ensures forall u :: u in live ==> Released(old(u.idep), u.idep, c)
  {
    hide ParentOk, ChildOk, Chain, Without;
    assert ParentOk(c, live, links) && c.children != [] by { FirstConsumer(c, live, links); }
    ghost var child, i := c.children[0].uop, c.children[0].opNum;
    PopConsumer(c, live, links);
    forall u | u in live ensures ParentOk(u, live, links) && ChildOk(u, live, links) {
      ParentsKept(child, i, c, 0, live, links, u);
      ChildrenKept(child, i, c, 0, live, links, u);
    }
  }

  /** Inputs are unchanged, but for some that came from c. */
  ghost predicate Released(before: seq<Uop?>, after: seq<Uop?>, c: Uop) {
    && |after| == |before|
    && forall i :: 0 <= i < |after| ==> after[i] == before[i] || (before[i] == c && after[i] == null)
  }

  /** Cleans up between a uop that commits and its consumers (commit_uop of zesto-oracle.cpp): they take their
      input from the register file from now on. */
  method CommitLinks(c: Uop, ghost live: set<Uop>, ghost links: set<Odep>)
    requires Graph(live, links) && c in live && OldestLinked(c, live)
    modifies live`idep, live`links, c`odep, c`children
    ensures Graph(live, links) && c.Unlinked()
    ensures forall u :: u in live - {c} ==> u.children == old(u.children)
    ensures forall u :: u in live ==> Released(old(u.idep), u.idep, c) && c !in u.idep
  {
    hide ParentOk, ChildOk, Uop.Unlinked;
    ListStart(c, live, links);
    while c.odep != null
      invariant Graph(live, links) && c.odep == At(c.children, 0) && OldestLinked(c, live)
      invariant forall u :: u in live - {c} ==> u.children == old(u.children)
      invariant forall u :: u in live ==> Released(old(u.idep), u.idep, c)
      decreases |c.children|
    {
      label before:
      ReleaseOne(c, live, links);
      forall u | u in live ensures Released(old(u.idep), u.idep, c) {
        ReleasedAgain(old(u.idep), old@before(u.idep), u.idep, c);
      }
      ListStart(c, live, links);
    }
    NothingReleased(c, live, links);
  }

  lemma ListStart(c: Uop, live: set<Uop>, links: set<Odep>)
    requires Graph(live, links) && c in live
    ensures c.odep == At(c.children, 0)
  {
    assert ParentOk(c, live, links);
  }

  lemma ReleasedAgain(a: seq<Uop?>, b: seq<Uop?>, d: seq<Uop?>, c: Uop)
    requires Released(a, b, c) && Released(b, d, c)
    ensures Released(a, d, c)
  {
  }

  lemma NothingReleased(c: Uop, live: set<Uop>, links: set<Odep>)
    requires Graph(live, links) && c in live && OldestLinked(c, live) && c.children == [] && c.odep == null
    ensures c.Unlinked() && forall u :: u in live ==> c !in u.idep
  {
    NoInputs(c, live, links);
    forall u | u in live ensures c !in u.idep {
      InputListed(u, 0, live, links);
      forall i | 0 <= i < |u.idep| ensures u.idep[i] != c {
        InputListed(u, i, live, links);
      }
    }
  }

  /** A squashed uop can be forgotten. */
  lemma Forget(c: Uop, live: set<Uop>, links: set<Odep>)
    requires Graph(live, links) && c in live && c.Unlinked()
    ensures Graph(live - {c}, links)
  {
    forall u | u in live - {c} ensures ParentOk(u, live - {c}, links) && ChildOk(u, live - {c}, links) {
      assert ParentOk(u, live, links) && ChildOk(u, live, links);
      forall k | 0 <= k < |u.children| ensures LinkOk(u.children[k], u, live - {c}) {
        assert LinkOk(u.children[k], u, live);
      }
      forall i | 0 <= i < MAX_IDEPS && u.idep[i] != null ensures u.idep[i] != c {
        assert u.links[i] in u.idep[i].children;
      }
    }
  }

  /** A uop that has just been decoded can join, as it has no links yet. */
  lemma Join(c: Uop, live: set<Uop>, links: set<Odep>)
    requires Graph(live, links) && c !in live && c.Unlinked()
    ensures Graph(live + {c}, links)
  {
    forall u | u in live + {c} ensures ParentOk(u, live + {c}, links) && ChildOk(u, live + {c}, links) {
      if u != c {
        assert ParentOk(u, live, links) && ChildOk(u, live, links);
        forall k | 0 <= k < |u.children| ensures LinkOk(u.children[k], u, live + {c}) {
          assert LinkOk(u.children[k], u, live);
        }
      }
    }
  }

  /** Input i of c is taken from parent: a new link goes to the front of the producer's list. */
  method LinkInput(c: Uop, i: nat, parent: Uop, ghost live: set<Uop>, ghost links: set<Odep>)
    returns (link: Odep)
    requires Graph(live, links) && c in live && parent in live && parent.seqNum < c.seqNum
    requires i < MAX_IDEPS == |c.idep| && c.idep[i] == null
    modifies c`idep, c`links, parent`odep, parent`children
    ensures fresh(link) && Graph(live, links + {link})
    ensures Linked(c, i, parent, link, live, links)
  {
    link := new Odep(c, i, parent.odep, parent);
    c.idep := c.idep[i := parent];
    parent.odep := link;
    parent.children := [link] + parent.children;
    c.links := c.links[i := link];
    forall u | u in live ensures ParentOk(u, live, links + {link}) && ChildOk(u, live, links + {link}) {
      LinkKeepsChain(c, i, parent, link, live, links, u);
      LinkKeepsLinks(c, i, parent, link, live, links, u);
      LinkKeepsChild(c, i, parent, link, live, links, u);
    }
  }

  /** What LinkInput changes. */
  twostate predicate Linked(c: Uop, i: nat, p: Uop, new link: Odep, live: set<Uop>, links: set<Odep>)
    reads live, links, link
  {
    && c in live && p in live && p.seqNum < c.seqNum && i < |old(c.idep)| == |old(c.links)| && old(c.idep[i] == null)
    && link !in links && link.uop == c && link.opNum == i && link.owner == p && link.next == old(p.odep)
    && p.odep == link && p.children == [link] + old(p.children)
    && c.idep == old(c.idep)[i := p] && c.links == old(c.links)[i := link]
    && (forall u :: u in live && u != p ==> u.children == old(u.children) && u.odep == old(u.odep))
    && (forall u :: u in live && u != c ==> u.idep == old(u.idep) && u.links == old(u.links))
    && (forall n :: n in links ==> n.uop == old(n.uop) && n.opNum == old(n.opNum) && n.owner == old(n.owner)
                                   && n.next == old(n.next))
  }

  twostate lemma LinkKeepsChain(new c: Uop, new i: nat, new p: Uop, new link: Odep, live: set<Uop>, new links: set<Odep>, new u: Uop)
    requires old(allocated(links)) && c in live && p in live && u in live
    requires old(Graph(live, links)) && Linked(c, i, p, link, live, links)
    ensures Chain(u, links + {link})
  {
    assert old(ParentOk(u, live, links) && ParentOk(p, live, links));
    if u == p {
      assert old(p.children) == p.children[1..];
      forall k | 0 <= k < |p.children|
        ensures p.children[k] in links + {link} && p.children[k].next == At(p.children, k + 1)
      {
        assert k > 0 ==> p.children[k] == old(p.children)[k - 1];
      }
    } else {
      assert forall k :: 0 <= k < |u.children| ==> u.children[k].next == old(u.children[k].next);
    }
  }

  /** The other links of c and all links of others are as they were. */
  twostate lemma LinkKeepsLink(new c: Uop, new i: nat, new p: Uop, new link: Odep, live: set<Uop>, new links: set<Odep>, new u: Uop, new n: Odep)
    requires old(allocated(links)) && old(allocated(n)) && old(allocated(u)) && n in links && c in live && p in live
    requires old(LinkOk(n, u, live)) && Linked(c, i, p, link, live, links)
    ensures LinkOk(n, u, live)
  {
  }

  twostate lemma LinkKeepsLinks(new c: Uop, new i: nat, new p: Uop, new link: Odep, live: set<Uop>, new links: set<Odep>, new u: Uop)
    requires old(allocated(links)) && c in live && p in live && u in live
    requires old(Graph(live, links)) && Linked(c, i, p, link, live, links)
    ensures forall k :: 0 <= k < |u.children| ==> LinkOk(u.children[k], u, live)
  {
    assert old(ParentOk(u, live, links) && ChildOk(c, live, links));
    forall k | 0 <= k < |u.children| ensures LinkOk(u.children[k], u, live) {
      var j := if u == p then k - 1 else k;
      if j >= 0 {
        assert u.children[k] == old(u.children)[j];
        LinkKeepsLink(c, i, p, link, live, links, u, u.children[k]);
      }
    }
  }

  twostate lemma LinkKeepsChild(new c: Uop, new i: nat, new p: Uop, new link: Odep, live: set<Uop>, new links: set<Odep>, new u: Uop)
    requires old(allocated(links)) && c in live && p in live && u in live
    requires old(Graph(live, links)) && Linked(c, i, p, link, live, links)
    ensures ChildOk(u, live, links + {link})
  {
    assert old(ChildOk(u, live, links));
  }

  twostate lemma LinkKeepsOthers(new c: Uop, new i: nat, new p: Uop, new link: Odep, live: set<Uop>, new links: set<Odep>)
    requires old(allocated(links)) && c in live && p in live
    requires old(Graph(live, links)) && Linked(c, i, p, link, live, links)
    ensures forall u :: u in live ==> Others(u.children, c) == old(Others(u.children, c))
  {
    forall u | u in live ensures Others(u.children, c) == old(Others(u.children, c)) {
      assert old(ParentOk(u, live, links));
      SameUops(old(u.children), c, links);
      if u == p { assert p.children[1..] == old(p.children); }
    }
  }

  /** Input j of c is linked, if it has a producer. */
  method LinkProducer(c: Uop, j: nat, producer: Uop?, ghost live: set<Uop>, ghost links: set<Odep>)
    returns (ghost links': set<Odep>)
    requires Graph(live, links) && c in live && j < MAX_IDEPS == |c.idep| && c.idep[j] == null
    requires producer != null ==> producer in live && producer.seqNum < c.seqNum
    modifies c`idep, c`links, live`odep, live`children
    ensures links <= links' && fresh(links' - links) && Graph(live, links')
    ensures c.idep == old(c.idep)[j := producer]
    ensures forall u :: u in live && u != producer ==> u.children == old(u.children) && u.odep == old(u.odep)
    ensures forall u :: u in live ==> Others(u.children, c) == old(Others(u.children, c))
  {
    links' := links;
    if producer != null {
      var link := LinkInput(c, j, producer, live, links);
      LinkKeepsOthers(c, j, producer, link, live, links);
      links' := links + {link};
    }
  }

  lemma InputsEmpty(c: Uop)
    requires c.Unlinked()
    ensures |c.idep| == MAX_IDEPS && forall j :: 0 <= j < MAX_IDEPS ==> c.idep[j] == null
    ensures c.children == []
  {
  }

  /** At allocation a uop is linked to the producers of its inputs. Nobody's other links change. */
  method LinkDependences(c: Uop, producers: seq<Uop?>, ghost live: set<Uop>, ghost links: set<Odep>)
    returns (ghost links': set<Odep>)
    requires Graph(live, links) && c in live && c.Unlinked() && |producers| == MAX_IDEPS
    requires forall j :: 0 <= j < MAX_IDEPS && producers[j] != null ==>
      producers[j] in live && producers[j].seqNum < c.seqNum
    modifies c`idep, c`links, live`odep, live`children
    ensures links <= links' && fresh(links' - links) && Graph(live, links') && c.idep == producers
    ensures forall u :: u in live && u !in producers ==> u.children == old(u.children) && u.odep == old(u.odep)
    ensures forall u :: u in live ==> Others(u.children, c) == old(Others(u.children, c))
  {
    hide *;
    InputsEmpty(c);
    links' := links;
    var j := 0;
    while j < MAX_IDEPS
      invariant 0 <= j <= MAX_IDEPS && links <= links' && fresh(links' - links) && Graph(live, links')
      invariant |c.idep| == MAX_IDEPS
      invariant forall k :: 0 <= k < MAX_IDEPS ==> c.idep[k] == if k < j then producers[k] else null
      invariant forall u :: u in live && u !in producers ==> u.children == old(u.children) && u.odep == old(u.odep)
      invariant forall u :: u in live ==> Others(u.children, c) == old(Others(u.children, c))
    {
      links' := LinkProducer(c, j, producers[j], live, links');
      j := j + 1;
    }
    assert c.idep == producers;
  }

  /** Squashing a uop right after its allocation restores every producer's list. */
  method LinkThenUndo(c: Uop, producers: seq<Uop?>, ghost live: set<Uop>, ghost links: set<Odep>)
    requires Graph(live, links) && c in live && c.Unlinked() && Youngest(c, live) && |producers| == MAX_IDEPS
    requires forall j :: 0 <= j < MAX_IDEPS && producers[j] != null ==>
      producers[j] in live && producers[j].seqNum < c.seqNum
    modifies live`idep, live`links, live`odep, live`children, links`next
    ensures c.Unlinked() && forall u :: u in live ==> u.children == old(u.children) && u.idep == old(u.idep)
  {
    hide *;
    InputsEmpty(c);
    NoLinksLeft(c, live, links);
    ghost var links' := LinkDependences(c, producers, live, links);
    label linked:
    UndoDependences(c, live, links');
    assert forall u :: u in live - {c} ==> u.children == old@linked(Others(u.children, c));
    InputsEmpty(c);
  }
}
