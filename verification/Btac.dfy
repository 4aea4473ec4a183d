/** The branch target buffer with least-recently-used replacement (btb-btac.cpp): every set is a doubly
    linked list of its entries, most recently used first. */
module Btac {
  import opened RecencyLists
  import opened Sequences

  datatype Line = Line(tag: nat, target: nat)

  class Entry {
    var tag: nat
    var target: nat
    var prev: Entry?
    var next: Entry?

    constructor ()
      ensures tag == 0 && target == 0 && prev == null && next == null
    {
      tag, target, prev, next := 0, 0, null, null;
    }
  }

  // ---------------------------------------------------------------- the recency list as a sequence

  /** The position of the first line with a tag, or |c|. */
  function Find(c: seq<Line>, tag: nat): (k: nat)
    ensures k <= |c| && (k < |c| ==> c[k].tag == tag)
    ensures forall j :: 0 <= j < k ==> c[j].tag != tag
  {
    if c == [] || c[0].tag == tag then 0 else Find(c[1..], tag) + 1
  }

  /** An update with a fresh lookup: a hit moves to the front with its new target; a miss replaces the last
      line. */
  ghost function Touch(c: seq<Line>, tag: nat, target: nat): (c': seq<Line>)
    requires c != []
    ensures |c'| == |c| && c'[0] == Line(tag, target)
  {
    var k := Find(c, tag);
    if k < |c| then ToFront(c[k := Line(tag, target)], k)
    else ToFront(c[|c| - 1 := Line(tag, target)], |c| - 1)
  }

  ghost function TouchAll(c: seq<Line>, updates: seq<Line>): (c': seq<Line>)
    requires c != []
    ensures |c'| == |c|
    decreases |updates|
  {
    if updates == [] then c
    else
      var last := updates[|updates| - 1];
      Touch(TouchAll(c, updates[..|updates| - 1]), last.tag, last.target)
  }

  ghost function Tags(c: seq<Line>): set<nat> {
    set k | 0 <= k < |c| :: c[k].tag
  }

  ghost predicate DistinctTags(c: seq<Line>) {
    forall i, j :: 0 <= i < j < |c| ==> c[i].tag != c[j].tag
  }

  /** Since `line` was updated, the tags in `others` have been: as many lines are ahead of it, if there is
      room for them. */
  ghost predicate Behind(c: seq<Line>, line: Line, others: set<nat>) {
    && line.tag !in others
    && if |others| < |c| then
         c[|others|] == line && DistinctTags(c[..|others|]) && Tags(c[..|others|]) == others
       else Tags(c) <= others
  }

  lemma {:induction false} SubsetSize(a: set<nat>, b: set<nat>)
    requires a <= b
    ensures |a| <= |b|
    decreases |a|
  {
    if x :| x in a { SubsetSize(a - {x}, b - {x}); }
  }

  /** The lines ahead have been touched in a new order. */
  lemma ReorderedTags(ahead: seq<Line>, k: nat, target: nat)
    requires k < |ahead| && DistinctTags(ahead)
    ensures var r := ToFront(ahead[k := Line(ahead[k].tag, target)], k);
            DistinctTags(r) && Tags(r) == Tags(ahead)
  {
    var r := ToFront(ahead[k := Line(ahead[k].tag, target)], k);
    forall i, j | 0 <= i < j < |r| ensures r[i].tag != r[j].tag {
      var i', j' := if i == 0 then k else if i <= k then i - 1 else i, if j <= k then j - 1 else j;
      assert r[i].tag == ahead[i'].tag && r[j].tag == ahead[j'].tag;
    }
    forall t ensures t in Tags(r) <==> t in Tags(ahead) {
      if t in Tags(ahead) {
        var j :| 0 <= j < |ahead| && ahead[j].tag == t;
        assert r[if j == k then 0 else if j < k then j + 1 else j].tag == t;
      }
      if t in Tags(r) {
        var j :| 0 <= j < |r| && r[j].tag == t;
        assert ahead[if j == 0 then k else if j <= k then j - 1 else j].tag == t;
      }
    }
  }

  /** A new tag has come to the front of the lines ahead. */
  lemma MoreTags(ahead: seq<Line>, first: Line)
    requires DistinctTags(ahead) && first.tag !in Tags(ahead)
    ensures DistinctTags([first] + ahead) && Tags([first] + ahead) == Tags(ahead) + {first.tag}
  {
    var r := [first] + ahead;
    forall i, j | 0 <= i < j < |r| ensures r[i].tag != r[j].tag {
      assert r[j].tag in Tags(ahead) by { assert r[j] == ahead[j - 1]; }
    }
    forall t ensures t in Tags(r) <==> t in Tags(ahead) + {first.tag} {
      if t in Tags(ahead) {
        var j :| 0 <= j < |ahead| && ahead[j].tag == t;
        assert r[j + 1].tag == t;
      }
      assert r[0].tag == first.tag;
    }
  }

  lemma {:induction false} TouchKeepsBehind(c: seq<Line>, line: Line, others: set<nat>, tag: nat, target: nat)
    requires c != [] && Behind(c, line, others) && tag != line.tag
    ensures Behind(Touch(c, tag, target), line, others + {tag})
  {
    hide DistinctTags, Tags;
    var c', k, n := Touch(c, tag, target), Find(c, tag), |others|;
    if n >= |c| {
      SubsetSize(others, others + {tag});
      TouchTags(c, tag, target);
    } else if k < n {
      var ahead := c[..n];
      ReorderedTags(ahead, k, target);
      TagIn(ahead, k);
      assert others + {tag} == others;
      assert c'[..n] == ToFront(ahead[k := Line(tag, target)], k);
    } else {
      var ahead := c[..n];
      TagNotIn(ahead, tag);
      MoreTags(ahead, Line(tag, target));
      assert c'[..n + 1] == [Line(tag, target)] + ahead;
      assert n + 1 == |c| ==> c'[..n + 1] == c';
    }
  }

  lemma TouchTags(c: seq<Line>, tag: nat, target: nat)
    requires c != []
    ensures Tags(Touch(c, tag, target)) <= Tags(c) + {tag}
  {
    var c' := Touch(c, tag, target);
    forall j | 0 <= j < |c'| ensures c'[j].tag in Tags(c) + {tag} {
      assert j == 0 || c'[j] in c;
    }
  }

  lemma TagIn(c: seq<Line>, k: nat)
    requires k < |c|
    ensures c[k].tag in Tags(c)
  {
  }

  lemma TagNotIn(c: seq<Line>, tag: nat)
    requires forall j :: 0 <= j < |c| ==> c[j].tag != tag
    ensures tag !in Tags(c)
  {
  }

  /** The guarantee of the replacement policy. After a branch has been updated it is found with its target
      exactly as long as fewer other tags than the set has ways have been updated; then it is gone. */
  lemma {:induction false} Residency(c: seq<Line>, line: Line, updates: seq<Line>)
    requires c != [] && forall u :: u in updates ==> u.tag != line.tag
    ensures var c' := TouchAll(Touch(c, line.tag, line.target), updates);
            var k := Find(c', line.tag);
            if |Tags(updates)| < |c| then k == |Tags(updates)| && c'[k] == line else k == |c|
  {
    var c' := TouchAll(Touch(c, line.tag, line.target), updates);
    AfterUpdates(c, line, updates);
    var n := |Tags(updates)|;
    if n < |c| {
      forall j | 0 <= j < n ensures c'[j].tag != line.tag {
        TagIn(c'[..n], j);
      }
    } else {
      forall j | 0 <= j < |c| ensures c'[j].tag != line.tag {
        TagIn(c', j);
      }
    }
  }

  lemma {:induction false} AfterUpdates(c: seq<Line>, line: Line, updates: seq<Line>)
    requires c != [] && forall u :: u in updates ==> u.tag != line.tag
    ensures Behind(TouchAll(Touch(c, line.tag, line.target), updates), line, Tags(updates))
    decreases |updates|
  {
    hide Behind, Touch, Tags;
    if updates == [] {
      FrontIsBehindNone(c, line);
    } else {
      var init, last := updates[..|updates| - 1], updates[|updates| - 1];
      AfterUpdates(c, line, init);
      TouchKeepsBehind(TouchAll(Touch(c, line.tag, line.target), init), line, Tags(init), last.tag, last.target);
      TagsSnoc(updates);
    }
  }

  lemma FrontIsBehindNone(c: seq<Line>, line: Line)
    requires c != []
    ensures Behind(Touch(c, line.tag, line.target), line, Tags([]))
  {
    assert Tags([]) == {} && Touch(c, line.tag, line.target)[..0] == [];
  }

  lemma TagsSnoc(c: seq<Line>)
    requires c != []
    ensures Tags(c) == Tags(c[..|c| - 1]) + {c[|c| - 1].tag}
  {
  }

  // ---------------------------------------------------------------- the linked list

  ghost function At(nodes: seq<Entry>, k: int): Entry? {
    if 0 <= k < |nodes| then nodes[k] else null
  }

  /** The list runs through the nodes, in both directions. */
  ghost predicate Linked(head: Entry?, nodes: seq<Entry>)
    reads (set n | n in nodes)`prev, (set n | n in nodes)`next
  {
    && head == At(nodes, 0) && Distinct(nodes)
    && forall k :: 0 <= k < |nodes| ==> nodes[k].prev == At(nodes, k - 1) && nodes[k].next == At(nodes, k + 1)
  }

  ghost function Lines(nodes: seq<Entry>): (c: seq<Line>)
    reads nodes
    ensures |c| == |nodes| && forall k :: 0 <= k < |c| ==> c[k] == Line(nodes[k].tag, nodes[k].target)
  {
    seq(|nodes|, k requires 0 <= k < |nodes| reads nodes => Line(nodes[k].tag, nodes[k].target))
  }

  /** A new entry becomes the head of a list. */
  method ToHead(q: Entry, h: Entry, ghost ns: seq<Entry>)
    requires Linked(h, ns) && ns != [] && q !in ns && q.prev == null
    modifies q`next, h`prev
    ensures Linked(q, [q] + ns)
  {
    hide Distinct;
    OnlyAt(ns, 0);
    q.next := h;
    h.prev := q;
    ghost var r := [q] + ns;
    assert r[0] == q && forall k :: 0 < k < |r| ==> r[k] == ns[k - 1];
    forall k | 0 <= k < |r| ensures r[k].prev == At(r, k - 1) {
      if k > 1 { assert r[k].prev == At(ns, k - 2); }
    }
    forall k | 0 <= k < |r| ensures r[k].next == At(r, k + 1) {
      if k > 0 { assert r[k].next == At(ns, k); }
    }
    FirstDistinct(q, ns);
  }

  /** The entry at position k, which is the one found or else the least recently used one, is written and moves
      to the front. An entry that was found keeps its tag. */
  ghost predicate Written(nodes: seq<Entry>, nodes': seq<Entry>, c: seq<Line>, c': seq<Line>, k: nat, found: Entry?,
                          tag: nat, target: nat)
  {
    && k < |nodes| == |c| && nodes' == ToFront(nodes, k)
    && (if found == null then k == |nodes| - 1 else found == nodes[k])
    && c' == ToFront(c[k := Line(if found == null then tag else c[k].tag, target)], k)
  }

  /** One set of the buffer. */
  class BtacSet {
    var head: Entry?
    ghost var nodes: seq<Entry>

    ghost predicate Valid()
      reads this, (set n | n in nodes)`prev, (set n | n in nodes)`next
    {
      nodes != [] && Linked(head, nodes)
    }

    constructor (numWays: nat)
      requires numWays > 0
      ensures Valid() && |nodes| == numWays && fresh(set n | n in nodes)
      ensures Lines(nodes) == seq(numWays, _ => Line(0, 0))
    {
      var p := new Entry();
      ghost var ns: seq<Entry> := [p];
      var j := 1;
      while j < numWays
        invariant 1 <= j <= numWays && |ns| == j && Linked(p, ns) && fresh(set n | n in ns)
        invariant forall n :: n in ns ==> n.tag == 0 && n.target == 0
      {
        var q := new Entry();
        ToHead(q, p, ns);
        p := q;
        ns := [p] + ns;
        j := j + 1;
      }
      head, nodes := p, ns;
    }

    /** The most recently used entry with a tag, if there is one. */
    method Lookup(tag: nat) returns (p: Entry?)
      requires Valid()
      ensures p == At(nodes, Find(Lines(nodes), tag))
    {
      p := head;
      ghost var k := 0;
      while p != null
        invariant 0 <= k <= |nodes| && p == At(nodes, k)
        invariant forall j :: 0 <= j < k ==> nodes[j].tag != tag
        decreases |nodes| - k
      {
        if p.tag == tag {
          break;
        }
        p := p.next;
        k := k + 1;
      }
      FoundAt(Lines(nodes), tag, k);
    }

    /** The entry that the policy evicts. */
    method Victim() returns (p: Entry)
      requires Valid()
      ensures p == nodes[|nodes| - 1]
    {
      p := head;
      ghost var k := 0;
      while p.next != null
        invariant 0 <= k < |nodes| && p == nodes[k]
        decreases |nodes| - k
      {
        p := p.next;
        k := k + 1;
      }
    }

    /** Puts the entry at position k to the front of the list. */
    method PutToFront(p: Entry, ghost k: nat)
      requires Valid() && k < |nodes| && p == nodes[k]
      modifies this, (set n | n in nodes)`prev, (set n | n in nodes)`next
      ensures Valid() && nodes == ToFront(old(nodes), k)
    {
      hide Linked, ToFront, Distinct;
      LinksAt(head, nodes, k);
      OnlyAt(nodes, 0);
      OnlyAt(nodes, k);
      if p.prev == null {
        FrontStays(nodes);
        return;
      }
      Unlink(p, nodes, k);
      head.prev := p;
      p.prev := null;
      p.next := head;
      head := p;
      Relinked(nodes, k);
      nodes := ToFront(nodes, k);
    }

    /** The entry at position k gets a new tag and target and moves to the front. */
    method Renew(p: Entry, ghost k: nat, ghost tag: nat, target: nat)
      requires Valid() && k < |nodes| && p == nodes[k] && p.tag == tag
      modifies this, (set n | n in nodes)`prev, (set n | n in nodes)`next, p`target
      ensures Valid() && nodes == ToFront(old(nodes), k) && nodes[0] == p && p.target == target
      ensures Lines(nodes) == ToFront(old(Lines(nodes))[k := Line(tag, target)], k)
    {
      hide Linked, ToFront;
      ghost var c, ns := Lines(nodes), nodes;
      NodesDistinct(head, nodes);
      p.target := target;
      assert Lines(nodes) == c[k := Line(tag, target)];
      PutToFront(p, k);
      assert Lines(ns) == c[k := Line(tag, target)];
      LinesToFront(ns, k);
      FirstOf(ns, k);
    }

    /** An update. Only taken branches (`outcome`) are stored. `p` is what an earlier lookup has found; it is
        looked up anew if the branch was not predicted taken. Whatever p is, the set keeps its entries and all its
        links: the entry at position k is written and becomes the most recently used one. */
    method Update(tag: nat, target: nat, outcome: bool, predictedTaken: bool, p: Entry?) returns (ghost k: nat)
      requires Valid() && (p != null ==> p in nodes)
      modifies this, (set n | n in nodes)`prev, (set n | n in nodes)`next, (set n | n in nodes)`tag, (set n | n in nodes)`target
      ensures Valid()
      ensures !outcome ==> nodes == old(nodes) && Lines(nodes) == old(Lines(nodes))
      ensures outcome ==>
        var found := if predictedTaken then p else old(At(nodes, Find(Lines(nodes), tag)));
        Written(old(nodes), nodes, old(Lines(nodes)), Lines(nodes), k, found, tag, target)
      ensures outcome && (!predictedTaken || p == old(At(nodes, Find(Lines(nodes), tag)))) ==>
        Lines(nodes) == Touch(old(Lines(nodes)), tag, target)
    {
      hide Linked, ToFront, Touch, Find, Distinct;
      k := 0;
      if !outcome {
        return;
      }
      var q := p;
      if !predictedTaken {
        q := Lookup(tag);
      }
      ghost var c := Lines(nodes);
      NodesDistinct(head, nodes);
      TouchCases(c, tag, target);
      if q != null {
        k :| 0 <= k < |nodes| && nodes[k] == q;
        Renew(q, k, q.tag, target);
      } else {
        k := |nodes| - 1;
        Replace(tag, target);
      }
    }

    /** A miss: the least recently used entry is taken for the branch. */
    method Replace(tag: nat, target: nat)
      requires Valid()
      modifies this, (set n | n in nodes)`prev, (set n | n in nodes)`next, (set n | n in nodes)`tag, (set n | n in nodes)`target
      ensures Valid() && nodes == ToFront(old(nodes), |old(nodes)| - 1)
      ensures Lines(nodes) == ToFront(old(Lines(nodes))[|old(nodes)| - 1 := Line(tag, target)], |old(nodes)| - 1)
    {
      hide Linked, ToFront;
      ghost var c, last := Lines(nodes), |nodes| - 1;
      NodesDistinct(head, nodes);
      var p := Victim();
      p.tag := tag;
      assert Lines(nodes) == c[last := Line(tag, c[last].target)];
      Renew(p, last, tag, target);
      assert c[last := Line(tag, c[last].target)][last := Line(tag, target)] == c[last := Line(tag, target)];
    }
  }

  lemma NodesDistinct(head: Entry?, nodes: seq<Entry>)
    requires Linked(head, nodes)
    ensures forall i, j :: 0 <= i < j < |nodes| ==> nodes[i] != nodes[j]
  {
  }

  lemma LinksAt(head: Entry?, nodes: seq<Entry>, k: nat)
    requires Linked(head, nodes) && k < |nodes|
    ensures head == nodes[0] && Distinct(nodes) && nodes[k].prev == At(nodes, k - 1) && nodes[k].next == At(nodes, k + 1)
    ensures forall j :: 0 <= j < |nodes| ==> nodes[j].prev == At(nodes, j - 1) && nodes[j].next == At(nodes, j + 1)
  {
  }

  /** Takes the entry at position k, which is not the first, out of the list. */
  method Unlink(p: Entry, ghost nodes: seq<Entry>, ghost k: nat)
    requires 0 < k < |nodes| && p == nodes[k] && Distinct(nodes)
    requires forall j :: 0 <= j < |nodes| ==> nodes[j].prev == At(nodes, j - 1) && nodes[j].next == At(nodes, j + 1)
    modifies (set n | n in nodes)`prev, (set n | n in nodes)`next
    ensures forall j :: 0 <= j < |nodes| && j != k ==>
      && nodes[j].next == (if j == k - 1 then At(nodes, k + 1) else At(nodes, j + 1))
      && nodes[j].prev == (if j == k + 1 then nodes[k - 1] else At(nodes, j - 1))
  {
    hide Distinct;
    OnlyAt(nodes, k - 1);
    if k + 1 < |nodes| { OnlyAt(nodes, k + 1); }
    assert p.prev == nodes[k - 1] && p.next == At(nodes, k + 1);
    p.prev.next := p.next;
    assert forall j :: 0 <= j < |nodes| ==> nodes[j].prev == At(nodes, j - 1);
    if p.next != null {
      p.next.prev := p.prev;
    }
  }

  /** The links are right again after the entry at position k has been put to the front. */
  lemma Relinked(nodes: seq<Entry>, k: nat)
    requires 0 < k < |nodes| && Distinct(nodes) && nodes[k].prev == null && nodes[k].next == nodes[0]
    requires nodes[0].prev == nodes[k]
    requires forall j :: 0 <= j < |nodes| && j != k ==>
      && nodes[j].next == (if j == k - 1 then At(nodes, k + 1) else At(nodes, j + 1))
      && (j > 0 ==> nodes[j].prev == if j == k + 1 then nodes[k - 1] else nodes[j - 1])
    ensures Linked(nodes[k], ToFront(nodes, k))
  {
    var r := ToFront(nodes, k);
    ToFrontDistinct(nodes, k);
    forall j | 0 <= j < |r|
      ensures r[j].prev == At(r, j - 1)
      ensures r[j].next == At(r, j + 1)
    {
      if j == 0 {
        assert r[0] == nodes[k] && r[1] == nodes[0];
      } else if j <= k {
        var i := j - 1;
        assert r[j] == nodes[i] && nodes[i].prev == if i == 0 then nodes[k] else nodes[i - 1];
        assert r[j - 1] == if i == 0 then nodes[k] else nodes[i - 1];
        assert j < k ==> r[j + 1] == nodes[j];
        assert j == k && k + 1 < |r| ==> r[k + 1] == nodes[k + 1];
      } else {
        assert r[j] == nodes[j] && r[j - 1] == if j == k + 1 then nodes[k - 1] else nodes[j - 1];
        assert nodes[j].prev == if j == k + 1 then nodes[k - 1] else nodes[j - 1];
        assert j + 1 < |r| ==> r[j + 1] == nodes[j + 1];
      }
    }
  }

  lemma LinesToFront(nodes: seq<Entry>, k: nat)
    requires k < |nodes|
    ensures Lines(ToFront(nodes, k)) == ToFront(Lines(nodes), k)
  {
  }

  lemma TouchCases(c: seq<Line>, tag: nat, target: nat)
    requires c != []
    ensures var k := Find(c, tag);
            if k < |c| then c[k].tag == tag && Touch(c, tag, target) == ToFront(c[k := Line(tag, target)], k)
            else Touch(c, tag, target) == ToFront(c[|c| - 1 := Line(tag, target)], |c| - 1)
  {
  }

  lemma FoundAt(c: seq<Line>, tag: nat, k: nat)
    requires k <= |c| && (k < |c| ==> c[k].tag == tag) && forall j :: 0 <= j < k ==> c[j].tag != tag
    ensures Find(c, tag) == k
  {
  }
}
