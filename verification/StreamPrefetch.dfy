/** The stream prefetcher (prefetch-stream.cpp): two tables of recent addresses, kept as singly linked lists
    with the most recently used entry first. A miss next to the last one of its page, in either direction,
    prefetches the line after that. */
module StreamPrefetch {
  import opened PageTables
  import opened RecencyLists
  import opened Sequences

  class Entry {
    var lastPaddr: Addr
    var next: Entry?

    constructor ()
      ensures lastPaddr == 0 && next == null
    {
      lastPaddr, next := 0, null;
    }
  }

  // ---------------------------------------------------------------- the tables as sequences of addresses

  /** The position of the first entry for a page, or |c|. */
  ghost function FindPage(c: seq<Addr>, page: Addr): (k: nat)
    ensures k <= |c| && (k < |c| ==> RoundDown(c[k]) == page)
    ensures forall j :: 0 <= j < k ==> RoundDown(c[j]) != page
  {
    if c == [] || RoundDown(c[0]) == page then 0 else FindPage(c[1..], page) + 1
  }

  /** The entry at position k records an address and becomes the most recently used one. */
  ghost function Record(c: seq<Addr>, k: nat, paddr: Addr): (c': seq<Addr>)
    requires k < |c|
    ensures |c'| == |c| && c'[0] == paddr
  {
    ToFront(c[k := paddr], k)
  }

  /** The least recently used entry is taken for an address. */
  ghost function Allocate(c: seq<Addr>, paddr: Addr): (c': seq<Addr>)
    requires c != []
    ensures |c'| == |c| && c'[0] == paddr
  {
    Record(c, |c| - 1, paddr)
  }

  /** Line numbers, of which an address has the next (1) or the previous (-1) one after the address in entry k. */
  ghost predicate Adjacent(c: seq<Addr>, k: nat, paddr: Addr, line: nat, step: int)
    requires line > 0
  {
    k < |c| && paddr / line == c[k] / line + step
  }

  datatype Tables = Tables(up: seq<Addr>, down: seq<Addr>, prefetch: Addr)

  /** The effect of a lookup. A page that one table knows but not the other changes hands only when the
      address continues in the other direction. */
  ghost function Lookup(up: seq<Addr>, down: seq<Addr>, paddr: Addr, line: Addr): Tables
    requires up != [] && down != [] && line > 0
  {
    var i, j := FindPage(up, RoundDown(paddr)), FindPage(down, RoundDown(paddr));
    if Adjacent(up, i, paddr, line, 1) then Tables(Record(up, i, paddr), down, Plus(paddr, line))
    else if Adjacent(down, j, paddr, line, -1) then Tables(up, Record(down, j, paddr), Minus(paddr, line))
    else if i == |up| && (j == |down| || Adjacent(down, j, paddr, line, 1)) then Tables(Allocate(up, paddr), down, 0)
    else if j == |down| && Adjacent(up, i, paddr, line, -1) then Tables(up, Allocate(down, paddr), 0)
    else Tables(up, down, 0)
  }

  /** No two entries are for the same page, except for page 0, for which all entries are at first. */
  ghost predicate PagesApart(c: seq<Addr>) {
    forall i, j :: 0 <= i < j < |c| && RoundDown(c[i]) == RoundDown(c[j]) ==> RoundDown(c[i]) == 0
  }

  lemma RecordKeepsApart(c: seq<Addr>, k: nat, paddr: Addr)
    requires k < |c| && PagesApart(c)
    requires forall j :: 0 <= j < |c| && j != k && RoundDown(c[j]) == RoundDown(paddr) ==> RoundDown(paddr) == 0
    ensures PagesApart(Record(c, k, paddr))
  {
    var d, r := c[k := paddr], Record(c, k, paddr);
    forall i, j | 0 <= i < j < |r| && RoundDown(r[i]) == RoundDown(r[j]) ensures RoundDown(r[i]) == 0 {
      var i', j' := if i == 0 then k else if i <= k then i - 1 else i, if j <= k then j - 1 else j;
      assert r[i] == d[i'] && r[j] == d[j'] && i' != j';
    }
  }

  /** Every lookup keeps the tables free of duplicates. */
  lemma LookupKeepsApart(up: seq<Addr>, down: seq<Addr>, paddr: Addr, line: Addr)
    requires up != [] && down != [] && line > 0 && PagesApart(up) && PagesApart(down)
    ensures var t := Lookup(up, down, paddr, line); PagesApart(t.up) && PagesApart(t.down)
  {
    var i, j := FindPage(up, RoundDown(paddr)), FindPage(down, RoundDown(paddr));
    if i < |up| { RecordKeepsApart(up, i, paddr); } else { RecordKeepsApart(up, |up| - 1, paddr); }
    if j < |down| { RecordKeepsApart(down, j, paddr); } else { RecordKeepsApart(down, |down| - 1, paddr); }
  }

  // ---------------------------------------------------------------- what a stream of accesses sees

  /** An upward stream has reached address a: its entry is among the k + 1 most recently used ones. */
  ghost predicate Follows(up: seq<Addr>, a: Addr, k: nat) {
    var i := FindPage(up, RoundDown(a));
    i < |up| && i <= k && up[i] == a
  }

  /** A downward stream has reached address a; it is not about to meet an upward one of the same page. */
  ghost predicate FollowsDown(up: seq<Addr>, down: seq<Addr>, a: Addr, line: Addr, k: nat)
    requires line > 0
  {
    var i, j := FindPage(up, RoundDown(a)), FindPage(down, RoundDown(a));
    j < |down| && j <= k && down[j] == a && (i < |up| ==> up[i] / line + 1 >= a / line)
  }

  lemma FoundAt(c: seq<Addr>, page: Addr, k: nat)
    requires k <= |c| && (k < |c| ==> RoundDown(c[k]) == page) && forall j :: 0 <= j < k ==> RoundDown(c[j]) != page
    ensures FindPage(c, page) == k
  {
  }

  lemma RecordAt(c: seq<Addr>, k: nat, paddr: Addr)
    requires k < |c|
    ensures var r := Record(c, k, paddr);
            forall j :: 0 <= j < |r| ==> r[j] == if j == 0 then paddr else if j <= k then c[j - 1] else c[j]
  {
    var d, r := c[k := paddr], Record(c, k, paddr);
    assert r == [d[k]] + d[..k] + d[k + 1..];
  }

  /** Recording an address of another page moves an entry back by one place at most. */
  lemma RecordOther(c: seq<Addr>, k: nat, other: Addr, page: Addr)
    requires k < |c| && RoundDown(other) != page && k != FindPage(c, page)
    ensures var i, i' := FindPage(c, page), FindPage(Record(c, k, other), page);
            if i < |c| then i <= i' <= i + 1 && i' < |c| && Record(c, k, other)[i'] == c[i] else i' == |c|
  {
    hide FindPage, RoundDown;
    var i, r := FindPage(c, page), Record(c, k, other);
    RecordAt(c, k, other);
    FoundAt(r, page, if i < |c| && i < k then i + 1 else i);
  }

  /** The first entry of a page stays, moves back by one place, or goes, if it is the last one. */
  ghost predicate EntryStays(c: seq<Addr>, c': seq<Addr>, page: Addr) {
    var i, i' := FindPage(c, page), FindPage(c', page);
    && |c'| == |c|
    && (i' < |c| ==> i < |c| && i <= i' <= i + 1 && c'[i'] == c[i])
    && (i' == |c| ==> i >= |c| - 1)
  }

  lemma NothingMoves(c: seq<Addr>, page: Addr)
    ensures EntryStays(c, c, page)
  {
  }

  lemma RecordFound(c: seq<Addr>, other: Addr, page: Addr)
    requires RoundDown(other) != page && FindPage(c, RoundDown(other)) < |c|
    ensures EntryStays(c, Record(c, FindPage(c, RoundDown(other)), other), page)
  {
    hide RoundDown, Record;
    RecordOther(c, FindPage(c, RoundDown(other)), other, page);
  }

  lemma AllocateOther(c: seq<Addr>, other: Addr, page: Addr)
    requires RoundDown(other) != page && c != []
    ensures EntryStays(c, Allocate(c, other), page)
  {
    hide FindPage, RoundDown;
    var i, r := FindPage(c, page), Record(c, |c| - 1, other);
    if i != |c| - 1 {
      RecordOther(c, |c| - 1, other, page);
    } else {
      RecordAt(c, |c| - 1, other);
      FoundAt(r, page, |c|);
    }
  }

  lemma OthersStay(up: seq<Addr>, down: seq<Addr>, page: Addr, other: Addr, line: Addr)
    requires up != [] && down != [] && line > 0 && RoundDown(other) != page
    ensures var t := Lookup(up, down, other, line); EntryStays(up, t.up, page) && EntryStays(down, t.down, page)
  {
    hide RoundDown, Record, EntryStays, FindPage, Allocate;
    NothingMoves(up, page);
    NothingMoves(down, page);
    if FindPage(up, RoundDown(other)) < |up| { RecordFound(up, other, page); }
    if FindPage(down, RoundDown(other)) < |down| { RecordFound(down, other, page); }
    AllocateOther(up, other, page);
    AllocateOther(down, other, page);
  }

  /** The first access to a page that no table knows begins an upward stream. */
  lemma StreamBegins(up: seq<Addr>, down: seq<Addr>, a: Addr, line: Addr)
    requires up != [] && down != [] && line > 0
    requires FindPage(up, RoundDown(a)) == |up| && FindPage(down, RoundDown(a)) == |down|
    ensures var t := Lookup(up, down, a, line); t.prefetch == 0 && Follows(t.up, a, 0) && t.down == down
  {
  }

  /** A step down in a page that only the upward table knows begins a downward stream. */
  lemma TurnsDown(up: seq<Addr>, down: seq<Addr>, a: Addr, a': Addr, line: Addr, k: nat)
    requires down != [] && line > 0 && Follows(up, a, k) && FindPage(down, RoundDown(a)) == |down|
    requires RoundDown(a') == RoundDown(a) && a' / line == a / line - 1
    ensures var t := Lookup(up, down, a', line); t.prefetch == 0 && FollowsDown(t.up, t.down, a', line, 0)
  {
  }

  /** A step up in a page that only the downward table knows begins an upward stream. */
  lemma TurnsUp(up: seq<Addr>, down: seq<Addr>, a: Addr, a': Addr, line: Addr, k: nat)
    requires up != [] && line > 0 && FollowsDown(up, down, a, line, k) && FindPage(up, RoundDown(a)) == |up|
    requires RoundDown(a') == RoundDown(a) && a' / line == a / line + 1
    ensures var t := Lookup(up, down, a', line); t.prefetch == 0 && Follows(t.up, a', 0)
  {
  }

  /** An access that is not next to the last ones of a known page changes nothing. */
  lemma JumpIsIgnored(up: seq<Addr>, down: seq<Addr>, a: Addr, line: Addr)
    requires up != [] && down != [] && line > 0
    requires var i, j := FindPage(up, RoundDown(a)), FindPage(down, RoundDown(a));
             && (i < |up| || j < |down|)
             && (i < |up| ==> a / line - up[i] / line !in {-1, 1})
             && (j < |down| ==> a / line - down[j] / line !in {-1, 1})
    ensures Lookup(up, down, a, line) == Tables(up, down, 0)
  {
  }

  /** The next line of the stream is prefetched for, as long as its entry is there. */
  lemma StreamGoesOn(up: seq<Addr>, down: seq<Addr>, a: Addr, a': Addr, line: Addr, k: nat)
    requires down != [] && line > 0 && Follows(up, a, k)
    requires RoundDown(a') == RoundDown(a) && a' / line == a / line + 1
    ensures var t := Lookup(up, down, a', line); t.prefetch == Plus(a', line) && Follows(t.up, a', 0)
  {
  }

  lemma DownGoesOn(up: seq<Addr>, down: seq<Addr>, a: Addr, a': Addr, line: Addr, k: nat)
    requires up != [] && line > 0 && FollowsDown(up, down, a, line, k)
    requires RoundDown(a') == RoundDown(a) && a' / line == a / line - 1
    ensures var t := Lookup(up, down, a', line);
            t.prefetch == Minus(a', line) && FollowsDown(t.up, t.down, a', line, 0)
  {
  }

  /** A lookup in another page leaves the stream's entry in place, or one place further back. */
  lemma OtherLookup(up: seq<Addr>, down: seq<Addr>, a: Addr, other: Addr, line: Addr, k: nat)
    requires up != [] && down != [] && line > 0 && RoundDown(other) != RoundDown(a)
    ensures var t := Lookup(up, down, other, line);
            && |t.up| == |up| && |t.down| == |down|
            && (Follows(up, a, k) && k + 1 < |up| ==> Follows(t.up, a, k + 1))
            && (FollowsDown(up, down, a, line, k) && k + 1 < |down| ==> FollowsDown(t.up, t.down, a, line, k + 1))
  {
    hide RoundDown, Lookup, FindPage;
    OthersStay(up, down, RoundDown(a), other, line);
  }

  /** The tables after lookups of all these addresses. */
  ghost function LookupAll(up: seq<Addr>, down: seq<Addr>, addrs: seq<Addr>, line: Addr): (t: Tables)
    requires up != [] && down != [] && line > 0
    ensures |t.up| == |up| && |t.down| == |down|
  {
    if addrs == [] then Tables(up, down, 0)
    else
      var t := LookupAll(up, down, addrs[..|addrs| - 1], line);
      Lookup(t.up, t.down, addrs[|addrs| - 1], line)
  }

  /** Fewer lookups in other pages than there are entries do not disturb a stream. */
  lemma {:induction false} OthersDoNotDisturb(up: seq<Addr>, down: seq<Addr>, a: Addr, others: seq<Addr>, line: Addr)
    requires up != [] && down != [] && line > 0 && forall o :: o in others ==> RoundDown(o) != RoundDown(a)
    ensures var t := LookupAll(up, down, others, line);
            && (Follows(up, a, 0) && |others| < |up| ==> Follows(t.up, a, |others|))
            && (FollowsDown(up, down, a, line, 0) && |others| < |down| ==>
                  FollowsDown(t.up, t.down, a, line, |others|))
  {
    hide RoundDown, Lookup, Follows, FollowsDown;
    if others == [] {
    } else {
      var init, last := others[..|others| - 1], others[|others| - 1];
      OthersDoNotDisturb(up, down, a, init, line);
      var t := LookupAll(up, down, init, line);
      OtherLookup(t.up, t.down, a, last, line, |init|);
    }
  }

  /** Every access of an upward stream but the first prefetches the line after it, whatever happens in other
      pages, if fewer than |up| lookups come in between. */
  lemma StreamIsFollowed(up: seq<Addr>, down: seq<Addr>, a: Addr, others: seq<Addr>, a': Addr, line: Addr)
    requires down != [] && line > 0 && Follows(up, a, 0)
    requires |others| < |up| && forall o :: o in others ==> RoundDown(o) != RoundDown(a)
    requires RoundDown(a') == RoundDown(a) && a' / line == a / line + 1
    ensures var t := LookupAll(up, down, others + [a'], line);
            t.prefetch == Plus(a', line) && Follows(t.up, a', 0)
  {
    hide RoundDown, Lookup, Follows;
    OthersDoNotDisturb(up, down, a, others, line);
    assert (others + [a'])[..|others + [a']| - 1] == others;
    var t := LookupAll(up, down, others, line);
    StreamGoesOn(t.up, t.down, a, a', line, |others|);
  }

  /** Every access of a downward stream but the first prefetches the line before it. */
  lemma DownIsFollowed(up: seq<Addr>, down: seq<Addr>, a: Addr, others: seq<Addr>, a': Addr, line: Addr)
    requires up != [] && line > 0 && FollowsDown(up, down, a, line, 0)
    requires |others| < |down| && forall o :: o in others ==> RoundDown(o) != RoundDown(a)
    requires RoundDown(a') == RoundDown(a) && a' / line == a / line - 1
    ensures var t := LookupAll(up, down, others + [a'], line);
            t.prefetch == Minus(a', line) && FollowsDown(t.up, t.down, a', line, 0)
  {
    hide RoundDown, Lookup, FollowsDown;
    OthersDoNotDisturb(up, down, a, others, line);
    assert (others + [a'])[..|others + [a']| - 1] == others;
    var t := LookupAll(up, down, others, line);
    DownGoesOn(t.up, t.down, a, a', line, |others|);
  }

  /** Accesses to one line after the other of a page, upwards (1) or downwards (-1). */
  ghost predicate LineByLine(run: seq<Addr>, line: Addr, step: int)
    requires line > 0
  {
    && (forall k :: 0 <= k < |run| ==> RoundDown(run[k]) == RoundDown(run[0]))
    && forall k :: 0 < k < |run| ==> run[k] / line == run[k - 1] / line + step
  }

  lemma FewerLines(run: seq<Addr>, line: Addr, step: int)
    requires line > 0 && LineByLine(run, line, step) && |run| > 1
    ensures var n := |run| - 1;
            && LineByLine(run[..n], line, step) && run[..n][0] == run[0] && run[..n][n - 1] == run[n - 1]
            && RoundDown(run[n]) == RoundDown(run[n - 1]) && run[n] / line == run[n - 1] / line + step
  {
    var less := run[..|run| - 1];
    forall k | 0 < k < |less| ensures less[k] / line == less[k - 1] / line + step {
      assert less[k] == run[k] && less[k - 1] == run[k - 1];
    }
    assert RoundDown(run[|run| - 2]) == RoundDown(run[0]);
  }

  /** Walking up through a page that no table knows prefetches from the second access on. */
  lemma {:induction false} WalkUp(up: seq<Addr>, down: seq<Addr>, run: seq<Addr>, line: Addr)
    requires up != [] && down != [] && line > 0 && run != [] && LineByLine(run, line, 1)
    requires FindPage(up, RoundDown(run[0])) == |up| && FindPage(down, RoundDown(run[0])) == |down|
    ensures var t, last := LookupAll(up, down, run, line), run[|run| - 1];
            Follows(t.up, last, 0) && t.prefetch == if |run| == 1 then 0 else Plus(last, line)
  {
    hide RoundDown, Lookup, Follows, LineByLine;
    if |run| == 1 {
      StreamBegins(up, down, run[0], line);
      assert run[..0] == [];
    } else {
      var n := |run| - 1;
      FewerLines(run, line, 1);
      WalkUp(up, down, run[..n], line);
      var t := LookupAll(up, down, run[..n], line);
      StreamGoesOn(t.up, t.down, run[n - 1], run[n], line, 0);
    }
  }

  lemma FirstLookup(up: seq<Addr>, down: seq<Addr>, run: seq<Addr>, line: Addr)
    requires up != [] && down != [] && line > 0 && |run| == 1
    ensures LookupAll(up, down, run, line) == Lookup(up, down, run[0], line)
  {
    assert run[..0] == [];
    assert LookupAll(up, down, [], line) == Tables(up, down, 0);
  }

  /** Walking down prefetches from the third access on: the first step down only turns the stream. */
  lemma {:induction false} WalkDown(up: seq<Addr>, down: seq<Addr>, run: seq<Addr>, line: Addr)
    requires up != [] && down != [] && line > 0 && |run| >= 2 && LineByLine(run, line, -1)
    requires FindPage(up, RoundDown(run[0])) == |up| && FindPage(down, RoundDown(run[0])) == |down|
    ensures var t, last := LookupAll(up, down, run, line), run[|run| - 1];
            FollowsDown(t.up, t.down, last, line, 0) && t.prefetch == if |run| == 2 then 0 else Minus(last, line)
  {
    hide RoundDown, Lookup, Follows, FollowsDown, LineByLine;
    var n := |run| - 1;
    FewerLines(run, line, -1);
    var t := LookupAll(up, down, run[..n], line);
    if n == 1 {
      StreamBegins(up, down, run[0], line);
      FirstLookup(up, down, run[..1], line);
      TurnsDown(t.up, t.down, run[0], run[1], line, 0);
    } else {
      WalkDown(up, down, run[..n], line);
      DownGoesOn(t.up, t.down, run[n - 1], run[n], line, 0);
    }
  }

  // ---------------------------------------------------------------- the linked lists

  ghost function At(nodes: seq<Entry>, k: int): Entry? {
    if 0 <= k < |nodes| then nodes[k] else null
  }

  ghost predicate Linked(head: Entry?, nodes: seq<Entry>)
    reads (set n | n in nodes)`next
  {
    head == At(nodes, 0) && Distinct(nodes) && forall k :: 0 <= k < |nodes| ==> nodes[k].next == At(nodes, k + 1)
  }

  ghost function Addrs(nodes: seq<Entry>): (c: seq<Addr>)
    reads nodes
    ensures |c| == |nodes| && forall k :: 0 <= k < |c| ==> c[k] == nodes[k].lastPaddr
  {
    seq(|nodes|, k requires 0 <= k < |nodes| reads nodes => nodes[k].lastPaddr)
  }

  class StreamTable {
    var head: Entry?
    ghost var nodes: seq<Entry>

    ghost predicate Valid()
      reads this, (set n | n in nodes)`next
    {
      nodes != [] && Linked(head, nodes)
    }

    constructor (size: nat)
      requires size > 0
      ensures Valid() && |nodes| == size && fresh(set n | n in nodes) && Addrs(nodes) == seq(size, _ => 0)
    {
      var p := new Entry();
      ghost var ns: seq<Entry> := [p];
      var j := 1;
      while j < size
        invariant 1 <= j <= size && |ns| == j && Linked(p, ns) && fresh(set n | n in ns)
        invariant forall n :: n in ns ==> n.lastPaddr == 0
      {
        var q := new Entry();
        q.next := p;
        FirstDistinct(q, ns);
        assert Linked(q, [q] + ns);
        p := q;
        ns := [p] + ns;
        j := j + 1;
      }
      head, nodes := p, ns;
    }

    /** The entry for a page, and the one before it in the list. */
    method Find(page: Addr) returns (p: Entry?, prev: Entry?, ghost k: nat)
      requires Valid()
      ensures k == FindPage(Addrs(nodes), page) && p == At(nodes, k) && prev == At(nodes, k - 1)
    {
      p, prev, k := head, null, 0;
      while p != null
        invariant 0 <= k <= |nodes| && p == At(nodes, k) && prev == At(nodes, k - 1)
        invariant forall j :: 0 <= j < k ==> RoundDown(nodes[j].lastPaddr) != page
        decreases |nodes| - k
      {
        if page == RoundDown(p.lastPaddr) {
          break;
        }
        prev := p;
        p := p.next;
        k := k + 1;
      }
      FoundAt(Addrs(nodes), page, k);
    }

    method Last() returns (p: Entry, prev: Entry?)
      requires Valid()
      ensures p == nodes[|nodes| - 1] && prev == At(nodes, |nodes| - 2)
    {
      p, prev := head, null;
      ghost var k := 0;
      while p.next != null
        invariant 0 <= k < |nodes| && p == nodes[k] && prev == At(nodes, k - 1)
        decreases |nodes| - k
      {
        prev := p;
        p := p.next;
        k := k + 1;
      }
    }

    /** Entry p at position k, behind prev, moves to the front. */
    method PutToFront(p: Entry, prev: Entry?, ghost k: nat)
      requires Valid() && k < |nodes| && p == nodes[k] && prev == At(nodes, k - 1)
      modifies this, (set n | n in nodes)`next
      ensures Valid() && nodes == ToFront(old(nodes), k)
    {
      hide ToFront, Distinct;
      OnlyAt(nodes, k);
      if prev != null {
        OnlyAt(nodes, k - 1);
        prev.next := p.next;
        p.next := head;
        head := p;
        FrontLinked(head, nodes, k);
        nodes := ToFront(nodes, k);
      } else {
        FrontStays(nodes);
      }
    }

    /** Entry p at position k, behind prev, records an address and moves to the front. */
    method RecordEntry(p: Entry, prev: Entry?, ghost k: nat, paddr: Addr)
      requires Valid() && k < |nodes| && p == nodes[k] && prev == At(nodes, k - 1)
      modifies this, (set n | n in nodes)`next, p`lastPaddr
      ensures Valid() && nodes == ToFront(old(nodes), k)
      ensures Addrs(nodes) == Record(old(Addrs(nodes)), k, paddr)
    {
      hide ToFront, Distinct;
      ghost var c, ns := Addrs(nodes), nodes;
      OnlyAt(nodes, k);
      p.lastPaddr := paddr;
      assert Addrs(nodes) == c[k := paddr];
      PutToFront(p, prev, k);
      assert Addrs(ns) == c[k := paddr];
      AddrsToFront(ns, k);
    }
  }

  lemma AddrsToFront(nodes: seq<Entry>, k: nat)
    requires k < |nodes|
    ensures Addrs(ToFront(nodes, k)) == ToFront(Addrs(nodes), k)
  {
  }

  /** The links are right again after the entry at position k has been put to the front. */
  lemma FrontLinked(p: Entry, nodes: seq<Entry>, k: nat)
    requires 0 < k < |nodes| && Distinct(nodes) && p == nodes[k] && p.next == nodes[0]
    requires forall j :: 0 <= j < |nodes| && j != k ==>
      nodes[j].next == if j == k - 1 then At(nodes, k + 1) else At(nodes, j + 1)
    ensures Linked(p, ToFront(nodes, k))
  {
    var r := ToFront(nodes, k);
    ToFrontDistinct(nodes, k);
    forall j | 0 <= j < |r| ensures r[j].next == At(r, j + 1) {
      assert r[j] == nodes[if j == 0 then k else if j <= k then j - 1 else j];
    }
  }

  lemma ZerosApart(n: nat)
    ensures PagesApart(seq(n, _ => 0))
  {
  }

  class Prefetcher {
    const lineSize: Addr
    const upstream: StreamTable
    const downstream: StreamTable

    /** The tables are lists of their own. */
    ghost predicate Shape()
      reads upstream, downstream
      reads (set n | n in upstream.nodes)`next, (set n | n in downstream.nodes)`next
    {
      && lineSize > 0 && upstream != downstream && upstream.Valid() && downstream.Valid()
      && (forall n :: n in upstream.nodes ==> n !in downstream.nodes)
    }

    ghost function Up(): seq<Addr>
      reads upstream, upstream.nodes
    {
      Addrs(upstream.nodes)
    }

    ghost function Down(): seq<Addr>
      reads downstream, downstream.nodes
    {
      Addrs(downstream.nodes)
    }

    /** No two entries of a table are for the same page. */
    ghost predicate Valid()
      reads this, upstream, downstream, upstream.nodes, downstream.nodes
    {
      Shape() && PagesApart(Up()) && PagesApart(Down())
    }

    constructor (lineSize: Addr, upEntries: nat, downEntries: nat)
      requires lineSize > 0 && upEntries > 0 && downEntries > 0
      ensures Valid() && Up() == seq(upEntries, _ => 0) && Down() == seq(downEntries, _ => 0) && this.lineSize == lineSize
      ensures fresh(upstream) && fresh(downstream)
      ensures fresh(set n | n in upstream.nodes) && fresh(set n | n in downstream.nodes)
    {
      this.lineSize := lineSize;
      hide StreamTable.Valid, PagesApart, Addrs, Linked, RoundDown, Distinct;
      upstream := new StreamTable(upEntries);
      downstream := new StreamTable(downEntries);
      new;
      ZerosApart(upEntries);
      ZerosApart(downEntries);
    }

    lemma MemberAt(nodes: seq<Entry>, k: nat)
      requires k < |nodes|
      ensures forall n :: n in ToFront(nodes, k) <==> n in nodes
    {
      ToFrontPermutes(nodes, k);
      assert forall n :: n in nodes <==> n in multiset(nodes);
      assert forall n :: n in ToFront(nodes, k) <==> n in multiset(ToFront(nodes, k));
    }

    method RecordUp(p: Entry, prev: Entry?, ghost k: nat, paddr: Addr)
      requires Shape() && k < |upstream.nodes| && p == upstream.nodes[k] && prev == At(upstream.nodes, k - 1)
      modifies upstream, upstream.nodes
      ensures Shape() && Up() == Record(old(Up()), k, paddr) && Down() == old(Down())
      ensures multiset(upstream.nodes) == multiset(old(upstream.nodes))
    {
      hide ToFront, Linked, Record;
      ToFrontPermutes(upstream.nodes, k);
      MemberAt(upstream.nodes, k);
      ghost var others, c := downstream.nodes, Down();
      forall j | 0 <= j < |others| ensures others[j] !in upstream.nodes { assert others[j] in others; }
      upstream.RecordEntry(p, prev, k, paddr);
      assert downstream.nodes == others && Down() == c by {
        assert forall j :: 0 <= j < |others| ==> others[j].lastPaddr == c[j];
      }
    }

    method RecordDown(p: Entry, prev: Entry?, ghost k: nat, paddr: Addr)
      requires Shape() && k < |downstream.nodes| && p == downstream.nodes[k] && prev == At(downstream.nodes, k - 1)
      modifies downstream, downstream.nodes
      ensures Shape() && Down() == Record(old(Down()), k, paddr) && Up() == old(Up())
      ensures multiset(downstream.nodes) == multiset(old(downstream.nodes))
    {
      hide ToFront, Linked, Record;
      ToFrontPermutes(downstream.nodes, k);
      MemberAt(downstream.nodes, k);
      ghost var others, c := upstream.nodes, Up();
      forall j | 0 <= j < |others| ensures others[j] !in downstream.nodes { assert others[j] in others; }
      downstream.RecordEntry(p, prev, k, paddr);
      assert upstream.nodes == others && Up() == c by {
        assert forall j :: 0 <= j < |others| ==> others[j].lastPaddr == c[j];
      }
    }

    /** Looks for the page among the upward streams; an address that goes on upwards is recorded. */
    method CheckUp(paddr: Addr) returns (hit: bool, goesOn: bool, turns: bool)
      requires Shape()
      modifies upstream, upstream.nodes
      ensures Shape() && Down() == old(Down()) && multiset(upstream.nodes) == multiset(old(upstream.nodes))
      ensures var c := old(Up());
              var i := FindPage(c, RoundDown(paddr));
              && hit == (i < |c|) && goesOn == Adjacent(c, i, paddr, lineSize, 1)
              && turns == (!goesOn && Adjacent(c, i, paddr, lineSize, -1))
              && Up() == if goesOn then Record(c, i, paddr) else c
      ensures !goesOn ==> upstream.nodes == old(upstream.nodes)
    {
      hide ToFront, Linked, Record, FindPage, RoundDown;
      var p, prev;
      ghost var i;
      p, prev, i := upstream.Find(RoundDown(paddr));
      hit, goesOn, turns := p != null, false, false;
      if p != null {
        if paddr / lineSize == p.lastPaddr / lineSize + 1 {
          RecordUp(p, prev, i, paddr);
          goesOn := true;
        } else if paddr / lineSize == p.lastPaddr / lineSize - 1 {
          turns := true;
        }
      }
    }

    /** The same for the downward streams. */
    method CheckDown(paddr: Addr) returns (hit: bool, goesOn: bool, turns: bool)
      requires Shape()
      modifies downstream, downstream.nodes
      ensures Shape() && Up() == old(Up()) && multiset(downstream.nodes) == multiset(old(downstream.nodes))
      ensures var c := old(Down());
              var j := FindPage(c, RoundDown(paddr));
              && hit == (j < |c|) && goesOn == Adjacent(c, j, paddr, lineSize, -1)
              && turns == (!goesOn && Adjacent(c, j, paddr, lineSize, 1))
              && Down() == if goesOn then Record(c, j, paddr) else c
      ensures !goesOn ==> downstream.nodes == old(downstream.nodes)
    {
      hide ToFront, Linked, Record, FindPage, RoundDown;
      var p, prev;
      ghost var j;
      p, prev, j := downstream.Find(RoundDown(paddr));
      hit, goesOn, turns := p != null, false, false;
      if p != null {
        if paddr / lineSize == p.lastPaddr / lineSize - 1 {
          RecordDown(p, prev, j, paddr);
          goesOn := true;
        } else if paddr / lineSize == p.lastPaddr / lineSize + 1 {
          turns := true;
        }
      }
    }

    method AllocateUp(paddr: Addr)
      requires Shape()
      modifies upstream, upstream.nodes
      ensures Shape() && old(Up()) != [] && Up() == Allocate(old(Up()), paddr) && Down() == old(Down())
      ensures multiset(upstream.nodes) == multiset(old(upstream.nodes))
    {
      var p, prev := upstream.Last();
      RecordUp(p, prev, |upstream.nodes| - 1, paddr);
    }

    method AllocateDown(paddr: Addr)
      requires Shape()
      modifies downstream, downstream.nodes
      ensures Shape() && old(Down()) != [] && Down() == Allocate(old(Down()), paddr) && Up() == old(Up())
      ensures multiset(downstream.nodes) == multiset(old(downstream.nodes))
    {
      var p, prev := downstream.Last();
      RecordDown(p, prev, |downstream.nodes| - 1, paddr);
    }

    lemma StaysApart(paddr: Addr)
      requires Valid() && Up() != [] && Down() != []
      ensures lineSize > 0
      ensures var t := Lookup(Up(), Down(), paddr, lineSize); PagesApart(t.up) && PagesApart(t.down)
    {
      LookupKeepsApart(Up(), Down(), paddr, lineSize);
    }

    /** A lookup does what the sequences say, and permutes the entries of each table. */
    method LookupAddress(paddr: Addr) returns (prefetch: Addr)
      requires Valid() && Up() != [] && Down() != []
      modifies upstream, downstream, upstream.nodes, downstream.nodes
      ensures Valid()
      ensures Tables(Up(), Down(), prefetch) == Lookup(old(Up()), old(Down()), paddr, lineSize)
      ensures multiset(upstream.nodes) == multiset(old(upstream.nodes))
      ensures multiset(downstream.nodes) == multiset(old(downstream.nodes))
      ensures |upstream.nodes| == |old(upstream.nodes)| && forall n :: n in upstream.nodes <==> n in old(upstream.nodes)
      ensures |downstream.nodes| == |old(downstream.nodes)| && forall n :: n in downstream.nodes <==> n in old(downstream.nodes)
    {
      hide *;
      prefetch := Walk(paddr);
      Permuted(old(upstream.nodes), upstream.nodes);
      Permuted(old(downstream.nodes), downstream.nodes);
    }

    /** The walks through the two lists. */
    method Walk(paddr: Addr) returns (prefetch: Addr)
      requires Valid() && Up() != [] && Down() != []
      modifies upstream, downstream, upstream.nodes, downstream.nodes
      ensures Valid()
      ensures Tables(Up(), Down(), prefetch) == Lookup(old(Up()), old(Down()), paddr, lineSize)
      ensures multiset(upstream.nodes) == multiset(old(upstream.nodes))
      ensures multiset(downstream.nodes) == multiset(old(downstream.nodes))
    {
      hide PagesApart, ToFront, Linked, Record, FindPage, Plus, Minus, RoundDown, Adjacent, Shape, Up, Down, Allocate;
      StaysApart(paddr);
      var upHit, up, possibleDown := CheckUp(paddr);
      if up {
        return Plus(paddr, lineSize);
      }
      var downHit, down, possibleUp := CheckDown(paddr);
      if down {
        return Minus(paddr, lineSize);
      }
      if (!upHit && !downHit) || (!upHit && possibleUp) {
        AllocateUp(paddr);
      } else if !downHit && possibleDown {
        AllocateDown(paddr);
      }
      prefetch := 0;
    }
  }

  lemma Permuted(before: seq<Entry>, after: seq<Entry>)
    requires multiset(before) == multiset(after)
    ensures |after| == |before| && forall n :: n in after <==> n in before
  {
    assert |before| == |multiset(before)| && |after| == |multiset(after)|;
    assert forall n :: n in after <==> n in multiset(after);
    assert forall n :: n in before <==> n in multiset(before);
  }
}
