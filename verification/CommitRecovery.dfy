/** The reorder buffer and its recovery (commit-DPM.cpp; commit-STM.cpp is the case without fusion). An
    entry points at the next uop to commit of a fused group; recovery squashes entries from the youngest on. */
module CommitRecovery {
  import opened Rings
  import opened Dependences

  ghost function After(g: seq<Uop>, k: nat): Uop? {
    if k + 1 < |g| then g[k + 1] else null
  }

  /** The uops of a fused group are linked from its head; an ordinary uop is a group of its own. */
  ghost predicate GroupOk(h: Uop)
    reads h`group, h.group`inFusion, h.group`fusionHead, h.group`fusionNext
  {
    && h.group != [] && h.group[0] == h
    && forall k :: 0 <= k < |h.group| ==>
         var u := h.group[k];
         && (u.inFusion <==> |h.group| > 1) && (u.inFusion ==> u.fusionHead == h)
         && u.fusionNext == After(h.group, k)
         && u.mop == h.mop
  }

  /** The uops of a sequence of entries, in order. */
  ghost function Flat(c: seq<Uop>): seq<Uop>
    reads c`group
  {
    if c == [] then [] else Flat(c[..|c| - 1]) + c[|c| - 1].group
  }

  ghost predicate Increasing(q: seq<Uop>) {
    forall i, j :: 0 <= i < j < |q| ==> q[i].seqNum < q[j].seqNum
  }

  ghost function Members(q: seq<Uop>): set<Uop> {
    set u | u in q
  }

  /** How many of the uops have been allocated: a group can be in the ROB while its tail is not. */
  ghost function CountAllocated(q: seq<Uop>): nat
    reads q`isAllocated
  {
    if q == [] then 0 else CountAllocated(q[..|q| - 1]) + (if q[|q| - 1].isAllocated then 1 else 0)
  }

  ghost function Reversed(q: seq<Uop>): seq<Uop> {
    if q == [] then [] else [q[|q| - 1]] + Reversed(q[..|q| - 1])
  }

  lemma {:induction false} ReversedConcat(a: seq<Uop>, b: seq<Uop>)
    ensures Reversed(a + b) == Reversed(b) + Reversed(a)
  {
    if b == [] {
      assert a + b == a;
    } else {
      assert (a + b)[..|a + b| - 1] == a + b[..|b| - 1];
      ReversedConcat(a, b[..|b| - 1]);
    }
  }

  /** The last uop of a group, found by walking from u = h.group[m]; null if one of the assertions fails that u is
      fused and not the last one itself. */
  method FusionTail(u: Uop, asserts: bool, ghost h: Uop, ghost m: nat) returns (tail: Uop?)
    requires GroupOk(h) && m < |h.group| && u == h.group[m]
    ensures tail == null <==> asserts && m + 1 == |h.group|
    ensures |h.group| > 0 && (tail != null ==> tail == h.group[|h.group| - 1])
  {
    if asserts && (!u.inFusion || u.fusionNext == null) {
      return null;
    }
    var result := u;
    ghost var k := m;
    while result.fusionNext != null
      invariant k < |h.group| && result == h.group[k]
      decreases |h.group| - k
    {
      result := result.fusionNext;
      k := k + 1;
    }
    return result;
  }

  /** The uop before u = h.group[m] in its group, found by walking from the head. */
  method FusionPrev(u: Uop, ghost h: Uop, ghost m: nat) returns (prev: Uop?)
    requires GroupOk(h) && m < |h.group| && u == h.group[m]
    requires forall i, j :: 0 <= i < j < |h.group| ==> h.group[i] != h.group[j]
    ensures prev == if m == 0 then null else h.group[m - 1]
  {
    if !u.inFusion {
      return null;
    }
    if u == u.fusionHead {
      return null;
    }
    var r: Uop := u.fusionHead;
    ghost var k := 0;
    while r.fusionNext != u
      invariant k < m && r == h.group[k]
      decreases m - k
    {
      r := r.fusionNext;
      k := k + 1;
    }
    return r;
  }

  /** The longest prefix of the entries that is empty or ends in the macro-op. */
  ghost function Keep(c: seq<Uop>, mop: nat): (k: nat)
    ensures k <= |c|
  {
    if c == [] || c[|c| - 1].mop == mop then |c| else Keep(c[..|c| - 1], mop)
  }

  lemma KeepStep(c: seq<Uop>, n: nat, mop: nat)
    requires n <= |c|
    ensures n == 0 || c[n - 1].mop == mop ==> Keep(c[..n], mop) == n
    ensures n > 0 && c[n - 1].mop != mop ==> Keep(c[..n], mop) == Keep(c[..n - 1], mop)
  {
    if n > 0 { assert c[..n][..n - 1] == c[..n - 1]; }
  }

  lemma {:induction false} KeepIsLongest(c: seq<Uop>, mop: nat)
    ensures var k := Keep(c, mop); (k > 0 ==> c[k - 1].mop == mop) && forall j :: k <= j < |c| ==> c[j].mop != mop
  {
    if |c| > 0 && c[|c| - 1].mop != mop { KeepIsLongest(c[..|c| - 1], mop); }
  }

  /** Macro-ops enter the ROB in order. If the macro-op is there, exactly the entries that are not younger
      than it are kept. */
  lemma {:induction false} KeepIsPrecise(c: seq<Uop>, mop: nat)
    requires forall i, j :: 0 <= i < j < |c| ==> c[i].mop <= c[j].mop
    requires exists j :: 0 <= j < |c| && c[j].mop == mop
    ensures forall j :: 0 <= j < |c| ==> (j < Keep(c, mop) <==> c[j].mop <= mop)
  {
    var k := Keep(c, mop);
    KeepIsLongest(c, mop);
    var m :| 0 <= m < |c| && c[m].mop == mop;
    assert m < k;
    if |c| > 0 && c[|c| - 1].mop != mop {
      KeepIsPrecise(c[..|c| - 1], mop);
      assert c[..|c| - 1][m] == c[m];
    }
  }

  /** Where the squash of an entry starts, unless an assertion fails. */
  method YoungestOf(back: Uop, asserts: bool, ghost h: Uop, ghost m: nat) returns (dead: Uop?)
    requires GroupOk(h) && m < |h.group| && back == h.group[m]
    ensures dead == null <==> asserts && m + 1 == |h.group| > 1
    ensures |h.group| > 0 && (dead != null ==> dead == h.group[|h.group| - 1])
  {
    dead := back;
    if back.inFusion {
      dead := FusionTail(back, asserts, h, m);
    }
  }

  /** Of the oldest group, only the last uop is left, and it is not alone in its group. */
  ghost predicate AtTail(entries: seq<Uop>, skip: nat)
    reads entries`group
  {
    entries != [] && skip + 1 == |entries[0].group| > 1
  }

  /** The first n uops have committed: they have been allocated and have no links any more. */
  ghost predicate Gone(q: seq<Uop>, n: nat)
    reads q
  {
    n <= |q| && forall k :: 0 <= k < n ==> q[k].Unlinked() && q[k].isAllocated
  }

  /** Every entry points at the head of its group, but the oldest one at its first uop that has not committed. */
  ghost predicate SlotsOk(slots: seq<Uop>, entries: seq<Uop>, skip: nat)
    reads entries`group
  {
    && |slots| == |entries|
    && (entries != [] ==> skip < |entries[0].group| && slots[0] == entries[0].group[skip])
    && forall k :: 0 < k < |slots| ==> slots[k] == entries[k]
  }

  /** The uops q are those of the entries, in program order and with consistent links, and so many of them have
      been allocated. */
  ghost predicate Consistent(q: seq<Uop>, live: set<Uop>, links: set<Odep>, allocated': int)
    reads live, links, q`isAllocated
  {
    live == Members(q) && Increasing(q) && Graph(live, links) && allocated' == CountAllocated(q)
  }

  /** The entries' groups are among the uops seen so far. */
  ghost predicate Known(entries: seq<Uop>, live: set<Uop>, uops: set<Uop>)
    reads uops`group, uops`inFusion, uops`fusionHead, uops`fusionNext
  {
    && live <= uops
    && (forall k :: 0 <= k < |entries| ==>
          entries[k] in uops && (forall u :: u in entries[k].group ==> u in uops) && GroupOk(entries[k]))
    && (forall u :: u in Flat(entries) ==> u in uops)
  }

  lemma KnownMore(entries: seq<Uop>, live: set<Uop>, uops: set<Uop>, uop: Uop)
    requires Known(entries, live, uops) && GroupOk(uop)
    ensures Known(entries + [uop], live + Members(uop.group), uops + Members(uop.group))
  {
    hide GroupOk;
    GroupHasHead(uop);
    FlatSnoc(entries + [uop]);
    assert (entries + [uop])[..|entries|] == entries;
  }

  lemma KnownFewer(entries: seq<Uop>, live: set<Uop>, uops: set<Uop>, i: nat, j: nat, fewer: set<Uop>)
    requires Known(entries, live, uops) && i <= j <= |entries| && fewer <= live
    ensures Known(entries[i..j], fewer, uops)
  {
    hide GroupOk;
    var e := entries;
    assert e == e[..i] + (e[i..j] + e[j..]);
    FlatConcat(e[..i], e[i..j] + e[j..]);
    FlatConcat(e[i..j], e[j..]);
  }

  lemma KnownUops(entries: seq<Uop>, live: set<Uop>, uops: set<Uop>)
    requires Known(entries, live, uops)
    ensures live <= uops && forall j :: 0 <= j < |Flat(entries)| ==> Flat(entries)[j] in uops
    ensures forall k :: 0 <= k < |entries| ==> entries[k] in uops && GroupOk(entries[k])
    ensures forall k, u :: 0 <= k < |entries| && u in entries[k].group ==> u in uops
  {
  }

  class CommitDPM {
    const ROB: array<Uop?>
    const asserts: bool  // whether assertions are compiled in
    var head: nat
    var tail: nat
    var num: nat
    var effNum: int

    ghost var slots: seq<Uop>      // what the entries point at, oldest first
    ghost var entries: seq<Uop>    // the heads of their groups
    ghost var skip: nat            // how many uops of the oldest group have committed
    ghost var live: set<Uop>       // the uops of the groups
    ghost var uops: set<Uop>       // every uop that has been here
    ghost var links: set<Odep>     // storage of their odep lists
    ghost var squashed: seq<Uop>   // the uops squashed so far, in order

    ghost predicate Shape()
      reads this`head, this`tail, this`num, this`slots, ROB
    {
      && head < ROB.Length && num <= ROB.Length && tail == Slot(head, num, ROB.Length)
      && |slots| == num
      && (forall k :: 0 <= k < num ==> ROB[Slot(head, k, ROB.Length)] == slots[k])
      && (forall i :: 0 <= i < ROB.Length && !Used(head, num, ROB.Length, i) ==> ROB[i] == null)
    }

    ghost predicate Sound()
      reads this, ROB, uops, links
    {
      && Shape() && Known(entries, live, uops) && SlotsOk(slots, entries, skip)
      && Consistent(Flat(entries), live, links, effNum + skip)
      && (entries != [] ==> Gone(Flat(entries), skip))
    }

    ghost predicate Valid()
      reads this, ROB, uops, links
    {
      Sound() && (entries == [] ==> skip == 0)
    }

    constructor (size: nat, asserts: bool)
      requires 0 < size
      ensures Valid() && fresh(ROB) && entries == squashed == [] && live == {} && skip == 0 && ROB.Length == size
      ensures num == 0 && effNum == 0
      ensures this.asserts == asserts && links == {}
    {
      ROB := new Uop?[size](_ => null);
      this.asserts := asserts;
      head, tail, num, effNum := 0, 0, 0, 0;
      slots, entries, skip, live, uops, links, squashed := [], [], 0, {}, {}, {}, [];
    }

    // -------------------------------------------------------------- the ring

    method RobPush(uop: Uop)
      requires Shape() && num < ROB.Length
      modifies this`tail, this`num, this`slots, ROB
      ensures Shape() && slots == old(slots) + [uop] && num == old(num) + 1
    {
      WindowRoom(head, num, ROB.Length);
      ROB[tail] := uop;
      num := num + 1;
      tail := ModInc(tail, ROB.Length);
      slots := slots + [uop];
    }

    method RobBack() returns (back: Uop?)
      requires Shape()
      ensures num == |slots| && back == if num == 0 then null else slots[num - 1]
    {
      back := ROB[ModDec(tail, ROB.Length)];
      assert ModDec(tail, ROB.Length) == if num == 0 then ModDec(head, ROB.Length) else Slot(head, num - 1, ROB.Length);
    }

    method RobPopBack()
      requires Shape() && num > 0
      modifies this`tail, this`num, this`slots, ROB
      ensures Shape() && |old(slots)| == old(num) && slots == old(slots)[..old(num) - 1] && num == old(num) - 1
    {
      var backInd := ModDec(tail, ROB.Length);
      UsedPopBack(head, num, ROB.Length);
      ROB[backInd] := null;
      tail := backInd;
      num := num - 1;
      slots := slots[..num];
    }

    method RobPopFront()
      requires Shape() && num > 0
      modifies this`head, this`num, this`effNum, this`slots, ROB
      ensures Shape() && |old(slots)| == old(num) && slots == old(slots)[1..] && num == old(num) - 1 && effNum == old(effNum) - 1
    {
      UsedPopFront(head, num, ROB.Length);
      RingPopFront(head, num, ROB.Length);
      ROB[head] := null;
      num := num - 1;
      effNum := effNum - 1;
      head := ModInc(head, ROB.Length);
      slots := slots[1..];
    }

    // -------------------------------------------------------------- uops enter

    /** A uop enters the ROB, as the first of its group; allocation marks it in the same step. */
    method RobInsert(uop: Uop)
      requires Valid() && num < ROB.Length && GroupOk(uop) && Increasing(Flat(entries) + uop.group)
      requires forall k :: 0 <= k < |uop.group| ==>
        uop.group[k] !in live && uop.group[k].Unlinked() && (uop.group[k].isAllocated <==> k == 0)
      modifies this, ROB
      ensures Valid() && entries == old(entries) + [uop] && skip == old(skip) && effNum == old(effNum) + 1
      ensures live == old(live) + Members(uop.group) && links == old(links)
    {
      hide Graph, Uop.Unlinked, Consistent, CountAllocated, Increasing, GroupOk, Flat, Gone, Shape, Known, SlotsOk, CommitDPM.Valid, Sound;
      SoundParts();
      KnownUops(entries, live, uops);
      ghost var q, g, more := Flat(entries), uop.group, entries + [uop];
      ghost var newLive, newUops := live + Members(g), uops + Members(g);
      KnownMore(entries, live, uops, uop);
      GrownSlots(slots, entries, skip, uop, q);
      GrownConsistent(q, g, live, links, effNum + skip);
      FlatSnoc(more);
      assert more[..|entries|] == entries;
      RobPush(uop);
      assert Flat(more) == q + g && SlotsOk(slots, more, skip);
      effNum := effNum + 1;
      AddEntry(more, newLive, newUops);
    }

    /** Notes that an entry has joined. */
    ghost method AddEntry(e: seq<Uop>, l: set<Uop>, u: set<Uop>)
      requires Shape() && Known(e, l, u) && SlotsOk(slots, e, skip) && Gone(Flat(e), skip) && e != []
      requires Consistent(Flat(e), l, links, effNum + skip)
      modifies this`entries, this`live, this`uops
      ensures Valid() && entries == e && live == l && uops == u
    {
      hide Graph, GroupOk, Flat, Known, SlotsOk, Gone, Shape, Consistent;
      entries, live, uops := e, l, u;
    }

    /** A later uop of a fused group shares its head's entry. */
    method RobFuseInsert(uop: Uop)
      requires Valid() && uop in live && !uop.isAllocated
      modifies this`effNum, uop`isAllocated
      ensures Valid() && effNum == old(effNum) + 1
    {
      hide Graph, GroupOk, Flat, Shape, Known, SlotsOk, Uop.Unlinked, CountAllocated, Gone, Increasing;
      KnownUops(entries, live, uops);
      ghost var q := Flat(entries);
      MarkAllocated(uop, q, skip, uops);
      effNum := effNum + 1;
    }

    /** The uop has not committed. */
    ghost predicate Pending(u: Uop)
      reads this`live, this`entries, this`skip, entries`group
    {
      u in live && skip <= |Flat(entries)| && u !in Flat(entries)[..skip]
    }

    /** A uop is linked to the producers of its inputs, as far as these have not committed yet. */
    method Link(c: Uop, producers: seq<Uop?>)
      requires Valid() && Pending(c) && c.Unlinked() && |producers| == MAX_IDEPS
      requires forall j :: 0 <= j < MAX_IDEPS && producers[j] != null ==> Pending(producers[j]) && producers[j].seqNum < c.seqNum
      modifies this`links, c`idep, c`links, live`odep, live`children
      ensures Valid() && c.idep == producers && links >= old(links)
      ensures forall u :: u in live ==> Others(u.children, c) == old(Others(u.children, c))
      ensures forall u :: u in live - {c} ==> u.idep == old(u.idep)
    {
      hide Graph, GroupOk, Flat, Uop.Unlinked, CountAllocated, Increasing, Shape, SlotsOk, Known;
      KnownUops(entries, live, uops);
      ghost var q := Flat(entries);
      ghost var links' := LinkDependences(c, producers, live, links);
      forall k | 0 <= k < skip ensures q[k].Unlinked() && q[k].isAllocated {
        assert q[k] in uops && old(q[k].Unlinked() && q[k].isAllocated);
        assert q[k] == q[..skip][k];
        KeepsUnlinked(q[k]);
      }
      links := links';
    }

    // -------------------------------------------------------------- uops commit

    /** The head uop commits. Its entry leaves with the last uop of its group, and passes to the next one
        otherwise. Its consumers are released. */
    method CommitHead() returns (uop: Uop)
      requires Valid() && num > 0 && slots[0].isAllocated
      modifies this`head, this`num, this`effNum, this`slots, this`entries, this`skip, this`live, ROB
      modifies live`idep, live`links, live`odep, live`children
      ensures Valid() && |old(slots)| > 0 && uop == old(slots[0]) && uop.Unlinked() && 0 <= effNum == old(effNum) - 1
      ensures old(entries) != []
      ensures var g := old(entries[0].group);
              if old(skip) + 1 < |g| then entries == old(entries) && skip == old(skip) + 1 && live == old(live)
              else entries == old(entries)[1..] && skip == 0 && live == old(live) - Members(g)
      ensures forall u :: u in old(live) && u != uop ==> u.children == old(u.children)
      ensures forall u :: u in old(live) ==> Released(old(u.idep), u.idep, uop) && uop !in u.idep
    {
      hide *;
      SoundParts();
      KnownUops(entries, live, uops);
      OldestEntry(slots, entries, skip, live, uops);
      ghost var q, g := Flat(entries), entries[0].group;
      uop := RemoveHead();
      ReleaseHead(uop, q, skip);
      if skip + 1 < |g| {
        Settle(entries, skip + 1, live);
      } else {
        GroupLeaves(entries, live, links, effNum + skip + 1);
        KnownFewer(entries, live, uops, 1, |entries|, live - Members(g));
        assert entries[1..] == entries[1..|entries|];
        GoneNone(Flat(entries[1..]));
        Settle(entries[1..], 0, live - Members(g));
      }
    }

    /** Notes what the oldest entry is now. */
    ghost method Settle(e: seq<Uop>, n: nat, l: set<Uop>)
      requires Shape() && Known(e, l, uops) && SlotsOk(slots, e, n) && Consistent(Flat(e), l, links, effNum + n)
      requires Gone(Flat(e), n) && (e == [] ==> n == 0)
      modifies this`entries, this`skip, this`live
      ensures Valid() && entries == e && skip == n && live == l && effNum >= 0
    {
      hide Graph, GroupOk, Flat, Known, SlotsOk, Gone, Shape, CountAllocated, Increasing;
      KnownUops(e, l, uops);
      CountGone(Flat(e), n);
      entries, skip, live := e, n, l;
    }

    /** The ring's part of a commit. */
    method RemoveHead() returns (uop: Uop)
      requires Shape() && SlotsOk(slots, entries, skip) && num > 0 && entries != []
      requires forall k :: 0 <= k < |entries| ==> GroupOk(entries[k])
      modifies this`head, this`num, this`effNum, this`slots, ROB
      ensures Shape() && |old(slots)| > 0 && uop == old(slots[0]) && effNum == old(effNum) - 1
      ensures var g := entries[0].group;
              if skip + 1 < |g| then SlotsOk(slots, entries, skip + 1) else SlotsOk(slots, entries[1..], 0)
    {
      uop := ROB[head];
      assert uop == slots[0] by { assert Slot(head, 0, ROB.Length) == head; }
      ghost var g, e := entries[0].group, entries;
      assert uop == g[skip] && uop.fusionNext == After(g, skip) && (uop.inFusion <==> |g| > 1);
      if !uop.inFusion || uop.fusionNext == null {
        RobPopFront();
        if |e| > 1 { assert slots[0] == e[1] && GroupOk(e[1]); }
      } else {
        PassOn(uop.fusionNext);
      }
    }

    method PassOn(next: Uop)
      requires Shape() && num > 0
      modifies this`effNum, this`slots, ROB
      ensures Shape() && |old(slots)| > 0 && slots == old(slots)[0 := next] && effNum == old(effNum) - 1
    {
      assert Slot(head, 0, ROB.Length) == head;
      ROB[head] := next;
      effNum := effNum - 1;
      slots := slots[0 := next];
    }

    /** The head uop's consumers are released; then it has no links left, as those that committed before it. */
    method ReleaseHead(uop: Uop, ghost q: seq<Uop>, ghost n: nat)
      requires Consistent(q, live, links, CountAllocated(q)) && Gone(q, n) && forall j :: 0 <= j < |q| ==> q[j] in uops
      requires n < |q| && q[n] == uop && uop.isAllocated
      modifies live`idep, live`links, uop`odep, uop`children
      ensures Consistent(q, live, links, CountAllocated(q)) && CountAllocated(q) == old(CountAllocated(q))
      ensures Gone(q, n + 1) && uop.Unlinked()
      ensures forall u :: u in live && u != uop ==> u.children == old(u.children)
      ensures forall u :: u in live ==> Released(old(u.idep), u.idep, uop) && uop !in u.idep
    {
      hide Graph, Released, CountAllocated;
      OlderGone(q, n, live);
      CommitLinks(uop, live, links);
      forall k | 0 <= k < n ensures q[k].Unlinked() && q[k].isAllocated {
        assert q[k] in uops && old(q[k].Unlinked() && q[k].isAllocated);
        assert q[k].seqNum < q[n].seqNum;
        ReleasedUnlinked(q[k], old(q[k].idep), uop, live, links);
      }
    }

    lemma SoundParts()
      requires Valid()
      ensures Shape() && Known(entries, live, uops) && SlotsOk(slots, entries, skip)
      ensures Consistent(Flat(entries), live, links, effNum + skip)
      ensures Consistent(Flat(entries), live, links, CountAllocated(Flat(entries)))
      ensures effNum + skip == CountAllocated(Flat(entries))
      ensures entries != [] ==> Gone(Flat(entries), skip) && skip < |Flat(entries)| && Flat(entries)[skip] in live
      ensures |slots| == |entries| == num && (entries == [] ==> skip == 0)
    {
      if entries != [] { OldestEntry(slots, entries, skip, live, uops); }
    }

    // -------------------------------------------------------------- recovery

    /** The youngest uop is squashed. */
    method SquashUop(dead: Uop, ghost q: seq<Uop>, ghost n: nat) returns (ghost n': nat)
      requires Consistent(q + [dead], live, links, effNum + skip) && Gone(q + [dead], n)
      requires dead in uops && forall j :: 0 <= j < |q| ==> q[j] in uops
      modifies live`idep, live`links, live`odep, live`children, links`next, this`live, this`squashed, this`effNum
      ensures Consistent(q, live, links, effNum + skip) && Gone(q, n') && n' <= n && (n <= |q| ==> n' == n)
      ensures live == old(live) - {dead} && dead.Unlinked() && squashed == old(squashed) + [dead]
      ensures forall u :: u in live ==> u.idep == old(u.idep)
    {
      hide Graph, CountAllocated, Uop.Unlinked, Gone;
      LastIsYoungest(q, dead);
      CountLast(q, dead);
      if dead.isAllocated {
        effNum := effNum - 1;
      }
      n' := UnlinkUop(dead, q, n);
      Forget(dead, live, links);
      live := live - {dead};
      squashed := squashed + [dead];
    }

    /** The youngest uop is taken out of its producers' lists; the uops that have committed have no links anyway. */
    method UnlinkUop(dead: Uop, ghost q: seq<Uop>, ghost n: nat) returns (ghost n': nat)
      requires Graph(live, links) && live == Members(q + [dead]) && Youngest(dead, live) && Gone(q + [dead], n)
      requires forall j :: 0 <= j < |q| ==> q[j] in uops
      modifies live`idep, live`links, live`odep, live`children, links`next
      ensures Graph(live, links) && dead.Unlinked() && Gone(q, n') && n' <= n && (n <= |q| ==> n' == n)
      ensures forall u :: u in live - {dead} ==> u.idep == old(u.idep)
    {
      hide Graph;
      InMembers(q, dead);
      UndoDependences(dead, live, links);
      n' := if n <= |q| then n else |q|;
      forall k | 0 <= k < n' ensures q[k].Unlinked() && q[k].isAllocated {
        assert q[k] == (q + [dead])[k] && q[k] in uops && old(q[k].Unlinked() && q[k].isAllocated);
        if q[k] != dead {
          ReleasedUnlinked(q[k], old(q[k].idep), dead, live, links);
        }
      }
    }

    /** Of the youngest group g, behind the uops q, those from position m on have been squashed. */
    ghost predicate Squashing(g: seq<Uop>, m: nat, q: seq<Uop>, n: nat, before: seq<Uop>)
      reads this`live, this`links, this`effNum, this`skip, this`squashed, live, links, g, q
    {
      && m <= |g| && Consistent(q + g[..m], live, links, effNum + skip) && Gone(q + g[..m], n)
      && squashed == before + Reversed(g[m..])
      && forall k :: m <= k < |g| ==> g[k] !in live && g[k].Unlinked()
    }

    /** The uop before position m is squashed. */
    method SquashAt(dead: Uop, ghost g: seq<Uop>, ghost m: nat, ghost q: seq<Uop>, ghost n: nat, ghost before: seq<Uop>)
      returns (ghost n': nat)
      requires Squashing(g, m, q, n, before) && m > 0 && dead == g[m - 1]
      requires forall i, j :: 0 <= i < j < |g| ==> g[i] != g[j]
      requires (forall k :: 0 <= k < |g| ==> g[k] in uops) && forall j :: 0 <= j < |q| ==> q[j] in uops
      modifies live`idep, live`links, live`odep, live`children, links`next, this`live, this`squashed, this`effNum
      ensures Squashing(g, m - 1, q, n', before) && n' <= n && (n <= |q| ==> n' == n)
      ensures live == old(live) - {dead} && forall u :: u in live ==> u.idep == old(u.idep)
    {
      hide Consistent, Gone, Reversed, Uop.Unlinked;
      SplitGroup(q, g, m);
      PrefixUops(q, g[..m - 1], uops);
      ReversedStep(g, m);
      n' := SquashUop(dead, q + g[..m - 1], n);
    }

    lemma SquashingStarts(g: seq<Uop>, q: seq<Uop>, n: nat)
      requires Consistent(q + g, live, links, effNum + skip) && Gone(q + g, n)
      ensures Squashing(g, |g|, q, n, squashed)
    {
      assert g[..|g|] == g;
      ReversedNothing(g);
    }

    lemma SquashingEnds(g: seq<Uop>, q: seq<Uop>, n: nat, before: seq<Uop>)
      requires Squashing(g, 0, q, n, before)
      ensures Consistent(q, live, links, effNum + skip) && Gone(q, n) && squashed == before + Reversed(g)
      ensures forall u :: u in g ==> u !in live && u.Unlinked()
    {
      assert q + g[..0] == q && g[0..] == g;
    }

    /** The uops of one entry are squashed, from the tail of its group to the head. */
    method SquashEntry(youngest: Uop, ghost h: Uop, ghost q: seq<Uop>, ghost n: nat)
      returns (ghost n': nat)
      requires GroupOk(h) && h.group != [] && youngest == h.group[|h.group| - 1]
      requires Consistent(q + h.group, live, links, effNum + skip) && Gone(q + h.group, n)
      requires h in uops && (forall k :: 0 <= k < |h.group| ==> h.group[k] in uops) && forall j :: 0 <= j < |q| ==> q[j] in uops
      modifies live`idep, live`links, live`odep, live`children, links`next, this`live, this`squashed, this`effNum
      ensures Consistent(q, live, links, effNum + skip) && Gone(q, n') && n' <= n && (n <= |q| ==> n' == n)
      ensures live <= old(live) && squashed == old(squashed) + Reversed(h.group)
      ensures forall u :: u in h.group ==> u !in live && u.Unlinked()
      ensures forall u :: u in live ==> u.idep == old(u.idep)
    {
      hide *;
      ghost var g := h.group;
      DistinctUops(q, g, live, links, effNum + skip);
      SquashingStarts(g, q, n);
      var dead: Uop? := youngest;
      ghost var m: nat := |g|;
      n' := n;
      while dead != null
        invariant 0 <= m <= |g| && dead == if m == 0 then null else g[m - 1]
        invariant Squashing(g, m, q, n', old(squashed)) && n' <= n && (n <= |q| ==> n' == n)
        invariant live <= old(live) && forall u :: u in live ==> u.idep == old(u.idep)
        decreases m
      {
        n' := SquashAt(dead, g, m, q, n', old(squashed));
        m := m - 1;
        dead := FusionPrev(dead, h, m);
      }
      SquashingEnds(g, q, n', old(squashed));
    }

    /** Removes and squashes the youngest entry, of which the walk has found the last uop. */
    method SquashFrom(youngest: Uop)
      requires Sound() && entries != []
      requires var g := entries[|entries| - 1].group; g != [] && youngest == g[|g| - 1]
      modifies this`tail, this`num, this`slots, this`entries, this`live, this`squashed, this`effNum, ROB
      modifies live`idep, live`links, live`odep, live`children, links`next
      ensures Sound() && entries == old(entries)[..|old(entries)| - 1]
      ensures var g := old(entries[|entries| - 1].group);
              && squashed == old(squashed) + Reversed(g)
              && forall u :: u in g ==> u !in live && u.Unlinked()
      ensures live <= old(live) && forall u :: u in live ==> u.idep == old(u.idep)
    {
      hide *;
      SoundParts();
      KnownUops(entries, live, uops);
      ghost var h, c := entries[|entries| - 1], entries[..|entries| - 1];
      ghost var q := Flat(c);
      FlatSnoc(entries);
      CutSlots(slots, entries, skip);
      PartUops(q, h.group, uops);
      ghost var l := live;
      ghost var n := SquashEntry(youngest, h, q, skip);
      KnownFewer(entries, l, uops, 0, |entries| - 1, live);
      assert entries[0..|entries| - 1] == c;
      SkipFits(c, skip);
      RobPopBack();
      DropEntry(c);
    }

    /** Removes and squashes the youngest entry. An assertion stops this exactly at a group of which only the last uop
        is left; that can be the oldest group only. */
    method SquashBack(back: Uop) returns (aborted: bool)
      requires Sound() && entries != [] && back == slots[|slots| - 1]
      modifies this`tail, this`num, this`slots, this`entries, this`live, this`squashed, this`effNum, ROB
      modifies live`idep, live`links, live`odep, live`children, links`next
      ensures Sound() && (aborted <==> asserts && |old(entries)| == 1 && old(AtTail(entries, skip)))
      ensures aborted ==> entries == old(entries) && squashed == old(squashed)
      ensures !aborted ==> entries == old(entries)[..|old(entries)| - 1]
      ensures var g := old(entries[|entries| - 1].group);
              !aborted ==>
                && squashed == old(squashed) + Reversed(g)
                && forall u :: u in g ==> u !in live && u.Unlinked()
      ensures live <= old(live) && forall u :: u in live ==> u.idep == old(u.idep)
    {
      hide *;
      SoundParts();
      KnownUops(entries, live, uops);
      YoungestEntry(slots, entries, skip);
      TailIsOldest(entries, skip);
      var dead := YoungestOf(back, asserts, entries[|entries| - 1], if |entries| == 1 then skip else 0);
      aborted := dead == null;
      if !aborted {
        SquashFrom(dead);
      }
    }

    /** Notes that the youngest entry has gone. */
    ghost method DropEntry(c: seq<Uop>)
      requires Shape() && Known(c, live, uops) && SlotsOk(slots, c, skip) && Consistent(Flat(c), live, links, effNum + skip)
      requires c != [] ==> Gone(Flat(c), skip)
      modifies this`entries
      ensures Sound() && entries == c
    {
      hide Graph, GroupOk, Flat, Known, SlotsOk, Gone, Shape, CountAllocated, Increasing;
      KnownUops(c, live, uops);
      entries := c;
    }

    /** Recovery of the entries `was` has come as far as the first ones; `gone` are the uops of the others. */
    ghost predicate Dropped(was: seq<Uop>, gone: seq<Uop>)
      reads this, ROB, uops, links, was`group, gone
    {
      && Sound() && |entries| <= |was| && entries == was[..|entries|] && gone == Flat(was[|entries|..])
      && forall u :: u in gone ==> u !in live && u.Unlinked()
    }

    /** One step of recovery, which an assertion can stop; the result is the next youngest entry. */
    method DropBack(back: Uop, ghost was: seq<Uop>, ghost gone: seq<Uop>, ghost before: seq<Uop>)
      returns (aborted: bool, back': Uop?, ghost gone': seq<Uop>)
      requires Dropped(was, gone) && entries != [] && slots != [] && back == slots[|slots| - 1]
      requires squashed == before + Reversed(gone)
      modifies this`tail, this`num, this`slots, this`entries, this`live, this`squashed, this`effNum, ROB
      modifies live`idep, live`links, live`odep, live`children, links`next
      ensures aborted <==> asserts && |old(entries)| == 1 && old(AtTail(was, skip))
      ensures Dropped(was, gone') && AtBack(was, back')
      ensures |entries| == |old(entries)| - if aborted then 0 else 1
      ensures squashed == before + Reversed(gone')
      ensures live <= old(live) && forall u :: u in live ==> u.idep == old(u.idep)
    {
      hide *;
      DroppedIs(was, gone);
      ghost var n := |entries|;
      FlatCons(was, n - 1);
      ReversedConcat(was[n - 1].group, gone);
      TailOfPrefix(was, n, skip);
      aborted := SquashBack(back);
      if aborted {
        gone' := gone;
      } else {
        gone' := was[n - 1].group + gone;
        assert entries == was[..n - 1];
      }
      IsDropped(was, gone');
      back' := BackOf(was, gone');
    }

    /** What recovery looks at next. */
    ghost predicate AtBack(was: seq<Uop>, back: Uop?)
      reads this`slots, this`entries, this`num
    {
      && |slots| == |entries| == num <= |was|
      && back == (if num == 0 then null else slots[num - 1])
      && (num > 0 ==> back.mop == was[num - 1].mop)
    }

    /** The youngest entry, and whose it is. */
    method BackOf(ghost was: seq<Uop>, ghost gone: seq<Uop>) returns (back: Uop?)
      requires Dropped(was, gone)
      ensures AtBack(was, back)
    {
      hide Known, Consistent, Gone, Flat, GroupOk;
      back := RobBack();
      if num > 0 {
        KnownUops(entries, live, uops);
        YoungestEntry(slots, entries, skip);
        MopOf(entries[num - 1], if num == 1 then skip else 0);
      }
    }

    /** Whether a recovery that squashes all entries is stopped by an assertion. */
    ghost predicate Fails(was: seq<Uop>)
      reads this`skip, was`group
    {
      asserts && AtTail(was, skip)
    }

    /** Drops entries down to the youngest one of the macro-op. */
    method DropTo(youngest: Uop?, mop: nat, ghost was: seq<Uop>) returns (aborted: bool, ghost gone: seq<Uop>)
      requires Dropped(was, []) && entries == was && AtBack(was, youngest)
      modifies this`tail, this`num, this`slots, this`entries, this`live, this`squashed, this`effNum, ROB
      modifies live`idep, live`links, live`odep, live`children, links`next
      ensures aborted <==> Keep(was, mop) == 0 && was != [] && Fails(was)
      ensures Dropped(was, gone) && |entries| == (if aborted then 1 else Keep(was, mop)) && |entries| == num
      ensures squashed == old(squashed) + Reversed(gone)
      ensures live <= old(live) && forall u :: u in live ==> u.idep == old(u.idep)
    {
      hide *;
      gone := [];
      NothingReversed();
      assert was[..|was|] == was;
      var back := youngest;
      aborted := false;
      while back != null && back.mop != mop && !aborted
        invariant Dropped(was, gone) && AtBack(was, back)
        invariant |entries| <= |was| && Keep(was[..|entries|], mop) == Keep(was, mop)
        invariant aborted ==> |entries| == 1 && Keep(was, mop) == 0 && Fails(was)
        invariant !aborted && |entries| == 0 && was != [] ==> !Fails(was)
        invariant squashed == old(squashed) + Reversed(gone)
        invariant live <= old(live) && forall u :: u in live ==> u.idep == old(u.idep)
        decreases |entries|, !aborted
      {
        BackIs(was, back);
        KeepStep(was, num, mop);
        FailsIs(was);
        aborted, back, gone := DropBack(back, was, gone, old(squashed));
        FailsIs(was);
        KeepStep(was, 0, mop);
      }
      BackIs(was, back);
      KeepStep(was, num, mop);
    }

    lemma FailsIs(was: seq<Uop>)
      ensures Fails(was) <==> asserts && AtTail(was, skip)
    {
    }

    /** Recovery to a macro-op: everything younger is squashed, youngest first, and nothing else. The
        result says whether allocation has to wait until the back end has drained. If every entry has to go, an
        assertion stops the recovery at an oldest group of which only the last uop is left. If it does not, the walk has
        also met those uops of the oldest group that have committed, and counted them once more. */
    method Recover(mop: nat, drainFlush: bool) returns (aborted: bool, startDrain: bool, ghost gone: seq<Uop>)
      requires Valid()
      modifies this, ROB, live`idep, live`links, live`odep, live`children, links`next
      ensures aborted <==> asserts && Keep(old(entries), mop) == 0 && old(AtTail(entries, skip))
      ensures var was := old(entries);
              var k := if aborted then 1 else Keep(was, mop);
              && k <= |was| && entries == was[..k] && num == k && gone == Flat(was[k..])
              && (startDrain <==> drainFlush && was != [] && was[|was| - 1].mop != mop)
      ensures squashed == old(squashed) + Reversed(gone) && forall u :: u in gone ==> u !in live && u.Unlinked()
      ensures uops == old(uops) && links == old(links) && live <= old(live) && forall u :: u in live ==> u.idep == old(u.idep)
      ensures Valid() <==> entries != [] || old(skip) == 0
      ensures entries == [] ==> live == {} && effNum == 0 - old(skip)
    {
      hide *;
      ghost var was := entries;
      StartRecovery(mop);
      assert was == [] ==> !AtTail(was, skip) by { NoTail(skip); }
      var back := BackOf(was, []);
      BackIs(was, back);
      startDrain := num > 0 && drainFlush && back.mop != mop;
      aborted, gone := DropAndFinish(back, mop, was);
    }

    method DropAndFinish(youngest: Uop?, mop: nat, ghost was: seq<Uop>) returns (aborted: bool, ghost gone: seq<Uop>)
      requires Dropped(was, []) && entries == was && AtBack(was, youngest)
      modifies this`tail, this`num, this`slots, this`entries, this`live, this`squashed, this`effNum, this`skip, ROB
      modifies live`idep, live`links, live`odep, live`children, links`next
      ensures aborted <==> asserts && Keep(was, mop) == 0 && was != [] && old(AtTail(was, skip))
      ensures var k := if aborted then 1 else Keep(was, mop);
              k <= |was| && entries == was[..k] && num == k && gone == Flat(was[k..])
      ensures squashed == old(squashed) + Reversed(gone) && forall u :: u in gone ==> u !in live && u.Unlinked()
      ensures live <= old(live) && forall u :: u in live ==> u.idep == old(u.idep)
      ensures Valid() <==> entries != [] || old(skip) == 0
      ensures entries == [] ==> live == {} && effNum == 0 - old(skip)
    {
      hide *;
      FailsIs(was);
      aborted, gone := DropTo(youngest, mop, was);
      FailsIs(was);
      DroppedIs(was, gone);
      Finish(gone);
    }

    /** Drops all entries. */
    method DropAll(youngest: Uop?, ghost was: seq<Uop>) returns (aborted: bool, ghost gone: seq<Uop>)
      requires Dropped(was, []) && entries == was && AtBack(was, youngest)
      modifies this`tail, this`num, this`slots, this`entries, this`live, this`squashed, this`effNum, ROB
      modifies live`idep, live`links, live`odep, live`children, links`next
      ensures aborted <==> was != [] && Fails(was)
      ensures Dropped(was, gone) && |entries| == (if aborted then 1 else 0) && |entries| == num
      ensures squashed == old(squashed) + Reversed(gone) && live <= old(live)
    {
      hide *;
      gone := [];
      NothingReversed();
      var back := youngest;
      aborted := false;
      while back != null && !aborted
        invariant Dropped(was, gone) && AtBack(was, back)
        invariant aborted ==> |entries| == 1 && Fails(was)
        invariant !aborted && |entries| == 0 && was != [] ==> !Fails(was)
        invariant squashed == old(squashed) + Reversed(gone) && live <= old(live)
        decreases |entries|, !aborted
      {
        BackIs(was, back);
        FailsIs(was);
        aborted, back, gone := DropBack(back, was, gone, old(squashed));
        FailsIs(was);
      }
      BackIs(was, back);
    }

    /** A full flush empties the ROB, even a full one, unless an assertion stops it. */
    method RecoverAll() returns (aborted: bool, ghost gone: seq<Uop>)
      requires Valid()
      modifies this, ROB, live`idep, live`links, live`odep, live`children, links`next
      ensures aborted <==> asserts && old(AtTail(entries, skip))
      ensures var was, k := old(entries), if aborted then 1 else 0;
              k <= |was| && entries == was[..k] && num == k && gone == Flat(was[k..])
      ensures squashed == old(squashed) + Reversed(gone) && forall u :: u in gone ==> u !in live && u.Unlinked()
      ensures uops == old(uops) && links == old(links)
      ensures !aborted ==> live == {} && effNum == 0 - old(skip) && (Valid() <==> old(skip) == 0)
    {
      hide *;
      ghost var was := entries;
      StartRecovery(0);
      FailsIs(was);
      assert was == [] ==> !AtTail(was, skip) by { NoTail(skip); }
      var back := BackOf(was, []);
      aborted, gone := DropAll(back, was);
      FailsIs(was);
      DroppedIs(was, gone);
      Finish(gone);
    }

    lemma StartRecovery(mop: nat)
      requires Valid()
      ensures Dropped(entries, []) && |slots| == |entries| == num && Reversed([]) == [] && [] == Flat(entries[num..])
      ensures entries[..num] == entries && (num == 0 ==> Keep(entries, mop) == 0 && skip == 0 && live == {} && effNum == 0)
    {
      FlatNothing(entries);
      assert entries[..num] == entries;
    }

    lemma BackIs(was: seq<Uop>, back: Uop?)
      requires AtBack(was, back)
      ensures |slots| == |entries| == num <= |was| && back == (if num == 0 then null else slots[num - 1])
      ensures num > 0 ==> back.mop == was[num - 1].mop
    {
    }

    lemma DroppedIs(was: seq<Uop>, gone: seq<Uop>)
      requires Dropped(was, gone)
      ensures Sound() && |entries| <= |was| && entries == was[..|entries|] && gone == Flat(was[|entries|..])
      ensures forall u :: u in gone ==> u !in live && u.Unlinked()
    {
    }

    lemma IsDropped(was: seq<Uop>, gone: seq<Uop>)
      requires Sound() && |entries| <= |was| && entries == was[..|entries|] && gone == Flat(was[|entries|..])
      requires forall u :: u in gone ==> u !in live && u.Unlinked()
      ensures Dropped(was, gone)
    {
    }

    /** The end of a recovery: an empty ROB has no oldest group. */
    ghost method Finish(gone: seq<Uop>)
      requires Sound() && forall u :: u in gone ==> u !in live && u.Unlinked()
      modifies this`skip
      ensures Valid() <==> entries != [] || old(skip) == 0
      ensures entries == [] ==> live == {} && effNum == 0 - old(skip)
      ensures forall u :: u in gone ==> u !in live && u.Unlinked()
    {
      hide Graph, GroupOk, Known, Gone, Shape, Increasing, Uop.Unlinked;
      EmptyFlat();
      KnownUops(entries, live, uops);
      if entries == [] {
        skip := 0;
      }
    }
  }

  lemma SkipFits(c: seq<Uop>, skip: nat)
    requires c != [] ==> skip < |c[0].group|
    ensures c != [] ==> skip <= |Flat(c)|
  {
    if c != [] {
      FlatCons(c, 0);
      assert c[0..] == c;
    }
  }

  /** The youngest entry. */
  lemma YoungestEntry(slots: seq<Uop>, entries: seq<Uop>, skip: nat)
    requires SlotsOk(slots, entries, skip) && entries != [] && GroupOk(entries[|entries| - 1])
    ensures var h, m := entries[|entries| - 1], if |entries| == 1 then skip else 0;
            |slots| == |entries| && m < |h.group| && slots[|slots| - 1] == h.group[m]
  {
  }

  lemma NoTail(skip: nat)
    ensures !AtTail([], skip)
  {
  }

  lemma TailOfPrefix(entries: seq<Uop>, n: nat, skip: nat)
    requires 0 < n <= |entries|
    ensures AtTail(entries[..n], skip) <==> AtTail(entries, skip)
  {
  }

  lemma TailIsOldest(entries: seq<Uop>, skip: nat)
    requires entries != []
    ensures var h, m := entries[|entries| - 1], if |entries| == 1 then skip else 0;
            m + 1 == |h.group| > 1 <==> |entries| == 1 && AtTail(entries, skip)
  {
  }

  lemma CutSlots(slots: seq<Uop>, entries: seq<Uop>, skip: nat)
    requires SlotsOk(slots, entries, skip) && entries != []
    ensures |slots| == |entries| && SlotsOk(slots[..|slots| - 1], entries[..|entries| - 1], skip)
    ensures |entries| > 1 ==> skip < |entries[0].group|
  {
  }

  lemma PrefixUops(q: seq<Uop>, g: seq<Uop>, uops: set<Uop>)
    requires (forall j :: 0 <= j < |q| ==> q[j] in uops) && forall j :: 0 <= j < |g| ==> g[j] in uops
    ensures forall j :: 0 <= j < |q + g| ==> (q + g)[j] in uops
  {
  }

  lemma PartUops(q: seq<Uop>, g: seq<Uop>, uops: set<Uop>)
    requires forall j :: 0 <= j < |q + g| ==> (q + g)[j] in uops
    ensures forall j :: 0 <= j < |q| ==> q[j] in uops
    ensures forall j :: 0 <= j < |g| ==> g[j] in uops
  {
    forall j | 0 <= j < |q| ensures q[j] in uops { assert (q + g)[j] == q[j]; }
    forall j | 0 <= j < |g| ensures g[j] in uops { assert (q + g)[|q| + j] == g[j]; }
  }

  lemma InMembers(q: seq<Uop>, u: Uop)
    ensures u in Members(q + [u]) && forall k :: 0 <= k < |q| ==> q[k] in Members(q + [u])
  {
    assert (q + [u])[|q|] == u && forall k :: 0 <= k < |q| ==> (q + [u])[k] == q[k];
  }

  lemma CountLast(q: seq<Uop>, u: Uop)
    ensures CountAllocated(q + [u]) == CountAllocated(q) + if u.isAllocated then 1 else 0
  {
    assert (q + [u])[..|q|] == q;
  }

  lemma NothingReversed()
    ensures Reversed([]) == []
  {
  }

  lemma MopOf(h: Uop, m: nat)
    requires GroupOk(h) && m < |h.group|
    ensures h.group[m].mop == h.mop
  {
  }

  lemma DistinctUops(q: seq<Uop>, g: seq<Uop>, live: set<Uop>, links: set<Odep>, count: int)
    requires Consistent(q + g, live, links, count)
    ensures forall i, j :: 0 <= i < j < |g| ==> g[i] != g[j]
  {
    DistinctGroup(q, g);
  }

  lemma GoneNone(q: seq<Uop>)
    ensures Gone(q, 0)
  {
  }

  /** The oldest entry. */
  lemma OldestEntry(slots: seq<Uop>, entries: seq<Uop>, skip: nat, live: set<Uop>, uops: set<Uop>)
    requires SlotsOk(slots, entries, skip) && Known(entries, live, uops) && slots != []
    ensures entries != [] && GroupOk(entries[0]) && skip < |entries[0].group| && slots[0] == entries[0].group[skip]
    ensures Flat(entries) == entries[0].group + Flat(entries[1..])
    ensures skip < |Flat(entries)| && Flat(entries)[skip] == slots[0]
  {
    hide GroupOk, Flat;
    FlatCons(entries, 0);
    assert entries[0..] == entries;
  }

  /** What consistency will need once the group g has joined. */
  lemma GrownConsistent(q: seq<Uop>, g: seq<Uop>, live: set<Uop>, links: set<Odep>, count: int)
    requires Consistent(q, live, links, count) && Increasing(q + g) && g != []
    requires forall k :: 0 <= k < |g| ==> g[k] !in live && g[k].Unlinked() && (g[k].isAllocated <==> k == 0)
    ensures Consistent(q + g, live + Members(g), links, count + 1)
  {
    hide Graph, Uop.Unlinked, Increasing, CountAllocated;
    JoinGroup(q, g, live, links);
    CountGroup(q, g);
  }

  lemma GrownSlots(slots: seq<Uop>, entries: seq<Uop>, skip: nat, uop: Uop, q: seq<Uop>)
    requires SlotsOk(slots, entries, skip) && GroupOk(uop) && q == Flat(entries)
    requires if entries == [] then skip == 0 else Gone(q, skip)
    ensures SlotsOk(slots + [uop], entries + [uop], skip) && Gone(q + uop.group, skip) && uop.group != []
  {
    hide Flat;
    EmptyFlat();
  }

  /** A uop is marked as allocated. */
  method MarkAllocated(uop: Uop, ghost q: seq<Uop>, ghost n: nat, ghost uops: set<Uop>)
    requires uop in q && !uop.isAllocated && Increasing(q) && forall u :: u in q ==> u in uops
    modifies uop`isAllocated
    ensures CountAllocated(q) == old(CountAllocated(q)) + 1 && uop.isAllocated
    ensures old(Gone(q, n)) ==> Gone(q, n)
  {
    ghost var k :| 0 <= k < |q| && q[k] == uop;
    ghost var marks := seq(|q|, i reads q requires 0 <= i < |q| => q[i].isAllocated);
    CountMarks(q, marks);
    uop.isAllocated := true;
    MarkOne(marks, k);
    CountMarks(q, marks[k := true]);
  }

  twostate lemma KeepsUnlinked(u: Uop)
    requires old(u.Unlinked())
    requires u.children == old(u.children) && u.odep == old(u.odep) && u.idep == old(u.idep) && u.links == old(u.links)
    ensures u.Unlinked()
  {
  }

  lemma EmptyFlat()
    ensures Flat([]) == []
  {
  }

  lemma {:induction false} CountGone(q: seq<Uop>, n: nat)
    requires Gone(q, n)
    ensures CountAllocated(q) >= n
  {
    if n == |q| && n > 0 {
      CountGone(q[..n - 1], n - 1);
    } else if n < |q| {
      CountGone(q[..|q| - 1], n);
    }
  }

  lemma RingPopFront(head: nat, num: nat, size: nat)
    requires head < size && 0 < num <= size
    ensures forall k :: 0 <= k < num - 1 ==> Slot(ModInc(head, size), k, size) == Slot(head, k + 1, size)
    ensures Slot(ModInc(head, size), num - 1, size) == Slot(head, num, size)
    ensures forall k :: 0 < k < num ==> Slot(head, k, size) != head
  {
  }

  lemma IncreasingAt(q: seq<Uop>, i: nat, j: nat)
    requires Increasing(q) && i < |q| && j < |q|
    ensures q[j].seqNum < q[i].seqNum <==> j < i
  {
  }

  /** What is older than the next uop to commit has no consumers. */
  lemma OlderGone(q: seq<Uop>, n: nat, live: set<Uop>)
    requires live == Members(q) && Increasing(q) && Gone(q, n) && n < |q|
    ensures OldestLinked(q[n], live)
  {
    forall u | u in live && u.seqNum < q[n].seqNum ensures u.children == [] {
      var j :| 0 <= j < |q| && q[j] == u;
      IncreasingAt(q, n, j);
      assert q[j].Unlinked();
    }
  }

  lemma ReleasedUnlinked(u: Uop, before: seq<Uop?>, c: Uop, live: set<Uop>, links: set<Odep>)
    requires Graph(live, links) && u in live && u.children == [] && Released(before, u.idep, c)
    requires |before| == MAX_IDEPS && forall i :: 0 <= i < MAX_IDEPS ==> before[i] == null
    ensures u.Unlinked()
  {
    assert ParentOk(u, live, links) && ChildOk(u, live, links);
  }

  /** The oldest group has committed. */
  lemma GroupLeaves(entries: seq<Uop>, live: set<Uop>, links: set<Odep>, count: int)
    requires entries != [] && Gone(Flat(entries), |entries[0].group|) && Consistent(Flat(entries), live, links, count)
    ensures var g := entries[0].group;
            Consistent(Flat(entries[1..]), live - Members(g), links, count - |g|)
  {
    hide Graph, Uop.Unlinked, CountAllocated;
    var g, q, rest := entries[0].group, Flat(entries), Flat(entries[1..]);
    FlatCons(entries, 0);
    assert entries[0..] == entries && q == g + rest;
    forall i, j | 0 <= i < j < |rest| ensures rest[i].seqNum < rest[j].seqNum {
      assert q[|g| + i] == rest[i] && q[|g| + j] == rest[j];
    }
    forall k, i | 0 <= k < |g| && 0 <= i < |rest| ensures g[k] != rest[i] {
      assert q[k] == g[k] && q[|g| + i] == rest[i];
    }
    forall k | 0 <= k < |g| ensures g[k] in live && g[k].Unlinked() && g[k].isAllocated { assert q[k] == g[k]; }
    ForgetGroup(g, live, links);
    CountWhole(g, rest);
  }

  lemma {:induction false} ForgetGroup(g: seq<Uop>, live: set<Uop>, links: set<Odep>)
    requires Graph(live, links) && forall k :: 0 <= k < |g| ==> g[k] in live && g[k].Unlinked()
    ensures Graph(live - Members(g), links)
    decreases |g|
  {
    hide Graph, Uop.Unlinked;
    if g == [] {
      assert live - Members(g) == live;
    } else {
      var init, last := g[..|g| - 1], g[|g| - 1];
      ForgetGroup(init, live, links);
      assert Members(g) == Members(init) + {last};
      var less := live - Members(init);
      assert live - Members(g) == less - {last};
      if last in less { Forget(last, less, links); } else { assert less - {last} == less; }
    }
  }

  lemma {:induction false} CountWhole(g: seq<Uop>, rest: seq<Uop>)
    requires forall k :: 0 <= k < |g| ==> g[k].isAllocated
    ensures CountAllocated(g + rest) == |g| + CountAllocated(rest)
    decreases |rest|, |g|
  {
    var q := g + rest;
    if rest != [] {
      assert q[..|q| - 1] == g + rest[..|rest| - 1];
      CountWhole(g, rest[..|rest| - 1]);
    } else if g != [] {
      assert q == g && g[..|g| - 1] + [] == g[..|g| - 1];
      CountWhole(g[..|g| - 1], []);
    }
  }

  lemma LastIsYoungest(q: seq<Uop>, u: Uop)
    requires Increasing(q + [u])
    ensures Increasing(q) && Youngest(u, Members(q + [u])) && Members(q + [u]) - {u} == Members(q)
  {
    var r := q + [u];
    forall i, j | 0 <= i < j < |q| ensures q[i].seqNum < q[j].seqNum { assert r[i] == q[i] && r[j] == q[j]; }
    forall v | v in q ensures v.seqNum < u.seqNum {
      var i :| 0 <= i < |q| && q[i] == v;
      assert r[i].seqNum < r[|q|].seqNum;
    }
  }

  lemma DistinctGroup(q: seq<Uop>, g: seq<Uop>)
    requires Increasing(q + g)
    ensures forall i, j :: 0 <= i < j < |g| ==> g[i] != g[j]
  {
    forall i, j | 0 <= i < j < |g| ensures g[i] != g[j] {
      assert (q + g)[|q| + i].seqNum < (q + g)[|q| + j].seqNum;
    }
  }

  lemma {:induction false} FlatCons(c: seq<Uop>, k: nat)
    requires k < |c|
    ensures Flat(c[k..]) == c[k].group + Flat(c[k + 1..])
  {
    FlatConcat([c[k]], c[k + 1..]);
    assert [c[k]] + c[k + 1..] == c[k..];
    assert Flat([c[k]]) == Flat([]) + c[k].group;
  }

  lemma {:induction false} FlatConcat(a: seq<Uop>, b: seq<Uop>)
    ensures Flat(a + b) == Flat(a) + Flat(b)
  {
    if b == [] {
      assert a + b == a;
    } else {
      assert (a + b)[..|a + b| - 1] == a + b[..|b| - 1];
      FlatConcat(a, b[..|b| - 1]);
    }
  }

  lemma ReversedNothing(g: seq<Uop>)
    ensures Reversed(g[|g|..]) == []
  {
  }

  /** One step backwards through a group. */
  lemma SplitGroup(q: seq<Uop>, g: seq<Uop>, m: nat)
    requires 0 < m <= |g|
    ensures q + g[..m] == (q + g[..m - 1]) + [g[m - 1]]
  {
  }

  lemma ReversedStep(g: seq<Uop>, m: nat)
    requires 0 < m <= |g|
    ensures Reversed(g[m - 1..]) == Reversed(g[m..]) + [g[m - 1]]
  {
    ReversedConcat([g[m - 1]], g[m..]);
    assert [g[m - 1]] + g[m..] == g[m - 1..];
    assert Reversed([g[m - 1]]) == [g[m - 1]] + Reversed([]);
  }

  lemma FlatNothing(c: seq<Uop>)
    ensures Flat(c[|c|..]) == [] && Reversed([]) == []
  {
  }

  lemma GroupHasHead(h: Uop)
    requires GroupOk(h)
    ensures h.group != [] && h in h.group
  {
  }

  lemma WindowRoom(head: nat, num: nat, size: nat)
    requires head < size && num < size
    ensures forall k :: 0 <= k < num ==> Slot(head, k, size) != Slot(head, num, size)
    ensures forall i :: 0 <= i < size ==>
      (Used(head, num + 1, size, i) <==> Used(head, num, size, i) || i == Slot(head, num, size))
  {
  }

  lemma JoinGroup(q: seq<Uop>, g: seq<Uop>, live: set<Uop>, links: set<Odep>)
    requires Graph(live, links)
    requires forall k :: 0 <= k < |g| ==> g[k] !in live && g[k].Unlinked()
    ensures Graph(live + Members(g), links)
    decreases |g|
  {
    if g == [] {
      assert live + Members(g) == live;
    } else {
      JoinGroup(q, g[1..], live, links);
      assert live + Members(g) == live + Members(g[1..]) + {g[0]};
      if g[0] !in live + Members(g[1..]) {
        Join(g[0], live + Members(g[1..]), links);
      } else {
        assert live + Members(g[1..]) + {g[0]} == live + Members(g[1..]);
      }
    }
  }

  lemma {:induction false} CountGroup(q: seq<Uop>, g: seq<Uop>)
    requires g != [] && g[0].isAllocated && forall k :: 0 < k < |g| ==> !g[k].isAllocated
    ensures CountAllocated(q + g) == CountAllocated(q) + 1
  {
    assert (q + g)[..|q + g| - 1] == q + g[..|g| - 1];
    if |g| > 1 { CountGroup(q, g[..|g| - 1]); } else { assert q + g[..0] == q; }
  }

  ghost function Marks(marks: seq<bool>): nat {
    if marks == [] then 0 else Marks(marks[..|marks| - 1]) + (if marks[|marks| - 1] then 1 else 0)
  }

  lemma {:induction false} MarkOne(marks: seq<bool>, k: nat)
    requires k < |marks| && !marks[k]
    ensures Marks(marks[k := true]) == Marks(marks) + 1
  {
    var rest := marks[..|marks| - 1];
    if k < |rest| {
      MarkOne(rest, k);
      assert marks[k := true][..|marks| - 1] == rest[k := true];
    } else {
      assert marks[k := true][..|marks| - 1] == rest;
    }
  }

  lemma {:induction false} CountMarks(q: seq<Uop>, marks: seq<bool>)
    requires |q| == |marks| && forall k :: 0 <= k < |q| ==> q[k].isAllocated == marks[k]
    ensures CountAllocated(q) == Marks(marks)
  {
    if q == [] {
    } else {
      CountMarks(q[..|q| - 1], marks[..|q| - 1]);
    }
  }

  lemma FlatSnoc(c: seq<Uop>)
    requires c != []
    ensures Flat(c) == Flat(c[..|c| - 1]) + c[|c| - 1].group
  {
  }

  lemma SingleGroup(u: Uop)
    requires !u.inFusion && u.group == [u] && u.fusionNext == null
    ensures GroupOk(u)
  {
  }

  lemma {:induction false} SingleFlat(c: seq<Uop>)
    requires forall k :: 0 <= k < |c| ==> c[k].group == [c[k]]
    ensures Flat(c) == c
  {
    hide Flat;
    EmptyFlat();
    if c == [] {
    } else {
      var rest, u := c[..|c| - 1], c[|c| - 1];
      SingleFlat(rest);
      FlatSnoc(c);
      assert c == rest + [u];
    }
  }

  /** A valid ROB without fused groups. */
  ghost predicate Simple(c: CommitDPM)
    reads c, c.ROB, c.uops, c.links
  {
    c.Valid() && c.skip == 0 && forall k :: 0 <= k < |c.entries| ==> c.entries[k] in c.uops && c.entries[k].group == [c.entries[k]]
  }

  lemma SimpleRob(c: CommitDPM)
    requires Simple(c)
    ensures c.Valid() && Flat(c.entries) == c.entries && c.live == Members(c.entries) && |c.entries| == c.num == |c.slots|
    ensures c.entries != [] ==> c.slots[0] == c.entries[0]
    ensures Increasing(c.entries) && Graph(c.live, c.links) && c.live <= c.uops && c.skip == 0 && forall u :: u in c.live ==> c.Pending(u)
    ensures forall k :: 0 <= k < |c.entries| ==> c.entries[k].group == [c.entries[k]]
  {
    SingleFlat(c.entries);
    c.SoundParts();
    KnownUops(c.entries, c.live, c.uops);
  }

  lemma IsSimple(c: CommitDPM)
    requires c.Valid() && c.skip == 0 && forall k :: 0 <= k < |c.entries| ==> c.entries[k].group == [c.entries[k]]
    ensures Simple(c)
  {
    hide Graph, GroupOk, Flat, CountAllocated, Increasing, SlotsOk;
    KnownUops(c.entries, c.live, c.uops);
  }

  lemma StaysIncreasing(q: seq<Uop>, u: Uop)
    requires Increasing(q) && forall k :: 0 <= k < |q| ==> q[k].seqNum < u.seqNum
    ensures Increasing(q + [u])
  {
  }

  lemma OnlyMember(u: Uop)
    ensures Members([u]) == {u}
  {
  }

  /** A new uop enters. */
  method Enter(c: CommitDPM, seqNum: nat) returns (u: Uop)
    requires Simple(c) && c.num < c.ROB.Length && forall k :: 0 <= k < |c.entries| ==> c.entries[k].seqNum < seqNum
    modifies c, c.ROB
    ensures fresh(u) && Simple(c) && c.entries == old(c.entries) + [u] && u.isAllocated && u.seqNum == seqNum
    ensures u.Unlinked() && c.live == old(c.live) + {u}
  {
    hide Simple, Graph, GroupOk, CommitDPM.Valid, Flat, Increasing, Members;
    SimpleRob(c);
    u := new Uop(seqNum, seqNum);
    u.isAllocated := true;
    SingleGroup(u);
    StaysIncreasing(c.entries, u);
    c.RobInsert(u);
    OnlyMember(u);
    IsSimple(c);
  }

  /** A uop takes one input. */
  method TakeInput(c: CommitDPM, u: Uop, p: Uop)
    requires Simple(c) && u in c.entries && p in c.entries && p.seqNum < u.seqNum && u.Unlinked()
    modifies c`links, u`idep, u`links, c.live`odep, c.live`children
    ensures Simple(c) && u.idep == [p, null, null] && u in c.live && p.children != []
  {
    hide Simple, Graph, GroupOk, Flat, Uop.Unlinked, CommitDPM.Valid, CommitDPM.Pending, Others;
    SimpleRob(c);
    assert u in c.live && p in c.live;
    var producers: seq<Uop?> := [p, null, null];
    c.Link(u, producers);
    IsSimple(c);
    SimpleRob(c);
    InputListed(u, 0, c.live, c.links);
  }

  /** The oldest uop commits. */
  method Retire(c: CommitDPM)
    requires Simple(c) && c.entries != [] && c.entries[0].isAllocated
    modifies c, c.ROB, c.live`idep, c.live`links, c.live`odep, c.live`children
    ensures Simple(c) && c.entries == old(c.entries)[1..] && c.live <= old(c.live)
  {
    hide *;
    SimpleRob(c);
    var u := c.CommitHead();
    IsSimple(c);
  }

  /** Two uops fill the ROB, the second with the first as its input. */
  method TwoLinked() returns (c: CommitDPM, t: Uop, u: Uop)
    ensures fresh(c) && fresh(c.ROB) && fresh(c.live) && Simple(c) && c.entries == [t, u] && c.ROB.Length == 2
    ensures t.isAllocated && u.isAllocated && t.seqNum == 0 && u.seqNum == 1 && u.idep == [t, null, null]
  {
    hide *;
    c := new CommitDPM(2, true);
    IsSimple(c);
    SimpleRob(c);
    t := Enter(c, 0);
    SimpleRob(c);
    u := Enter(c, 1);
    TakeInput(c, u, t);
  }

  /** The ring wraps and the graph is not empty: of three uops, the first commits and the third takes the place
      it leaves, with the second as its input. */
  method ThirdWraps() returns (c: CommitDPM, u: Uop, v: Uop)
    ensures c.Valid() && c.entries == [u, v] && c.num == c.ROB.Length == 2 && u.seqNum == 1 && v.seqNum == 2
    ensures v.idep == [u, null, null] && u.children != []
  {
    hide *;
    var t;
    c, t, u := TwoLinked();
    Retire(c);
    SimpleRob(c);
    v := Enter(c, 2);
    TakeInput(c, v, u);
    SimpleRob(c);
  }

  // ---------------------------------------------------------------- a group that commits in part

  /** Two fused uops, the first of which has been allocated. */
  method FusedPair() returns (a: Uop, d: Uop)
    ensures fresh(a) && fresh(d) && a != d && a.seqNum == 0 && d.seqNum == 1 && a.group == [a, d] && GroupOk(a)
    ensures a.Unlinked() && d.Unlinked() && a.isAllocated && !d.isAllocated
  {
    a := new Uop(0, 0);
    d := new Uop(1, 0);
    a.inFusion, a.fusionHead, a.fusionNext, a.group := true, a, d, [a, d];
    d.inFusion, d.fusionHead, d.fusionNext := true, a, null;
    a.isAllocated := true;
  }

  /** The pair enters an empty ROB. */
  method PairEnters(asserts: bool) returns (c: CommitDPM)
    ensures fresh(c) && fresh(c.ROB) && fresh(c.live) && fresh(c.links) && c.Valid() && c.asserts == asserts
    ensures c.effNum == 2 && c.skip == 0 && c.num == 1 == |c.slots| && c.slots[0].isAllocated && |c.entries| == 1 && |c.entries[0].group| == 2
  {
    hide Graph, Flat, Uop.Unlinked, CommitDPM.Valid, GroupOk, Increasing;
    c := new CommitDPM(4, asserts);
    var a, d := FusedPair();
    PairFits(a, d);
    SimpleRobStarts(c);
    c.RobInsert(a);
    assert d in c.live;
    c.RobFuseInsert(d);
    OldestIs(c, a);
  }

  lemma SimpleRobStarts(c: CommitDPM)
    requires c.Valid() && c.entries == [] && c.skip == 0
    ensures c.num == 0
  {
    c.SoundParts();
  }

  /** Its first uop commits. */
  method HalfCommits(asserts: bool) returns (c: CommitDPM)
    ensures fresh(c) && fresh(c.ROB) && fresh(c.live) && fresh(c.links) && c.Valid() && c.asserts == asserts
    ensures c.effNum == 1 && c.skip == 1 && AtTail(c.entries, c.skip)
  {
    hide Graph, Flat, Uop.Unlinked, CommitDPM.Valid, GroupOk, Increasing;
    c := PairEnters(asserts);
    var u := c.CommitHead();
  }

  lemma PairFits(a: Uop, d: Uop)
    requires a.seqNum < d.seqNum && a.group == [a, d]
    ensures Flat([]) == [] && Increasing([] + a.group) && [a][0] == a
  {
  }

  lemma OldestIs(c: CommitDPM, a: Uop)
    requires c.Valid() && c.entries == [a] && c.skip == 0 && a.group != [] && a.group[0] == a
    ensures c.num == 1 == |c.slots| && c.slots[0] == a
  {
    c.SoundParts();
  }

  /** A full flush then fails its assertion, or counts the first uop twice. */
  method HalfCommittedFlushed(asserts: bool) returns (c: CommitDPM, aborted: bool)
    ensures aborted <==> asserts
    ensures !aborted ==> c.entries == [] && c.effNum == -1 && !c.Valid()
  {
    hide *;
    c := HalfCommits(asserts);
    ghost var gone;
    aborted, gone := c.RecoverAll();
  }
}
