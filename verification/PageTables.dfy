/** Virtual-to-physical translation (memory.cpp, memory.h): one page table per address space, and physical
    pages handed out in order of demand. Virtual addresses are 64 bits wide and wrap around. */
module PageTables {

  const PAGE_SIZE := 4096
  const SPAN := 0x1_0000_0000_0000_0000  // 2^64
  const PAGES := 0x10_0000_0000_0000     // 2^52, how many virtual pages there are
  const FIRST_PPN := 0x100
  const DO_NOT_TRANSLATE := -1

  type Addr = a: nat | a < SPAN

  function RoundUp(a: Addr): (r: Addr)
    ensures r % PAGE_SIZE == 0
    ensures a <= SPAN - PAGE_SIZE ==> a <= r < a + PAGE_SIZE
    ensures a > SPAN - PAGE_SIZE ==> r == 0
  {
    var up := (a + (PAGE_SIZE - 1)) % SPAN;
    up - up % PAGE_SIZE
  }

  function RoundDown(a: Addr): (r: Addr)
    ensures r % PAGE_SIZE == 0 && r <= a < r + PAGE_SIZE
  {
    a - a % PAGE_SIZE
  }

  function Plus(a: Addr, n: Addr): Addr {
    (a + n) % SPAN
  }

  function Minus(a: Addr, n: Addr): Addr {
    (a - n) % SPAN
  }

  function Vpn(a: Addr): (v: nat)
    ensures v < PAGES
  {
    a / PAGE_SIZE
  }

  /** The page numbers from lo up to and including hi. */
  datatype Span = Span(lo: nat, hi: int) {
    ghost predicate Has(v: nat) { lo <= v <= hi }
  }

  /** The pages that mem_newmap and mem_delmap walk over: up to and including the page at the rounded end
      of the range. Nothing if the range starts in page 0, or ends beyond the address space. */
  ghost function Walk(addr: Addr, length: Addr): Span {
    var last := RoundUp(Plus(addr, length));
    Span(Vpn(addr), if addr == 0 || last < addr then Vpn(addr) - 1 else Vpn(last))
  }

  /** Where a page starts; the walk sees 0 behind the last one. */
  ghost function PageStart(page: nat): Addr {
    (page * PAGE_SIZE) % SPAN
  }

  lemma WalkStarts(addr: Addr)
    requires addr % PAGE_SIZE == 0
    ensures PageStart(Vpn(addr)) == addr && Vpn(addr) <= PAGES
  {
  }

  lemma NextPage(curr: Addr, last: Addr, page: nat)
    requires curr == PageStart(page) && page <= PAGES && curr <= last && curr != 0
    ensures page < PAGES && Vpn(curr) == page && Plus(curr, PAGE_SIZE) == PageStart(page + 1) && page <= Vpn(last)
  {
  }

  lemma WalkEnds(addr: Addr, length: Addr, curr: Addr, page: nat)
    requires addr % PAGE_SIZE == 0 && Vpn(addr) <= page <= PAGES && curr == PageStart(page)
    requires var last := RoundUp(Plus(addr, length));
             && !(curr <= last && curr != 0) && (page > Vpn(addr) ==> page - 1 <= Vpn(last) && addr != 0)
    ensures Span(Vpn(addr), page - 1) == Walk(addr, length)
  {
  }

  /** What mem_newmap does to a table: the pages of a span are mapped, to new frames if they were not mapped,
      in the order of the pages; nothing else changes. */
  ghost predicate Mapped(before: map<nat, nat>, after: map<nat, nat>, pages: Span, first: nat, next: nat) {
    && (forall v: nat :: v in after <==> v in before || pages.Has(v))
    && (forall v :: v in before ==> after[v] == before[v])
    && (forall v :: v in after && v !in before ==> first <= after[v] < next)
    && InPageOrder(before, after)
    && next - first == |after| - |before|
  }

  /** The frames of the pages that have been mapped are in the order of the pages. */
  ghost predicate InPageOrder(before: map<nat, nat>, after: map<nat, nat>) {
    forall v, w :: v in after && w in after && v !in before && w !in before && v < w ==> after[v] < after[w]
  }

  ghost predicate Unmapped(before: map<nat, nat>, after: map<nat, nat>, pages: Span) {
    && (forall v: nat :: v in after <==> v in before && !pages.Has(v))
    && (forall v :: v in after ==> after[v] == before[v])
  }

  ghost function Sum(s: seq<int>): int {
    if s == [] then 0 else Sum(s[..|s| - 1]) + s[|s| - 1]
  }

  lemma {:induction false} SumUpdate(s: seq<int>, i: nat, x: int)
    requires i < |s|
    ensures Sum(s[i := x]) == Sum(s) - s[i] + x
  {
    var init := s[..|s| - 1];
    if i < |init| {
      SumUpdate(init, i, x);
      assert s[i := x][..|s| - 1] == init[i := x];
    } else {
      assert s[i := x][..|s| - 1] == init;
    }
  }

  /** Two pages with one frame are the same page of the same address space. */
  ghost predicate Apart(tables: seq<map<nat, nat>>, i: nat, j: nat)
    requires i < |tables| && j < |tables|
  {
    forall v, w :: v in tables[i] && w in tables[j] && tables[i][v] == tables[j][w] ==> i == j && v == w
  }

  ghost predicate InUse(table: map<nat, nat>, next: nat) {
    forall v :: v in table ==> FIRST_PPN <= table[v] < next
  }

  /** Every frame belongs to one page of one address space only. */
  ghost predicate FramesOk(tables: seq<map<nat, nat>>, next: nat) {
    && (forall i :: 0 <= i < |tables| ==> InUse(tables[i], next))
    && (forall i, j :: 0 <= i < |tables| && 0 <= j < |tables| ==> Apart(tables, i, j))
  }

  function With(table: map<nat, nat>, vpn: nat, ppn: nat): map<nat, nat> {
    table[vpn := ppn]
  }

  lemma FramesGrow(tables: seq<map<nat, nat>>, next: nat, a: nat, vpn: nat)
    requires FramesOk(tables, next) && a < |tables| && vpn !in tables[a] && FIRST_PPN <= next
    ensures FramesOk(tables[a := With(tables[a], vpn, next)], next + 1)
  {
    var after := tables[a := With(tables[a], vpn, next)];
    forall i, j | 0 <= i < |after| && 0 <= j < |after| ensures Apart(after, i, j) {
      assert Apart(tables, i, j) && InUse(tables[i], next) && InUse(tables[j], next);
    }
    forall i | 0 <= i < |after| ensures InUse(after[i], next + 1) {
      assert InUse(tables[i], next);
    }
  }

  lemma FramesShrink(tables: seq<map<nat, nat>>, next: nat, a: nat, vpn: nat)
    requires FramesOk(tables, next) && a < |tables|
    ensures FramesOk(tables[a := tables[a] - {vpn}], next)
  {
    var after := tables[a := tables[a] - {vpn}];
    forall i, j | 0 <= i < |after| && 0 <= j < |after| ensures Apart(after, i, j) {
      assert Apart(tables, i, j);
    }
    forall i | 0 <= i < |after| ensures InUse(after[i], next) {
      assert InUse(tables[i], next);
    }
  }

  ghost predicate CountsOk(tables: seq<map<nat, nat>>, counts: seq<int>, total: int) {
    && |counts| == |tables| && total == Sum(counts)
    && forall i :: 0 <= i < |tables| ==> counts[i] == |tables[i]|
  }

  lemma CountsChange(tables: seq<map<nat, nat>>, counts: seq<int>, total: int, a: nat, table: map<nat, nat>)
    requires CountsOk(tables, counts, total) && a < |tables|
    ensures counts[a] == |tables[a]|
    ensures var more := |table| - |tables[a]|;
            CountsOk(tables[a := table], counts[a := counts[a] + more], total + more)
  {
    SumUpdate(counts, a, |table|);
  }

  class Memory {
    const tables: array<map<nat, nat>>
    const brkPoint: array<Addr>
    const pageCount: array<int>
    var physPageCount: int
    var nextPpn: nat

    ghost predicate Valid()
      reads this, tables, brkPoint, pageCount
    {
      && tables.Length == brkPoint.Length == pageCount.Length
      && FIRST_PPN <= nextPpn && FramesOk(tables[..], nextPpn) && CountsOk(tables[..], pageCount[..], physPageCount)
    }

    constructor (numProcesses: nat)
      ensures Valid() && fresh(tables) && fresh(brkPoint) && fresh(pageCount) && tables.Length == numProcesses
      ensures nextPpn == FIRST_PPN && forall i :: 0 <= i < numProcesses ==> tables[i] == map[] && brkPoint[i] == 0
    {
      tables := new map<nat, nat>[numProcesses](_ => map[]);
      brkPoint := new Addr[numProcesses](_ => 0);
      pageCount := new int[numProcesses](_ => 0);
      physPageCount, nextPpn := 0, FIRST_PPN;
      new;
      SumZero(pageCount[..]);
    }

    predicate IsMapped(asid: nat, addr: Addr)
      requires asid < tables.Length
      reads tables
    {
      Vpn(addr) in tables[asid]
    }

    /** Adds one page. */
    method MapPage(asid: nat, vpn: nat)
      requires Valid() && asid < tables.Length && vpn !in tables[asid]
      modifies this, tables, pageCount
      ensures Valid() && nextPpn == old(nextPpn) + 1 && tables[..] == old(tables[..])[asid := With(old(tables[asid]), vpn, old(nextPpn))]
    {
      hide FramesOk, CountsOk;
      FramesGrow(tables[..], nextPpn, asid, vpn);
      CountsChange(tables[..], pageCount[..], physPageCount, asid, With(tables[asid], vpn, nextPpn));
      tables[asid] := With(tables[asid], vpn, nextPpn);
      nextPpn := nextPpn + 1;
      pageCount[asid] := pageCount[asid] + 1;
      physPageCount := physPageCount + 1;
      assert tables[..] == old(tables[..])[asid := With(old(tables[asid]), vpn, old(nextPpn))];
      assert pageCount[..] == old(pageCount[..])[asid := old(pageCount[asid]) + 1];
    }

    /** Removes one page. */
    method UnmapPage(asid: nat, vpn: nat)
      requires Valid() && asid < tables.Length && vpn in tables[asid]
      modifies this, tables, pageCount
      ensures Valid() && nextPpn == old(nextPpn) && tables[..] == old(tables[..])[asid := old(tables[asid]) - {vpn}]
    {
      hide FramesOk, CountsOk;
      FramesShrink(tables[..], nextPpn, asid, vpn);
      RemoveOne(tables[asid], vpn);
      CountsChange(tables[..], pageCount[..], physPageCount, asid, tables[asid] - {vpn});
      tables[asid] := tables[asid] - {vpn};
      pageCount[asid] := pageCount[asid] - 1;
      physPageCount := physPageCount - 1;
      assert tables[..] == old(tables[..])[asid := old(tables[asid]) - {vpn}];
      assert pageCount[..] == old(pageCount[..])[asid := old(pageCount[asid]) - 1];
    }

    method NewMap(asid: nat, addr: Addr, length: Addr)
      requires Valid() && asid < tables.Length && addr != 0 && addr % PAGE_SIZE == 0
      modifies this, tables, pageCount
      ensures Valid() && forall i :: 0 <= i < tables.Length && i != asid ==> tables[i] == old(tables[i])
      ensures Mapped(old(tables[asid]), tables[asid], Walk(addr, length), old(nextPpn), nextPpn)
    {
      hide FramesOk, CountsOk, Mapped, Plus, RoundUp, Walk, Span.Has, Vpn, PageStart, With;
      WalkStarts(addr);
      var lastAddr := RoundUp(Plus(addr, length));
      ghost var before, first := tables[asid], nextPpn;
      NothingMapped(before, Span(Vpn(addr), Vpn(addr) - 1), first);
      var currAddr := addr;
      ghost var page := Vpn(addr);
      while currAddr <= lastAddr && currAddr != 0
        invariant Valid() && Vpn(addr) <= page <= PAGES && currAddr == PageStart(page) && first <= nextPpn
        invariant page > Vpn(addr) ==> page - 1 <= Vpn(lastAddr)
        invariant forall i :: 0 <= i < tables.Length && i != asid ==> tables[i] == old(tables[i])
        invariant Mapped(before, tables[asid], Span(Vpn(addr), page - 1), first, nextPpn)
        decreases PAGES - page
      {
        NextPage(currAddr, lastAddr, page);
        MapNext(before, tables[asid], Vpn(addr), page, first, nextPpn);
        if !IsMapped(asid, currAddr) {
          MapPage(asid, Vpn(currAddr));
        }
        currAddr := Plus(currAddr, PAGE_SIZE);
        page := page + 1;
      }
      WalkEnds(addr, length, currAddr, page);
    }

    method DelMap(asid: nat, addr: Addr, length: Addr)
      requires Valid() && asid < tables.Length && addr % PAGE_SIZE == 0
      modifies this, tables, pageCount
      ensures Valid() && forall i :: 0 <= i < tables.Length && i != asid ==> tables[i] == old(tables[i])
      ensures Unmapped(old(tables[asid]), tables[asid], Walk(addr, length)) && nextPpn == old(nextPpn)
    {
      hide FramesOk, CountsOk, Plus, RoundUp, Walk, Vpn;
      WalkStarts(addr);
      var lastAddr := RoundUp(Plus(addr, length));
      ghost var before := tables[asid];
      var currAddr := addr;
      ghost var page := Vpn(addr);
      while currAddr <= lastAddr && currAddr != 0
        invariant Valid() && Vpn(addr) <= page <= PAGES && currAddr == PageStart(page)
        invariant page > Vpn(addr) ==> page - 1 <= Vpn(lastAddr) && addr != 0
        invariant forall i :: 0 <= i < tables.Length && i != asid ==> tables[i] == old(tables[i])
        invariant Unmapped(before, tables[asid], Span(Vpn(addr), page - 1)) && nextPpn == old(nextPpn)
        decreases PAGES - page
      {
        NextPage(currAddr, lastAddr, page);
        if IsMapped(asid, currAddr) {
          UnmapPage(asid, Vpn(currAddr));
        }
        currAddr := Plus(currAddr, PAGE_SIZE);
        page := page + 1;
      }
      WalkEnds(addr, length, currAddr, page);
    }

    /** Mapped pages are looked up; the others yield the offset in page 0. */
    function Translate(asid: int, addr: Addr): nat
      requires asid == DO_NOT_TRANSLATE || 0 <= asid < tables.Length
      reads tables
    {
      if asid == DO_NOT_TRANSLATE then addr
      else if IsMapped(asid, addr) then tables[asid][Vpn(addr)] * PAGE_SIZE + addr % PAGE_SIZE
      else addr % PAGE_SIZE
    }

    /** Translation never confuses two mapped addresses, of whatever address spaces. */
    lemma TranslationIsInjective(i: nat, a: Addr, j: nat, b: Addr)
      requires Valid() && i < tables.Length && j < tables.Length && IsMapped(i, a) && IsMapped(j, b)
      ensures Translate(i, a) == Translate(j, b) <==> i == j && a == b
    {
      assert Apart(tables[..], i, j);
      if Translate(i, a) == Translate(j, b) {
        assert tables[i][Vpn(a)] == tables[j][Vpn(b)];
        assert i == j && Vpn(a) == Vpn(b);
      }
    }

    /** Translation replaces the page and keeps the place in it. */
    lemma TranslationKeepsPlace(asid: int, a: Addr, b: Addr)
      requires Valid() && (asid == DO_NOT_TRANSLATE || 0 <= asid < tables.Length)
      ensures Translate(asid, a) % PAGE_SIZE == a % PAGE_SIZE
      ensures a / PAGE_SIZE == b / PAGE_SIZE ==> Translate(asid, a) - Translate(asid, b) == a - b
      ensures asid == DO_NOT_TRANSLATE ==> Translate(asid, a) == a
    {
    }

    /** The result tells whether the address was mapped: page 0 is never handed out. */
    lemma FallbackIsDistinct(asid: nat, addr: Addr)
      requires Valid() && asid < tables.Length
      ensures Translate(asid, addr) >= FIRST_PPN * PAGE_SIZE <==> IsMapped(asid, addr)
      ensures Translate(asid, addr) < PAGE_SIZE <==> !IsMapped(asid, addr)
      ensures Translate(asid, addr) % PAGE_SIZE == addr % PAGE_SIZE
    {
      assert InUse(tables[..][asid], nextPpn);
    }

    /** A write to a page that is not mapped maps it, and the page behind it as well. */
    method NotifyWrite(asid: nat, addr: Addr)
      requires Valid() && asid < tables.Length && (IsMapped(asid, addr) || addr >= PAGE_SIZE)
      modifies this, tables, pageCount
      ensures Valid() && forall i :: 0 <= i < tables.Length && i != asid ==> tables[i] == old(tables[i])
      ensures if old(IsMapped(asid, addr)) then tables[asid] == old(tables[asid]) && nextPpn == old(nextPpn)
              else Mapped(old(tables[asid]), tables[asid], Walk(RoundDown(addr), PAGE_SIZE), old(nextPpn), nextPpn)
    {
      if !IsMapped(asid, addr) {
        NewMap(asid, RoundDown(addr), PAGE_SIZE);
      }
    }

    method NotifyMmap(asid: nat, addr: Addr, length: Addr, modBrk: bool)
      requires Valid() && asid < tables.Length && addr >= PAGE_SIZE
      modifies this, tables, pageCount, brkPoint
      ensures Valid() && forall i :: 0 <= i < tables.Length && i != asid ==> tables[i] == old(tables[i])
      ensures Mapped(old(tables[asid]), tables[asid], Walk(RoundDown(addr), RoundUp(length)), old(nextPpn), nextPpn)
      ensures brkPoint[..] == if modBrk && RoundDown(addr) > old(brkPoint[asid])
                              then old(brkPoint[..])[asid := Plus(RoundDown(addr), RoundUp(length))]
                              else old(brkPoint[..])
    {
      hide FramesOk, CountsOk, Mapped, Walk;
      var pageAddr, pageLength := RoundDown(addr), RoundUp(length);
      NewMap(asid, pageAddr, pageLength);
      if modBrk && pageAddr > brkPoint[asid] {
        brkPoint[asid] := Plus(pageAddr, pageLength);
      }
    }

    method NotifyMunmap(asid: nat, addr: Addr, length: Addr)
      requires Valid() && asid < tables.Length
      modifies this, tables, pageCount
      ensures Valid() && forall i :: 0 <= i < tables.Length && i != asid ==> tables[i] == old(tables[i])
      ensures Unmapped(old(tables[asid]), tables[asid], Walk(RoundUp(addr), length)) && nextPpn == old(nextPpn)
    {
      DelMap(asid, RoundUp(addr), length);
    }

    /** Moves the end of the data segment, and maps or unmaps what lies between. */
    method UpdateBrk(asid: nat, brkEnd: Addr, doMmap: bool)
      requires Valid() && asid < tables.Length && brkEnd != 0
      requires doMmap && brkEnd > brkPoint[asid] ==> RoundUp(brkPoint[asid]) != 0
      modifies this, tables, pageCount, brkPoint
      ensures Valid() && brkPoint[..] == old(brkPoint[..])[asid := brkEnd]
      ensures forall i :: 0 <= i < tables.Length && i != asid ==> tables[i] == old(tables[i])
      ensures var was := old(brkPoint[asid]);
              if doMmap && brkEnd > was then
                Mapped(old(tables[asid]), tables[asid], Walk(RoundUp(was), RoundUp(RoundUp(brkEnd - was))), old(nextPpn), nextPpn)
              else if doMmap && brkEnd < was then
                Unmapped(old(tables[asid]), tables[asid], Walk(RoundUp(RoundUp(brkEnd)), RoundUp(was - brkEnd)))
                && nextPpn == old(nextPpn)
              else tables[asid] == old(tables[asid]) && nextPpn == old(nextPpn)
    {
      hide FramesOk, CountsOk, Mapped, Unmapped, Walk;
      if doMmap {
        var oldBrkEnd := brkPoint[asid];
        if brkEnd > oldBrkEnd {
          Aligned(RoundUp(oldBrkEnd));
          NotifyMmap(asid, RoundUp(oldBrkEnd), RoundUp(brkEnd - oldBrkEnd), false);
        } else if brkEnd < oldBrkEnd {
          NotifyMunmap(asid, RoundUp(brkEnd), RoundUp(oldBrkEnd - brkEnd));
        }
      }
      brkPoint[asid] := brkEnd;
    }

    method MapStack(asid: nat, sp: Addr, bos: Addr)
      requires Valid() && asid < tables.Length && sp >= PAGE_SIZE && bos != 0
      modifies this, tables, pageCount
      ensures Valid() && forall i :: 0 <= i < tables.Length && i != asid ==> tables[i] == old(tables[i])
      ensures Mapped(old(tables[asid]), tables[asid],
                     Span(Vpn(sp), if RoundUp(bos) < RoundDown(sp) then Vpn(sp) - 1 else Vpn(RoundUp(bos))),
                     old(nextPpn), nextPpn)
    {
      hide FramesOk, CountsOk, Mapped;
      var pageStart, pageEnd := RoundDown(sp), RoundUp(bos);
      StackSpan(sp, bos);
      NewMap(asid, pageStart, Minus(pageEnd, pageStart));
    }

    /** Unmapping what has just been mapped restores the table exactly if neither walk covers a page that only
        one of mmap and munmap changes. */
    method MmapThenMunmap(asid: nat, addr: Addr, length: Addr)
      requires Valid() && asid < tables.Length && addr >= PAGE_SIZE
      modifies this, tables, pageCount, brkPoint
      ensures Valid() && forall i :: 0 <= i < tables.Length && i != asid ==> tables[i] == old(tables[i])
      ensures tables[asid] == old(tables[asid])
        <==> Restored(old(tables[asid]), Walk(RoundDown(addr), RoundUp(length)), Walk(RoundUp(addr), length))
    {
      hide FramesOk, CountsOk, Mapped, Unmapped, Walk, Restored;
      ghost var before, first := tables[asid], nextPpn;
      NotifyMmap(asid, addr, length, false);
      ghost var between, next := tables[asid], nextPpn;
      NotifyMunmap(asid, addr, length);
      RoundTrip(before, between, tables[asid], Walk(RoundDown(addr), RoundUp(length)), Walk(RoundUp(addr), length), first, next);
    }
  }

  lemma Aligned(a: Addr)
    requires a % PAGE_SIZE == 0
    ensures RoundDown(a) == a && (a != 0 ==> a >= PAGE_SIZE)
  {
  }

  lemma StackSpan(sp: Addr, bos: Addr)
    ensures RoundDown(sp) % PAGE_SIZE == 0 && (sp >= PAGE_SIZE ==> RoundDown(sp) != 0)
    ensures sp >= PAGE_SIZE ==>
      Walk(RoundDown(sp), Minus(RoundUp(bos), RoundDown(sp)))
      == Span(Vpn(sp), if RoundUp(bos) < RoundDown(sp) then Vpn(sp) - 1 else Vpn(RoundUp(bos)))
  {
    hide RoundUp, RoundDown, Plus, Minus, Vpn;
    RoundDownKeepsPage(sp);
    PlusMinus(RoundDown(sp), RoundUp(bos));
    RoundUpAligned(RoundUp(bos));
  }

  lemma RoundDownKeepsPage(a: Addr)
    ensures Vpn(RoundDown(a)) == Vpn(a) && RoundDown(a) <= a && (a >= PAGE_SIZE ==> RoundDown(a) != 0)
  {
  }

  lemma PlusMinus(a: Addr, b: Addr)
    ensures Plus(a, Minus(b, a)) == b
  {
  }

  lemma RoundUpAligned(a: Addr)
    requires a % PAGE_SIZE == 0
    ensures RoundUp(a) == a
  {
  }

  /** Away from the end of the address space, both walks cover one page more than the length needs. */
  lemma MmapSpans(addr: Addr, length: Addr)
    requires PAGE_SIZE <= addr && addr + length + 2 * PAGE_SIZE <= SPAN
    ensures Walk(RoundDown(addr), RoundUp(length)) == Span(Vpn(addr), Vpn(addr) + Vpn(RoundUp(length)))
    ensures Walk(RoundUp(addr), length) == Span(Vpn(RoundUp(addr)), Vpn(RoundUp(addr)) + Vpn(RoundUp(length)))
    ensures Vpn(RoundUp(addr)) == if addr % PAGE_SIZE == 0 then Vpn(addr) else Vpn(addr) + 1
  {
    RoundedSpan(RoundDown(addr), RoundUp(length));
    RoundedSpan(RoundUp(addr), length);
  }

  lemma RoundedSpan(addr: Addr, length: Addr)
    requires addr % PAGE_SIZE == 0 && addr != 0 && addr + length + PAGE_SIZE <= SPAN
    ensures Walk(addr, length) == Span(Vpn(addr), Vpn(addr) + Vpn(RoundUp(length)))
  {
  }

  /** A write maps two pages, except in the last page of the address space, where it maps none. */
  lemma WritePages(addr: Addr)
    requires addr >= PAGE_SIZE
    ensures forall v: nat :: Walk(RoundDown(addr), PAGE_SIZE).Has(v) <==> Vpn(addr) + 1 < PAGES && Vpn(addr) <= v <= Vpn(addr) + 1
  {
  }

  /** Every page that is newly mapped is unmapped again, and no other one. */
  ghost predicate Restored(before: map<nat, nat>, mapped: Span, unmapped: Span) {
    && (forall v: nat :: mapped.Has(v) && v !in before ==> unmapped.Has(v))
    && (forall v: nat :: unmapped.Has(v) ==> v !in before)
  }

  lemma RoundTrip(before: map<nat, nat>, between: map<nat, nat>, after: map<nat, nat>, mapped: Span, unmapped: Span,
                  first: nat, next: nat)
    requires Mapped(before, between, mapped, first, next) && Unmapped(between, after, unmapped)
    ensures after == before <==> Restored(before, mapped, unmapped)
  {
    assert forall v: nat :: v in after <==> (v in before || mapped.Has(v)) && !unmapped.Has(v);
    if Restored(before, mapped, unmapped) {
      assert forall v: nat :: v in after <==> v in before;
      assert after.Keys == before.Keys;
    }
  }

  /** Away from the end of the address space munmap starts one page later than mmap if the address is not
      aligned: the pages that munmap covers must not have been mapped before, and that first page must. */
  lemma RestoredAway(before: map<nat, nat>, addr: Addr, length: Addr)
    requires PAGE_SIZE <= addr && addr + length + 2 * PAGE_SIZE <= SPAN
    ensures Restored(before, Walk(RoundDown(addr), RoundUp(length)), Walk(RoundUp(addr), length))
      <==> && (forall v :: Span(Vpn(RoundUp(addr)), Vpn(RoundUp(addr)) + Vpn(RoundUp(length))).Has(v) ==> v !in before)
           && (addr % PAGE_SIZE == 0 || Vpn(addr) in before)
  {
    hide Walk, RoundUp, RoundDown, Vpn;
    MmapSpans(addr, length);
    assert Walk(RoundDown(addr), RoundUp(length)).Has(Vpn(addr));
  }

  lemma SmallAddresses()
    ensures 8192 < SPAN && PAGE_SIZE == 4096
  {
  }

  /** It fails for an address that is not aligned, in an empty table: the address's own page stays mapped. */
  method UnalignedStays() returns (m: Memory, ghost before: map<nat, nat>)
    ensures m.Valid() && m.tables.Length == 1 && before == map[] && m.tables[0] != before
  {
    hide *;
    m := new Memory(1);
    before := m.tables[0];
    SmallAddresses();
    NotAligned(before);
    m.MmapThenMunmap(0, 4097, 1);
  }

  lemma NotAligned(before: map<nat, nat>)
    requires before == map[]
    ensures !Restored(before, Walk(RoundDown(4097), RoundUp(1)), Walk(RoundUp(4097), 1))
  {
    hide Walk;
    RestoredAway(before, 4097, 1);
  }

  /** And for the second of two neighbouring pages, mapped in turn: it takes the extra page of the first one along. */
  method NeighbourLost() returns (m: Memory, ghost before: map<nat, nat>)
    ensures m.Valid() && m.tables.Length == 1 && 2 in before && m.tables[0] != before
  {
    hide *;
    m := new Memory(1);
    SmallAddresses();
    m.NotifyMmap(0, 4096, 4096, false);
    before := m.tables[0];
    SecondPage(map[], before, FIRST_PPN, m.nextPpn);
    m.MmapThenMunmap(0, 8192, 4096);
  }

  lemma SecondPage(empty: map<nat, nat>, before: map<nat, nat>, first: nat, next: nat)
    requires Mapped(empty, before, Walk(RoundDown(4096), RoundUp(4096)), first, next)
    ensures 2 in before && !Restored(before, Walk(RoundDown(8192), RoundUp(4096)), Walk(RoundUp(8192), 4096))
  {
    hide InPageOrder;
    assert Walk(RoundDown(4096), RoundUp(4096)) == Span(1, 2);
    assert Span(1, 2).Has(2);
    assert Walk(RoundUp(8192), 4096) == Span(2, 3);
    assert Span(2, 3).Has(2);
  }

  lemma {:induction false} SumZero(s: seq<int>)
    requires forall i :: 0 <= i < |s| ==> s[i] == 0
    ensures Sum(s) == 0
  {
    if s == [] {
    } else {
      SumZero(s[..|s| - 1]);
    }
  }

  lemma RemoveOne(m: map<nat, nat>, k: nat)
    requires k in m
    ensures |m - {k}| == |m| - 1
  {
    assert (m - {k}).Keys == m.Keys - {k};
    assert |m| == |m.Keys| && |m - {k}| == |(m - {k}).Keys|;
  }

  lemma NothingMapped(m: map<nat, nat>, none: Span, next: nat)
    requires none.hi < none.lo
    ensures Mapped(m, m, none, next, next)
  {
  }

  lemma SpanNext(less: Span, more: Span)
    requires more.lo == less.lo <= more.hi == less.hi + 1
    ensures forall v: nat :: more.Has(v) <==> less.Has(v) || v == more.hi
    ensures forall v: nat :: less.Has(v) ==> v < more.hi
  {
  }

  lemma MapNext(before: map<nat, nat>, after: map<nat, nat>, lo: nat, page: nat, first: nat, next: nat)
    requires lo <= page && Mapped(before, after, Span(lo, page - 1), first, next) && first <= next
    ensures page in after ==> Mapped(before, after, Span(lo, page), first, next)
    ensures page !in after ==> Mapped(before, With(after, page, next), Span(lo, page), first, next + 1)
  {
    hide InPageOrder, Span.Has;
    SpanNext(Span(lo, page - 1), Span(lo, page));
    if page !in after { OrderNext(before, after, page, next); }
  }

  lemma OrderNext(before: map<nat, nat>, after: map<nat, nat>, page: nat, next: nat)
    requires InPageOrder(before, after) && page !in after
    requires forall v :: v in after && v !in before ==> v < page && after[v] < next
    ensures InPageOrder(before, With(after, page, next))
  {
  }
}
