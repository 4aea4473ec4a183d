/** The allocation pipe (alloc-DPM.cpp): uops from the uop queue are dispatched to the out-of-order core in
    program order and each exactly once, fused groups piece by piece. */
module AllocDPM {
  import opened Rings
  import opened Ticks
  import opened StagedPipe
  import opened Sequences

  class Uop {
    const mop: nat     // program order of its macro-op
    const isLoad: bool   // takes a load queue entry
    const isSta: bool    // takes a store queue entry
    const needsRS: bool  // is held up if there is no reservation station
    const isTrap: bool   // its macro-op is a trap, which does not occupy one
    const inFusion: bool
    const isFusionHead: bool
    const fusionNext: Uop?
    ghost const group: seq<Uop>  // this uop and those fused behind it
    var whenAllocated: Tick

    constructor (mop: nat, isLoad: bool, isSta: bool, needsRS: bool, isTrap: bool,
                 inFusion: bool, isFusionHead: bool, next: Uop?)
      requires next != null ==> inFusion && next.inFusion && !next.isFusionHead && next.GroupOk()
      ensures GroupOk() && whenAllocated == Never && group == [this] + (if next == null then [] else next.group)
      ensures this.mop == mop && this.isLoad == isLoad && this.isSta == isSta && this.needsRS == needsRS && this.isTrap == isTrap
      ensures this.inFusion == inFusion && this.isFusionHead == isFusionHead && fusionNext == next
    {
      this.mop, this.isLoad, this.isSta, this.needsRS, this.isTrap := mop, isLoad, isSta, needsRS, isTrap;
      this.inFusion, this.isFusionHead, fusionNext, whenAllocated := inFusion, isFusionHead, next, Never;
      group := [this] + (if next == null then [] else next.group);
      new;
      if next != null {
        hide GroupOk;
        ChainGrows(next);
      }
    }

    lemma ChainGrows(next: Uop)
      requires inFusion && next.inFusion && !next.isFusionHead && next.GroupOk()
      requires fusionNext == next && group == [this] + next.group
      ensures GroupOk()
    {
      forall k | 0 <= k < |group|
        ensures group[k].fusionNext == (if k + 1 < |group| then group[k + 1] else null)
        ensures k > 0 ==> group[k].inFusion && !group[k].isFusionHead
      {
        if k > 0 {
          LaterInChain(next, next.group[k - 1], k - 1);
          assert k + 1 < |group| ==> group[k + 1] == next.group[k];
        }
      }
    }

    lemma LaterInChain(next: Uop, v: Uop, j: nat)
      requires next.GroupOk() && next.inFusion && !next.isFusionHead && j < |next.group| && v == next.group[j]
      ensures v.inFusion && !v.isFusionHead
      ensures v.fusionNext == if j + 1 < |next.group| then next.group[j + 1] else null
    {
    }

    /** `group` is what the chain of fusionNext pointers visits. */
    ghost predicate GroupOk()
    {
      && group != [] && group[0] == this
      && (!inFusion ==> |group| == 1)
      && forall k :: 0 <= k < |group| ==>
           && group[k].fusionNext == (if k + 1 < |group| then group[k + 1] else null)
           && (k > 0 ==> group[k].inFusion && !group[k].isFusionHead)
    }

    /** The uop gets entries of its own in the ROB and the reservation stations. */
    predicate IsHead() {
      !inFusion || isFusionHead
    }
  }

  /** Free entries in the structures that uops need. */
  datatype Room = Room(rob: nat, ldq: nat, stq: nat, rs: nat)

  datatype Stall = NoStall | Drain | ROB | LDQ | STQ | RS | Empty

  /** What a uop lacks. A fused body is held up by a full ROB although it shares its head's entry. */
  function Lacks(u: Uop, room: Room): (stall: Stall)
    ensures stall != Drain && stall != Empty
  {
    if room.rob == 0 then ROB
    else if u.isLoad && room.ldq == 0 then LDQ
    else if u.isSta && room.stq == 0 then STQ
    else if u.needsRS && room.rs == 0 then RS
    else NoStall
  }

  /** The entries that are left after a uop has taken its own; a fused body shares its head's in the ROB and
      the reservation stations. */
  function Taken(u: Uop, room: Room): Room
    requires Lacks(u, room) == NoStall
  {
    Room(if u.IsHead() then room.rob - 1 else room.rob,
         if u.isLoad then room.ldq - 1 else room.ldq,
         if u.isSta && !u.isLoad then room.stq - 1 else room.stq,
         if u.needsRS && !u.isTrap && u.IsHead() then room.rs - 1 else room.rs)
  }

  /** Every entry that the uop would take is free. */
  ghost predicate EntriesFree(u: Uop, room: Room) {
    && (u.IsHead() ==> room.rob > 0)
    && (u.isLoad ==> room.ldq > 0)
    && (u.isSta && !u.isLoad ==> room.stq > 0)
    && (u.needsRS && !u.isTrap && u.IsHead() ==> room.rs > 0)
  }

  /** A uop that lacks nothing finds its entries free. But one that finds them free can be held up all the same:
      exactly a fused body while the ROB is full, and a uop that does not occupy a reservation station, as a fused
      body or in a trap, while none is free (or a load that were a store address as well, while the STQ is full). */
  lemma HeldUpWithoutNeed(u: Uop, room: Room)
    ensures Lacks(u, room) == NoStall ==> EntriesFree(u, room)
    ensures EntriesFree(u, room) ==>
      (Lacks(u, room) != NoStall
       <==> || (!u.IsHead() && room.rob == 0)
            || (u.needsRS && (u.isTrap || !u.IsHead()) && room.rs == 0)
            || (u.isLoad && u.isSta && room.stq == 0))
  {
  }

  /** The structure reported is the first one that is full, in the order ROB, LDQ, STQ, RS. */
  lemma StallIsFirst(u: Uop, room: Room)
    ensures var stall := Lacks(u, room);
            && (stall == ROB <==> room.rob == 0)
            && (stall == LDQ <==> u.isLoad && room.ldq == 0 && stall != ROB)
            && (stall == STQ <==> u.isSta && room.stq == 0 && stall !in {ROB, LDQ})
            && (stall == RS <==> u.needsRS && room.rs == 0 && stall !in {ROB, LDQ, STQ})
  {
  }

  /** This happens: a group of two takes the last ROB entry with its head, and then its body is held up for a ROB
      entry, although it needs no entry at all. A trap is held up for a reservation station. */
  method HeldUpBody() returns (head: Uop, body: Uop, trap: Uop, room: Room)
    ensures head.GroupOk() && head.group == [head, body] && head.IsHead() && Lacks(head, room) == NoStall
    ensures var left := Taken(head, room); Lacks(body, left) == ROB && EntriesFree(body, left)
    ensures var left := Taken(head, room).(rob := 1); Lacks(body, left) == RS && EntriesFree(body, left)
    ensures var left := Taken(head, room).(rob := 1);
            trap.IsHead() && Lacks(trap, left) == RS && EntriesFree(trap, left)
  {
    body := new Uop(0, false, false, true, false, true, false, null);
    head := new Uop(0, false, false, true, false, true, true, body);
    trap := new Uop(1, false, false, true, true, false, false, null);
    room := Room(1, 0, 0, 1);
  }

  /** The entries that are left after these uops, if there is room for all of them. */
  ghost function Left(s: seq<Uop>, room: Room): Option<Room> {
    if s == [] then Some(room) else
      match Left(s[..|s| - 1], room)
      case None => None
      case Some(r) => if Lacks(s[|s| - 1], r) == NoStall then Some(Taken(s[|s| - 1], r)) else None
  }

  lemma {:induction false} LeftAppend(a: seq<Uop>, b: seq<Uop>, room: Room)
    ensures Left(a + b, room) == match Left(a, room) case None => None case Some(r) => Left(b, r)
    decreases |b|
  {
    hide Lacks, Taken;
    if b == [] {
      assert a + b == a;
    } else {
      assert (a + b)[..|a + b| - 1] == a + b[..|b| - 1];
      LeftAppend(a, b[..|b| - 1], room);
    }
  }

  /** How many of the uops have the property. */
  function Count(s: seq<Uop>, f: Uop -> bool): (n: nat)
    ensures n <= |s|
  {
    if s == [] then 0 else Count(s[..|s| - 1], f) + if f(s[|s| - 1]) then 1 else 0
  }

  predicate Unfused(u: Uop) { !u.inFusion || u.isFusionHead }
  predicate IsLoad(u: Uop) { u.isLoad }
  predicate IsStore(u: Uop) { u.isSta && !u.isLoad }
  predicate Executes(u: Uop) { u.needsRS && !u.isTrap && Unfused(u) }

  /** The uops take a ROB entry for each group, an LDQ entry for each load, an STQ entry for each store address, and a
      reservation station for each group that executes. */
  ghost predicate Spent(s: seq<Uop>, room: Room, left: Room) {
    && room.rob - left.rob == Count(s, Unfused)
    && room.ldq - left.ldq == Count(s, IsLoad)
    && room.stq - left.stq == Count(s, IsStore)
    && room.rs - left.rs == Count(s, Executes)
  }

  lemma {:induction false} LeftIsSpent(s: seq<Uop>, room: Room)
    ensures Left(s, room).Some? ==> Spent(s, room, Left(s, room).value)
  {
    if s != [] {
      LeftIsSpent(s[..|s| - 1], room);
    }
  }

  /** The k-th uop lacks nothing when those before it have taken their entries. */
  ghost predicate FindsRoom(s: seq<Uop>, room: Room, k: nat)
    requires k < |s|
  {
    exists left :: Spent(s[..k], room, left) && Lacks(s[k], left) == NoStall
  }

  /** There is room for the uops exactly if each of them in its turn lacks nothing. */
  lemma {:induction false} RoomForAll(s: seq<Uop>, room: Room)
    ensures Left(s, room).Some? <==> forall k :: 0 <= k < |s| ==> FindsRoom(s, room, k)
  {
    hide Lacks, Taken, Spent;
    if s != [] {
      var n := |s| - 1;
      var less := s[..n];
      RoomForAll(less, room);
      forall k | 0 <= k < n ensures FindsRoom(less, room, k) <==> FindsRoom(s, room, k) {
        assert less[..k] == s[..k];
      }
      LeftIsSpent(less, room);
      if Left(less, room).Some? {
        var left := Left(less, room).value;
        if FindsRoom(s, room, n) {
          var other :| Spent(s[..n], room, other) && Lacks(s[n], other) == NoStall;
          SpentOnce(less, room, left, other);
        }
      }
    }
  }

  lemma SpentOnce(s: seq<Uop>, room: Room, a: Room, b: Room)
    requires Spent(s, room, a) && Spent(s, room, b)
    ensures a == b
  {
  }

  lemma NothingLeft(room: Room)
    ensures Left([], room) == Some(room)
  {
  }

  lemma LeftOne(u: Uop, room: Room)
    ensures Left([u], room) == if Lacks(u, room) == NoStall then Some(Taken(u, room)) else None
  {
    assert [u][..0] == [];
  }

  // ---------------------------------------------------------------- streams of uops

  /** The uops of the groups, in program order. */
  ghost function Flat(heads: seq<Uop>): seq<Uop> {
    if heads == [] then [] else Flat(heads[..|heads| - 1]) + heads[|heads| - 1].group
  }

  /** What is still to be dispatched from the groups p, if the first d uops of the first group have been. */
  ghost function Pending(p: seq<Uop>, d: nat): seq<Uop> {
    if p == [] then [] else DropFirst(p[0].group, d) + Flat(p[1..])
  }

  ghost function DropFirst<T>(s: seq<T>, n: nat): seq<T> {
    if n <= |s| then s[n..] else []
  }

  ghost function KeepFirst<T>(s: seq<T>, n: nat): seq<T> {
    if n < |s| then s[..n] else s
  }

  /** Program order, by macro-op. */
  ghost predicate InOrder(heads: seq<Uop>) {
    forall i, j :: 0 <= i < j < |heads| ==> heads[i].mop <= heads[j].mop
  }

  /** Of the groups that have come from decode, `p` are in the pipe; their uops have been dispatched or are
      still to be, in program order. */
  ghost predicate Flowing(dispatched: seq<Uop>, p: seq<Uop>, order: seq<Uop>, d: nat) {
    && |p| <= |order| && p == order[|order| - |p|..] && InOrder(order) && Distinct(Flat(order))
    && (forall k :: 0 <= k < |order| ==> order[k].GroupOk() && order[k].IsHead())
    && dispatched + Pending(p, d) == Flat(order)
  }

  lemma {:induction false} FlatAppend(a: seq<Uop>, b: seq<Uop>)
    ensures Flat(a + b) == Flat(a) + Flat(b)
    decreases |b|
  {
    if b == [] {
      assert a + b == a;
    } else {
      var ab := a + b;
      assert ab[..|ab| - 1] == a + b[..|b| - 1];
      FlatAppend(a, b[..|b| - 1]);
    }
  }

  lemma PendingIsFlat(p: seq<Uop>)
    ensures Pending(p, 0) == Flat(p)
  {
    if p != [] {
      assert p == [p[0]] + p[1..] && [p[0]][..0] == [];
      FlatAppend([p[0]], p[1..]);
    }
  }

  lemma PendingAppend(p: seq<Uop>, b: seq<Uop>, d: nat)
    ensures p != [] ==> Pending(p + b, d) == Pending(p, d) + Flat(b)
  {
    hide Flat, DropFirst;
    if p != [] {
      assert (p + b)[1..] == p[1..] + b;
      FlatAppend(p[1..], b);
      Regroup(DropFirst(p[0].group, d), Flat(p[1..]), Flat(b));
    }
  }

  /** The next uop of the first group is dispatched. */
  lemma UopLeaves(dispatched: seq<Uop>, p: seq<Uop>, order: seq<Uop>, d: nat)
    requires Flowing(dispatched, p, order, d) && p != [] && d < |p[0].group|
    ensures Flowing(dispatched + [p[0].group[d]], p, order, d + 1)
  {
    hide Flat, InOrder, Distinct, Uop.GroupOk;
    var u := p[0].group[d];
    assert DropFirst(p[0].group, d) == [u] + DropFirst(p[0].group, d + 1);
    Regroup([u], DropFirst(p[0].group, d + 1), Flat(p[1..]));
    Regroup(dispatched, [u], Pending(p, d + 1));
  }

  /** A group leaves the pipe. */
  lemma GroupLeaves(dispatched: seq<Uop>, p: seq<Uop>, order: seq<Uop>)
    requires p != [] && Flowing(dispatched, p, order, |p[0].group|)
    ensures Flowing(dispatched, p[1..], order, 0)
  {
    hide Flat, InOrder, Distinct, Uop.GroupOk;
    PendingIsFlat(p[1..]);
    assert Pending(p, |p[0].group|) == Flat(p[1..]);
  }

  lemma GroupEnters(dispatched: seq<Uop>, p: seq<Uop>, order: seq<Uop>, d: nat, u: Uop)
    requires Flowing(dispatched, p, order, d) && InOrder(order + [u]) && Distinct(Flat(order + [u])) && u.GroupOk() && u.IsHead()
    ensures Flowing(dispatched, p + [u], order + [u], if p == [] then 0 else d)
  {
    hide Flat, InOrder, Distinct, Uop.GroupOk;
    FlatAppend(order, [u]);
    assert (order + [u])[|order| - |p|..] == p + [u];
    Regroup(dispatched, Pending(p, d), Flat([u]));
    if p == [] {
      assert p + [u] == [u];
      PendingIsFlat([u]);
    } else {
      PendingAppend(p, [u], d);
    }
  }

  /** Only the older groups p' stay in the pipe, and what has been dispatched is cut likewise. */
  lemma PipeCut(dispatched: seq<Uop>, p: seq<Uop>, order: seq<Uop>, d: nat, p': seq<Uop>)
    requires Flowing(dispatched, p, order, d) && p' <= p && p' != []
    ensures var n := |order| - |p| + |p'|;
            Flowing(dispatched, p', order[..n], d) && KeepFirst(dispatched, |Flat(order[..n])|) == dispatched
  {
    hide Flat, Pending, Uop.GroupOk, KeepFirst, Distinct;
    var n := |order| - |p| + |p'|;
    var gone := p[|p'|..];
    assert p == p' + gone && order == order[..n] + gone && order[..n][n - |p'|..] == p';
    PendingAppend(p', gone, d);
    FlatAppend(order[..n], gone);
    Regroup(dispatched, Pending(p', d), Flat(gone));
    SameRest(dispatched + Pending(p', d), Flat(order[..n]), Flat(gone));
    assert |dispatched + Pending(p', d)| >= |dispatched|;
    AllKept(dispatched, |Flat(order[..n])|);
    FewerDistinct(Flat(order[..n]), Flat(gone));
  }

  lemma AllKept<T>(s: seq<T>, n: nat)
    requires |s| <= n
    ensures KeepFirst(s, n) == s
  {
  }

  lemma FewerDistinct<T>(a: seq<T>, b: seq<T>)
    requires Distinct(a + b)
    ensures Distinct(a)
  {
    forall i, j | 0 <= i < j < |a| ensures a[i] != a[j] { assert (a + b)[i] == a[i] && (a + b)[j] == a[j]; }
  }

  /** The pipe is emptied, and of the dispatched uops only those of the first n groups count. */
  lemma AllCut(dispatched: seq<Uop>, p: seq<Uop>, order: seq<Uop>, d: nat, n: nat)
    requires Flowing(dispatched, p, order, d) && n <= |order| - |p|
    requires p != [] ==> d < |p[0].group|
    ensures Flowing(KeepFirst(dispatched, |Flat(order[..n])|), [], order[..n], 0)
  {
    hide Flat, Uop.GroupOk, Distinct;
    var a, b, gone := order[..n], order[n..|order| - |p|], p;
    assert order == a + (b + gone);
    FlatAppend(a, b + gone);
    FlatAppend(b, gone);
    FewerDistinct(Flat(a), Flat(b + gone));
    PendingShort(p, d);
    assert |dispatched| >= |Flat(a)|;
    assert Flat(a) == (dispatched + Pending(p, d))[..|Flat(a)|] == KeepFirst(dispatched, |Flat(a)|);
    assert Flat(a) + Pending([], 0) == Flat(a);
    assert a[|a|..] == [];
  }

  lemma PendingShort(p: seq<Uop>, d: nat)
    ensures |Pending(p, d)| <= |Flat(p)|
  {
    PendingIsFlat(p);
  }

  // ---------------------------------------------------------------- the pipe

  /** The uops of the first group that have been dispatched. */
  ghost function Begun(p: seq<Uop>, d: nat): seq<Uop> {
    if p == [] then [] else KeepFirst(p[0].group, d)
  }

  /** The uops done have been allocated, and those still to do have not. */
  ghost predicate Marked(done: seq<Uop>, todo: seq<Uop>)
    reads (set u | u in done)`whenAllocated, (set u | u in todo)`whenAllocated
  {
    && (forall k :: 0 <= k < |done| ==> done[k].whenAllocated != Never)
    && (forall k :: 0 <= k < |todo| ==> todo[k].whenAllocated == Never)
  }

  /** The uops have been allocated in this cycle. */
  ghost predicate AllocatedAt(s: seq<Uop>, now: int)
    reads (set u | u in s)`whenAllocated
  {
    forall u :: u in s ==> u.whenAllocated == At(now)
  }

  method Mark(u: Uop, now: int, ghost done: seq<Uop>, ghost todo: seq<Uop>)
    requires Marked(done, [u] + todo) && u !in done && u !in todo
    modifies u`whenAllocated
    ensures Marked(done + [u], todo) && u.whenAllocated == At(now)
  {
    assert forall k :: 0 <= k < |todo| ==> todo[k] == ([u] + todo)[k + 1];
    u.whenAllocated := At(now);
  }

  class CoreAlloc {
    const width: nat
    const depth: nat
    const drainFlush: bool
    const pipe: Pipe<Uop>
    var drainInProgress: bool

    ghost var dispatched: seq<Uop>  // the uops that have been dispatched and not recovered from
    ghost var order: seq<Uop>       // the groups that have come from decode
    ghost var d: nat                // how many uops of the oldest group in the pipe have been dispatched
    ghost var begun: seq<Uop>       // these uops
    ghost var pending: seq<Uop>     // and those that are still to be dispatched

    ghost function InPipe(): seq<Uop>
      reads pipe.rows
    {
      pipe.Items()
    }

    ghost predicate Shape()
      reads this, pipe.rows, pipe.occupancy
    {
      pipe.Shape() && pipe.depth == depth && pipe.width == width
    }

    /** The uops p of the pipe, of the first of which d have been dispatched, fit in. */
    ghost predicate Fits(p: seq<Uop>)
      reads this`dispatched, this`order, this`d, this`begun, this`pending
      reads (set u | u in begun)`whenAllocated, (set u | u in pending)`whenAllocated
    {
      Flowing(dispatched, p, order, d) && begun == Begun(p, d) && pending == Pending(p, d) && Marked(begun, pending)
    }

    ghost predicate Valid()
      reads this, pipe.rows, pipe.occupancy
      reads (set u | u in begun)`whenAllocated, (set u | u in pending)`whenAllocated
    {
      Shape() && Fits(InPipe()) && if InPipe() == [] then d == 0 else d < |InPipe()[0].group|
    }

    constructor (width: nat, depth: nat, drainFlush: bool)
      requires 0 < depth
      ensures Valid() && order == [] && dispatched == [] && InPipe() == [] && !drainInProgress
      ensures fresh(pipe) && fresh(pipe.rows) && fresh(pipe.occupancy)
      ensures this.width == width && this.depth == depth && this.drainFlush == drainFlush
    {
      this.width, this.depth, this.drainFlush := width, depth, drainFlush;
      pipe := new Pipe(depth, width);
      drainInProgress, dispatched, order, d, begun, pending := false, [], [], 0, [], [];
      new;
      hide *;
      NothingYet();
    }

    lemma NothingYet()
      requires pipe.Shape() && pipe.Items() == [] && pipe.depth == depth && pipe.width == width
      requires order == [] && dispatched == [] && d == 0 && begun == [] && pending == []
      ensures Valid() && InPipe() == []
    {
    }

    /** The next uop of the first group p[0] has passed the stall checks and is dispatched. */
    method DispatchUop(u: Uop, now: int, room: Room, ghost p: seq<Uop>) returns (room': Room)
      requires p != [] && d < |p[0].group| && Fits(p) && u == p[0].group[d] && Lacks(u, room) == NoStall
      modifies this`dispatched, this`d, this`begun, this`pending, u`whenAllocated
      ensures Fits(p) && d == old(d) + 1 && dispatched == old(dispatched) + [u] && u.whenAllocated == At(now)
      ensures room' == Taken(u, room)
    {
      hide Flowing, Marked, Begun, Pending;
      HeadIsFirst(dispatched, p, order, d);
      UopLeaves(dispatched, p, order, d);
      NextOnce(dispatched, p, order, d);
      room' := Taken(u, room);
      Mark(u, now, begun, pending[1..]);
      dispatched, begun, pending := dispatched + [u], begun + [u], pending[1..];
      d := d + 1;
    }

    /** Dispatches the uops of the first group u, starting where it was held up before; the uops that have
        been dispatched already are passed over. */
    method DispatchGroup(u: Uop, now: int, room: Room, ghost p: seq<Uop>) returns (stall: Stall, room': Room)
      requires p != [] && p[0] == u && d < |u.group| && Fits(p)
      modifies this`dispatched, this`d, this`begun, this`pending, (set v | v in u.group)`whenAllocated
      ensures Fits(p) && old(d) <= d <= |u.group| && dispatched == old(dispatched) + u.group[old(d)..d]
      ensures Left(u.group[old(d)..d], room) == Some(room') && AllocatedAt(u.group[old(d)..d], now)
      ensures forall v :: v in u.group ==> v.whenAllocated in {old(v.whenAllocated), At(now)}
      ensures if stall == NoStall then d == |u.group| else d < |u.group| && stall == Lacks(u.group[d], room')
    {
      hide Left, Flowing, Marked, Lacks, Taken, Begun, Pending, Uop.GroupOk;
      HeadIsFirst(dispatched, p, order, d);
      stall, room' := NoStall, room;
      NothingLeft(room);
      var curr: Uop? := u;
      ghost var k := 0;
      while curr != null
        invariant Fits(p) && old(d) <= d <= |u.group| && k <= d && (k < d ==> d == old(d))
        invariant 0 <= k <= |u.group| && curr == if k < |u.group| then u.group[k] else null
        invariant stall == NoStall && dispatched == old(dispatched) + u.group[old(d)..d]
        invariant Left(u.group[old(d)..d], room) == Some(room') && AllocatedAt(u.group[old(d)..d], now)
        invariant forall v :: v in u.group ==> v.whenAllocated in {old(v.whenAllocated), At(now)}
        decreases |u.group| - k
      {
        MarkOf(p, d, k);
        if curr.whenAllocated == Never {
          stall := Lacks(curr, room');
          if stall != NoStall {
            return;
          }
          SliceNext(u.group, old(d), d);
          LeftAppend(u.group[old(d)..d], [curr], room);
          LeftOne(curr, room');
          room' := DispatchUop(curr, now, room', p);
        }
        ChainStep(u, k);
        curr := if curr.inFusion then curr.fusionNext else null;
        k := k + 1;
      }
    }

    /** The dispatched group in slot i leaves the pipe. */
    method RemoveGroup(i: nat, u: Uop)
      requires Shape() && i < width && Front(pipe.rows[depth - 1], i) && pipe.rows[depth - 1][i] == Some(u)
      requires InPipe() != [] && InPipe()[0] == u && d == |u.group| && Fits(InPipe())
      modifies this`d, this`begun, pipe.rows, pipe.occupancy
      ensures Valid() && pipe.rows[..] == Set(old(pipe.rows[..]), depth - 1, i, None)
    {
      hide Flowing, InRow, InRows, Older, Younger, Marked, Flat, Begun, Pending;
      ghost var r, p := pipe.rows[..], InPipe();
      FrontIsFirst(r, i);
      GroupLeaves(dispatched, p, order);
      GroupMarks(p, d, dispatched, order);
      NoneBegun(begun, pending);
      pipe.Remove(depth - 1, i);
      AfterFirst(r, depth - 1, i, p);
      assert InPipe() == p[1..];
      d, begun := 0, [];
    }

    /** Dispatches the group u in slot i and removes it, if there is room. `first` is what room there was before
        the uops from n on were dispatched. */
    method DispatchSlot(i: nat, u: Uop, now: int, room: Room, ghost n: nat, ghost first: Room)
      returns (stall: Stall, left: Room)
      requires Valid() && i < width && Front(pipe.rows[depth - 1], i) && pipe.rows[depth - 1][i] == Some(u)
      requires n <= |dispatched| && Left(dispatched[n..], first) == Some(room) && AllocatedAt(dispatched[n..], now)
      modifies this`dispatched, this`d, this`begun, this`pending, pipe.rows, pipe.occupancy
      modifies (set v | v in Flat(order))`whenAllocated
      ensures Valid() && old(dispatched) <= dispatched && Left(dispatched[n..], first) == Some(left)
      ensures AllocatedAt(dispatched[n..], now)
      ensures if stall == NoStall then pipe.rows[..] == Set(old(pipe.rows[..]), depth - 1, i, None) else
        && pipe.rows[..] == old(pipe.rows[..]) && stall != Drain && stall != Empty
        && InPipe() != [] && d < |InPipe()[0].group| && stall == Lacks(InPipe()[0].group[d], left)
    {
      hide Fits, InRow, InRows, Flat, Lacks, Left;
      FrontIsFirst(pipe.rows[..], i);
      FirstInFlat(InPipe());
      ghost var was, from := dispatched, d;
      stall, left := DispatchGroup(u, now, room, InPipe());
      LeftAppend(was[n..], u.group[from..d], first);
      assert dispatched[n..] == was[n..] + u.group[from..d];
      if stall == NoStall {
        RemoveGroup(i, u);
      }
    }

    /** Dispatches from the last stage what the back end has room for. `robEmpty` tells whether the back end
        has drained. */
    method Dispatch(now: int, room: Room, robEmpty: bool) returns (stall: Stall, left: Room)
      requires Valid()
      modifies this`drainInProgress, this`dispatched, this`d, this`begun, this`pending, pipe.rows, pipe.occupancy
      modifies (set u | u in Flat(order))`whenAllocated
      ensures Valid() && old(dispatched) <= dispatched && Left(dispatched[|old(dispatched)|..], room) == Some(left)
      ensures Spent(dispatched[|old(dispatched)|..], room, left) && AllocatedAt(dispatched[|old(dispatched)|..], now)
      ensures forall s :: 0 <= s < depth - 1 ==> pipe.rows[s] == old(pipe.rows[s])
      ensures stall == Empty <==> Vacant(old(pipe.rows[depth - 1]))
      ensures stall == Drain <==> drainFlush && old(drainInProgress) && !robEmpty && !Vacant(old(pipe.rows[depth - 1]))
      ensures drainInProgress == (old(drainInProgress) && (!drainFlush || stall == Empty || stall == Drain))
      ensures match stall
              case NoStall => Vacant(pipe.rows[depth - 1])
              case Empty => dispatched == old(dispatched)
              case Drain => dispatched == old(dispatched)
              case _ => InPipe() != [] && d < |InPipe()[0].group| && stall == Lacks(InPipe()[0].group[d], left)
    {
      hide Fits, InRow, InRows, Flat, Lacks, Left, Spent;
      VacantIff(pipe.rows[depth - 1]);
      NothingLeft(room);
      ghost var n := |dispatched|;
      assert dispatched[n..] == [];
      stall, left := Empty, room;
      if pipe.occupancy[depth - 1] != 0 {
        stall := NoStall;
        var i := 0;
        while i < width
          invariant 0 <= i <= width && Valid() && order == old(order) && old(dispatched) <= dispatched && stall == NoStall
          invariant Vacant(pipe.rows[depth - 1][..i])
          invariant forall s :: 0 <= s < depth - 1 ==> pipe.rows[s] == old(pipe.rows[s])
          invariant Left(dispatched[n..], room) == Some(left) && AllocatedAt(dispatched[n..], now)
          invariant drainFlush && drainInProgress ==> i == 0 && dispatched == old(dispatched)
          invariant drainInProgress == (old(drainInProgress) && (!drainFlush || i == 0))
          invariant i > 0 && drainFlush && old(drainInProgress) ==> robEmpty
        {
          if drainFlush && drainInProgress {
            if !robEmpty {
              stall := Drain;
              break;
            }
            drainInProgress := false;
          }
          if pipe.rows[depth - 1][i].Some? {
            stall, left := DispatchSlot(i, pipe.rows[depth - 1][i].value, now, left, n, room);
            if stall != NoStall {
              break;
            }
          }
          i := i + 1;
        }
      }
      LeftIsSpent(dispatched[n..], room);
    }

    /** Moves the stages on: everything behind the oldest empty stage advances by one. */
    method Shuffle()
      requires Valid()
      modifies pipe.rows, pipe.occupancy
      ensures Valid() && InPipe() == old(InPipe()) && Walked(old(pipe.rows[..]), pipe.rows[..], 0)
    {
      hide Fits, InRow, InRows, Walked, Vacant, Swapped;
      ghost var r := pipe.rows[..];
      var s := depth - 1;
      WalkFrom(r, s);
      while s > 0
        invariant 0 <= s < depth && Valid() && InPipe() == old(InPipe()) && Walked(r, pipe.rows[..], s)
      {
        WalkOn(r, pipe.rows[..], s);
        VacantIff(pipe.rows[s]);
        if pipe.occupancy[s] == 0 {
          pipe.ShiftRow(s);
        }
        s := s - 1;
      }
    }

    /** The groups u that decode offers enter the first stage, if it is empty, as far as there is room. */
    method Fill(uopQ: seq<Uop>) returns (taken: nat)
      requires Valid() && Acceptable(order, uopQ) && forall u :: u in Flat(uopQ) ==> u.whenAllocated == Never
      modifies this`order, this`pending, pipe.rows, pipe.occupancy
      ensures Valid() && taken == if !Vacant(old(pipe.rows[0])) then 0 else if |uopQ| < width then |uopQ| else width
      ensures taken <= |uopQ| && order == old(order) + uopQ[..taken] && InPipe() == old(InPipe()) + uopQ[..taken]
    {
      hide Fits, InRow, InRows, Vacant, Acceptable, Flat;
      VacantIff(pipe.rows[0]);
      taken := 0;
      if pipe.occupancy[0] == 0 {
        assert pipe.rows[0][taken..] == pipe.rows[0];
        while taken < width && taken < |uopQ|
          invariant 0 <= taken <= width && taken <= |uopQ| && Valid() && Vacant(pipe.rows[0][taken..])
          invariant order == old(order) + uopQ[..taken] && InPipe() == old(InPipe()) + uopQ[..taken]
        {
          NextAccepted(old(order), uopQ, taken);
          Enter(taken, uopQ[taken]);
          assert uopQ[..taken + 1] == uopQ[..taken] + [uopQ[taken]];
          taken := taken + 1;
        }
      }
    }

    /** A group enters slot i of the first stage, behind all others. */
    method Enter(i: nat, u: Uop)
      requires Valid() && i < width && Vacant(pipe.rows[0][i..]) && Acceptable(order, [u])
      requires forall v :: v in u.group ==> v.whenAllocated == Never
      modifies this`order, this`pending, pipe.rows, pipe.occupancy
      ensures Valid() && order == old(order) + [u] && InPipe() == old(InPipe()) + [u] && Vacant(pipe.rows[0][i + 1..])
    {
      hide InRow, InRows, Flowing, Marked, Begun, Pending;
      ghost var r, p := pipe.rows[..], InPipe();
      VacantBehind(r, i, Some(u));
      GroupEnters(dispatched, p, order, d, u);
      PendingGrows(p, d, u, begun, pending);
      pipe.Add(0, i, u);
      assert InPipe() == p + [u];
      order := order + [u];
      pending := pending + u.group;
    }

    /** One cycle. What has been dispatched grows, in program order and as far as there is room; then the stages
        move on; then groups enter in the order in which decode offers them. */
    method Step(uopQ: seq<Uop>, now: int, room: Room, robEmpty: bool, ghost offered: seq<Uop>)
      returns (stall: Stall, left: Room, taken: nat, ghost sending: seq<seq<Option<Uop>>>, ghost moved: seq<seq<Option<Uop>>>)
      requires Valid() && Acceptable(order, uopQ) && offered == Flat(uopQ)
      requires forall k :: 0 <= k < |offered| ==> offered[k].whenAllocated == Never
      modifies this`drainInProgress, this`dispatched, this`d, this`begun, this`pending, this`order
      modifies pipe.rows, pipe.occupancy, (set u | u in Flat(order))`whenAllocated
      ensures Valid() && old(dispatched) <= dispatched && Left(dispatched[|old(dispatched)|..], room) == Some(left)
      ensures Spent(dispatched[|old(dispatched)|..], room, left) && AllocatedAt(dispatched[|old(dispatched)|..], now)
      ensures |sending| == |moved| == depth && sending[..depth - 1] == old(pipe.rows[..depth - 1])
      ensures stall == Drain <==> drainFlush && old(drainInProgress) && !robEmpty && !Vacant(old(pipe.rows[depth - 1]))
      ensures match stall
              case NoStall => Vacant(sending[depth - 1])
              case Empty => Vacant(old(pipe.rows[depth - 1])) && dispatched == old(dispatched)
              case Drain => dispatched == old(dispatched)
              case _ => InPipe() != [] && d < |InPipe()[0].group| && stall == Lacks(InPipe()[0].group[d], left)
      ensures Walked(sending, moved, 0)
      ensures taken == if !Vacant(moved[0]) then 0 else if |uopQ| < width then |uopQ| else width
      ensures taken <= |uopQ| && order == old(order) + uopQ[..taken] && InPipe() == InRows(moved) + uopQ[..taken]
    {
      hide Fits, InRow, InRows, Vacant, Flat, Acceptable, Left, Lacks, Walked, Spent;
      OtherUops(order, uopQ);
      stall, left := Dispatch(now, room, robEmpty);
      sending := pipe.rows[..];
      Shuffle();
      moved := pipe.rows[..];
      taken := Fill(uopQ);
    }

    /** Recovery to a macro-op: exactly the younger groups leave the pipe, whatever has been dispatched of
        them. What has been dispatched is cut in the same way by the back end. */
    method Recover(mop: nat)
      requires Valid() && exists u :: u in order && u.mop == mop
      modifies this`dispatched, this`order, this`d, this`begun, this`pending, pipe.rows, pipe.occupancy
      ensures Valid() && order <= old(order) && dispatched == KeepFirst(old(dispatched), |Flat(order)|)
      ensures forall k :: 0 <= k < |order| ==> order[k].mop <= mop
      ensures forall k :: |order| <= k < |old(order)| ==> old(order)[k].mop > mop
      ensures InPipe() <= old(InPipe())
    {
      hide InRow, InRows, Fits, Flat, KeepFirst, Cleared, Begun, Pending, Flowing, Marked;
      ghost var r, p := pipe.rows[..], InPipe();
      var found := pipe.ClearBehind((u: Uop) => u.mop == mop);
      ClearedYounger(r, pipe.rows[..], mop);
      ghost var n := FitsAfter(p, InPipe(), mop);
      if found {
        order, pending := order[..n], Pending(InPipe(), d);
      } else {
        order, dispatched := order[..n], KeepFirst(dispatched, |Flat(order[..n])|);
        begun, pending, d := [], [], 0;
      }
      Refit(InPipe());
    }

    /** Safety over whole runs: what has been dispatched and what is still in the pipe are together the uops of
        the groups that came from decode, in program order and each once, and the marks tell them apart. */
    lemma ExactlyOnce()
      requires Valid()
      ensures dispatched + pending == Flat(order) && Distinct(dispatched + pending)
      ensures |InPipe()| <= |order| && InPipe() == order[|order| - |InPipe()|..]
      ensures forall k :: 0 <= k < |pending| ==> pending[k].whenAllocated == Never
      ensures InPipe() != [] ==> forall k :: 0 <= k < |InPipe()[0].group| ==>
        (InPipe()[0].group[k].whenAllocated == Never <==> k >= d)
    {
      if InPipe() != [] {
        forall k | 0 <= k < |InPipe()[0].group|
          ensures InPipe()[0].group[k].whenAllocated == Never <==> k >= d
        {
          MarkOf(InPipe(), d, k);
        }
      }
    }

    lemma Refit(p: seq<Uop>)
      requires Flowing(dispatched, p, order, d) && begun == Begun(p, d) && pending == Pending(p, d) && Marked(begun, pending)
      ensures Fits(p)
    {
    }

    /** What the recovery to a macro-op leaves, if p' stays in the pipe. */
    lemma FitsAfter(p: seq<Uop>, p': seq<Uop>, mop: nat) returns (n: nat)
      requires Fits(p) && (if p == [] then d == 0 else d < |p[0].group|)
      requires p' <= p && (forall k :: |p'| <= k < |p| ==> p[k].mop != mop) && (p' != [] ==> p'[|p'| - 1].mop == mop)
      requires exists u :: u in order && u.mop == mop
      ensures n <= |order| && (forall k :: 0 <= k < n ==> order[k].mop <= mop)
      ensures forall k :: n <= k < |order| ==> order[k].mop > mop
      ensures p' != [] ==>
        && Flowing(dispatched, p', order[..n], d) && KeepFirst(dispatched, |Flat(order[..n])|) == dispatched
        && begun == Begun(p', d) && Marked(begun, Pending(p', d))
      ensures p' == [] ==>
        && Flowing(KeepFirst(dispatched, |Flat(order[..n])|), [], order[..n], 0)
        && Begun([], 0) == [] && Pending([], 0) == [] && Marked([], [])
    {
      hide Flowing, Marked, Begun, Pending, Flat, KeepFirst, InOrder;
      InOrderSuffix(dispatched, p, order, d);
      n := CutBehind(order, mop);
      if p' != [] {
        CutInPipe(order, p, p', mop, n);
        PipeCut(dispatched, p, order, d, p');
        FewerPending(p, p', d, begun, pending);
      } else {
        CutAhead(order, p, mop, n);
        AllCut(dispatched, p, order, d, n);
        NothingPending();
      }
    }

    /** A full flush. */
    method Flush()
      requires Valid()
      modifies this`dispatched, this`order, this`d, this`begun, this`pending, pipe.rows, pipe.occupancy
      ensures Valid() && InPipe() == [] && order == [] && dispatched == []
    {
      hide *;
      Stages();
      pipe.Clear();
      dispatched, order, d, begun, pending := [], [], 0, [], [];
      NothingYet();
    }

    lemma Stages()
      requires Valid()
      ensures pipe.Shape() && pipe.depth == depth && pipe.width == width
    {
    }

    lemma FirstInFlat(p: seq<Uop>)
      requires Fits(p) && p != []
      ensures forall u :: u in p[0].group ==> u in Flat(order)
    {
      GroupInFlat(dispatched, p, order, d);
    }
  }

  lemma GroupMarks(p: seq<Uop>, d: nat, dispatched: seq<Uop>, order: seq<Uop>)
    requires p != [] && d == |p[0].group| && Flowing(dispatched, p, order, d)
    ensures Pending(p[1..], 0) == Pending(p, d) && Begun(p[1..], 0) == []
    ensures p[1..] != [] ==> 0 < |p[1..][0].group|
  {
    hide Flat;
    PendingIsFlat(p[1..]);
    assert Pending(p, d) == Flat(p[1..]);
    if p[1..] != [] { assert p[1] == order[|order| - |p| + 1]; }
  }

  /** Groups that come from decode after `order`. */
  ghost predicate Acceptable(order: seq<Uop>, more: seq<Uop>) {
    && InOrder(order + more) && Distinct(Flat(order + more))
    && forall k :: 0 <= k < |more| ==> more[k].GroupOk() && more[k].IsHead()
  }

  /** How many groups of a stream in order are not younger than a macro-op. */
  lemma {:induction false} CutBehind(order: seq<Uop>, mop: nat) returns (n: nat)
    requires InOrder(order)
    ensures n <= |order| && (forall k :: 0 <= k < n ==> order[k].mop <= mop)
    ensures forall k :: n <= k < |order| ==> order[k].mop > mop
    decreases |order|
  {
    if order == [] || order[|order| - 1].mop <= mop {
      n := |order|;
    } else {
      n := CutBehind(order[..|order| - 1], mop);
    }
  }

  lemma InOrderSuffix(dispatched: seq<Uop>, p: seq<Uop>, order: seq<Uop>, d: nat)
    requires Flowing(dispatched, p, order, d)
    ensures |p| <= |order| && p == order[|order| - |p|..] && InOrder(order)
  {
  }

  /** Clearing stops at the last group of the macro-op, if there is one. */
  lemma ClearedYounger(before: seq<seq<Option<Uop>>>, after: seq<seq<Option<Uop>>>, mop: nat)
    requires Cleared(before, after, (u: Uop) => u.mop == mop)
    ensures InRows(after) <= InRows(before)
    ensures forall k :: |InRows(after)| <= k < |InRows(before)| ==> InRows(before)[k].mop != mop
  {
    var stop := (u: Uop) => u.mop == mop;
    assert forall k :: |InRows(after)| <= k < |InRows(before)| ==> !stop(InRows(before)[k]);
  }

  lemma CutInPipe(order: seq<Uop>, p: seq<Uop>, p': seq<Uop>, mop: nat, n: nat)
    requires InOrder(order) && |p| <= |order| && p == order[|order| - |p|..] && p' <= p
    requires p' != [] && p'[|p'| - 1].mop == mop && forall k :: |p'| <= k < |p| ==> p[k].mop != mop
    requires n <= |order| && (forall k :: 0 <= k < n ==> order[k].mop <= mop)
    requires forall k :: n <= k < |order| ==> order[k].mop > mop
    ensures n == |order| - |p| + |p'|
  {
    var m := |order| - |p|;
    assert order[m + |p'| - 1].mop == mop;
    forall k | m + |p'| <= k < |order| ensures order[k].mop > mop {
      assert order[k] == p[k - m];
    }
    if m + |p'| < |order| { assert order[m + |p'|].mop > mop; }
  }

  lemma CutAhead(order: seq<Uop>, p: seq<Uop>, mop: nat, n: nat)
    requires InOrder(order) && |p| <= |order| && p == order[|order| - |p|..]
    requires (exists u :: u in order && u.mop == mop) && forall k :: 0 <= k < |p| ==> p[k].mop != mop
    requires n <= |order| && (forall k :: 0 <= k < n ==> order[k].mop <= mop)
    ensures n <= |order| - |p|
  {
    var m := |order| - |p|;
    var j :| 0 <= j < |order| && order[j].mop == mop;
    forall k | m <= k < |order| ensures order[k].mop != mop {
      assert order[k] == p[k - m];
    }
    if m < |order| { assert order[m].mop > mop; }
  }

  lemma FewerPending(p: seq<Uop>, p': seq<Uop>, d: nat, begun: seq<Uop>, pending: seq<Uop>)
    requires p' <= p && p' != [] && begun == Begun(p, d) && pending == Pending(p, d) && Marked(begun, pending)
    ensures begun == Begun(p', d) && Marked(begun, Pending(p', d))
  {
    assert p == p' + p[|p'|..];
    PendingAppend(p', p[|p'|..], d);
    var less := Pending(p', d);
    assert forall k :: 0 <= k < |less| ==> less[k] == pending[k];
  }

  lemma NothingPending()
    ensures Begun([], 0) == [] && Pending([], 0) == [] && Marked([], [])
  {
  }

  lemma OtherUops(order: seq<Uop>, more: seq<Uop>)
    requires Acceptable(order, more)
    ensures forall u :: u in Flat(more) ==> u !in Flat(order)
  {
    hide Flat, InOrder, Uop.GroupOk;
    FlatAppend(order, more);
    var a, b := Flat(order), Flat(more);
    forall j, k | 0 <= j < |a| && 0 <= k < |b| ensures a[j] != b[k] {
      assert (a + b)[j] == a[j] && (a + b)[|a| + k] == b[k];
    }
  }

  lemma NextAccepted(order: seq<Uop>, more: seq<Uop>, taken: nat)
    requires Acceptable(order, more) && taken < |more|
    ensures Acceptable(order + more[..taken], [more[taken]])
    ensures forall u :: u in more[taken].group ==> u in Flat(more)
  {
    hide Flat, Distinct, Uop.GroupOk, InOrder;
    var a, b := order + more[..taken] + [more[taken]], more[taken + 1..];
    assert order + more == a + b;
    FlatAppend(a, b);
    FewerDistinct(Flat(a), Flat(b));
    FewerInOrder(a, b);
    assert more == more[..taken] + more[taken..] && more[taken..][0] == more[taken];
    FlatAppend(more[..taken], more[taken..]);
    FlatFirst(more[taken..]);
  }

  lemma FewerInOrder(a: seq<Uop>, b: seq<Uop>)
    requires InOrder(a + b)
    ensures InOrder(a)
  {
    forall i, j | 0 <= i < j < |a| ensures a[i].mop <= a[j].mop { assert (a + b)[i] == a[i] && (a + b)[j] == a[j]; }
  }

  lemma VacantBehind<T>(rows: seq<seq<Option<T>>>, i: nat, x: Option<T>)
    requires 0 < |rows| && i < |rows[0]| && Vacant(rows[0][i..])
    ensures rows[0][i].None? && Younger(rows, 0, i + 1) == [] && Vacant(rows[0][i := x][i + 1..])
  {
    var behind := rows[0][i..];
    assert behind[0] == rows[0][i] && rows[0][i + 1..] == behind[1..];
    VacantIff(rows[0][i + 1..]);
    assert rows[0][i := x][i + 1..] == rows[0][i + 1..];
  }

  lemma PendingGrows(p: seq<Uop>, d: nat, u: Uop, begun: seq<Uop>, pending: seq<Uop>)
    requires begun == Begun(p, d) && pending == Pending(p, d) && Marked(begun, pending)
    requires forall v :: v in u.group ==> v.whenAllocated == Never
    requires p == [] ==> d == 0
    ensures Begun(p + [u], d) == begun && Pending(p + [u], d) == pending + u.group && Marked(begun, pending + u.group)
  {
    PendingAppend(p, [u], d);
    assert [u][..0] == [];
    assert Flat([u]) == u.group;
    if p == [] {
      assert p + [u] == [u];
      PendingIsFlat([u]);
    }
    forall k | 0 <= k < |pending + u.group| ensures (pending + u.group)[k].whenAllocated == Never {
      assert k >= |pending| ==> (pending + u.group)[k] in u.group;
    }
  }

  lemma NoneBegun(done: seq<Uop>, todo: seq<Uop>)
    requires Marked(done, todo)
    ensures Marked([], todo)
  {
  }

  lemma GroupInFlat(dispatched: seq<Uop>, p: seq<Uop>, order: seq<Uop>, d: nat)
    requires Flowing(dispatched, p, order, d) && p != []
    ensures forall u :: u in p[0].group ==> u in Flat(order)
  {
    assert order == order[..|order| - |p|] + p;
    FlatAppend(order[..|order| - |p|], p);
    FlatFirst(p);
  }

  lemma SliceNext<T>(s: seq<T>, i: nat, j: nat)
    requires i <= j < |s|
    ensures s[i..j + 1] == s[i..j] + [s[j]]
  {
  }

  lemma ChainStep(u: Uop, k: nat)
    requires u.GroupOk() && k < |u.group|
    ensures (if u.group[k].inFusion then u.group[k].fusionNext else null)
            == if k + 1 < |u.group| then u.group[k + 1] else null
  {
    var v := u.group[k];
    assert v.fusionNext == if k + 1 < |u.group| then u.group[k + 1] else null;
    if !v.inFusion {
      assert k == 0;
      assert u.group[0] == u;
    }
  }

  /** The mark of a uop tells whether it has been dispatched. */
  lemma MarkOf(p: seq<Uop>, d: nat, k: nat)
    requires p != [] && Marked(Begun(p, d), Pending(p, d)) && k < |p[0].group|
    ensures p[0].group[k].whenAllocated == Never <==> k >= d
  {
    var g := p[0].group;
    if k < d {
      assert Begun(p, d)[k] == g[k];
    } else {
      assert Pending(p, d)[k - d] == g[k];
    }
  }

  lemma HeadIsFirst(dispatched: seq<Uop>, p: seq<Uop>, order: seq<Uop>, d: nat)
    requires Flowing(dispatched, p, order, d) && p != [] && d < |p[0].group|
    ensures p[0].GroupOk() && p[0] in order && p[0].IsHead()
    ensures p[0].group[d].IsHead() <==> d == 0
  {
    assert p[0] == order[|order| - |p|];
  }

  lemma {:induction false} FlatFirst(p: seq<Uop>)
    requires p != []
    ensures Flat(p) == p[0].group + Flat(p[1..])
  {
    PendingIsFlat(p);
  }

  /** The uop to be dispatched next occurs neither before nor behind. */
  lemma NextOnce(dispatched: seq<Uop>, p: seq<Uop>, order: seq<Uop>, d: nat)
    requires Flowing(dispatched, p, order, d) && p != [] && d < |p[0].group|
    ensures Pending(p, d) == [p[0].group[d]] + Pending(p, d + 1)
    ensures Begun(p, d + 1) == Begun(p, d) + [p[0].group[d]]
    ensures p[0].group[d] !in Begun(p, d) && p[0].group[d] !in Pending(p, d + 1)
  {
    hide Flat, InOrder, Uop.GroupOk;
    var g, rest := p[0].group, Flat(p[1..]);
    assert order == order[..|order| - |p|] + p;
    FlatAppend(order[..|order| - |p|], p);
    FlatFirst(p);
    PartDistinct(Flat(order[..|order| - |p|]), g + rest);
    NextApart(g, rest, d);
  }

  lemma PartDistinct<T>(a: seq<T>, b: seq<T>)
    requires Distinct(a + b)
    ensures Distinct(b)
  {
    forall i, j | 0 <= i < j < |b| ensures b[i] != b[j] {
      assert (a + b)[|a| + i] == b[i] && (a + b)[|a| + j] == b[j];
    }
  }

  lemma NextApart<T>(g: seq<T>, rest: seq<T>, d: nat)
    requires d < |g| && Distinct(g + rest)
    ensures DropFirst(g, d) + rest == [g[d]] + (DropFirst(g, d + 1) + rest)
    ensures KeepFirst(g, d + 1) == KeepFirst(g, d) + [g[d]]
    ensures g[d] !in KeepFirst(g, d) && g[d] !in DropFirst(g, d + 1) + rest
  {
    var later := DropFirst(g, d + 1) + rest;
    assert g + rest == KeepFirst(g, d) + ([g[d]] + later);
    forall k | 0 <= k < |later| ensures later[k] != g[d] {
      assert later[k] == (g + rest)[d + 1 + k] && g[d] == (g + rest)[d];
    }
    forall k | 0 <= k < d ensures g[k] != g[d] {
      assert (g + rest)[k] == g[k] && (g + rest)[d] == g[d];
    }
  }
}
