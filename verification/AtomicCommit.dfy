/** The commit loop of the out-of-order core with uop fusion (commit-DPM.cpp): uops leave the ROB in
    program order, and none before its whole macro-op has completed. */
module AtomicCommit {
  import opened Rings
  import opened Ticks

  /** A place in a macro-op's flow of uops. A uop with an immediate takes up two more places. */
  datatype Place =
    | Uop(hasImm: bool, fusedWithNext: bool, freesStore: bool)
    | Immediate

  predicate IsUop(flow: seq<Place>, i: int) {
    0 <= i < |flow| && flow[i].Uop?
  }

  /** Exactly the two places behind a uop with an immediate are taken up by it, and a uop that is fused with the
      next one is not the last. */
  ghost predicate PlaceOk(flow: seq<Place>, i: int) {
    IsUop(flow, i) ==>
      if flow[i].hasImm then
        i + 2 < |flow| && flow[i + 1].Immediate? && flow[i + 2].Immediate?
        && (if i + 3 < |flow| then flow[i + 3].Uop? else !flow[i].fusedWithNext)
      else if i + 1 < |flow| then flow[i + 1].Uop? else !flow[i].fusedWithNext
  }

  ghost predicate FlowOk(flow: seq<Place>) {
    IsUop(flow, 0) && forall i {:trigger PlaceOk(flow, i)} :: 0 <= i < |flow| ==> PlaceOk(flow, i)
  }

  /** The place of the next uop. */
  function After(flow: seq<Place>, i: int): (j: int)
    ensures i < j
    ensures FlowOk(flow) && IsUop(flow, i) ==>
      && (forall k :: i < k < j ==> !IsUop(flow, k))
      && (j < |flow| ==> IsUop(flow, j))
      && (flow[i].fusedWithNext ==> j < |flow|)
  {
    assert FlowOk(flow) && IsUop(flow, i) ==> PlaceOk(flow, i);
    i + if IsUop(flow, i) && flow[i].hasImm then 3 else 1
  }

  type Flow = f: seq<Place> | FlowOk(f) witness [Uop(false, false, false)]

  class Mop {
    const flow: Flow
    const isCtrl: bool
    var whenCompleted: seq<Tick>  // for every place
    var completeIndex: int        // the first uop not known to have completed, or -1
    var commitIndex: int          // the first uop that has not committed, or -1
    var jeclearInFlight: bool     // the front end still has to process this branch's misprediction

    constructor (flow: Flow, isCtrl: bool)
      ensures this.flow == flow && this.isCtrl == isCtrl && !jeclearInFlight && Unstarted()
    {
      this.flow, this.isCtrl := flow, isCtrl;
      whenCompleted, completeIndex, commitIndex, jeclearInFlight := seq(|flow|, _ => Never), 0, 0, false;
    }

    ghost predicate Unstarted()
      reads this
    {
      |whenCompleted| == |flow| && completeIndex == 0 && commitIndex == 0
      && forall i :: 0 <= i < |flow| ==> whenCompleted[i] == Never
    }

    /** The uops before place n have completed. */
    ghost predicate DoneBelow(n: int, now: int)
      reads this`whenCompleted
    {
      |whenCompleted| == |flow| && forall i :: IsUop(flow, i) && i < n ==> whenCompleted[i].By(now)
    }

    ghost predicate AllDone(now: int)
      reads this`whenCompleted
    {
      DoneBelow(|flow|, now)
    }

    /** complete_index does not claim too much. */
    ghost predicate Tracked(now: int)
      reads this`whenCompleted, this`completeIndex
    {
      if completeIndex == -1 then AllDone(now) else IsUop(flow, completeIndex) && DoneBelow(completeIndex, now)
    }

    /** Moves complete_index on; it ends at -1 exactly if all uops have completed. */
    method CheckComplete(now: int)
      requires Tracked(now)
      modifies this`completeIndex
      ensures Tracked(now) && (completeIndex == -1 <==> AllDone(now))
      ensures completeIndex != -1 ==> !whenCompleted[completeIndex].By(now)
    {
      if completeIndex != -1 {
        while whenCompleted[completeIndex].By(now)
          invariant Tracked(now) && completeIndex != -1
          decreases |flow| - completeIndex
        {
          ghost var i := completeIndex;
          completeIndex := After(flow, completeIndex);
          assert DoneBelow(After(flow, i), now);
          if completeIndex >= |flow| {
            completeIndex := -1;
            break;
          }
        }
      }
    }
  }

  /** A pointer to a uop. */
  datatype Ref = Ref(mop: Mop, index: int) {
    predicate Valid() { IsUop(mop.flow, index) }

    function Next(): int { After(mop.flow, index) }

    predicate EndsMop() { Next() >= |mop.flow| }

    predicate Fused() { Valid() && mop.flow[index].fusedWithNext }

    predicate FreesStore() { Valid() && mop.flow[index].freesStore }
  }

  /** A uop and the uops fused to it. */
  function Group(r: Ref): (g: seq<Ref>)
    ensures g != [] && g[0] == r
    ensures forall k :: 0 <= k < |g| ==> g[k].mop == r.mop && (k > 0 ==> g[k].index > r.index)
    ensures r.Valid() ==> AllValid(g)
    decreases |r.mop.flow| - r.index
  {
    if r.Fused() then
      assert FlowOk(r.mop.flow);
      [r] + Group(Ref(r.mop, r.Next()))
    else [r]
  }

  ghost predicate AllValid(s: seq<Ref>) {
    forall k :: 0 <= k < |s| ==> s[k].Valid()
  }

  ghost function Flat(entries: seq<Ref>): seq<Ref> {
    if entries == [] then [] else Group(entries[0]) + Flat(entries[1..])
  }

  /** The uop at position k continues the macro-op of the one before it, or starts a new macro-op if that
      one is complete. */
  ghost predicate Follows(s: seq<Ref>, k: nat)
    requires k < |s|
  {
    if k == 0 then s[k].index == 0
    else if s[k - 1].EndsMop() then s[k].index == 0 && forall j :: 0 <= j < k ==> s[j].mop != s[k].mop
    else s[k] == Ref(s[k - 1].mop, s[k - 1].Next())
  }

  ghost predicate Ordered(s: seq<Ref>) {
    AllValid(s) && forall k :: 0 <= k < |s| ==> Follows(s, k)
  }

  lemma OrderedAt(s: seq<Ref>, k: nat)
    requires Ordered(s) && k < |s|
    ensures s[k].Valid() && (k > 0 ==> s[k - 1].Valid()) && Follows(s, k)
  {
  }

  /** A uop and the one before it. */
  lemma Previous(s: seq<Ref>, k: nat)
    requires Ordered(s) && 0 < k < |s|
    ensures s[k].Valid() && s[k - 1].Valid()
    ensures if s[k - 1].EndsMop() then s[k].index == 0 else s[k] == Ref(s[k - 1].mop, s[k - 1].Next())
  {
    OrderedAt(s, k);
  }

  /** A new macro-op has not been seen before. */
  lemma NewMop(s: seq<Ref>, j: nat, k: nat)
    requires Ordered(s) && j < k < |s| && s[k].index == 0
    ensures s[k].mop != s[j].mop
  {
    OrderedAt(s, k);
  }

  // ---------------------------------------------------------------- what program order means

  /** The uops of a macro-op from place i on. */
  ghost function FlowFrom(m: Mop, i: int): (s: seq<Ref>)
    ensures s != []
    decreases |m.flow| - i
  {
    [Ref(m, i)] + if After(m.flow, i) < |m.flow| then FlowFrom(m, After(m.flow, i)) else []
  }

  lemma FirstThenRest<T>(s: seq<T>, k: nat, n: nat)
    requires k < n <= |s|
    ensures s[k..n] == [s[k]] + s[k + 1..n]
  {
  }

  lemma FlowFromStep(r: Ref)
    ensures FlowFrom(r.mop, r.index)
            == [r] + if r.EndsMop() then [] else FlowFrom(r.mop, r.Next())
  {
    assert r == Ref(r.mop, r.index);
  }

  /** Macro-ops do not interleave: where one begins, its uops stand one after the other in flow order. */
  lemma {:induction false} NotInterleaved(s: seq<Ref>, k: nat)
    requires Ordered(s) && k < |s| && k + |FlowFrom(s[k].mop, s[k].index)| <= |s|
    ensures s[k..k + |FlowFrom(s[k].mop, s[k].index)|] == FlowFrom(s[k].mop, s[k].index)
    decreases |s| - k
  {
    hide Ordered, FlowFrom;
    var n := k + |FlowFrom(s[k].mop, s[k].index)|;
    FlowFromStep(s[k]);
    FirstThenRest(s, k, n);
    if s[k].EndsMop() {
      assert s[k + 1..n] == [];
    } else {
      OrderedAt(s, k + 1);
      NotInterleaved(s, k + 1);
    }
  }

  /** Later uops of the same macro-op stand at later places, so that no uop occurs twice. */
  lemma {:induction false} LaterPlace(s: seq<Ref>, j: nat, k: nat)
    requires Ordered(s) && j < k < |s|
    ensures s[j].mop == s[k].mop ==> s[j].index < s[k].index
    decreases k
  {
    hide Ordered, Follows, FlowOk;
    Previous(s, k);
    if s[k].index == 0 {
      NewMop(s, j, k);
    } else if j < k - 1 {
      LaterPlace(s, j, k - 1);
    }
  }

  lemma NoneBetween(flow: Flow, p: int, i: int)
    requires IsUop(flow, p) && IsUop(flow, i) && i < After(flow, p)
    ensures i <= p
  {
    assert FlowOk(flow);
  }

  /** If a uop occurs, the earlier uops of its macro-op occur before it. */
  lemma {:induction false} EarlierUops(s: seq<Ref>, k: nat, i: int)
    requires Ordered(s) && k < |s| && IsUop(s[k].mop.flow, i) && i <= s[k].index
    ensures Ref(s[k].mop, i) in s[..k + 1]
    decreases k
  {
    hide Ordered, Follows, FlowOk;
    if i == s[k].index {
      assert s[..k + 1][k] == Ref(s[k].mop, i);
    } else {
      if k == 0 { OrderedAt(s, k); } else { Previous(s, k); }
      NoneBetween(s[k].mop.flow, s[k - 1].index, i);
      EarlierUops(s, k - 1, i);
      assert s[..k] <= s[..k + 1];
    }
  }

  /** What a commit at position n means for the macro-ops that begin later. */
  lemma {:induction false} BeginsLater(s: seq<Ref>, n: nat)
    requires Ordered(s) && n < |s|
    ensures n + 1 < |s| && !s[n].EndsMop() ==> s[n + 1] == Ref(s[n].mop, s[n].Next())
    ensures n + 1 < |s| && s[n].EndsMop() ==> s[n + 1].index == 0
    ensures forall k :: n < k < |s| && (s[k].index == 0 || s[n].EndsMop()) ==> s[k].mop != s[n].mop
  {
    if n + 1 < |s| { assert Follows(s, n + 1); }
    forall k | n < k < |s| && (s[k].index == 0 || s[n].EndsMop()) ensures s[k].mop != s[n].mop {
      LaterPlace(s, n, k);
      assert FlowOk(s[n].mop.flow);
      if s[k].mop == s[n].mop { EndIsLast(s, n, k); }
    }
  }

  /** Nothing of a macro-op comes after its end. */
  lemma EndIsLast(s: seq<Ref>, n: nat, k: nat)
    requires Ordered(s) && n < k < |s| && s[k].mop == s[n].mop
    ensures s[k].Valid() && s[n].Valid() && !s[n].EndsMop() && s[k].index != 0
  {
    LaterPlace(s, n, k);
    OrderedAt(s, k);
    assert FlowOk(s[n].mop.flow);
  }

  // ---------------------------------------------------------------- the invariants of commit

  /** commit_index of every macro-op that still has uops to commit, where n uops have committed. */
  ghost predicate IndexOk(s: seq<Ref>, n: nat, mops: set<Mop>)
    reads mops`commitIndex
  {
    forall k :: n <= k < |s| && (k == n || s[k].index == 0) ==> s[k].mop in mops && s[k].mop.commitIndex == s[k].index
  }

  ghost predicate TrackedOk(mops: set<Mop>, now: int)
    reads mops`whenCompleted, mops`completeIndex
  {
    forall m :: m in mops ==> m.Tracked(now)
  }

  /** Only the uops in s have begun. */
  ghost predicate StartedOk(s: seq<Ref>, mops: set<Mop>)
    reads mops`whenCompleted
  {
    forall m, i :: m in mops && IsUop(m.flow, i) && i < |m.whenCompleted| && m.whenCompleted[i].At? ==> Ref(m, i) in s
  }

  /** Whenever a uop committed, all uops of its macro-op had completed. */
  ghost predicate Atomic(committed: seq<Ref>, times: seq<int>, mops: set<Mop>, now: int)
    reads mops`whenCompleted
  {
    |times| == |committed|
    && forall k :: 0 <= k < |committed| ==>
         committed[k].mop in mops && times[k] <= now && committed[k].mop.AllDone(times[k])
  }

  /** How many branches end in s. */
  ghost function BranchEnds(s: seq<Ref>): nat {
    if s == [] then 0
    else BranchEnds(s[..|s| - 1]) + if s[|s| - 1].mop.isCtrl && s[|s| - 1].EndsMop() then 1 else 0
  }

  ghost function LastUopsOfBranches(s: seq<Ref>): set<int> {
    set k | 0 <= k < |s| && s[k].mop.isCtrl && s[k].Next() >= |s[k].mop.flow|
  }

  lemma {:induction false} BranchEndsAre(s: seq<Ref>)
    ensures BranchEnds(s) == |LastUopsOfBranches(s)|
  {
    if s != [] {
      var n := |s| - 1;
      BranchEndsAre(s[..n]);
      assert LastUopsOfBranches(s) == LastUopsOfBranches(s[..n]) + if s[n].mop.isCtrl && s[n].EndsMop() then {n} else {};
    }
  }

  /** A completed uop has been allocated. */
  lemma CompletedIsAllocated(s: seq<Ref>, k: nat, n: nat, w: nat, times: seq<int>, mops: set<Mop>, now: int)
    requires Consistent(s, n, w, times, mops, now) && k < |s| && s[k].mop.AllDone(now)
    ensures k + w < |s|
  {
    OrderedAt(s, k);
    assert s[k] == Ref(s[k].mop, s[k].index);
    var j :| 0 <= j < |s| - w && s[..|s| - w][j] == s[k];
    assert s[j] == s[k];
    if j < k { LaterPlace(s, j, k); } else if k < j { LaterPlace(s, k, j); }
  }

  /** The macro-op of uop n, which is done, takes note that the uop commits. */
  method NoteCommitted(r: Ref, ghost now: int, ghost s: seq<Ref>, ghost n: nat, ghost w: nat, ghost times: seq<int>,
                       ghost mops: set<Mop>)
    requires Consistent(s, n, w, times, mops, now) && n < |s| && s[n] == r && r.mop.AllDone(now)
    modifies r.mop`commitIndex
    ensures Consistent(s, n + 1, w, times + [now], mops, now)
    ensures r.Valid() && r.mop.commitIndex == if r.EndsMop() then -1 else r.Next()
  {
    hide Ordered, FlowOk, Mop.DoneBelow, Mop.Tracked, StartedOk, Follows;
    OrderedAt(s, n);
    CompletedIsAllocated(s, n, n, w, times, mops, now);
    BeginsLater(s, n);
    assert s[..n + 1] == s[..n] + [s[n]];
    assert r.mop.commitIndex == r.index;
    r.mop.commitIndex := After(r.mop.flow, r.mop.commitIndex);
    if r.mop.commitIndex >= |r.mop.flow| {
      r.mop.commitIndex := -1;
    }
  }

  lemma Later(s: seq<Ref>, n: nat, w: nat, times: seq<int>, mops: set<Mop>, now: int, later: int)
    requires Consistent(s, n, w, times, mops, now) && now <= later
    ensures Consistent(s, n, w, times, mops, later)
  {
    hide Ordered, Follows, FlowOk;
    assert forall m :: m in mops ==> m.Tracked(later);
  }

  /** What a cycle has done: the uops from position n0 on have committed in it, within the branch limit, none of a
      macro-op whose jeclear was in flight, and no store that was not accepted. */
  ghost predicate Progress(committed: seq<Ref>, times: seq<int>, n0: nat, now: int, branches: int, limit: nat,
                           blocked: set<Mop>, accepts: Ref -> bool)
  {
    && n0 <= |committed| == |times| && branches == BranchEnds(committed[n0..])
    && (limit > 0 ==> branches <= limit)
    && forall k :: n0 <= k < |committed| ==>
         times[k] == now && committed[k].mop !in blocked && (committed[k].FreesStore() ==> accepts(committed[k]))
  }

  lemma ProgressStarts(committed: seq<Ref>, times: seq<int>, now: int, limit: nat, blocked: set<Mop>, accepts: Ref -> bool)
    requires |times| == |committed|
    ensures Progress(committed, times, |committed|, now, 0, limit, blocked, accepts)
  {
    assert committed[|committed|..] == [];
  }

  lemma ProgressGrows(c: seq<Ref>, times: seq<int>, n0: nat, now: int, branches: int, limit: nat, blocked: set<Mop>,
                      accepts: Ref -> bool, r: Ref)
    requires Progress(c, times, n0, now, branches, limit, blocked, accepts) && r.mop !in blocked
    requires (r.mop.isCtrl ==> !(0 < limit <= branches)) && (r.FreesStore() ==> accepts(r))
    ensures Progress(c + [r], times + [now], n0, now,
                     branches + if r.mop.isCtrl && r.EndsMop() then 1 else 0, limit, blocked, accepts)
  {
    assert (c + [r])[n0..] == c[n0..] + [r];
  }

  datatype Stall = WidthReached | Empty | JeclearInFlight | MaxBranches | NotReady | Partial | StoreQueue

  /** What holds when, of the uops s, the first n have committed and the last w have not been allocated. */
  ghost predicate Consistent(s: seq<Ref>, n: nat, w: nat, times: seq<int>, mops: set<Mop>, now: int)
    reads mops`whenCompleted, mops`completeIndex, mops`commitIndex
  {
    && n <= |s| && w <= |s| - n
    && Ordered(s) && (forall k :: 0 <= k < |s| ==> s[k].mop in mops)
    && IndexOk(s, n, mops) && TrackedOk(mops, now)
    && StartedOk(s[..|s| - w], mops) && Atomic(s[..n], times, mops, now)
  }

  /** A macro-op with committed uops is in the ROB with all its uops. */
  lemma NothingPartlyCommitted(s: seq<Ref>, g: seq<Ref>, times: seq<int>, mops: set<Mop>, now: int)
    requires Consistent(s, |s|, 0, times, mops, now) && g != [] && Ordered(s + g)
    ensures g[0].index == 0
  {
    var t, n := s + g, |s|;
    OrderedAt(t, n);
    if n > 0 && !t[n - 1].EndsMop() {
      assert s[..n][n - 1] == t[n - 1];
      assert t[n].mop.AllDone(times[n - 1]);
      var j :| 0 <= j < n && s[j] == t[n];
      LaterPlace(t, j, n);
    }
  }

  lemma {:induction false} Grown(s: seq<Ref>, n: nat, r: Ref, times: seq<int>, mops: set<Mop>, now: int)
    requires Consistent(s, n, 0, times, mops, now) && r.Valid() && Ordered(s + Group(r))
    requires r.index == 0 ==> r.mop !in mops && r.mop.Unstarted()
    ensures Consistent(s + Group(r), n, |Group(r)| - 1, times, mops + {r.mop}, now)
  {
    hide Ordered, Follows, FlowOk, Group, IndexOk, StartedOk, Mop.Tracked, Mop.Unstarted;
    var g := Group(r);
    var t := s + g;
    OrderedAt(t, |s|);
    assert t[|s|] == r;
    if n == |s| { NothingPartlyCommitted(s, g, times, mops, now); }
    assert t[..n] == s[..n] && t[..|t| - (|g| - 1)] == s + [r];
    assert s[..|s|] == s;
    GrownIndex(s, n, r, g, mops);
    GrownStarted(s, r, mops);
    assert TrackedOk(mops + {r.mop}, now) by {
      if r.index != 0 { Continues(s, r, g); } else { FreshIsTracked(r.mop, now); }
    }
  }

  lemma Continues(s: seq<Ref>, r: Ref, g: seq<Ref>)
    requires Ordered(s + g) && g != [] && g[0] == r && r.index != 0
    ensures s != [] && s[|s| - 1].mop == r.mop
  {
    OrderedAt(s + g, |s|);
  }

  lemma GrownIndex(s: seq<Ref>, n: nat, r: Ref, g: seq<Ref>, mops: set<Mop>)
    requires Ordered(s + g) && g == Group(r) && r.Valid() && n <= |s| && IndexOk(s, n, mops)
    requires r.index == 0 ==> r.mop.Unstarted()
    requires n == |s| ==> r.index == 0
    ensures IndexOk(s + g, n, mops + {r.mop})
  {
    hide Ordered, Follows, FlowOk, Group;
  }

  lemma GrownStarted(s: seq<Ref>, r: Ref, mops: set<Mop>)
    requires StartedOk(s, mops) && (r.index == 0 ==> r.mop.Unstarted()) && (r.index != 0 ==> r.mop in mops)
    ensures StartedOk(s + [r], mops + {r.mop})
  {
  }

  lemma FreshIsTracked(m: Mop, now: int)
    requires m.Unstarted()
    ensures m.Tracked(now)
  {
  }

  // ---------------------------------------------------------------- what recovery leaves

  /** The first b uops end with a whole macro-op. */
  ghost predicate Boundary(s: seq<Ref>, b: nat)
    requires b <= |s|
  {
    b == 0 || s[b - 1].EndsMop()
  }

  ghost function MopsOf(s: seq<Ref>): set<Mop> {
    set r | r in s :: r.mop
  }

  /** No macro-op stands on both sides of a boundary. */
  lemma {:induction false} ApartAt(s: seq<Ref>, b: nat, j: nat, k: nat)
    requires Ordered(s) && j < b <= k < |s| && Boundary(s, b)
    ensures s[j].mop != s[k].mop
    decreases k
  {
    hide Ordered, Follows, FlowOk;
    Previous(s, k);
    if s[k].index == 0 { NewMop(s, j, k); } else { ApartAt(s, b, j, k - 1); }
  }

  /** What is left of a consistent state when the uops from position b on are squashed. */
  lemma CutConsistent(s: seq<Ref>, b: nat, n: nat, w: nat, times: seq<int>, mops: set<Mop>, now: int)
    requires Consistent(s, n, w, times, mops, now) && n <= b <= |s| && (b == |s| || Boundary(s, b))
    ensures Consistent(s[..b], n, if b == |s| then w else 0, times, MopsOf(s[..b]), now)
  {
    hide FlowOk, Mop.DoneBelow, Mop.Tracked;
    var c, mops', w' := s[..b], MopsOf(s[..b]), if b == |s| then w else 0;
    CutOrdered(s, b);
    assert c[..n] == s[..n];
    forall k | 0 <= k < b ensures c[k].mop in mops' { assert c[k] in c; }
    forall m | m in mops' ensures m in mops {
      var k :| 0 <= k < b && s[k].mop == m;
    }
    forall m, i | m in mops' && IsUop(m.flow, i) && i < |m.whenCompleted| && m.whenCompleted[i].At?
      ensures Ref(m, i) in c[..b - w']
    {
      var k :| 0 <= k < |s| - w && s[..|s| - w][k] == Ref(m, i);
      var j :| 0 <= j < b && s[j].mop == m;
      if b <= k { ApartAt(s, b, j, k); }
      assert c[..b - w'][k] == Ref(m, i);
    }
  }

  lemma CutOrdered(s: seq<Ref>, b: nat)
    requires Ordered(s) && b <= |s|
    ensures Ordered(s[..b])
  {
    forall k | 0 <= k < b ensures s[..b][k].Valid() && Follows(s[..b], k) { OrderedAt(s, k); }
  }

  lemma NextIsUop(r: Ref)
    requires r.Valid() && !r.EndsMop()
    ensures IsUop(r.mop.flow, r.Next())
  {
    assert FlowOk(r.mop.flow);
  }

  /** Every macro-op of which a uop is in s is there with all its uops. */
  ghost predicate Whole(s: seq<Ref>) {
    forall k, i :: 0 <= k < |s| && IsUop(s[k].mop.flow, i) ==> Ref(s[k].mop, i) in s
  }

  /** The macro-op of a uop before a boundary ends before the boundary. */
  lemma {:induction false} EndsBefore(s: seq<Ref>, n: nat, k: nat) returns (j: nat)
    requires Ordered(s) && k < n <= |s| && Boundary(s, n)
    ensures k <= j < n && s[j].mop == s[k].mop && s[j].Valid() && s[j].EndsMop()
    decreases n - k
  {
    hide Ordered, Follows, FlowOk;
    OrderedAt(s, k);
    if s[k].EndsMop() {
      j := k;
    } else {
      Previous(s, k + 1);
      j := EndsBefore(s, n, k + 1);
    }
  }

  /** The macro-ops among the first n uops are there with all their uops exactly if the n-th one ends its own. */
  lemma WholeExactly(s: seq<Ref>, n: nat)
    requires Ordered(s) && n <= |s|
    ensures Whole(s[..n]) <==> Boundary(s, n)
  {
    hide Ordered, FlowOk, Follows;
    if Boundary(s, n) {
      forall k, i | 0 <= k < n && IsUop(s[k].mop.flow, i) ensures Ref(s[k].mop, i) in s[..n] {
        var j := EndsBefore(s, n, k);
        NoneBetween(s[k].mop.flow, s[j].index, i);
        EarlierUops(s, j, i);
        assert s[..j + 1] <= s[..n];
      }
    } else {
      NextMissing(s, n);
    }
  }

  /** The uop that was to follow the n-th one is missing. */
  lemma NextMissing(s: seq<Ref>, n: nat)
    requires Ordered(s) && n <= |s| && !Boundary(s, n)
    ensures s[n - 1].Valid() && IsUop(s[n - 1].mop.flow, s[n - 1].Next()) && s[n - 1] in s[..n]
    ensures Ref(s[n - 1].mop, s[n - 1].Next()) !in s[..n] && !Whole(s[..n])
  {
    hide Ordered, FlowOk, Follows;
    OrderedAt(s, n - 1);
    var c, r := s[..n], s[n - 1];
    assert c[n - 1] == r;
    NextIsUop(r);
    if Ref(r.mop, r.Next()) in c {
      var j :| 0 <= j < n && c[j] == Ref(r.mop, r.Next());
      if j < n - 1 { LaterPlace(s, j, n - 1); }
    }
  }

  /** The uops that were to follow a macro-op's committed ones have completed, and are missed. */
  lemma PartLost(s: seq<Ref>, n: nat, w: nat, times: seq<int>, mops: set<Mop>, now: int)
    requires Consistent(s, n, w, times, mops, now) && !Boundary(s, n)
    ensures !StartedOk(s[..n], MopsOf(s[..n]))
  {
    hide Ordered, TrackedOk, IndexOk, FlowOk;
    NextMissing(s, n);
    var r := s[n - 1];
    assert s[..n][n - 1] == r && r.mop in MopsOf(s[..n]);
    assert r.mop.AllDone(times[n - 1]);
  }

  /** A full flush leaves the n committed uops. Each macro-op among them has committed with all its uops, and commit
      stays atomic, exactly if no macro-op has committed in part: otherwise the rest of one is lost. */
  lemma FlushIsAtomic(s: seq<Ref>, n: nat, w: nat, times: seq<int>, mops: set<Mop>, now: int)
    requires Consistent(s, n, w, times, mops, now)
    ensures Whole(s[..n]) <==> Boundary(s, n)
    ensures Consistent(s[..n], n, 0, times, MopsOf(s[..n]), now) <==> Boundary(s, n)
  {
    hide Whole;
    WholeExactly(s, n);
    if Boundary(s, n) {
      CutConsistent(s, n, n, w, times, mops, now);
    } else {
      PartLost(s, n, w, times, mops, now);
      assert s[..n][..n - 0] == s[..n];
    }
  }

  /** How many uops right before place i are fused to it; pos and c say where the count has come to. */
  function FusedBefore(flow: seq<Place>, i: int, pos: int, c: nat): nat
    requires pos >= 0
    decreases i - pos
  {
    if pos >= i || !IsUop(flow, pos) then c
    else FusedBefore(flow, i, After(flow, pos), if flow[pos].fusedWithNext then c + 1 else 0)
  }

  /** How many uops of its group come before a uop. */
  function PartBefore(r: Ref): nat {
    FusedBefore(r.mop.flow, r.index, 0, 0)
  }

  /** The count goes up by one from a uop to the one fused behind it, and begins anew behind the end of a group. */
  lemma {:induction false} FusedBeforeNext(flow: Flow, i: int, pos: int, c: nat)
    requires IsUop(flow, i) && IsUop(flow, pos) && pos <= i
    ensures FusedBefore(flow, After(flow, i), pos, c) == if flow[i].fusedWithNext then FusedBefore(flow, i, pos, c) + 1 else 0
    decreases i - pos
  {
    assert FlowOk(flow);
    if pos < i {
      FusedBeforeNext(flow, i, After(flow, pos), if flow[pos].fusedWithNext then c + 1 else 0);
    }
  }

  /** The k-th uop of a group has k uops of the group before it, those that come before its head's own entry included. */
  lemma {:induction false} PartBeforeInGroup(r: Ref, k: nat)
    requires r.Valid() && k < |Group(r)|
    ensures PartBefore(Group(r)[k]) == PartBefore(r) + k
    ensures !r.Fused() && !r.EndsMop() ==> PartBefore(Ref(r.mop, r.Next())) == 0
    ensures r.index == 0 ==> PartBefore(r) == 0
    decreases k
  {
    assert FlowOk(r.mop.flow);
    FusedBeforeNext(r.mop.flow, r.index, 0, 0);
    if k > 0 {
      PartBeforeInGroup(Ref(r.mop, r.Next()), k - 1);
    }
  }

  /** Of the uop's group, only the uop itself is left, and it is not alone in its group. */
  predicate AtTail(r: Ref) {
    !r.Fused() && PartBefore(r) > 0
  }

  /** Only uops of the youngest group can wait for their allocation, and not all of them. */
  ghost predicate WaitingOk(entries: seq<Ref>, waiting: nat) {
    if entries == [] then waiting == 0 else waiting < |Group(entries[|entries| - 1])|
  }

  class CommitDPM {
    const width: nat
    const branchLimit: nat  // 0 for no limit
    const asserts: bool     // whether assertions are compiled in
    const ROB: array<Option<Ref>>
    var head: nat
    var num: nat
    var effNum: int
    var waiting: nat  // how many uops of the youngest group have not been allocated yet

    ghost var entries: seq<Ref>    // the first uncommitted uop of every entry, oldest first
    ghost var committed: seq<Ref>  // the uops that have committed
    ghost var times: seq<int>      // and when
    ghost var mops: set<Mop>
    ghost var clock: int

    ghost predicate Shape()
      reads this`head, this`num, this`entries, ROB
    {
      Holding(ROB[..], head, num, entries)
    }

    /** All uops that have entered, in program order. */
    ghost function Stream(): seq<Ref>
      reads this`committed, this`entries
    {
      committed + Flat(entries)
    }

    ghost predicate Valid()
      reads this, ROB, mops`whenCompleted, mops`completeIndex, mops`commitIndex
    {
      && Shape() && effNum == |Flat(entries)| - waiting && WaitingOk(entries, waiting)
      && Consistent(Stream(), |committed|, waiting, times, mops, clock)
    }

    constructor (size: nat, width: nat, branchLimit: nat, asserts: bool)
      requires 0 < size
      ensures Valid() && fresh(ROB) && ROB.Length == size && Stream() == [] && mops == {}
      ensures entries == committed == [] && num == effNum == waiting == 0 && times == [] && clock == 0
      ensures this.width == width && this.branchLimit == branchLimit && this.asserts == asserts
    {
      this.width, this.branchLimit, this.asserts := width, branchLimit, asserts;
      ROB := new Option<Ref>[size](_ => None);
      head, num, effNum := 0, 0, 0;
      entries, committed, times, waiting, mops, clock := [], [], [], 0, {}, 0;
    }

    /** A group of fused uops gets an entry; its first uop is allocated. */
    method Insert(r: Ref)
      requires Valid() && num < ROB.Length && waiting == 0 && r.Valid() && Ordered(Stream() + Group(r))
      requires r.index == 0 ==> r.mop !in mops && r.mop.Unstarted()
      modifies this, ROB
      ensures Valid() && entries == old(entries) + [r] && effNum == old(effNum) + 1 && committed == old(committed)
      ensures num == old(num) + 1 && clock == old(clock) && times == old(times)
      ensures Stream() == old(Stream()) + Group(r) && waiting == |Group(r)| - 1 && mops == old(mops) + {r.mop}
    {
      hide Consistent, Ordered, Flat, Group, Holding, Slot, Ref.Valid, Mop.Unstarted, FlowOk;
      ghost var s := Stream();
      Grown(s, |committed|, r, times, mops, clock);
      FlatSnoc(entries, r);
      HoldingEnds(ROB[..], head, num, entries);
      HoldingPush(ROB[..], head, num, entries, r);
      ROB[Slot(head, num, ROB.Length)] := Some(r);
      num := num + 1;
      effNum := effNum + 1;
      entries := entries + [r];
      waiting := |Group(r)| - 1;
      mops := mops + {r.mop};
      assert Stream() == s + Group(r);
    }

    /** The next uop of the youngest group is allocated. */
    method FuseInsert()
      requires Valid() && waiting > 0
      modifies this`effNum, this`waiting
      ensures Valid() && effNum == old(effNum) + 1 && waiting == old(waiting) - 1
    {
      hide Ordered, Flat;
      ghost var s, w := Stream(), waiting;
      effNum := effNum + 1;
      waiting := waiting - 1;
      assert s[..|s| - w] <= s[..|s| - waiting];
    }

    /** The back end reports when an allocated uop completes. A completion that has happened stands. */
    method Complete(m: Mop, i: nat, t: Tick)
      requires Valid() && m in mops && IsUop(m.flow, i) && i < |m.whenCompleted| && !m.whenCompleted[i].By(clock)
      requires Ref(m, i) in Stream()[..|Stream()| - waiting]
      modifies m`whenCompleted
      ensures Valid() && m.whenCompleted == old(m.whenCompleted)[i := t]
    {
      hide Ordered, Flat, Holding, IndexOk, FlowOk, Slot, Used;
      m.whenCompleted := m.whenCompleted[i := t];
    }

    /** The youngest entry is squashed. The walk through its group counts uops of the group that have committed
        already as well; there can be such uops in the oldest entry only. */
    method DropBack()
      requires Shape() && entries != [] && waiting < |Group(entries[num - 1])|
      modifies this`num, this`effNum, this`waiting, this`entries, ROB
      ensures Shape() && entries == old(entries)[..old(num) - 1] && num == old(num) - 1 && waiting == 0
      ensures var r := old(entries)[old(num) - 1];
              effNum == old(effNum) - (|Group(r)| - old(waiting)) - (if old(num) == 1 then PartBefore(r) else 0)
    {
      hide Group, PartBefore, FlowOk;
      HoldingPopBack(ROB[..], head, num, entries);
      var i := Slot(head, num - 1, ROB.Length);
      var r := ROB[i].value;
      assert r == entries[num - 1];
      effNum := effNum - (|Group(r)| - waiting) - (if num == 1 then PartBefore(r) else 0);
      ROB[i] := None;
      num := num - 1;
      waiting := 0;
      entries := entries[..num];
    }

    method RobBack() returns (back: Option<Ref>)
      requires Shape()
      ensures num == |entries| && (num > 0 ==> back == Some(entries[num - 1]))
    {
      HoldingEnds(ROB[..], head, num, entries);
      back := ROB[ModDec(Slot(head, num, ROB.Length), ROB.Length)];
    }

    /** The entries `was`, of whose youngest group w uops were waiting, have been squashed but for the first ones. */
    ghost predicate Dropping(was: seq<Ref>, w: nat)
      reads this`head, this`num, this`effNum, this`waiting, this`entries, ROB
    {
      && Shape() && entries <= was && waiting == (if entries == was then w else 0)
      && (if entries == [] then effNum == (if was == [] then 0 else 0 - PartBefore(was[0]))
          else effNum == |Flat(entries)| - waiting && WaitingOk(entries, waiting))
    }

    lemma StartDropping()
      requires Valid()
      ensures Dropping(entries, waiting) && Shape() && num == |entries| && WaitingOk(entries, waiting)
    {
      FlatNone();
    }

    method DropNext(ghost was: seq<Ref>, ghost w: nat)
      requires Dropping(was, w) && entries != []
      modifies this`num, this`effNum, this`waiting, this`entries, ROB
      ensures Dropping(was, w) && Shape() && num == |entries| == |old(entries)| - 1 && num <= |was| && entries == was[..num]
    {
      hide Holding, Flat, Group, PartBefore, FlowOk;
      HoldingEnds(ROB[..], head, num, entries);
      FlatSnoc(entries[..num - 1], entries[num - 1]);
      assert entries == entries[..num - 1] + [entries[num - 1]];
      FlatNone();
      DropBack();
    }

    /** Recovery to a macro-op, or a full flush if m is null: the entries younger than m are squashed, from the
        youngest on. An assertion of get_fusion_tail stops it at an oldest entry of which only the last uop of a fused
        group is left. Otherwise what is left is valid exactly if an entry is left or no macro-op has committed in
        part; then the rest of that one would be lost. */
    method Recover(m: Mop?) returns (aborted: bool)
      requires Valid()
      modifies this`num, this`effNum, this`waiting, this`entries, this`mops, ROB
      ensures Shape() && entries <= old(entries) && committed == old(committed)
      ensures aborted <==>
        && asserts && old(entries) != [] && AtTail(old(entries)[0])
        && forall k :: 0 <= k < |old(entries)| ==> old(entries)[k].mop != m
      ensures aborted ==> entries == old(entries)[..1]
      ensures !aborted && entries != [] ==> entries[|entries| - 1].mop == m
      ensures !aborted ==> forall k :: |entries| <= k < |old(entries)| ==> old(entries)[k].mop != m
      ensures !aborted ==> mops == MopsOf(Stream())
      ensures !aborted ==> (Valid() <==> entries != [] || old(entries) == [] || Boundary(committed, |committed|))
      ensures !aborted && entries == [] && old(entries) != [] ==> effNum == 0 - PartBefore(old(entries)[0])
    {
      hide Consistent, Shape, Ordered, Flat, Dropping, WaitingOk, FlowOk, PartBefore, Boundary, MopsOf, AtTail;
      ghost var was, w, before := entries, waiting, mops;
      assert Consistent(committed + Flat(was), |committed|, w, times, mops, clock);
      StartDropping();
      var back := RobBack();
      while num > 0 && back.value.mop != m
        invariant mops == before && Consistent(committed + Flat(was), |committed|, w, times, before, clock)
        invariant Dropping(was, w) && Shape() && num == |entries| <= |was| && entries == was[..num]
        invariant num > 0 ==> back == Some(entries[num - 1])
        invariant forall k :: num <= k < |was| ==> was[k].mop != m
        invariant num == 0 && was != [] ==> !(asserts && AtTail(was[0]))
        decreases num
      {
        if asserts && num == 1 && AtTail(back.value) {
          return true;
        }
        DropNext(was, w);
        back := RobBack();
      }
      mops := MopsOf(Stream());
      Recovered(was, w, m, before);
      aborted := false;
    }

    /** What a recovery from the entries `was` leaves. */
    lemma Recovered(was: seq<Ref>, w: nat, m: Mop?, before: set<Mop>)
      requires Dropping(was, w) && WaitingOk(was, w)
      requires Consistent(committed + Flat(was), |committed|, w, times, before, clock)
      requires entries != [] ==> entries[|entries| - 1].mop == m
      requires forall k :: |entries| <= k < |was| ==> was[k].mop != m
      requires mops == MopsOf(Stream())
      ensures Valid() <==> entries != [] || was == [] || Boundary(committed, |committed|)
      ensures Shape() && entries <= was
      ensures entries == [] && was != [] ==> effNum == 0 - PartBefore(was[0])
    {
      hide Consistent, Shape, Ordered, Holding, FlowOk, Group, Flat, PartBefore, Boundary, MopsOf;
      var s, n := committed + Flat(was), |committed|;
      FlatNone();
      if entries == was {
        CutConsistent(s, |s|, n, w, times, before, clock);
        assert s[..|s|] == s;
      } else {
        LeavesEntries(was, |entries|, w, before);
      }
    }

    /** The case that entries have left. */
    lemma LeavesEntries(was: seq<Ref>, k: nat, w: nat, before: set<Mop>)
      requires Shape() && k < |was| && entries == was[..k]
      requires Consistent(committed + Flat(was), |committed|, w, times, before, clock)
      requires (k > 0 ==> was[k - 1].mop != was[k].mop) && mops == MopsOf(Stream())
      ensures k > 0 ==> Consistent(Stream(), |committed|, 0, times, mops, clock)
      ensures Flat([]) == []
      ensures k == 0 ==> (Consistent(Stream(), |committed|, 0, times, mops, clock) <==> Boundary(committed, |committed|))
      ensures k == 0 && Boundary(committed, |committed|) ==> PartBefore(was[0]) == 0
    {
      hide Consistent, Ordered, Holding, FlowOk, Group, Flat, PartBefore;
      var s, b, n := committed + Flat(was), |Stream()|, |committed|;
      FlatNone();
      FlatPrefix(was, k);
      NextGroup(committed, was, k);
      assert s[..b] == Stream() && s[..n] == committed;
      StreamOrdered(s, n, w, times, before, clock);
      OrderedAt(s, b);
      if k > 0 {
        CutConsistent(s, b, n, w, times, before, clock);
      } else {
        FlushIsAtomic(s, n, w, times, before, clock);
        NonePartBefore(s[n]);
        assert n > 0 ==> committed[n - 1] == s[n - 1];
      }
    }

    /** The head uop, whose macro-op is done, commits, unless it would have to wait for its store. */
    method CommitHead(accepted: bool) returns (ok: bool, left: bool)
      requires Valid() && entries != [] && entries[0].mop.AllDone(clock)
      modifies this, ROB, entries[0].mop`commitIndex
      ensures Valid() && Stream() == old(Stream()) && clock == old(clock) && mops == old(mops) && waiting == old(waiting)
      ensures var r := old(entries[0]);
              && left == !r.Fused()
              && ok == (accepted || !r.FreesStore())
              && committed == old(committed) + (if ok then [r] else [])
              && num == old(num) - (if ok && left then 1 else 0)
              && effNum == old(effNum) - (if ok then 1 else 0) && effNum >= 0
              && times == old(times) + (if ok then [clock] else [])
              && entries == (if ok then WithoutHead(old(entries)) else old(entries))
              && (ok ==> r.Valid() && r.mop.commitIndex == if r.EndsMop() then -1 else r.Next())
    {
      hide Consistent, Ordered, Holding, FlowOk, Follows, Flat, Mop.DoneBelow;
      ghost var s, n := Stream(), |committed|;
      HoldingEnds(ROB[..], head, num, entries);
      HeadOfStream(committed, entries);
      CompletedIsAllocated(s, n, n, waiting, times, mops, clock);
      WaitingStays(s);
      var r := ROB[head].value;
      left := !r.Fused();
      if r.FreesStore() && !accepted {
        return false, left;
      }
      NoteCommitted(r, clock, s, n, waiting, times, mops);
      RemoveHead(r, left);
      Regroup(committed, [r], Flat(entries));
      committed := committed + [r];
      times := times + [clock];
      ok := true;
    }

    /** If the only group in the ROB has completed, none of its uops waits. */
    lemma WaitingStays(s: seq<Ref>)
      requires Valid() && s == Stream() && entries != [] && entries[0].mop.AllDone(clock)
      ensures WaitingOk(WithoutHead(entries), waiting)
    {
      hide Consistent, Ordered, Holding, FlowOk, Mop.DoneBelow;
      HeadGone(entries);
      if |entries| == 1 {
        assert Flat(entries) == Group(entries[0]) + Flat(entries[1..]) && entries[1..] == [];
        CompletedIsAllocated(s, |s| - 1, |committed|, waiting, times, mops, clock);
      }
    }

    /** The head uop r leaves the ROB, or makes room for the next uop of its group. */
    method RemoveHead(r: Ref, left: bool)
      requires Shape() && entries != [] && entries[0] == r && left == !r.Fused()
      modifies this`head, this`num, this`effNum, this`entries, ROB
      ensures Shape() && num == old(num) - (if left then 1 else 0) && effNum == old(effNum) - 1
      ensures entries == WithoutHead(old(entries))
      ensures [r] + Flat(entries) == Flat(old(entries))
    {
      hide Holding, Flat, Slot, Used;
      HoldingEnds(ROB[..], head, num, entries);
      HeadGone(entries);
      if left {
        HoldingPopFront(ROB[..], head, num, entries);
        ROB[head] := None;
        num := num - 1;
        effNum := effNum - 1;
        head := ModInc(head, ROB.Length);
        entries := entries[1..];
      } else {
        var next := Ref(r.mop, After(r.mop.flow, r.index));
        HoldingReplaceFront(ROB[..], head, num, entries, next);
        ROB[head] := Some(next);
        effNum := effNum - 1;
        entries := [next] + entries[1..];
        assert entries == old(entries)[0 := next];
      }
    }

    /** Looks how far the head's macro-op has completed. */
    method CheckHead(now: int) returns (done: bool)
      requires Valid() && entries != [] && now == clock
      modifies entries[0].mop`completeIndex
      ensures Valid() && var m := entries[0].mop;
              && 0 < |m.whenCompleted| && done == (m.completeIndex == -1) == m.AllDone(now)
              && (!done ==> (m.completeIndex == 0 <==> !m.whenCompleted[0].By(now)))
    {
      hide Ordered, Holding, Flat, IndexOk, StartedOk, Atomic, WaitingOk, Group;
      HoldingEnds(ROB[..], head, num, entries);
      HeadOfStream(committed, entries);
      var m := ROB[head].value.mop;
      assert m in mops && m.Tracked(now);
      assert FlowOk(m.flow);
      m.CheckComplete(now);
      assert forall o :: o in mops ==> o.Tracked(now);
      done := m.completeIndex == -1;
    }

    /** Why the loop ends, after `left` entries and `branches` branches. */
    ghost predicate Stopped(stall: Stall, now: int, left: int, branches: int, accepts: Ref -> bool)
      reads this`entries, (set r | r in entries :: r.mop)`whenCompleted, (set r | r in entries :: r.mop)`jeclearInFlight
    {
      match stall
      case WidthReached => left == width
      case Empty => entries == []
      case JeclearInFlight => entries != [] && entries[0].mop.jeclearInFlight
      case MaxBranches => entries != [] && entries[0].mop.isCtrl && 0 < branchLimit <= branches
      case NotReady =>
        entries != [] && 0 < |entries[0].mop.whenCompleted| && !entries[0].mop.whenCompleted[0].By(now)
      case Partial =>
        && entries != [] && 0 < |entries[0].mop.whenCompleted| && entries[0].mop.whenCompleted[0].By(now)
        && !entries[0].mop.AllDone(now)
      case StoreQueue =>
        && entries != [] && entries[0].FreesStore()
        && !accepts(entries[0])
    }

    lemma StoppedForReason(stall: Stall, now: int, left: int, branches: int, accepts: Ref -> bool)
      requires Stopped(stall, now, left, branches, accepts) && left < width && entries != []
      ensures var r := entries[0];
              || r.mop.jeclearInFlight || (r.mop.isCtrl && 0 < branchLimit <= branches)
              || !r.mop.AllDone(now) || (r.FreesStore() && !accepts(r))
    {
      var m := entries[0].mop;
      assert FlowOk(m.flow) && IsUop(m.flow, 0);
    }

    /** One round of the loop: the head uop commits, or there is a reason to stop. */
    method Round(now: int, branches: int, accepts: Ref -> bool) returns (stall: Stall, left: bool, branchEnded: bool)
      requires Valid() && clock == now
      modifies this, ROB, mops`completeIndex, mops`commitIndex
      ensures Valid() && clock == now && mops == old(mops) && Stream() == old(Stream())
      ensures stall == WidthReached ==>
        && old(entries) != [] && var r := old(entries[0]);
        && !r.mop.jeclearInFlight && (r.FreesStore() ==> accepts(r)) && (r.mop.isCtrl ==> !(0 < branchLimit <= branches))
        && committed == old(committed) + [r] && times == old(times) + [now]
        && num == old(num) - (if left then 1 else 0) && 0 <= effNum < old(effNum)
        && branchEnded == (r.mop.isCtrl && r.EndsMop())
      ensures stall != WidthReached ==>
        && committed == old(committed) && times == old(times) && num == old(num)
        && Stopped(stall, now, 0, branches, accepts)
    {
      hide Consistent, Ordered, Flat, Holding, FlowOk, Slot, Used, Mop.AllDone, WithoutHead;
      stall, left, branchEnded := WidthReached, false, false;
      HoldingEnds(ROB[..], head, num, entries);
      if num <= 0 {
        return Empty, false, false;
      }
      HeadOfStream(committed, entries);
      HeadKnown();
      var m := ROB[head].value.mop;
      if m.jeclearInFlight {
        return JeclearInFlight, false, false;
      }
      if m.isCtrl && branchLimit > 0 && branches >= branchLimit {
        return MaxBranches, false, false;
      }
      var done := CheckHead(now);
      if !done {
        return (if m.completeIndex == 0 then NotReady else Partial), false, false;
      }
      var ok;
      ok, left := CommitHead(accepts(ROB[head].value));
      if !ok {
        return StoreQueue, false, false;
      }
      branchEnded := m.commitIndex == -1 && m.isCtrl;
    }

    /** Safety over whole runs: uops have committed in program order, macro-op after macro-op, and none
        before every uop of its macro-op had completed. */
    lemma CommitIsAtomic()
      requires Valid()
      ensures Ordered(committed) && |times| == |committed|
      ensures forall k, i :: 0 <= k < |committed| && IsUop(committed[k].mop.flow, i) ==>
        && |committed[k].mop.whenCompleted| == |committed[k].mop.flow|
        && committed[k].mop.whenCompleted[i].By(times[k]) && times[k] <= clock
    {
      var s := Stream();
      assert s[..|committed|] == committed;
      forall k | 0 <= k < |committed| ensures committed[k].Valid() && Follows(committed, k) {
        OrderedAt(s, k);
        assert s[k] == committed[k] && (k > 0 ==> s[k - 1] == committed[k - 1]);
      }
      forall k | 0 <= k < |committed| ensures committed[k].mop.AllDone(times[k]) {}
    }

    lemma TimesKnown()
      requires Valid()
      ensures |times| == |committed|
    {
      assert Stream()[..|committed|] == committed;
    }

    lemma HeadKnown()
      requires Valid() && entries != []
      ensures entries[0].mop in mops
    {
      HeadOfStream(committed, entries);
      assert Stream()[|committed|] == entries[0];
    }

    /** One cycle. `accepts` says for which uops the store queue can let go of its store. Uops only move from
        the ROB to the committed ones, in order, and the loop stops only for a reason. */
    method Step(now: int, accepts: Ref -> bool) returns (stall: Stall, ghost branches: int)
      requires Valid() && clock <= now
      modifies this, ROB, mops`completeIndex, mops`commitIndex
      ensures Valid() && clock == now && mops == old(mops) && Stream() == old(Stream())
      ensures old(committed) <= committed && old(times) <= times && 0 <= old(num) - num <= width
      ensures var n0, blocked := |old(committed)|, set m | m in mops && m.jeclearInFlight;
              && Progress(committed, times, n0, now, branches, branchLimit, blocked, accepts)
              && Stopped(stall, now, old(num) - num, branches, accepts)
      ensures old(num) - num < width && entries != [] ==>
        var r := entries[0];
        || r.mop.jeclearInFlight || (r.mop.isCtrl && 0 < branchLimit <= branches)
        || !r.mop.AllDone(now) || (r.FreesStore() && !accepts(r))
    {
      hide Consistent, Ordered, Flat, Holding, FlowOk, Slot, Used, Progress, WaitingOk, Mop.AllDone;
      Later(Stream(), |committed|, waiting, times, mops, clock, now);
      assert Consistent(Stream(), |committed|, waiting, times, mops, now);
      clock := now;
      TimesKnown();
      ghost var n0 := |committed|;
      stall := WidthReached;
      var commitCount, branchesCommitted := 0, 0;
      ghost var blocked := set m | m in mops && m.jeclearInFlight;
      ProgressStarts(committed, times, now, branchLimit, blocked, accepts);
      while commitCount < width
        invariant Valid() && clock == now && mops == old(mops) && Stream() == old(Stream())
        invariant old(committed) <= committed && old(times) <= times && 0 <= commitCount <= width
        invariant num == old(num) - commitCount && stall == WidthReached
        invariant Progress(committed, times, n0, now, branchesCommitted, branchLimit, blocked, accepts)
        decreases width - commitCount, effNum
      {
        ghost var c, t := committed, times;
        var left, branchEnded;
        stall, left, branchEnded := Round(now, branchesCommitted, accepts);
        if stall != WidthReached {
          break;
        }
        if !left {
          commitCount := commitCount - 1;
        }
        ProgressGrows(c, t, n0, now, branchesCommitted, branchLimit, blocked, accepts, committed[|c|]);
        if branchEnded {
          branchesCommitted := branchesCommitted + 1;
        }
        commitCount := commitCount + 1;
      }
      branches := branchesCommitted;
      if commitCount < width && entries != [] {
        StoppedForReason(stall, now, commitCount, branches, accepts);
      }
      assert blocked == set m | m in mops && m.jeclearInFlight;
    }
  }

  /** The entries without the head uop. */
  ghost function WithoutHead(entries: seq<Ref>): seq<Ref>
    requires entries != []
  {
    var r := entries[0];
    if r.Fused() then [Ref(r.mop, r.Next())] + entries[1..] else entries[1..]
  }

  lemma FlatCons(r: Ref, rest: seq<Ref>)
    ensures Flat([r] + rest) == Group(r) + Flat(rest)
  {
    assert ([r] + rest)[1..] == rest;
  }

  lemma FlatNone()
    ensures Flat([]) == []
  {
  }

  lemma {:induction false} FlatConcat(a: seq<Ref>, b: seq<Ref>)
    ensures Flat(a + b) == Flat(a) + Flat(b)
  {
    if a == [] {
      assert a + b == b;
    } else {
      assert (a + b)[1..] == a[1..] + b;
      FlatConcat(a[1..], b);
    }
  }

  lemma FlatPrefix(was: seq<Ref>, k: nat)
    requires k <= |was|
    ensures Flat(was[..k]) <= Flat(was)
  {
    hide Flat;
    FlatConcat(was[..k], was[k..]);
    assert was == was[..k] + was[k..];
  }

  lemma FlatEnds(c: seq<Ref>)
    requires c != []
    ensures Flat(c) != [] && Flat(c)[0] == c[0] && Flat(c)[|Flat(c)| - 1].mop == c[|c| - 1].mop
  {
    hide Group;
    FlatSnoc(c[..|c| - 1], c[|c| - 1]);
    assert c == c[..|c| - 1] + [c[|c| - 1]];
  }

  /** Between the first k entries and the next one. */
  lemma NextGroup(committed: seq<Ref>, was: seq<Ref>, k: nat)
    requires k < |was|
    ensures var s, b := committed + Flat(was), |committed + Flat(was[..k])|;
            b < |s| && s[b] == was[k] && (k > 0 ==> b > 0 && s[b - 1].mop == was[k - 1].mop)
  {
    hide Group, Flat;
    FlatConcat(was[..k], was[k..]);
    assert was == was[..k] + was[k..];
    FlatEnds(was[k..]);
    var s, a, c := committed + Flat(was), Flat(was[..k]), Flat(was[k..]);
    assert s == committed + (a + c);
    assert s[|committed| + |a|] == c[0];
    if k > 0 {
      FlatEnds(was[..k]);
      assert s[|committed| + |a| - 1] == a[|a| - 1];
    }
  }

  lemma NonePartBefore(r: Ref)
    ensures r.index == 0 ==> PartBefore(r) == 0
  {
  }

  lemma StreamOrdered(s: seq<Ref>, n: nat, w: nat, times: seq<int>, mops: set<Mop>, now: int)
    requires Consistent(s, n, w, times, mops, now)
    ensures n <= |s| && Ordered(s)
  {
  }

  lemma GroupStep(r: Ref)
    ensures Group(r) == [r] + if r.Fused() then Group(Ref(r.mop, r.Next())) else []
  {
  }

  lemma HeadGone(entries: seq<Ref>)
    requires entries != []
    ensures [entries[0]] + Flat(WithoutHead(entries)) == Flat(entries)
  {
    hide Flat, Group, Ref.Fused;
    var r, rest := entries[0], entries[1..];
    FlatCons(r, rest);
    GroupStep(r);
    FirstOf(entries);
    if r.Fused() {
      var next := Ref(r.mop, r.Next());
      FlatCons(next, rest);
      Regroup([r], Group(next), Flat(rest));
    }
  }

  lemma FirstOf<T>(s: seq<T>)
    requires s != []
    ensures s == [s[0]] + s[1..]
  {
  }

  lemma Regroup<T>(a: seq<T>, b: seq<T>, c: seq<T>)
    ensures a + (b + c) == a + b + c
  {
  }

  lemma HeadOfStream(committed: seq<Ref>, entries: seq<Ref>)
    requires entries != []
    ensures Flat(entries) != [] && (committed + Flat(entries))[|committed|] == entries[0]
    ensures (committed + Flat(entries))[..|committed|] == committed
  {
    assert Flat(entries)[0] == entries[0];
  }

  lemma {:induction false} FlatSnoc(entries: seq<Ref>, r: Ref)
    ensures Flat(entries + [r]) == Flat(entries) + Group(r)
  {
    if entries == [] {
      assert entries + [r] == [r] && Flat([r][1..]) == [];
    } else {
      assert (entries + [r])[1..] == entries[1..] + [r];
      FlatSnoc(entries[1..], r);
    }
  }

  // ---------------------------------------------------------------- a macro-op that commits in part

  /** A store: its address, and its data, which may be fused to the address. */
  function StoreFlow(fused: bool): (flow: Flow)
    ensures |flow| == 2 && IsUop(flow, 0) && IsUop(flow, 1) && !IsUop(flow, 2)
  {
    [Uop(false, fused, false), Uop(false, false, true)]
  }

  lemma StoreUops(m: Mop, fused: bool)
    requires m.flow == StoreFlow(fused)
    ensures var a, d := Ref(m, 0), Ref(m, 1);
            && a.Valid() && d.Valid() && a.Fused() == fused && !d.Fused() && a.Next() == 1 && !a.EndsMop() && d.EndsMop()
            && !a.FreesStore() && d.FreesStore()
            && Group(a) == (if fused then [a, d] else [a]) && Group(d) == [d]
            && Ordered([a]) && Ordered([a, d])
            && PartBefore(d) == (if fused then 1 else 0)
  {
    var a, d := Ref(m, 0), Ref(m, 1);
    GroupStep(a);
    GroupStep(d);
    assert FusedBefore(m.flow, 1, 0, 0) == FusedBefore(m.flow, 1, 1, if fused then 1 else 0);
    assert Follows([a, d], 0) && Follows([a, d], 1);
  }

  /** Such a store enters an empty ROB of four entries. */
  method StoreEnters(fused: bool, asserts: bool) returns (c: CommitDPM, m: Mop)
    ensures fresh(c) && fresh(c.ROB) && fresh(m) && c.Valid() && c.asserts == asserts && c.width == 4 && c.branchLimit == 0
    ensures m.flow == StoreFlow(fused) && m.Unstarted() && !m.isCtrl && !m.jeclearInFlight
    ensures c.mops == {m} && c.committed == [] && c.waiting == 0 && c.clock == 0 && c.Stream() == [Ref(m, 0), Ref(m, 1)]
    ensures c.entries == if fused then [Ref(m, 0)] else [Ref(m, 0), Ref(m, 1)]
  {
    hide *;
    c := new CommitDPM(4, 4, 0, asserts);
    m := new Mop(StoreFlow(fused), false);
    StoreUops(m, fused);
    assert [] + [Ref(m, 0)] == [Ref(m, 0)] && [Ref(m, 0)] + [Ref(m, 1)] == [Ref(m, 0), Ref(m, 1)];
    assert [] + [Ref(m, 0), Ref(m, 1)] == [Ref(m, 0), Ref(m, 1)];
    c.Insert(Ref(m, 0));
    if fused {
      c.FuseInsert();
    } else {
      c.Insert(Ref(m, 1));
    }
  }

  /** Both halves complete. */
  method StoreCompletes(fused: bool, asserts: bool) returns (c: CommitDPM, m: Mop)
    ensures fresh(c) && fresh(c.ROB) && fresh(m) && c.Valid() && c.asserts == asserts && c.width == 4 && c.branchLimit == 0
    ensures m.flow == StoreFlow(fused) && m.whenCompleted == [At(0), At(0)] && !m.isCtrl && !m.jeclearInFlight
    ensures c.mops == {m} && c.committed == [] && c.clock == 0 && c.Stream() == [Ref(m, 0), Ref(m, 1)]
    ensures c.entries == if fused then [Ref(m, 0)] else [Ref(m, 0), Ref(m, 1)]
  {
    hide CommitDPM.Valid, Ordered, CommitDPM.Stream, FlowOk;
    c, m := StoreEnters(fused, asserts);
    assert c.Stream()[..2] == [Ref(m, 0), Ref(m, 1)];
    assert [Ref(m, 0), Ref(m, 1)][0] == Ref(m, 0) && [Ref(m, 0), Ref(m, 1)][1] == Ref(m, 1);
    c.Complete(m, 0, At(0));
    c.Complete(m, 1, At(0));
  }

  lemma NoneLeft(entries: seq<Ref>)
    requires Flat(entries) == []
    ensures entries == []
  {
    hide Flat;
    if entries != [] { FlatEnds(entries); }
  }

  lemma StoreStays(committed: seq<Ref>, rest: seq<Ref>, a: Ref, d: Ref)
    requires committed + rest == [a, d] && d.FreesStore()
    requires forall k :: 0 <= k < |committed| ==> !committed[k].FreesStore()
    ensures |committed| <= 1 && rest != []
  {
    assert [a, d][1] == d;
    assert (committed + rest)[1] == d;
  }

  /** What is left when the address has committed and the data has not. */
  lemma OneCommitted(c: CommitDPM, m: Mop, fused: bool, stall: Stall, num: nat, branches: int, accepts: Ref -> bool)
    requires c.Valid() && m.flow == StoreFlow(fused) && m.AllDone(0) && !m.isCtrl && !m.jeclearInFlight
    requires c.Stream() == [Ref(m, 0), Ref(m, 1)] && num <= 2 && c.num <= num && c.width == 4
    requires c.Stopped(stall, 0, num - c.num, branches, accepts)
    requires forall k :: 0 <= k < |c.committed| ==> !c.committed[k].FreesStore()
    ensures c.committed == [Ref(m, 0)] && c.entries == [Ref(m, 1)]
  {
    StoreUops(m, fused);
    FlatNone();
    var a, d, e := Ref(m, 0), Ref(m, 1), c.entries;
    StoreStays(c.committed, Flat(e), a, d);
    HeadOfStream(c.committed, e);
    assert e[0] == c.Stream()[|c.committed|];
    assert e[0].mop == m;
    assert stall == StoreQueue;
    assert e[0] == d;
    assert e == [d] + e[1..];
    FlatCons(d, e[1..]);
    NoneLeft(e[1..]);
  }

  /** The address of a store commits, and its data is refused. */
  method HalfCommits(fused: bool, asserts: bool) returns (c: CommitDPM, m: Mop)
    ensures fresh(c) && fresh(c.ROB) && c.Valid() && c.asserts == asserts && m.flow == StoreFlow(fused)
    ensures c.committed == [Ref(m, 0)] && c.entries == [Ref(m, 1)]
  {
    hide *;
    c, m := StoreCompletes(fused, asserts);
    StoreCounts(c, m, fused);
    var n, refuse := c.num, (r: Ref) => false;
    var stall, branches := c.Step(0, refuse);
    ghost var blocked := set o | o in c.mops && o.jeclearInFlight;
    NothingFreed(c.committed, c.times, 0, branches, c.branchLimit, blocked, refuse);
    OneCommitted(c, m, fused, stall, n, branches, refuse);
  }

  lemma NothingFreed(committed: seq<Ref>, times: seq<int>, now: int, branches: int, limit: nat, blocked: set<Mop>,
                     accepts: Ref -> bool)
    requires Progress(committed, times, 0, now, branches, limit, blocked, accepts)
    requires forall k :: 0 <= k < |committed| ==> !accepts(committed[k])
    ensures forall k :: 0 <= k < |committed| ==> !committed[k].FreesStore()
  {
  }

  /** A full flush then. If the halves were fused, it fails its assertion, or counts the address twice; if they were
      not, the count is right. In any case the data is lost. */
  method HalfCommittedFlushed(fused: bool, asserts: bool) returns (c: CommitDPM, aborted: bool)
    ensures aborted <==> fused && asserts
    ensures !aborted ==> c.entries == [] && c.effNum == (if fused then -1 else 0) && !c.Valid() && !Whole(c.committed)
  {
    hide *;
    var m;
    c, m := HalfCommits(fused, asserts);
    StoreUops(m, fused);
    aborted := c.Recover(null);
    DataLost(m, fused);
  }

  lemma DataLost(m: Mop, fused: bool)
    requires m.flow == StoreFlow(fused)
    ensures !Whole([Ref(m, 0)]) && !Boundary([Ref(m, 0)], 1)
    ensures AtTail(Ref(m, 1)) <==> fused
  {
    StoreUops(m, fused);
    var s := [Ref(m, 0)];
    assert s[0] == Ref(m, 0) && IsUop(s[0].mop.flow, 1);
    assert Ref(m, 1) !in s;
  }

  lemma StoreCounts(c: CommitDPM, m: Mop, fused: bool)
    requires c.Valid() && m.flow == StoreFlow(fused) && m.whenCompleted == [At(0), At(0)]
    requires c.entries == if fused then [Ref(m, 0)] else [Ref(m, 0), Ref(m, 1)]
    ensures c.num <= 2 && m.AllDone(0)
  {
  }
}
