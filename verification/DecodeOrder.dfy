/** Macro-ops on their way through the decoders, and the stream of uops that comes out
    (decode-DPM.cpp). Bodies of fused groups travel with their heads and are not queued themselves. */
module DecodeOrder {
  import opened StagedPipe
  import opened Ticks

  datatype Fusion = Unfused | Head(size: nat) | Body

  /** A place in a macro-op's flow. A uop with an immediate takes up two more places. */
  datatype Place = UopAt(hasImm: bool, fusion: Fusion) | Immediate

  predicate IsUop(flow: seq<Place>, i: int) {
    0 <= i < |flow| && flow[i].UopAt?
  }

  /** How many fused bodies stand in a row from place i on. */
  function Bodies(flow: seq<Place>, i: nat): nat
    decreases |flow| - i
  {
    if i >= |flow| then 0
    else match flow[i]
      case Immediate => Bodies(flow, i + 1)
      case UopAt(_, Body) => 1 + Bodies(flow, i + 1)
      case _ => 0
  }

  /** Exactly the two places behind a uop with an immediate are taken up by it. The head of a fused group counts
      itself and the bodies behind it, and every body has a head. */
  ghost predicate PlaceOk(flow: seq<Place>, i: nat) {
    IsUop(flow, i) ==>
      && (if flow[i].hasImm then
            i + 2 < |flow| && flow[i + 1].Immediate? && flow[i + 2].Immediate? && (i + 3 < |flow| ==> IsUop(flow, i + 3))
          else i + 1 < |flow| ==> IsUop(flow, i + 1))
      && (flow[i].fusion == Unfused ==> Bodies(flow, i + 1) == 0)
      && (flow[i].fusion.Head? ==> flow[i].fusion.size == 1 + Bodies(flow, i + 1))
  }

  ghost predicate FlowOk(flow: seq<Place>) {
    IsUop(flow, 0) && flow[0].fusion != Body && forall i {:trigger PlaceOk(flow, i)} :: 0 <= i < |flow| ==> PlaceOk(flow, i)
  }

  function OneUop(): (flow: seq<Place>)
    ensures FlowOk(flow)
  {
    var flow := [UopAt(false, Unfused)];
    assert PlaceOk(flow, 0);
    flow
  }

  type Flow = flow: seq<Place> | FlowOk(flow) witness OneUop()

  class Mop {
    const seqNum: nat
    const flow: Flow
    const numUops: nat
    const hasRep: bool
    const isCtrl: bool
    const unconditional: bool
    const fallThrough: int
    const target: int
    var predNPC: int
    var lastStageIndex: nat  // the next place to leave the decoders
    var whenMSStarted: Tick

    constructor (seqNum: nat, flow: Flow, numUops: nat, hasRep: bool, isCtrl: bool, unconditional: bool,
                 fallThrough: int, target: int, predNPC: int)
      ensures this.seqNum == seqNum && this.flow == flow && lastStageIndex == 0 && whenMSStarted == Never
      ensures this.numUops == numUops && this.hasRep == hasRep && this.isCtrl == isCtrl && this.predNPC == predNPC
      ensures this.unconditional == unconditional && this.fallThrough == fallThrough && this.target == target
    {
      this.seqNum, this.flow, this.numUops, this.hasRep := seqNum, flow, numUops, hasRep;
      this.isCtrl, this.unconditional, this.fallThrough, this.target := isCtrl, unconditional, fallThrough, target;
      this.predNPC, lastStageIndex, whenMSStarted := predNPC, 0, Never;
    }

    /** Decoding has found that fetch did not go on at the right place after this macro-op. */
    ghost predicate Mispredicted()
      reads this`predNPC
    {
      if isCtrl then (predNPC != fallThrough || unconditional) && predNPC != target
      else predNPC != fallThrough
    }

    /** Where fetch can rightly have gone on, as far as decoding can tell. */
    ghost function Successors(): set<int> {
      if !isCtrl then {fallThrough} else if unconditional then {target} else {fallThrough, target}
    }

    /** Where fetch goes on after a resteer. */
    ghost function Corrected(): int {
      if isCtrl then target else fallThrough
    }
  }

  datatype Uop = Uop(mop: Mop, index: nat)

  function After(flow: seq<Place>, i: nat): nat
    requires i < |flow|
  {
    i + if flow[i].UopAt? && flow[i].hasImm then 3 else 1
  }

  /** Fused bodies are not queued. */
  predicate Queued(place: Place) {
    place.Immediate? || place.fusion != Body
  }

  /** What is queued of a macro-op from place i on. */
  ghost function UopsFrom(m: Mop, i: nat): (s: seq<Uop>)
    ensures forall k :: 0 <= k < |s| ==> s[k].mop == m
    ensures i == 0 ==> s != []
    decreases |m.flow| - i
  {
    if i >= |m.flow| then [] else (if Queued(m.flow[i]) then [Uop(m, i)] else []) + UopsFrom(m, After(m.flow, i))
  }

  ghost function AllUops(mops: seq<Mop>): seq<Uop> {
    if mops == [] then [] else AllUops(mops[..|mops| - 1]) + UopsFrom(mops[|mops| - 1], 0)
  }

  /** What is still to come from the macro-ops p, of which the first is at place d. */
  ghost function Pending(p: seq<Mop>, d: nat): seq<Uop> {
    if p == [] then [] else UopsFrom(p[0], d) + AllUops(p[1..])
  }

  ghost function Sizes(q: seq<Uop>): int {
    if q == [] then 0 else Sizes(q[..|q| - 1]) + Size(q[|q| - 1])
  }

  /** How many uops an entry of the uop queue stands for. */
  function Size(u: Uop): nat {
    if IsUop(u.mop.flow, u.index) && u.mop.flow[u.index].fusion.Head? then u.mop.flow[u.index].fusion.size else 1
  }

  ghost predicate Increasing(mops: seq<Mop>) {
    forall i, j :: 0 <= i < j < |mops| ==> mops[i].seqNum < mops[j].seqNum
  }

  /** Of the macro-ops fetched, `p` are in the pipe; their uops have been handed on, or are queued, or are
      still to come from the pipe, in fetch order. */
  ghost predicate Flowing(sent: seq<Uop>, q: seq<Uop>, p: seq<Mop>, order: seq<Mop>, d: nat) {
    && |p| <= |order| && p == order[|order| - |p|..] && Increasing(order)
    && sent + q + Pending(p, d) == AllUops(order)
  }

  /** Of the macro-ops `before`, those younger than m have gone; none have if m is null. */
  ghost predicate CutAt(before: seq<Mop>, after: seq<Mop>, m: Mop?) {
    if m == null then after == before else after != [] && after <= before && after[|after| - 1] == m
  }

  // ---------------------------------------------------------------- streams

  lemma {:induction false} AllUopsAppend(a: seq<Mop>, b: seq<Mop>)
    ensures AllUops(a + b) == AllUops(a) + AllUops(b)
    decreases |b|
  {
    hide UopsFrom;
    if b == [] {
      assert a + b == a;
    } else {
      var ab, init := a + b, b[..|b| - 1];
      assert ab[..|ab| - 1] == a + init;
      AllUopsAppend(a, init);
      Regroup(AllUops(a), AllUops(init), UopsFrom(b[|b| - 1], 0));
    }
  }

  lemma AllUopsOne(m: Mop)
    ensures AllUops([m]) == UopsFrom(m, 0)
  {
    assert [m][..0] == [];
  }

  lemma PendingIsAll(p: seq<Mop>)
    ensures Pending(p, 0) == AllUops(p)
  {
    if p != [] {
      assert p == [p[0]] + p[1..];
      AllUopsOne(p[0]);
      AllUopsAppend([p[0]], p[1..]);
    }
  }

  lemma PendingAppend(p: seq<Mop>, b: seq<Mop>, d: nat)
    ensures p != [] ==> Pending(p + b, d) == Pending(p, d) + AllUops(b)
  {
    hide UopsFrom, AllUops;
    if p != [] {
      assert (p + b)[1..] == p[1..] + b;
      AllUopsAppend(p[1..], b);
      Regroup(UopsFrom(p[0], d), AllUops(p[1..]), AllUops(b));
    }
  }

  lemma {:induction false} FromTheirMops(mops: seq<Mop>, u: Uop)
    requires u in AllUops(mops)
    ensures u.mop in mops
  {
    var init, last := mops[..|mops| - 1], mops[|mops| - 1];
    if u in UopsFrom(last, 0) {
      assert mops[|mops| - 1] == u.mop;
    } else {
      FromTheirMops(init, u);
      assert forall m :: m in init ==> m in mops;
    }
  }

  lemma SuffixGrows<T>(p: seq<T>, order: seq<T>, m: T)
    requires |p| <= |order| && p == order[|order| - |p|..]
    ensures (order + [m])[|order| - |p|..] == p + [m]
  {
  }

  // ---------------------------------------------------------------- what is in a stream

  /** The stream of a macro-op consists of its uops that are no bodies, once each and in flow order. */
  lemma {:induction false} UopsOfMop(m: Mop, i: nat)
    requires i < |m.flow| ==> IsUop(m.flow, i)
    ensures var s := UopsFrom(m, i);
            && (forall k :: k >= 0 ==>
                  (Uop(m, k) in s <==> i <= k && IsUop(m.flow, k) && m.flow[k].fusion != Body))
            && (forall j, k :: 0 <= j < k < |s| ==> s[j].index < s[k].index)
    decreases |m.flow| - i
  {
    if i < |m.flow| {
      assert FlowOk(m.flow) && PlaceOk(m.flow, i);
      var j := After(m.flow, i);
      UopsOfMop(m, j);
      var s, rest := UopsFrom(m, i), UopsFrom(m, j);
      forall k: nat ensures Uop(m, k) in s <==> i <= k && IsUop(m.flow, k) && m.flow[k].fusion != Body {
        assert Uop(m, k) in s <==> (k == i && Queued(m.flow[i])) || Uop(m, k) in rest;
        assert i < k < j ==> !IsUop(m.flow, k);
      }
      forall k | 0 <= k < |rest| ensures i < rest[k].index { assert Uop(m, rest[k].index) in rest; }
    }
  }

  /** The stream of the macro-ops consists of exactly their uops, without the bodies. */
  lemma {:induction false} StreamHolds(mops: seq<Mop>, m: Mop, k: nat)
    ensures Uop(m, k) in AllUops(mops) <==> m in mops && IsUop(m.flow, k) && m.flow[k].fusion != Body
  {
    hide UopsFrom, FlowOk;
    if mops != [] {
      var init, last := mops[..|mops| - 1], mops[|mops| - 1];
      StreamHolds(init, m, k);
      assert mops == init + [last];
      FlowStarts(m);
      FlowStarts(last);
      UopsOfMop(m, 0);
      assert Uop(m, k) in UopsFrom(last, 0) ==> m == last;
    }
  }

  lemma FlowStarts(m: Mop)
    ensures IsUop(m.flow, 0)
  {
    assert FlowOk(m.flow);
  }

  /** The first uop comes before the second in program order. */
  ghost predicate Before(u: Uop, v: Uop) {
    u.mop.seqNum < v.mop.seqNum || (u.mop == v.mop && u.index < v.index)
  }

  /** It is in program order, and has every uop once. */
  lemma {:induction false} StreamInOrder(mops: seq<Mop>)
    requires Increasing(mops)
    ensures var s := AllUops(mops); forall j, k :: 0 <= j < k < |s| ==> Before(s[j], s[k])
  {
    hide UopsFrom, FlowOk;
    if mops != [] {
      var init, last := mops[..|mops| - 1], mops[|mops| - 1];
      StreamInOrder(init);
      FlowStarts(last);
      UopsOfMop(last, 0);
      var a, b := AllUops(init), UopsFrom(last, 0);
      forall j | 0 <= j < |a| ensures a[j].mop.seqNum < last.seqNum {
        FromTheirMops(init, a[j]);
        var i :| 0 <= i < |init| && init[i] == a[j].mop;
        assert mops[i].seqNum < mops[|mops| - 1].seqNum;
      }
    }
  }

  lemma {:induction false} SizesFirst(q: seq<Uop>)
    requires q != []
    ensures Sizes(q) == Size(q[0]) + Sizes(q[1..])
  {
    if |q| > 1 {
      SizesFirst(q[..|q| - 1]);
      assert q[1..][..|q| - 2] == q[..|q| - 1][1..];
    } else {
      assert q[..0] == [] && q[1..] == [];
    }
  }

  /** How many uops a macro-op has from place i on. */
  function UopCount(flow: seq<Place>, i: nat): nat
    decreases |flow| - i
  {
    if i >= |flow| then 0 else UopCount(flow, i + 1) + if flow[i].UopAt? then 1 else 0
  }

  /** The entries of a macro-op stand for all its uops: heads stand for the bodies that are not queued. */
  lemma {:induction false} SizesCountUops(m: Mop, i: nat)
    requires i < |m.flow| ==> IsUop(m.flow, i)
    ensures Sizes(UopsFrom(m, i)) == UopCount(m.flow, i) - Bodies(m.flow, i)
    decreases |m.flow| - i
  {
    hide Sizes;
    NoSizes();
    if i < |m.flow| {
      assert FlowOk(m.flow) && PlaceOk(m.flow, i);
      var j := After(m.flow, i);
      SizesCountUops(m, j);
      PastImmediates(m.flow, i);
      var s, rest := UopsFrom(m, i), UopsFrom(m, j);
      if Queued(m.flow[i]) {
        SizesFirst(s);
        assert s[0] == Uop(m, i) && s[1..] == rest;
        assert Bodies(m.flow, i) == 0;
      } else {
        assert s == rest;
        assert Bodies(m.flow, i) == 1 + Bodies(m.flow, i + 1);
      }
    }
  }

  lemma NoSizes()
    ensures Sizes([]) == 0
  {
  }

  /** Between a uop and the next one there is nothing to count. */
  lemma PastImmediates(flow: seq<Place>, i: nat)
    requires FlowOk(flow) && IsUop(flow, i)
    ensures var j := After(flow, i); Bodies(flow, i + 1) == Bodies(flow, j) && UopCount(flow, i + 1) == UopCount(flow, j)
  {
    assert PlaceOk(flow, i);
    if flow[i].hasImm {
      OverImmediate(flow, i + 1);
      OverImmediate(flow, i + 2);
    }
  }

  lemma OverImmediate(flow: seq<Place>, i: nat)
    requires i < |flow| && flow[i].Immediate?
    ensures Bodies(flow, i) == Bodies(flow, i + 1) && UopCount(flow, i) == UopCount(flow, i + 1)
  {
  }

  lemma SizesOfMop(m: Mop)
    ensures Sizes(UopsFrom(m, 0)) == UopCount(m.flow, 0)
  {
    assert FlowOk(m.flow);
    SizesCountUops(m, 0);
  }

  // ---------------------------------------------------------------- what the steps do to the streams

  lemma NextPlace(m: Mop, i: nat)
    requires i < |m.flow|
    ensures UopsFrom(m, i) == (if Queued(m.flow[i]) then [Uop(m, i)] else []) + UopsFrom(m, After(m.flow, i))
  {
  }

  /** A place leaves the decoders; what is not a body joins the queue. */
  lemma PlaceLeaves(sent: seq<Uop>, q: seq<Uop>, p: seq<Mop>, order: seq<Mop>, d: nat)
    requires Flowing(sent, q, p, order, d) && p != [] && d < |p[0].flow|
    ensures Flowing(sent, if Queued(p[0].flow[d]) then q + [Uop(p[0], d)] else q, p, order, After(p[0].flow, d))
  {
    hide AllUops, Increasing, UopsFrom, After, Queued;
    var u := if Queued(p[0].flow[d]) then [Uop(p[0], d)] else [];
    var later := Pending(p, After(p[0].flow, d));
    NextPlace(p[0], d);
    Regroup(u, UopsFrom(p[0], After(p[0].flow, d)), AllUops(p[1..]));
    Regroup(sent + q, u, later);
    Regroup(sent, q, u);
    assert q + u == if Queued(p[0].flow[d]) then q + [Uop(p[0], d)] else q;
  }

  /** A macro-op all of whose places have left is removed. */
  lemma MopLeaves(sent: seq<Uop>, q: seq<Uop>, p: seq<Mop>, order: seq<Mop>, d: nat)
    requires Flowing(sent, q, p, order, d) && p != [] && d >= |p[0].flow|
    ensures Flowing(sent, q, p[1..], order, 0)
  {
    hide AllUops, Increasing;
    PendingIsAll(p[1..]);
    assert Pending(p, d) == AllUops(p[1..]);
  }

  lemma FirstOnce(sent: seq<Uop>, q: seq<Uop>, p: seq<Mop>, order: seq<Mop>, d: nat)
    requires Flowing(sent, q, p, order, d) && p != []
    ensures forall k :: 0 < k < |p| ==> p[k] != p[0]
    ensures |p| <= |order| && forall k :: 0 <= k < |p| ==> p[k] == order[|order| - |p| + k]
  {
    hide AllUops, Pending;
    forall k | 0 < k < |p| ensures p[k] != p[0] {
      assert p[k] == order[|order| - |p| + k] && p[0] == order[|order| - |p|];
    }
  }

  lemma MopEnters(sent: seq<Uop>, q: seq<Uop>, p: seq<Mop>, order: seq<Mop>, d: nat, m: Mop)
    requires Flowing(sent, q, p, order, d) && Increasing(order + [m])
    ensures Flowing(sent, q, p + [m], order + [m], if p == [] then 0 else d)
  {
    hide AllUops, Increasing, UopsFrom;
    AllUopsAppend(order, [m]);
    SuffixGrows(p, order, m);
    Regroup(sent + q, Pending(p, d), AllUops([m]));
    if p == [] {
      assert p + [m] == [m];
      PendingIsAll([m]);
    } else {
      PendingAppend(p, [m], d);
    }
  }

  lemma UopLeaves(sent: seq<Uop>, q: seq<Uop>, p: seq<Mop>, order: seq<Mop>, d: nat)
    requires Flowing(sent, q, p, order, d) && q != []
    ensures Flowing(sent + [q[0]], q[1..], p, order, d)
    ensures AllUops(order)[..|sent|] == sent && AllUops(order)[|sent|..][..1] == [q[0]]
  {
    hide AllUops, Pending, Increasing;
    assert sent + [q[0]] + q[1..] == sent + q;
  }

  /** Only the older macro-ops p' stay in the pipe. */
  lemma PipeCut(sent: seq<Uop>, q: seq<Uop>, p: seq<Mop>, order: seq<Mop>, d: nat, p': seq<Mop>)
    requires Flowing(sent, q, p, order, d) && p' <= p && p' != []
    ensures var n := |order| - |p| + |p'|;
            Flowing(sent, q, p', order[..n], d) && order[n - 1] == p'[|p'| - 1]
  {
    hide AllUops, UopsFrom, Pending;
    var n := |order| - |p| + |p'|;
    var gone := p[|p'|..];
    assert p == p' + gone && order == order[..n] + gone && order[..n][n - |p'|..] == p';
    PendingAppend(p', gone, d);
    AllUopsAppend(order[..n], gone);
    Regroup(sent + q, Pending(p', d), AllUops(gone));
    SameRest(sent + q + Pending(p', d), AllUops(order[..n]), AllUops(gone));
  }

  /** All of a stream up to order[j] is no younger than it, and ends with it; the rest is younger. */
  lemma StreamCut(order: seq<Mop>, j: nat)
    requires Increasing(order) && j < |order|
    ensures var x, y := AllUops(order[..j + 1]), AllUops(order[j + 1..]);
            && AllUops(order) == x + y && x != [] && x[|x| - 1].mop == order[j]
            && forall k :: 0 <= k < |y| ==> y[k].mop != order[j]
  {
    var x, y := AllUops(order[..j + 1]), AllUops(order[j + 1..]);
    assert order == order[..j + 1] + order[j + 1..];
    AllUopsAppend(order[..j + 1], order[j + 1..]);
    assert order[..j + 1][..j] == order[..j] && UopsFrom(order[j], 0) != [];
    forall k | 0 <= k < |y| ensures y[k].mop != order[j] {
      FromTheirMops(order[j + 1..], y[k]);
    }
  }

  /** The pipe is empty, and of the queue only the uops q' up to the last one of order[j] stay. */
  lemma QueueCut(sent: seq<Uop>, q: seq<Uop>, p: seq<Mop>, order: seq<Mop>, d: nat, j: nat, q': seq<Uop>)
    requires Flowing(sent, q, p, order, d) && j < |order| && order[j] !in p && q' <= q
    requires q' != [] ==> q'[|q'| - 1].mop == order[j]
    requires forall k :: |q'| <= k < |q| ==> q[k].mop != order[j]
    ensures var cut := order[..j + 1];
            Flowing(Shorter(sent, |AllUops(cut)|), q', [], cut, 0)
  {
    hide AllUops, UopsFrom, Increasing, Pending;
    var cut := order[..j + 1];
    var x, y := AllUops(cut), AllUops(order[j + 1..]);
    StreamCut(order, j);
    forall u | u in Pending(p, d) ensures u.mop != order[j] { PendingFromPipe(p, d, u); }
    LastOf(sent, q, Pending(p, d), q', order[j], x, y);
    assert cut[|cut|..] == [];
    FewerIncrease(order, j + 1);
    NothingPending(Shorter(sent, |x|) + q');
  }

  lemma NothingPending(s: seq<Uop>)
    ensures s + Pending([], 0) == s
  {
  }

  lemma FewerIncrease(order: seq<Mop>, n: nat)
    requires Increasing(order) && n <= |order|
    ensures Increasing(order[..n])
  {
  }

  /** Where the uops of m end in a stream that is divided in two ways. */
  lemma LastOf(sent: seq<Uop>, q: seq<Uop>, r: seq<Uop>, q': seq<Uop>, m: Mop, x: seq<Uop>, y: seq<Uop>)
    requires sent + q + r == x + y && q' <= q && x != [] && x[|x| - 1].mop == m
    requires forall k :: 0 <= k < |y| ==> y[k].mop != m
    requires forall k :: |q'| <= k < |q| ==> q[k].mop != m
    requires forall u :: u in r ==> u.mop != m
    requires q' != [] ==> q'[|q'| - 1].mop == m
    ensures Shorter(sent, |x|) + q' == x
  {
    var stream, n := sent + q + r, |sent| + |q'|;
    assert stream[|x| - 1] == x[|x| - 1];
    forall k | |x| <= k < |stream| ensures stream[k].mop != m {
      assert stream[k] == y[k - |x|];
    }
    forall k | n <= k < |stream| ensures stream[k].mop != m {
      if k < |sent| + |q| {
        assert stream[k] == q[k - |sent|];
      } else {
        assert stream[k] == r[k - |sent| - |q|];
      }
    }
    if q' != [] {
      assert stream[n - 1] == q'[|q'| - 1];
      assert x == stream[..n] == sent + q';
    } else {
      assert x == stream[..|x|] == sent[..|x|];
    }
  }

  ghost function Shorter<T>(s: seq<T>, n: nat): seq<T> {
    if n < |s| then s[..n] else s
  }

  lemma PendingFromPipe(p: seq<Mop>, d: nat, u: Uop)
    requires u in Pending(p, d)
    ensures u.mop in p
  {
    if u in UopsFrom(p[0], d) {
    } else {
      FromTheirMops(p[1..], u);
      assert forall m :: m in p[1..] ==> m in p;
    }
  }
}
