/** The heap of the operations in a functional unit, by their exit times (ALU_heap_balance and
    ALU_heap_remove of exec-STM.cpp). Positions start at 1; position 0 of the array is not used. */
module AluHeap {
  import opened Ticks

  /** An operation and when it leaves the unit. A free position has no operation and the stamp Never. */
  datatype Action = Action(uop: int, exit: Tick)

  const FREE := Action(-1, Never)

  /** `>` on stamps, with Never as the greatest one. */
  predicate After(a: Tick, b: Tick) {
    match a
    case At(x) => b.At? && x > b.cycle
    case Never => b.At?
  }

  function Parent(i: nat): nat { i / 2 }

  /** Positions 1 to n hold operations. */
  ghost predicate Filled(a: seq<Action>, n: nat) {
    n < |a| && forall i :: 1 <= i <= n ==> a[i].exit.At?
  }

  /** The parent of position i does not leave after it. */
  ghost predicate EdgeOk(a: seq<Action>, i: nat)
    requires 1 < i < |a|
  {
    !After(a[Parent(i)].exit, a[i].exit)
  }

  ghost predicate HeapOrdered(a: seq<Action>, n: nat)
    requires n < |a|
  {
    forall i :: 1 < i <= n ==> EdgeOk(a, i)
  }

  ghost function Swap(a: seq<Action>, i: nat, j: nat): (b: seq<Action>)
    requires i < |a| && j < |a|
    ensures |b| == |a|
  {
    a[i := a[j]][j := a[i]]
  }

  lemma SwapPermutes(a: seq<Action>, i: nat, j: nat)
    requires i < |a| && j < |a|
    ensures multiset(Swap(a, i, j)) == multiset(a)
  {
  }

  // ---------------------------------------------------------------- insertion

  /** Only the operation at position p may leave before its parent; those below it do not leave before that
      parent either. */
  ghost predicate OrderedBut(a: seq<Action>, n: nat, p: nat)
    requires n < |a|
  {
    && (forall i :: 1 < i <= n && i != p ==> EdgeOk(a, i))
    && (forall i :: 1 < i <= n && Parent(i) == p && p > 1 ==> !After(a[Parent(p)].exit, a[i].exit))
  }

  lemma SwapUp(a: seq<Action>, n: nat, p: nat)
    requires 1 < p <= n < |a| && OrderedBut(a, n, p) && After(a[Parent(p)].exit, a[p].exit)
    ensures OrderedBut(Swap(a, Parent(p), p), n, Parent(p))
  {
    var q := Parent(p);
    var b := Swap(a, q, p);
    forall i | 1 < i <= n && i != q ensures EdgeOk(b, i) {
      assert i != p ==> EdgeOk(a, i);
    }
    forall i | 1 < i <= n && Parent(i) == q && q > 1 ensures !After(b[Parent(q)].exit, b[i].exit) {
      assert EdgeOk(a, q);
      assert i != p ==> EdgeOk(a, i);
    }
  }

  /** A new operation at the last position rises to its place. */
  method Balance(pipe: array<Action>, insertPosition: nat)
    requires 1 <= insertPosition < pipe.Length && OrderedBut(pipe[..], insertPosition, insertPosition)
    modifies pipe
    ensures HeapOrdered(pipe[..], insertPosition) && multiset(pipe[..]) == multiset(old(pipe[..]))
    ensures forall i :: insertPosition < i < pipe.Length ==> pipe[i] == old(pipe[i])
    ensures pipe[0] == old(pipe[0])
  {
    hide After;
    var pos := insertPosition;
    while pos > 1
      invariant 1 <= pos <= insertPosition && OrderedBut(pipe[..], insertPosition, pos)
      invariant multiset(pipe[..]) == multiset(old(pipe[..])) && pipe[0] == old(pipe[0])
      invariant forall i :: insertPosition < i < pipe.Length ==> pipe[i] == old(pipe[i])
    {
      var parent := Parent(pos);
      if After(pipe[parent].exit, pipe[pos].exit) {
        ghost var a := pipe[..];
        SwapUp(a, insertPosition, pos);
        SwapPermutes(a, parent, pos);
        pipe[parent], pipe[pos] := pipe[pos], pipe[parent];
        assert pipe[..] == Swap(a, parent, pos);
        pos := parent;
      } else {
        assert EdgeOk(pipe[..], pos);
        return;
      }
    }
  }

  // ---------------------------------------------------------------- removal

  /** Where the operation at position p sinks to, if there are n operations; p itself if it stays. With two
      children it goes to the left one only if that leaves later than the right one. */
  function Child(a: seq<Action>, p: nat, n: nat): (c: nat)
    requires 1 <= p <= n < |a|
    ensures c == p || (p < c <= n && Parent(c) == p)
  {
    var l, r := 2 * p, 2 * p + 1;
    if l > n then p
    else if r > n then if After(a[p].exit, a[l].exit) then l else p
    else if After(a[p].exit, a[l].exit) && After(a[l].exit, a[r].exit) then l
    else if After(a[p].exit, a[l].exit) || After(a[p].exit, a[r].exit) then r
    else p
  }

  ghost function Sink(a: seq<Action>, p: nat, n: nat): (b: seq<Action>)
    requires 1 <= p <= n < |a|
    ensures |b| == |a| && multiset(b) == multiset(a)
    ensures forall i :: 0 <= i < |a| && i != p && (i < 2 * p || i > n) ==> b[i] == a[i]
    decreases n - p
  {
    var c := Child(a, p, n);
    SwapPermutes(a, p, c);
    if c == p then a else Sink(Swap(a, p, c), c, n)
  }

  /** At no position on its way does the sinking operation leave an earlier child aside. */
  ghost predicate SinksRight(a: seq<Action>, p: nat, n: nat)
    requires 1 <= p <= n < |a|
    decreases n - p
  {
    var c := Child(a, p, n);
    c == p || ((2 * p + 1 <= n ==> !After(a[c].exit, a[Sibling(c)].exit))
               && SinksRight(Swap(a, p, c), c, n))
  }

  /** Only position p may leave after its children; its parent does not leave after them either. */
  ghost predicate OrderedAbove(a: seq<Action>, n: nat, p: nat)
    requires n < |a|
  {
    && (forall i :: 1 < i <= n && Parent(i) != p ==> EdgeOk(a, i))
    && (forall i :: 1 < i <= n && Parent(i) == p && p > 1 ==> !After(a[Parent(p)].exit, a[i].exit))
  }

  lemma SwapDown(a: seq<Action>, n: nat, p: nat, c: nat)
    requires 1 <= p < c <= n < |a| && Parent(c) == p && OrderedAbove(a, n, p) && After(a[p].exit, a[c].exit)
    requires forall i :: 1 < i <= n && Parent(i) == p ==> !After(a[c].exit, a[i].exit)
    ensures OrderedAbove(Swap(a, p, c), n, c)
  {
    var b := Swap(a, p, c);
    forall i | 1 < i <= n && Parent(i) != c ensures EdgeOk(b, i) {
      if Parent(i) != p && i != p { assert EdgeOk(a, i); }
      if i == p { assert p > 1; }
    }
    forall i | 1 < i <= n && Parent(i) == c ensures !After(b[Parent(c)].exit, b[i].exit) {
      assert EdgeOk(a, i);
    }
  }

  /** The heap is in order after the sinking exactly if the operation sinks right. */
  lemma {:induction false} SinkExactly(a: seq<Action>, n: nat, p: nat)
    requires 1 <= p <= n < |a| && OrderedAbove(a, n, p) && Filled(a, n)
    ensures HeapOrdered(Sink(a, p, n), n) <==> SinksRight(a, p, n)
    decreases n - p
  {
    hide After, Sink, SinksRight, HeapOrdered, OrderedAbove;
    var c := Child(a, p, n);
    SinkStep(a, p, n);
    if c == p {
      Stays(a, n, p);
    } else if 2 * p + 1 <= n && After(a[c].exit, a[Sibling(c)].exit) {
      LeftAside(a, n, p);
    } else {
      NotBeforeChild(a, n, p);
      SwapDown(a, n, p, c);
      SinkExactly(Swap(a, p, c), n, c);
    }
  }

  function Sibling(c: nat): nat
    requires c > 1
  {
    if c % 2 == 0 then c + 1 else c - 1
  }

  lemma SinkStep(a: seq<Action>, p: nat, n: nat)
    requires 1 <= p <= n < |a|
    ensures var c := Child(a, p, n);
            && Sink(a, p, n) == (if c == p then a else Sink(Swap(a, p, c), c, n))
            && (SinksRight(a, p, n)
                <==> c == p || ((2 * p + 1 <= n ==> !After(a[c].exit, a[Sibling(c)].exit)) && SinksRight(Swap(a, p, c), c, n)))
  {
  }

  lemma Stays(a: seq<Action>, n: nat, p: nat)
    requires 1 <= p <= n < |a| && OrderedAbove(a, n, p) && Filled(a, n) && Child(a, p, n) == p
    ensures HeapOrdered(a, n)
  {
    forall i | 1 < i <= n ensures EdgeOk(a, i) {
      if Parent(i) == p { assert i == 2 * p || i == 2 * p + 1; }
    }
  }

  /** A child that was left aside stays below a later operation. */
  lemma LeftAside(a: seq<Action>, n: nat, p: nat)
    requires 1 <= p <= n < |a| && Filled(a, n) && Child(a, p, n) != p && 2 * p + 1 <= n
    requires After(a[Child(a, p, n)].exit, a[Sibling(Child(a, p, n))].exit)
    ensures !HeapOrdered(Sink(a, p, n), n)
  {
    hide After;
    var c := Child(a, p, n);
    var b, other := Sink(a, p, n), Sibling(c);
    assert b == Sink(Swap(a, p, c), c, n);
    assert b[p] == a[c] && b[other] == a[other] && Parent(other) == p;
    assert !EdgeOk(b, other);
  }

  lemma NotBeforeChild(a: seq<Action>, n: nat, p: nat)
    requires 1 <= p <= n < |a| && Filled(a, n) && Child(a, p, n) != p
    requires 2 * p + 1 <= n ==> !After(a[Child(a, p, n)].exit, a[Sibling(Child(a, p, n))].exit)
    ensures After(a[p].exit, a[Child(a, p, n)].exit)
    ensures forall i :: 1 < i <= n && Parent(i) == p ==> !After(a[Child(a, p, n)].exit, a[i].exit)
  {
    var c := Child(a, p, n);
    forall i | 1 < i <= n && Parent(i) == p ensures !After(a[c].exit, a[i].exit) {
      assert i == c || i == Sibling(c);
    }
  }

  /** The heap when the last operation has been moved to the root and its position is free. */
  ghost function LastToRoot(a: seq<Action>, n: nat): (b: seq<Action>)
    requires 1 < n < |a|
    ensures |b| == |a|
  {
    a[1 := a[n]][n := FREE]
  }

  lemma LastToRootCounts(a: seq<Action>, n: nat)
    requires 1 < n < |a|
    ensures multiset(LastToRoot(a, n)) == multiset(a) - multiset{a[1]} + multiset{FREE}
  {
    assert multiset(a[1 := a[n]]) == multiset(a) - multiset{a[1]} + multiset{a[n]};
    var b := a[1 := a[n]];
    assert multiset(b[n := FREE]) == multiset(b) - multiset{b[n]} + multiset{FREE};
  }

  lemma LastToRootIsAbove(a: seq<Action>, n: nat)
    requires 1 < n < |a| && HeapOrdered(a, n) && Filled(a, n)
    ensures OrderedAbove(LastToRoot(a, n), n - 1, 1) && Filled(LastToRoot(a, n), n - 1)
  {
    var b := LastToRoot(a, n);
    forall i | 1 < i <= n - 1 && Parent(i) != 1 ensures EdgeOk(b, i) {
      assert EdgeOk(a, i);
    }
  }

  /** The earliest operation leaves the heap of n; no other is lost. */
  method Remove(pipe: array<Action>, n: nat)
    requires 1 <= n < pipe.Length && HeapOrdered(pipe[..], n) && Filled(pipe[..], n)
    modifies pipe
    ensures multiset(pipe[..]) == multiset(old(pipe[..])) - multiset{old(pipe[1])} + multiset{FREE}
    ensures pipe[n] == FREE && Filled(pipe[..], n - 1)
    ensures HeapOrdered(pipe[..], n - 1) <==> (n > 1 ==> SinksRight(LastToRoot(old(pipe[..]), n), 1, n - 1))
  {
    ghost var a := pipe[..];
    if n == 1 {
      pipe[1] := FREE;
      assert pipe[..] == a[1 := FREE];
      return;
    }
    LastToRootIsAbove(a, n);
    LastToRootCounts(a, n);
    ghost var b := LastToRoot(a, n);
    SinkExactly(b, n - 1, 1);
    pipe[1] := pipe[n];
    pipe[n] := FREE;
    assert pipe[..] == b;
    SinkDown(pipe, n - 1);
  }

  /** Pushes the root of a heap of n operations down. */
  method SinkDown(pipe: array<Action>, n: nat)
    requires 1 <= n < pipe.Length && Filled(pipe[..], n)
    modifies pipe
    ensures pipe[..] == Sink(old(pipe[..]), 1, n) && Filled(pipe[..], n)
  {
    hide After;
    ghost var sunk := Sink(pipe[..], 1, n);
    var pos := 1;
    while true
      invariant 1 <= pos <= n && Sink(pipe[..], pos, n) == sunk && Filled(pipe[..], n)
      decreases n - pos
    {
      var c := Child(pipe[..], pos, n);
      if c == pos {
        return;
      }
      ghost var a := pipe[..];
      pipe[pos], pipe[c] := pipe[c], pipe[pos];
      assert pipe[..] == Swap(a, pos, c);
      pos := c;
    }
  }

  /** In a heap of four whose right child leaves between the left child and the last operation, removal puts
      the right child at the root, before the left one. */
  lemma RightChildOvertakes(a: seq<Action>)
    requires |a| == 5 && HeapOrdered(a, 4) && Filled(a, 4)
    requires After(a[3].exit, a[2].exit) && After(a[4].exit, a[3].exit)
    ensures !SinksRight(LastToRoot(a, 4), 1, 3)
    ensures Sink(LastToRoot(a, 4), 1, 3)[1] == a[3] && Sink(LastToRoot(a, 4), 1, 3)[2] == a[2]
  {
    hide Sink, SinksRight, HeapOrdered;
    var b := LastToRoot(a, 4);
    assert b[1] == a[4] && b[2] == a[2] && b[3] == a[3];
    SinkStep(b, 1, 3);
    SinkStep(Swap(b, 1, 3), 3, 3);
  }

  /** The heap need not be in order afterwards: here the operation that leaves in cycle 3 ends up above the
      one that leaves in cycle 2. */
  lemma OrderCanBeLost() returns (a: seq<Action>)
    ensures |a| == 5 && HeapOrdered(a, 4) && Filled(a, 4) && !SinksRight(LastToRoot(a, 4), 1, 3)
  {
    hide Sink, SinksRight, LastToRoot, HeapOrdered, Filled;
    a := [FREE, Action(0, At(1)), Action(1, At(2)), Action(2, At(3)), Action(3, At(4))];
    SmallHeap(a);
    RightChildOvertakes(a);
  }

  lemma SmallHeap(a: seq<Action>)
    requires |a| == 5 && a[1].exit.At? && a[2].exit.At? && a[3].exit.At? && a[4].exit.At?
    requires !After(a[1].exit, a[2].exit) && !After(a[1].exit, a[3].exit) && !After(a[2].exit, a[4].exit)
    ensures HeapOrdered(a, 4) && Filled(a, 4)
  {
  }

  /** The root of a heap in order leaves first. */
  lemma {:induction false} RootIsEarliest(a: seq<Action>, n: nat, i: nat)
    requires 1 <= i <= n < |a| && HeapOrdered(a, n)
    ensures !After(a[1].exit, a[i].exit)
    decreases i
  {
    if i > 1 {
      RootIsEarliest(a, n, Parent(i));
      assert EdgeOk(a, i);
    }
  }
}
