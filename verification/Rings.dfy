/** Circular buffers as the simulator keeps them: an array, the index of the oldest entry, and the
    number of entries in use. `ModInc` and `ModDec` are modinc and moddec of misc.h. */
module Rings {

  function ModInc(x: nat, m: nat): (r: nat)
    requires x < m
    ensures r < m
  {
    if x + 1 == m then 0 else x + 1
  }

  function ModDec(x: nat, m: nat): (r: nat)
    requires x < m
    ensures r < m && ModInc(r, m) == x
  {
    if x == 0 then m - 1 else x - 1
  }

  /** The index of the k-th entry of a ring whose oldest entry is at `head`. */
  function Slot(head: nat, k: nat, size: nat): (r: nat)
    requires head < size && k <= size
    ensures r < size
  {
    if head + k < size then head + k else head + k - size
  }

  lemma NextSlot(head: nat, k: nat, size: nat)
    requires head < size && k < size
    ensures ModInc(Slot(head, k, size), size) == Slot(head, k + 1, size)
  {
  }

  /** The entries in use, oldest first. */
  ghost function Window<T>(a: seq<T>, head: nat, num: nat): (w: seq<T>)
    requires head < |a| && num <= |a|
    ensures |w| == num
    ensures forall k :: 0 <= k < num ==> w[k] == a[Slot(head, k, |a|)]
  {
    seq(num, k requires 0 <= k < num => a[Slot(head, k, |a|)])
  }

  /** The index lies in the window. */
  predicate Used(head: nat, num: nat, size: nat, index: nat)
  {
    if head + num <= size then head <= index < head + num
    else head <= index < size || index < head + num - size
  }

  /** An index in the window is the slot of exactly one position. */
  lemma UsedSlot(head: nat, num: nat, size: nat, index: nat) returns (k: nat)
    requires head < size && num <= size && index < size && Used(head, num, size, index)
    ensures k < num && Slot(head, k, size) == index
    ensures forall j: nat :: j < size && Slot(head, j, size) == index ==> j == k
  {
    k := if head <= index then index - head else index + size - head;
  }

  lemma UsedPopFront(head: nat, num: nat, size: nat)
    requires head < size && 0 < num <= size
    ensures forall i :: 0 <= i < size ==>
      (Used(ModInc(head, size), num - 1, size, i) <==> Used(head, num, size, i) && i != head)
  {
    forall i | 0 <= i < size
      ensures Used(ModInc(head, size), num - 1, size, i) <==> Used(head, num, size, i) && i != head
    {
      if head + 1 == size {
      } else {
        assert ModInc(head, size) == head + 1;
      }
    }
  }

  lemma UsedPopBack(head: nat, num: nat, size: nat)
    requires head < size && 0 < num <= size
    ensures forall i :: 0 <= i < size ==>
      (Used(head, num - 1, size, i) <==> Used(head, num, size, i) && i != Slot(head, num - 1, size))
  {
  }

  lemma WindowPush<T>(a: seq<T>, head: nat, num: nat, x: T)
    requires head < |a| && num < |a|
    ensures Window(a[Slot(head, num, |a|) := x], head, num + 1) == Window(a, head, num) + [x]
  {
  }

  lemma WindowPopFront<T>(a: seq<T>, head: nat, num: nat)
    requires head < |a| && 0 < num <= |a|
    ensures Window(a, ModInc(head, |a|), num - 1) == Window(a, head, num)[1..]
  {
  }

  lemma WindowPopBack<T>(a: seq<T>, head: nat, num: nat)
    requires head < |a| && 0 < num <= |a|
    ensures Window(a, head, num - 1) == Window(a, head, num)[..num - 1]
  {
  }

  lemma WindowUpdate<T>(a: seq<T>, head: nat, num: nat, k: nat, x: T)
    requires head < |a| && k < num <= |a|
    ensures Window(a[Slot(head, k, |a|) := x], head, num) == Window(a, head, num)[k := x]
  {
  }

  /** Writing outside the window does not show in it. */
  lemma WindowFrame<T>(a: seq<T>, head: nat, num: nat, index: nat, x: T)
    requires head < |a| && num <= |a| && index < |a| && !Used(head, num, |a|, index)
    ensures Window(a[index := x], head, num) == Window(a, head, num)
  {
  }

  // ---------------------------------------------------------------- rings whose free slots are marked

  datatype Option<T> = None | Some(value: T)

  /** The ring holds exactly the items, oldest first. */
  ghost predicate Holding<T>(a: seq<Option<T>>, head: nat, num: nat, items: seq<T>) {
    && head < |a| && num == |items| <= |a|
    && (forall k :: 0 <= k < num ==> a[Slot(head, k, |a|)] == Some(items[k]))
    && (forall i :: 0 <= i < |a| && !Used(head, num, |a|, i) ==> a[i] == None)
  }

  lemma HoldingEnds<T>(a: seq<Option<T>>, head: nat, num: nat, items: seq<T>)
    requires Holding(a, head, num, items)
    ensures head < |a| && num == |items| <= |a|
    ensures num > 0 ==> a[head] == Some(items[0]) && a[ModDec(Slot(head, num, |a|), |a|)] == Some(items[num - 1])
  {
    assert num > 0 ==> Slot(head, 0, |a|) == head && ModDec(Slot(head, num, |a|), |a|) == Slot(head, num - 1, |a|);
  }

  lemma HoldingPush<T>(a: seq<Option<T>>, head: nat, num: nat, items: seq<T>, x: T)
    requires Holding(a, head, num, items) && num < |a|
    ensures Holding(a[Slot(head, num, |a|) := Some(x)], head, num + 1, items + [x])
    ensures ModInc(Slot(head, num, |a|), |a|) == Slot(head, num + 1, |a|)
  {
  }

  lemma HoldingPopFront<T>(a: seq<Option<T>>, head: nat, num: nat, items: seq<T>)
    requires Holding(a, head, num, items) && num > 0
    ensures Holding(a[head := None], ModInc(head, |a|), num - 1, items[1..])
    ensures Slot(ModInc(head, |a|), num - 1, |a|) == Slot(head, num, |a|)
  {
    UsedPopFront(head, num, |a|);
    var b := a[head := None];
    forall k | 0 <= k < num - 1 ensures b[Slot(ModInc(head, |a|), k, |a|)] == Some(items[1..][k]) {
      assert Slot(ModInc(head, |a|), k, |a|) == Slot(head, k + 1, |a|);
    }
  }

  lemma HoldingPopBack<T>(a: seq<Option<T>>, head: nat, num: nat, items: seq<T>)
    requires Holding(a, head, num, items) && num > 0
    ensures Slot(head, num - 1, |a|) == ModDec(Slot(head, num, |a|), |a|)
    ensures Holding(a[Slot(head, num - 1, |a|) := None], head, num - 1, items[..num - 1])
  {
    UsedPopBack(head, num, |a|);
    var b := a[Slot(head, num - 1, |a|) := None];
    forall k | 0 <= k < num - 1 ensures b[Slot(head, k, |a|)] == Some(items[..num - 1][k]) {
      assert Slot(head, k, |a|) != Slot(head, num - 1, |a|);
    }
  }

  lemma HoldingReplaceFront<T>(a: seq<Option<T>>, head: nat, num: nat, items: seq<T>, x: T)
    requires Holding(a, head, num, items) && num > 0
    ensures Holding(a[head := Some(x)], head, num, items[0 := x])
  {
  }
}
