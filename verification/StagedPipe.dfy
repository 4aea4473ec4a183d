/** The pipes of the front end: rows of slots that move down together, as decode-DPM.cpp and
    alloc-DPM.cpp keep them in `pipe` and `occupancy`. The oldest items are in the last stage. */
module StagedPipe {
  import opened Rings

  /** The items of a row, oldest first. */
  function InRow<T>(row: seq<Option<T>>): (items: seq<T>)
    ensures |items| <= |row|
  {
    if row == [] then [] else (if row[0].Some? then [row[0].value] else []) + InRow(row[1..])
  }

  /** The items of the stages `rows`, oldest first. */
  function InRows<T>(rows: seq<seq<Option<T>>>): seq<T> {
    if rows == [] then [] else InRows(rows[1..]) + InRow(rows[0])
  }

  ghost predicate Vacant<T>(row: seq<Option<T>>) {
    forall i :: 0 <= i < |row| ==> row[i].None?
  }

  lemma {:induction false} VacantIff<T>(row: seq<Option<T>>)
    ensures InRow(row) == [] <==> Vacant(row)
  {
    if row == [] {
    } else {
      VacantIff(row[1..]);
      assert Vacant(row) <==> row[0].None? && Vacant(row[1..]) by {
        assert row[0].None? && Vacant(row[1..]) ==> forall i :: 0 < i < |row| ==> row[i] == row[1..][i - 1];
      }
    }
  }

  lemma {:induction false} InRowAppend<T>(a: seq<Option<T>>, b: seq<Option<T>>)
    ensures InRow(a + b) == InRow(a) + InRow(b)
  {
    if a == [] {
      assert a + b == b;
    } else {
      var ab := a + b;
      assert ab[1..] == a[1..] + b && ab[0] == a[0];
      InRowAppend(a[1..], b);
      assert InRow(ab) == (if ab[0].Some? then [ab[0].value] else []) + InRow(ab[1..]);
    }
  }

  lemma {:induction false} InRowsAppend<T>(a: seq<seq<Option<T>>>, b: seq<seq<Option<T>>>)
    ensures InRows(a + b) == InRows(b) + InRows(a)
  {
    if a == [] {
      assert a + b == b;
    } else {
      assert (a + b)[1..] == a[1..] + b;
      InRowsAppend(a[1..], b);
    }
  }

  /** The items ahead of slot i of stage s. */
  ghost function Older<T>(rows: seq<seq<Option<T>>>, s: nat, i: nat): seq<T>
    requires s < |rows| && i <= |rows[s]|
  {
    InRows(rows[s + 1..]) + InRow(rows[s][..i])
  }

  /** The items behind. */
  ghost function Younger<T>(rows: seq<seq<Option<T>>>, s: nat, i: nat): seq<T>
    requires s < |rows| && i <= |rows[s]|
  {
    InRow(rows[s][i..]) + InRows(rows[..s])
  }

  lemma SplitAt<T>(rows: seq<seq<Option<T>>>, s: nat, i: nat)
    requires s < |rows| && i <= |rows[s]|
    ensures InRows(rows) == Older(rows, s, i) + Younger(rows, s, i)
  {
    var row := rows[s];
    assert row == row[..i] + row[i..];
    InRowAppend(row[..i], row[i..]);
    assert rows == rows[..s] + rows[s..] && rows[s..][1..] == rows[s + 1..];
    InRowsAppend(rows[..s], rows[s..]);
  }

  /** Replacing slot i of stage s. */
  ghost function Set<T>(rows: seq<seq<Option<T>>>, s: nat, i: nat, x: Option<T>): (r: seq<seq<Option<T>>>)
    requires s < |rows| && i < |rows[s]|
    ensures |r| == |rows| && forall t :: 0 <= t < |r| ==> |r[t]| == |rows[t]|
  {
    rows[s := rows[s][i := x]]
  }

  lemma SetSlot<T>(rows: seq<seq<Option<T>>>, s: nat, i: nat, x: Option<T>)
    requires s < |rows| && i < |rows[s]|
    ensures InRows(Set(rows, s, i, x))
            == Older(rows, s, i) + (if x.Some? then [x.value] else []) + Younger(rows, s, i + 1)
    ensures Older(Set(rows, s, i, x), s, i) == Older(rows, s, i)
    ensures Younger(Set(rows, s, i, x), s, i + 1) == Younger(rows, s, i + 1)
    ensures InRow(rows[s][i := x]) == InRow(rows[s][..i]) + (if x.Some? then [x.value] else []) + InRow(rows[s][i + 1..])
  {
    var r := Set(rows, s, i, x);
    var row := rows[s][i := x];
    assert r[s + 1..] == rows[s + 1..] && r[..s] == rows[..s];
    assert row[..i] == rows[s][..i] && row[i + 1..] == rows[s][i + 1..];
    assert row[i..] == [x] + row[i + 1..];
    InRowAppend([x], row[i + 1..]);
    assert InRow([x]) == if x.Some? then [x.value] else [];
    assert row == row[..i] + row[i..];
    InRowAppend(row[..i], row[i..]);
    SplitAt(r, s, i);
  }

  lemma SlotAt<T>(rows: seq<seq<Option<T>>>, s: nat, i: nat)
    requires s < |rows| && i < |rows[s]|
    ensures var x := if rows[s][i].Some? then [rows[s][i].value] else [];
            && InRows(rows) == Older(rows, s, i) + x + Younger(rows, s, i + 1)
            && InRow(rows[s]) == InRow(rows[s][..i]) + x + InRow(rows[s][i + 1..])
  {
    assert rows[s][i := rows[s][i]] == rows[s];
    assert Set(rows, s, i, rows[s][i]) == rows;
    SetSlot(rows, s, i, rows[s][i]);
  }

  /** Slot i is the first occupied one. */
  ghost predicate Front<T>(row: seq<Option<T>>, i: nat)
    requires i < |row|
  {
    row[i].Some? && Vacant(row[..i])
  }

  /** The first occupied slot of the last stage holds the oldest item. */
  lemma FrontIsFirst<T>(rows: seq<seq<Option<T>>>, i: nat)
    requires rows != [] && i < |rows[|rows| - 1]| && Front(rows[|rows| - 1], i)
    ensures InRows(rows) != [] && InRows(rows)[0] == rows[|rows| - 1][i].value
    ensures Older(rows, |rows| - 1, i) == []
  {
    var s := |rows| - 1;
    VacantIff(rows[s][..i]);
    assert rows[s + 1..] == [];
    SlotAt(rows, s, i);
  }

  lemma AfterFirst<T>(rows: seq<seq<Option<T>>>, s: nat, i: nat, items: seq<T>)
    requires s < |rows| && i < |rows[s]| && rows[s][i].Some? && Older(rows, s, i) == []
    requires InRows(rows) == items
    ensures items != [] && Older(rows, s, i) + Younger(rows, s, i + 1) == items[1..]
  {
    SlotAt(rows, s, i);
  }

  /** Between two stages, when the first i slots of stage s - 1 have moved on to stage s. */
  ghost predicate Shifted<T>(rows: seq<seq<Option<T>>>, s: nat, i: nat)
    requires 0 < s < |rows| && i <= |rows[s]| == |rows[s - 1]|
  {
    Vacant(rows[s][i..]) && Vacant(rows[s - 1][..i])
  }

  lemma Boundary<T>(rows: seq<seq<Option<T>>>, s: nat, i: nat)
    requires 0 < s < |rows| && i <= |rows[s]| == |rows[s - 1]| && Shifted(rows, s, i)
    ensures Older(rows, s - 1, i) == Older(rows, s, i)
  {
    VacantIff(rows[s][i..]);
    VacantIff(rows[s - 1][..i]);
    assert rows[s] == rows[s][..i] + rows[s][i..];
    InRowAppend(rows[s][..i], rows[s][i..]);
    assert rows[s..][0] == rows[s] && rows[s..][1..] == rows[s + 1..];
  }

  class Pipe<T(==)> {
    const depth: nat
    const width: nat
    const rows: array<seq<Option<T>>>
    const occupancy: array<int>

    ghost predicate Shape()
      reads rows, occupancy
    {
      && 0 < depth == rows.Length == occupancy.Length
      && forall s :: 0 <= s < depth ==> |rows[s]| == width && occupancy[s] == |InRow(rows[s])|
    }

    ghost function Items(): seq<T>
      reads rows
    {
      InRows(rows[..])
    }

    constructor (depth: nat, width: nat)
      requires 0 < depth
      ensures Shape() && Items() == [] && fresh(rows) && fresh(occupancy) && this.depth == depth && this.width == width
    {
      this.depth, this.width := depth, width;
      rows := new seq<Option<T>>[depth](_ => seq(width, _ => None));
      occupancy := new int[depth](_ => 0);
      new;
      forall s | 0 <= s < depth ensures InRow(rows[s]) == [] { VacantIff(rows[s]); }
      NothingIn(rows[..]);
    }

    /** Empties the slot i of stage s, which is taken. */
    method Remove(s: nat, i: nat)
      requires Shape() && s < depth && i < width && rows[s][i].Some?
      modifies rows, occupancy
      ensures Shape() && rows[..] == Set(old(rows[..]), s, i, None)
      ensures Items() == Older(old(rows[..]), s, i) + Younger(old(rows[..]), s, i + 1)
      ensures old(Items()) == Older(old(rows[..]), s, i) + [old(rows[s][i].value)] + Younger(old(rows[..]), s, i + 1)
    {
      ghost var r := rows[..];
      SetSlot(r, s, i, None);
      SlotAt(r, s, i);
      rows[s] := rows[s][i := None];
      occupancy[s] := occupancy[s] - 1;
      assert rows[..] == Set(r, s, i, None);
    }

    /** Fills the slot i of stage s, which is empty. */
    method Add(s: nat, i: nat, x: T)
      requires Shape() && s < depth && i < width && rows[s][i].None?
      modifies rows, occupancy
      ensures Shape() && rows[..] == Set(old(rows[..]), s, i, Some(x))
      ensures Items() == Older(old(rows[..]), s, i) + [x] + Younger(old(rows[..]), s, i + 1)
      ensures old(Items()) == Older(old(rows[..]), s, i) + Younger(old(rows[..]), s, i + 1)
    {
      ghost var r := rows[..];
      SetSlot(r, s, i, Some(x));
      SlotAt(r, s, i);
      rows[s] := rows[s][i := Some(x)];
      occupancy[s] := occupancy[s] + 1;
      assert rows[..] == Set(r, s, i, Some(x));
    }

    /** Moves slot i of stage s - 1 on to stage s. */
    method Shift(s: nat, i: nat)
      requires Shape() && 0 < s < depth && i < width && Shifted(rows[..], s, i)
      modifies rows, occupancy
      ensures Shape() && Shifted(rows[..], s, i + 1) && Items() == old(Items())
      ensures rows[..] == Set(Set(old(rows[..]), s, i, old(rows[s - 1][i])), s - 1, i, None)
    {
      hide InRow, InRows;
      ghost var r := rows[..];
      Boundary(r, s, i);
      if rows[s - 1][i].Some? {
        var x := rows[s - 1][i].value;
        assert rows[s][i..][0].None?;
        Remove(s - 1, i);
        ghost var r1 := rows[..];
        assert Older(r1, s, i) == Older(r, s, i) by { assert r1[s + 1..] == r[s + 1..]; }
        Add(s, i, x);
        Cancel(Older(r, s, i), Younger(r1, s, i + 1), Younger(r, s - 1, i + 1));
      } else {
        assert rows[s][i..][0].None?;
        assert r[s][i := None] == r[s] && r[s - 1][i := None] == r[s - 1];
      }
      assert rows[..] == Set(Set(r, s, i, r[s - 1][i]), s - 1, i, None);
      StillShifted(r, s, i);
    }

    /** Moves stage s - 1 on to stage s, which is empty. */
    method ShiftRow(s: nat)
      requires Shape() && 0 < s < depth && occupancy[s] == 0
      modifies rows, occupancy
      ensures Shape() && Items() == old(Items()) && rows[..] == Swapped(old(rows[..]), s)
    {
      hide InRows, Set, InRow;
      ghost var r := rows[..];
      StartShift(s);
      var i := 0;
      while i < width
        invariant Shape() && 0 <= i <= width && Shifted(rows[..], s, i) && Items() == old(Items())
        invariant Moving(r, rows[..], s, i)
      {
        ghost var r1 := rows[..];
        Shift(s, i);
        MovingOn(r, r1, s, i);
        i := i + 1;
      }
      MovedAll(r, rows[..], s);
    }

    lemma StartShift(s: nat)
      requires Shape() && 0 < s < depth && occupancy[s] == 0
      ensures Shifted(rows[..], s, 0) && Vacant(rows[s])
    {
      VacantIff(rows[s]);
      assert rows[..][s][0..] == rows[s];
    }

    /** Empties the slots of stage s from the last on, up to an item at which it stops. */
    method ClearRow(s: nat, stop: T -> bool) returns (found: bool)
      requires Shape() && s < depth && Younger(rows[..], s, width) == []
      modifies rows, occupancy
      ensures Shape() && Cleared(old(rows[..]), rows[..], stop)
      ensures if found then Items() != [] && stop(Items()[|Items()| - 1]) else Younger(rows[..], s, 0) == []
    {
      hide InRow, InRows, Cleared, Older, Younger;
      ClearedNothing(rows[..], stop);
      var i := width;
      while i > 0
        invariant Shape() && 0 <= i <= width && Younger(rows[..], s, i) == []
        invariant Cleared(old(rows[..]), rows[..], stop)
      {
        i := i - 1;
        ghost var r := rows[..];
        SlotAt(r, s, i);
        YoungerStep(r, s, i);
        if rows[s][i].Some? {
          if stop(rows[s][i].value) {
            return true;
          }
          ClearedOne(r, s, i, stop);
          Remove(s, i);
          YoungerStep(rows[..], s, i);
          SetSlot(r, s, i, None);
          ClearedMore(old(rows[..]), r, rows[..], stop);
        }
      }
      found := false;
    }

    /** Empties the slots from the youngest on, up to an item at which it stops. */
    method ClearBehind(stop: T -> bool) returns (found: bool)
      requires Shape()
      modifies rows, occupancy
      ensures Shape() && Cleared(old(rows[..]), rows[..], stop)
      ensures if found then Items() != [] && stop(Items()[|Items()| - 1]) else Items() == []
    {
      hide InRow, InRows, Cleared, Older, Younger;
      ClearedNothing(rows[..], stop);
      FirstStage(rows[..]);
      var s := 0;
      while s < depth
        invariant Shape() && 0 <= s <= depth && Cleared(old(rows[..]), rows[..], stop)
        invariant if s < depth then Younger(rows[..], s, width) == [] else Items() == []
      {
        if occupancy[s] != 0 {
          ghost var r := rows[..];
          found := ClearRow(s, stop);
          ClearedMore(old(rows[..]), r, rows[..], stop);
          if found {
            return;
          }
        } else {
          EmptyStage(rows[..], s);
        }
        NextStage(rows[..], s);
        s := s + 1;
      }
      found := false;
    }

    /** Empties all slots. */
    method Clear()
      requires Shape()
      modifies rows, occupancy
      ensures Shape() && Items() == [] && forall s :: 0 <= s < depth ==> Vacant(rows[s])
    {
      var found := ClearBehind(_ => false);
      forall s | 0 <= s < depth ensures Vacant(rows[s]) {
        EmptyRows(rows[..], s);
        VacantIff(rows[s]);
      }
    }
  }

  /** From `before` to `after` the youngest items have gone, up to one at which the clearing stops, or all.
      In every row only slots behind the remaining items have been emptied. */
  ghost predicate Cleared<T>(before: seq<seq<Option<T>>>, after: seq<seq<Option<T>>>, stop: T -> bool) {
    && |before| == |after| && (forall t :: 0 <= t < |after| ==> |after[t]| == |before[t]|)
    && InRows(after) <= InRows(before)
    && (forall k :: |InRows(after)| <= k < |InRows(before)| ==> !stop(InRows(before)[k]))
    && (forall t :: 0 <= t < |after| ==> Trimmed(before[t], after[t]))
  }

  ghost predicate Trimmed<T>(before: seq<Option<T>>, after: seq<Option<T>>) {
    |after| == |before| && forall k, l :: 0 <= k <= l < |after| && after[l].Some? ==> after[k] == before[k]
  }

  lemma ClearedNothing<T>(rows: seq<seq<Option<T>>>, stop: T -> bool)
    ensures Cleared(rows, rows, stop)
  {
  }

  lemma ClearedMore<T>(a: seq<seq<Option<T>>>, b: seq<seq<Option<T>>>, c: seq<seq<Option<T>>>, stop: T -> bool)
    requires Cleared(a, b, stop) && Cleared(b, c, stop)
    ensures Cleared(a, c, stop)
  {
    forall k | |InRows(c)| <= k < |InRows(a)| ensures !stop(InRows(a)[k]) {
      assert k < |InRows(b)| ==> InRows(a)[k] == InRows(b)[k];
    }
    forall t | 0 <= t < |c| ensures Trimmed(a[t], c[t]) {
      assert Trimmed(a[t], b[t]) && Trimmed(b[t], c[t]);
    }
  }

  lemma ClearedOne<T>(rows: seq<seq<Option<T>>>, s: nat, i: nat, stop: T -> bool)
    requires s < |rows| && i < |rows[s]| && rows[s][i].Some? && !stop(rows[s][i].value)
    requires Younger(rows, s, i + 1) == []
    ensures Cleared(rows, Set(rows, s, i, None), stop)
  {
    SlotAt(rows, s, i);
    SetSlot(rows, s, i, None);
    var behind := rows[s][i + 1..];
    VacantIff(behind);
    var before, after := rows[s], rows[s][i := None];
    forall l | i < l < |before| ensures before[l] == None {
      assert before[l] == behind[l - i - 1];
    }
  }

  lemma YoungerStep<T>(rows: seq<seq<Option<T>>>, s: nat, i: nat)
    requires s < |rows| && i < |rows[s]|
    ensures Younger(rows, s, i)
            == (if rows[s][i].Some? then [rows[s][i].value] else []) + Younger(rows, s, i + 1)
  {
    assert rows[s][i..][1..] == rows[s][i + 1..];
  }

  lemma FirstStage<T>(rows: seq<seq<Option<T>>>)
    requires rows != []
    ensures Younger(rows, 0, |rows[0]|) == []
  {
  }

  lemma EmptyStage<T>(rows: seq<seq<Option<T>>>, s: nat)
    requires s < |rows| && InRow(rows[s]) == [] && Younger(rows, s, |rows[s]|) == []
    ensures Younger(rows, s, 0) == []
  {
    assert rows[s][0..] == rows[s];
  }

  lemma NextStage<T>(rows: seq<seq<Option<T>>>, s: nat)
    requires s < |rows| && Younger(rows, s, 0) == []
    ensures if s + 1 < |rows| then Younger(rows, s + 1, |rows[s + 1]|) == [] else InRows(rows) == []
  {
    if s + 1 < |rows| {
      assert rows[..s + 1] == rows[..s] + [rows[s]];
      InRowsAppend(rows[..s], [rows[s]]);
      assert rows[s][0..] == rows[s];
      assert InRows([rows[s]]) == InRows([rows[s]][1..]) + InRow(rows[s]);
    } else {
      SplitAt(rows, s, 0);
    }
  }

  lemma {:induction false} EmptyRows<T>(rows: seq<seq<Option<T>>>, s: nat)
    requires s < |rows| && InRows(rows) == []
    ensures InRow(rows[s]) == []
  {
    SplitAt(rows, s, 0);
    assert rows[s][0..] == rows[s];
  }

  /** Stages s - 1 and s have changed places. */
  ghost function Swapped<T>(rows: seq<seq<Option<T>>>, s: nat): seq<seq<Option<T>>>
    requires 0 < s < |rows|
  {
    rows[s := rows[s - 1]][s - 1 := rows[s]]
  }

  /** Stage s has taken over the first i slots of stage s - 1, and nothing else has changed. */
  ghost predicate Moving<T>(before: seq<seq<Option<T>>>, after: seq<seq<Option<T>>>, s: nat, i: nat)
    requires 0 < s < |before|
  {
    && |after| == |before| && |after[s]| == |before[s]| == |after[s - 1]| == |before[s - 1]| && i <= |after[s]|
    && Vacant(before[s])
    && (forall t :: 0 <= t < |after| && t != s && t != s - 1 ==> after[t] == before[t])
    && (forall k :: 0 <= k < i ==> after[s][k] == before[s - 1][k])
    && after[s - 1][i..] == before[s - 1][i..]
  }

  lemma MovingOn<T>(before: seq<seq<Option<T>>>, after: seq<seq<Option<T>>>, s: nat, i: nat)
    requires 0 < s < |before| && Moving(before, after, s, i) && i < |after[s]|
    ensures Moving(before, Set(Set(after, s, i, after[s - 1][i]), s - 1, i, None), s, i + 1)
  {
  }

  lemma MovedAll<T>(before: seq<seq<Option<T>>>, after: seq<seq<Option<T>>>, s: nat)
    requires 0 < s < |before| && Moving(before, after, s, |before[s]|) && Shifted(after, s, |after[s]|)
    ensures after == Swapped(before, s)
  {
    var behind := after[s - 1];
    assert behind[..|behind|] == behind && Vacant(behind);
    assert behind == before[s];
    assert after[s] == before[s - 1];
  }

  /** The row of stage t has moved down to stage h, and the rows between have moved on by one stage. */
  ghost function HoleMoved<T>(rows: seq<seq<Option<T>>>, t: nat, h: nat): (r: seq<seq<Option<T>>>)
    requires h <= t < |rows|
    ensures |r| == |rows| && r[h] == rows[t]
    ensures forall s :: 0 <= s < |r| ==> r[s] == if s == h then rows[t] else if h < s <= t then rows[s - 1] else rows[s]
  {
    rows[..h] + [rows[t]] + rows[h..t] + rows[t + 1..]
  }

  /** Stage t is empty, and no stage ahead of it is. */
  ghost predicate OldestHole<T>(rows: seq<seq<Option<T>>>, t: nat) {
    t < |rows| && Vacant(rows[t]) && forall s :: t < s < |rows| ==> !Vacant(rows[s])
  }

  /** How far a walk down the stages has come at stage s: nothing has moved as long as all stages are
      occupied; from the oldest empty stage on, everything has moved on. */
  ghost predicate Walked<T>(before: seq<seq<Option<T>>>, after: seq<seq<Option<T>>>, s: nat) {
    || (after == before && forall t :: s <= t < |before| ==> !Vacant(before[t]))
    || (exists t :: s <= t < |before| && OldestHole(before, t) && after == HoleMoved(before, t, s))
  }

  lemma WalkFrom<T>(rows: seq<seq<Option<T>>>, s: nat)
    requires s < |rows| && forall t :: s < t < |rows| ==> !Vacant(rows[t])
    ensures Walked(rows, rows, s)
  {
    if Vacant(rows[s]) {
      assert OldestHole(rows, s) && HoleMoved(rows, s, s) == rows;
    }
  }

  lemma HoleSwaps<T>(rows: seq<seq<Option<T>>>, t: nat, s: nat)
    requires 0 < s <= t < |rows|
    ensures Swapped(HoleMoved(rows, t, s), s) == HoleMoved(rows, t, s - 1)
  {
  }

  lemma WalkOn<T>(before: seq<seq<Option<T>>>, after: seq<seq<Option<T>>>, s: nat)
    requires 0 < s < |before| && Walked(before, after, s)
    ensures |after| == |before|
    ensures Walked(before, if Vacant(after[s]) then Swapped(after, s) else after, s - 1)
  {
    hide Vacant, Swapped;
    if after == before && forall t :: s <= t < |before| ==> !Vacant(before[t]) {
      WalkFrom(before, s - 1);
    } else {
      var t :| s <= t < |before| && OldestHole(before, t) && after == HoleMoved(before, t, s);
      HoleSwaps(before, t, s);
      assert after[s] == before[t];
    }
  }

  lemma Cancel<T>(a: seq<T>, b: seq<T>, c: seq<T>)
    requires a + b == a + c
    ensures b == c
  {
    assert b == (a + b)[|a|..];
  }

  lemma StillShifted<T>(r: seq<seq<Option<T>>>, s: nat, i: nat)
    requires 0 < s < |r| && i < |r[s]| == |r[s - 1]| && Shifted(r, s, i)
    ensures Shifted(Set(Set(r, s, i, r[s - 1][i]), s - 1, i, None), s, i + 1)
  {
    var t := Set(Set(r, s, i, r[s - 1][i]), s - 1, i, None);
    var ahead, behind := t[s][i + 1..], t[s - 1][..i + 1];
    forall k | 0 <= k < |ahead| ensures ahead[k] == None {
      assert ahead[k] == r[s][i..][k + 1];
    }
    forall k | 0 <= k < |behind| ensures behind[k] == None {
      assert k < i ==> behind[k] == r[s - 1][..i][k];
    }
  }

  lemma {:induction false} NothingIn<T>(rows: seq<seq<Option<T>>>)
    requires forall s :: 0 <= s < |rows| ==> InRow(rows[s]) == []
    ensures InRows(rows) == []
  {
    if rows == [] {
    } else {
      NothingIn(rows[1..]);
    }
  }

  // ---------------------------------------------------------------- sequences

  lemma Regroup<T>(a: seq<T>, b: seq<T>, c: seq<T>)
    ensures a + (b + c) == a + b + c
  {
  }

  lemma SameRest<T>(a: seq<T>, b: seq<T>, rest: seq<T>)
    requires a + rest == b + rest
    ensures a == b
  {
    assert |a| == |b|;
    assert a == (a + rest)[..|a|] && b == (b + rest)[..|a|];
  }
}
