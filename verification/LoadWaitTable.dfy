/** The load wait table (memdep-lwt.cpp): bits that are set by ordering violations and cleared every
    reset interval, but only when the table is next used. */
module LoadWaitTable {

  datatype Hit = Hit(index: nat, cycle: int)

  /** The reset interval that a cycle belongs to. */
  ghost function Epoch(cycle: int, interval: int): int
    requires interval > 0
  {
    cycle / interval
  }

  lemma EpochIs(cycle: int, interval: int, k: int)
    requires interval > 0 && k * interval <= cycle < k * interval + interval
    ensures Epoch(cycle, interval) == k
  {
    var q, r := cycle / interval, cycle % interval;
    assert cycle == q * interval + r;
    if q < k { Multiples(q, k, interval); }
    if k < q { Multiples(k, q, interval); }
  }

  lemma {:induction false} Multiples(x: int, y: int, interval: int)
    requires x < y && interval > 0
    ensures x * interval + interval <= y * interval
    decreases y - x
  {
    assert (x + 1) * interval == x * interval + interval;
    if x + 1 < y {
      Multiples(x, y - 1, interval);
      assert y * interval == (y - 1) * interval + interval;
    }
  }

  /** Where an interval begins. */
  lemma EpochStart(cycle: int, interval: int)
    requires interval > 0 && 0 <= cycle
    ensures var s := cycle - cycle % interval;
            0 <= s <= cycle && s % interval == 0 && Epoch(s, interval) == Epoch(cycle, interval)
  {
    var k := cycle / interval;
    var s := cycle - cycle % interval;
    assert s == k * interval;
    EpochIs(s, interval, k);
    assert s % interval == s - Epoch(s, interval) * interval;
  }

  lemma EpochSince(start: int, cycle: int, interval: int)
    requires interval > 0 && 0 <= start <= cycle && start % interval == 0
    ensures cycle - start < interval ==> Epoch(cycle, interval) == Epoch(start, interval)
    ensures cycle - start >= interval ==> Epoch(cycle, interval) > Epoch(start, interval)
  {
    var k := start / interval;
    assert start == k * interval;
    if cycle - start < interval {
      EpochIs(cycle, interval, k);
    } else {
      var q := cycle / interval;
      assert cycle == q * interval + cycle % interval;
      assert q <= k ==> q * interval <= k * interval;
    }
  }

  /** The table that is cleared at every multiple of the interval: bit i is set if a violation has set it in
      the interval of the given cycle. */
  ghost predicate SetInEpoch(hits: seq<Hit>, i: nat, cycle: int, interval: int)
    requires interval > 0
  {
    exists k :: 0 <= k < |hits| && hits[k].index == i && Epoch(hits[k].cycle, interval) == Epoch(cycle, interval)
  }

  class Lwt {
    const table: array<bool>
    const resetInterval: int
    var lastReset: int

    ghost var hits: seq<Hit>  // all updates so far

    /** The state after uses up to a cycle. */
    ghost predicate Valid(cycle: int)
      reads this, table
    {
      && resetInterval > 0 && table.Length > 0 && 0 <= lastReset <= cycle && lastReset % resetInterval == 0
      && (forall k :: 0 <= k < |hits| ==> 0 <= hits[k].cycle <= cycle && Epoch(hits[k].cycle, resetInterval) <= Epoch(lastReset, resetInterval))
      && forall i :: 0 <= i < table.Length ==> (table[i] <==> SetInEpoch(hits, i, lastReset, resetInterval))
    }

    constructor (numEntries: nat, interval: int)
      requires numEntries > 0 && interval > 0
      ensures forall cycle :: 0 <= cycle ==> Valid(cycle)
      ensures fresh(table) && table.Length == numEntries && resetInterval == interval && hits == []
    {
      table := new bool[numEntries](_ => false);
      resetInterval, lastReset, hits := interval, 0, [];
    }

    /** Clears the table if an interval has ended since it was last cleared. */
    method Refresh(cycle: int)
      requires Valid(cycle)
      modifies this`lastReset, table
      ensures Valid(cycle) && Epoch(lastReset, resetInterval) == Epoch(cycle, resetInterval)
    {
      hide Epoch;
      EpochSince(lastReset, cycle, resetInterval);
      EpochStart(cycle, resetInterval);
      if cycle - lastReset >= resetInterval {
        forall i | 0 <= i < table.Length {
          table[i] := false;
        }
        lastReset := cycle - cycle % resetInterval;
      }
    }

    /** A load waits for an unknown store address if its bit was set in the current interval, however long ago
        the table was last used. */
    method Lookup(index: nat, cycle: int, staUnknown: bool) returns (go: bool)
      requires Valid(cycle) && index < table.Length
      modifies this`lastReset, table
      ensures Valid(cycle) && go == (SetInEpoch(hits, index, cycle, resetInterval) ==> !staUnknown)
    {
      hide Epoch;
      Refresh(cycle);
      if table[index] {
        return !staUnknown;
      } else {
        return true;
      }
    }

    method Update(index: nat, cycle: int)
      requires Valid(cycle) && index < table.Length
      modifies this`lastReset, this`hits, table
      ensures Valid(cycle) && hits == old(hits) + [Hit(index, cycle)]
    {
      hide Epoch, SetInEpoch;
      Refresh(cycle);
      OneMoreHit(hits, Hit(index, cycle), lastReset, resetInterval);
      table[index] := true;
      hits := hits + [Hit(index, cycle)];
    }
  }

  lemma OneMoreHit(hits: seq<Hit>, h: Hit, cycle: int, interval: int)
    requires interval > 0 && Epoch(h.cycle, interval) == Epoch(cycle, interval)
    ensures forall i :: SetInEpoch(hits + [h], i, cycle, interval) <==> SetInEpoch(hits, i, cycle, interval) || i == h.index
  {
    var more := hits + [h];
    forall i: nat ensures SetInEpoch(more, i, cycle, interval) <==> SetInEpoch(hits, i, cycle, interval) || i == h.index {
      if SetInEpoch(hits, i, cycle, interval) {
        var k :| 0 <= k < |hits| && hits[k].index == i && Epoch(hits[k].cycle, interval) == Epoch(cycle, interval);
        assert more[k] == hits[k];
      }
      if i == h.index { assert more[|hits|] == h; }
    }
  }
}
