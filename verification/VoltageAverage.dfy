/** The average supply voltage that power accounting uses (zesto-dvfs.cpp). Voltage changes are queued with
    their cycles, and a query averages over the time since the last query. */
module VoltageAverage {

  datatype Change = Change(tick: int, vdd: real)

  /** The voltage in force in cycle t: that of the last change up to t. The first one also counts for the
      time before it. */
  ghost function InForce(q: seq<Change>, t: int): real
    requires q != []
  {
    if |q| == 1 || t < q[1].tick then q[0].vdd else InForce(q[1..], t)
  }

  /** The voltage summed over the cycles from a up to b. */
  ghost function Integral(q: seq<Change>, a: int, b: int): real
    requires q != []
    decreases b - a
  {
    if b <= a then 0.0 else Integral(q, a, b - 1) + InForce(q, b - 1)
  }

  /** A voltage held for n cycles. */
  function Held(n: int, v: real): real {
    n as real * v
  }

  lemma NoTime(v: real)
    ensures Held(0, v) == 0.0
  {
  }

  lemma HeldLonger(n: int, v: real)
    ensures Held(n + 1, v) == Held(n, v) + v
  {
  }

  ghost predicate Ordered(q: seq<Change>) {
    forall i, j :: 0 <= i < j < |q| ==> q[i].tick <= q[j].tick
  }

  /** What the loop adds up: interval by interval, from a on. */
  ghost function Sweep(q: seq<Change>, a: int, b: int): real
    requires q != []
  {
    if |q| == 1 then Held(b - a, q[0].vdd)
    else Held(q[1].tick - a, q[0].vdd) + Sweep(q[1..], q[1].tick, b)
  }

  lemma {:induction false} IntegralSplit(q: seq<Change>, a: int, m: int, b: int)
    requires q != [] && a <= m <= b
    ensures Integral(q, a, b) == Integral(q, a, m) + Integral(q, m, b)
    decreases b - m
  {
    if m < b { IntegralSplit(q, a, m, b - 1); }
  }

  lemma {:induction false} IntegralConstant(q: seq<Change>, a: int, b: int, v: real)
    requires q != [] && a <= b && forall t :: a <= t < b ==> InForce(q, t) == v
    ensures Integral(q, a, b) == Held(b - a, v)
    decreases b - a
  {
    hide Held;
    if a < b {
      IntegralConstant(q, a, b - 1, v);
      HeldLonger(b - 1 - a, v);
    } else {
      NoTime(v);
    }
  }

  lemma {:induction false} IntegralSame(q: seq<Change>, r: seq<Change>, a: int, b: int)
    requires q != [] && r != [] && forall t :: a <= t < b ==> InForce(q, t) == InForce(r, t)
    ensures Integral(q, a, b) == Integral(r, a, b)
    decreases b - a
  {
    if a < b { IntegralSame(q, r, a, b - 1); }
  }

  /** The sum of the intervals is the integral of the voltage. */
  lemma {:induction false} SweepIsIntegral(q: seq<Change>, a: int, b: int)
    requires q != [] && Ordered(q) && a <= b && q[|q| - 1].tick <= b && (|q| > 1 ==> a <= q[1].tick)
    ensures Sweep(q, a, b) == Integral(q, a, b)
    decreases |q|
  {
    if |q| == 1 {
      IntegralConstant(q, a, b, q[0].vdd);
    } else {
      var m := q[1].tick;
      IntegralSplit(q, a, m, b);
      IntegralConstant(q, a, m, q[0].vdd);
      IntegralSame(q, q[1..], m, b);
      SweepIsIntegral(q[1..], m, b);
    }
  }

  lemma SweepFrom(q: seq<Change>, a: int, m: int, b: int)
    requires q != []
    ensures Sweep(q, a, b) == Held(m - a, q[0].vdd) + Sweep(q, m, b)
  {
    var e, v := if |q| == 1 then b else q[1].tick, q[0].vdd;
    assert (e - a) as real * v == (m - a) as real * v + (e - m) as real * v;
  }

  /** The mean of a voltage lies between its bounds. */
  lemma {:induction false} IntegralBounds(q: seq<Change>, a: int, b: int, lo: real, hi: real)
    requires q != [] && a <= b && forall t :: a <= t < b ==> lo <= InForce(q, t) <= hi
    ensures Held(b - a, lo) <= Integral(q, a, b) <= Held(b - a, hi)
    decreases b - a
  {
    hide Held;
    NoTime(lo);
    NoTime(hi);
    if a < b {
      IntegralBounds(q, a, b - 1, lo, hi);
      HeldLonger(b - 1 - a, lo);
      HeldLonger(b - 1 - a, hi);
    }
  }

  /** An average over n cycles lies between the least and the greatest voltage in force. */
  lemma {:induction false} AverageWithinBounds(q: seq<Change>, a: int, n: int, average: real, lo: real, hi: real)
    requires q != [] && n > 0 && Held(n, average) == Integral(q, a, a + n)
    requires forall t :: a <= t < a + n ==> lo <= InForce(q, t) <= hi
    ensures lo <= average <= hi
  {
    IntegralBounds(q, a, a + n, lo, hi);
    HeldOrders(n, lo, average);
    HeldOrders(n, average, hi);
  }

  lemma HeldOrders(n: int, x: real, y: real)
    requires n > 0 && Held(n, x) <= Held(n, y)
    ensures x <= y
  {
    assert n as real * (y - x) >= 0.0;
  }

  /** The changes before the last one up to t do not matter for t. */
  lemma {:induction false} SuffixInForce(h: seq<Change>, k: nat, t: int)
    requires k < |h| && Ordered(h) && (k == 0 || h[k].tick <= t)
    ensures InForce(h, t) == InForce(h[k..], t)
    decreases k
  {
    if k == 0 {
    } else {
      SuffixInForce(h[1..], k - 1, t);
      assert h[1..][k - 1..] == h[k..];
      assert h[1].tick <= h[k].tick;
    }
  }

  /** A later change does not matter for earlier cycles. */
  lemma {:induction false} LaterChange(h: seq<Change>, c: Change, t: int)
    requires h != [] && t < c.tick && Ordered(h + [c])
    ensures InForce(h + [c], t) == InForce(h, t)
    decreases |h|
  {
    var hc := h + [c];
    if |h| > 1 {
      assert hc[1..] == h[1..] + [c] && hc[1] == h[1];
      if t >= h[1].tick { LaterChange(h[1..], c, t); }
    } else {
      assert hc[1] == c && hc[0] == h[0];
    }
  }

  /** The change joins the history and the queue. */
  lemma LaterInQueue(h: seq<Change>, q: seq<Change>, last: int, c: Change)
    requires |q| <= |h| && q == h[|h| - |q|..] && last <= c.tick
    requires forall k :: 0 <= k < |h| ==> h[k].tick <= c.tick
    requires forall k :: 0 < k < |q| ==> last <= q[k].tick
    ensures q + [c] == (h + [c])[|h + [c]| - |q + [c]|..]
    ensures forall k :: 0 <= k < |h + [c]| ==> (h + [c])[k].tick <= c.tick
    ensures forall k :: 0 < k < |q + [c]| ==> last <= (q + [c])[k].tick
  {
  }

  class VfController {
    var voltages: seq<Change>
    var vdd: real
    var lastPowerComputation: int

    ghost var history: seq<Change>  // all changes so far
    ghost var start: int            // where accounting began
    ghost var charged: real         // what the answers so far amount to: mean times cycles, summed

    /** The queue q holds the changes of the history h that matter from the last query on. */
    ghost predicate Accounts(h: seq<Change>, q: seq<Change>, now: int)
      reads this`start, this`lastPowerComputation, this`charged
    {
      && start <= lastPowerComputation <= now && Ordered(h)
      && |q| <= |h| && q == h[|h| - |q|..] && (h != [] ==> q != [])
      && (forall k :: 0 <= k < |h| ==> h[k].tick <= now)
      && (forall k :: 0 < k < |q| ==> lastPowerComputation <= q[k].tick)
      && (|q| < |h| ==> q[0].tick <= lastPowerComputation)
      && (h == [] ==> start == lastPowerComputation)
      && charged == if h == [] then 0.0 else Integral(h, start, lastPowerComputation)
    }

    ghost predicate Valid(now: int)
      reads this
    {
      Accounts(history, voltages, now)
    }

    constructor (vdd: real, lastPowerComputation: int)
      ensures forall now :: lastPowerComputation <= now ==> Valid(now)
      ensures history == [] && start == lastPowerComputation == this.lastPowerComputation && this.vdd == vdd && charged == 0.0
    {
      this.vdd, this.lastPowerComputation := vdd, lastPowerComputation;
      voltages, history, start, charged := [], [], lastPowerComputation, 0.0;
    }

    /** The current voltage is recorded. */
    method ChangeVf(now: int)
      requires Valid(now)
      modifies this`voltages, this`history
      ensures Valid(now) && history == old(history) + [Change(now, vdd)]
    {
      hide Accounts;
      ghost var h, q := history, voltages;
      voltages := voltages + [Change(now, vdd)];
      history := history + [Change(now, vdd)];
      AfterChange(now, h, q);
    }

    lemma AfterChange(now: int, h: seq<Change>, q: seq<Change>)
      requires Accounts(h, q, now) && history == h + [Change(now, vdd)] && voltages == q + [Change(now, vdd)]
      ensures Valid(now)
    {
      hide Ordered, Integral;
      var c := Change(now, vdd);
      ChangeKeepsIntegral(h, c, start, lastPowerComputation);
      LaterInQueue(h, q, lastPowerComputation, c);
    }

    /** Empties the queue up to the voltage in force and adds up the voltage since the last query. */
    method Drain(now: int) returns (sum: real)
      requires voltages != []
      modifies this`voltages
      ensures sum == Sweep(old(voltages), lastPowerComputation, now)
      ensures voltages == [old(voltages)[|old(voltages)| - 1]]
    {
      hide Sweep, Held;
      ghost var queue, last := voltages, lastPowerComputation;
      var curr := voltages[0];
      SweepFrom(queue, last, curr.tick, now);
      sum := Held(curr.tick - lastPowerComputation, curr.vdd);
      while |voltages| > 1
        invariant voltages != [] && |voltages| <= |queue| && voltages == queue[|queue| - |voltages|..]
        invariant curr == voltages[0] && sum + Sweep(voltages, curr.tick, now) == Sweep(queue, last, now)
        decreases |voltages|
      {
        SweepStep(voltages, now);
        voltages := voltages[1..];
        var next := voltages[0];
        sum := sum + Held(next.tick - curr.tick, curr.vdd);
        curr := next;
      }
      SweepStep(voltages, now);
      curr := voltages[0];
      sum := sum + Held(now - curr.tick, curr.vdd);
    }

    /** The average voltage since the last query: over the cycles since then, the mean of the voltage in
        force. */
    method GetAverageVdd(now: int) returns (average: real)
      requires Valid(now)
      modifies this`voltages, this`lastPowerComputation, this`start, this`charged
      ensures Valid(now) && lastPowerComputation == now && history == old(history)
      ensures history == [] || old(lastPowerComputation) == now ==> average == vdd
      ensures history != [] ==> start == old(start)
      ensures history != [] && old(lastPowerComputation) < now ==>
        Held(now - old(lastPowerComputation), average) == Integral(history, old(lastPowerComputation), now)
      ensures history != [] ==> charged == old(charged) + Held(now - old(lastPowerComputation), average)
    {
      hide Valid, Accounts, Ordered, InForce, Integral, Sweep, Held, Mean;
      average := vdd;
      NoTime(average);
      if voltages == [] {
        NothingRecorded(now);
        lastPowerComputation, start := now, now;
        EmptyValid(now);
        return;
      }
      SinceLast(now);
      if lastPowerComputation == now {
        return;
      }
      var sum := Drain(now);
      average := Mean(sum, now - lastPowerComputation);
      MeanTimesCycles(sum, now - lastPowerComputation);
      lastPowerComputation := now;
      charged := charged + sum;
      AnsweredValid(now);
    }

    lemma NothingRecorded(now: int)
      requires Valid(now) && voltages == []
      ensures history == [] && charged == 0.0
    {
    }

    lemma EmptyValid(now: int)
      requires history == [] && voltages == [] && charged == 0.0 && lastPowerComputation == start == now
      ensures Valid(now)
    {
    }

    /** What the queue says about the time since the last query. */
    lemma SinceLast(now: int)
      requires Valid(now) && voltages != []
      ensures history != [] && voltages[|voltages| - 1] == history[|history| - 1]
      ensures Ordered(history) && forall k :: 0 <= k < |history| ==> history[k].tick <= now
      ensures start <= lastPowerComputation <= now
      ensures Sweep(voltages, lastPowerComputation, now) == Integral(history, lastPowerComputation, now)
      ensures charged + Integral(history, lastPowerComputation, now) == Integral(history, start, now)
    {
      hide InForce, Integral, Sweep, Held;
      QueueIntegral(history, voltages, lastPowerComputation, now);
      IntegralSplit(history, start, lastPowerComputation, now);
    }

    lemma AnsweredValid(now: int)
      requires history != [] && voltages == [history[|history| - 1]] && start <= lastPowerComputation == now
      requires Ordered(history) && forall k :: 0 <= k < |history| ==> history[k].tick <= now
      requires charged == Integral(history, start, now)
      ensures Valid(now)
    {
    }
  }

  function Mean(sum: real, n: int): real
    requires n > 0
  {
    sum / n as real
  }

  lemma MeanTimesCycles(sum: real, n: int)
    requires n > 0
    ensures Held(n, Mean(sum, n)) == sum
  {
  }

  lemma SweepStep(q: seq<Change>, b: int)
    requires q != []
    ensures Sweep(q, q[0].tick, b)
            == if |q| == 1 then Held(b - q[0].tick, q[0].vdd)
               else Held(q[1].tick - q[0].tick, q[0].vdd) + Sweep(q[1..], q[1].tick, b)
  {
  }

  /** What is left in the queue decides the voltage since the last query. */
  lemma QueueIntegral(h: seq<Change>, q: seq<Change>, last: int, now: int)
    requires h != [] && 0 < |q| <= |h| && q == h[|h| - |q|..] && Ordered(h) && last <= now
    requires forall k :: 0 <= k < |h| ==> h[k].tick <= now
    requires forall k :: 0 < k < |q| ==> last <= q[k].tick
    requires |q| < |h| ==> q[0].tick <= last
    ensures Sweep(q, last, now) == Integral(h, last, now)
  {
    var k := |h| - |q|;
    forall t | last <= t < now ensures InForce(h, t) == InForce(q, t) {
      SuffixInForce(h, k, t);
    }
    IntegralSame(h, q, last, now);
    SweepIsIntegral(q, last, now);
  }

  /** A change does not alter the past. */
  lemma ChangeKeepsIntegral(h: seq<Change>, c: Change, a: int, b: int)
    requires Ordered(h) && a <= b <= c.tick && forall k :: 0 <= k < |h| ==> h[k].tick <= c.tick
    ensures Ordered(h + [c])
    ensures h != [] ==> Integral(h + [c], a, b) == Integral(h, a, b)
    ensures a == b ==> Integral(h + [c], a, b) == 0.0
  {
    if h != [] {
      forall t | a <= t < b ensures InForce(h + [c], t) == InForce(h, t) {
        LaterChange(h, c, t);
      }
      IntegralSame(h + [c], h, a, b);
    }
  }

  /** Sampling does not matter: however often the average is asked for, means times cycles add up to the same
      integral. */
  lemma SamplingDoesNotMatter(fine: VfController, coarse: VfController, now: int)
    requires fine.Valid(now) && coarse.Valid(now) && fine.history == coarse.history && fine.history != []
    requires fine.start == coarse.start && fine.lastPowerComputation == coarse.lastPowerComputation == now
    ensures fine.charged == coarse.charged == Integral(fine.history, fine.start, now)
  {
  }
}
