/** The ticket lock of synchronization.h, as a state machine over the atomic steps of its threads.

    The lock word holds the next ticket in its upper 16 bits and the ticket being served in its
    lower 16 bits. `lock` is one atomic fetch-and-add followed by a spin loop; `unlock` increments the
    lower half without a lock prefix, so its read and its write are separate steps here. */
module TicketLock {

  const HALF := 0x1_0000
  const WORD := 0x1_0000_0000

  /** Where a thread stands. A spinning thread keeps its ticket and the copy of the lower half that
      it saw last; a releasing thread keeps the lower half that its increment has read. */
  datatype Pc =
    | Idle
    | Spinning(ticket: nat, seen: nat)
    | Holding
    | Releasing(low: nat)
  {
    predicate InCriticalSection() {
      Holding? || Releasing?
    }
  }

  /** `v` and `pcs` are the machine; the rest is history: who took tickets and who entered, in order,
      and how many unlocks have completed. */
  datatype State = State(v: nat, pcs: seq<Pc>, arrivals: seq<nat>, entries: seq<nat>, releases: nat)

  function Ticket(v: nat): nat { v / HALF }

  function Serving(v: nat): nat { v % HALF }

  function Init(threads: nat): State {
    State(0, seq(threads, _ => Idle), [], [], 0)
  }

  /** The one step that thread t can take. */
  function Next(s: State, t: nat): State
    requires t < |s.pcs|
  {
    match s.pcs[t]
    case Idle =>  // lock xaddl, then the copy of the lower half of the value it returned
      s.(v := (s.v + HALF) % WORD,
         pcs := s.pcs[t := Spinning(Ticket(s.v), Serving(s.v))],
         arrivals := s.arrivals + [t])
    case Spinning(ticket, seen) =>
      if ticket == seen then s.(pcs := s.pcs[t := Holding], entries := s.entries + [t])
      else s.(pcs := s.pcs[t := Spinning(ticket, Serving(s.v))])
    case Holding =>  // incw, reading half
      s.(pcs := s.pcs[t := Releasing(Serving(s.v))])
    case Releasing(low) =>  // incw, writing half
      s.(v := Ticket(s.v) * HALF + (low + 1) % HALF,
         pcs := s.pcs[t := Idle],
         releases := s.releases + 1)
  }

  ghost predicate IsSchedule(threads: nat, schedule: seq<nat>) {
    forall i :: 0 <= i < |schedule| ==> schedule[i] < threads
  }

  /** The state after an interleaving: schedule[i] names the thread that takes step i. */
  ghost function Exec(threads: nat, schedule: seq<nat>): (s: State)
    requires IsSchedule(threads, schedule)
    ensures |s.pcs| == threads
  {
    if schedule == [] then Init(threads)
    else
      var before := schedule[..|schedule| - 1];
      assert IsSchedule(threads, before);
      Next(Exec(threads, before), schedule[|schedule| - 1])
  }

  ghost predicate MutualExclusion(s: State) {
    forall t, u :: 0 <= t < u < |s.pcs| ==>
      !(s.pcs[t].InCriticalSection() && s.pcs[u].InCriticalSection())
  }

  /** Threads enter in the order in which their fetch-and-adds were performed. */
  ghost predicate FirstComeFirstServed(s: State) {
    |s.entries| <= |s.arrivals| && s.entries == s.arrivals[..|s.entries|]
  }

  // ---------------------------------------------------------------- the invariant

  /** What is known of the thread that took ticket number i (counted without wrap-around). */
  ghost predicate Waiter(s: State, i: nat)
    requires i < |s.arrivals|
  {
    var t := s.arrivals[i];
    && t < |s.pcs|
    && if i < |s.entries|
       then s.pcs[t] == Holding || s.pcs[t] == Releasing(Serving(s.v))
       else s.pcs[t].Spinning? && s.pcs[t].ticket == i % HALF
            && (s.pcs[t].seen == s.pcs[t].ticket ==> i == s.releases)
  }

  ghost predicate Inv(s: State) {
    && s.v < WORD
    && Ticket(s.v) == |s.arrivals| % HALF
    && Serving(s.v) == s.releases % HALF
    && s.releases <= |s.entries| <= s.releases + 1
    && FirstComeFirstServed(s)
    && (forall i :: s.releases <= i < |s.arrivals| ==> Waiter(s, i))
    && (forall i, j :: s.releases <= i < j < |s.arrivals| ==> s.arrivals[i] != s.arrivals[j])
    && (forall t :: 0 <= t < |s.pcs| && t !in s.arrivals[s.releases..] ==> s.pcs[t] == Idle)
  }

  /** Distinct numbers below n are at most n many. */
  lemma {:induction false} Pigeonhole(q: seq<nat>, n: nat)
    requires forall i :: 0 <= i < |q| ==> q[i] < n
    requires forall i, j :: 0 <= i < j < |q| ==> q[i] != q[j]
    ensures |q| <= n
  {
    if q == [] {
    } else {
      assert 0 <= q[0] < n;
      if n - 1 in q {
        var k :| 0 <= k < |q| && q[k] == n - 1;
        Pigeonhole(q[..k] + q[k + 1..], n - 1);
      } else {
        Pigeonhole(q, n - 1);
      }
    }
  }

  lemma NextTicket(n: nat)
    ensures (n + 1) % HALF == if n % HALF == HALF - 1 then 0 else n % HALF + 1
  {
    if n % HALF == HALF - 1 {
      assert n + 1 == (n / HALF + 1) * HALF;
    } else {
      assert n + 1 == n / HALF * HALF + (n % HALF + 1);
    }
  }

  /** Moves the upper half on by one. */
  lemma {:induction false} TakeTicket(v: nat, taken: nat)
    requires v < WORD && Ticket(v) == taken % HALF
    ensures var w := (v + HALF) % WORD;
            w < WORD && Ticket(w) == (taken + 1) % HALF && Serving(w) == Serving(v)
  {
    var h, l := Ticket(v), Serving(v);
    NextTicket(taken);
    if h == HALF - 1 {
      assert v + HALF == WORD + l;
    } else {
      assert v + HALF == (h + 1) * HALF + l;
    }
  }

  /** Numbers less than 65536 apart have the same ticket only if they are equal. */
  lemma {:induction false} TicketsDistinct(i: nat, j: nat)
    requires i <= j < i + HALF && i % HALF == j % HALF
    ensures i == j
  {
    assert j == j / HALF * HALF + i % HALF && i == i / HALF * HALF + i % HALF;
  }

  /** Every thread between lock and unlock has its own ticket, so fewer than 65536 wait besides an
      idle one. */
  lemma {:induction false} LiveTickets(s: State)
    requires Inv(s)
    ensures |s.arrivals| - s.releases <= |s.pcs|
    ensures forall t :: 0 <= t < |s.pcs| && s.pcs[t] == Idle ==> |s.arrivals| - s.releases < |s.pcs|
  {
    var live := s.arrivals[s.releases..];
    forall j | 0 <= j < |live| ensures live[j] < |s.pcs| && s.pcs[live[j]] != Idle {
      assert Waiter(s, s.releases + j);
    }
    Pigeonhole(live, |s.pcs|);
    forall t | 0 <= t < |s.pcs| && s.pcs[t] == Idle ensures |live| < |s.pcs| {
      Pigeonhole(live + [t], |s.pcs|);
    }
  }

  /** One step of any thread keeps the invariant, as long as tickets cannot collide. */
  lemma {:induction false} StepKeepsInv(s: State, t: nat)
    requires Inv(s) && t < |s.pcs| && |s.pcs| <= HALF
    ensures Inv(Next(s, t))
  {
    match s.pcs[t]
    case Idle => AcquireKeepsInv(s, t);
    case Spinning(_, _) => SpinKeepsInv(s, t);
    case Holding => SpinKeepsInv(s, t);
    case Releasing(_) => ReleaseKeepsInv(s, t);
  }

  lemma {:induction false} AcquireKeepsInv(s: State, t: nat)
    requires Inv(s) && t < |s.pcs| && |s.pcs| <= HALF && s.pcs[t] == Idle
    ensures Inv(Next(s, t))
  {
    var n := |s.arrivals|;
    LiveTickets(s);
    TakeTicket(s.v, n);
    assert Ticket(s.v) == Serving(s.v) ==> s.releases == n by {
      if Ticket(s.v) == Serving(s.v) { TicketsDistinct(s.releases, n); }
    }
    var s' := Next(s, t);
    assert forall j :: s.releases <= j < n ==> s.arrivals[j] != t by {
      forall j | s.releases <= j < n ensures s.arrivals[j] != t { assert Waiter(s, j); }
    }
    forall j | s.releases <= j <= n ensures Waiter(s', j) {
      if j < n { assert Waiter(s, j); }
    }
    assert s'.arrivals[s'.releases..] == s.arrivals[s.releases..] + [t];
  }

  /** The position in the arrival order of a thread that is not idle. */
  lemma {:induction false} TicketOf(s: State, t: nat) returns (i: nat)
    requires Inv(s) && t < |s.pcs| && s.pcs[t] != Idle
    ensures s.releases <= i < |s.arrivals| && s.arrivals[i] == t && Waiter(s, i)
    ensures forall j :: s.releases <= j < |s.arrivals| && j != i ==> s.arrivals[j] != t
    ensures s.pcs[t].InCriticalSection() ==> i == s.releases < |s.entries|
  {
    var live := s.arrivals[s.releases..];
    var k :| 0 <= k < |live| && live[k] == t;
    i := s.releases + k;
  }

  lemma {:induction false} SpinKeepsInv(s: State, t: nat)
    requires Inv(s) && t < |s.pcs| && |s.pcs| <= HALF && (s.pcs[t].Spinning? || s.pcs[t].Holding?)
    ensures Inv(Next(s, t))
  {
    var s' := Next(s, t);
    var i := TicketOf(s, t);
    LiveTickets(s);
    if s.pcs[t].Spinning? && s.releases % HALF == i % HALF {
      TicketsDistinct(s.releases, i);
    }
    if s'.entries != s.entries {
      assert i == s.releases;
      assert i == |s.entries|;
    }
    forall j | s'.releases <= j < |s'.arrivals| ensures Waiter(s', j) {
      assert Waiter(s, j);
    }
  }

  lemma {:induction false} ServeNext(v: nat, releases: nat)
    requires v < WORD && Serving(v) == releases % HALF
    ensures var w := Ticket(v) * HALF + (Serving(v) + 1) % HALF;
            w < WORD && Ticket(w) == Ticket(v) && Serving(w) == (releases + 1) % HALF
  {
  }

  lemma {:induction false} ReleaseKeepsInv(s: State, t: nat)
    requires Inv(s) && t < |s.pcs| && |s.pcs| <= HALF && s.pcs[t].Releasing?
    ensures Inv(Next(s, t))
  {
    var s' := Next(s, t);
    var i := TicketOf(s, t);
    ServeNext(s.v, s.releases);
    forall j | s'.releases <= j < |s'.arrivals| ensures Waiter(s', j) {
      assert Waiter(s, j);
    }
    assert s.arrivals[s.releases..] == [t] + s'.arrivals[s'.releases..];
  }

  lemma {:induction false} ExecInv(threads: nat, schedule: seq<nat>)
    requires IsSchedule(threads, schedule) && threads <= HALF
    ensures Inv(Exec(threads, schedule))
  {
    if schedule == [] {
    } else {
      var before := schedule[..|schedule| - 1];
      ExecInv(threads, before);
      StepKeepsInv(Exec(threads, before), schedule[|schedule| - 1]);
    }
  }

  lemma {:induction false} InvIsSafe(s: State)
    requires Inv(s)
    ensures MutualExclusion(s) && FirstComeFirstServed(s)
  {
    forall t, u | 0 <= t < u < |s.pcs|
      ensures !(s.pcs[t].InCriticalSection() && s.pcs[u].InCriticalSection())
    {
      if s.pcs[t].InCriticalSection() && s.pcs[u].InCriticalSection() {
        var i := TicketOf(s, t);
        var j := TicketOf(s, u);
      }
    }
  }

  // ---------------------------------------------------------------- too many threads

  /** Threads 0, 1, ..., k-1 take a ticket each, in this order. */
  ghost function Arrivals(k: nat): (schedule: seq<nat>)
    ensures |schedule| == k
    ensures forall i :: 0 <= i < k ==> schedule[i] == i
  {
    seq(k, i => i)
  }

  lemma {:induction false} NextArrival(k: nat)
    ensures var v := k % HALF * HALF;
            Ticket(v) == k % HALF && Serving(v) == 0 && (v + HALF) % WORD == (k + 1) % HALF * HALF
  {
    if k % HALF == HALF - 1 {
      assert k + 1 == (k / HALF + 1) * HALF;
    } else {
      assert k + 1 == k / HALF * HALF + (k % HALF + 1);
    }
  }

  lemma {:induction false} AfterArrivals(threads: nat, k: nat)
    requires k <= threads
    ensures var s := Exec(threads, Arrivals(k));
            && s.v == k % HALF * HALF && |s.pcs| == threads
            && (forall i :: 0 <= i < k ==> s.pcs[i] == Spinning(i % HALF, 0))
            && (forall i :: k <= i < threads ==> s.pcs[i] == Idle)
  {
    if k == 0 {
    } else {
      AfterArrivals(threads, k - 1);
      assert Arrivals(k)[..k - 1] == Arrivals(k - 1);
      NextArrival(k - 1);
    }
  }

  /** With one thread more than there are tickets, the first and the last ticket are equal and both
      of their holders enter. */
  lemma {:induction false} TicketCollision(threads: nat) returns (schedule: seq<nat>)
    requires threads > HALF
    ensures IsSchedule(threads, schedule) && !MutualExclusion(Exec(threads, schedule))
  {
    var all := Arrivals(HALF + 1);
    AfterArrivals(threads, HALF + 1);
    var one := all + [0];
    schedule := one + [HALF];
    assert one[..|one| - 1] == all && schedule[..|schedule| - 1] == one;
    var s0 := Exec(threads, all);
    var s := Exec(threads, schedule);
    assert Exec(threads, one) == Next(s0, 0);
    assert s.pcs[0] == Holding && s.pcs[HALF] == Holding;
  }

  // ---------------------------------------------------------------- main results

  /** Every interleaving of up to 65536 threads is mutually exclusive and first come, first served,
      through any number of wrap-arounds and with the unlock increment split in two. */
  lemma LockIsSafe(threads: nat, schedule: seq<nat>)
    requires IsSchedule(threads, schedule) && threads <= HALF
    ensures MutualExclusion(Exec(threads, schedule))
    ensures FirstComeFirstServed(Exec(threads, schedule))
  {
    ExecInv(threads, schedule);
    InvIsSafe(Exec(threads, schedule));
  }

  /** The bound on the number of threads is exact. */
  lemma SafeExactlyUpTo65536Threads(threads: nat)
    ensures (forall schedule :: IsSchedule(threads, schedule) ==> MutualExclusion(Exec(threads, schedule)))
            <==> threads <= HALF
  {
    if threads <= HALF {
      forall schedule | IsSchedule(threads, schedule) ensures MutualExclusion(Exec(threads, schedule)) {
        LockIsSafe(threads, schedule);
      }
    } else {
      var schedule := TicketCollision(threads);
    }
  }

  // ---------------------------------------------------------------- progress

  lemma LastStep(threads: nat, before: seq<nat>, more: seq<nat>)
    requires IsSchedule(threads, before + more) && more != []
    ensures var m, t := more[..|more| - 1], more[|more| - 1];
            && IsSchedule(threads, before + m) && t < threads && more == m + [t]
            && Exec(threads, before + more) == Next(Exec(threads, before + m), t)
  {
    hide Next;
    var m, t, all := more[..|more| - 1], more[|more| - 1], before + more;
    assert more == m + [t];
    SchedulePrefix(threads, before, m, t);
    assert all[..|all| - 1] == before + m && all[|all| - 1] == t;
  }

  lemma SchedulePrefix(threads: nat, before: seq<nat>, m: seq<nat>, t: nat)
    requires IsSchedule(threads, before + (m + [t]))
    ensures IsSchedule(threads, before + m) && t < threads
  {
    var all := before + (m + [t]);
    assert all[|all| - 1] == t;
    forall i | 0 <= i < |before + m| ensures (before + m)[i] < threads {
      assert (before + m)[i] == all[i];
    }
  }

  lemma StepExtends(s: State, t: nat)
    requires t < |s.pcs|
    ensures var s' := Next(s, t);
            s.arrivals <= s'.arrivals && s.entries <= s'.entries && s.releases <= s'.releases
  {
  }

  lemma {:induction false} HistoryGrows(threads: nat, before: seq<nat>, more: seq<nat>)
    requires IsSchedule(threads, before) && IsSchedule(threads, before + more)
    ensures var s, s' := Exec(threads, before), Exec(threads, before + more);
            s.arrivals <= s'.arrivals && s.entries <= s'.entries && s.releases <= s'.releases
  {
    hide Exec, Next;
    if more == [] {
      assert before + more == before;
    } else {
      var m := more[..|more| - 1];
      LastStep(threads, before, more);
      HistoryGrows(threads, before, m);
      StepExtends(Exec(threads, before + m), more[|more| - 1]);
    }
  }

  /** It is thread t's turn: among those that have not unlocked since their last fetch-and-add, it was the first. */
  predicate Turn(s: State, t: nat) {
    s.releases < |s.arrivals| && s.arrivals[s.releases] == t
  }

  /** How many of the steps are made by the thread whose turn it is just then. */
  ghost function TurnSteps(threads: nat, before: seq<nat>, more: seq<nat>): nat
    requires IsSchedule(threads, before) && IsSchedule(threads, before + more)
    decreases |more|
  {
    if more == [] then 0
    else
      var m := more[..|more| - 1];
      assert forall i :: 0 <= i < |before + m| ==> (before + m)[i] == (before + more)[i];
      TurnSteps(threads, before, m) + if Turn(Exec(threads, before + m), more[|more| - 1]) then 1 else 0
  }

  /** The steps a thread has left until it is no longer its turn: seeing its ticket served, entering, and the two
      halves of the increment. */
  function StepsLeft(pc: Pc): nat {
    match pc
    case Idle => 0
    case Spinning(ticket, seen) => if ticket == seen then 3 else 4
    case Holding => 2
    case Releasing(_) => 1
  }

  /** How many turn steps the taker of ticket i waits at most. */
  ghost function Wait(s: State, i: nat): nat
    requires Inv(s) && i < |s.arrivals|
  {
    if i < |s.entries| then 0
    else
      assert Waiter(s, s.releases);
      4 * (i - s.releases) + StepsLeft(s.pcs[s.arrivals[s.releases]]) - 2
  }

  lemma {:induction false} TurnCosts(s: State, t: nat, i: nat)
    requires Inv(s) && t < |s.pcs| <= HALF && i < |s.arrivals| && Inv(Next(s, t))
    ensures i < |Next(s, t).arrivals| && Wait(Next(s, t), i) <= Wait(s, i)
    ensures Turn(s, t) && Wait(s, i) > 0 ==> Wait(Next(s, t), i) < Wait(s, i)
  {
    var s' := Next(s, t);
    if |s.entries| <= i {
      assert Waiter(s, s.releases);
      if s.pcs[t] != Idle {
        var k := TicketOf(s, t);
      }
      if |s'.entries| <= i {
        assert Waiter(s', s'.releases);
      }
    }
  }

  lemma {:induction false} WaitShrinks(threads: nat, before: seq<nat>, more: seq<nat>, i: nat)
    requires IsSchedule(threads, before) && IsSchedule(threads, before + more) && threads <= HALF
    requires i < |Exec(threads, before).arrivals|
    ensures var s, s' := Exec(threads, before), Exec(threads, before + more);
            && Inv(s) && Inv(s') && i < |s'.arrivals|
            && (Wait(s', i) == 0 || Wait(s', i) + TurnSteps(threads, before, more) <= Wait(s, i))
  {
    hide Exec, Next, Inv, Wait, Turn;
    ExecInv(threads, before);
    if more == [] {
      assert before + more == before;
    } else {
      var m := more[..|more| - 1];
      LastStep(threads, before, more);
      WaitShrinks(threads, before, m, i);
      var s, t := Exec(threads, before + m), more[|more| - 1];
      StepKeepsInv(s, t);
      TurnCosts(s, t, i);
    }
  }

  lemma WaitsAtMost(s: State, i: nat)
    requires Inv(s) && s.releases <= i < |s.arrivals|
    ensures Wait(s, i) <= 4 * (i - s.releases) + 2
  {
  }

  lemma NobodyWaitsForNothing(s: State, i: nat)
    requires Inv(s) && i < |s.arrivals| && Wait(s, i) == 0
    ensures i < |s.entries|
  {
    assert |s.entries| <= i ==> Waiter(s, s.releases);
  }

  lemma EntryIsArrival(s: State, i: nat)
    requires Inv(s) && i < |s.entries|
    ensures i < |s.arrivals| && s.entries[i] == s.arrivals[i]
  {
  }

  /** Nobody starves: in every schedule of up to 65536 threads, whoever waits behind k others enters before the
      threads whose turn it is have made 4 * k + 2 steps. */
  lemma BoundedWait(threads: nat, before: seq<nat>, more: seq<nat>, i: nat)
    requires IsSchedule(threads, before) && IsSchedule(threads, before + more) && threads <= HALF
    requires Exec(threads, before).releases <= i < |Exec(threads, before).arrivals|
    requires TurnSteps(threads, before, more) >= 4 * (i - Exec(threads, before).releases) + 2
    ensures var s, s' := Exec(threads, before), Exec(threads, before + more);
            i < |s'.entries| && s'.entries[i] == s.arrivals[i]
  {
    var s, s' := Exec(threads, before), Exec(threads, before + more);
    hide Exec, Next, Inv, Wait;
    WaitShrinks(threads, before, more, i);
    HistoryGrows(threads, before, more);
    WaitsAtMost(s, i);
    NobodyWaitsForNothing(s', i);
    EntryIsArrival(s', i);
  }

  /** Until it enters, the thread whose turn it is keeps its turn. */
  lemma {:induction false} KeepsTurn(threads: nat, before: seq<nat>, more: seq<nat>, t: nat)
    requires IsSchedule(threads, before) && IsSchedule(threads, before + more) && threads <= HALF
    requires Turn(Exec(threads, before), t)
    ensures var i := Exec(threads, before).releases;
            i < |Exec(threads, before + more).entries| || TurnSteps(threads, before, more) == multiset(more)[t]
  {
    hide Exec, Next, Waiter;
    if more == [] {
    } else {
      var m := more[..|more| - 1];
      LastStep(threads, before, more);
      KeepsTurn(threads, before, m, t);
      HistoryGrows(threads, before, m);
      StepExtends(Exec(threads, before + m), more[|more| - 1]);
      ExecInv(threads, before + m);
    }
  }

  lemma NobodyInside(s: State, t: nat)
    requires Inv(s) && Turn(s, t) && forall u :: 0 <= u < |s.pcs| ==> !s.pcs[u].InCriticalSection()
    ensures |s.entries| == s.releases
  {
    assert Waiter(s, s.releases);
  }

  /** While somebody waits and nobody is in the critical section, the first to have come enters with two of its own
      steps, whatever the others do in between. */
  lemma EntersInTwoSteps(threads: nat, before: seq<nat>, more: seq<nat>, t: nat)
    requires IsSchedule(threads, before) && IsSchedule(threads, before + more) && threads <= HALF
    requires Turn(Exec(threads, before), t) && multiset(more)[t] >= 2
    requires forall u :: 0 <= u < threads ==> !Exec(threads, before).pcs[u].InCriticalSection()
    ensures var s, s' := Exec(threads, before), Exec(threads, before + more);
            |s'.entries| > |s.entries| && s'.entries[|s.entries|] == t
  {
    hide Exec, Next, Inv;
    var s := Exec(threads, before);
    ExecInv(threads, before);
    NobodyInside(s, t);
    KeepsTurn(threads, before, more, t);
    HistoryGrows(threads, before, more);
    ExecInv(threads, before + more);
    if |Exec(threads, before + more).entries| <= s.releases {
      BoundedWait(threads, before, more, s.releases);
    } else {
      EntryIsArrival(Exec(threads, before + more), s.releases);
    }
  }

  /** Whenever some thread is not idle, it is the turn of one. */
  lemma SomebodysTurn(threads: nat, schedule: seq<nat>, u: nat)
    requires IsSchedule(threads, schedule) && threads <= HALF && u < threads && Exec(threads, schedule).pcs[u] != Idle
    ensures exists t :: 0 <= t < threads && Turn(Exec(threads, schedule), t)
  {
    var s := Exec(threads, schedule);
    ExecInv(threads, schedule);
    var i := TicketOf(s, u);
    assert Waiter(s, s.releases);
    assert Turn(s, s.arrivals[s.releases]);
  }
}
