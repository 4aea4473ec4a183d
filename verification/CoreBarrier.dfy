/** The barrier at which simulated cores wait for the shared part of the machine (sim-loop.cpp), as a
    state machine over the steps of one simulation thread per core.

    All shared flags are changed under cycle_lock. The active core with the smallest number is the
    master: it waits until all active cores have finished their cycle, runs the global step and clears
    their flags; the others wait for their flag to be cleared. */
module CoreBarrier {

  const MAX_CORES := 16

  /** Where a core's thread is. In a Check it holds cycle_lock; in Entering or a Spin it wants it. */
  datatype Pc = Outside | Entering | MasterCheck | MasterSpin | SlaveCheck | SlaveSpin {
    predicate Holds() { MasterCheck? || SlaveCheck? }
  }

  /** `arrivals` and `globalSteps` count, for every core, since it was last activated. */
  datatype State = State(active: seq<bool>, finished: seq<bool>, pcs: seq<Pc>, minCore: nat, locked: bool,
                         arrivals: seq<nat>, globalSteps: seq<nat>)

  datatype Action =
    | Activate(core: nat)
    | Deactivate(core: nat)
    | Want(core: nat)   // a core reaches the end of its interval
    | Move(core: nat)   // its thread takes its next step: it gets the lock, or decides while it has it

  function Init(n: nat): State {
    State(seq(n, _ => false), seq(n, _ => false), seq(n, _ => Outside), 0, false, seq(n, _ => 0), seq(n, _ => 0))
  }

  ghost predicate Shape(s: State) {
    && |s.active| == |s.finished| == |s.pcs| == |s.arrivals| == |s.globalSteps| <= MAX_CORES
  }

  function Count(b: seq<bool>): nat {
    if b == [] then 0 else (if b[0] then 1 else 0) + Count(b[1..])
  }

  /** The first active core, or MAX_CORES. */
  function FirstActive(active: seq<bool>, from: nat): (m: nat)
    requires from <= |active| <= MAX_CORES
    ensures m == MAX_CORES || (from <= m < |active| && active[m])
    ensures forall i :: from <= i < |active| && active[i] ==> m <= i
    decreases |active| - from
  {
    if from == |active| then MAX_CORES else if active[from] then from else FirstActive(active, from + 1)
  }

  /** The master's test, under the lock: at least as many cores have finished as are active. */
  predicate AllGathered(s: State) {
    Count(s.finished) >= Count(s.active)
  }

  /** The step in which a thread runs the global step. */
  predicate StepsGlobally(s: State, a: Action) {
    a.Move? && a.core < |s.pcs| && s.pcs[a.core] == MasterCheck && AllGathered(s)
  }

  /** What the threads can do. */
  predicate Enabled(s: State, a: Action) {
    && a.core < |s.pcs|
    && match a
       case Activate(_) => !s.locked
       case Deactivate(_) => !s.locked
       case Want(c) => s.pcs[c] == Outside
       case Move(c) => s.pcs[c] != Outside && (s.pcs[c].Holds() || !s.locked)
  }

  /** What the barrier expects of its users: cores are deactivated only while they do not wait, and only
      active cores simulate. */
  predicate Disciplined(s: State, a: Action)
    requires Shape(s) && Enabled(s, a)
  {
    match a
    case Activate(c) => !s.active[c]
    case Deactivate(c) => s.pcs[c] == Outside
    case Want(c) => s.active[c]
    case Move(_) => true
  }

  function Cleared(n: nat): (finished: seq<bool>)
    ensures |finished| == n && forall i :: 0 <= i < n ==> !finished[i]
  {
    seq(n, _ => false)
  }

  /** A global step is counted for the active cores. */
  function Stepped(globalSteps: seq<nat>, active: seq<bool>): (r: seq<nat>)
    requires |active| == |globalSteps|
    ensures |r| == |globalSteps| && forall i :: 0 <= i < |r| ==> r[i] == globalSteps[i] + if active[i] then 1 else 0
  {
    seq(|globalSteps|, i requires 0 <= i < |globalSteps| => globalSteps[i] + if active[i] then 1 else 0)
  }

  function Next(s: State, a: Action): (s': State)
    requires Shape(s) && Enabled(s, a)
    ensures Shape(s') && |s'.pcs| == |s.pcs|
  {
    match a
    case Activate(c) =>
      s.(finished := s.finished[c := false], active := s.active[c := true],
         minCore := if c < s.minCore then c else s.minCore,
         arrivals := s.arrivals[c := 0], globalSteps := s.globalSteps[c := 0])
    case Deactivate(c) =>
      s.(active := s.active[c := false], minCore := FirstActive(s.active[c := false], 0))
    case Want(c) => s.(pcs := s.pcs[c := Entering])
    case Move(c) =>
      match s.pcs[c]
      case Outside => s
      case Entering =>
        s.(locked := true, finished := s.finished[c := true], arrivals := s.arrivals[c := s.arrivals[c] + 1],
           pcs := s.pcs[c := if c == s.minCore then MasterCheck else SlaveCheck])
      case MasterSpin =>  // got the lock again; hands over if another core has become the master
        if c == s.minCore then s.(locked := true, pcs := s.pcs[c := MasterCheck])
        else s.(pcs := s.pcs[c := SlaveSpin])
      case SlaveSpin => s.(locked := true, pcs := s.pcs[c := SlaveCheck])
      case MasterCheck =>
        if AllGathered(s) then
          s.(locked := false, pcs := s.pcs[c := Outside],
             finished := Cleared(|s.finished|), globalSteps := Stepped(s.globalSteps, s.active))
        else s.(locked := false, pcs := s.pcs[c := MasterSpin])
      case SlaveCheck =>
        if !s.finished[c] then s.(locked := false, pcs := s.pcs[c := Outside])
        else if c == s.minCore then s.(pcs := s.pcs[c := MasterCheck])
        else if s.minCore == MAX_CORES then s.(locked := false, pcs := s.pcs[c := Outside])
        else s.(locked := false, pcs := s.pcs[c := SlaveSpin])
  }

  // ---------------------------------------------------------------- the invariant

  /** A locked lock is held by a thread, and no two hold it. */
  ghost predicate LockOk(s: State) {
    && (s.locked ==> exists c :: 0 <= c < |s.pcs| && s.pcs[c].Holds())
    && (forall c :: 0 <= c < |s.pcs| && s.pcs[c].Holds() ==> s.locked)
    && (forall c, d :: 0 <= c < d < |s.pcs| ==> !(s.pcs[c].Holds() && s.pcs[d].Holds()))
  }

  /** minCore is the active core with the smallest number, or the initial 0. */
  ghost predicate MinOk(s: State) {
    && (forall i :: 0 <= i < |s.active| && s.active[i] ==> s.minCore <= i)
    && (s.minCore == MAX_CORES || s.minCore == 0 || (s.minCore < |s.active| && s.active[s.minCore]))
  }

  ghost predicate CoreOk(s: State, c: nat)
    requires Shape(s) && c < |s.pcs|
  {
    && (s.finished[c] ==> s.active[c] && s.pcs[c] != Outside && s.pcs[c] != Entering)
    && (!s.active[c] ==> s.pcs[c] == Outside)
    && (s.pcs[c] == MasterCheck ==> c == s.minCore)
    && (s.active[c] ==> s.arrivals[c] == s.globalSteps[c] + if s.finished[c] then 1 else 0)
  }

  ghost predicate Inv(s: State) {
    Shape(s) && LockOk(s) && MinOk(s) && forall c :: 0 <= c < |s.pcs| ==> CoreOk(s, c)
  }

  ghost predicate Run(s: State, actions: seq<Action>)
    requires Shape(s)
    decreases actions
  {
    actions != [] ==>
      Enabled(s, actions[0]) && Disciplined(s, actions[0]) && Run(Next(s, actions[0]), actions[1..])
  }

  ghost function End(s: State, actions: seq<Action>): (s': State)
    requires Shape(s) && Run(s, actions)
    ensures Shape(s')
    decreases actions
  {
    if actions == [] then s else End(Next(s, actions[0]), actions[1..])
  }

  /** If every finished core is active, the master's counting test is exact. */
  lemma {:induction false} CountingIsExact(finished: seq<bool>, active: seq<bool>)
    requires |finished| == |active| && forall i :: 0 <= i < |active| && finished[i] ==> active[i]
    ensures Count(finished) <= Count(active)
    ensures Count(finished) >= Count(active) <==> finished == active
  {
    if active == [] {
    } else {
      forall i | 0 <= i < |active| - 1 && finished[1..][i] ensures active[1..][i] { assert finished[i + 1]; }
      CountingIsExact(finished[1..], active[1..]);
      assert finished == [finished[0]] + finished[1..] && active == [active[0]] + active[1..];
    }
  }

  /** The master waits for a core that is activated, also for one that still has its flag set from waiting at an earlier
      deactivation. */
  lemma ActivatedIsAwaited(s: State, c: nat)
    requires Shape(s) && Enabled(s, Activate(c))
    requires forall i :: 0 <= i < |s.pcs| && s.finished[i] && i != c ==> s.active[i]
    ensures !AllGathered(Next(s, Activate(c)))
  {
    var t := Next(s, Activate(c));
    CountingIsExact(t.finished, t.active);
    assert t.active[c] && !t.finished[c];
  }

  lemma {:induction false} NextKeepsInv(s: State, a: Action)
    requires Inv(s) && Enabled(s, a) && Disciplined(s, a)
    ensures Inv(Next(s, a))
  {
    if StepsGlobally(s, a) {
      GlobalStepKeepsInv(s, a);
    } else if a.Move? {
      MoveKeepsInv(s, a);
    } else {
      ActivationKeepsInv(s, a);
    }
  }

  lemma {:induction false} ActivationKeepsInv(s: State, a: Action)
    requires Inv(s) && Enabled(s, a) && Disciplined(s, a) && !a.Move?
    ensures Inv(Next(s, a))
  {
    var s' := Next(s, a);
    forall c | 0 <= c < |s'.pcs| ensures CoreOk(s', c) { assert CoreOk(s, c) && CoreOk(s, a.core); }
    if s'.locked {
      var c :| 0 <= c < |s.pcs| && s.pcs[c].Holds();
      assert s'.pcs[c].Holds();
    }
  }

  lemma {:induction false} MoveKeepsInv(s: State, a: Action)
    requires Inv(s) && Enabled(s, a) && Disciplined(s, a) && a.Move? && !StepsGlobally(s, a)
    ensures Inv(Next(s, a))
  {
    var s' := Next(s, a);
    forall c | 0 <= c < |s'.pcs| ensures CoreOk(s', c) { assert CoreOk(s, c) && CoreOk(s, a.core); }
    assert s'.locked ==> s'.pcs[a.core].Holds();
  }

  /** At a global step every active core has finished. */
  lemma {:induction false} AllActiveFinished(s: State)
    requires Inv(s) && AllGathered(s)
    ensures s.finished == s.active
  {
    forall i | 0 <= i < |s.active| && s.finished[i] ensures s.active[i] { assert CoreOk(s, i); }
    CountingIsExact(s.finished, s.active);
  }

  lemma {:induction false} GlobalStepKeepsInv(s: State, a: Action)
    requires Inv(s) && Enabled(s, a) && StepsGlobally(s, a)
    ensures Inv(Next(s, a))
  {
    AllActiveFinished(s);
    var s' := Next(s, a);
    forall c | 0 <= c < |s'.pcs| ensures CoreOk(s', c) { assert CoreOk(s, c); }
  }

  lemma {:induction false} RunKeepsInv(s: State, actions: seq<Action>)
    requires Inv(s) && Run(s, actions)
    ensures Inv(End(s, actions))
    decreases actions
  {
    if actions == [] {
    } else {
      NextKeepsInv(s, actions[0]);
      RunKeepsInv(Next(s, actions[0]), actions[1..]);
    }
  }

  // ---------------------------------------------------------------- main results

  /** In every disciplined run, a global step is run only by the active core with the smallest number,
      while it alone holds cycle_lock, and when every active core has finished its cycle. */
  lemma GlobalStepIsSafe(n: nat, actions: seq<Action>, a: Action)
    requires n <= MAX_CORES && Run(Init(n), actions) && StepsGlobally(End(Init(n), actions), a)
    ensures var s := End(Init(n), actions);
            && a.core == s.minCore && s.active[a.core] && (forall i :: 0 <= i < a.core ==> !s.active[i])
            && s.locked && (forall c :: 0 <= c < |s.pcs| && c != a.core ==> !s.pcs[c].Holds())
            && (forall c :: 0 <= c < |s.pcs| ==> (s.active[c] <==> s.finished[c]))
  {
    RunKeepsInv(Init(n), actions);
    var s := End(Init(n), actions);
    AllActiveFinished(s);
    assert CoreOk(s, a.core);
  }

  /** No core runs ahead: since its activation, a core has arrived as often as the shared part has been
      stepped, or once more, exactly while its flag is set. */
  lemma CoresStayInStep(n: nat, actions: seq<Action>, c: nat)
    requires n <= MAX_CORES && Run(Init(n), actions) && c < n && |End(Init(n), actions).active| == n
    requires End(Init(n), actions).active[c]
    ensures var s := End(Init(n), actions);
            s.globalSteps[c] <= s.arrivals[c] <= s.globalSteps[c] + 1
            && (s.arrivals[c] == s.globalSteps[c] + 1 <==> s.finished[c])
  {
    RunKeepsInv(Init(n), actions);
    assert CoreOk(End(Init(n), actions), c);
  }

  // ---------------------------------------------------------------- who is the master

  /** Afterwards the master's number is that of an active core, if there is one, and not 0 by default. */
  predicate SetsMaster(a: Action) {
    a == Activate(0) || a.Deactivate?
  }

  lemma FirstActiveWith(active: seq<bool>, c: nat)
    requires c < |active| <= MAX_CORES
    ensures FirstActive(active[c := true], 0) == if c < FirstActive(active, 0) then c else FirstActive(active, 0)
  {
    var more := active[c := true];
    var m, m' := FirstActive(active, 0), FirstActive(more, 0);
    assert more[c];
    assert m < |active| ==> more[m];
    assert m' < |more| && m' != c ==> active[m'];
  }

  lemma MasterAfter(s: State, a: Action)
    requires Inv(s) && Enabled(s, a) && Disciplined(s, a)
    requires s.minCore == 0 || s.minCore == FirstActive(s.active, 0)
    ensures var s' := Next(s, a);
            if s.minCore == FirstActive(s.active, 0) || SetsMaster(a)
            then s'.minCore == FirstActive(s'.active, 0) else s'.minCore == 0 && s'.minCore != FirstActive(s'.active, 0)
  {
    hide FirstActive;
    if a.Activate? {
      FirstActiveWith(s.active, a.core);
    }
  }

  /** From the first activation of core 0 or deactivation on, the master is the first active core; before,
      it is core 0, active or not. */
  lemma {:induction false} MasterIsFirstActive(s: State, actions: seq<Action>)
    requires Inv(s) && Run(s, actions)
    requires s.minCore == 0 || s.minCore == FirstActive(s.active, 0)
    ensures var s' := End(s, actions);
            if s.minCore == FirstActive(s.active, 0) || exists a :: a in actions && SetsMaster(a)
            then s'.minCore == FirstActive(s'.active, 0) else s'.minCore == 0
    decreases actions
  {
    hide LockOk, MinOk, CoreOk, Next, Disciplined, FirstActive, SetsMaster;
    if actions == [] {
    } else {
      var a := actions[0];
      var s1 := Next(s, a);
      NextKeepsInv(s, a);
      MasterAfter(s, a);
      assert actions == [a] + actions[1..];
      MasterIsFirstActive(s1, actions[1..]);
    }
  }

  /** As long as core 0 is the master by default only, no global step is run. */
  lemma NobodyStepsBefore(n: nat, actions: seq<Action>, a: Action)
    requires 0 < n <= MAX_CORES && Run(Init(n), actions) && forall b :: b in actions ==> !SetsMaster(b)
    requires Enabled(End(Init(n), actions), a)
    ensures !StepsGlobally(End(Init(n), actions), a)
  {
    RunKeepsInv(Init(n), actions);
    CoreZeroInactive(Init(n), actions);
    assert CoreOk(End(Init(n), actions), a.core);
  }

  lemma {:induction false} CoreZeroInactive(s: State, actions: seq<Action>)
    requires Shape(s) && Run(s, actions) && forall b :: b in actions ==> !SetsMaster(b)
    requires |s.active| > 0 && !s.active[0] && s.minCore == 0
    ensures var s' := End(s, actions); |s'.active| > 0 && !s'.active[0] && s'.minCore == 0
    decreases actions
  {
    if actions == [] {
    } else {
      assert actions[0] in actions;
      CoreZeroInactive(Next(s, actions[0]), actions[1..]);
    }
  }

  /** One more step of a run. */
  lemma {:induction false} Extend(s: State, actions: seq<Action>, a: Action)
    requires Shape(s) && Run(s, actions)
    requires Enabled(End(s, actions), a) && Disciplined(End(s, actions), a)
    ensures Run(s, actions + [a]) && End(s, actions + [a]) == Next(End(s, actions), a)
    decreases actions
  {
    if actions == [] {
      assert actions + [a] == [a];
    } else {
      assert (actions + [a])[1..] == actions[1..] + [a];
      Extend(Next(s, actions[0]), actions[1..], a);
    }
  }

  lemma Counts(b: seq<bool>)
    requires |b| == 3
    ensures Count(b) == (if b[0] then 1 else 0) + (if b[1] then 1 else 0) + (if b[2] then 1 else 0)
  {
    assert b[1..][1..] == [b[2]];
    assert Count([b[2]]) == (if b[2] then 1 else 0) + Count([b[2]][1..]);
    assert Count(b[1..]) == (if b[1] then 1 else 0) + Count(b[1..][1..]);
    assert Count(b) == (if b[0] then 1 else 0) + Count(b[1..]);
  }

  lemma Firsts(b: seq<bool>)
    requires |b| == 3
    ensures FirstActive(b, 0) == if b[0] then 0 else if b[1] then 1 else if b[2] then 2 else MAX_CORES
  {
    assert FirstActive(b, 1) == if b[1] then 1 else FirstActive(b, 2);
  }

  /** Some disciplined run of three cores leads to s. */
  ghost predicate Reached(s: State) {
    exists actions :: Run(Init(3), actions) && End(Init(3), actions) == s
  }

  lemma ReachNext(s: State, a: Action, s': State)
    requires Shape(s) && Reached(s) && Enabled(s, a) && Disciplined(s, a) && Next(s, a) == s'
    ensures Reached(s')
  {
    var actions :| Run(Init(3), actions) && End(Init(3), actions) == s;
    Extend(Init(3), actions, a);
  }

  lemma ReachedInv(s: State)
    requires Reached(s)
    ensures Inv(s)
  {
    var actions :| Run(Init(3), actions) && End(Init(3), actions) == s;
    RunKeepsInv(Init(3), actions);
  }

  function Three(finished: seq<bool>, pcs: seq<Pc>, locked: bool, arrivals: seq<nat>, globalSteps: seq<nat>): State {
    State([true, true, true], finished, pcs, 0, locked, arrivals, globalSteps)
  }

  /** Three active cores, none of which has arrived yet. */
  lemma ThreeCores()
    ensures Reached(Three([false, false, false], [Outside, Outside, Outside], false, [0, 0, 0], [0, 0, 0]))
  {
    var s0 := State([false, false, false], [false, false, false], [Outside, Outside, Outside], 0, false, [0, 0, 0], [0, 0, 0]);
    assert Init(3) == s0;
    assert Run(Init(3), []) && End(Init(3), []) == s0;
    var s1 := s0.(active := [true, false, false]);
    var s2 := s0.(active := [true, true, false]);
    var s3 := s0.(active := [true, true, true]);
    assert Reached(s1) by {
      assert s0.active[0 := true] == s1.active && s0.finished[0 := false] == s0.finished && s0.arrivals[0 := 0] == s0.arrivals;
      ReachNext(s0, Activate(0), s1);
    }
    assert Reached(s2) by {
      assert s1.active[1 := true] == s2.active && s0.finished[1 := false] == s0.finished && s0.arrivals[1 := 0] == s0.arrivals;
      ReachNext(s1, Activate(1), s2);
    }
    assert Reached(s3) by {
      assert s2.active[2 := true] == s3.active && s0.finished[2 := false] == s0.finished && s0.arrivals[2 := 0] == s0.arrivals;
      ReachNext(s2, Activate(2), s3);
    }
  }

  /** Why a waiting core must not be deactivated: here core 2 leaves while its flag is set, the counts match,
      and core 0 runs a global step although core 1 has not finished. */
  lemma DeactivatedWhileWaiting() returns (s: State)
    ensures Shape(s) && Reached(s) && Enabled(s, Deactivate(2)) && !Disciplined(s, Deactivate(2))
    ensures var s1 := Next(s, Deactivate(2));
            && Enabled(s1, Want(0))
            && var s2 := Next(s1, Want(0));
            && Enabled(s2, Move(0))
            && var s3 := Next(s2, Move(0));
            StepsGlobally(s3, Move(0)) && s3.active[1] && !s3.finished[1]
  {
    ThreeCores();
    var s0 := Three([false, false, false], [Outside, Outside, Outside], false, [0, 0, 0], [0, 0, 0]);
    var s1 := s0.(pcs := [Outside, Outside, Entering]);
    var s2 := s0.(pcs := [Outside, Outside, SlaveCheck], finished := [false, false, true], arrivals := [0, 0, 1], locked := true);
    s := s2.(pcs := [Outside, Outside, SlaveSpin], locked := false);
    ReachNext(s0, Want(2), s1);
    ReachNext(s1, Move(2), s2);
    ReachNext(s2, Move(2), s);
    var s3 := Next(Next(Next(s, Deactivate(2)), Want(0)), Move(0));
    Firsts(Next(s, Deactivate(2)).active);
    Counts(s3.finished);
    Counts(s3.active);
  }

  // ---------------------------------------------------------------- progress

  /** Core `c` is the master and waits at the barrier for a step that has already been taken. */
  ghost predicate Stranded(s: State, c: nat) {
    && Inv(s) && c < |s.pcs| && s.minCore == c && s.active[c] && !s.finished[c]
    && (s.pcs[c] == MasterSpin || s.pcs[c] == MasterCheck)
  }

  /** Cores are neither activated nor deactivated. */
  ghost predicate Quiet(actions: seq<Action>) {
    forall a :: a in actions ==> a.Want? || a.Move?
  }

  /** Until cores are activated or deactivated again, a stranded master stays stranded and no global step is
      ever run, whatever the threads do. */
  lemma {:induction false} StrandedForGood(s: State, c: nat, actions: seq<Action>)
    requires Stranded(s, c) && Run(s, actions) && Quiet(actions)
    ensures Stranded(End(s, actions), c)
    ensures forall a :: Enabled(End(s, actions), a) ==> !StepsGlobally(End(s, actions), a)
    decreases actions
  {
    if AllGathered(s) { AllActiveFinished(s); }
    if actions == [] {
    } else {
      var a := actions[0];
      assert a in actions;
      NextKeepsInv(s, a);
      assert CoreOk(s, c) && CoreOk(s, a.core);
      StrandedForGood(Next(s, a), c, actions[1..]);
    }
  }

  /** The threads alone can lead from s to s'. */
  ghost predicate Leads(s: State, s': State)
    requires Shape(s)
  {
    exists actions :: Run(s, actions) && Quiet(actions) && End(s, actions) == s'
  }

  lemma LeadsNowhere(s: State)
    requires Shape(s)
    ensures Leads(s, s)
  {
    assert Run(s, []) && Quiet([]) && End(s, []) == s;
  }

  lemma LeadsOn(s: State, s0: State, a: Action) returns (s': State)
    requires Shape(s) && Leads(s, s0) && Inv(s0) && Enabled(s0, a) && Disciplined(s0, a) && (a.Want? || a.Move?)
    ensures s' == Next(s0, a) && Leads(s, s') && Inv(s')
  {
    var actions :| Run(s, actions) && Quiet(actions) && End(s, actions) == s0;
    Extend(s, actions, a);
    assert Quiet(actions + [a]);
    s' := Next(s0, a);
    NextKeepsInv(s0, a);
  }

  /** Core d, which is not the master and not there yet, gets to the entrance of the barrier. */
  lemma ComeNear(s: State, s0: State, d: nat) returns (s': State)
    requires Shape(s) && Leads(s, s0) && Inv(s0) && !s0.locked && d < |s0.pcs| && s0.active[d] && !s0.finished[d]
    requires d != s0.minCore < |s0.pcs|
    ensures Leads(s, s') && Inv(s') && s' == s0.(pcs := s0.pcs[d := Entering])
  {
    hide Leads, Count;
    assert CoreOk(s0, d);
    s' := s0;
    if s'.pcs[d] == MasterSpin { s' := LeadsOn(s, s', Move(d)); }
    if s'.pcs[d] == SlaveSpin {
      s' := LeadsOn(s, s', Move(d));
      s' := LeadsOn(s, s', Move(d));
    }
    if s'.pcs[d] == Outside { s' := LeadsOn(s, s', Want(d)); }
    assert s'.pcs == s0.pcs[d := Entering];
  }

  /** It arrives and waits; nothing else changes. */
  lemma Arrive(s: State, s0: State, d: nat) returns (s': State)
    requires Shape(s) && Leads(s, s0) && Inv(s0) && !s0.locked && d < |s0.pcs| && s0.active[d] && !s0.finished[d]
    requires d != s0.minCore < |s0.pcs|
    ensures Leads(s, s') && Inv(s') && !s'.locked && s'.active == s0.active && s'.minCore == s0.minCore
    ensures s'.finished == s0.finished[d := true] && s'.pcs == s0.pcs[d := SlaveSpin]
  {
    hide Leads, Inv, Count;
    OnlyActiveFinished(s0);
    var s1 := ComeNear(s, s0, d);
    var s2 := LeadsOn(s, s1, Move(d));
    s' := LeadsOn(s, s2, Move(d));
  }

  /** All cores from d on, other than the master, arrive; those that have arrived keep waiting. */
  lemma {:induction false} AllArrive(s: State, s0: State, d: nat) returns (s': State)
    requires Shape(s) && Leads(s, s0) && Inv(s0) && !s0.locked && d <= |s0.pcs| && s0.minCore < |s0.pcs|
    ensures Leads(s, s') && Inv(s') && !s'.locked && s'.active == s0.active && s'.minCore == s0.minCore
    ensures |s'.pcs| == |s0.pcs|
    ensures forall i :: 0 <= i < |s0.pcs| && (i == s0.minCore || s0.finished[i]) ==>
      s'.finished[i] == s0.finished[i] && s'.pcs[i] == s0.pcs[i]
    ensures forall i :: d <= i < |s0.pcs| && i != s0.minCore && s0.active[i] ==> s'.finished[i]
    decreases |s0.pcs| - d
  {
    hide Leads, Count;
    if d == |s0.pcs| {
      s' := s0;
    } else if d != s0.minCore && s0.active[d] && !s0.finished[d] {
      var s1 := Arrive(s, s0, d);
      s' := AllArrive(s, s1, d + 1);
    } else {
      s' := AllArrive(s, s0, d + 1);
    }
  }

  /** A master that is not there yet, and not stranded, comes to the barrier. */
  lemma MasterComes(s: State, s0: State) returns (s': State)
    requires Shape(s) && Leads(s, s0) && Inv(s0) && !s0.locked && s0.minCore < |s0.pcs| && s0.active[s0.minCore]
    requires !Stranded(s0, s0.minCore)
    ensures Leads(s, s') && Inv(s') && s'.minCore == s0.minCore && s'.active == s0.active && !s'.locked
    ensures s'.pcs[s0.minCore] in {Entering, MasterSpin, SlaveSpin} && (s'.pcs[s0.minCore] != Entering ==> s'.finished[s0.minCore])
    ensures s'.finished == s0.finished && s'.pcs == s0.pcs[s0.minCore := s'.pcs[s0.minCore]]
  {
    hide Leads, Count;
    var m := s0.minCore;
    assert CoreOk(s0, m);
    s' := s0;
    if !s'.finished[m] {
      if s'.pcs[m] == SlaveSpin {
        s' := LeadsOn(s, s', Move(m));
        s' := LeadsOn(s, s', Move(m));
      }
      if s'.pcs[m] == Outside { s' := LeadsOn(s, s', Want(m)); }
    }
  }

  /** With all other cores there, it runs the global step. */
  lemma MasterSteps(s: State, s0: State) returns (s': State)
    requires Shape(s) && Leads(s, s0) && Inv(s0) && !s0.locked && s0.minCore < |s0.pcs| && s0.active[s0.minCore]
    requires !Stranded(s0, s0.minCore)
    requires forall i :: 0 <= i < |s0.pcs| && i != s0.minCore && s0.active[i] ==> s0.finished[i]
    ensures Leads(s, s') && Inv(s') && Enabled(s', Move(s0.minCore)) && StepsGlobally(s', Move(s0.minCore))
    ensures s'.minCore == s0.minCore && s'.active == s0.active
    ensures |s'.pcs| == |s0.pcs|
    ensures forall i :: 0 <= i < |s0.pcs| && i != s0.minCore ==> s'.pcs[i] == s0.pcs[i]
  {
    hide Leads, Count, Inv;
    var m := s0.minCore;
    OnlyActiveFinished(s0);
    var s1 := MasterComes(s, s0);
    s' := LeadsOn(s, s1, Move(m));
    if s'.pcs[m] == SlaveCheck { s' := LeadsOn(s, s', Move(m)); }
    assert s'.pcs[m] == MasterCheck && s'.finished[m] && s'.pcs == s0.pcs[m := MasterCheck];
    OnlyActiveFinished(s');
    forall i | 0 <= i < |s'.finished| ensures s'.finished[i] == s'.active[i] {
      assert i != m && s0.active[i] ==> s0.finished[i] && s1.finished[i];
    }
    assert s'.finished == s'.active;
  }

  lemma OnlyActiveFinished(s: State)
    requires Inv(s)
    ensures Shape(s) && forall i :: 0 <= i < |s.active| && s.finished[i] ==> s.active[i]
  {
    forall i | 0 <= i < |s.active| && s.finished[i] ensures s.active[i] { assert CoreOk(s, i); }
  }

  /** Whoever holds the lock lets it go, or runs the global step. */
  lemma LockIsReleased(s: State) returns (s': State, a: Action)
    requires Inv(s) && s.minCore < |s.pcs| && s.active[s.minCore] && !Stranded(s, s.minCore)
    ensures Leads(s, s') && Inv(s') && s'.minCore == s.minCore && s'.active == s.active && !Stranded(s', s.minCore)
    ensures |s'.pcs| == |s.pcs|
    ensures s'.locked ==> Enabled(s', a) && StepsGlobally(s', a)
  {
    hide Leads, Count;
    LeadsNowhere(s);
    s', a := s, Move(0);
    if s.locked {
      var c :| 0 <= c < |s.pcs| && s.pcs[c].Holds();
      a := Move(c);
      assert CoreOk(s, c);
      if s'.pcs[c] == SlaveCheck { s' := LeadsOn(s, s', a); }
      if s'.locked && !AllGathered(s') {
        assert CoreOk(s', c);
        s' := LeadsOn(s, s', a);
      }
    }
  }

  /** The threads alone can come to a global step. */
  ghost predicate CanStep(s: State)
    requires Shape(s)
  {
    exists s', a :: Leads(s, s') && Shape(s') && Enabled(s', a) && StepsGlobally(s', a)
  }

  lemma MasterCanStep(s: State)
    requires Inv(s) && s.minCore < |s.pcs| && s.active[s.minCore] && !Stranded(s, s.minCore)
    ensures CanStep(s)
  {
    hide Leads, Inv;
    OnlyActiveFinished(s);
    var s1, a := LockIsReleased(s);
    OnlyActiveFinished(s1);
    if !s1.locked {
      var s2 := AllArrive(s, s1, 0);
      OnlyActiveFinished(s2);
      StaysUnstranded(s1, s2, s.minCore);
      var s3 := MasterSteps(s, s2);
      OnlyActiveFinished(s3);
    }
  }

  lemma StaysUnstranded(s: State, s': State, m: nat)
    requires Inv(s) && !Stranded(s, m) && m < |s.pcs| == |s'.pcs| && s.minCore == m && s.active[m] && Shape(s')
    requires s'.finished[m] == s.finished[m] && s'.pcs[m] == s.pcs[m]
    ensures !Stranded(s', m)
  {
  }

  /** Being stranded is the only thing that can keep an active master's barrier from stepping. */
  lemma StrandedExactly(s: State)
    requires Inv(s) && s.minCore < |s.pcs| && s.active[s.minCore]
    ensures Stranded(s, s.minCore) <==> !CanStep(s)
  {
    if Stranded(s, s.minCore) {
      forall s', a | Leads(s, s') && Shape(s') && Enabled(s', a) ensures !StepsGlobally(s', a) {
        var actions :| Run(s, actions) && Quiet(actions) && End(s, actions) == s';
        StrandedForGood(s, s.minCore, actions);
      }
    } else {
      MasterCanStep(s);
    }
  }

  // ---------------------------------------------------------------- who leaves too early

  /** The state t is s, but core c has left with its flag set, and its thread stands at pc. */
  ghost predicate Shadow(t0: State, s: State, t: State, c: nat, pc: Pc) {
    && Inv(s) && c < |s.pcs| && !s.active[c] && !pc.Holds()
    && t == s.(finished := s.finished[c := true], pcs := s.pcs[c := pc])
    && Shape(t0) && Leads(t0, t)
  }

  /** As long as nobody counts, the flag makes no difference. */
  lemma SameStep(s: State, t: State, c: nat, pc: Pc, a: Action)
    requires Shape(s) && c < |s.pcs| && t == s.(finished := s.finished[c := true], pcs := s.pcs[c := pc])
    requires Enabled(s, a) && Disciplined(s, a) && (a.Want? || a.Move?) && a.core != c && s.pcs[a.core] != MasterCheck
    ensures Enabled(t, a) && Disciplined(t, a) && Next(s, a).active == s.active && |Next(s, a).pcs| == |s.pcs|
    ensures Next(t, a) == Next(s, a).(finished := Next(s, a).finished[c := true], pcs := Next(s, a).pcs[c := pc])
  {
    hide Count, FirstActive;
    assert Next(t, a).pcs == Next(s, a).pcs[c := pc];
    assert Next(t, a).finished == Next(s, a).finished[c := true];
  }

  lemma ShadowOn(t0: State, s: State, t: State, c: nat, pc: Pc, a: Action) returns (s': State, t': State)
    requires Shadow(t0, s, t, c, pc) && Enabled(s, a) && Disciplined(s, a) && (a.Want? || a.Move?)
    requires a.core != c && s.pcs[a.core] != MasterCheck
    ensures s' == Next(s, a) && Shadow(t0, s', t', c, pc)
  {
    hide LockOk, MinOk, CoreOk, Next, Disciplined, Enabled;
    SameStep(s, t, c, pc, a);
    var actions :| Run(t0, actions) && Quiet(actions) && End(t0, actions) == t;
    Extend(t0, actions, a);
    assert Quiet(actions + [a]);
    s', t' := Next(s, a), Next(t, a);
    NextKeepsInv(s, a);
  }

  /** What is known of core d. */
  lemma ShadowCore(t0: State, s: State, t: State, c: nat, pc: Pc, d: nat)
    requires Shadow(t0, s, t, c, pc) && d < |s.pcs| && s.active[d]
    ensures Shape(s) && d != c && CoreOk(s, d) && (s.pcs[d].Holds() ==> s.locked)
  {
  }

  /** Core d, which is not the master and not there yet, gets to the entrance of the barrier. */
  lemma ShadowNear(t0: State, s: State, t: State, c: nat, pc: Pc, d: nat) returns (s': State, t': State)
    requires Shadow(t0, s, t, c, pc) && !s.locked && d < |s.pcs| && Shape(s) && s.active[d] && !s.finished[d]
    requires d != s.minCore < |s.pcs|
    ensures Shadow(t0, s', t', c, pc) && s' == s.(pcs := s.pcs[d := Entering])
  {
    hide Shadow, Count, FirstActive;
    ShadowCore(t0, s, t, c, pc, d);
    s', t' := s, t;
    if s'.pcs[d] == MasterSpin { s', t' := ShadowOn(t0, s', t', c, pc, Move(d)); }
    if s'.pcs[d] == SlaveSpin {
      s', t' := ShadowOn(t0, s', t', c, pc, Move(d));
      s', t' := ShadowOn(t0, s', t', c, pc, Move(d));
    }
    if s'.pcs[d] == Outside { s', t' := ShadowOn(t0, s', t', c, pc, Want(d)); }
    assert s'.pcs == s.pcs[d := Entering];
  }

  /** It arrives and waits. */
  lemma ShadowArrives(t0: State, s: State, t: State, c: nat, pc: Pc, d: nat) returns (s': State, t': State)
    requires Shadow(t0, s, t, c, pc) && !s.locked && d < |s.pcs| && Shape(s) && s.active[d] && !s.finished[d]
    requires d != s.minCore < |s.pcs|
    ensures Shadow(t0, s', t', c, pc) && !s'.locked && s'.active == s.active && s'.minCore == s.minCore
    ensures s'.finished == s.finished[d := true] && s'.pcs == s.pcs[d := SlaveSpin]
    ensures s'.arrivals == s.arrivals[d := s.arrivals[d] + 1]
  {
    hide Shadow, Count, FirstActive;
    ShadowCore(t0, s, t, c, pc, d);
    s', t' := ShadowNear(t0, s, t, c, pc, d);
    s', t' := ShadowOn(t0, s', t', c, pc, Move(d));
    s', t' := ShadowOn(t0, s', t', c, pc, Move(d));
    assert s'.pcs == s.pcs[d := SlaveSpin];
  }

  /** All cores from d on arrive, other than the master and core u. */
  lemma {:induction false} ShadowsArrive(t0: State, s: State, t: State, c: nat, pc: Pc, d: nat, u: nat)
    returns (s': State, t': State)
    requires Shadow(t0, s, t, c, pc) && !s.locked && d <= |s.pcs| && s.minCore < |s.pcs| && u < |s.pcs| && u != s.minCore
    ensures Shadow(t0, s', t', c, pc) && !s'.locked && s'.active == s.active && s'.minCore == s.minCore
    ensures Shape(s) && Shape(s') && |s'.pcs| == |s.pcs|
    ensures forall i :: 0 <= i < |s.pcs| && (i == s.minCore || i == u || s.finished[i]) ==>
      s'.finished[i] == s.finished[i] && s'.pcs[i] == s.pcs[i] && s'.arrivals[i] == s.arrivals[i]
    ensures forall i :: d <= i < |s.pcs| && i != s.minCore && i != u && s.active[i] ==> s'.finished[i]
    decreases |s.pcs| - d
  {
    hide Leads, Count;
    if d == |s.pcs| {
      s', t' := s, t;
    } else if d != s.minCore && d != u && s.active[d] && !s.finished[d] {
      var s1, t1 := ShadowArrives(t0, s, t, c, pc, d);
      s', t' := ShadowsArrive(t0, s1, t1, c, pc, d + 1, u);
    } else {
      s', t' := ShadowsArrive(t0, s, t, c, pc, d + 1, u);
    }
  }

  /** The master, if it is not stranded, comes to a place from which it gets the lock. */
  lemma ShadowMasterNear(t0: State, s: State, t: State, c: nat, pc: Pc) returns (s': State, t': State)
    requires Shadow(t0, s, t, c, pc) && Shape(s) && !s.locked && s.minCore < |s.pcs| && s.active[s.minCore]
    requires s.pcs[s.minCore] == MasterSpin ==> s.finished[s.minCore]
    ensures var m := s.minCore;
            && Shadow(t0, s', t', c, pc) && |s'.pcs| == |s.pcs| && s' == s.(pcs := s.pcs[m := s'.pcs[m]])
            && s'.pcs[m] in {Entering, MasterSpin, SlaveSpin} && (s'.pcs[m] != Entering ==> s.finished[m])
  {
    hide Shadow, Count, FirstActive;
    var m := s.minCore;
    ShadowCore(t0, s, t, c, pc, m);
    s', t' := s, t;
    if !s'.finished[m] {
      if s'.pcs[m] == SlaveSpin {
        s', t' := ShadowOn(t0, s', t', c, pc, Move(m));
        s', t' := ShadowOn(t0, s', t', c, pc, Move(m));
      }
      if s'.pcs[m] == Outside { s', t' := ShadowOn(t0, s', t', c, pc, Want(m)); }
      assert s'.pcs == s.pcs[m := Entering];
    }
  }

  /** It gets the lock to count. */
  lemma ShadowMaster(t0: State, s: State, t: State, c: nat, pc: Pc) returns (s': State, t': State)
    requires Shadow(t0, s, t, c, pc) && Shape(s) && !s.locked && s.minCore < |s.pcs| && s.active[s.minCore]
    requires s.pcs[s.minCore] == MasterSpin ==> s.finished[s.minCore]
    ensures var m := s.minCore;
            && Shadow(t0, s', t', c, pc) && s'.minCore == m && s'.active == s.active && |s'.pcs| == |s.pcs| && Shape(s')
            && s'.pcs[m] == MasterCheck && s'.finished == s.finished[m := true]
            && forall i :: 0 <= i < |s.pcs| && i != m ==> s'.arrivals[i] == s.arrivals[i]
  {
    hide Shadow, Count, FirstActive;
    var m := s.minCore;
    ShadowCore(t0, s, t, c, pc, m);
    s', t' := ShadowMasterNear(t0, s, t, c, pc);
    s', t' := ShadowOn(t0, s', t', c, pc, Move(m));
    if s'.pcs[m] == SlaveCheck { s', t' := ShadowOn(t0, s', t', c, pc, Move(m)); }
    assert s'.finished == s.finished[m := true];
  }

  lemma {:induction false} CountSet(b: seq<bool>, i: nat, v: bool)
    requires i < |b|
    ensures Count(b[i := v]) == Count(b) - (if b[i] then 1 else 0) + (if v then 1 else 0)
  {
    var b' := b[i := v];
    if i == 0 {
      assert b'[1..] == b[1..];
    } else {
      CountSet(b[1..], i - 1, v);
      assert b'[1..] == b[1..][i - 1 := v];
    }
  }

  /** One that has left with its flag set makes up in the count for one that is missing. */
  lemma ShadowCounts(s: State, c: nat, u: nat)
    requires Shape(s) && c < |s.pcs| && u < |s.pcs| && c != u && !s.active[c] && s.active[u]
    requires s.finished[c := true] == s.active[u := false][c := true]
    ensures Count(s.finished[c := true]) == Count(s.active)
  {
    CountSet(s.active, u, false);
    CountSet(s.active[u := false], c, true);
  }

  lemma CountsTooEarly(t0: State, s: State, t: State, c: nat, pc: Pc, u: nat)
    requires Shadow(t0, s, t, c, pc) && Shape(s) && s.minCore < |s.pcs| && s.pcs[s.minCore] == MasterCheck
    requires s.minCore != c && u < |s.pcs| && s.active[u] && !s.finished[u]
    requires forall i :: 0 <= i < |s.pcs| && i != u && s.active[i] ==> s.finished[i]
    ensures Shape(t) && Leads(t0, t) && |t.pcs| == |s.pcs| && t.active == s.active && t.arrivals == s.arrivals
    ensures Enabled(t, Move(s.minCore)) && StepsGlobally(t, Move(s.minCore)) && !t.finished[u]
  {
    hide Count, Leads;
    OnlyActiveFinished(s);
    assert s.finished[c := true] == s.active[u := false][c := true];
    ShadowCounts(s, c, u);
  }

  /** A waiting core must not be deactivated, ever: whenever core c is deactivated while its flag is set, and another
      active core u, which is not the master then, has not finished, the threads alone can come to a global step before
      u has arrived, unless the master is one of those that wait for a step already taken. */
  lemma LeavesTooEarly(s: State, c: nat, u: nat) returns (t: State)
    requires Inv(s) && Enabled(s, Deactivate(c)) && s.finished[c]
    requires u < |s.pcs| && u != c && s.active[u] && !s.finished[u]
    requires var m := Next(s, Deactivate(c)).minCore;
             m != u && m < |s.pcs| && (s.pcs[m] == MasterSpin ==> s.finished[m])
    ensures var s1 := Next(s, Deactivate(c));
            && Leads(s1, t) && Shape(t) && |t.pcs| == |s.pcs|
            && Enabled(t, Move(s1.minCore)) && StepsGlobally(t, Move(s1.minCore))
            && t.active[u] && !t.finished[u] && t.arrivals[u] == s.arrivals[u]
  {
    var s1 := Next(s, Deactivate(c));
    var s2 := s1.(finished := s1.finished[c := false], pcs := s1.pcs[c := Outside]);
    hide Count, Leads, FirstActive;
    LeavesClean(s, c);
    LeadsNowhere(s1);
    assert s1 == s2.(finished := s2.finished[c := true], pcs := s2.pcs[c := s.pcs[c]]);
    var s3, t3 := ShadowsArrive(s1, s2, s1, c, s.pcs[c], 0, u);
    var s4, t4 := ShadowMaster(s1, s3, t3, c, s.pcs[c]);
    t := t4;
    CountsTooEarly(s1, s4, t4, c, s.pcs[c], u);
  }

  /** Had it left properly, the invariant would hold. */
  lemma LeavesClean(s: State, c: nat)
    requires Inv(s) && Enabled(s, Deactivate(c)) && s.finished[c]
    ensures var s1 := Next(s, Deactivate(c));
            Inv(s1.(finished := s1.finished[c := false], pcs := s1.pcs[c := Outside])) && !s.pcs[c].Holds()
  {
    var s1 := Next(s, Deactivate(c));
    var s2 := s1.(finished := s1.finished[c := false], pcs := s1.pcs[c := Outside]);
    forall d | 0 <= d < |s2.pcs| ensures CoreOk(s2, d) { assert CoreOk(s, d); }
  }

  // ---------------------------------------------------------------- who strands a master

  /** A core with a smaller number than the master's is activated only while the master is not waiting. */
  ghost predicate Considerate(s: State, a: Action)
    requires Shape(s)
  {
    a.Activate? && a.core < s.minCore < |s.pcs| ==> s.pcs[s.minCore] != MasterSpin
  }

  ghost predicate ConsiderateRun(s: State, actions: seq<Action>)
    requires Shape(s) && Run(s, actions)
    decreases actions
  {
    actions != [] ==> Considerate(s, actions[0]) && ConsiderateRun(Next(s, actions[0]), actions[1..])
  }

  /** Only the master is where masters wait, and it has its flag set. */
  ghost predicate MastersOk(s: State)
    requires Shape(s)
  {
    forall c :: 0 <= c < |s.pcs| && (s.pcs[c] == MasterSpin || s.pcs[c] == MasterCheck) ==> c == s.minCore && s.finished[c]
  }

  lemma FirstIs(active: seq<bool>, from: nat, m: nat)
    requires from <= m < |active| <= MAX_CORES && active[m] && forall i :: from <= i < m ==> !active[i]
    ensures FirstActive(active, from) == m
  {
  }

  lemma NextKeepsMasters(s: State, a: Action)
    requires Inv(s) && Enabled(s, a) && Disciplined(s, a) && Considerate(s, a) && MastersOk(s)
    ensures MastersOk(Next(s, a))
  {
    var s' := Next(s, a);
    forall c | 0 <= c < |s'.pcs| && (s'.pcs[c] == MasterSpin || s'.pcs[c] == MasterCheck)
      ensures c == s'.minCore && s'.finished[c]
    {
      assert CoreOk(s, c);
      if a.Deactivate? { FirstIs(s'.active, 0, c); }
    }
  }

  lemma {:induction false} RunKeepsMasters(s: State, actions: seq<Action>)
    requires Inv(s) && Run(s, actions) && ConsiderateRun(s, actions) && MastersOk(s)
    ensures Inv(End(s, actions)) && MastersOk(End(s, actions))
    decreases actions
  {
    if actions == [] {
    } else {
      NextKeepsMasters(s, actions[0]);
      NextKeepsInv(s, actions[0]);
      RunKeepsMasters(Next(s, actions[0]), actions[1..]);
    }
  }

  /** Considerate runs never strand a master: whenever the master is active, the threads alone can come to the
      next global step. */
  lemma ConsiderateIsLive(n: nat, actions: seq<Action>)
    requires n <= MAX_CORES && Run(Init(n), actions) && ConsiderateRun(Init(n), actions)
    ensures var s := End(Init(n), actions);
            && (forall c :: !Stranded(s, c))
            && (s.minCore < |s.active| && s.active[s.minCore] ==> CanStep(s))
  {
    RunKeepsMasters(Init(n), actions);
    var s := End(Init(n), actions);
    if s.minCore < |s.active| && s.active[s.minCore] { MasterCanStep(s); }
  }

  /** Every inconsiderate activation can strand the master that it replaces: the threads may come to a global
      step, and when the core that was activated leaves right after it, the old master waits for good. */
  lemma InconsiderateStrands(s: State, c: nat) returns (actions: seq<Action>)
    requires Inv(s) && Enabled(s, Activate(c)) && Disciplined(s, Activate(c)) && !Considerate(s, Activate(c))
    ensures var s1 := Next(s, Activate(c)); Run(s1, actions) && Stranded(End(s1, actions), s.minCore)
  {
    var m, s1 := s.minCore, Next(s, Activate(c));
    assert CoreOk(s, m) && CoreOk(s, c);
    NextKeepsInv(s, Activate(c));
    LeadsNowhere(s1);
    if !s.finished[m] {
      actions := LeavesStranded(s1, s1, c, m);
    } else {
      var s2 := AllArrive(s1, s1, 0);
      var s3 := MasterSteps(s1, s2);
      var s4 := LeadsOn(s1, s3, Move(c));
      actions := LeavesStranded(s1, s4, c, m);
    }
  }

  /** Core c, the master, is outside, and leaves; core m becomes the master again. */
  lemma LeavesStranded(s1: State, s: State, c: nat, m: nat) returns (actions: seq<Action>)
    requires Shape(s1) && Leads(s1, s) && Inv(s) && !s.locked && c < m < |s.pcs| && s.pcs[c] == Outside
    requires s.active[m] && !s.finished[m] && s.pcs[m] == MasterSpin && forall i :: 0 <= i < m && i != c ==> !s.active[i]
    ensures Run(s1, actions) && Stranded(End(s1, actions), m)
  {
    actions :| Run(s1, actions) && Quiet(actions) && End(s1, actions) == s;
    Extend(s1, actions, Deactivate(c));
    NextKeepsInv(s, Deactivate(c));
    FirstIs(s.active[c := false], 0, m);
    actions := actions + [Deactivate(c)];
  }

  /** While core 0 is away core 1 is the master; it arrives. */
  lemma MasterArrives()
    ensures Reached(Three([false, true, false], [Outside, MasterCheck, Outside], true, [0, 1, 0], [0, 0, 0])
                    .(active := [false, true, true], minCore := 1))
  {
    ThreeCores();
    var s0 := Three([false, false, false], [Outside, Outside, Outside], false, [0, 0, 0], [0, 0, 0]);
    var s1 := s0.(active := [false, true, true], minCore := 1);
    var s2 := s1.(pcs := [Outside, Entering, Outside]);
    assert Reached(s1) by {
      assert s0.active[0 := false] == [false, true, true];
      Firsts(s1.active);
      ReachNext(s0, Deactivate(0), s1);
    }
    ReachNext(s1, Want(1), s2);
    var s3 := s2.(pcs := [Outside, MasterCheck, Outside], finished := [false, true, false], arrivals := [0, 1, 0], locked := true);
    assert s2.pcs[1 := MasterCheck] == s3.pcs;
    assert s2.finished[1 := true] == s3.finished && s2.arrivals[1 := 1] == s3.arrivals;
    ReachNext(s2, Move(1), s3);
  }

  /** Core 2 has not finished, so core 1 waits. */
  lemma MasterWaits()
    ensures Reached(Three([false, true, false], [Outside, MasterSpin, Outside], false, [0, 1, 0], [0, 0, 0])
                    .(active := [false, true, true], minCore := 1))
  {
    MasterArrives();
    var s0 := Three([false, true, false], [Outside, MasterCheck, Outside], true, [0, 1, 0], [0, 0, 0])
              .(active := [false, true, true], minCore := 1);
    Counts(s0.active);
    Counts(s0.finished);
    ReachNext(s0, Move(1), s0.(pcs := [Outside, MasterSpin, Outside], locked := false));
  }

  /** When core 0 comes back, a disciplined run goes on to strand core 1. */
  lemma MasterCanBeStranded() returns (s: State)
    ensures Shape(s) && Reached(s) && Stranded(s, 1)
  {
    MasterWaits();
    var s0 := Three([false, true, false], [Outside, MasterSpin, Outside], false, [0, 1, 0], [0, 0, 0])
              .(active := [false, true, true], minCore := 1);
    ReachedInv(s0);
    var s1 := Next(s0, Activate(0));
    ReachNext(s0, Activate(0), s1);
    var actions := InconsiderateStrands(s0, 0);
    s := End(s1, actions);
    ReachedOn(s1, actions);
  }

  lemma {:induction false} ReachedOn(s: State, actions: seq<Action>)
    requires Shape(s) && Reached(s) && Run(s, actions)
    ensures Reached(End(s, actions))
    decreases actions
  {
    if actions == [] {
    } else {
      ReachNext(s, actions[0], Next(s, actions[0]));
      ReachedOn(Next(s, actions[0]), actions[1..]);
    }
  }
}
