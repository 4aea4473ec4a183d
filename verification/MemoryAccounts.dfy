/** What a cycle of the memory controller does to each request, and what the controller's books say after any
    run (MC-simple.cpp). */
module MemoryAccounts {
  import opened Ticks
  import opened Sequences
  import opened MemoryController

  // ---------------------------------------------------------------- one cycle

  /** Request j of the queue has its data and has not gone back before this cycle. */
  ghost predicate Waiting(was: seq<Request>, log: seq<Request>, now: int, j: nat)
    requires j < |log| == |was|
  {
    log[j].finished.At? && log[j].finished.cycle <= now && was[j].returned == Never
  }

  /** Request j can go back, and nothing ahead of it in the queue takes the bus in this cycle. */
  ghost predicate GoesBack(was: seq<Request>, log: seq<Request>, from: nat, now: int, busFree: bool, j: nat)
    requires j < |log| == |was|
  {
    && from <= j && Waiting(was, log, now, j) && (log[j].payload.hasPrevCache ==> busFree)
    && forall i :: from <= i < j ==> !(busFree && log[i].payload.hasPrevCache && Waiting(was, log, now, i))
  }

  lemma {:induction false} ReturnIsExact(s: MC, k: nat, now: int, busFree: bool)
    requires k <= |s.log|
    ensures var s' := Return(s, k, now, busFree);
            && (forall j :: 0 <= j < |s.log| ==>
                  if GoesBack(s.log, s.log, k, now, busFree, j) then s'.log[j] == s.log[j].(returned := At(now))
                  else s'.log[j] == s.log[j])
            && s'.lastRequest == s.lastRequest && s'.nextAvailable == s.nextAvailable && s'.starts == s.starts
    decreases |s.log| - k
  {
    if k < |s.log| {
      var s' := Return(s, k, now, busFree);
      if !s.log[k].Returnable(now, busFree) {
        ReturnIsExact(s, k + 1, now, busFree);
        forall j | 0 <= j < |s.log|
          ensures GoesBack(s.log, s.log, k, now, busFree, j) <==> GoesBack(s.log, s.log, k + 1, now, busFree, j) {}
      } else if !s.log[k].payload.hasPrevCache {
        var t := ReturnOne(s, k, now);
        ReturnIsExact(t, k + 1, now, busFree);
        forall j | 0 <= j < |s.log| && j != k
          ensures GoesBack(s.log, s.log, k, now, busFree, j) <==> GoesBack(t.log, t.log, k + 1, now, busFree, j)
        {
          assert forall i :: k < i < |s.log| ==> Waiting(t.log, t.log, now, i) == Waiting(s.log, s.log, now, i);
        }
      }
    }
  }

  /** In a cycle request k is sent to DRAM, or none. */
  ghost predicate Sends(s: MC, s': MC, k: nat, now: int, latency: nat)
    requires k < |s.log| == |s'.log|
  {
    && s.retired <= k && s.log[k].started == Never
    && s'.log[k].started == At(now) && s'.log[k].finished == At(now + latency)
    && s'.starts == s.starts + [k]
    && s'.lastRequest == s.log[k].payload.addr / 4096 && s'.nextAvailable == now + 1
  }

  ghost predicate SendsNone(s: MC, s': MC) {
    s'.starts == s.starts && s'.lastRequest == s.lastRequest && s'.nextAvailable == s.nextAvailable
  }

  ghost predicate Unchanged(r: Request, r': Request) {
    r'.payload == r.payload && r'.enqueued == r.enqueued && r'.started == r.started && r'.finished == r.finished
  }

  /** One cycle with requests in the queue. It sends a request if it is time to and one is left to send; the request
      sent is finished after the latency. Exactly the requests that GoesBack describes go back; the head leaves
      exactly if it is back. */
  lemma CycleIsExact(s: MC, size: nat, fifo: bool, now: int, latency: nat, busFree: bool)
    requires Inv(s, size) && Queued(s) > 0
    ensures var s', k := Step(s, fifo, now, latency, busFree), Pick(s, fifo);
            && |s'.log| == |s.log|
            && (if s.nextAvailable <= now && (exists j :: s.retired <= j < |s.log| && s.log[j].started == Never)
                then k < |s.log| && Sends(s, s', k, now, latency) else SendsNone(s, s'))
            && (forall j :: 0 <= j < |s.log| && !(s'.starts != s.starts && j == k) ==> Unchanged(s.log[j], s'.log[j]))
    ensures var s' := Step(s, fifo, now, latency, busFree);
            && (forall j :: 0 <= j < |s.log| ==>
                  if GoesBack(s.log, s'.log, s.retired, now, busFree, j) then s'.log[j].returned == At(now)
                  else s'.log[j].returned == s.log[j].returned)
            && s'.retired == s.retired + (if s'.log[s.retired].returned.By(now) then 1 else 0)
  {
    hide Inv, Return, Pick, GoesBack;
    assert s.retired <= |s.log| by { QueueInLog(s, size); }
    PickIsRight(s, fifo);
    var s1 := Start(s, fifo, now, latency);
    ReturnIsExact(s1, s1.retired, now, busFree);
    var s2 := Return(s1, s1.retired, now, busFree);
    forall j | 0 <= j < |s.log|
      ensures GoesBack(s.log, s2.log, s.retired, now, busFree, j) <==> GoesBack(s1.log, s1.log, s.retired, now, busFree, j)
    {
      SameGoBack(s.log, s2.log, s1.log, s.retired, now, busFree, j);
    }
  }

  lemma SameGoBack(was: seq<Request>, log: seq<Request>, mid: seq<Request>, from: nat, now: int, busFree: bool, j: nat)
    requires j < |log| == |was| == |mid|
    requires forall i :: 0 <= i < |log| ==>
               log[i].finished == mid[i].finished && log[i].payload == mid[i].payload && mid[i].returned == was[i].returned
    ensures GoesBack(was, log, from, now, busFree, j) <==> GoesBack(mid, mid, from, now, busFree, j)
  {
    assert forall i :: 0 <= i < |log| ==> Waiting(was, log, now, i) == Waiting(mid, mid, now, i);
  }

  lemma QueueInLog(s: MC, size: nat)
    requires Inv(s, size)
    ensures s.retired <= |s.log|
  {
  }

  // ---------------------------------------------------------------- latencies over runs

  /** The request was sent in one of these cycles, and is finished after the DRAM latency of that cycle. */
  ghost predicate SentIn(events: seq<Event>, r: Request) {
    exists i :: 0 <= i < |events| && events[i].Cycle?
                && r.started == At(events[i].now) && r.finished == At(events[i].now + events[i].latency)
  }

  lemma SentBefore(events: seq<Event>, r: Request)
    requires events != [] && (SentIn([events[0]], r) || SentIn(events[1..], r))
    ensures SentIn(events, r)
  {
    if SentIn([events[0]], r) {
      assert [events[0]][0] == events[0];
    } else {
      var i :| 0 <= i < |events| - 1 && events[1..][i].Cycle?
               && r.started == At(events[1..][i].now) && r.finished == At(events[1..][i].now + events[1..][i].latency);
      assert events[i + 1] == events[1..][i];
    }
  }

  lemma SentNow(s: MC, size: nat, fifo: bool, e: Event, n: nat)
    requires Inv(s, size) && n < |s.log| && s.log[n].started == Never && s.retired <= |s.log|
    ensures var s' := Apply(s, size, fifo, e);
            n < |s'.log| && (s'.log[n].started.At? ==> SentIn([e], s'.log[n]))
  {
    hide Pick, Return, SentIn, GoesBack, Inv;
    if e.Cycle? && Queued(s) > 0 {
      CycleIsExact(s, size, fifo, e.now, e.latency, e.busFree);
      var r := Step(s, fifo, e.now, e.latency, e.busFree).log[n];
      if r.started.At? { IsSent(e, r); }
    }
  }

  lemma IsSent(e: Event, r: Request)
    requires e.Cycle? && r.started == At(e.now) && r.finished == At(e.now + e.latency)
    ensures SentIn([e], r)
  {
    assert [e][0] == e;
  }

  lemma NotYet(s: MC, size: nat, fifo: bool, e: Event, n: nat)
    requires Inv(s, size) && n >= |s.log| && s.retired <= |s.log|
    ensures var s' := Apply(s, size, fifo, e); n < |s'.log| ==> s'.log[n].started == Never
  {
    if e.Cycle? { StepKeepsInv(s, size, fifo, e.now, e.latency, e.busFree); }
  }

  /** A request that is sent to DRAM during a run was sent in one of its cycles, and its data are there after exactly
      the DRAM latency of that cycle. */
  lemma {:induction false} EveryRequestTakesItsLatency(s: MC, size: nat, fifo: bool, events: seq<Event>, n: nat)
    requires Inv(s, size) && n < |Run(s, size, fifo, events).log| && Run(s, size, fifo, events).log[n].started.At?
    requires n < |s.log| ==> s.log[n].started == Never
    ensures SentIn(events, Run(s, size, fifo, events).log[n])
    decreases events
  {
    hide Inv, Apply, SentIn, Extends;
    if events != [] {
      QueueInLog(s, size);
      var s1 := Apply(s, size, fifo, events[0]);
      var r := Run(s, size, fifo, events).log[n];
      ApplyKeepsInv(s, size, fifo, events[0]);
      if n < |s.log| { SentNow(s, size, fifo, events[0], n); } else { NotYet(s, size, fifo, events[0], n); }
      if n < |s1.log| && s1.log[n].started.At? {
        RunExtends(s1, size, fifo, events[1..]);
        StaysSent(s1, Run(s1, size, fifo, events[1..]), n, [events[0]]);
      } else {
        EveryRequestTakesItsLatency(s1, size, fifo, events[1..], n);
      }
      SentBefore(events, r);
    }
  }

  lemma StaysSent(s: MC, s': MC, n: nat, events: seq<Event>)
    requires Extends(s, s') && n < |s.log| && s.log[n].started.At? && SentIn(events, s.log[n])
    ensures n < |s'.log| && SentIn(events, s'.log[n])
  {
    assert s'.log[n].started == s.log[n].started && s'.log[n].finished == s.log[n].finished;
  }

  /** So with DRAM latencies of at least `least` no request comes back earlier than that. */
  lemma NoneBackEarly(s: MC, size: nat, fifo: bool, events: seq<Event>, n: nat, least: nat)
    requires Inv(s, size) && (n < |s.log| ==> s.log[n].started == Never)
    requires forall e :: e in events && e.Cycle? ==> e.latency >= least
    requires var s' := Run(s, size, fifo, events); n < |s'.log| && s'.log[n].returned.At?
    ensures var r := Run(s, size, fifo, events).log[n]; r.started.At? && r.returned.cycle >= r.started.cycle + least
  {
    var s' := Run(s, size, fifo, events);
    assert s'.log[n].Valid();
    EveryRequestTakesItsLatency(s, size, fifo, events, n);
  }

  // ---------------------------------------------------------------- the books

  function Total(log: seq<Request>, f: Request -> int): int {
    if log == [] then 0 else Total(log[..|log| - 1], f) + f(log[|log| - 1])
  }

  function DramTime(r: Request): int {
    if r.started.At? && r.finished.At? then r.finished.cycle - r.started.cycle else 0
  }

  function ServiceTime(r: Request): int {
    if r.returned.At? then r.returned.cycle - r.enqueued else 0
  }

  /** The totals are those of all requests so far, and the open page and the next cycle for a start are given by
      the request that was sent last. */
  ghost predicate BooksOk(s: MC) {
    && s.dramCycles == Total(s.log, DramTime) && s.serviceCycles == Total(s.log, ServiceTime)
    && (if s.starts == [] then s.lastRequest == 0 && s.nextAvailable == 0
        else var k := s.starts[|s.starts| - 1];
             && k < |s.log| && s.lastRequest == s.log[k].payload.addr / 4096
             && s.log[k].started.At? && s.nextAvailable == s.log[k].started.cycle + 1)
  }

  lemma {:induction false} TotalAfter(log: seq<Request>, k: nat, r: Request, f: Request -> int)
    requires k < |log|
    ensures Total(log[k := r], f) == Total(log, f) - f(log[k]) + f(r)
  {
    var n := |log| - 1;
    if k == n {
      assert log[k := r][..n] == log[..n];
    } else {
      TotalAfter(log[..n], k, r, f);
      assert log[k := r][..n] == log[..n][k := r];
    }
  }

  lemma StartKeepsBooks(s: MC, size: nat, fifo: bool, now: int, latency: nat)
    requires Inv(s, size) && BooksOk(s)
    ensures s.retired <= |s.log| && BooksOk(Start(s, fifo, now, latency))
  {
    hide Pick;
    PickIsRight(s, fifo);
    var k := Pick(s, fifo);
    if s.nextAvailable <= now && k < |s.log| {
      assert s.log[k].Valid();
      var r := s.log[k].(started := At(now), finished := At(now + latency));
      TotalAfter(s.log, k, r, DramTime);
      TotalAfter(s.log, k, r, ServiceTime);
    }
  }

  lemma ReturnOneKeepsBooks(s: MC, k: nat, now: int)
    requires k < |s.log| && s.log[k].returned == Never && BooksOk(s)
    ensures BooksOk(ReturnOne(s, k, now))
  {
    var r := s.log[k].(returned := At(now));
    TotalAfter(s.log, k, r, DramTime);
    TotalAfter(s.log, k, r, ServiceTime);
  }

  lemma {:induction false} ReturnKeepsBooks(s: MC, k: nat, now: int, busFree: bool)
    requires k <= |s.log| && BooksOk(s)
    ensures BooksOk(Return(s, k, now, busFree))
    decreases |s.log| - k
  {
    hide BooksOk;
    if k == |s.log| {
    } else if !s.log[k].Returnable(now, busFree) {
      ReturnKeepsBooks(s, k + 1, now, busFree);
    } else {
      ReturnOneKeepsBooks(s, k, now);
      if !s.log[k].payload.hasPrevCache {
        ReturnKeepsBooks(ReturnOne(s, k, now), k + 1, now, busFree);
      }
    }
  }

  lemma ApplyKeepsBooks(s: MC, size: nat, fifo: bool, e: Event)
    requires Inv(s, size) && BooksOk(s)
    ensures s.retired <= |s.log| && BooksOk(Apply(s, size, fifo, e))
  {
    hide Start, Return, Inv;
    QueueInLog(s, size);
    match e
    case Arrive(p, at) =>
      if Queued(s) < size {
        var more := s.log + [Fresh(p, at)];
        assert more[..|s.log|] == s.log;
      }
    case Cycle(now, latency, busFree) =>
      StartKeepsBooks(s, size, fifo, now, latency);
      var s1 := Start(s, fifo, now, latency);
      ReturnKeepsBooks(s1, s1.retired, now, busFree);
  }

  /** The books are right after every run. */
  lemma {:induction false} BooksAreRight(s: MC, size: nat, fifo: bool, events: seq<Event>)
    requires Inv(s, size) && BooksOk(s)
    ensures BooksOk(Run(s, size, fifo, events))
    decreases events
  {
    hide Inv, BooksOk, Apply;
    if events != [] {
      ApplyKeepsInv(s, size, fifo, events[0]);
      ApplyKeepsBooks(s, size, fifo, events[0]);
      BooksAreRight(Apply(s, size, fifo, events[0]), size, fifo, events[1..]);
    }
  }

  lemma BooksStart()
    ensures BooksOk(Empty())
  {
  }
}
