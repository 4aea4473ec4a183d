/** The memory controller's schedule as a function of its request log (MC-simple.cpp).

    `log` holds every request ever accepted, in order of arrival; the first `retired` of them have left
    the queue. A request is known by its position in the log. */
module MemoryController {
  import opened Ticks
  import opened Sequences

  const PAGE_BYTES := 4096

  datatype Command = Read | Write | Writeback | Prefetch

  datatype Payload = Payload(hasPrevCache: bool, prevCache: nat, cmd: Command, addr: nat, lineSize: nat,
                             mshrBank: int, mshrIndex: int)
  {
    function Page(): nat { addr / PAGE_BYTES }
  }

  datatype Request = Request(payload: Payload, enqueued: int, started: Tick, finished: Tick, returned: Tick)
  {
    /** The request is back, or can go back in a cycle where the bus is (not) free. */
    predicate Returnable(now: int, busFree: bool) {
      finished.By(now) && returned == Never && (!payload.hasPrevCache || busFree)
    }

    ghost predicate Valid() {
      && (started == Never ==> finished == Never)
      && (finished == Never ==> returned == Never)
      && (started.At? ==> finished.At? && started.cycle <= finished.cycle)
      && (returned.At? ==> finished.At? && finished.cycle <= returned.cycle)
    }
  }

  /** `starts` and `fills` record, in order, which requests were sent to DRAM and which filled the
      previous cache level. */
  datatype MC = MC(log: seq<Request>, retired: nat, starts: seq<nat>, fills: seq<nat>,
                   lastRequest: nat, nextAvailable: int, dramCycles: int, serviceCycles: int)

  function Fresh(p: Payload, now: int): Request {
    Request(p, now, Never, Never, Never)
  }

  function Empty(): MC { MC([], 0, [], [], 0, 0, 0, 0) }

  function Queued(s: MC): int { |s.log| - s.retired }

  /** A full controller ignores the request: callers ask first. */
  function Enqueue(s: MC, size: nat, p: Payload, now: int): MC {
    if Queued(s) < size then s.(log := s.log + [Fresh(p, now)]) else s
  }

  /** The first request from position `from` on that has not been sent to DRAM. */
  function FirstUnstarted(log: seq<Request>, from: nat): (k: nat)
    requires from <= |log|
    ensures from <= k <= |log|
    decreases |log| - from
  {
    if from == |log| || log[from].started == Never then from else FirstUnstarted(log, from + 1)
  }

  /** The first such request to the given page. */
  function FirstOnPage(log: seq<Request>, from: nat, page: nat): (k: nat)
    requires from <= |log|
    ensures from <= k <= |log|
    decreases |log| - from
  {
    if from == |log| || (log[from].started == Never && log[from].payload.Page() == page) then from
    else FirstOnPage(log, from + 1, page)
  }

  /** The request to send next: the oldest one to the open page, otherwise the oldest one; always the
      oldest one under FIFO scheduling. The result |s.log| stands for none. */
  function Pick(s: MC, fifo: bool): (k: nat)
    requires s.retired <= |s.log|
    ensures s.retired <= k <= |s.log|
  {
    var oldest := FirstUnstarted(s.log, s.retired);
    var samePage := FirstOnPage(s.log, s.retired, s.lastRequest);
    if !fifo && samePage < |s.log| then samePage else oldest
  }

  lemma {:induction false} FirstUnstartedIsFirst(log: seq<Request>, from: nat)
    requires from <= |log|
    ensures var k := FirstUnstarted(log, from);
            (k < |log| ==> log[k].started == Never) && forall j :: from <= j < k ==> log[j].started != Never
    decreases |log| - from
  {
    if from < |log| && log[from].started != Never { FirstUnstartedIsFirst(log, from + 1); }
  }

  lemma {:induction false} FirstOnPageIsFirst(log: seq<Request>, from: nat, page: nat)
    requires from <= |log|
    ensures var k := FirstOnPage(log, from, page);
            && (k < |log| ==> log[k].started == Never && log[k].payload.Page() == page)
            && forall j :: from <= j < k && log[j].started == Never ==> log[j].payload.Page() != page
    decreases |log| - from
  {
    if from < |log| && !(log[from].started == Never && log[from].payload.Page() == page) {
      FirstOnPageIsFirst(log, from + 1, page);
    }
  }

  /** What the scan guarantees: it finds an unstarted request if there is one, prefers the open page,
      and never skips an older request without that reason. */
  lemma {:induction false} PickIsRight(s: MC, fifo: bool)
    requires s.retired <= |s.log|
    ensures var k := Pick(s, fifo);
            && (k == |s.log| <==> forall j :: s.retired <= j < |s.log| ==> s.log[j].started != Never)
            && (k < |s.log| ==> s.log[k].started == Never)
            && (forall j :: s.retired <= j < k && s.log[j].started == Never ==>
                  !fifo && k < |s.log| && s.log[k].payload.Page() == s.lastRequest)
            && (!fifo ==> forall j :: s.retired <= j < k && s.log[j].started == Never ==>
                  s.log[j].payload.Page() != s.lastRequest)
            && (!fifo && k < |s.log| && s.log[k].payload.Page() != s.lastRequest ==>
                  forall j :: s.retired <= j < |s.log| && s.log[j].started == Never ==>
                    k <= j && s.log[j].payload.Page() != s.lastRequest)
  {
    FirstUnstartedIsFirst(s.log, s.retired);
    FirstOnPageIsFirst(s.log, s.retired, s.lastRequest);
  }

  function Start(s: MC, fifo: bool, now: int, latency: nat): (s': MC)
    requires s.retired <= |s.log|
    ensures |s'.log| == |s.log| && s'.retired == s.retired
  {
    var k := Pick(s, fifo);
    if s.nextAvailable <= now && k < |s.log| then
      s.(log := s.log[k := s.log[k].(started := At(now), finished := At(now + latency))],
         starts := s.starts + [k],
         lastRequest := s.log[k].payload.Page(),
         nextAvailable := now + 1,
         dramCycles := s.dramCycles + latency)
    else s
  }

  /** Request k goes back; its previous cache level, if any, is filled. */
  function ReturnOne(s: MC, k: nat, now: int): MC
    requires k < |s.log|
  {
    s.(log := s.log[k := s.log[k].(returned := At(now))],
       serviceCycles := s.serviceCycles + (now - s.log[k].enqueued),
       fills := if s.log[k].payload.hasPrevCache then s.fills + [k] else s.fills)
  }

  /** Return finished requests from position k on; stop after one that fills a cache. */
  function Return(s: MC, k: nat, now: int, busFree: bool): (s': MC)
    requires k <= |s.log|
    ensures |s'.log| == |s.log| && s'.retired == s.retired
    decreases |s.log| - k
  {
    if k == |s.log| then s
    else if !s.log[k].Returnable(now, busFree) then Return(s, k + 1, now, busFree)
    else if s.log[k].payload.hasPrevCache then ReturnOne(s, k, now)
    else Return(ReturnOne(s, k, now), k + 1, now, busFree)
  }

  /** The head leaves once it has been returned. */
  function Retire(s: MC, now: int): MC {
    if s.retired < |s.log| && s.log[s.retired].returned.By(now) then s.(retired := s.retired + 1) else s
  }

  /** One cycle. The environment chooses the DRAM latency and whether the bus is free. */
  function Step(s: MC, fifo: bool, now: int, latency: nat, busFree: bool): MC
    requires s.retired <= |s.log|
  {
    if Queued(s) > 0 then
      var s1 := Start(s, fifo, now, latency);
      Retire(Return(s1, s1.retired, now, busFree), now)
    else s
  }

  // ---------------------------------------------------------------- what every step keeps

  ghost predicate Filled(s: MC, k: nat)
    requires k < |s.log|
  {
    s.log[k].payload.hasPrevCache && s.log[k].returned.At?
  }

  ghost predicate Inv(s: MC, size: nat) {
    && s.retired <= |s.log| <= s.retired + size
    && (forall k :: 0 <= k < |s.log| ==> s.log[k].Valid())
    && (forall k :: 0 <= k < s.retired ==> s.log[k].returned.At?)
    // every request with a previous cache level is filled exactly once, when it is returned
    && Distinct(s.fills)
    && (forall i :: 0 <= i < |s.fills| ==> s.fills[i] < |s.log|)
    && (forall k :: 0 <= k < |s.log| ==> (k in s.fills <==> Filled(s, k)))
    // every request is sent to DRAM at most once
    && Distinct(s.starts)
    && (forall i :: 0 <= i < |s.starts| ==> s.starts[i] < |s.log|)
    && (forall k :: 0 <= k < |s.log| ==> (k in s.starts <==> s.log[k].started.At?))
  }

  /** Requests keep their identity and their place, and what has happened to them stays. */
  ghost predicate Extends(s: MC, s': MC) {
    && |s.log| <= |s'.log| && s.retired <= s'.retired
    && s.starts <= s'.starts && s.fills <= s'.fills
    && forall k :: 0 <= k < |s.log| ==>
         && s'.log[k].payload == s.log[k].payload && s'.log[k].enqueued == s.log[k].enqueued
         && (s.log[k].started.At? ==> s'.log[k].started == s.log[k].started
                                      && s'.log[k].finished == s.log[k].finished)
         && (s.log[k].returned.At? ==> s'.log[k].returned == s.log[k].returned)
  }

  lemma {:induction false} StartKeepsInv(s: MC, size: nat, fifo: bool, now: int, latency: nat)
    requires Inv(s, size)
    ensures var s' := Start(s, fifo, now, latency); Inv(s', size) && Extends(s, s') && s'.fills == s.fills
  {
    var s' := Start(s, fifo, now, latency);
    var k := Pick(s, fifo);
    PickIsRight(s, fifo);
    if s'.starts != s.starts {
      assert k !in s.starts;
      forall j | 0 <= j < |s'.log| ensures j in s'.starts <==> s'.log[j].started.At? {
        assert j in s'.starts <==> j in s.starts || j == k;
      }
      forall j | 0 <= j < |s'.log| ensures j in s'.fills <==> Filled(s', j) {
        assert j in s.fills <==> Filled(s, j);
      }
    }
  }

  lemma {:induction false} ReturnOneKeepsInv(s: MC, size: nat, k: nat, now: int, busFree: bool)
    requires Inv(s, size) && k < |s.log| && s.log[k].Returnable(now, busFree)
    ensures Inv(ReturnOne(s, k, now), size) && Extends(s, ReturnOne(s, k, now))
  {
    var s' := ReturnOne(s, k, now);
    assert k !in s.fills by { assert !Filled(s, k); }
    forall j | 0 <= j < |s'.log| ensures j in s'.fills <==> Filled(s', j) {
      assert j in s.fills <==> Filled(s, j);
      assert j in s'.fills <==> j in s.fills || (j == k && s.log[k].payload.hasPrevCache);
    }
    assert s'.log[k].Valid() by { assert s.log[k].Valid(); }
  }

  lemma ExtendsSelf(s: MC)
    ensures Extends(s, s)
  {
  }

  lemma ExtendsThrough(s: MC, t: MC, u: MC)
    requires Extends(s, t) && Extends(t, u)
    ensures Extends(s, u)
  {
  }

  lemma {:induction false} ReturnKeepsInv(s: MC, size: nat, k: nat, now: int, busFree: bool)
    requires Inv(s, size) && k <= |s.log|
    ensures var s' := Return(s, k, now, busFree);
            Inv(s', size) && Extends(s, s') && s'.starts == s.starts && |s'.fills| <= |s.fills| + 1
    decreases |s.log| - k
  {
    hide Inv, Extends;
    ExtendsSelf(s);
    if k < |s.log| {
      if s.log[k].Returnable(now, busFree) {
        ReturnOneKeepsInv(s, size, k, now, busFree);
        if !s.log[k].payload.hasPrevCache {
          ReturnKeepsInv(ReturnOne(s, k, now), size, k + 1, now, busFree);
          ExtendsThrough(s, ReturnOne(s, k, now), Return(s, k, now, busFree));
        }
      } else {
        ReturnKeepsInv(s, size, k + 1, now, busFree);
      }
    }
  }

  lemma RetireKeepsInv(s: MC, size: nat, now: int)
    requires Inv(s, size)
    ensures var s' := Retire(s, now); Inv(s', size) && Extends(s, s') && s'.log == s.log && s'.retired <= s.retired + 1
  {
    var s' := Retire(s, now);
    forall j | 0 <= j < |s'.log| ensures j in s'.fills <==> Filled(s', j) {
      assert j in s.fills <==> Filled(s, j);
    }
  }

  /** One cycle keeps the bookkeeping, sends at most one request to DRAM, fills at most once and
      retires at most one request. */
  lemma {:induction false} StepKeepsInv(s: MC, size: nat, fifo: bool, now: int, latency: nat, busFree: bool)
    requires Inv(s, size)
    ensures var s' := Step(s, fifo, now, latency, busFree);
            && Inv(s', size) && Extends(s, s') && |s'.log| == |s.log|
            && |s'.starts| <= |s.starts| + 1 && |s'.fills| <= |s.fills| + 1 && s'.retired <= s.retired + 1
  {
    hide Extends, Pick, Return;
    if Queued(s) > 0 {
      var s1 := Start(s, fifo, now, latency);
      StartKeepsInv(s, size, fifo, now, latency);
      var s2 := Return(s1, s1.retired, now, busFree);
      ReturnKeepsInv(s1, size, s1.retired, now, busFree);
      RetireKeepsInv(s2, size, now);
      ExtendsThrough(s, s1, s2);
      ExtendsThrough(s, s2, Retire(s2, now));
    } else {
      ExtendsSelf(s);
    }
  }

  lemma {:induction false} EnqueueKeepsInv(s: MC, size: nat, p: Payload, now: int)
    requires Inv(s, size)
    ensures var s' := Enqueue(s, size, p, now); Inv(s', size) && Extends(s, s')
  {
    var s' := Enqueue(s, size, p, now);
    forall j | 0 <= j < |s'.log| ensures j in s'.fills <==> Filled(s', j) {
      if j < |s.log| { assert j in s.fills <==> Filled(s, j); }
    }
  }

  // ---------------------------------------------------------------- runs

  datatype Event =
    | Arrive(p: Payload, at: int)
    | Cycle(now: int, latency: nat, busFree: bool)

  function Apply(s: MC, size: nat, fifo: bool, e: Event): MC
    requires s.retired <= |s.log|
  {
    match e
    case Arrive(p, at) => Enqueue(s, size, p, at)
    case Cycle(now, latency, busFree) => Step(s, fifo, now, latency, busFree)
  }

  lemma {:induction false} ApplyKeepsInv(s: MC, size: nat, fifo: bool, e: Event)
    requires Inv(s, size)
    ensures Inv(Apply(s, size, fifo, e), size) && Extends(s, Apply(s, size, fifo, e))
  {
    match e
    case Arrive(p, at) => EnqueueKeepsInv(s, size, p, at);
    case Cycle(now, latency, busFree) => StepKeepsInv(s, size, fifo, now, latency, busFree);
  }

  ghost function Run(s: MC, size: nat, fifo: bool, events: seq<Event>): (s': MC)
    requires Inv(s, size)
    ensures Inv(s', size)
    decreases events
  {
    if events == [] then s
    else
      ApplyKeepsInv(s, size, fifo, events[0]);
      Run(Apply(s, size, fifo, events[0]), size, fifo, events[1..])
  }

  /** The arrivals accepted during a run. */
  ghost function Accepted(s: MC, size: nat, fifo: bool, events: seq<Event>): seq<Event>
    requires Inv(s, size)
    decreases events
  {
    if events == [] then []
    else
      ApplyKeepsInv(s, size, fifo, events[0]);
      var rest := Accepted(Apply(s, size, fifo, events[0]), size, fifo, events[1..]);
      if events[0].Arrive? && Queued(s) < size then [events[0]] + rest else rest
  }

  /** What arrived, and when. */
  ghost function Arrivals(log: seq<Request>): (arrivals: seq<Event>)
    ensures |arrivals| == |log| && forall k :: 0 <= k < |log| ==> arrivals[k] == Arrive(log[k].payload, log[k].enqueued)
  {
    seq(|log|, k requires 0 <= k < |log| => Arrive(log[k].payload, log[k].enqueued))
  }

  lemma {:induction false} RunExtends(s: MC, size: nat, fifo: bool, events: seq<Event>)
    requires Inv(s, size)
    ensures Extends(s, Run(s, size, fifo, events))
    decreases events
  {
    if events == [] {
    } else {
      ApplyKeepsInv(s, size, fifo, events[0]);
      RunExtends(Apply(s, size, fifo, events[0]), size, fifo, events[1..]);
    }
  }

  /** Nothing is lost, duplicated or reordered: over any run the requests retired, followed by those
      still queued, are those accepted, in order of arrival. */
  lemma {:induction false} Conservation(s: MC, size: nat, fifo: bool, events: seq<Event>)
    requires Inv(s, size)
    ensures var s' := Run(s, size, fifo, events);
            Arrivals(s'.log[..s'.retired]) + Arrivals(s'.log[s'.retired..])
              == Arrivals(s.log) + Accepted(s, size, fifo, events)
    decreases events
  {
    hide Apply, Extends;
    if events == [] {
    } else {
      ApplyKeepsInv(s, size, fifo, events[0]);
      ApplyConserves(s, size, fifo, events[0]);
      Conservation(Apply(s, size, fifo, events[0]), size, fifo, events[1..]);
    }
  }

  lemma {:induction false} ApplyConserves(s: MC, size: nat, fifo: bool, e: Event)
    requires Inv(s, size)
    ensures Arrivals(Apply(s, size, fifo, e).log)
            == Arrivals(s.log) + if e.Arrive? && Queued(s) < size then [e] else []
  {
    if e.Cycle? {
      StepKeepsInv(s, size, fifo, e.now, e.latency, e.busFree);
      assert Arrivals(Apply(s, size, fifo, e).log) == Arrivals(s.log);
    } else {
      EnqueueKeepsInv(s, size, e.p, e.at);
    }
  }

  // ---------------------------------------------------------------- starvation

  function CountStarted(log: seq<Request>): (n: nat)
    ensures n <= |log|
  {
    if log == [] then 0 else CountStarted(log[..|log| - 1]) + (if log[|log| - 1].started.At? then 1 else 0)
  }

  function UnstartedAhead(s: MC, n: nat): nat
    requires n < |s.log|
  {
    n - CountStarted(s.log[..n])
  }

  function StartedBehind(s: MC, n: nat): nat
    requires n < |s.log|
  {
    CountStarted(s.log[n + 1..])
  }

  /** How many other requests can still be sent to DRAM before request n. */
  function Patience(s: MC, size: nat, n: nat): int
    requires n < |s.log|
  {
    UnstartedAhead(s, n) + (size - 1 - StartedBehind(s, n))
  }

  lemma {:induction false} CountAfterStart(log: seq<Request>, k: nat, r: Request)
    requires k < |log| && !log[k].started.At? && r.started.At?
    ensures CountStarted(log[k := r]) == CountStarted(log) + 1
  {
    if k == |log| - 1 {
      assert log[k := r][..k] == log[..k];
    } else {
      CountAfterStart(log[..|log| - 1], k, r);
      assert log[k := r][..|log| - 1] == log[..|log| - 1][k := r];
    }
  }

  lemma {:induction false} CountSame(a: seq<Request>, b: seq<Request>)
    requires |a| == |b| && forall k :: 0 <= k < |a| ==> a[k].started.At? == b[k].started.At?
    ensures CountStarted(a) == CountStarted(b)
  {
    if a == [] {
    } else {
      CountSame(a[..|a| - 1], b[..|b| - 1]);
    }
  }

  lemma {:induction false} CountPrefix(log: seq<Request>, k: nat)
    requires k <= |log| && forall j :: 0 <= j < k ==> log[j].started.At?
    ensures CountStarted(log[..k]) == k
  {
    if k == 0 {
    } else {
      CountPrefix(log, k - 1);
      assert log[..k][..k - 1] == log[..k - 1];
    }
  }

  lemma {:induction false} CountAtLeast(log: seq<Request>, k: nat)
    requires k <= |log|
    ensures CountStarted(log[..k]) <= CountStarted(log) <= CountStarted(log[..k]) + (|log| - k)
  {
    if k < |log| {
      CountAtLeast(log[..|log| - 1], k);
      assert log[..|log| - 1][..k] == log[..k];
    } else {
      assert log[..k] == log;
    }
  }

  /** An unstarted request is still queued, and so is everything behind it: its patience is between 0
      and the requests ahead of it in the queue plus the rest of the queue. */
  lemma {:induction false} PatienceBounds(s: MC, size: nat, n: nat)
    requires Inv(s, size) && n < |s.log| && s.log[n].started == Never
    ensures s.retired <= n && UnstartedAhead(s, n) <= n - s.retired
    ensures 0 <= Patience(s, size, n) <= n - s.retired + size - 1
  {
    assert s.log[n].Valid();
    forall j | 0 <= j < s.retired ensures s.log[j].started.At? { assert s.log[j].Valid(); }
    CountPrefix(s.log, s.retired);
    CountAtLeast(s.log[..n], s.retired);
    assert s.log[..n][..s.retired] == s.log[..s.retired];
  }

  /** The part of Return that starvation depends on. */
  lemma {:induction false} ReturnStartsNothing(s: MC, k: nat, now: int, busFree: bool)
    requires k <= |s.log|
    ensures var s' := Return(s, k, now, busFree);
            && s'.starts == s.starts && s'.nextAvailable == s.nextAvailable
            && forall j :: 0 <= j < |s.log| ==> s'.log[j].started == s.log[j].started
    decreases |s.log| - k
  {
    if k < |s.log| {
      if !s.log[k].Returnable(now, busFree) {
        ReturnStartsNothing(s, k + 1, now, busFree);
      } else if !s.log[k].payload.hasPrevCache {
        ReturnStartsNothing(ReturnOne(s, k, now), k + 1, now, busFree);
      }
    }
  }

  lemma {:induction false} ReturnCostsNothing(s: MC, size: nat, k: nat, now: int, busFree: bool, n: nat)
    requires k <= |s.log| && n < |s.log|
    ensures var s' := Return(s, k, now, busFree);
            && s'.starts == s.starts && s'.nextAvailable == s.nextAvailable
            && s'.log[n].started == s.log[n].started && Patience(s', size, n) == Patience(s, size, n)
  {
    ReturnStartsNothing(s, k, now, busFree);
    var s' := Return(s, k, now, busFree);
    CountSame(s'.log[..n], s.log[..n]);
    CountSame(s'.log[n + 1..], s.log[n + 1..]);
  }

  /** A start of another request costs request n one unit of patience, wherever the other request is. */
  lemma {:induction false} StartCostsPatience(s: MC, size: nat, fifo: bool, now: int, latency: nat, n: nat)
    requires Inv(s, size) && n < |s.log| && s.log[n].started == Never
    requires s.nextAvailable <= now
    ensures var s' := Start(s, fifo, now, latency);
            && s'.nextAvailable == now + 1
            && |s'.starts| == |s.starts| + 1
            && (s'.log[n].started == Never ==> Patience(s', size, n) == Patience(s, size, n) - 1)
  {
    hide Inv, FirstOnPage, FirstUnstarted;
    PatienceBounds(s, size, n);
    var k := Pick(s, fifo);
    PickIsRight(s, fifo);
    var s' := Start(s, fifo, now, latency);
    if k < n {
      CountAfterStart(s.log[..n], k, s'.log[k]);
      assert s'.log[..n] == s.log[..n][k := s'.log[k]];
      assert s'.log[n + 1..] == s.log[n + 1..];
    } else if k > n {
      CountAfterStart(s.log[n + 1..], k - n - 1, s'.log[k]);
      assert s'.log[n + 1..] == s.log[n + 1..][k - n - 1 := s'.log[k]];
      assert s'.log[..n] == s.log[..n];
    }
  }

  lemma {:induction false} StepCostsPatience(s: MC, size: nat, fifo: bool, now: int, latency: nat, busFree: bool, n: nat)
    requires Inv(s, size) && n < |s.log| && s.log[n].started == Never
    ensures var s' := Step(s, fifo, now, latency, busFree);
            && (s.nextAvailable <= now ==> |s'.starts| == |s.starts| + 1 && s'.nextAvailable == now + 1)
            && (s.nextAvailable > now ==> s'.starts == s.starts && s'.nextAvailable == s.nextAvailable)
            && (s'.log[n].started == Never ==>
                  Patience(s', size, n) == Patience(s, size, n) - (|s'.starts| - |s.starts|))
  {
    PatienceBounds(s, size, n);
    var s1 := Start(s, fifo, now, latency);
    if s.nextAvailable <= now {
      StartCostsPatience(s, size, fifo, now, latency, n);
    }
    ReturnCostsNothing(s1, size, s1.retired, now, busFree, n);
  }

  /** A later arrival costs nothing. */
  lemma {:induction false} ArrivalIsFree(s: MC, size: nat, p: Payload, now: int, n: nat)
    requires n < |s.log|
    ensures var s' := Enqueue(s, size, p, now);
            s'.log[n] == s.log[n] && s'.starts == s.starts && s'.nextAvailable == s.nextAvailable
            && Patience(s', size, n) == Patience(s, size, n)
  {
    var s' := Enqueue(s, size, p, now);
    assert s'.log[..n] == s.log[..n];
    if s' != s {
      var behind := s'.log[n + 1..];
      assert behind[..|behind| - 1] == s.log[n + 1..];
    }
  }

  /** What one event does to the wait of request n. */
  lemma {:induction false} WhileWaiting(s: MC, size: nat, fifo: bool, e: Event, n: nat)
    requires Inv(s, size) && n < |s.log| && s.log[n].started == Never
    ensures s.retired <= |s.log|
    ensures var s' := Apply(s, size, fifo, e);
            && Inv(s', size) && n < |s'.log|
            && (s'.log[n].started == Never ==>
                  Patience(s', size, n) == Patience(s, size, n) - (|s'.starts| - |s.starts|))
            && (if e.Cycle? && s.nextAvailable <= e.now
                then |s'.starts| == |s.starts| + 1 && s'.nextAvailable == e.now + 1
                else |s'.starts| == |s.starts| && s'.nextAvailable == s.nextAvailable)
  {
    ApplyKeepsInv(s, size, fifo, e);
    match e
    case Arrive(p, at) => ArrivalIsFree(s, size, p, at, n);
    case Cycle(now, latency, busFree) => StepCostsPatience(s, size, fifo, now, latency, busFree, n);
  }

  /** Starvation bound: while request n waits, no more than its patience of other requests are sent
      to DRAM, whatever arrives and whichever policy is used. */
  lemma {:induction false} StarvationBound(s: MC, size: nat, fifo: bool, events: seq<Event>, n: nat)
    requires Inv(s, size) && n < |s.log|
    requires Extends(s, Run(s, size, fifo, events))
    requires Run(s, size, fifo, events).log[n].started == Never
    ensures var s' := Run(s, size, fifo, events);
            && |s'.starts| - |s.starts| == Patience(s, size, n) - Patience(s', size, n)
            && |s'.starts| - |s.starts| <= UnstartedAhead(s, n) + size - 1
    decreases events
  {
    PatienceBounds(s, size, n);
    PatienceBounds(Run(s, size, fifo, events), size, n);
    if events == [] {
    } else {
      WhileWaiting(s, size, fifo, events[0], n);
      var s1 := Apply(s, size, fifo, events[0]);
      RunExtends(s1, size, fifo, events[1..]);
      StarvationBound(s1, size, fifo, events[1..], n);
    }
  }

  /** The cycles of a run, which is fed later and later ones. */
  ghost predicate Forward(events: seq<Event>, after: int) {
    events != [] ==>
      match events[0]
      case Arrive(_, _) => Forward(events[1..], after)
      case Cycle(now, _, _) => after <= now && Forward(events[1..], now + 1)
  }

  function Cycles(events: seq<Event>): nat {
    if events == [] then 0 else (if events[0].Cycle? then 1 else 0) + Cycles(events[1..])
  }

  lemma StillWaiting(s: MC, s': MC, n: nat)
    requires Extends(s, s') && n < |s.log| && s'.log[n].started == Never
    ensures s.log[n].started == Never
  {
  }

  lemma {:induction false} WaitingCyclesStart(s: MC, size: nat, fifo: bool, events: seq<Event>, n: nat)
    requires Inv(s, size) && n < |s.log| && Forward(events, s.nextAvailable)
    requires Extends(s, Run(s, size, fifo, events))
    requires Run(s, size, fifo, events).log[n].started == Never
    ensures |Run(s, size, fifo, events).starts| == |s.starts| + Cycles(events)
    decreases events
  {
    hide Inv, Extends, Apply, Patience;
    if events == [] {
    } else {
      StillWaiting(s, Run(s, size, fifo, events), n);
      WhileWaiting(s, size, fifo, events[0], n);
      var s1 := Apply(s, size, fifo, events[0]);
      RunExtends(s1, size, fifo, events[1..]);
      WaitingCyclesStart(s1, size, fifo, events[1..], n);
    }
  }

  /** No starvation: over any run on ever later cycles, a request is sent to DRAM within as many
      cycles as there are requests ahead of it in the queue plus the size of the queue. */
  lemma {:induction false} NoStarvation(s: MC, size: nat, fifo: bool, events: seq<Event>, n: nat)
    requires Inv(s, size) && s.retired <= n < |s.log| && Forward(events, s.nextAvailable)
    requires Cycles(events) >= n - s.retired + size
    ensures var s' := Run(s, size, fifo, events); n < |s'.log| && s'.log[n].started.At?
  {
    RunExtends(s, size, fifo, events);
    var s' := Run(s, size, fifo, events);
    if s'.log[n].started == Never {
      WaitingCyclesStart(s, size, fifo, events, n);
      PatienceBounds(s, size, n);
      StarvationBound(s, size, fifo, events, n);
    }
  }

  // ---------------------------------------------------------------- every request returns and leaves

  /** What has happened by cycle c, with DRAM latencies of at most `most`. */
  ghost predicate Past(s: MC, c: int, most: nat) {
    && s.nextAvailable <= c
    && forall k :: 0 <= k < |s.log| ==>
         && (s.log[k].started.At? ==> s.log[k].started.cycle < c)
         && (s.log[k].started.At? && s.log[k].finished.At? ==> s.log[k].finished.cycle <= s.log[k].started.cycle + most)
         && (s.log[k].returned.At? ==> s.log[k].returned.cycle < c)
  }

  /** The bus is free, and DRAM answers within `most` cycles. */
  ghost predicate Served(events: seq<Event>, most: nat) {
    forall e :: e in events && e.Cycle? ==> e.busFree && e.latency <= most
  }

  /** The earliest cycle that can follow. */
  function Clock(events: seq<Event>, c: int): int {
    if events == [] then c else Clock(events[1..], if events[0].Cycle? then events[0].now + 1 else c)
  }

  lemma {:induction false} ReturnInPast(s: MC, k: nat, now: int, busFree: bool, c: int, most: nat)
    requires k <= |s.log| && Past(s, c, most) && now < c
    ensures Past(Return(s, k, now, busFree), c, most)
    decreases |s.log| - k
  {
    hide Past;
    if k == |s.log| {
    } else if !s.log[k].Returnable(now, busFree) {
      ReturnInPast(s, k + 1, now, busFree, c, most);
    } else {
      ReturnOneInPast(s, k, now, c, most);
      if !s.log[k].payload.hasPrevCache {
        ReturnInPast(ReturnOne(s, k, now), k + 1, now, busFree, c, most);
      }
    }
  }

  lemma ReturnOneInPast(s: MC, k: nat, now: int, c: int, most: nat)
    requires k < |s.log| && Past(s, c, most) && now < c
    ensures Past(ReturnOne(s, k, now), c, most)
  {
  }

  lemma ApplyInPast(s: MC, size: nat, fifo: bool, e: Event, c: int, most: nat)
    requires Inv(s, size) && Past(s, c, most) && Served([e], most) && Forward([e], c)
    ensures Past(Apply(s, size, fifo, e), Clock([e], c), most)
  {
    hide Pick, Return;
    assert e in [e] && [e][1..] == [];
    if e.Cycle? && Queued(s) > 0 {
      var s1 := Start(s, fifo, e.now, e.latency);
      assert Past(s1, e.now + 1, most);
      ReturnInPast(s1, s1.retired, e.now, e.busFree, e.now + 1, most);
    }
  }

  /** A cycle that finds the requests up to n finished lets the oldest one leave. */
  lemma OneRetires(s: MC, size: nat, fifo: bool, now: int, latency: nat, most: nat)
    requires Inv(s, size) && Past(s, now, most) && s.retired < |s.log| && s.log[s.retired].finished.By(now)
    ensures Step(s, fifo, now, latency, true).retired == s.retired + 1
  {
    hide Pick, Inv, Past;
    var h, s1 := s.retired, Start(s, fifo, now, latency);
    PickIsRight(s, fifo);
    HeadKnown(s, size, now, most);
    assert s1.log[h] == s.log[h];
    HeadReturns(s1, now);
  }

  lemma HeadKnown(s: MC, size: nat, now: int, most: nat)
    requires Inv(s, size) && Past(s, now, most) && s.retired < |s.log| && s.log[s.retired].finished.By(now)
    ensures s.log[s.retired].started != Never && (s.log[s.retired].returned.At? ==> s.log[s.retired].returned.By(now))
  {
    assert s.log[s.retired].Valid();
  }

  lemma HeadReturns(s: MC, now: int)
    requires s.retired < |s.log| && s.log[s.retired].finished.By(now)
    requires s.log[s.retired].returned.At? ==> s.log[s.retired].returned.By(now)
    ensures var s' := Return(s, s.retired, now, true);
            s'.retired == s.retired && s'.log[s.retired].returned.By(now)
  {
    var h := s.retired;
    if !s.log[h].Returnable(now, true) {
      OthersReturn(s, h + 1, now, h);
    } else if !s.log[h].payload.hasPrevCache {
      OthersReturn(ReturnOne(s, h, now), h + 1, now, h);
    }
  }

  lemma {:induction false} OthersReturn(s: MC, k: nat, now: int, j: nat)
    requires j < k <= |s.log|
    ensures var s' := Return(s, k, now, true); s'.log[j] == s.log[j] && s'.retired == s.retired
    decreases |s.log| - k
  {
    if k == |s.log| {
    } else if !s.log[k].Returnable(now, true) {
      OthersReturn(s, k + 1, now, j);
    } else if !s.log[k].payload.hasPrevCache {
      OthersReturn(ReturnOne(s, k, now), k + 1, now, j);
    }
  }

  /** The requests up to n have finished by cycle c. */
  ghost predicate FinishedUpTo(s: MC, n: nat, c: int) {
    n < |s.log| && forall j :: s.retired <= j <= n ==> s.log[j].started.At? && s.log[j].finished.By(c)
  }

  lemma StaysFinished(s: MC, s': MC, n: nat, c: int, c': int)
    requires FinishedUpTo(s, n, c) && Extends(s, s') && c <= c'
    ensures FinishedUpTo(s', n, c')
  {
  }

  /** Once the requests up to n have finished, every cycle retires one of them. */
  lemma {:induction false} AllRetire(s: MC, size: nat, fifo: bool, events: seq<Event>, c: int, most: nat, n: nat)
    requires Inv(s, size) && Past(s, c, most) && Served(events, most) && Forward(events, c)
    requires s.retired <= n ==> FinishedUpTo(s, n, c)
    requires Cycles(events) >= n + 1 - s.retired
    ensures Run(s, size, fifo, events).retired > n
    decreases events
  {
    hide Inv, Past, Served, Apply, FinishedUpTo;
    RunExtends(s, size, fifo, events);
    Further(s, Run(s, size, fifo, events));
    if events == [] || s.retired > n {
    } else {
      var e := events[0];
      ServedParts(events, most);
      FirstForward(events, c);
      ApplyKeepsInv(s, size, fifo, e);
      ApplyInPast(s, size, fifo, e, c, most);
      Retires(s, size, fifo, e, c, most, n);
      var s1, c1 := Apply(s, size, fifo, e), Clock([e], c);
      StaysFinished(s, s1, n, c, c1);
      AllRetire(s1, size, fifo, events[1..], c1, most, n);
    }
  }

  lemma Further(s: MC, s': MC)
    requires Extends(s, s')
    ensures s.retired <= s'.retired && |s.log| <= |s'.log|
  {
  }

  lemma ServedParts(events: seq<Event>, most: nat)
    requires Served(events, most) && events != []
    ensures Served([events[0]], most) && Served(events[1..], most)
  {
  }

  lemma FirstForward(events: seq<Event>, c: int)
    requires Forward(events, c) && events != []
    ensures Forward([events[0]], c) && Forward(events[1..], Clock([events[0]], c)) && c <= Clock([events[0]], c)
  {
    assert [events[0]][1..] == [];
  }

  lemma Retires(s: MC, size: nat, fifo: bool, e: Event, c: int, most: nat, n: nat)
    requires Inv(s, size) && Past(s, c, most) && Served([e], most) && Forward([e], c)
    requires s.retired <= n && FinishedUpTo(s, n, c)
    ensures s.retired <= |s.log| && Apply(s, size, fifo, e).retired >= s.retired + if e.Cycle? then 1 else 0
  {
    assert e in [e];
    if e.Cycle? {
      OneRetires(s, size, fifo, e.now, e.latency, most);
    }
  }

  /** A run in two parts. */
  lemma {:induction false} RunInParts(s: MC, size: nat, fifo: bool, a: seq<Event>, b: seq<Event>, c: int, most: nat)
    requires Inv(s, size) && Past(s, c, most) && Served(a + b, most) && Forward(a + b, c)
    ensures var s1, c1 := Run(s, size, fifo, a), Clock(a, c);
            && Run(s, size, fifo, a + b) == Run(s1, size, fifo, b)
            && Past(s1, c1, most) && c1 >= c + Cycles(a) && Forward(a, c) && Forward(b, c1) && Served(b, most)
    decreases a
  {
    hide Inv, Past, Served, Apply;
    if a == [] {
      assert a + b == b;
    } else {
      var e := a[0];
      assert (a + b)[0] == e && (a + b)[1..] == a[1..] + b;
      ServedParts(a + b, most);
      FirstForward(a + b, c);
      ApplyKeepsInv(s, size, fifo, e);
      ApplyInPast(s, size, fifo, e, c, most);
      AppliesTo(s, size);
      RunInParts(Apply(s, size, fifo, e), size, fifo, a[1..], b, Clock([e], c), most);
    }
  }

  lemma AppliesTo(s: MC, size: nat)
    requires Inv(s, size)
    ensures s.retired <= |s.log|
  {
  }

  /** Where k cycles have passed. */
  lemma {:induction false} AfterCycles(events: seq<Event>, k: nat) returns (i: nat)
    requires Cycles(events) >= k
    ensures i <= |events| && Cycles(events[..i]) == k && Cycles(events[i..]) == Cycles(events) - k
  {
    if k == 0 {
      i := 0;
      assert events[0..] == events;
    } else {
      var j := AfterCycles(events[1..], if events[0].Cycle? then k - 1 else k);
      i := j + 1;
      assert events[..i][0] == events[0] && events[..i][1..] == events[1..][..j] && events[i..] == events[1..][j..];
    }
  }

  lemma {:induction false} ForwardSooner(events: seq<Event>, c: int, sooner: int)
    requires Forward(events, c) && sooner <= c
    ensures Forward(events, sooner)
  {
    if events == [] {
    } else if events[0].Arrive? {
      ForwardSooner(events[1..], c, sooner);
    }
  }

  /** By the time request n starts, so have all before it, and they finish `most` cycles later. */
  lemma AllStart(s: MC, size: nat, fifo: bool, events: seq<Event>, c: int, most: nat, n: nat)
    requires Inv(s, size) && s.retired <= n < |s.log| && Forward(events, c) && s.nextAvailable <= c
    requires Cycles(events) >= n - s.retired + size
    ensures var s' := Run(s, size, fifo, events);
            n < |s'.log| && forall j :: s'.retired <= j <= n ==> s'.log[j].started.At?
  {
    hide Inv, Extends, Forward;
    ForwardSooner(events, c, s.nextAvailable);
    RunExtends(s, size, fifo, events);
    var s' := Run(s, size, fifo, events);
    Further(s, s');
    forall j | s'.retired <= j <= n ensures s'.log[j].started.At? {
      NoStarvation(s, size, fifo, events, j);
    }
  }

  lemma FinishInTime(s: MC, size: nat, n: nat, c: int, most: nat)
    requires Inv(s, size) && Past(s, c, most) && n < |s.log| && forall j :: s.retired <= j <= n ==> s.log[j].started.At?
    ensures FinishedUpTo(s, n, c + most)
  {
    forall j | s.retired <= j <= n ensures s.log[j].finished.By(c + most) { assert s.log[j].Valid(); }
  }

  /** All requests up to n finish within `most` cycles, and then leave one by one. */
  lemma FinishAndLeave(s: MC, size: nat, fifo: bool, events: seq<Event>, c: int, most: nat, n: nat)
    requires Inv(s, size) && Past(s, c, most) && Forward(events, c) && Served(events, most)
    requires n < |s.log| && forall j :: s.retired <= j <= n ==> s.log[j].started.At?
    requires Cycles(events) >= most + n + 1 - s.retired && Cycles(events) >= most
    ensures var s' := Run(s, size, fifo, events);
            && s'.retired > n && n < |s'.log| && s'.log[n].returned.At?
            && (s'.log[n].payload.hasPrevCache ==> n in s'.fills)
  {
    hide *;
    var i := AfterCycles(events, most);
    var a, b := events[..i], events[i..];
    assert events == a + b;
    RunInParts(s, size, fifo, a, b, c, most);
    FinishInTime(s, size, n, c, most);
    var s1, c1 := Run(s, size, fifo, a), Clock(a, c);
    RunExtends(s, size, fifo, a);
    Further(s, s1);
    StaysFinished(s, s1, n, c + most, c1);
    AllRetire(s1, size, fifo, b, c1, most, n);
    HasLeft(Run(s1, size, fifo, b), size, n);
  }

  /** Every request is served: with a free bus and DRAM latencies of at most `most` cycles, request n, which stands
      k places behind the head, has returned and left the queue after 2 * k + size + most + 1 cycles, whatever arrives
      and whichever policy is used. */
  lemma EveryRequestLeaves(s: MC, size: nat, fifo: bool, events: seq<Event>, c: int, most: nat, n: nat)
    requires Inv(s, size) && Past(s, c, most) && s.retired <= n < |s.log|
    requires Forward(events, c) && Served(events, most)
    requires Cycles(events) >= 2 * (n - s.retired) + size + most + 1
    ensures var s' := Run(s, size, fifo, events);
            && s'.retired > n && n < |s'.log| && s'.log[n].returned.At?
            && (s'.log[n].payload.hasPrevCache ==> n in s'.fills)
  {
    hide *;
    var i := AfterCycles(events, n - s.retired + size);
    var a, b := events[..i], events[i..];
    assert events == a + b;
    RunInParts(s, size, fifo, a, b, c, most);
    NextAvailableIs(s, c, most);
    AllStart(s, size, fifo, a, c, most, n);
    RunExtends(s, size, fifo, a);
    Further(s, Run(s, size, fifo, a));
    FinishAndLeave(Run(s, size, fifo, a), size, fifo, b, Clock(a, c), most, n);
  }

  lemma NextAvailableIs(s: MC, c: int, most: nat)
    requires Past(s, c, most)
    ensures s.nextAvailable <= c
  {
  }

  lemma HasLeft(s: MC, size: nat, n: nat)
    requires Inv(s, size) && n < s.retired
    ensures n < |s.log| && s.log[n].returned.At? && (s.log[n].payload.hasPrevCache ==> n in s.fills)
  {
    assert n in s.fills <==> Filled(s, n);
  }

  /** The empty controller has no past. */
  lemma NothingPast(size: nat, c: int, most: nat)
    requires 0 <= c
    ensures Inv(Empty(), size) && Past(Empty(), c, most)
  {
  }

  /** Under FIFO scheduling requests are sent to DRAM in order of arrival. */
  ghost predicate StartsInOrder(s: MC) {
    forall j, k :: 0 <= j < k < |s.log| && s.log[k].started.At? ==> s.log[j].started.At?
  }

  lemma StartKeepsFifoOrder(s: MC, size: nat, now: int, latency: nat)
    requires Inv(s, size) && StartsInOrder(s)
    ensures StartsInOrder(Start(s, true, now, latency))
  {
    hide CountStarted, FirstOnPage, FirstUnstarted;
    var s1 := Start(s, true, now, latency);
    PickIsRight(s, true);
    forall j, k | 0 <= j < k < |s1.log| && s1.log[k].started.At? ensures s1.log[j].started.At? {
      if j < s.retired { assert s.log[j].Valid(); }
    }
  }

  lemma {:induction false} FifoStartsInOrder(s: MC, size: nat, events: seq<Event>)
    requires Inv(s, size) && StartsInOrder(s)
    ensures StartsInOrder(Run(s, size, true, events))
    decreases events
  {
    hide CountStarted, FirstOnPage, FirstUnstarted;
    if events == [] {
    } else {
      var e := events[0];
      ApplyKeepsInv(s, size, true, e);
      if e.Cycle? && Queued(s) > 0 {
        StartKeepsFifoOrder(s, size, e.now, e.latency);
        var s1 := Start(s, true, e.now, e.latency);
        ReturnStartsNothing(s1, s1.retired, e.now, e.busFree);
      }
      FifoStartsInOrder(Apply(s, size, true, e), size, events[1..]);
    }
  }
}
