/** The simple memory controller (MC-simple.cpp): a ring of requests, updated in place. Every method is
    proved to do what the log-based schedule in MemoryController says. */
module SimpleMC {
  import opened Rings
  import opened Ticks
  import opened MemoryController

  datatype Entry = Entry(valid: bool, req: Request)

  /** The ring holds the requests of its window, and only those are marked valid. */
  ghost predicate RingOk(a: seq<Entry>, head: nat, tail: nat, num: nat) {
    && head < |a| && num <= |a| && tail == Slot(head, num, |a|)
    && forall i :: 0 <= i < |a| ==> (a[i].valid <==> Used(head, num, |a|, i))
  }

  /** The queued requests, oldest first. */
  ghost function Requests(a: seq<Entry>, head: nat, num: nat): seq<Request>
    requires head < |a| && num <= |a|
  {
    seq(num, k requires 0 <= k < num => a[Slot(head, k, |a|)].req)
  }

  lemma QueuedAt(a: seq<Entry>, head: nat, tail: nat, num: nat, k: nat)
    requires RingOk(a, head, tail, num) && k < num
    ensures a[Slot(head, k, |a|)] == Entry(true, Requests(a, head, num)[k])
  {
  }

  lemma QueuedPush(a: seq<Entry>, head: nat, tail: nat, num: nat, r: Request)
    requires RingOk(a, head, tail, num) && num < |a|
    ensures !a[tail].valid
    ensures var b := a[tail := Entry(true, r)];
            RingOk(b, head, ModInc(tail, |a|), num + 1) && Requests(b, head, num + 1) == Requests(a, head, num) + [r]
  {
  }

  lemma QueuedUpdate(a: seq<Entry>, head: nat, tail: nat, num: nat, k: nat, r: Request)
    requires RingOk(a, head, tail, num) && k < num
    ensures var b := a[Slot(head, k, |a|) := Entry(true, r)];
            RingOk(b, head, tail, num) && Requests(b, head, num) == Requests(a, head, num)[k := r]
  {
    var i := Slot(head, k, |a|);
    var b := a[i := Entry(true, r)];
    forall j | 0 <= j < num && j != k ensures Requests(b, head, num)[j] == Requests(a, head, num)[j] {
      assert Slot(head, j, |a|) != i;
    }
  }

  lemma QueuedPop(a: seq<Entry>, head: nat, tail: nat, num: nat)
    requires RingOk(a, head, tail, num) && num > 0
    ensures var b := a[head := a[head].(valid := false)];
            && RingOk(b, ModInc(head, |a|), tail, num - 1)
            && [a[head].req] + Requests(b, ModInc(head, |a|), num - 1) == Requests(a, head, num)
  {
  }

  /** The scan has passed the requests before position k without deciding, and remembers the oldest
      unstarted one. */
  ghost predicate Scanned(s: MC, fifo: bool, k: nat, found: nat, pick: nat)
    requires s.retired <= k <= |s.log|
  {
    var samePage := FirstOnPage(s.log, k, s.lastRequest);
    var oldest := if found == |s.log| then FirstUnstarted(s.log, k) else found;
    && s.retired <= found <= |s.log| && (found < |s.log| ==> !fifo && found < k)
    && pick == if !fifo && samePage < |s.log| then samePage else oldest
  }

  lemma ScanStarts(s: MC, fifo: bool)
    requires s.retired <= |s.log|
    ensures Scanned(s, fifo, s.retired, |s.log|, Pick(s, fifo))
  {
  }

  lemma ScanEnds(s: MC, fifo: bool, found: nat, pick: nat)
    requires s.retired <= |s.log| && Scanned(s, fifo, |s.log|, found, pick)
    ensures pick == found
  {
  }

  lemma ScanStep(s: MC, fifo: bool, k: nat, found: nat, pick: nat)
    requires s.retired <= k < |s.log| && Scanned(s, fifo, k, found, pick)
    ensures var samePage := s.log[k].payload.Page() == s.lastRequest;
            if s.log[k].started != Never then Scanned(s, fifo, k + 1, found, pick)
            else if samePage || fifo then k == pick
            else Scanned(s, fifo, k + 1, if found == |s.log| then k else found, pick)
  {
  }

  lemma NoneLeft(s: MC, now: int, busFree: bool)
    ensures Return(s, |s.log|, now, busFree) == s
  {
  }

  class MCSimple {
    const RQ: array<Entry>
    const size: nat
    const fifo: bool
    var num: nat
    var head: nat
    var tail: nat
    var lastRequest: nat
    var nextAvailable: int
    var totalAccesses: int
    var totalDramCycles: int
    var totalServiceCycles: int

    // history: requests that have left the ring, and what was started and filled so far
    ghost var gone: seq<Request>
    ghost var starts: seq<nat>
    ghost var fills: seq<nat>

    ghost predicate Shape()
      reads this, RQ
    {
      RQ.Length == size && RingOk(RQ[..], head, tail, num) && totalAccesses == |gone| + num
    }

    ghost function Abs(): (s: MC)
      requires Shape()
      reads this, RQ
      ensures |s.log| == |gone| + num
    {
      MC(gone + Requests(RQ[..], head, num), |gone|, starts, fills,
         lastRequest, nextAvailable, totalDramCycles, totalServiceCycles)
    }

    ghost predicate Valid()
      reads this, RQ
    {
      Shape() && Inv(Abs(), size)
    }

    constructor (RQSize: nat, fifoScheduling: bool)
      requires RQSize > 0
      ensures Valid() && fresh(RQ) && size == RQSize && fifo == fifoScheduling
      ensures Abs() == Empty()
    {
      size, fifo := RQSize, fifoScheduling;
      num, head, tail, lastRequest, nextAvailable := 0, 0, 0, 0, 0;
      totalAccesses, totalDramCycles, totalServiceCycles := 0, 0, 0;
      gone, starts, fills := [], [], [];
      RQ := new Entry[RQSize](_ => Entry(false, Request(Payload(false, 0, Read, 0, 0, 0, 0), 0, Never, Never, Never)));
      new;
      assert Abs() == Empty();
    }

    method Enqueuable() returns (b: bool)
      requires Valid()
      ensures b <==> |Abs().log| - Abs().retired < size
    {
      b := num < size;
    }

    method Enqueue(p: Payload, now: int)
      requires Valid()
      modifies this, RQ
      ensures Valid()
      ensures Abs() == MemoryController.Enqueue(old(Abs()), size, p, now)
    {
      EnqueueKeepsInv(Abs(), size, p, now);
      if num < size {
        QueuedPush(RQ[..], head, tail, num, Fresh(p, now));
        assert !RQ[tail].valid;
        RQ[tail] := Entry(true, Fresh(p, now));
        num := num + 1;
        tail := ModInc(tail, size);
        totalAccesses := totalAccesses + 1;
        assert Abs().log == old(Abs()).log + [Fresh(p, now)];
      }
    }

    /** The scan for a request to send to DRAM; `s` is the log that the ring stands for. */
    method FindRequest(ghost s: MC) returns (reqIndex: int, reqPage: int)
      requires head < size == RQ.Length && num <= size
      requires |s.log| == s.retired + num && s.lastRequest == lastRequest
      requires forall k :: 0 <= k < num ==> RQ[Slot(head, k, size)].req == s.log[s.retired + k]
      ensures var k := Pick(s, fifo);
              if k == |s.log| then reqIndex == -1
              else reqIndex == Slot(head, k - s.retired, size) && reqPage == s.log[k].payload.Page()
    {
      hide Pick, Scanned;
      ghost var found: nat, pick := |s.log|, Pick(s, fifo);
      ScanStarts(s, fifo);
      reqIndex, reqPage := -1, -1;
      var idx := head;
      var i := 0;
      while i < num
        invariant 0 <= i <= num && idx == Slot(head, i, size)
        invariant s.retired <= found <= |s.log| && (found < |s.log| ==> !fifo) && Scanned(s, fifo, s.retired + i, found, pick)
        invariant if found == |s.log| then reqIndex == -1
                  else reqIndex == Slot(head, found - s.retired, size) && reqPage == s.log[found].payload.Page()
      {
        var req := RQ[idx].req;
        ScanStep(s, fifo, s.retired + i, found, pick);
        if req.started == Never {
          if reqIndex == -1 {
            reqIndex, reqPage := idx, req.payload.Page();
            found := s.retired + i;
            if fifo || reqPage == lastRequest {
              return;
            }
          }
          if req.payload.Page() == lastRequest {
            reqIndex, reqPage := idx, req.payload.Page();
            return;
          }
        }
        idx := ModInc(idx, size);
        i := i + 1;
      }
      ScanEnds(s, fifo, found, pick);
    }

    /** Request k of the log, in slot reqIndex, is sent to DRAM. */
    method SendRequest(ghost k: nat, reqIndex: nat, reqPage: nat, now: int, latency: nat)
      requires Shape() && |gone| <= k < |Abs().log| && reqIndex == Slot(head, k - |gone|, size)
      requires nextAvailable <= now && k == Pick(Abs(), fifo) && reqPage == Abs().log[k].payload.Page()
      modifies this, RQ
      ensures Shape() && gone == old(gone) && num == old(num)
      ensures Abs() == Start(old(Abs()), fifo, now, latency)
    {
      var req := RQ[reqIndex].req;
      QueuedAt(RQ[..], head, tail, num, k - |gone|);
      var sent := req.(started := At(now), finished := At(now + latency));
      QueuedUpdate(RQ[..], head, tail, num, k - |gone|, sent);
      RQ[reqIndex] := RQ[reqIndex].(req := sent);
      lastRequest := reqPage;
      nextAvailable := now + 1;
      totalDramCycles := totalDramCycles + (now + latency - now);
      starts := starts + [k];
      assert Abs().log == old(Abs()).log[k := sent];
    }

    /** The first part of a cycle: send a request to DRAM if it is time. */
    method StartRequest(now: int, latency: nat)
      requires Shape() && num > 0
      modifies this, RQ
      ensures Shape() && gone == old(gone) && num == old(num)
      ensures Abs() == Start(old(Abs()), fifo, now, latency)
    {
      if nextAvailable <= now {
        forall j | 0 <= j < num ensures RQ[Slot(head, j, size)].req == Abs().log[|gone| + j] {
          QueuedAt(RQ[..], head, tail, num, j);
        }
        var reqIndex, reqPage := FindRequest(Abs());
        if reqIndex != -1 {
          SendRequest(Pick(Abs(), fifo), reqIndex, reqPage, now, latency);
        }
      }
    }

    /** The i-th queued request goes back to its cache. */
    method MarkReturned(idx: nat, ghost i: nat, now: int)
      requires Shape() && i < num && idx == Slot(head, i, size)
      modifies this, RQ
      ensures Shape() && gone == old(gone) && num == old(num) && head == old(head)
      ensures Abs() == ReturnOne(old(Abs()), |old(gone)| + i, now)
    {
      hide Return, Pick;
      var req := RQ[idx].req;
      QueuedAt(RQ[..], head, tail, num, i);
      ghost var back := req.(returned := At(now));
      QueuedUpdate(RQ[..], head, tail, num, i, back);
      RQ[idx] := RQ[idx].(req := req.(returned := At(now)));
      totalServiceCycles := totalServiceCycles + (now - req.enqueued);
      if req.payload.hasPrevCache {
        fills := fills + [|gone| + i];
      }
      assert Abs().log == old(Abs()).log[|gone| + i := back];
    }

    lemma AbsAt(i: nat)
      requires Shape() && i < num
      ensures Slot(head, i, size) < RQ.Length && RQ[Slot(head, i, size)].req == Abs().log[|gone| + i]
    {
      QueuedAt(RQ[..], head, tail, num, i);
    }

    /** One request of the walk: it goes back if it can, and fills its previous cache level, if it has
        one. The walk stops after a fill. */
    method ReturnRequest(idx: nat, ghost i: nat, now: int, busFree: bool) returns (stop: bool)
      requires Shape() && i < num && idx == Slot(head, i, size)
      modifies this, RQ
      ensures Shape() && gone == old(gone) && num == old(num) && head == old(head)
      ensures Return(old(Abs()), |old(gone)| + i, now, busFree)
              == if stop then Abs() else Return(Abs(), |gone| + i + 1, now, busFree)
    {
      hide RingOk, Requests, ReturnOne, Shape, Slot;
      AbsAt(i);
      stop := false;
      var req := RQ[idx].req;
      if req.finished.By(now) && req.returned == Never && (!req.payload.hasPrevCache || busFree) {
        MarkReturned(idx, i, now);
        stop := req.payload.hasPrevCache;
      }
    }

    /** The second part: return finished requests to the caches, at most one over the bus. */
    method ReturnRequests(now: int, busFree: bool)
      requires Shape() && num > 0
      modifies this, RQ
      ensures Shape() && gone == old(gone) && num == old(num)
      ensures Abs() == Return(old(Abs()), |old(gone)|, now, busFree)
    {
      hide Used, Requests, ReturnOne, Return;
      ghost var result := Return(Abs(), |gone|, now, busFree);
      var idx := head;
      var i := 0;
      while i < num
        invariant Shape() && 0 <= i <= num && idx == Slot(head, i, size)
        invariant gone == old(gone) && num == old(num)
        invariant Return(Abs(), |gone| + i, now, busFree) == result
      {
        var stop := ReturnRequest(idx, i, now, busFree);
        if stop {
          return;
        }
        idx := ModInc(idx, size);
        i := i + 1;
      }
      NoneLeft(Abs(), now, busFree);
    }

    /** The third part: the head leaves if it has been returned. */
    method RetireHead(now: int)
      requires Shape() && num > 0
      modifies this, RQ
      ensures Shape()
      ensures Abs() == Retire(old(Abs()), now)
    {
      hide Used, Inv, Pick;
      QueuedAt(RQ[..], head, tail, num, 0);
      if RQ[head].valid {
        if RQ[head].req.returned.By(now) {
          QueuedPop(RQ[..], head, tail, num);
          gone := gone + [RQ[head].req];
          RQ[head] := RQ[head].(valid := false);
          num := num - 1;
          head := ModInc(head, size);
          assert Abs().log == old(Abs()).log;
        }
      }
    }

    /** One cycle. */
    method Step(now: int, latency: nat, busFree: bool)
      requires Valid()
      modifies this, RQ
      ensures Valid()
      ensures Abs() == MemoryController.Step(old(Abs()), fifo, now, latency, busFree)
    {
      StepKeepsInv(Abs(), size, fifo, now, latency, busFree);
      if num > 0 {
        StartRequest(now, latency);
        ReturnRequests(now, busFree);
        RetireHead(now);
      }
    }
  }
}
