/** The decode pipe and the uop queue behind it (decode-DPM.cpp). */
module DecodeDPM {
  import opened Rings
  import opened Ticks
  import opened StagedPipe
  import opened DecodeOrder

  /** The occupied slots of a row come first. */
  ghost predicate Packed<T>(row: seq<Option<T>>) {
    forall k, l :: 0 <= k < l < |row| && row[l].Some? ==> row[k].Some?
  }

  /** The stages beyond t hold only items of a set. */
  ghost predicate Beyond<T>(rows: seq<seq<Option<T>>>, t: nat, items: set<T>) {
    forall s, i :: t < s < |rows| && 0 <= i < |rows[s]| && rows[s][i].Some? ==> rows[s][i].value in items
  }

  /** The first macro-op of the pipe has places left, the others have not begun. */
  ghost predicate InProgress(p: seq<Mop>)
    reads (set m | m in p)`lastStageIndex
  {
    && (p != [] ==> p[0].lastStageIndex < |p[0].flow|)
    && forall k :: 0 < k < |p| ==> p[k].lastStageIndex == 0
  }

  ghost function Done(p: seq<Mop>): nat
    reads (set m | m in p)`lastStageIndex
  {
    if p == [] then 0 else p[0].lastStageIndex
  }

  class CoreDecode {
    const width: nat
    const depth: nat
    const targetStage: nat
    const msLatency: nat
    const branchLimit: nat   // 0 for no limit
    const maxUops: seq<nat>  // for every decoder; 0 for no limit
    const pipe: Pipe<Mop>
    const uopQ: array<Option<Uop>>
    var uopQHead: nat
    var uopQTail: nat
    var uopQNum: nat
    var uopQEffNum: int

    ghost var queue: seq<Uop>  // the uops in the queue, oldest first
    ghost var sent: seq<Uop>   // those that have been handed to allocation
    ghost var resolved: set<Mop>  // the macro-ops whose targets have been checked
    ghost var order: seq<Mop>  // the macro-ops that have been fetched, without those recovered from

    constructor (width: nat, depth: nat, targetStage: nat, msLatency: nat, branchLimit: nat, maxUops: seq<nat>, size: nat)
      requires 0 < targetStage < depth && |maxUops| == width && 0 < size
      ensures Valid() && Checked() && order == [] && sent == [] && queue == [] && InPipe() == [] && resolved == {}
      ensures fresh(pipe) && fresh(pipe.rows) && fresh(pipe.occupancy) && fresh(uopQ) && uopQ.Length == size
      ensures this.width == width && this.depth == depth && this.targetStage == targetStage
      ensures this.msLatency == msLatency && this.branchLimit == branchLimit && this.maxUops == maxUops
    {
      this.width, this.depth, this.targetStage, this.msLatency := width, depth, targetStage, msLatency;
      this.branchLimit, this.maxUops := branchLimit, maxUops;
      pipe := new Pipe(depth, width);
      uopQ := new Option<Uop>[size](_ => None);
      uopQHead, uopQTail, uopQNum, uopQEffNum, queue, sent, order, resolved := 0, 0, 0, 0, [], [], [], {};
      new;
      hide *;
      NothingYet();
    }

    lemma NothingYet()
      requires pipe.Shape() && pipe.Items() == [] && 0 < targetStage < depth == pipe.depth && pipe.width == width == |maxUops|
      requires order == [] && sent == [] && queue == [] && resolved == {} && uopQEffNum == 0
      requires uopQHead == 0 && uopQTail == 0 && uopQNum == 0 && 0 < uopQ.Length && uopQ[..] == seq(uopQ.Length, _ => None)
      ensures Valid() && Checked() && InPipe() == []
    {
      hide InRows, InRow;
      forall s | 0 <= s < depth ensures Vacant(pipe.rows[s]) {
        EmptyRows(pipe.rows[..], s);
        VacantIff(pipe.rows[s]);
      }
    }

    ghost predicate Queue()
      reads this`uopQHead, this`uopQTail, this`uopQNum, this`uopQEffNum, this`queue, uopQ
    {
      && Holding(uopQ[..], uopQHead, uopQNum, queue) && uopQTail == Slot(uopQHead, uopQNum, uopQ.Length)
      && uopQEffNum == Sizes(queue)
    }

    /** The macro-ops in the pipe, oldest first. */
    ghost function InPipe(): seq<Mop>
      reads pipe.rows
    {
      pipe.Items()
    }

    /** Nothing is lost or out of order. */
    ghost predicate Flows()
      reads this, uopQ, pipe.rows, pipe.occupancy, (set m | m in InPipe())`lastStageIndex
    {
      && Queue() && pipe.Shape() && pipe.depth == depth && pipe.width == width && 0 < targetStage < depth && |maxUops| == width
      && InProgress(InPipe()) && Flowing(sent, queue, InPipe(), order, Done(InPipe()))
    }

    ghost predicate Valid()
      reads this, uopQ, pipe.rows, pipe.occupancy, (set m | m in InPipe())`lastStageIndex
    {
      Flows() && Packed(pipe.rows[0])
    }

    /** No macro-op beyond the target stage is known to be followed by the wrong one. */
    ghost predicate Checked()
      reads this`resolved, pipe.rows, resolved`predNPC
    {
      (forall m :: m in resolved ==> !m.Mispredicted()) && Beyond(pipe.rows[..], targetStage, resolved)
    }

    method Enqueue(u: Uop)
      requires Queue() && uopQNum < uopQ.Length
      modifies this`uopQTail, this`uopQNum, this`uopQEffNum, this`queue, uopQ
      ensures Queue() && queue == old(queue) + [u] && uopQNum == old(uopQNum) + 1
    {
      HoldingPush(uopQ[..], uopQHead, uopQNum, queue, u);
      uopQ[uopQTail] := Some(u);
      uopQTail := ModInc(uopQTail, uopQ.Length);
      uopQNum := uopQNum + 1;
      uopQEffNum := uopQEffNum + Size(u);
      queue := queue + [u];
    }

    /** The next uop goes to allocation: it is the next one in fetch order. */
    method UopConsume() returns (u: Uop)
      requires Valid() && uopQNum > 0
      modifies this`uopQHead, this`uopQNum, this`uopQEffNum, this`queue, this`sent, uopQ
      ensures Valid() && order == old(order) && sent == old(sent) + [u]
      ensures AllUops(order)[..|old(sent)|] == old(sent) && AllUops(order)[|old(sent)|..][..1] == [u]
      ensures u.mop in order && IsUop(u.mop.flow, u.index) && u.mop.flow[u.index].fusion != Body
    {
      hide AllUops, Pending, Increasing, Holding, Used, Slot, ModInc;
      HoldingEnds(uopQ[..], uopQHead, uopQNum, queue);
      HoldingPopFront(uopQ[..], uopQHead, uopQNum, queue);
      UopLeaves(sent, queue, InPipe(), order, Done(InPipe()));
      SizesFirst(queue);
      u := uopQ[uopQHead].value;
      uopQ[uopQHead] := None;
      uopQNum := uopQNum - 1;
      uopQEffNum := uopQEffNum - Size(u);
      uopQHead := ModInc(uopQHead, uopQ.Length);
      queue := queue[1..];
      sent := sent + [u];
      assert AllUops(order)[|old(sent)|..][0] == u;
      StreamHolds(order, u.mop, u.index);
    }

    /** The next place of the oldest macro-op m leaves the decoders. */
    method EmitPlace(m: Mop)
      requires Queue() && uopQNum < uopQ.Length && m.lastStageIndex < |m.flow|
      requires InPipe() != [] && InPipe()[0] == m && Flowing(sent, queue, InPipe(), order, m.lastStageIndex)
      modifies this`uopQTail, this`uopQNum, this`uopQEffNum, this`queue, uopQ, m`lastStageIndex
      ensures Queue() && Flowing(sent, queue, InPipe(), order, m.lastStageIndex)
      ensures m.lastStageIndex == After(m.flow, old(m.lastStageIndex)) && uopQNum <= old(uopQNum) + 1
    {
      hide Flowing, Holding, Used, Sizes;
      PlaceLeaves(sent, queue, InPipe(), order, m.lastStageIndex);
      var u := Uop(m, m.lastStageIndex);
      var queued := Queued(m.flow[m.lastStageIndex]);
      m.lastStageIndex := After(m.flow, m.lastStageIndex);
      if queued {
        Enqueue(u);
      }
    }

    /** One round of the loop over slot i: one place leaves, and the macro-op m with its last one. */
    method SendPlace(i: nat, m: Mop) returns (left: bool)
      requires Flows() && i < width && uopQNum < uopQ.Length
      requires Front(pipe.rows[depth - 1], i) && pipe.rows[depth - 1][i] == Some(m)
      requires InPipe() != [] && InPipe()[0] == m
      modifies this`uopQTail, this`uopQNum, this`uopQEffNum, this`queue, uopQ, pipe.rows, pipe.occupancy, m`lastStageIndex
      ensures Flows() && uopQNum <= old(uopQNum) + 1
      ensures SlotGone(old(pipe.rows[..]), pipe.rows[..], i, left)
      ensures !left ==> old(m.lastStageIndex) < m.lastStageIndex < |m.flow|
    {
      hide Flowing, Holding, Used, Sizes, Slot, InRows, InRow, Older, Younger;
      FrontIsFirst(pipe.rows[..], i);
      ghost var p := InPipe();
      FirstOnce(sent, queue, p, order, m.lastStageIndex);
      EmitPlace(m);
      left := m.lastStageIndex >= |m.flow|;
      if left {
        MopLeaves(sent, queue, p, order, m.lastStageIndex);
        ghost var r := pipe.rows[..];
        pipe.Remove(depth - 1, i);
        AfterFirst(r, depth - 1, i, p);
        assert InPipe() == p[1..];
      }
    }

    /** Empties slot i of the last stage into the queue, as far as there is room. */
    method DrainSlot(i: nat, m: Mop) returns (ghost left: bool)
      requires Flows() && i < width && Front(pipe.rows[depth - 1], i) && pipe.rows[depth - 1][i] == Some(m)
      requires InPipe() != [] && InPipe()[0] == m
      modifies this`uopQTail, this`uopQNum, this`uopQEffNum, this`queue, uopQ
      modifies pipe.rows, pipe.occupancy, m`lastStageIndex
      ensures Flows()
      ensures SlotGone(old(pipe.rows[..]), pipe.rows[..], i, left) && (left || uopQNum >= uopQ.Length)
    {
      hide Flowing, Queue, InProgress, InRows, InRow;
      left := false;
      while uopQNum < uopQ.Length
        invariant Flows() && InPipe() == old(InPipe()) && pipe.rows[..] == old(pipe.rows[..]) && !left
        decreases |m.flow| - m.lastStageIndex
      {
        var last := SendPlace(i, m);
        if last {
          left := true;
          break;
        }
      }
    }

    /** Moves decoded uops to the uop queue. */
    method ToQueue()
      requires Valid()
      modifies this`uopQTail, this`uopQNum, this`uopQEffNum, this`queue, uopQ
      modifies pipe.rows, pipe.occupancy, (set m | m in order)`lastStageIndex
      ensures Valid() && OnlyEmptied(old(pipe.rows[..]), pipe.rows[..])
      ensures uopQNum >= uopQ.Length || Vacant(pipe.rows[depth - 1])
    {
      hide Flowing, Queue, InProgress, InRows, InRow, OnlyEmptied;
      NothingEmptied(pipe.rows[..]);
      VacantIff(pipe.rows[depth - 1]);
      if pipe.occupancy[depth - 1] != 0 {
        var i := 0;
        while i < width
          invariant Flows() && 0 <= i <= width && Packed(pipe.rows[0])
          invariant Vacant(pipe.rows[depth - 1][..i])
          invariant OnlyEmptied(old(pipe.rows[..]), pipe.rows[..])
        {
          if pipe.rows[depth - 1][i].Some? {
            FrontIsFirst(pipe.rows[..], i);
            PipeIsFetched();
            ghost var r := pipe.rows[..];
            ghost var left := DrainSlot(i, pipe.rows[depth - 1][i].value);
            EmptiedOne(old(pipe.rows[..]), r, depth - 1, i);
            assert pipe.rows[..][0] == r[0];
            if uopQNum >= uopQ.Length {
              break;
            }
          }
          i := i + 1;
        }
      }
    }

    lemma PipeIsFetched()
      requires Flows()
      ensures |InPipe()| <= |order| && forall m :: m in InPipe() ==> m in order
      ensures forall j, k :: 0 <= j < k < |InPipe()| ==> InPipe()[j] != InPipe()[k]
    {
      ghost var p, n := InPipe(), |order| - |InPipe()|;
      forall k | 0 <= k < |p| ensures p[k] == order[n + k] {}
      forall j, k | 0 <= j < k < |p| ensures p[j] != p[k] { assert order[n + j] != order[n + k]; }
    }

    /** Empties the pipe from the youngest macro-op on, up to m. */
    method CutPipe(m: Mop) returns (found: bool)
      requires Flows()
      modifies pipe.rows, pipe.occupancy
      ensures Queue() && pipe.Shape() && OnlyEmptied(old(pipe.rows[..]), pipe.rows[..])
      ensures old(Packed(pipe.rows[0])) ==> Packed(pipe.rows[0])
      ensures InProgress(InPipe()) && InPipe() <= old(InPipe()) && |old(InPipe())| <= |order|
      ensures if found then InPipe() != [] && InPipe()[|InPipe()| - 1] == m && Done(InPipe()) == old(Done(InPipe()))
              else InPipe() == [] && m !in old(InPipe())
      ensures found <==> m in old(InPipe())
    {
      hide Queue, InRows, InRow, Flowing;
      ghost var r, p := pipe.rows[..], InPipe();
      PipeIsFetched();
      found := pipe.ClearBehind(x => x == m);
      ClearedOnlyEmpties(r, pipe.rows[..], x => x == m);
      assert forall k :: 0 <= k < |InPipe()| ==> InPipe()[k] == p[k] && p[k] in order;
      if !found {
        NotCleared(r, pipe.rows[..], m);
      }
    }

    /** The macro-ops younger than m, which is in the pipe, are dropped. */
    method RecoverDecodePipe(m: Mop)
      requires Flows() && m in InPipe()
      modifies this`order, pipe.rows, pipe.occupancy
      ensures Flows() && OnlyEmptied(old(pipe.rows[..]), pipe.rows[..])
      ensures old(Packed(pipe.rows[0])) ==> Packed(pipe.rows[0])
      ensures CutAt(old(order), order, m) && CutAt(old(InPipe()), InPipe(), m)
    {
      hide Queue, InRows, InRow, Flowing, InProgress, Done, OnlyEmptied, Packed;
      ghost var p, d := InPipe(), Done(InPipe());
      var found := CutPipe(m);
      PipeCut(sent, queue, p, order, d, InPipe());
      order := order[..|order| - |p| + |InPipe()|];
    }

    /** Checks the target of m, which is about to leave the target stage. If fetch went wrong after it, the
        younger macro-ops are dropped and the prediction is corrected. */
    method CheckTarget(m: Mop) returns (stall: Stall)
      requires Flows() && m in InPipe()
      modifies this`order, pipe.rows, pipe.occupancy, m`predNPC
      ensures Flows() && !m.Mispredicted()
      ensures stall == if !old(m.Mispredicted()) then NoStall else if m.isCtrl then Target else Phantom
      ensures m.predNPC == if stall == NoStall then old(m.predNPC) else m.Corrected()
      ensures (stall == NoStall <==> old(m.predNPC) in m.Successors()) && m.predNPC in m.Successors()
      ensures stall == NoStall ==> pipe.rows[..] == old(pipe.rows[..])
      ensures CutAt(old(order), order, if stall == NoStall then null else m)
      ensures CutAt(old(InPipe()), InPipe(), if stall == NoStall then null else m)
      ensures OnlyEmptied(old(pipe.rows[..]), pipe.rows[..]) && (old(Packed(pipe.rows[0])) ==> Packed(pipe.rows[0]))
    {
      hide Flowing, Queue, InRows, InRow, InProgress, Packed, OnlyEmptied;
      NothingEmptied(pipe.rows[..]);
      stall := NoStall;
      if !m.isCtrl {
        if m.predNPC != m.fallThrough {
          RecoverDecodePipe(m);
          m.predNPC := m.fallThrough;
          stall := Phantom;
        }
      } else {
        if m.predNPC != m.fallThrough || m.unconditional {
          if m.predNPC != m.target {
            RecoverDecodePipe(m);
            m.predNPC := m.target;
            stall := Target;
          }
        }
      }
    }

    /** Slot i of stage s - 1 moves on, after a check in the target stage. A resteer ends the move. */
    method AdvanceSlot(s: nat, i: nat) returns (resteer: Mop?)
      requires Flows() && Checked() && 0 < s < depth && i < width && Shifted(pipe.rows[..], s, i)
      modifies this`order, this`resolved, pipe.rows, pipe.occupancy, (set m | m in order)`predNPC
      ensures Flows() && Checked() && Shifted(pipe.rows[..], s, i + 1)
      ensures CutAt(old(order), order, resteer) && CutAt(old(InPipe()), InPipe(), resteer)
      ensures resteer != null ==> s - 1 == targetStage && resteer in old(order) && old(resteer.Mispredicted())
      ensures resteer != null ==> resteer.predNPC == resteer.Corrected()
      ensures forall m :: m in old(order) && m != resteer ==> m.predNPC == old(m.predNPC)
      ensures resteer == null ==>
        pipe.rows[..] == Set(Set(old(pipe.rows[..]), s, i, old(pipe.rows[s - 1][i])), s - 1, i, None)
      ensures s > 1 && old(Packed(pipe.rows[0])) ==> Packed(pipe.rows[0])
    {
      hide Flowing, Queue, InRows, InRow, InProgress, Packed, Beyond;
      resteer := null;
      PipeIsFetched();
      if s - 1 == targetStage && pipe.rows[s - 1][i].Some? {
        var m := pipe.rows[s - 1][i].value;
        SlotInPipe(pipe.rows[..], s - 1, i);
        ghost var r := pipe.rows[..];
        var stall := CheckTarget(m);
        StaysShifted(r, pipe.rows[..], s, i);
        resolved := resolved + {m};
        FewerBeyond(r, pipe.rows[..], targetStage, old(resolved), resolved);
        resteer := if stall == NoStall then null else m;
      }
      ghost var r := pipe.rows[..];
      ShiftBeyond(r, targetStage, resolved, s, i);
      PipeIsFetched();
      pipe.Shift(s, i);
      assert s > 1 ==> pipe.rows[..][0] == r[0];
    }

    /** Stage s - 1 moves on to stage s, which is empty. */
    method AdvanceStage(s: nat) returns (resteer: Mop?)
      requires Valid() && Checked() && 0 < s < depth && pipe.occupancy[s] == 0
      modifies this`order, this`resolved, pipe.rows, pipe.occupancy, (set m | m in order)`predNPC
      ensures Valid() && Checked() && CutAt(old(order), order, resteer) && CutAt(old(InPipe()), InPipe(), resteer)
      ensures resteer != null ==> resteer in old(order) && old(resteer.Mispredicted())
      ensures resteer != null ==> resteer.predNPC == resteer.Corrected()
      ensures forall m :: m in old(order) && m != resteer ==> m.predNPC == old(m.predNPC)
      ensures resteer == null ==> pipe.rows[..] == Swapped(old(pipe.rows[..]), s)
    {
      hide Flowing, Queue, InRows, InRow, InProgress, Beyond, Vacant, Set, Swapped;
      pipe.StartShift(s);
      ghost var r := pipe.rows[..];
      resteer := null;
      var i := 0;
      while i < width
        invariant 0 <= i <= width && Flows() && Checked() && Shifted(pipe.rows[..], s, i) && order == old(order)
        invariant InPipe() == old(InPipe()) && (s > 1 ==> Packed(pipe.rows[0]))
        invariant resteer == null && forall m :: m in order ==> m.predNPC == old(m.predNPC)
        invariant Moving(r, pipe.rows[..], s, i)
      {
        ghost var r1 := pipe.rows[..];
        resteer := AdvanceSlot(s, i);
        if resteer != null {
          return;
        }
        MovingOn(r, r1, s, i);
        i := i + 1;
      }
      MovedAll(r, pipe.rows[..], s);
      VacantIsPacked(pipe.rows[..], s);
    }

    /** Walks the pipe backwards and moves every stage on whose successor is empty. Microcode that is still
        starting up stops the walk. */
    method Shuffle(now: int) returns (resteer: Mop?, ghost h: nat)
      requires Valid() && Checked() && 0 < width
      modifies this`order, this`resolved, pipe.rows, pipe.occupancy, (set m | m in order)`predNPC
      ensures Valid() && Checked() && CutAt(old(order), order, resteer) && CutAt(old(InPipe()), InPipe(), resteer)
      ensures resteer != null ==> resteer in old(order) && old(resteer.Mispredicted())
      ensures resteer != null ==> resteer.predNPC == resteer.Corrected()
      ensures forall m :: m in old(order) && m != resteer ==> m.predNPC == old(m.predNPC)
      ensures resteer == null ==>
        h < depth && Walked(old(pipe.rows[..]), pipe.rows[..], h) && (h > 0 ==> HeldUp(pipe.rows[h - 1], now))
        && NoneHeldUp(old(pipe.rows[..]), h, now)
    {
      hide Flowing, Queue, InRows, InRow, InProgress, Beyond, Packed, Vacant, Walked, Swapped, NoneHeldUp;
      resteer, h := null, 0;
      NothingMovedYet(pipe.rows[..], now);
      var s := depth - 1;
      WalkFrom(pipe.rows[..], s);
      while s > 0
        invariant 0 <= s < depth && Valid() && Checked() && order == old(order) && InPipe() == old(InPipe())
        invariant resteer == null && forall m :: m in order ==> m.predNPC == old(m.predNPC)
        invariant Walked(old(pipe.rows[..]), pipe.rows[..], s) && NoneHeldUp(old(pipe.rows[..]), s, now)
      {
        ghost var r := pipe.rows[..];
        MovesNext(old(pipe.rows[..]), r, s, now);
        WalkOn(old(pipe.rows[..]), r, s);
        VacantIff(pipe.rows[s]);
        if pipe.occupancy[s] == 0 {
          var first := pipe.rows[s - 1][0];
          var whenMSStarted := if first.Some? then first.value.whenMSStarted else At(0);
          if whenMSStarted.At? && whenMSStarted.cycle >= now {
            h := s;
            return;
          }
          if pipe.occupancy[s - 1] != 0 {
            resteer := AdvanceStage(s);
            if resteer != null {
              return;
            }
          } else {
            VacantIff(pipe.rows[s - 1]);
            SwappedVacant(r, s);
          }
        }
        s := s - 1;
      }
    }

    /** A macro-op enters slot i of the first stage. */
    method Enter(i: nat, m: Mop)
      requires Valid() && Checked() && i < width && pipe.rows[0][i].None? && m.lastStageIndex == 0
      requires Increasing(order + [m]) && forall k :: 0 <= k < i ==> pipe.rows[0][k].Some?
      modifies this`order, pipe.rows, pipe.occupancy
      ensures Valid() && Checked() && order == old(order) + [m] && InPipe() == old(InPipe()) + [m]
      ensures (forall k :: 0 <= k <= i ==> pipe.rows[0][k].Some?) && pipe.rows[0] == old(pipe.rows[0])[i := Some(m)]
    {
      hide Flowing, Queue, InRows, InRow, Beyond, Packed;
      ghost var r, p := pipe.rows[..], InPipe();
      PipeIsFetched();
      FreeSlotIsLast(r, i);
      FilledIsPacked(r[0], i, m);
      AddBeyond(r, targetStage, resolved, i, Some(m));
      MopEnters(sent, queue, p, order, Done(p), m);
      pipe.Add(0, i, m);
      assert InPipe() == p + [m];
      order := order + [m];
    }

    /** Decoder i needs the microcode sequencer for m, to which only decoder 0 has access. */
    predicate TooComplex(i: nat, m: Mop) {
      (i < |maxUops| && maxUops[i] > 0 && m.numUops > maxUops[i]) || m.hasRep
    }

    /** Macro-op k of the instruction queue enters slot i; from decoder 0 it may start the microcode sequencer. */
    method Take(i: nat, iq: seq<Mop>, k: nat, now: int)
      requires Valid() && Checked() && i < width && pipe.rows[0][i].None? && k < |iq| && iq[k].lastStageIndex == 0
      requires Increasing(order + [iq[k]]) && forall l :: 0 <= l < i ==> pipe.rows[0][l].Some?
      requires forall l, l' :: 0 <= l < l' < |iq| ==> iq[l] != iq[l']
      modifies this`order, pipe.rows, pipe.occupancy, {iq[k]}`whenMSStarted
      ensures Valid() && Checked() && order == old(order) + [iq[k]] && InPipe() == old(InPipe()) + [iq[k]]
      ensures (forall l :: 0 <= l <= i ==> pipe.rows[0][l].Some?) && pipe.rows[0] == old(pipe.rows[0])[i := Some(iq[k])]
      ensures StartTimes(iq) == if i == 0 && TooComplex(0, iq[k]) then old(StartTimes(iq))[k := At(now + msLatency)]
                                else old(StartTimes(iq))
    {
      hide Flowing, Queue, InRows, InRow, Beyond, Packed, InProgress, Increasing;
      var m := iq[k];
      Enter(i, m);
      if i == 0 && TooComplex(i, m) {
        m.whenMSStarted := At(now + msLatency);
      }
    }

    /** Decoder i can do without the microcode sequencer for m. */
    ghost predicate Handles(i: nat, m: Mop) {
      !m.hasRep && (i < |maxUops| && maxUops[i] > 0 ==> m.numUops <= maxUops[i])
    }

    lemma TooComplexToHandle(i: nat, m: Mop)
      ensures TooComplex(i, m) <==> !Handles(i, m)
    {
    }

    /** The next macro-op m has to wait behind those taken in this cycle: the first stage is full, there have
        been enough branches, or the first free decoder cannot handle it. */
    ghost predicate MayStop(row: seq<Option<Mop>>, taken: seq<Mop>, m: Mop) {
      || (forall k :: 0 <= k < |row| ==> row[k].Some?)
      || (m.isCtrl && 0 < branchLimit <= Branches(taken))
      || (exists i :: 0 < i < |row| && row[i].None? && (forall k :: 0 <= k < i ==> row[k].Some?) && !Handles(i, m))
    }

    /** Decoder 0 is free and needs the microcode sequencer for m. */
    ghost predicate StartsMS(row: seq<Option<Mop>>, m: Mop) {
      row != [] && row[0].None? && !Handles(0, m)
    }

    /** The decoders that have been free, other than the first one, hold only what they can handle. */
    ghost predicate Suited(before: seq<Option<Mop>>, after: seq<Option<Mop>>) {
      |before| == |after| && forall i :: 0 < i < |after| && before[i].None? && after[i].Some? ==> Handles(i, after[i].value)
    }

    /** The first stage has been filled up to decoder i, and not changed behind it. */
    ghost predicate Filling(before: seq<Option<Mop>>, after: seq<Option<Mop>>, i: nat) {
      && i <= |after| && Suited(before, after) && after[i..] == before[i..]
      && forall k :: 0 <= k < i ==> after[k].Some?
    }

    lemma FillingParts(before: seq<Option<Mop>>, after: seq<Option<Mop>>, i: nat)
      requires Filling(before, after, i)
      ensures i <= |after| == |before| && Suited(before, after) && (forall k :: 0 <= k < i ==> after[k].Some?)
      ensures (i < |after| ==> after[i] == before[i]) && (i == 0 ==> after == before)
    {
      assert i < |after| ==> after[i..][0] == before[i..][0];
    }

    /** Decoder i has been busy, or takes x. */
    lemma FillNext(before: seq<Option<Mop>>, after: seq<Option<Mop>>, i: nat, x: Option<Mop>)
      requires Filling(before, after, i) && i < |after| && x.Some?
      requires if after[i].Some? then x == after[i] else i == 0 || Handles(i, x.value)
      ensures Filling(before, after[i := x], i + 1)
    {
      hide Handles;
      var r := after[i := x];
      assert r[i + 1..] == after[i..][1..] && before[i + 1..] == before[i..][1..];
    }

    lemma FillNextIf(before: seq<Option<Mop>>, after: seq<Option<Mop>>, i: nat, x: Option<Mop>)
      requires Filling(before, after, i) && i < |after| && x.Some?
      ensures after[i].Some? ==> Filling(before, after, i + 1)
      ensures after[i].None? && (i == 0 || Handles(i, x.value)) ==> Filling(before, after[i := x], i + 1)
    {
      hide Filling, Handles;
      if after[i].Some? {
        FillNext(before, after, i, after[i]);
        assert after[i := after[i]] == after;
      } else if i == 0 || Handles(i, x.value) {
        FillNext(before, after, i, x);
      }
    }

    lemma NothingFilled(row: seq<Option<Mop>>)
      ensures Filling(row, row, 0)
    {
    }

    /** Fills the first stage from the instruction queue. */
    method Fill(iq: seq<Mop>, now: int) returns (taken: nat)
      requires Valid() && Checked() && Increasing(order + iq) && forall m :: m in iq ==> m.lastStageIndex == 0
      modifies this`order, pipe.rows, pipe.occupancy, (set m | m in iq)`whenMSStarted
      ensures Valid() && Checked() && taken <= |iq| && order == old(order) + iq[..taken]
      ensures InPipe() == old(InPipe()) + iq[..taken]
      ensures branchLimit > 0 ==> Branches(iq[..taken]) <= branchLimit
      ensures taken < |iq| ==> MayStop(pipe.rows[0], iq[..taken], iq[taken])
      ensures Suited(old(pipe.rows[0]), pipe.rows[0])
      ensures StartTimes(iq) == if taken > 0 && StartsMS(old(pipe.rows[0]), iq[0])
                                then old(StartTimes(iq))[0 := At(now + msLatency)] else old(StartTimes(iq))
    {
      hide Flowing, Queue, InRows, InRow, Beyond, Packed, InProgress, Increasing, StartTimes, TooComplex, Handles, Checked,
        Filling, Suited;
      FetchedApart(order, iq);
      ghost var before := pipe.rows[0];
      NothingFilled(before);
      taken := 0;
      var branchesDecoded, i := 0, 0;
      while i < width && taken < |iq|
        invariant 0 <= i <= width && taken <= |iq| && Valid() && Checked()
        invariant order == old(order) + iq[..taken] && InPipe() == old(InPipe()) + iq[..taken]
        invariant Filling(before, pipe.rows[0], i)
        invariant branchesDecoded == Branches(iq[..taken]) && (branchLimit > 0 ==> branchesDecoded <= branchLimit)
        invariant i == 0 ==> taken == 0
        invariant i > 0 && taken == 0 ==> |iq| > 0 && !StartsMS(before, iq[0])
        invariant StartTimes(iq) == if taken > 0 && StartsMS(before, iq[0])
                                    then old(StartTimes(iq))[0 := At(now + msLatency)] else old(StartTimes(iq))
      {
        ghost var row := pipe.rows[0];
        FillingParts(before, row, i);
        FillNextIf(before, row, i, Some(iq[taken]));
        assert taken < |iq| ==> iq[..taken + 1][..taken] == iq[..taken];
        if pipe.rows[0][i].None? {
          var m := iq[taken];
          if m.isCtrl && branchLimit > 0 && branchesDecoded >= branchLimit {
            break;
          }
          TooComplexToHandle(i, m);
          if i > 0 && TooComplex(i, m) {
            break;
          }
          NextFetched(old(order), iq, taken);
          Take(i, iq, taken, now);
          taken := taken + 1;
          if m.isCtrl {
            branchesDecoded := branchesDecoded + 1;
          }
        }
        i := i + 1;
      }
      FillingParts(before, pipe.rows[0], i);
    }

    lemma RowZeroStays(before: seq<seq<Option<Mop>>>)
      requires OnlyEmptied(before, pipe.rows[..]) && Beyond(before, targetStage, resolved)
      ensures Beyond(pipe.rows[..], targetStage, resolved)
    {
    }

    /** One cycle. First decoded uops leave until the uop queue is full or the last stage empty; then the
        stages move on; then macro-ops enter in fetch order from the instruction queue. Or there is a resteer:
        nobody enters, and exactly the macro-ops younger than the resteering one are dropped. */
    method Step(iq: seq<Mop>, now: int)
      returns (taken: nat, resteer: Mop?, ghost sending: seq<seq<Option<Mop>>>, ghost moved: seq<seq<Option<Mop>>>, ghost h: nat)
      requires Valid() && Checked() && 0 < width && Increasing(order + iq) && forall m :: m in iq ==> m.lastStageIndex == 0
      modifies this`order, this`resolved, this`uopQTail, this`uopQNum, this`uopQEffNum, this`queue, uopQ
      modifies pipe.rows, pipe.occupancy, (set m | m in iq)`whenMSStarted
      modifies (set m | m in order)`predNPC, (set m | m in order)`lastStageIndex
      ensures Valid() && Checked() && sent == old(sent) && taken <= |iq|
      ensures |sending| == depth && OnlyEmptied(old(pipe.rows[..]), sending)
      ensures uopQNum >= uopQ.Length || Vacant(sending[depth - 1])
      ensures resteer != null ==>
        && taken == 0 && CutAt(old(order), order, resteer) && CutAt(InRows(sending), InPipe(), resteer)
        && old(resteer.Mispredicted()) && resteer.predNPC == resteer.Corrected()
      ensures forall m :: m in old(order) && m != resteer ==> m.predNPC == old(m.predNPC)
      ensures resteer == null ==>
        && order == old(order) + iq[..taken] && InPipe() == InRows(moved) + iq[..taken]
        && h < depth && |moved| == depth && Walked(sending, moved, h) && NoneHeldUp(sending, h, now)
        && (h > 0 ==> HeldUp(moved[h - 1], now))
        && (taken < |iq| ==> MayStop(pipe.rows[0], iq[..taken], iq[taken])) && Suited(moved[0], pipe.rows[0])
      ensures StartTimes(iq) == if resteer == null && taken > 0 && StartsMS(moved[0], iq[0])
                                then old(StartTimes(iq))[0 := At(now + msLatency)] else old(StartTimes(iq))
    {
      hide Flowing, Queue, InRows, InRow, Beyond, Packed, InProgress, Increasing, Walked, Vacant, MayStop, StartsMS, StartTimes,
        OnlyEmptied, HeldUp, NoneHeldUp, Suited, TooComplex, Handles, OldRows, Mop.Corrected, Mop.Mispredicted;
      ghost var r := pipe.rows[..];
      NewerFetched(order, iq);
      ToQueue();
      sending := pipe.rows[..];
      RowZeroStays(r);
      PipeIsFetched();
      AllOld(iq);
      resteer, h := Shuffle(now);
      moved := pipe.rows[..];
      taken := 0;
      if resteer == null {
        PipeIsFetched();
        OldRow(h, iq);
        taken := Fetch(iq, now, sending, h);
      }
    }

    /** Macro-ops enter; what is known of those already in the pipe stays so. */
    method Fetch(iq: seq<Mop>, now: int, ghost sending: seq<seq<Option<Mop>>>, ghost h: nat) returns (taken: nat)
      requires Valid() && Checked() && Increasing(order + iq) && forall m :: m in iq ==> m.lastStageIndex == 0
      requires OldRows(sending, iq) && NoneHeldUp(sending, h, now)
      requires h < depth && (h > 0 ==> HeldUp(pipe.rows[h - 1], now))
      requires h > 0 ==> var row := pipe.rows[h - 1]; forall i :: 0 <= i < |row| && row[i].Some? ==> row[i].value !in iq
      modifies this`order, pipe.rows, pipe.occupancy, (set m | m in iq)`whenMSStarted
      ensures Valid() && Checked() && taken <= |iq| && order == old(order) + iq[..taken]
      ensures InPipe() == old(InPipe()) + iq[..taken]
      ensures taken < |iq| ==> MayStop(pipe.rows[0], iq[..taken], iq[taken])
      ensures Suited(old(pipe.rows[0]), pipe.rows[0])
      ensures StartTimes(iq) == if taken > 0 && StartsMS(old(pipe.rows[0]), iq[0])
                                then old(StartTimes(iq))[0 := At(now + msLatency)] else old(StartTimes(iq))
      ensures NoneHeldUp(sending, h, now) && (h > 0 ==> HeldUp(old(pipe.rows[h - 1]), now))
    {
      hide Flowing, Queue, InRows, InRow, Beyond, Packed, InProgress, Increasing, MayStop, StartsMS, StartTimes,
        HeldUp, NoneHeldUp, Suited, TooComplex, Handles;
      taken := Fill(iq, now);
    }

    lemma AllOld(iq: seq<Mop>)
      requires pipe.Shape() && (forall m :: m in InPipe() ==> m in order) && forall m :: m in iq ==> m !in order
      ensures OldRows(pipe.rows[..], iq)
    {
      ghost var rows: seq<seq<Option<Mop>>> := pipe.rows[..];
      forall s, i | 0 <= s < |rows| && 0 <= i < |rows[s]| && rows[s][i].Some? ensures rows[s][i].value !in iq {
        SlotInPipe(rows, s, i);
      }
    }

    /** The macro-ops of a row are none of those still in the instruction queue. */
    lemma OldRow(h: nat, iq: seq<Mop>)
      requires pipe.Shape() && h < pipe.depth && (forall m :: m in InPipe() ==> m in order) && forall m :: m in iq ==> m !in order
      ensures h > 0 ==> var row := pipe.rows[h - 1]; forall i :: 0 <= i < |row| && row[i].Some? ==> row[i].value !in iq
    {
      if h > 0 {
        var row := pipe.rows[h - 1];
        forall i | 0 <= i < |row| && row[i].Some? ensures row[i].value !in iq {
          SlotInPipe(pipe.rows[..], h - 1, i);
        }
      }
    }

    /** Drops the youngest entries of the uop queue, up to one of m. */
    method RecoverUopQ(m: Mop)
      requires Queue()
      modifies this`uopQTail, this`uopQNum, this`uopQEffNum, this`queue, uopQ
      ensures Queue() && queue <= old(queue) && (queue != [] ==> queue[|queue| - 1].mop == m)
      ensures forall k :: |queue| <= k < |old(queue)| ==> old(queue)[k].mop != m
    {
      hide Holding, Used, Slot, Sizes, Size;
      while uopQNum > 0
        invariant Queue() && queue <= old(queue)
        invariant forall k :: |queue| <= k < |old(queue)| ==> old(queue)[k].mop != m
      {
        HoldingEnds(uopQ[..], uopQHead, uopQNum, queue);
        HoldingPopBack(uopQ[..], uopQHead, uopQNum, queue);
        SizesLast(queue);
        var index := ModDec(uopQTail, uopQ.Length);
        var u := uopQ[index].value;
        if u.mop == m {
          return;
        }
        uopQEffNum := uopQEffNum - Size(u);
        uopQNum := uopQNum - 1;
        uopQ[index] := None;
        uopQTail := index;
        queue := queue[..|queue| - 1];
      }
      QueueEmpty();
      uopQEffNum := 0;
    }

    lemma QueueEmpty()
      requires Queue() && uopQNum == 0
      ensures queue == [] && Sizes(queue) == 0
    {
    }

    /** Recovery to m: exactly the macro-ops fetched after m are dropped, wherever they are, with all their
        uops. What has been handed on is cut in the same way by the later stages. */
    method Recover(m: Mop)
      requires Valid() && Checked() && m in order
      modifies this`order, this`sent, this`uopQTail, this`uopQNum, this`uopQEffNum, this`queue, uopQ
      modifies pipe.rows, pipe.occupancy
      ensures Valid() && Checked() && CutAt(old(order), order, m)
      ensures queue <= old(queue) && InPipe() <= old(InPipe())
      ensures sent == Shorter(old(sent), |AllUops(order)|)
    {
      hide Flowing, Queue, InRows, InRow, Beyond, Packed, AllUops, Shorter, InProgress, Done, OnlyEmptied;
      ghost var r, p, d := pipe.rows[..], InPipe(), Done(InPipe());
      ghost var o, q, t := order, queue, sent;
      var found := CutPipe(m);
      RowZeroStays(r);
      if found {
        PipeCut(sent, queue, p, order, d, InPipe());
        order := order[..|order| - |p| + |InPipe()|];
        SentIsShort(sent, queue, InPipe(), order, d);
      } else {
        RecoverUopQ(m);
        ghost var j :| 0 <= j < |o| && o[j] == m;
        QueueCut(t, q, p, o, d, j, queue);
        order := o[..j + 1];
        sent := Shorter(sent, |AllUops(order)|);
        assert Done(InPipe()) == 0 by { NoneDone(); }
      }
    }

    lemma NoneDone()
      ensures InPipe() == [] ==> Done(InPipe()) == 0
    {
    }

    /** A full flush. */
    method Flush()
      requires Valid() && Checked()
      modifies this, uopQ, pipe.rows, pipe.occupancy
      ensures Valid() && Checked() && order == [] && sent == [] && queue == [] && InPipe() == []
    {
      hide *;
      Knobs();
      forall i | 0 <= i < uopQ.Length {
        uopQ[i] := None;
      }
      uopQHead, uopQTail, uopQNum, uopQEffNum := 0, 0, 0, 0;
      pipe.Clear();
      queue, sent, order, resolved := [], [], [], {};
      assert uopQ[..] == seq(uopQ.Length, _ => None);
      NothingYet();
    }

    lemma Knobs()
      requires Valid()
      ensures pipe.Shape() && 0 < targetStage < depth == pipe.depth && pipe.width == width == |maxUops| && 0 < uopQ.Length
    {
    }
  }

  lemma SizesLast(q: seq<Uop>)
    requires q != []
    ensures Sizes(q) == Sizes(q[..|q| - 1]) + Size(q[|q| - 1])
  {
  }

  lemma SentIsShort(sent: seq<Uop>, q: seq<Uop>, p: seq<Mop>, order: seq<Mop>, d: nat)
    requires Flowing(sent, q, p, order, d)
    ensures Shorter(sent, |AllUops(order)|) == sent
  {
    assert |sent + q + Pending(p, d)| >= |sent|;
  }

  lemma NotCleared(before: seq<seq<Option<Mop>>>, after: seq<seq<Option<Mop>>>, m: Mop)
    requires Cleared(before, after, x => x == m) && InRows(after) == []
    ensures m !in InRows(before)
  {
    var stop := x => x == m;
    assert forall k :: 0 <= k < |InRows(before)| ==> !stop(InRows(before)[k]);
  }

  lemma FetchedApart(order: seq<Mop>, iq: seq<Mop>)
    requires Increasing(order + iq)
    ensures forall j, k :: 0 <= j < k < |iq| ==> iq[j] != iq[k]
  {
    var n, all := |order|, order + iq;
    forall j, k | 0 <= j < k < |iq| ensures iq[j] != iq[k] { assert all[n + j] == iq[j] && all[n + k] == iq[k]; }
  }

  lemma NextFetched(order: seq<Mop>, iq: seq<Mop>, taken: nat)
    requires Increasing(order + iq) && taken < |iq|
    ensures Increasing(order + iq[..taken] + [iq[taken]])
    ensures order + iq[..taken] + [iq[taken]] == order + iq[..taken + 1]
  {
    var a, b := order + iq[..taken] + [iq[taken]], order + iq;
    assert a == b[..|order| + taken + 1];
  }

  lemma NewerFetched(order: seq<Mop>, iq: seq<Mop>)
    requires Increasing(order + iq)
    ensures forall m :: m in iq ==> m !in order
  {
    forall j, k | 0 <= j < |order| && 0 <= k < |iq| ensures order[j] != iq[k] {
      assert (order + iq)[j] == order[j] && (order + iq)[|order| + k] == iq[k];
    }
  }

  lemma FreeSlotIsLast<T>(rows: seq<seq<Option<T>>>, i: nat)
    requires 0 < |rows| && i < |rows[0]| && rows[0][i].None? && Packed(rows[0])
    ensures Younger(rows, 0, i + 1) == []
  {
    VacantIff(rows[0][i + 1..]);
  }

  lemma FilledIsPacked<T>(row: seq<Option<T>>, i: nat, x: T)
    requires i < |row| && row[i].None? && Packed(row) && forall k :: 0 <= k < i ==> row[k].Some?
    ensures Packed(row[i := Some(x)])
  {
  }

  lemma AddBeyond<T>(rows: seq<seq<Option<T>>>, t: nat, items: set<T>, i: nat, x: Option<T>)
    requires Beyond(rows, t, items) && 0 < |rows| && i < |rows[0]|
    ensures Beyond(Set(rows, 0, i, x), t, items)
  {
  }

  lemma VacantIsPacked<T>(rows: seq<seq<Option<T>>>, s: nat)
    requires 0 < s < |rows| && |rows[s]| == |rows[s - 1]| && Shifted(rows, s, |rows[s - 1]|)
    ensures Packed(rows[s - 1])
  {
    assert rows[s - 1][..|rows[s - 1]|] == rows[s - 1];
  }

  ghost function StartTimes(mops: seq<Mop>): (times: seq<Tick>)
    reads (set m | m in mops)`whenMSStarted
    ensures |times| == |mops| && forall k :: 0 <= k < |mops| ==> times[k] == mops[k].whenMSStarted
  {
    if mops == [] then [] else StartTimes(mops[..|mops| - 1]) + [mops[|mops| - 1].whenMSStarted]
  }

  ghost function Branches(mops: seq<Mop>): nat {
    if mops == [] then 0 else Branches(mops[..|mops| - 1]) + if mops[|mops| - 1].isCtrl then 1 else 0
  }

  lemma SwappedVacant<T>(rows: seq<seq<Option<T>>>, s: nat)
    requires 0 < s < |rows| && |rows[s]| == |rows[s - 1]| && Vacant(rows[s]) && Vacant(rows[s - 1])
    ensures Swapped(rows, s) == rows
  {
    assert rows[s] == rows[s - 1];
  }

  /** The microcode sequencer has not started yet for the first macro-op of the row; in cycle 0 an empty
      first slot holds up the walk as well. */
  ghost predicate HeldUp(row: seq<Option<Mop>>, now: int)
    reads (set i | 0 <= i < |row| && row[i].Some? :: row[i].value)`whenMSStarted
  {
    row != [] && if row[0].Some? then row[0].value.whenMSStarted.At? && row[0].value.whenMSStarted.cycle >= now else now <= 0
  }

  /** A row moves on in the first cycle after the start of its microcode, if its first macro-op needs any. An empty first
      slot counts as one that starts in cycle 0. */
  lemma HeldUpUntilStart(row: seq<Option<Mop>>, now: int)
    requires row != []
    ensures row[0].Some? && row[0].value.whenMSStarted != Never ==>
      (HeldUp(row, now) <==> !(now > row[0].value.whenMSStarted.cycle))
    ensures row[0].Some? && row[0].value.whenMSStarted == Never ==> !HeldUp(row, now)
    ensures row[0].None? ==> (HeldUp(row, now) <==> !(now > 0))
  {
  }

  /** None of the macro-ops in the rows is still in the instruction queue. */
  ghost predicate OldRows(rows: seq<seq<Option<Mop>>>, iq: seq<Mop>) {
    forall s, i :: 0 <= s < |rows| && 0 <= i < |rows[s]| && rows[s][i].Some? ==> rows[s][i].value !in iq
  }

  /** No row that has moved on, when the walk has come to stage h, is held up by microcode. */
  ghost predicate NoneHeldUp(before: seq<seq<Option<Mop>>>, h: nat, now: int)
    reads (set s, i | 0 <= s < |before| && 0 <= i < |before[s]| && before[s][i].Some? :: before[s][i].value)`whenMSStarted
  {
    forall t: nat, s: nat :: OldestHole(before, t) && h <= s < t ==> !HeldUp(before[s], now)
  }

  lemma NothingMovedYet(before: seq<seq<Option<Mop>>>, now: int)
    requires before != []
    ensures NoneHeldUp(before, |before| - 1, now)
  {
  }

  lemma MovesNext(before: seq<seq<Option<Mop>>>, after: seq<seq<Option<Mop>>>, s: nat, now: int)
    requires 0 < s < |before| && Walked(before, after, s) && NoneHeldUp(before, s, now)
    ensures |after| == |before|
    ensures !Vacant(after[s]) || !HeldUp(after[s - 1], now) ==> NoneHeldUp(before, s - 1, now)
  {
    hide Vacant, HeldUp;
    forall t: nat, u: nat | OldestHole(before, t) && s - 1 <= u < t && (!Vacant(after[s]) || !HeldUp(after[s - 1], now))
      ensures !HeldUp(before[u], now)
    {
      if u == s - 1 {
        assert Vacant(before[t]);
        assert after[s] == before[t] && after[s - 1] == before[s - 1];
      }
    }
  }

  datatype Stall = NoStall | Phantom | Target

  /** Slot i of the last stage, with the oldest macro-op, has been emptied, or nothing has changed. */
  ghost predicate SlotGone(before: seq<seq<Option<Mop>>>, after: seq<seq<Option<Mop>>>, i: nat, gone: bool) {
    && (!gone ==> after == before)
    && (gone ==> before != [] && InRows(before) != [] && InRows(after) == InRows(before)[1..]
                 && i < |before[|before| - 1]| && after == Set(before, |before| - 1, i, None))
  }

  /** Slots have been emptied, and nothing else. */
  ghost predicate OnlyEmptied<T>(before: seq<seq<Option<T>>>, after: seq<seq<Option<T>>>) {
    && |before| == |after| && (forall s :: 0 <= s < |after| ==> |after[s]| == |before[s]|)
    && forall s, i :: 0 <= s < |after| && 0 <= i < |after[s]| && after[s][i].Some? ==> after[s][i] == before[s][i]
  }

  lemma StaysShifted<T>(before: seq<seq<Option<T>>>, after: seq<seq<Option<T>>>, s: nat, i: nat)
    requires OnlyEmptied(before, after)
    requires 0 < s < |before| && i <= |before[s]| == |before[s - 1]| && Shifted(before, s, i)
    ensures Shifted(after, s, i)
  {
    var ahead, behind := after[s][i..], after[s - 1][..i];
    forall k | 0 <= k < |ahead| ensures ahead[k] == None {
      assert before[s][i..][k] == None && ahead[k] == after[s][i + k];
    }
    forall k | 0 <= k < |behind| ensures behind[k] == None {
      assert before[s - 1][..i][k] == None;
    }
  }

  lemma FewerBeyond<T>(before: seq<seq<Option<T>>>, after: seq<seq<Option<T>>>, t: nat, fewer: set<T>, more: set<T>)
    requires OnlyEmptied(before, after) && Beyond(before, t, fewer) && fewer <= more
    ensures Beyond(after, t, more)
  {
  }

  lemma ShiftBeyond<T>(rows: seq<seq<Option<T>>>, t: nat, items: set<T>, s: nat, i: nat)
    requires Beyond(rows, t, items) && 0 < s < |rows| && i < |rows[s]| == |rows[s - 1]|
    requires s - 1 == t && rows[s - 1][i].Some? ==> rows[s - 1][i].value in items
    ensures Beyond(Set(Set(rows, s, i, rows[s - 1][i]), s - 1, i, None), t, items)
  {
  }

  lemma SlotInPipe<T>(rows: seq<seq<Option<T>>>, s: nat, i: nat)
    requires s < |rows| && i < |rows[s]| && rows[s][i].Some?
    ensures rows[s][i].value in InRows(rows)
  {
    SlotAt(rows, s, i);
  }

  lemma NothingEmptied<T>(rows: seq<seq<Option<T>>>)
    ensures OnlyEmptied(rows, rows)
  {
  }

  lemma EmptiedOne<T>(before: seq<seq<Option<T>>>, after: seq<seq<Option<T>>>, s: nat, i: nat)
    requires OnlyEmptied(before, after) && s < |after| && i < |after[s]|
    ensures OnlyEmptied(before, Set(after, s, i, None))
  {
  }

  lemma ClearedOnlyEmpties<T>(before: seq<seq<Option<T>>>, after: seq<seq<Option<T>>>, stop: T -> bool)
    requires Cleared(before, after, stop)
    ensures OnlyEmptied(before, after)
    ensures |after| > 0 && Packed(before[0]) ==> Packed(after[0])
  {
    forall s, i | 0 <= s < |after| && 0 <= i < |after[s]| && after[s][i].Some? ensures after[s][i] == before[s][i] {
      assert Trimmed(before[s], after[s]);
    }
    if |after| > 0 { assert Trimmed(before[0], after[0]); }
  }
}
