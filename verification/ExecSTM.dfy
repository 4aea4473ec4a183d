/** The load and store queues of the simple timing model (exec-STM.cpp): two rings updated in place. */
module ExecSTM {
  import opened Rings
  import opened Ticks
  import opened LoadStoreOrder

  const EMPTY_LOAD := LdqEntry(null, 0, 0, false, 0, false, At(0))
  const EMPTY_STORE := StqEntry(null, null, 0, 0, 0, false, false, 0)

  class ExecSTM {
    const LDQ: array<LdqEntry>
    const STQ: array<StqEntry>
    var ldqHead: nat
    var ldqTail: nat
    var ldqNum: nat
    var stqHead: nat
    var stqTail: nat
    var stqNum: nat
    var nextAction: nat

    ghost var uops: set<Uop>  // the uops that the queues point at

    ghost predicate Shape()
      reads this
    {
      && ldqHead < LDQ.Length && ldqNum <= LDQ.Length && ldqTail == Slot(ldqHead, ldqNum, LDQ.Length)
      && stqHead < STQ.Length && stqNum <= STQ.Length && stqTail == Slot(stqHead, stqNum, STQ.Length)
    }

    ghost function Loads(): seq<LdqEntry>
      requires Shape()
      reads this, LDQ
    {
      Window(LDQ[..], ldqHead, ldqNum)
    }

    ghost function Stores(): seq<StqEntry>
      requires Shape()
      reads this, STQ
    {
      Window(STQ[..], stqHead, stqNum)
    }

    /** Slots outside the queues point at no uop. */
    ghost predicate UnusedClear()
      requires Shape()
      reads this, LDQ, STQ
    {
      && (forall i :: 0 <= i < LDQ.Length && !Used(ldqHead, ldqNum, LDQ.Length, i) ==> LDQ[i].uop == null)
      && (forall i :: 0 <= i < STQ.Length && !Used(stqHead, stqNum, STQ.Length, i) ==>
            STQ[i].sta == null && STQ[i].std == null)
    }

    /** Every queued uop knows its slot. */
    ghost predicate Indexed()
      reads this, LDQ, STQ, uops`ldqIndex, uops`stqIndex
    {
      && (forall i :: 0 <= i < LDQ.Length && LDQ[i].uop != null ==> LDQ[i].uop in uops && LDQ[i].uop.ldqIndex == i)
      && (forall i :: 0 <= i < STQ.Length && STQ[i].sta != null ==> STQ[i].sta in uops && STQ[i].sta.stqIndex == i)
      && (forall i :: 0 <= i < STQ.Length && STQ[i].std != null ==> STQ[i].std in uops && STQ[i].std.stqIndex == i)
    }

    ghost predicate Valid()
      reads this, LDQ, STQ, uops`ldqIndex, uops`stqIndex
    {
      && Shape() && UnusedClear() && Indexed()
      && InOrder(Stores(), stqHead, STQ.Length, Loads(), ldqHead, LDQ.Length)
    }

    /** The number of queued stores older than the load. */
    ghost function OlderStores(load: Uop): (k: nat)
      requires Shape()
      reads this, STQ
      ensures k <= stqNum
    {
      CountOlder(StoreAges(Stores()), load.seqNum)
    }

    constructor (ldqSize: nat, stqSize: nat)
      requires 0 < ldqSize && 0 < stqSize
      ensures Valid() && fresh(LDQ) && fresh(STQ) && LDQ.Length == ldqSize && STQ.Length == stqSize
      ensures Loads() == [] && Stores() == [] && uops == {}
    {
      LDQ := new LdqEntry[ldqSize](_ => EMPTY_LOAD);
      STQ := new StqEntry[stqSize](_ => EMPTY_STORE);
      ldqHead, ldqTail, ldqNum := 0, 0, 0;
      stqHead, stqTail, stqNum := 0, 0, 0;
      nextAction := 0;
      uops := {};
    }

    // -------------------------------------------------------------- loads enter and leave

    method LDQInsert(uop: Uop)
      requires Valid() && uop !in uops && uop.kind == Load && ldqNum < LDQ.Length
      requires Youngest(Stores(), Loads(), uop.seqNum)
      modifies this, LDQ, uop`ldqIndex
      ensures Valid() && uops == old(uops) + {uop}
      ensures Loads() == old(Loads()) + [LdqEntry(uop, 0, uop.memSize, false,
                Color(Stores(), stqHead, STQ.Length, uop.seqNum), false, Never)]
      ensures Stores() == old(Stores()) && stqHead == old(stqHead) && ldqHead == old(ldqHead)
    {
      hide InOrder;
      var e := EMPTY_LOAD.(uop := uop, memSize := uop.memSize,
                           storeColor := ModDec(stqTail, STQ.Length), whenIssued := Never);
      WindowPush(LDQ[..], ldqHead, ldqNum, e);
      InsertLoad(Stores(), stqHead, STQ.Length, Loads(), ldqHead, LDQ.Length, e);
      LDQ[ldqTail] := e;
      uop.ldqIndex := ldqTail;
      ldqNum := ldqNum + 1;
      ldqTail := ModInc(ldqTail, LDQ.Length);
      uops := uops + {uop};
      assert Loads() == old(Loads()) + [e] && Stores() == old(Stores());
    }

    /** Commit takes the oldest load, once every older store has left. */
    method LDQDeallocate(uop: Uop)
      requires Valid() && ldqNum > 0 && Loads()[0].uop == uop
      requires forall p :: 0 <= p < stqNum ==> uop.seqNum < Stores()[p].uopSeq
      modifies this, LDQ, uop`ldqIndex
      ensures Valid() && Loads() == old(Loads())[1..] && Stores() == old(Stores())
      ensures uop.ldqIndex == -1 && uops == old(uops)
    {
      hide InOrder;
      RemoveFirstLoad(Stores(), stqHead, STQ.Length, Loads(), ldqHead, LDQ.Length);
      WindowPopFront(LDQ[..], ldqHead, ldqNum);
      WindowFrame(LDQ[..], ModInc(ldqHead, LDQ.Length), ldqNum - 1, ldqHead, LDQ[ldqHead].(uop := null));
      UsedPopFront(ldqHead, ldqNum, LDQ.Length);
      LDQ[ldqHead] := LDQ[ldqHead].(uop := null);
      ldqNum := ldqNum - 1;
      ldqHead := ModInc(ldqHead, LDQ.Length);
      uop.ldqIndex := -1;
      assert Loads() == old(Loads())[1..] && Stores() == old(Stores());
    }

    /** Recovery takes the youngest load, once every younger store has been squashed. */
    method LDQSquash(deadUop: Uop)
      requires Valid() && ldqNum > 0 && Loads()[ldqNum - 1].uop == deadUop
      requires forall p :: 0 <= p < stqNum ==> Stores()[p].uopSeq < deadUop.seqNum
      modifies this, LDQ, deadUop`ldqIndex
      ensures Valid() && Loads() == old(Loads())[..old(ldqNum) - 1] && Stores() == old(Stores())
      ensures deadUop.ldqIndex == -1 && uops == old(uops) && LDQ[ldqTail] == EMPTY_LOAD
    {
      hide InOrder;
      RemoveLastLoad(Stores(), stqHead, STQ.Length, Loads(), ldqHead, LDQ.Length);
      UsedPopBack(ldqHead, ldqNum, LDQ.Length);
      WindowPopBack(LDQ[..], ldqHead, ldqNum);
      WindowFrame(LDQ[..], ldqHead, ldqNum - 1, Slot(ldqHead, ldqNum - 1, LDQ.Length), EMPTY_LOAD);
      var i := deadUop.ldqIndex;
      assert i == Slot(ldqHead, ldqNum - 1, LDQ.Length);
      LDQ[i] := EMPTY_LOAD;
      ldqNum := ldqNum - 1;
      ldqTail := ModDec(ldqTail, LDQ.Length);
      deadUop.ldqIndex := -1;
      assert Loads() == old(Loads())[..ldqNum] && Stores() == old(Stores());
    }

    // -------------------------------------------------------------- stores enter and leave

    method STQInsertSta(uop: Uop)
      requires Valid() && uop !in uops && uop.kind == Sta && stqNum < STQ.Length
      requires Youngest(Stores(), Loads(), uop.seqNum)
      modifies this, STQ, uop`stqIndex
      ensures Valid() && uops == old(uops) + {uop}
      ensures Stores() == old(Stores()) + [StqEntry(uop, null, uop.seqNum, 0, uop.memSize, false, false,
                NextLoad(Loads(), ldqHead, LDQ.Length, uop.seqNum))]
      ensures Loads() == old(Loads())
    {
      hide InOrder;
      var e := EMPTY_STORE.(sta := uop, memSize := uop.memSize, uopSeq := uop.seqNum, nextLoad := ldqTail);
      WindowPush(STQ[..], stqHead, stqNum, e);
      InsertStore(Stores(), stqHead, STQ.Length, Loads(), ldqHead, LDQ.Length, e);
      STQ[stqTail] := e;
      uop.stqIndex := stqTail;
      stqNum := stqNum + 1;
      stqTail := ModInc(stqTail, STQ.Length);
      uops := uops + {uop};
      assert Stores() == old(Stores()) + [e] && Loads() == old(Loads());
    }

    /** The data half joins the address half that was inserted last. */
    method STQInsertStd(uop: Uop)
      requires Valid() && uop !in uops && uop.kind == Std && stqNum > 0
      requires var last := Stores()[stqNum - 1]; last.sta != null && last.sta.mop == uop.mop && last.std == null
      modifies this, STQ, uop`stqIndex
      ensures Valid() && uops == old(uops) + {uop} && Loads() == old(Loads())
      ensures var n := old(stqNum) - 1;
              Stores() == old(Stores())[n := old(Stores())[n].(std := uop)]
    {
      hide InOrder;
      var index := ModDec(stqTail, STQ.Length);
      assert index == Slot(stqHead, stqNum - 1, STQ.Length);
      ghost var e := STQ[index].(std := uop);
      UpdateStore(Stores(), stqHead, STQ.Length, Loads(), ldqHead, LDQ.Length, stqNum - 1, e);
      WindowUpdate(STQ[..], stqHead, stqNum, stqNum - 1, e);
      uop.stqIndex := index;
      STQ[index] := STQ[index].(std := uop);
      uops := uops + {uop};
      assert Stores() == old(Stores())[stqNum - 1 := e] && Loads() == old(Loads());
    }

    /** Commit of the address half of the oldest store. */
    method STQDeallocateSta()
      requires Valid() && stqNum > 0
      requires forall q :: 0 <= q < ldqNum ==> Stores()[0].uopSeq < Loads()[q].uop.seqNum
      modifies STQ
      ensures Valid() && Loads() == old(Loads())
      ensures Stores() == old(Stores())[0 := old(Stores())[0].(sta := null)]
    {
      hide InOrder;
      ghost var e := STQ[stqHead].(sta := null);
      UpdateStore(Stores(), stqHead, STQ.Length, Loads(), ldqHead, LDQ.Length, 0, e);
      WindowUpdate(STQ[..], stqHead, stqNum, 0, e);
      STQ[stqHead] := STQ[stqHead].(sta := null);
      assert Stores() == old(Stores())[0 := e] && Loads() == old(Loads());
    }

    /** Commit of its data half: the store leaves if the caches take it. */
    method STQDeallocateStd(uop: Uop, dl1Enqueuable: bool, dtlbEnqueuable: bool) returns (ok: bool)
      requires Valid() && stqNum > 0 && Stores()[0].sta == null && Stores()[0].std == uop
      modifies this, STQ
      ensures Valid() && Loads() == old(Loads())
      ensures ok <==> dl1Enqueuable && dtlbEnqueuable
      ensures Stores() == (if ok then old(Stores())[1..] else old(Stores())) && uops == old(uops)
      ensures nextAction == old(nextAction) + if ok then 1 else 0
    {
      hide InOrder, Window, Used;
      if !dl1Enqueuable || !dtlbEnqueuable {
        return false;
      }
      RemoveFirstStore(Stores(), stqHead, STQ.Length, Loads(), ldqHead, LDQ.Length);
      UsedPopFront(stqHead, stqNum, STQ.Length);
      WindowPopFront(STQ[..], stqHead, stqNum);
      WindowFrame(STQ[..], ModInc(stqHead, STQ.Length), stqNum - 1, stqHead, STQ[stqHead].(std := null));
      nextAction := nextAction + 1;
      STQ[stqHead] := STQ[stqHead].(std := null);
      stqNum := stqNum - 1;
      stqHead := ModInc(stqHead, STQ.Length);
      return true;
    }

    /** Recovery of the data half of the youngest store. */
    method STQSquashStd(deadUop: Uop)
      requires Valid() && stqNum > 0 && Stores()[stqNum - 1].std == deadUop
      modifies STQ, deadUop`stqIndex
      ensures Valid() && Loads() == old(Loads())
      ensures var n := stqNum - 1; Stores() == old(Stores())[n := old(Stores())[n].(std := null)]
      ensures deadUop.stqIndex == -1
    {
      hide InOrder;
      var i := deadUop.stqIndex;
      assert i == Slot(stqHead, stqNum - 1, STQ.Length);
      ghost var e := STQ[i].(std := null);
      HalvesDiffer(Stores(), stqHead, STQ.Length, Loads(), ldqHead, LDQ.Length, stqNum - 1);
      UpdateStore(Stores(), stqHead, STQ.Length, Loads(), ldqHead, LDQ.Length, stqNum - 1, e);
      WindowUpdate(STQ[..], stqHead, stqNum, stqNum - 1, e);
      STQ[i] := STQ[i].(std := null);
      deadUop.stqIndex := -1;
      assert Stores() == old(Stores())[stqNum - 1 := e] && Loads() == old(Loads());
    }

    /** Recovery of its address half: the store leaves, once every younger load has been squashed. */
    method STQSquashSta(deadUop: Uop)
      requires Valid() && stqNum > 0 && Stores()[stqNum - 1].sta == deadUop && Stores()[stqNum - 1].std == null
      requires forall q :: 0 <= q < ldqNum ==> Loads()[q].uop.seqNum < deadUop.seqNum
      modifies this, STQ, deadUop`stqIndex
      ensures Valid() && Loads() == old(Loads()) && Stores() == old(Stores())[..old(stqNum) - 1]
      ensures deadUop.stqIndex == -1 && uops == old(uops) && STQ[stqTail] == EMPTY_STORE
    {
      hide InOrder;
      var i := deadUop.stqIndex;
      assert i == Slot(stqHead, stqNum - 1, STQ.Length);
      RemoveLastStore(Stores(), stqHead, STQ.Length, Loads(), ldqHead, LDQ.Length);
      UsedPopBack(stqHead, stqNum, STQ.Length);
      WindowPopBack(STQ[..], stqHead, stqNum);
      WindowFrame(STQ[..], stqHead, stqNum - 1, i, EMPTY_STORE);
      STQ[i] := EMPTY_STORE;
      stqNum := stqNum - 1;
      stqTail := ModDec(stqTail, STQ.Length);
      deadUop.stqIndex := -1;
      assert Stores() == old(Stores())[..stqNum] && Loads() == old(Loads());
    }

    // -------------------------------------------------------------- execution

    /** The backward search from a load's store color, over its k older stores. */
    method SearchFrom(storeColor: nat, seqNum: nat, ldAddr: nat, ghost stores: seq<StqEntry>, ghost k: nat)
      returns (j: nat, ghost p: int)
      requires stqHead < STQ.Length && k <= stqNum <= STQ.Length && k <= |stores|
      requires storeColor == Walk(stqHead, STQ.Length, k, 0)
      requires WalkVisits(STQ[..], stqHead, stqNum, seqNum, stores, k)
      requires forall r :: 0 < r < k ==> stores[r].sta != null
      ensures p == -1 ==> NoneKnown(stores, k, ldAddr) && j == STQ.Length
      ensures p != -1 ==> YoungestKnown(stores, k, ldAddr, p) && j == Slot(stqHead, p, STQ.Length)
    {
      var numStores := 0;
      j := storeColor;
      while STQ[j].sta != null && STQ[j].sta.seqNum < seqNum && numStores < stqNum
        invariant 0 <= numStores <= k && j == Walk(stqHead, STQ.Length, k, numStores)
        invariant forall r :: k - numStores <= r < k ==> !Known(stores[r], ldAddr)
        decreases k - numStores
      {
        p := k - numStores - 1;
        assert STQ[..][j] == stores[p];
        var stAddr := STQ[j].virtAddr;
        if STQ[j].addrValid {
          if stAddr == ldAddr {
            return;
          }
        }
        numStores := numStores + 1;
        j := ModDec(j, STQ.Length);
      }
      assert STQ[..][j] == STQ[j];
      p := -1;
      j := STQ.Length;
    }

    /** A load leaves the store-search pipeline. The result is the slot of the store it forwards from,
        and that store's position in the queue, or -1. */
    method SearchStores(uop: Uop) returns (j: nat, ghost p: int)
      requires Valid() && 0 <= uop.ldqIndex < LDQ.Length && LDQ[uop.ldqIndex].uop == uop
      ensures p == -1 ==> NoneKnown(Stores(), OlderStores(uop), LDQ[uop.ldqIndex].virtAddr) && j == STQ.Length
      ensures p != -1 ==> YoungestKnown(Stores(), OlderStores(uop), LDQ[uop.ldqIndex].virtAddr, p)
                          && j == Slot(stqHead, p, STQ.Length)
      ensures j == STQ.Length <==> NoneKnown(Stores(), OlderStores(uop), LDQ[uop.ldqIndex].virtAddr)
    {
      LoadAt(uop);
      WalkVisitsOlder(STQ[..], stqHead, stqNum, uop.seqNum);
      j, p := SearchFrom(LDQ[uop.ldqIndex].storeColor, uop.seqNum, LDQ[uop.ldqIndex].virtAddr,
                         Stores(), OlderStores(uop));
    }

    /** What the order says about one queued load. */
    lemma LoadAt(uop: Uop)
      requires Valid() && 0 <= uop.ldqIndex < LDQ.Length && LDQ[uop.ldqIndex].uop == uop
      ensures LDQ[uop.ldqIndex].storeColor == Walk(stqHead, STQ.Length, OlderStores(uop), 0)
    {
      var i := uop.ldqIndex;
      assert Used(ldqHead, ldqNum, LDQ.Length, i);
      var q := UsedSlot(ldqHead, ldqNum, LDQ.Length, i);
      assert Loads()[q] == LDQ[i];
    }

    /** A load is executed: it takes the value of the youngest older store known to write its address;
        if that store has no data yet, the attempt is abandoned; with no such store, the caches decide. */
    method LoadExec(uop: Uop, now: int) returns (ghost p: int)
      requires Valid() && 0 <= uop.ldqIndex < LDQ.Length && LDQ[uop.ldqIndex].uop == uop
      requires uop.whenCompleted == Never
      modifies this`nextAction, LDQ, uop`ovalueValid, uop`whenCompleted, uop`actionId
      ensures Valid() && Stores() == old(Stores())
      ensures var k, addr := OlderStores(uop), old(LDQ[uop.ldqIndex].virtAddr);
              if p == -1 then NoneKnown(Stores(), k, addr) else YoungestKnown(Stores(), k, addr, p)
      ensures var forwards := p != -1 && Stores()[p].valueValid;
              && (forwards ==> uop.ovalueValid && uop.whenCompleted == At(now))
              && (!forwards ==> uop.ovalueValid == old(uop.ovalueValid) && uop.whenCompleted == Never)
              && LDQ[..] == (if forwards then old(LDQ[..])[uop.ldqIndex := old(LDQ[uop.ldqIndex]).(hitInStq := true)]
                             else old(LDQ[..]))
      ensures var abandoned := p != -1 && !Stores()[p].valueValid;
              if abandoned then nextAction == old(nextAction) + 1 && uop.actionId == old(nextAction)
              else nextAction == old(nextAction) && uop.actionId == old(uop.actionId)
    {
      hide InOrder;
      var j;
      j, p := SearchStores(uop);
      if j < STQ.Length {
        assert STQ[j] == Stores()[p];
        if STQ[j].valueValid {
          SetLoadEntry(uop, LDQ[uop.ldqIndex].(hitInStq := true));
          uop.ovalueValid := true;
          uop.whenCompleted := At(now);
        } else {
          uop.actionId := nextAction;
          nextAction := nextAction + 1;
        }
      }
    }

    /** Rewrites the queue entry of a load, except for its uop and its store color. */
    method SetLoadEntry(uop: Uop, e: LdqEntry)
      requires Valid() && 0 <= uop.ldqIndex < LDQ.Length && LDQ[uop.ldqIndex].uop == uop
      requires e.uop == uop && e.storeColor == LDQ[uop.ldqIndex].storeColor
      modifies LDQ
      ensures Valid() && Stores() == old(Stores())
      ensures LDQ[..] == old(LDQ[..])[uop.ldqIndex := e]
    {
      hide InOrder;
      var i := uop.ldqIndex;
      assert Used(ldqHead, ldqNum, LDQ.Length, i);
      ghost var q := UsedSlot(ldqHead, ldqNum, LDQ.Length, i);
      UpdateLoad(Stores(), stqHead, STQ.Length, Loads(), ldqHead, LDQ.Length, q, e);
      WindowUpdate(LDQ[..], ldqHead, ldqNum, q, e);
      LDQ[i] := e;
      assert Loads() == old(Loads())[q := e] && Stores() == old(Stores());
    }

    /** The check before a load issues, over its k older stores: see IssueCheck for what it decides. */
    method CheckFrom(storeColor: nat, seqNum: nat, ldAddr: nat, ghost stores: seq<StqEntry>, ghost k: nat)
      returns (ok: bool)
      requires stqHead < STQ.Length && k <= stqNum <= STQ.Length && k == |stores|
      requires storeColor == Walk(stqHead, STQ.Length, k, 0)
      requires forall n :: 0 <= n < k ==> STQ[..][Walk(stqHead, STQ.Length, k, n)] == stores[k - n - 1]
      requires forall r :: 0 <= r < k ==> stores[r].uopSeq < seqNum
      ensures ok <==> IssueCheck(stores, k, STQ.Length, ldAddr)
    {
      var numStores := 0;
      var matchFound := false;
      ghost var m := -1;
      var i := storeColor;
      while ModInc(i, STQ.Length) != stqHead && STQ[i].uopSeq < seqNum && numStores < stqNum
        invariant 0 <= numStores <= k && i == Walk(stqHead, STQ.Length, k, numStores)
        invariant numStores > 0 ==> k < STQ.Length
        invariant forall r :: k - numStores <= r < k ==> stores[r].addrValid
        invariant !matchFound ==> LastWriter(stores, k, ldAddr, k - numStores - 1)
        invariant matchFound ==> k - numStores <= m < k && stores[m].virtAddr == ldAddr
                                 && stores[m].valueValid && LastWriter(stores, k, ldAddr, m)
        decreases k - numStores
      {
        ghost var p := k - numStores - 1;
        assert STQ[..][i] == stores[p];
        if !STQ[i].addrValid {
          return false;
        }
        if STQ[i].virtAddr == ldAddr {
          if !matchFound {
            matchFound, m := true, p;
            if !STQ[i].valueValid {
              assert LastWriter(stores, k, ldAddr, p);
              return false;
            }
          }
        }
        numStores := numStores + 1;
        i := ModDec(i, STQ.Length);
      }
      assert numStores < k ==> k == STQ.Length by {
        if numStores < k { assert STQ[..][i] == stores[k - numStores - 1]; }
      }
      if k < STQ.Length {
        forall p | 0 <= p < k && stores[p].virtAddr == ldAddr && LastWriter(stores, k, ldAddr, p)
          ensures stores[p].valueValid
        {
          assert p == m;
        }
      }
      return true;
    }

    /** What the walk over the older stores can rely on. */
    lemma CheckStarts(uop: Uop)
      requires Valid() && 0 <= uop.ldqIndex < LDQ.Length && LDQ[uop.ldqIndex].uop == uop
      ensures var k := OlderStores(uop);
              && stqHead < STQ.Length && k <= stqNum <= STQ.Length && k <= |Stores()|
              && LDQ[uop.ldqIndex].storeColor == Walk(stqHead, STQ.Length, k, 0)
              && (forall n :: 0 <= n < k ==> STQ[..][Walk(stqHead, STQ.Length, k, n)] == Stores()[..k][k - n - 1])
              && forall r :: 0 <= r < k ==> Stores()[..k][r].uopSeq < uop.seqNum
    {
      LoadAt(uop);
      WalkVisitsOlder(STQ[..], stqHead, stqNum, uop.seqNum);
      OlderIsPrefix(StoreAges(Stores()), uop.seqNum);
    }

    method CheckLoadIssueConditions(uop: Uop, ldAddr: nat) returns (ok: bool)
      requires Valid() && 0 <= uop.ldqIndex < LDQ.Length && LDQ[uop.ldqIndex].uop == uop
      ensures ok <==> IssueCheck(Stores(), OlderStores(uop), STQ.Length, ldAddr)
    {
      hide InOrder, Stores, OlderStores, Walk, IssueCheck;
      CheckStarts(uop);
      ghost var k := OlderStores(uop);
      ok := CheckFrom(LDQ[uop.ldqIndex].storeColor, uop.seqNum, ldAddr, Stores()[..k], k);
      IssueCheckPrefix(Stores(), k, STQ.Length, ldAddr);
    }

    /** Has the store been overwritten before the load with this color? The scan goes on from where the
        scan for the previous load ended, at store o. */
    method ScanOverwrites(overwriteIndex: nat, storeColor: nat, stAddr: nat,
                          ghost stores: seq<StqEntry>, ghost p: nat, ghost o: nat, ghost k: nat)
      returns (overwriteIndex': nat, overwritten: bool)
      requires stqHead < STQ.Length && |stores| <= STQ.Length && stqTail == Slot(stqHead, |stores|, STQ.Length)
      requires forall r :: 0 <= r < |stores| ==> STQ[Slot(stqHead, r, STQ.Length)] == stores[r]
      requires p <= o < k <= |stores| && !Overwritten(stores, p, o + 1, stAddr)
      requires overwriteIndex == Slot(stqHead, o, STQ.Length) && storeColor == Slot(stqHead, k - 1, STQ.Length)
      ensures overwritten <==> Overwritten(stores, p, k, stAddr)
      ensures !overwritten ==> overwriteIndex' == storeColor
    {
      overwriteIndex', overwritten := overwriteIndex, false;
      ghost var at := o;
      while overwriteIndex' != storeColor
        invariant o <= at < k && overwriteIndex' == Slot(stqHead, at, STQ.Length)
        invariant !Overwritten(stores, p, at + 1, stAddr)
        decreases k - at
      {
        overwriteIndex' := ModInc(overwriteIndex', STQ.Length);
        at := at + 1;
        assert overwriteIndex' != stqTail;  // the search never runs off the end of the queue
        if STQ[overwriteIndex'].addrValid && stAddr == STQ[overwriteIndex'].virtAddr {
          overwritten := true;
          assert STQ[overwriteIndex'] == stores[at];
          return;
        }
      }
    }

    /** The walk has dealt with the first n loads and not touched the others. `pending` and `ids` are
        what the loads' uops looked like before it. */
    ghost predicate Walked(loads: seq<LdqEntry>, pending: seq<bool>, ids: seq<nat>, base: nat,
                           stores: seq<StqEntry>, p: nat, first: nat, ks: seq<nat>, n: nat)
      requires ldqHead < LDQ.Length && n <= |loads| == |pending| == |ks| == |ids| <= LDQ.Length && p < |stores|
      requires AllUops(loads) && forall q :: first <= q < |loads| ==> ks[q] <= |stores|
      reads this, LDQ, set q | 0 <= q < |loads| :: loads[q].uop
    {
      && nextAction >= base
      && (forall q :: 0 <= q < |loads| ==> (loads[q].uop.whenCompleted == Never <==> pending[q]))
      && (forall q :: 0 <= q < n ==>
            && LDQ[Slot(ldqHead, q, LDQ.Length)]
               == (if Wakes(loads, pending, stores, p, first, ks, q) then Woken(loads[q]) else loads[q])
            && (if Wakes(loads, pending, stores, p, first, ks, q) then base <= loads[q].uop.actionId < nextAction
                else loads[q].uop.actionId == ids[q]))
      && (forall q :: n <= q < |loads| ==>
            LDQ[Slot(ldqHead, q, LDQ.Length)] == loads[q] && loads[q].uop.actionId == ids[q])
    }

    /** The walk from store p has dealt with all the loads, and woken exactly those that wait for the store. */
    ghost predicate AllWoken(loads: seq<LdqEntry>, pending: seq<bool>, ids: seq<nat>, base: nat,
                             stores: seq<StqEntry>, p: nat)
      reads this, LDQ, set q | 0 <= q < |loads| && loads[q].uop != null :: loads[q].uop
    {
      && ldqHead < LDQ.Length && |loads| == |pending| == |ids| == ldqNum <= LDQ.Length && p < |stores| && AllUops(loads)
      && Walked(loads, pending, ids, base, stores, p,
                CountOlder(LoadAges(loads), stores[p].uopSeq), OlderCounts(stores, loads), ldqNum)
    }

    /** The loads that wait for store p may issue again, each under a new action id; the others are as they were. */
    ghost predicate AllFreed(loads: seq<LdqEntry>, pending: seq<bool>, ids: seq<nat>, base: nat,
                             stores: seq<StqEntry>, p: nat)
      requires Shape() && AllUops(loads)
      reads this, LDQ, set q | 0 <= q < |loads| :: loads[q].uop
    {
      && |loads| == |pending| == |ids| == ldqNum && p < |stores|
      && forall q :: 0 <= q < ldqNum ==>
           && Freed(loads[q], Loads()[q], WaitsFor(stores, loads[q], pending[q], p))
           && (if WaitsFor(stores, loads[q], pending[q], p) then base <= loads[q].uop.actionId < nextAction
               else loads[q].uop.actionId == ids[q])
    }

    lemma WokenAreFreed(loads: seq<LdqEntry>, pending: seq<bool>, ids: seq<nat>, base: nat,
                        stores: seq<StqEntry>, p: nat)
      requires Shape() && InOrder(stores, stqHead, STQ.Length, loads, ldqHead, LDQ.Length)
      requires AllWoken(loads, pending, ids, base, stores, p) && stores[p].sta != null && stores[p].addrValid
      ensures AllFreed(loads, pending, ids, base, stores, p)
    {
      hide InOrder, Wakes, WaitsFor, Freed, Woken, CountOlder;
      forall q | 0 <= q < ldqNum
        ensures Freed(loads[q], Loads()[q], WaitsFor(stores, loads[q], pending[q], p))
        ensures if WaitsFor(stores, loads[q], pending[q], p) then base <= loads[q].uop.actionId < nextAction
                else loads[q].uop.actionId == ids[q]
      {
        WakesWhoWaits(stores, stqHead, STQ.Length, loads, ldqHead, LDQ.Length, p, pending, q);
        WokenIsFreed(loads[q]);
        assert Loads()[q] == LDQ[Slot(ldqHead, q, LDQ.Length)];
      }
    }

    /** Outside the load queue the ring is as it was. */
    ghost predicate UnusedSame(was: seq<LdqEntry>)
      requires |was| == LDQ.Length
      reads this, LDQ
    {
      forall i :: 0 <= i < LDQ.Length && !Used(ldqHead, ldqNum, LDQ.Length, i) ==> LDQ[i] == was[i]
    }

    /** One load of the walk, with the outcome of the scan known. */
    method WakeOne(idx: nat, stAddr: nat, ghost seqNum: nat, ghost loads: seq<LdqEntry>, ghost pending: seq<bool>,
                   ghost ids: seq<nat>, ghost base: nat,
                   ghost stores: seq<StqEntry>, ghost p: nat, ghost first: nat, ghost ks: seq<nat>, ghost q: nat,
                   ghost was: seq<LdqEntry>)
      requires |was| == LDQ.Length && UnusedSame(was)
      requires ldqHead < LDQ.Length && first <= q < |loads| == |pending| == |ids| <= LDQ.Length
      requires Younger(loads, stqHead, STQ.Length, stores, p, seqNum, first, ks)
      requires |loads| == ldqNum && idx == Slot(ldqHead, q, LDQ.Length) && stAddr == stores[p].virtAddr
      requires !Overwritten(stores, p, ks[q], stAddr)
      requires Walked(loads, pending, ids, base, stores, p, first, ks, q)
      modifies this`nextAction, LDQ, loads[q].uop`actionId
      ensures Walked(loads, pending, ids, base, stores, p, first, ks, q + 1)
      ensures UnusedSame(was)
    {
      if LDQ[idx].addrValid && LDQ[idx].whenIssued != Never {
        if stAddr == LDQ[idx].virtAddr {
          if LDQ[idx].uop.whenCompleted == Never {
            LDQ[idx].uop.actionId := nextAction;
            nextAction := nextAction + 1;
            LDQ[idx] := LDQ[idx].(whenIssued := Never, hitInStq := false);
          }
        }
      }
    }

    /** One iteration of the walk, at younger load q: the scan for overwriting stores, then the load. */
    method WalkOne(idx: nat, overwriteIndex: nat, stqIndex: nat, stAddr: nat, ghost seqNum: nat,
                   ghost loads: seq<LdqEntry>, ghost pending: seq<bool>, ghost ids: seq<nat>, ghost base: nat,
                   ghost stores: seq<StqEntry>, ghost p: nat, ghost first: nat, ghost ks: seq<nat>, ghost q: nat,
                   ghost was: seq<LdqEntry>, ghost o: nat)
      returns (stop: bool, overwriteIndex': nat, ghost o': nat)
      requires |was| == LDQ.Length && UnusedSame(was)
      requires ldqHead < LDQ.Length && first <= q < |loads| == |pending| == |ids| <= LDQ.Length
      requires Younger(loads, stqHead, STQ.Length, stores, p, seqNum, first, ks)
      requires |loads| == ldqNum && idx == Slot(ldqHead, q, LDQ.Length) && stAddr == stores[p].virtAddr
      requires Walked(loads, pending, ids, base, stores, p, first, ks, q)
      requires stqTail == Slot(stqHead, |stores|, STQ.Length) && stqIndex == Slot(stqHead, p, STQ.Length)
      requires forall r :: 0 <= r < |stores| ==> STQ[Slot(stqHead, r, STQ.Length)] == stores[r]
      requires p <= o < ks[q] && overwriteIndex == Slot(stqHead, o, STQ.Length)
      requires !Overwritten(stores, p, o + 1, stAddr)
      modifies this`nextAction, LDQ, loads[q].uop`actionId
      ensures UnusedSame(was)
      ensures Walked(loads, pending, ids, base, stores, p, first, ks, if stop then |loads| else q + 1)
      ensures !stop ==> p <= o' < ks[q] && overwriteIndex' == Slot(stqHead, o', STQ.Length)
                        && !Overwritten(stores, p, o' + 1, stAddr)
    {
      stop, overwriteIndex', o' := false, overwriteIndex, o;
      if LDQ[idx].storeColor != stqIndex {
        overwriteIndex', stop := ScanOverwrites(overwriteIndex, LDQ[idx].storeColor, stAddr, stores, p, o, ks[q]);
        if stop {
          OverwrittenRest(loads, pending, ids, base, seqNum, stores, p, first, ks, q);
          return;
        }
        o' := ks[q] - 1;
      }
      WakeOne(idx, stAddr, seqNum, loads, pending, ids, base, stores, p, first, ks, q, was);
    }

    /** The forward walk from the next_load of store p, once both its halves are there. */
    method WakeFrom(nextLoad: nat, stqIndex: nat, stAddr: nat, seqNum: nat,
                    ghost loads: seq<LdqEntry>, ghost pending: seq<bool>, ghost ids: seq<nat>,
                    ghost stores: seq<StqEntry>, ghost p: nat, ghost first: nat, ghost ks: seq<nat>)
      requires ldqHead < LDQ.Length && |loads| == |pending| == |ids| == ldqNum <= LDQ.Length
      requires Younger(loads, stqHead, STQ.Length, stores, p, seqNum, first, ks)
      requires stqTail == Slot(stqHead, |stores|, STQ.Length)
      requires Walked(loads, pending, ids, nextAction, stores, p, first, ks, first)
      requires ldqNum < LDQ.Length ==> LDQ[Slot(ldqHead, ldqNum, LDQ.Length)].uop == null
      requires forall r :: 0 <= r < |stores| ==> STQ[Slot(stqHead, r, STQ.Length)] == stores[r]
      requires nextLoad == Slot(ldqHead, first, LDQ.Length) && stqIndex == Slot(stqHead, p, STQ.Length)
      requires stAddr == stores[p].virtAddr
      modifies this`nextAction, LDQ, (set q | 0 <= q < |loads| :: loads[q].uop)`actionId
      ensures Walked(loads, pending, ids, old(nextAction), stores, p, first, ks, ldqNum)
      ensures UnusedSame(old(LDQ[..]))
    {
      hide Walked, Used, Slot, ModInc;
      ghost var was := LDQ[..];
      var idx := nextLoad;
      var numLoads := 0;
      var overwriteIndex := stqIndex;
      ghost var o := p;
      while LDQ[idx].uop != null && LDQ[idx].uop.seqNum > seqNum && numLoads < ldqNum
        invariant first + numLoads <= ldqNum && idx == Slot(ldqHead, first + numLoads, LDQ.Length)
        invariant p <= o < |stores| && (first + numLoads < ldqNum ==> o < ks[first + numLoads])
        invariant overwriteIndex == Slot(stqHead, o, STQ.Length) && !Overwritten(stores, p, o + 1, stAddr)
        invariant Walked(loads, pending, ids, old(nextAction), stores, p, first, ks, first + numLoads)
        invariant UnusedSame(was)
        decreases ldqNum - numLoads
      {
        ghost var q := first + numLoads;
        AtLoad(loads, pending, ids, old(nextAction), seqNum, stores, p, first, ks, q, was);
        var stop;
        stop, overwriteIndex, o := WalkOne(idx, overwriteIndex, stqIndex, stAddr, seqNum, loads, pending, ids,
                                           old(nextAction), stores, p, first, ks, q, was, o);
        if stop {
          return;
        }
        NextSlot(ldqHead, q, LDQ.Length);
        numLoads := numLoads + 1;
        idx := ModInc(idx, LDQ.Length);
      }
      AtLoad(loads, pending, ids, old(nextAction), seqNum, stores, p, first, ks, first + numLoads, was);
    }

    /** A store that is overwritten before load q is overwritten before all later loads. */
    lemma OverwrittenRest(loads: seq<LdqEntry>, pending: seq<bool>, ids: seq<nat>, base: nat, seqNum: nat,
                          stores: seq<StqEntry>, p: nat, first: nat, ks: seq<nat>, q: nat)
      requires ldqHead < LDQ.Length && first <= q < |loads| == |pending| == |ids| <= LDQ.Length
      requires Younger(loads, stqHead, STQ.Length, stores, p, seqNum, first, ks)
      requires Walked(loads, pending, ids, base, stores, p, first, ks, q)
      requires Overwritten(stores, p, ks[q], stores[p].virtAddr)
      ensures Walked(loads, pending, ids, base, stores, p, first, ks, |loads|)
    {
      forall r | q <= r < |loads| ensures !Wakes(loads, pending, stores, p, first, ks, r) {
        assert ks[q] <= ks[r];
      }
    }

    /** At distance q from the head of the queue, the walk finds a younger load exactly if q is one. */
    lemma AtLoad(loads: seq<LdqEntry>, pending: seq<bool>, ids: seq<nat>, base: nat, seqNum: nat,
                 stores: seq<StqEntry>, p: nat, first: nat, ks: seq<nat>, q: nat, was: seq<LdqEntry>)
      requires ldqHead < LDQ.Length && first <= q <= |loads| == |pending| == |ids| == ldqNum <= LDQ.Length
      requires Younger(loads, stqHead, STQ.Length, stores, p, seqNum, first, ks)
      requires Walked(loads, pending, ids, base, stores, p, first, ks, q)
      requires |was| == LDQ.Length && UnusedSame(was)
      requires ldqNum < LDQ.Length ==> was[Slot(ldqHead, ldqNum, LDQ.Length)].uop == null
      ensures var uop := LDQ[Slot(ldqHead, q, LDQ.Length)].uop;
              (uop != null && uop.seqNum > seqNum && q - first < ldqNum) <==> q < ldqNum
      ensures q < ldqNum ==> LDQ[Slot(ldqHead, q, LDQ.Length)] == loads[q]
    {
      if q == ldqNum == LDQ.Length {
        assert Slot(ldqHead, q, LDQ.Length) == Slot(ldqHead, 0, LDQ.Length);
      }
    }

    /** What the uops of the queued loads look like. */
    ghost predicate Snapshot(pending: seq<bool>, ids: seq<nat>)
      requires Shape() && AllUops(Loads())
      reads this, LDQ, set q | 0 <= q < |Loads()| :: Loads()[q].uop
    {
      && |pending| == |ids| == ldqNum
      && forall q :: 0 <= q < ldqNum ==>
           (Loads()[q].uop.whenCompleted == Never <==> pending[q]) && Loads()[q].uop.actionId == ids[q]
    }

    /** Where the walk from a store's next_load starts. */
    lemma StartWalk(stqIndex: nat, seqNum: nat) returns (p: nat)
      requires Valid() && stqIndex < STQ.Length && STQ[stqIndex].sta != null
      requires forall q :: 0 <= q < ldqNum ==>
        (Loads()[q].uop.seqNum > seqNum <==> Loads()[q].uop.seqNum > STQ[stqIndex].uopSeq)
      ensures p < stqNum && Stores()[p] == STQ[stqIndex] && stqIndex == Slot(stqHead, p, STQ.Length)
      ensures var first, ks := CountOlder(LoadAges(Loads()), Stores()[p].uopSeq), OlderCounts(Stores(), Loads());
              && Younger(Loads(), stqHead, STQ.Length, Stores(), p, seqNum, first, ks)
              && STQ[stqIndex].nextLoad == Slot(ldqHead, first, LDQ.Length)
      ensures forall r :: 0 <= r < stqNum ==> STQ[Slot(stqHead, r, STQ.Length)] == Stores()[r]
    {
      assert Used(stqHead, stqNum, STQ.Length, stqIndex);
      p := UsedSlot(stqHead, stqNum, STQ.Length, stqIndex);
      YoungerLoads(Stores(), stqHead, STQ.Length, Loads(), ldqHead, LDQ.Length, p, seqNum);
    }

    /** Before the first younger load there is nothing to wake. */
    lemma WalkedNothing(pending: seq<bool>, ids: seq<nat>, p: nat, first: nat, ks: seq<nat>)
      requires Shape() && AllUops(Loads()) && Snapshot(pending, ids) && p < stqNum && |ks| == ldqNum
      requires first <= ldqNum && forall q :: first <= q < ldqNum ==> ks[q] <= stqNum
      ensures Walked(Loads(), pending, ids, nextAction, Stores(), p, first, ks, first)
    {
    }

    lemma SlotsKeepUops(loads: seq<LdqEntry>, was: seq<LdqEntry>)
      requires ldqHead < LDQ.Length == |was| && |loads| == ldqNum <= LDQ.Length && UnusedSame(was)
      requires forall q :: 0 <= q < ldqNum ==>
        var i := Slot(ldqHead, q, LDQ.Length); was[i] == loads[q] && LDQ[i].uop == loads[q].uop
      ensures forall i :: 0 <= i < LDQ.Length ==> LDQ[i].uop == was[i].uop
    {
      forall i | 0 <= i < LDQ.Length ensures LDQ[i].uop == was[i].uop {
        if Used(ldqHead, ldqNum, LDQ.Length, i) { var q := UsedSlot(ldqHead, ldqNum, LDQ.Length, i); }
      }
    }

    /** Rewriting queued loads, except for their uops and store colors, keeps the queues valid. */
    lemma RewrittenLoads(loads: seq<LdqEntry>)
      requires Shape() && UnusedClear() && Indexed() && |loads| == ldqNum
      requires InOrder(Stores(), stqHead, STQ.Length, loads, ldqHead, LDQ.Length)
      requires forall q :: 0 <= q < ldqNum ==>
        var e := LDQ[Slot(ldqHead, q, LDQ.Length)]; e.uop == loads[q].uop && e.storeColor == loads[q].storeColor
      ensures Valid()
    {
      UpdateLoads(Stores(), stqHead, STQ.Length, loads, Loads(), ldqHead, LDQ.Length);
    }

    /** Both halves of the store in slot stqIndex have executed: wake exactly the younger loads that wait
        for it. `pending` and `ids` are what the loads' uops look like before. */
    method WakeLoads(stqIndex: nat, seqNum: nat, ghost pending: seq<bool>, ghost ids: seq<nat>)
      returns (ghost p: nat)
      requires Valid() && stqIndex < STQ.Length && STQ[stqIndex].sta != null && Snapshot(pending, ids)
      requires STQ[stqIndex].addrValid && STQ[stqIndex].valueValid
      requires forall q :: 0 <= q < ldqNum ==>
        (Loads()[q].uop.seqNum > seqNum <==> Loads()[q].uop.seqNum > STQ[stqIndex].uopSeq)
      modifies this`nextAction, LDQ, (set q | 0 <= q < ldqNum :: Loads()[q].uop)`actionId
      ensures Valid() && Stores() == old(Stores())
      ensures p < stqNum && Stores()[p] == STQ[stqIndex] && stqIndex == Slot(stqHead, p, STQ.Length)
      ensures AllFreed(old(Loads()), pending, ids, old(nextAction), Stores(), p)
    {
      hide InOrder, Wakes, Younger, CountOlder;
      ghost var loads, stores, was := Loads(), Stores(), LDQ[..];
      p := StartWalk(stqIndex, seqNum);
      ghost var first, ks := CountOlder(LoadAges(loads), stores[p].uopSeq), OlderCounts(stores, loads);
      WalkedNothing(pending, ids, p, first, ks);
      assert ldqNum < LDQ.Length ==> LDQ[Slot(ldqHead, ldqNum, LDQ.Length)].uop == null;
      WakeFrom(STQ[stqIndex].nextLoad, stqIndex, STQ[stqIndex].virtAddr, seqNum,
               loads, pending, ids, stores, p, first, ks);
      SlotsKeepUops(loads, was);
      RewrittenLoads(loads);
      WokenAreFreed(loads, pending, ids, old(nextAction), stores, p);
    }

    /** Records the execution of one half of a store. */
    method SetStoreEntry(stqIndex: nat, e: StqEntry)
      requires Valid() && stqIndex < STQ.Length && STQ[stqIndex].sta != null
      requires e.sta == STQ[stqIndex].sta && e.std == STQ[stqIndex].std
      requires e.uopSeq == STQ[stqIndex].uopSeq && e.nextLoad == STQ[stqIndex].nextLoad
      modifies STQ
      ensures Valid() && STQ[..] == old(STQ[..])[stqIndex := e] && Loads() == old(Loads())
    {
      hide InOrder;
      assert Used(stqHead, stqNum, STQ.Length, stqIndex);
      ghost var p := UsedSlot(stqHead, stqNum, STQ.Length, stqIndex);
      UpdateStore(Stores(), stqHead, STQ.Length, Loads(), ldqHead, LDQ.Length, p, e);
      WindowUpdate(STQ[..], stqHead, stqNum, p, e);
      STQ[stqIndex] := e;
      assert Stores() == old(Stores())[p := e] && Loads() == old(Loads());
    }

    /** The address half (setAddr) or the data half of a store executes; when both have, the loads that
        wait for the store are woken. */
    method StoreExec(uop: Uop, setAddr: bool, addr: nat, ghost pending: seq<bool>, ghost ids: seq<nat>)
      returns (ghost p: nat)
      requires Valid() && 0 <= uop.stqIndex < STQ.Length && STQ[uop.stqIndex].sta != null && Snapshot(pending, ids)
      requires if setAddr then STQ[uop.stqIndex].sta == uop && !STQ[uop.stqIndex].addrValid
               else STQ[uop.stqIndex].std == uop && !STQ[uop.stqIndex].valueValid
      requires forall q :: 0 <= q < ldqNum ==>
        (Loads()[q].uop.seqNum > uop.seqNum <==> Loads()[q].uop.seqNum > STQ[uop.stqIndex].uopSeq)
      modifies this`nextAction, STQ, LDQ, (set q | 0 <= q < ldqNum :: Loads()[q].uop)`actionId
      ensures Valid()
      ensures STQ[..] == old(STQ[..])[uop.stqIndex := var e := old(STQ[uop.stqIndex]);
                if setAddr then e.(virtAddr := addr, addrValid := true) else e.(valueValid := true)]
      ensures if STQ[uop.stqIndex].addrValid && STQ[uop.stqIndex].valueValid then
                && p < stqNum && Stores()[p] == STQ[uop.stqIndex] && uop.stqIndex == Slot(stqHead, p, STQ.Length)
                && AllFreed(old(Loads()), pending, ids, old(nextAction), Stores(), p)
              else Loads() == old(Loads()) && Snapshot(pending, ids)
    {
      hide InOrder;
      p := 0;
      var e := STQ[uop.stqIndex];
      e := if setAddr then e.(virtAddr := addr, addrValid := true) else e.(valueValid := true);
      SetStoreEntry(uop.stqIndex, e);
      if STQ[uop.stqIndex].addrValid && STQ[uop.stqIndex].valueValid {
        p := WakeLoads(uop.stqIndex, uop.seqNum, pending, ids);
      }
    }
  }

  /** Every store queue can be filled with stores whose addresses are unknown. */
  method FillWithStores(stqSize: nat) returns (e: ExecSTM)
    requires 0 < stqSize
    ensures fresh(e) && fresh(e.LDQ) && fresh(e.STQ) && e.LDQ.Length == 1 && e.STQ.Length == stqSize
    ensures e.Valid() && e.stqNum == stqSize && e.ldqNum == 0
    ensures forall p :: 0 <= p < stqSize ==> e.Stores()[p].uopSeq == p && !e.Stores()[p].addrValid
  {
    hide InOrder;
    e := new ExecSTM(1, stqSize);
    var i := 0;
    while i < stqSize
      invariant fresh(e) && fresh(e.LDQ) && fresh(e.STQ) && e.LDQ.Length == 1 && e.STQ.Length == stqSize
      invariant e.Valid() && e.stqNum == i <= stqSize && e.ldqNum == 0
      invariant forall p :: 0 <= p < i ==> e.Stores()[p].uopSeq == p && !e.Stores()[p].addrValid
    {
      var sta := new Uop(i, i, Sta, 4);
      e.STQInsertSta(sta);
      i := i + 1;
    }
  }

  /** A load behind a full queue of older stores passes the issue check although no store address is known. */
  method FullQueuePasses(stqSize: nat) returns (e: ExecSTM, load: Uop, ok: bool)
    requires 0 < stqSize
    ensures e.Valid() && e.STQ.Length == stqSize && 0 <= load.ldqIndex < e.LDQ.Length && e.LDQ[load.ldqIndex].uop == load
    ensures e.OlderStores(load) == stqSize == e.stqNum
    ensures ok && !SafeToIssue(e.Stores(), stqSize, 0) && !e.Stores()[0].addrValid
  {
    hide InOrder;
    e := FillWithStores(stqSize);
    load := new Uop(stqSize, stqSize, Load, 4);
    e.LDQInsert(load);
    assert e.Loads()[0].uop == load;
    OlderUnique(StoreAges(e.Stores()), stqSize, stqSize);
    ok := e.CheckLoadIssueConditions(load, 0);
  }

  /** So the check meets its comment for every valid queue of k older stores exactly if they leave an entry of
      the STQ free. */
  method IssueCheckIsExact(k: nat, stqSize: nat)
    requires k <= stqSize && 0 < stqSize
    ensures (forall stores: seq<StqEntry>, addr: nat :: |stores| == k && StoresOk(stores) ==>
               (IssueCheck(stores, k, stqSize, addr) <==> SafeToIssue(stores, k, addr)))
            <==> k < stqSize
  {
    var e, load, ok := FullQueuePasses(stqSize);
    LoadStoreOrder.IssueCheckExact(k, stqSize, e.Stores());
  }
}
