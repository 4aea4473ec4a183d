/** What the load and store queues of the out-of-order core say about each other (exec-STM.cpp), as a
    relation between the two queues' entries, oldest first. */
module LoadStoreOrder {
  import opened Rings
  import opened Ticks

  datatype Kind = Load | Sta | Std

  /** A memory uop. `seqNum` is its place in program order. */
  class Uop {
    const seqNum: nat
    const mop: nat
    const kind: Kind
    const memSize: nat
    var ldqIndex: int
    var stqIndex: int
    var actionId: nat
    var ovalueValid: bool
    var whenCompleted: Tick

    constructor (seqNum: nat, mop: nat, kind: Kind, memSize: nat)
      ensures this.seqNum == seqNum && this.mop == mop && this.kind == kind && this.memSize == memSize
      ensures ldqIndex == -1 && stqIndex == -1 && !ovalueValid && whenCompleted == Never
    {
      this.seqNum, this.mop, this.kind, this.memSize := seqNum, mop, kind, memSize;
      ldqIndex, stqIndex, actionId, ovalueValid, whenCompleted := -1, -1, 0, false, Never;
    }
  }

  datatype LdqEntry = LdqEntry(uop: Uop?, virtAddr: nat, memSize: nat, addrValid: bool, storeColor: nat,
                               hitInStq: bool, whenIssued: Tick)

  datatype StqEntry = StqEntry(sta: Uop?, std: Uop?, uopSeq: nat, virtAddr: nat, memSize: nat,
                               addrValid: bool, valueValid: bool, nextLoad: nat)

  /** How many of the leading ages are older than s. */
  function CountOlder(ages: seq<nat>, s: nat): (n: nat)
    ensures n <= |ages|
  {
    if ages == [] || ages[0] >= s then 0 else 1 + CountOlder(ages[1..], s)
  }

  ghost predicate Increasing(ages: seq<nat>) {
    forall i, j :: 0 <= i < j < |ages| ==> ages[i] < ages[j]
  }

  /** In an age-ordered queue the older entries are a prefix, and CountOlder is its length. */
  lemma {:induction false} OlderIsPrefix(ages: seq<nat>, s: nat)
    requires Increasing(ages)
    ensures forall k :: 0 <= k < |ages| ==> (ages[k] < s <==> k < CountOlder(ages, s))
  {
    if ages != [] && ages[0] < s {
      OlderIsPrefix(ages[1..], s);
      forall k | 0 <= k < |ages| ensures ages[k] < s <==> k < CountOlder(ages, s) {
        if k > 0 { assert ages[k] == ages[1..][k - 1]; }
      }
    }
  }

  lemma {:induction false} OlderUnique(ages: seq<nat>, s: nat, n: nat)
    requires n <= |ages|
    requires forall k :: 0 <= k < n ==> ages[k] < s
    requires n < |ages| ==> ages[n] >= s
    ensures CountOlder(ages, s) == n
  {
    if n == 0 {
    } else {
      forall k | 0 <= k < n - 1 ensures ages[1..][k] < s { assert ages[1..][k] == ages[k + 1]; }
      OlderUnique(ages[1..], s, n - 1);
    }
  }

  ghost function StoreAges(stores: seq<StqEntry>): (ages: seq<nat>)
    ensures |ages| == |stores| && forall k :: 0 <= k < |stores| ==> ages[k] == stores[k].uopSeq
  {
    seq(|stores|, k requires 0 <= k < |stores| => stores[k].uopSeq)
  }

  ghost predicate AllUops(loads: seq<LdqEntry>) {
    forall k :: 0 <= k < |loads| ==> loads[k].uop != null
  }

  ghost function LoadAges(loads: seq<LdqEntry>): (ages: seq<nat>)
    requires AllUops(loads)
    ensures |ages| == |loads| && forall k :: 0 <= k < |loads| ==> ages[k] == loads[k].uop.seqNum
  {
    seq(|loads|, k requires 0 <= k < |loads| => loads[k].uop.seqNum)
  }

  /** The store color of a load of age s: the slot of its youngest older store, or the slot before the
      queue's head if it has none. */
  ghost function Color(stores: seq<StqEntry>, stqHead: nat, stqSize: nat, s: nat): nat
    requires stqHead < stqSize && |stores| <= stqSize
  {
    ModDec(Slot(stqHead, CountOlder(StoreAges(stores), s), stqSize), stqSize)
  }

  /** The slot of the oldest load younger than a store of age s, or the next free slot. */
  ghost function NextLoad(loads: seq<LdqEntry>, ldqHead: nat, ldqSize: nat, s: nat): nat
    requires ldqHead < ldqSize && |loads| <= ldqSize && AllUops(loads)
  {
    Slot(ldqHead, CountOlder(LoadAges(loads), s), ldqSize)
  }

  ghost predicate StoresOk(stores: seq<StqEntry>) {
    && Increasing(StoreAges(stores))
    && forall k :: 0 <= k < |stores| ==>
         && (stores[k].sta == null ==> k == 0)
         && (stores[k].sta != null ==> stores[k].sta.seqNum == stores[k].uopSeq && stores[k].sta.kind == Sta)
         && (stores[k].std != null ==> stores[k].std.kind == Std)
  }

  ghost predicate LoadsOk(loads: seq<LdqEntry>) {
    && AllUops(loads)
    && Increasing(LoadAges(loads))
    && forall k :: 0 <= k < |loads| ==> loads[k].uop.kind == Load
  }

  /** Both queues are in program order and point at each other correctly. */
  ghost predicate InOrder(stores: seq<StqEntry>, stqHead: nat, stqSize: nat,
                          loads: seq<LdqEntry>, ldqHead: nat, ldqSize: nat)
  {
    && stqHead < stqSize && |stores| <= stqSize && ldqHead < ldqSize && |loads| <= ldqSize
    && StoresOk(stores) && LoadsOk(loads)
    && (forall q :: 0 <= q < |loads| ==>
          loads[q].storeColor == Color(stores, stqHead, stqSize, loads[q].uop.seqNum))
    && (forall p :: 0 <= p < |stores| ==>
          stores[p].nextLoad == NextLoad(loads, ldqHead, ldqSize, stores[p].uopSeq))
    && (forall p, q :: 0 <= p < |stores| && 0 <= q < |loads| ==> stores[p].uopSeq != loads[q].uop.seqNum)
    // a store that is half committed is older than every load
    && (|stores| > 0 && stores[0].sta == null ==>
          forall q :: 0 <= q < |loads| ==> stores[0].uopSeq < loads[q].uop.seqNum)
  }

  /** Age s is younger than everything queued. */
  ghost predicate Youngest(stores: seq<StqEntry>, loads: seq<LdqEntry>, s: nat)
    requires AllUops(loads)
  {
    && (forall p :: 0 <= p < |stores| ==> stores[p].uopSeq < s)
    && (forall q :: 0 <= q < |loads| ==> loads[q].uop.seqNum < s)
  }

  // ---------------------------------------------------------------- every queue operation keeps the order

  lemma InsertLoad(stores: seq<StqEntry>, stqHead: nat, stqSize: nat,
                   loads: seq<LdqEntry>, ldqHead: nat, ldqSize: nat, e: LdqEntry)
    requires InOrder(stores, stqHead, stqSize, loads, ldqHead, ldqSize)
    requires |loads| < ldqSize && e.uop != null && e.uop.kind == Load && Youngest(stores, loads, e.uop.seqNum)
    requires e.storeColor == ModDec(Slot(stqHead, |stores|, stqSize), stqSize)
    ensures InOrder(stores, stqHead, stqSize, loads + [e], ldqHead, ldqSize)
    ensures e.storeColor == Color(stores, stqHead, stqSize, e.uop.seqNum)
  {
    hide CountOlder;
    OlderUnique(StoreAges(stores), e.uop.seqNum, |stores|);
    forall p | 0 <= p < |stores|
      ensures NextLoad(loads + [e], ldqHead, ldqSize, stores[p].uopSeq)
              == NextLoad(loads, ldqHead, ldqSize, stores[p].uopSeq)
    {
      var s := stores[p].uopSeq;
      OlderIsPrefix(LoadAges(loads), s);
      OlderUnique(LoadAges(loads + [e]), s, CountOlder(LoadAges(loads), s));
    }
  }

  lemma InsertStore(stores: seq<StqEntry>, stqHead: nat, stqSize: nat,
                    loads: seq<LdqEntry>, ldqHead: nat, ldqSize: nat, e: StqEntry)
    requires InOrder(stores, stqHead, stqSize, loads, ldqHead, ldqSize)
    requires |stores| < stqSize && Youngest(stores, loads, e.uopSeq)
    requires e.sta != null && e.sta.kind == Sta && e.sta.seqNum == e.uopSeq && e.std == null
    requires e.nextLoad == Slot(ldqHead, |loads|, ldqSize)
    ensures InOrder(stores + [e], stqHead, stqSize, loads, ldqHead, ldqSize)
    ensures e.nextLoad == NextLoad(loads, ldqHead, ldqSize, e.uopSeq)
  {
    hide CountOlder;
    OlderUnique(LoadAges(loads), e.uopSeq, |loads|);
    forall q | 0 <= q < |loads|
      ensures Color(stores + [e], stqHead, stqSize, loads[q].uop.seqNum)
              == Color(stores, stqHead, stqSize, loads[q].uop.seqNum)
    {
      var s := loads[q].uop.seqNum;
      OlderIsPrefix(StoreAges(stores), s);
      OlderUnique(StoreAges(stores + [e]), s, CountOlder(StoreAges(stores), s));
    }
  }

  /** The oldest load leaves when no older store is queued. */
  lemma RemoveFirstLoad(stores: seq<StqEntry>, stqHead: nat, stqSize: nat,
                        loads: seq<LdqEntry>, ldqHead: nat, ldqSize: nat)
    requires InOrder(stores, stqHead, stqSize, loads, ldqHead, ldqSize)
    requires |loads| > 0 && forall p :: 0 <= p < |stores| ==> loads[0].uop.seqNum < stores[p].uopSeq
    ensures InOrder(stores, stqHead, stqSize, loads[1..], ModInc(ldqHead, ldqSize), ldqSize)
  {
    assert LoadAges(loads)[1..] == LoadAges(loads[1..]);
    forall p | 0 <= p < |stores|
      ensures NextLoad(loads[1..], ModInc(ldqHead, ldqSize), ldqSize, stores[p].uopSeq)
              == NextLoad(loads, ldqHead, ldqSize, stores[p].uopSeq)
    {
      assert CountOlder(LoadAges(loads), stores[p].uopSeq) == 1 + CountOlder(LoadAges(loads[1..]), stores[p].uopSeq);
    }
  }

  /** The oldest store leaves when its address half is committed: no older load is queued then. */
  lemma RemoveFirstStore(stores: seq<StqEntry>, stqHead: nat, stqSize: nat,
                         loads: seq<LdqEntry>, ldqHead: nat, ldqSize: nat)
    requires InOrder(stores, stqHead, stqSize, loads, ldqHead, ldqSize)
    requires |stores| > 0 && stores[0].sta == null
    ensures InOrder(stores[1..], ModInc(stqHead, stqSize), stqSize, loads, ldqHead, ldqSize)
  {
    assert StoreAges(stores)[1..] == StoreAges(stores[1..]);
    forall q | 0 <= q < |loads|
      ensures Color(stores[1..], ModInc(stqHead, stqSize), stqSize, loads[q].uop.seqNum)
              == Color(stores, stqHead, stqSize, loads[q].uop.seqNum)
    {
      assert CountOlder(StoreAges(stores), loads[q].uop.seqNum)
        == 1 + CountOlder(StoreAges(stores[1..]), loads[q].uop.seqNum);
    }
  }

  lemma RemoveLastLoad(stores: seq<StqEntry>, stqHead: nat, stqSize: nat,
                       loads: seq<LdqEntry>, ldqHead: nat, ldqSize: nat)
    requires InOrder(stores, stqHead, stqSize, loads, ldqHead, ldqSize)
    requires |loads| > 0 && forall p :: 0 <= p < |stores| ==> stores[p].uopSeq < loads[|loads| - 1].uop.seqNum
    ensures InOrder(stores, stqHead, stqSize, loads[..|loads| - 1], ldqHead, ldqSize)
  {
    var less := loads[..|loads| - 1];
    forall p | 0 <= p < |stores|
      ensures NextLoad(less, ldqHead, ldqSize, stores[p].uopSeq)
              == NextLoad(loads, ldqHead, ldqSize, stores[p].uopSeq)
    {
      var s := stores[p].uopSeq;
      OlderIsPrefix(LoadAges(loads), s);
      OlderUnique(LoadAges(less), s, CountOlder(LoadAges(loads), s));
    }
  }

  lemma RemoveLastStore(stores: seq<StqEntry>, stqHead: nat, stqSize: nat,
                        loads: seq<LdqEntry>, ldqHead: nat, ldqSize: nat)
    requires InOrder(stores, stqHead, stqSize, loads, ldqHead, ldqSize)
    requires |stores| > 0 && stores[|stores| - 1].sta != null
    requires forall q :: 0 <= q < |loads| ==> loads[q].uop.seqNum < stores[|stores| - 1].sta.seqNum
    ensures InOrder(stores[..|stores| - 1], stqHead, stqSize, loads, ldqHead, ldqSize)
  {
    var less := stores[..|stores| - 1];
    forall q | 0 <= q < |loads|
      ensures Color(less, stqHead, stqSize, loads[q].uop.seqNum)
              == Color(stores, stqHead, stqSize, loads[q].uop.seqNum)
    {
      var s := loads[q].uop.seqNum;
      OlderIsPrefix(StoreAges(stores), s);
      OlderUnique(StoreAges(less), s, CountOlder(StoreAges(stores), s));
    }
  }

  lemma HalvesDiffer(stores: seq<StqEntry>, stqHead: nat, stqSize: nat,
                     loads: seq<LdqEntry>, ldqHead: nat, ldqSize: nat, p: nat)
    requires InOrder(stores, stqHead, stqSize, loads, ldqHead, ldqSize)
    requires p < |stores| && stores[p].std != null
    ensures stores[p].sta != stores[p].std
  {
  }

  /** Changing an entry's execution state, or finishing its address half at commit, keeps the order. */
  lemma UpdateStore(stores: seq<StqEntry>, stqHead: nat, stqSize: nat,
                    loads: seq<LdqEntry>, ldqHead: nat, ldqSize: nat, p: nat, e: StqEntry)
    requires InOrder(stores, stqHead, stqSize, loads, ldqHead, ldqSize)
    requires p < |stores| && e.uopSeq == stores[p].uopSeq && e.nextLoad == stores[p].nextLoad
    requires e.sta == stores[p].sta || (e.sta == null && p == 0 &&
               forall q :: 0 <= q < |loads| ==> e.uopSeq < loads[q].uop.seqNum)
    requires e.std == stores[p].std || e.std == null || e.std.kind == Std
    ensures InOrder(stores[p := e], stqHead, stqSize, loads, ldqHead, ldqSize)
  {
    assert StoreAges(stores[p := e]) == StoreAges(stores);
  }

  lemma UpdateLoad(stores: seq<StqEntry>, stqHead: nat, stqSize: nat,
                   loads: seq<LdqEntry>, ldqHead: nat, ldqSize: nat, q: nat, e: LdqEntry)
    requires InOrder(stores, stqHead, stqSize, loads, ldqHead, ldqSize)
    requires q < |loads| && e.uop == loads[q].uop && e.storeColor == loads[q].storeColor
    ensures InOrder(stores, stqHead, stqSize, loads[q := e], ldqHead, ldqSize)
  {
    assert LoadAges(loads[q := e]) == LoadAges(loads);
  }

  /** The order depends only on the uops and store colors of the loads. */
  lemma UpdateLoads(stores: seq<StqEntry>, stqHead: nat, stqSize: nat,
                    loads: seq<LdqEntry>, loads': seq<LdqEntry>, ldqHead: nat, ldqSize: nat)
    requires InOrder(stores, stqHead, stqSize, loads, ldqHead, ldqSize)
    requires |loads'| == |loads| && forall q :: 0 <= q < |loads| ==>
               loads'[q].uop == loads[q].uop && loads'[q].storeColor == loads[q].storeColor
    ensures InOrder(stores, stqHead, stqSize, loads', ldqHead, ldqSize)
  {
    assert LoadAges(loads') == LoadAges(loads);
  }

  // ---------------------------------------------------------------- store-to-load forwarding

  /** A live store that is known to write the address. */
  predicate Known(e: StqEntry, addr: nat) {
    e.sta != null && e.addrValid && e.virtAddr == addr
  }

  /** Store p is the youngest of the first k stores that is known to write the address. */
  ghost predicate YoungestKnown(stores: seq<StqEntry>, k: nat, addr: nat, p: int)
    requires k <= |stores|
  {
    && 0 <= p < k && Known(stores[p], addr)
    && forall r :: p < r < k ==> !Known(stores[r], addr)
  }

  ghost predicate NoneKnown(stores: seq<StqEntry>, k: nat, addr: nat)
    requires k <= |stores|
  {
    forall r :: 0 <= r < k ==> !Known(stores[r], addr)
  }

  /** The slot reached after n backward steps from a load's store color. */
  ghost function Walk(stqHead: nat, stqSize: nat, k: nat, n: nat): nat
    requires stqHead < stqSize && n <= k <= stqSize
  {
    ModDec(Slot(stqHead, k - n, stqSize), stqSize)
  }

  /** The walk is at an older store exactly if it has not passed the oldest one: behind the head there
      is a free slot, a younger store, or, in a full queue, the limit on the number of stores. */
  lemma WalkStops(a: seq<StqEntry>, head: nat, num: nat, s: nat, n: nat)
    requires head < |a| && num <= |a| && StoresOk(Window(a, head, num))
    requires forall i :: 0 <= i < |a| && !Used(head, num, |a|, i) ==> a[i].sta == null
    requires var k := CountOlder(StoreAges(Window(a, head, num)), s); n <= k
    ensures var stores := Window(a, head, num);
            var k := CountOlder(StoreAges(stores), s);
            var j := Walk(head, |a|, k, n);
            (a[j].sta != null && a[j].sta.seqNum < s && n < num)
              <==> n < k && stores[k - n - 1].sta != null
    ensures var stores := Window(a, head, num);
            var k := CountOlder(StoreAges(stores), s);
            n < k ==> a[Walk(head, |a|, k, n)] == stores[k - n - 1]
  {
    var stores := Window(a, head, num);
    var k := CountOlder(StoreAges(stores), s);
    var j := Walk(head, |a|, k, n);
    OlderIsPrefix(StoreAges(stores), s);
    if n < k {
      assert j == Slot(head, k - n - 1, |a|);
      assert a[j] == stores[k - n - 1];
    } else {
      assert j == ModDec(head, |a|);
      if num == |a| && k < num {
        assert j == Slot(head, num - 1, |a|);
        assert a[j] == stores[num - 1];
      }
    }
  }

  /** The walk of a load of age s visits its k older stores, youngest first, and nothing else. */
  ghost predicate WalkVisits(a: seq<StqEntry>, head: nat, num: nat, s: nat, stores: seq<StqEntry>, k: nat)
    requires head < |a| && k <= num <= |a| && k <= |stores|
  {
    forall n :: 0 <= n <= k ==>
      var j := Walk(head, |a|, k, n);
      && ((a[j].sta != null && a[j].sta.seqNum < s && n < num) <==> n < k && stores[k - n - 1].sta != null)
      && (n < k ==> a[j] == stores[k - n - 1])
  }

  lemma WalkVisitsOlder(a: seq<StqEntry>, head: nat, num: nat, s: nat)
    requires head < |a| && num <= |a| && StoresOk(Window(a, head, num))
    requires forall i :: 0 <= i < |a| && !Used(head, num, |a|, i) ==> a[i].sta == null
    ensures var stores := Window(a, head, num);
            WalkVisits(a, head, num, s, stores, CountOlder(StoreAges(stores), s))
  {
    var stores := Window(a, head, num);
    forall n | 0 <= n <= CountOlder(StoreAges(stores), s) {
      WalkStops(a, head, num, s, n);
    }
  }

  // ---------------------------------------------------------------- the check before a load issues

  /** No store after p among the first k has the address. */
  ghost predicate LastWriter(stores: seq<StqEntry>, k: nat, addr: nat, p: int)
    requires -1 <= p && k <= |stores|
  {
    forall r :: p < r < k ==> stores[r].virtAddr != addr
  }

  /** The addresses of the first k stores are known. */
  ghost predicate AddressesKnown(stores: seq<StqEntry>, k: nat)
    requires k <= |stores|
  {
    forall r :: 0 <= r < k ==> stores[r].addrValid
  }

  /** Every older store's address is known and, if one of them writes the load's address, the youngest
      of those has its data. */
  ghost predicate SafeToIssue(stores: seq<StqEntry>, k: nat, addr: nat)
    requires k <= |stores|
  {
    && AddressesKnown(stores, k)
    && forall p | 0 <= p < k && stores[p].virtAddr == addr && LastWriter(stores, k, addr, p) :: stores[p].valueValid
  }

  /** What the check computes: it stops at once when the store queue is full of older stores. */
  ghost predicate IssueCheck(stores: seq<StqEntry>, k: nat, stqSize: nat, addr: nat)
    requires k <= |stores|
  {
    k == stqSize || SafeToIssue(stores, k, addr)
  }

  lemma IssueCheckPrefix(stores: seq<StqEntry>, k: nat, stqSize: nat, addr: nat)
    requires k <= |stores|
    ensures IssueCheck(stores[..k], k, stqSize, addr) <==> IssueCheck(stores, k, stqSize, addr)
  {
    forall p | 0 <= p < k ensures LastWriter(stores[..k], k, addr, p) <==> LastWriter(stores, k, addr, p) {
      forall r | p < r < k ensures stores[..k][r] == stores[r] {}
    }
    forall r | 0 <= r < k ensures stores[..k][r] == stores[r] {}
  }

  /** The check is right for every queue of k older stores exactly if they do not fill the STQ. `full` is a
      full queue with an unknown address. */
  lemma IssueCheckExact(k: nat, stqSize: nat, full: seq<StqEntry>)
    requires k <= stqSize && 0 < stqSize
    requires |full| == stqSize && StoresOk(full) && exists r :: 0 <= r < stqSize && !full[r].addrValid
    ensures (forall stores: seq<StqEntry>, addr: nat :: |stores| == k && StoresOk(stores) ==>
               (IssueCheck(stores, k, stqSize, addr) <==> SafeToIssue(stores, k, addr)))
            <==> k < stqSize
  {
    if k == stqSize { assert !SafeToIssue(full, k, 0) && IssueCheck(full, k, stqSize, 0); }
  }

  /** A load that issues safely forwards from the last older store to its address, with its data. */
  lemma SafeForward(stores: seq<StqEntry>, k: nat, addr: nat, p: nat)
    requires k <= |stores| && StoresOk(stores) && SafeToIssue(stores, k, addr)
    requires YoungestKnown(stores, k, addr, p)
    ensures stores[p].valueValid
    ensures LastWriter(stores, k, addr, p)
  {
    forall r | p < r < k ensures stores[r].virtAddr != addr {
      assert !Known(stores[r], addr);
      assert stores[r].addrValid;
    }
  }

  /** A load of age s and that address is safe to issue. */
  ghost predicate Safe(stores: seq<StqEntry>, s: nat, addr: nat) {
    SafeToIssue(stores, CountOlder(StoreAges(stores), s), addr)
  }

  /** What is known of a store stays known. */
  ghost predicate Learns(e: StqEntry, e': StqEntry) {
    && (e.addrValid ==> e'.addrValid && e'.virtAddr == e.virtAddr)
    && (e.valueValid ==> e'.valueValid)
  }

  /** Of the stores, the first d have left; those older than s that remain are as they were, or more is known of them. */
  ghost predicate OlderStay(stores: seq<StqEntry>, stores': seq<StqEntry>, d: nat, s: nat) {
    && d <= |stores|
    && (forall r :: d <= r < |stores| && stores[r].uopSeq < s ==>
          r - d < |stores'| && stores'[r - d].uopSeq == stores[r].uopSeq && Learns(stores[r], stores'[r - d]))
    && (forall r :: 0 <= r < |stores'| && stores'[r].uopSeq < s ==> r + d < |stores| && stores[r + d].uopSeq < s)
  }

  /** What makes a load safe to issue lasts, whatever happens to the queue. */
  lemma SafeStays(stores: seq<StqEntry>, stores': seq<StqEntry>, d: nat, s: nat, addr: nat)
    requires Increasing(StoreAges(stores)) && Increasing(StoreAges(stores')) && OlderStay(stores, stores', d, s)
    requires Safe(stores, s, addr)
    ensures Safe(stores', s, addr)
  {
    hide Increasing, CountOlder;
    OlderIsPrefix(StoreAges(stores), s);
    OlderIsPrefix(StoreAges(stores'), s);
    var k, k' := CountOlder(StoreAges(stores), s), CountOlder(StoreAges(stores'), s);
    forall r | 0 <= r < k' ensures r + d < k && stores[r + d].addrValid && Learns(stores[r + d], stores'[r]) {
      assert StoreAges(stores')[r] < s;
      assert StoreAges(stores)[r + d] < s;
    }
    forall p | 0 <= p < k' && stores'[p].virtAddr == addr && LastWriter(stores', k', addr, p) ensures stores'[p].valueValid {
      forall r | p + d < r < k ensures stores[r].virtAddr != addr {
        assert StoreAges(stores)[r] < s && StoreAges(stores')[r - d] < s;
      }
      assert LastWriter(stores, k, addr, p + d);
    }
  }

  // ---------------------------------------------------------------- waking loads when a store is complete

  /** Among the first k stores, one after store p is known to write the address. */
  ghost predicate Overwritten(stores: seq<StqEntry>, p: nat, k: nat, addr: nat)
    requires k <= |stores|
  {
    exists r :: p < r < k && stores[r].addrValid && stores[r].virtAddr == addr
  }

  /** The walk wakes load q: it is younger than store p, has issued to that store's address and not
      completed, and p is the last of its ks[q] older stores to write there as far as is known. */
  ghost predicate Wakes(loads: seq<LdqEntry>, pending: seq<bool>, stores: seq<StqEntry>, p: nat,
                        first: nat, ks: seq<nat>, q: nat)
    requires q < |loads| == |pending| == |ks| && p < |stores| && (first <= q ==> ks[q] <= |stores|)
  {
    && first <= q && pending[q]
    && loads[q].addrValid && loads[q].whenIssued != Never && loads[q].virtAddr == stores[p].virtAddr
    && !Overwritten(stores, p, ks[q], stores[p].virtAddr)
  }

  function Woken(e: LdqEntry): LdqEntry {
    e.(whenIssued := Never, hitInStq := false)
  }

  /** ks[q] is the number of stores older than load q, and first is the oldest load younger than the
      store p of age s. */
  ghost predicate Younger(loads: seq<LdqEntry>, stqHead: nat, stqSize: nat, stores: seq<StqEntry>,
                          p: nat, s: nat, first: nat, ks: seq<nat>)
  {
    && stqHead < stqSize && p < |stores| <= stqSize && first <= |loads| == |ks| && AllUops(loads)
    && (forall q :: 0 <= q < |loads| ==> (loads[q].uop.seqNum > s <==> first <= q))
    && (forall q :: first <= q < |loads| ==>
          p < ks[q] <= |stores| && loads[q].storeColor == Slot(stqHead, ks[q] - 1, stqSize))
    && (forall q, r :: first <= q < r < |loads| ==> ks[q] <= ks[r])
    && (forall q, r :: 0 <= q < r < |loads| ==> loads[q].uop != loads[r].uop)
  }

  /** A load waits for store p: it has issued and not completed, and the store is the youngest of its older
      ones that is known to write its address. */
  ghost predicate WaitsFor(stores: seq<StqEntry>, load: LdqEntry, pending: bool, p: nat) {
    && load.uop != null && load.addrValid && load.whenIssued != Never && pending
    && YoungestKnown(stores, CountOlder(StoreAges(stores), load.uop.seqNum), load.virtAddr, p)
  }

  /** What becomes of a load: one that waits may issue again, and all else stays as it is. */
  ghost predicate Freed(was: LdqEntry, load: LdqEntry, waits: bool) {
    && load.uop == was.uop && load.virtAddr == was.virtAddr && load.memSize == was.memSize
    && load.addrValid == was.addrValid && load.storeColor == was.storeColor
    && (if waits then load.whenIssued == Never && !load.hitInStq else load == was)
  }

  ghost function OlderCounts(stores: seq<StqEntry>, loads: seq<LdqEntry>): (ks: seq<nat>)
    requires AllUops(loads)
    ensures |ks| == |loads|
    ensures forall q :: 0 <= q < |loads| ==> ks[q] == CountOlder(StoreAges(stores), loads[q].uop.seqNum)
  {
    seq(|loads|, q requires 0 <= q < |loads| => CountOlder(StoreAges(stores), loads[q].uop.seqNum))
  }

  lemma {:induction false} CountMonotonic(ages: seq<nat>, s: nat, t: nat)
    requires s <= t
    ensures CountOlder(ages, s) <= CountOlder(ages, t)
  {
    if ages != [] && ages[0] < s { CountMonotonic(ages[1..], s, t); }
  }

  /** In ordered queues the walk from a store's next_load meets exactly its younger loads. `s` is the
      age of either half of the store; no load lies between the two halves. */
  lemma YoungerLoads(stores: seq<StqEntry>, stqHead: nat, stqSize: nat,
                     loads: seq<LdqEntry>, ldqHead: nat, ldqSize: nat, p: nat, s: nat)
    requires InOrder(stores, stqHead, stqSize, loads, ldqHead, ldqSize)
    requires p < |stores|
    requires forall q :: 0 <= q < |loads| ==> (loads[q].uop.seqNum > s <==> loads[q].uop.seqNum > stores[p].uopSeq)
    ensures var first := CountOlder(LoadAges(loads), stores[p].uopSeq);
            && Younger(loads, stqHead, stqSize, stores, p, s, first, OlderCounts(stores, loads))
            && stores[p].nextLoad == Slot(ldqHead, first, ldqSize)
  {
    var first := CountOlder(LoadAges(loads), stores[p].uopSeq);
    var ks := OlderCounts(stores, loads);
    OlderIsPrefix(LoadAges(loads), stores[p].uopSeq);
    forall q | first <= q < |loads|
      ensures p < ks[q] && loads[q].storeColor == Slot(stqHead, ks[q] - 1, stqSize)
    {
      OlderIsPrefix(StoreAges(stores), loads[q].uop.seqNum);
      assert LoadAges(loads)[q] == loads[q].uop.seqNum;
      assert StoreAges(stores)[p] < loads[q].uop.seqNum;
    }
    forall q, r | first <= q < r < |loads| ensures ks[q] <= ks[r] {
      assert LoadAges(loads)[q] < LoadAges(loads)[r];
      CountMonotonic(StoreAges(stores), loads[q].uop.seqNum, loads[r].uop.seqNum);
    }
    forall q, r | 0 <= q < r < |loads| ensures loads[q].uop != loads[r].uop {
      assert LoadAges(loads)[q] < LoadAges(loads)[r];
    }
  }

  /** The loads that the walk from a completed store wakes are those that wait for it. */
  lemma WakesWhoWaits(stores: seq<StqEntry>, stqHead: nat, stqSize: nat,
                      loads: seq<LdqEntry>, ldqHead: nat, ldqSize: nat, p: nat, pending: seq<bool>, q: nat)
    requires InOrder(stores, stqHead, stqSize, loads, ldqHead, ldqSize)
    requires p < |stores| && stores[p].sta != null && stores[p].addrValid && q < |loads| == |pending|
    ensures Wakes(loads, pending, stores, p, CountOlder(LoadAges(loads), stores[p].uopSeq), OlderCounts(stores, loads), q)
            <==> WaitsFor(stores, loads[q], pending[q], p)
  {
    hide CountOlder, Increasing;
    OlderIsPrefix(LoadAges(loads), stores[p].uopSeq);
    OlderIsPrefix(StoreAges(stores), loads[q].uop.seqNum);
    var first, k := CountOlder(LoadAges(loads), stores[p].uopSeq), CountOlder(StoreAges(stores), loads[q].uop.seqNum);
    assert LoadAges(loads)[q] < stores[p].uopSeq <==> q < first;
    assert StoreAges(stores)[p] < loads[q].uop.seqNum <==> p < k;
    forall r | p < r < k ensures Known(stores[r], stores[p].virtAddr)
                             <==> stores[r].addrValid && stores[r].virtAddr == stores[p].virtAddr
    {
    }
  }

  /** Data for a store changes nothing about who waits for it. */
  lemma WaitsStill(stores: seq<StqEntry>, load: LdqEntry, pending: bool, p: nat)
    requires WaitsFor(stores, load, pending, p)
    ensures WaitsFor(stores[p := stores[p].(valueValid := true)], load, pending, p)
  {
    assert StoreAges(stores[p := stores[p].(valueValid := true)]) == StoreAges(stores);
  }

  /** With data in the store at which its search ends, only an unknown address keeps a load from being safe. */
  lemma SafeWithData(stores: seq<StqEntry>, k: nat, addr: nat, p: nat)
    requires k <= |stores| && StoresOk(stores) && YoungestKnown(stores, k, addr, p) && stores[p].valueValid
    ensures SafeToIssue(stores, k, addr) <==> AddressesKnown(stores, k)
  {
    hide Increasing;
    if AddressesKnown(stores, k) {
      forall r | 0 <= r < k && stores[r].virtAddr == addr && LastWriter(stores, k, addr, r) ensures stores[r].valueValid {
        assert Known(stores[r], addr) ==> r <= p;
      }
    }
  }

  lemma WokenIsFreed(e: LdqEntry)
    ensures Freed(e, Woken(e), true) && Freed(e, e, false)
  {
  }
}
