/** Who calls the load and store queues, and in which order: allocation inserts memory uops in program order
    (alloc-DPM.cpp), commit releases the oldest one, and recovery squashes the youngest one (commit-DPM.cpp).
    These callers meet what the operations of ExecSTM require, whatever runs came before. */
module LsqDiscipline {
  import opened Rings
  import opened Ticks
  import opened LoadStoreOrder
  import opened ExecSTM

  /** A queue holds the uop. */
  ghost predicate Held(u: Uop, stores: seq<StqEntry>, loads: seq<LdqEntry>) {
    match u.kind
    case Load => exists q :: 0 <= q < |loads| && loads[q].uop == u
    case Sta => exists p :: 0 <= p < |stores| && stores[p].sta == u
    case Std => exists p :: 0 <= p < |stores| && stores[p].std == u
  }

  /** The uops of a store are in flight; no memory uop stands between its halves. */
  ghost predicate StoreInFlight(e: StqEntry, flight: seq<Uop>) {
    && (e.sta != null || e.std != null)
    && (e.sta != null ==> e.sta in flight)
    && (e.std != null ==>
          && e.std in flight && e.uopSeq < e.std.seqNum
          && forall u :: u in flight ==> u.seqNum <= e.uopSeq || e.std.seqNum <= u.seqNum)
  }

  /** The memory uops in flight, in program order, are those in the queues. */
  ghost predicate InFlight(flight: seq<Uop>, stores: seq<StqEntry>, loads: seq<LdqEntry>) {
    && (forall i, j :: 0 <= i < j < |flight| ==> flight[i].seqNum < flight[j].seqNum)
    && (forall u :: u in flight ==> Held(u, stores, loads))
    && (forall q :: 0 <= q < |loads| ==> loads[q].uop != null && loads[q].uop in flight)
    && (forall p :: 0 <= p < |stores| ==> StoreInFlight(stores[p], flight))
  }

  ghost predicate Flying(exec: ExecSTM, flight: seq<Uop>)
    reads exec, exec.LDQ, exec.STQ, exec.uops`ldqIndex, exec.uops`stqIndex
  {
    exec.Valid() && InFlight(flight, exec.Stores(), exec.Loads())
  }

  // ---------------------------------------------------------------- in program order

  lemma NewIsYoungest(flight: seq<Uop>, stores: seq<StqEntry>, loads: seq<LdqEntry>, s: nat)
    requires InFlight(flight, stores, loads) && StoresOk(stores) && LoadsOk(loads)
    requires forall u :: u in flight ==> u.seqNum < s
    ensures Youngest(stores, loads, s)
  {
    forall p | 0 <= p < |stores| ensures stores[p].uopSeq < s {
      assert StoreInFlight(stores[p], flight);
    }
  }

  lemma JoinsLoads(flight: seq<Uop>, stores: seq<StqEntry>, loads: seq<LdqEntry>, u: Uop, e: LdqEntry)
    requires InFlight(flight, stores, loads) && StoresOk(stores) && u.kind == Load && e.uop == u
    requires forall v :: v in flight ==> v.seqNum < u.seqNum
    ensures InFlight(flight + [u], stores, loads + [e])
  {
    var more := loads + [e];
    forall v | v in flight + [u] ensures Held(v, stores, more) {
      assert more[|loads|].uop == u;
      if v != u {
        assert Held(v, stores, loads);
        if v.kind == Load {
          var q :| 0 <= q < |loads| && loads[q].uop == v;
          assert more[q].uop == v;
        }
      }
    }
    StoresStay(flight, stores, loads, u);
  }

  lemma StoresStay(flight: seq<Uop>, stores: seq<StqEntry>, loads: seq<LdqEntry>, u: Uop)
    requires InFlight(flight, stores, loads) && forall v :: v in flight ==> v.seqNum < u.seqNum
    ensures forall p :: 0 <= p < |stores| ==> StoreInFlight(stores[p], flight + [u])
  {
    forall p | 0 <= p < |stores| ensures StoreInFlight(stores[p], flight + [u]) {
      assert StoreInFlight(stores[p], flight);
    }
  }

  lemma JoinsStores(flight: seq<Uop>, stores: seq<StqEntry>, loads: seq<LdqEntry>, u: Uop, e: StqEntry)
    requires InFlight(flight, stores, loads) && u.kind == Sta && e.sta == u && e.std == null
    requires forall v :: v in flight ==> v.seqNum < u.seqNum
    ensures InFlight(flight + [u], stores + [e], loads)
  {
    var more := stores + [e];
    forall v | v in flight + [u] ensures Held(v, more, loads) {
      assert more[|stores|].sta == u;
      if v != u {
        assert Held(v, stores, loads);
        if v.kind == Sta {
          var p :| 0 <= p < |stores| && stores[p].sta == v;
          assert more[p].sta == v;
        } else if v.kind == Std {
          var p :| 0 <= p < |stores| && stores[p].std == v;
          assert more[p].std == v;
        }
      }
    }
    StoresStay(flight, stores, loads, u);
  }

  /** The youngest uop in flight is an address half: it is that of the last store, which has no data half. */
  lemma LastSta(flight: seq<Uop>, stores: seq<StqEntry>, loads: seq<LdqEntry>)
    requires InFlight(flight, stores, loads) && StoresOk(stores) && LoadsOk(loads)
    requires flight != [] && flight[|flight| - 1].kind == Sta
    ensures stores != [] && stores[|stores| - 1].sta == flight[|flight| - 1] && stores[|stores| - 1].std == null
    ensures forall q :: 0 <= q < |loads| ==> loads[q].uop.seqNum < flight[|flight| - 1].seqNum
  {
    hide Increasing;
    var u, n := flight[|flight| - 1], |stores| - 1;
    assert Held(u, stores, loads);
    var p :| 0 <= p < |stores| && stores[p].sta == u;
    LastIsYoungest(flight);
    assert StoreInFlight(stores[p], flight) && StoreInFlight(stores[n], flight);
    if p < n { YoungerStore(stores, p, n); }
  }

  lemma LastIsYoungest(flight: seq<Uop>)
    requires flight != [] && forall i, j :: 0 <= i < j < |flight| ==> flight[i].seqNum < flight[j].seqNum
    ensures forall u :: u in flight ==> u == flight[|flight| - 1] || u.seqNum < flight[|flight| - 1].seqNum
  {
  }

  lemma YoungerStore(stores: seq<StqEntry>, i: nat, j: nat)
    requires StoresOk(stores) && i < j < |stores|
    ensures stores[i].uopSeq < stores[j].uopSeq && stores[j].sta != null
  {
    assert StoreAges(stores)[i] < StoreAges(stores)[j];
  }

  /** A uop that the queues hold is held after one store has changed, unless the store has lost it. */
  lemma StillHeld(v: Uop, stores: seq<StqEntry>, loads: seq<LdqEntry>, k: nat, e: StqEntry)
    requires Held(v, stores, loads) && k < |stores|
    requires v == stores[k].sta ==> v == e.sta
    requires v == stores[k].std ==> v == e.std
    ensures Held(v, stores[k := e], loads)
  {
    var more := stores[k := e];
    if v.kind == Sta {
      var p :| 0 <= p < |stores| && stores[p].sta == v;
      assert more[p].sta == v;
    } else if v.kind == Std {
      var p :| 0 <= p < |stores| && stores[p].std == v;
      assert more[p].std == v;
    }
  }

  lemma JoinsHalf(flight: seq<Uop>, stores: seq<StqEntry>, loads: seq<LdqEntry>, u: Uop)
    requires InFlight(flight, stores, loads) && StoresOk(stores) && LoadsOk(loads) && u.kind == Std
    requires forall v :: v in flight ==> v.seqNum < u.seqNum
    requires flight != [] && flight[|flight| - 1].kind == Sta && stores != []
    ensures var n := |stores| - 1;
            InFlight(flight + [u], stores[n := stores[n].(std := u)], loads)
  {
    hide StoresOk, Held, StoreInFlight;
    LastSta(flight, stores, loads);
    var n := |stores| - 1;
    var e := stores[n].(std := u);
    NewHalf(flight, stores, loads, u);
    StoresStay(flight, stores, loads, u);
    forall v | v in flight ensures Held(v, stores[n := e], loads) {
      StillHeld(v, stores, loads, n, e);
    }
  }

  lemma NewHalf(flight: seq<Uop>, stores: seq<StqEntry>, loads: seq<LdqEntry>, u: Uop)
    requires InFlight(flight, stores, loads) && StoresOk(stores) && LoadsOk(loads) && u.kind == Std
    requires forall v :: v in flight ==> v.seqNum < u.seqNum
    requires flight != [] && flight[|flight| - 1].kind == Sta && stores != []
    ensures var n := |stores| - 1;
            var e := stores[n].(std := u);
            StoreInFlight(e, flight + [u]) && Held(u, stores[n := e], loads)
  {
    LastSta(flight, stores, loads);
    var n := |stores| - 1;
    assert stores[n := stores[n].(std := u)][n].std == u;
  }

  // ---------------------------------------------------------------- the oldest one leaves

  /** The oldest uop in flight is a load: it is the first one, and every store is younger. */
  lemma FirstLoad(flight: seq<Uop>, stores: seq<StqEntry>, loads: seq<LdqEntry>)
    requires InFlight(flight, stores, loads) && StoresOk(stores) && LoadsOk(loads)
    requires flight != [] && flight[0].kind == Load
    requires forall p, q :: 0 <= p < |stores| && 0 <= q < |loads| ==> stores[p].uopSeq != loads[q].uop.seqNum
    ensures loads != [] && loads[0].uop == flight[0]
    ensures forall p :: 0 <= p < |stores| ==> flight[0].seqNum < stores[p].uopSeq
    ensures InFlight(flight[1..], stores, loads[1..])
  {
    var u := flight[0];
    assert Held(u, stores, loads);
    var q :| 0 <= q < |loads| && loads[q].uop == u;
    assert loads[0].uop in flight && LoadAges(loads)[0] <= LoadAges(loads)[q];
    assert q == 0;
    forall p | 0 <= p < |stores| ensures u.seqNum < stores[p].uopSeq && StoreInFlight(stores[p], flight[1..]) {
      StoreIsYounger(flight, stores, p, loads);
    }
    forall v | v in flight[1..] ensures Held(v, stores, loads[1..]) {
      assert Held(v, stores, loads);
      if v.kind == Load {
        var r :| 0 <= r < |loads| && loads[r].uop == v;
        assert loads[1..][r - 1].uop == v;
      }
    }
  }

  lemma StoreIsYounger(flight: seq<Uop>, stores: seq<StqEntry>, p: nat, loads: seq<LdqEntry>)
    requires InFlight(flight, stores, loads) && StoresOk(stores)
    requires flight != [] && flight[0].kind == Load && p < |stores| && stores[p].uopSeq != flight[0].seqNum
    ensures flight[0].seqNum < stores[p].uopSeq && StoreInFlight(stores[p], flight[1..])
  {
    var e, u := stores[p], flight[0];
    assert StoreInFlight(e, flight);
    assert e.sta != null ==> e.sta in flight[1..];
    assert e.std != null ==> e.std in flight[1..];
  }

  /** The oldest one is an address half: it is that of the first store, and every load is younger. */
  lemma FirstSta(flight: seq<Uop>, stores: seq<StqEntry>, loads: seq<LdqEntry>)
    requires InFlight(flight, stores, loads) && StoresOk(stores) && LoadsOk(loads)
    requires flight != [] && flight[0].kind == Sta
    ensures stores != [] && stores[0].sta == flight[0]
    ensures forall q :: 0 <= q < |loads| ==> stores[0].uopSeq < loads[q].uop.seqNum
  {
    var u := flight[0];
    assert Held(u, stores, loads);
    var p :| 0 <= p < |stores| && stores[p].sta == u;
    assert StoreInFlight(stores[0], flight);
    assert p == 0;
  }

  lemma StaLeaves(flight: seq<Uop>, stores: seq<StqEntry>, loads: seq<LdqEntry>)
    requires InFlight(flight, stores, loads) && StoresOk(stores) && LoadsOk(loads)
    requires |flight| > 1 && flight[0].kind == Sta && flight[1].kind == Std && stores != []
    ensures InFlight(flight[1..], stores[0 := stores[0].(sta := null)], loads)
  {
    hide StoresOk, Held, StoreInFlight;
    FirstSta(flight, stores, loads);
    var e := stores[0].(sta := null);
    StaGone(flight, stores, loads);
    forall v | v in flight[1..] ensures Held(v, stores[0 := e], loads) {
      StillHeld(v, stores, loads, 0, e);
    }
  }

  lemma StaGone(flight: seq<Uop>, stores: seq<StqEntry>, loads: seq<LdqEntry>)
    requires InFlight(flight, stores, loads) && StoresOk(stores) && LoadsOk(loads)
    requires |flight| > 1 && flight[0].kind == Sta && flight[1].kind == Std && stores != []
    ensures StoreInFlight(stores[0].(sta := null), flight[1..])
    ensures forall p :: 0 < p < |stores| ==> StoreInFlight(stores[p], flight[1..])
  {
    FirstSta(flight, stores, loads);
    var d := flight[1];
    assert Held(d, stores, loads);
    var k :| 0 <= k < |stores| && stores[k].std == d;
    assert StoreInFlight(stores[k], flight) && StoreInFlight(stores[0], flight);
    assert k == 0;
    forall p | 0 < p < |stores| ensures StoreInFlight(stores[p], flight[1..]) {
      assert StoreInFlight(stores[p], flight);
    }
  }

  /** The oldest one is a data half: it is that of the first store, whose address half has committed. */
  lemma FirstStd(flight: seq<Uop>, stores: seq<StqEntry>, loads: seq<LdqEntry>)
    requires InFlight(flight, stores, loads) && StoresOk(stores) && LoadsOk(loads)
    requires flight != [] && flight[0].kind == Std
    ensures stores != [] && stores[0].sta == null && stores[0].std == flight[0]
  {
    var u := flight[0];
    assert Held(u, stores, loads);
    var p :| 0 <= p < |stores| && stores[p].std == u;
    assert StoreInFlight(stores[0], flight) && StoreInFlight(stores[p], flight);
    assert StoreAges(stores)[p] == stores[p].uopSeq;
    assert stores[p].sta == null;
  }

  lemma StdLeaves(flight: seq<Uop>, stores: seq<StqEntry>, loads: seq<LdqEntry>)
    requires InFlight(flight, stores, loads) && StoresOk(stores) && LoadsOk(loads)
    requires flight != [] && flight[0].kind == Std && stores != []
    ensures InFlight(flight[1..], stores[1..], loads)
  {
    FirstStd(flight, stores, loads);
    forall v | v in flight[1..] ensures Held(v, stores[1..], loads) {
      HeldBehind(v, stores, loads);
    }
    forall p | 0 < p < |stores| ensures StoreInFlight(stores[p], flight[1..]) {
      FirstHalfLeft(flight, stores, loads, p);
    }
  }

  lemma HeldBehind(v: Uop, stores: seq<StqEntry>, loads: seq<LdqEntry>)
    requires Held(v, stores, loads) && stores != [] && stores[0].sta == null && stores[0].std != v
    ensures Held(v, stores[1..], loads)
  {
    if v.kind == Sta {
      var p :| 0 <= p < |stores| && stores[p].sta == v;
      assert stores[1..][p - 1].sta == v;
    } else if v.kind == Std {
      var p :| 0 <= p < |stores| && stores[p].std == v;
      assert stores[1..][p - 1].std == v;
    }
  }

  lemma FirstHalfLeft(flight: seq<Uop>, stores: seq<StqEntry>, loads: seq<LdqEntry>, p: nat)
    requires InFlight(flight, stores, loads) && StoresOk(stores) && LoadsOk(loads)
    requires flight != [] && flight[0].kind == Std && 0 < p < |stores|
    ensures StoreInFlight(stores[p], flight[1..])
  {
    var e := stores[p];
    assert StoreInFlight(e, flight);
    assert e.sta in flight[1..];
    assert e.std != null ==> e.std in flight[1..];
  }

  // ---------------------------------------------------------------- the youngest one leaves

  lemma LastLoad(flight: seq<Uop>, stores: seq<StqEntry>, loads: seq<LdqEntry>)
    requires InFlight(flight, stores, loads) && StoresOk(stores) && LoadsOk(loads)
    requires forall p, q :: 0 <= p < |stores| && 0 <= q < |loads| ==> stores[p].uopSeq != loads[q].uop.seqNum
    requires flight != [] && flight[|flight| - 1].kind == Load
    ensures var n, u := |loads| - 1, flight[|flight| - 1];
            && n >= 0 && loads[n].uop == u && (forall p :: 0 <= p < |stores| ==> stores[p].uopSeq < u.seqNum)
            && InFlight(flight[..|flight| - 1], stores, loads[..n])
  {
    var u, n, rest := flight[|flight| - 1], |loads| - 1, flight[..|flight| - 1];
    assert Held(u, stores, loads);
    var q :| 0 <= q < |loads| && loads[q].uop == u;
    assert loads[n].uop in flight && LoadAges(loads)[q] <= LoadAges(loads)[n];
    assert q == n;
    forall p | 0 <= p < |stores| ensures stores[p].uopSeq < u.seqNum && StoreInFlight(stores[p], rest) {
      StoreIsOlder(flight, stores, loads, p);
    }
    forall v | v in rest ensures Held(v, stores, loads[..n]) {
      assert Held(v, stores, loads);
      if v.kind == Load {
        var r :| 0 <= r < |loads| && loads[r].uop == v;
        assert loads[..n][r].uop == v;
      }
    }
  }

  lemma StoreIsOlder(flight: seq<Uop>, stores: seq<StqEntry>, loads: seq<LdqEntry>, p: nat)
    requires InFlight(flight, stores, loads) && StoresOk(stores)
    requires flight != [] && flight[|flight| - 1].kind == Load && p < |stores|
    requires stores[p].uopSeq != flight[|flight| - 1].seqNum
    ensures stores[p].uopSeq < flight[|flight| - 1].seqNum && StoreInFlight(stores[p], flight[..|flight| - 1])
  {
    var e, rest := stores[p], flight[..|flight| - 1];
    assert StoreInFlight(e, flight);
    assert e.sta != null ==> e.sta in rest;
    assert e.std != null ==> e.std in rest;
  }

  lemma StaSquashed(flight: seq<Uop>, stores: seq<StqEntry>, loads: seq<LdqEntry>)
    requires InFlight(flight, stores, loads) && StoresOk(stores) && LoadsOk(loads)
    requires flight != [] && flight[|flight| - 1].kind == Sta && stores != []
    ensures InFlight(flight[..|flight| - 1], stores[..|stores| - 1], loads)
  {
    LastSta(flight, stores, loads);
    var n, rest := |stores| - 1, flight[..|flight| - 1];
    forall p | 0 <= p < n ensures StoreInFlight(stores[p], rest) {
      LastHalfLeft(flight, stores, loads, p);
    }
    forall v | v in rest ensures Held(v, stores[..n], loads) {
      HeldAhead(v, stores, loads);
    }
  }

  lemma HeldAhead(v: Uop, stores: seq<StqEntry>, loads: seq<LdqEntry>)
    requires Held(v, stores, loads) && stores != []
    requires stores[|stores| - 1].sta != v && stores[|stores| - 1].std == null
    ensures Held(v, stores[..|stores| - 1], loads)
  {
    if v.kind == Sta {
      var p :| 0 <= p < |stores| && stores[p].sta == v;
      assert stores[..|stores| - 1][p].sta == v;
    } else if v.kind == Std {
      var p :| 0 <= p < |stores| && stores[p].std == v;
      assert stores[..|stores| - 1][p].std == v;
    }
  }

  lemma LastHalfLeft(flight: seq<Uop>, stores: seq<StqEntry>, loads: seq<LdqEntry>, p: nat)
    requires InFlight(flight, stores, loads) && StoresOk(stores) && LoadsOk(loads)
    requires flight != [] && p < |stores| - 1
    ensures StoreInFlight(stores[p], flight[..|flight| - 1])
  {
    var e, f, rest := stores[p], stores[|stores| - 1], flight[..|flight| - 1];
    assert StoreInFlight(e, flight) && StoreInFlight(f, flight);
    assert e.uopSeq < f.uopSeq && f.sta in flight;
    assert e.sta != null ==> e.sta in rest;
    assert e.std != null ==> e.std in rest;
  }

  /** The youngest one is a data half: it is that of the last store. Only if it is the only uop in flight, its
      address half has committed. */
  lemma LastStd(flight: seq<Uop>, stores: seq<StqEntry>, loads: seq<LdqEntry>)
    requires InFlight(flight, stores, loads) && StoresOk(stores) && LoadsOk(loads)
    requires stores != [] && stores[0].sta == null ==>
               forall q :: 0 <= q < |loads| ==> stores[0].uopSeq < loads[q].uop.seqNum
    requires flight != [] && flight[|flight| - 1].kind == Std
    ensures var n, u := |stores| - 1, flight[|flight| - 1];
            n >= 0 && stores[n].std == u && (stores[n].sta == null <==> |flight| == 1)
  {
    var n, u := |stores| - 1, flight[|flight| - 1];
    assert Held(u, stores, loads);
    var p :| 0 <= p < |stores| && stores[p].std == u;
    assert StoreInFlight(stores[p], flight) && StoreInFlight(stores[n], flight);
    assert stores[p].uopSeq <= stores[n].uopSeq;
    assert p == n;
    if stores[n].sta == null {
      HalfIsAlone(flight, stores, loads);
    }
  }

  /** If the youngest uop in flight is the data half of a half committed store, it is the only one. */
  lemma HalfIsAlone(flight: seq<Uop>, stores: seq<StqEntry>, loads: seq<LdqEntry>)
    requires InFlight(flight, stores, loads) && flight != []
    requires |stores| == 1 && stores[0].sta == null && stores[0].std == flight[|flight| - 1]
    requires forall q :: 0 <= q < |loads| ==> stores[0].uopSeq < loads[q].uop.seqNum
    ensures |flight| == 1
  {
    var u := flight[0];
    assert u in flight && Held(u, stores, loads) && StoreInFlight(stores[0], flight);
  }

  lemma StdSquashed(flight: seq<Uop>, stores: seq<StqEntry>, loads: seq<LdqEntry>)
    requires InFlight(flight, stores, loads) && StoresOk(stores) && LoadsOk(loads)
    requires stores != [] && stores[0].sta == null ==>
               forall q :: 0 <= q < |loads| ==> stores[0].uopSeq < loads[q].uop.seqNum
    requires |flight| > 1 && flight[|flight| - 1].kind == Std && stores != []
    ensures var n := |stores| - 1;
            InFlight(flight[..|flight| - 1], stores[n := stores[n].(std := null)], loads)
  {
    hide StoresOk, Held, StoreInFlight;
    LastStd(flight, stores, loads);
    var n, rest := |stores| - 1, flight[..|flight| - 1];
    var e := stores[n].(std := null);
    HalfStays(flight, stores, loads);
    forall p | 0 <= p < n ensures StoreInFlight(stores[p], rest) {
      LastHalfLeft(flight, stores, loads, p);
    }
    forall v | v in rest ensures Held(v, stores[n := e], loads) {
      StillHeld(v, stores, loads, n, e);
    }
  }

  lemma HalfStays(flight: seq<Uop>, stores: seq<StqEntry>, loads: seq<LdqEntry>)
    requires InFlight(flight, stores, loads) && StoresOk(stores) && LoadsOk(loads)
    requires stores != [] && stores[|stores| - 1].sta != null && flight != [] && flight[|flight| - 1].kind == Std
    ensures StoreInFlight(stores[|stores| - 1].(std := null), flight[..|flight| - 1])
  {
    var e := stores[|stores| - 1];
    assert StoreInFlight(e, flight);
    assert e.sta in flight[..|flight| - 1];
  }

  // ---------------------------------------------------------------- loads stay safe to issue

  /** The loads among these uops that were safe to issue still are. */
  ghost predicate SafeKept(stores: seq<StqEntry>, stores': seq<StqEntry>, us: seq<Uop>) {
    forall u, addr: nat :: u in us && u.kind == Load && Safe(stores, u.seqNum, addr) ==> Safe(stores', u.seqNum, addr)
  }

  lemma KeptBy(stores: seq<StqEntry>, stores': seq<StqEntry>, d: nat, us: seq<Uop>)
    requires StoresOk(stores) && StoresOk(stores')
    requires forall u :: u in us ==> OlderStay(stores, stores', d, u.seqNum)
    ensures SafeKept(stores, stores', us)
  {
    hide Safe, OlderStay, Increasing;
    forall u, addr: nat | u in us && u.kind == Load && Safe(stores, u.seqNum, addr) ensures Safe(stores', u.seqNum, addr) {
      SafeStays(stores, stores', d, u.seqNum, addr);
    }
  }

  lemma KeptByNothing(stores: seq<StqEntry>, us: seq<Uop>)
    ensures SafeKept(stores, stores, us)
  {
  }

  lemma KeptByInsert(stores: seq<StqEntry>, e: StqEntry, us: seq<Uop>)
    requires StoresOk(stores) && StoresOk(stores + [e]) && forall u :: u in us ==> u.seqNum <= e.uopSeq
    ensures SafeKept(stores, stores + [e], us)
  {
    KeptBy(stores, stores + [e], 0, us);
  }

  lemma KeptByUpdate(stores: seq<StqEntry>, p: nat, e: StqEntry, us: seq<Uop>)
    requires p < |stores| && StoresOk(stores) && StoresOk(stores[p := e])
    requires e.uopSeq == stores[p].uopSeq && Learns(stores[p], e)
    ensures SafeKept(stores, stores[p := e], us)
  {
    KeptBy(stores, stores[p := e], 0, us);
  }

  lemma KeptByHalf(stores: seq<StqEntry>, p: nat, std: Uop?, us: seq<Uop>)
    requires p < |stores| && StoresOk(stores) && StoresOk(stores[p := stores[p].(std := std)])
    ensures SafeKept(stores, stores[p := stores[p].(std := std)], us)
  {
    KeptByUpdate(stores, p, stores[p].(std := std), us);
  }

  lemma KeptByRelease(stores: seq<StqEntry>, us: seq<Uop>)
    requires stores != [] && StoresOk(stores) && StoresOk(stores[0 := stores[0].(sta := null)])
    ensures SafeKept(stores, stores[0 := stores[0].(sta := null)], us)
  {
    KeptByUpdate(stores, 0, stores[0].(sta := null), us);
  }

  lemma OthersOlder(flight: seq<Uop>, stores: seq<StqEntry>, loads: seq<LdqEntry>)
    requires InFlight(flight, stores, loads) && flight != []
    ensures forall u :: u in flight[..|flight| - 1] ==> u.seqNum <= flight[|flight| - 1].seqNum
  {
  }

  lemma KeptByPop(stores: seq<StqEntry>, us: seq<Uop>)
    requires stores != [] && StoresOk(stores) && StoresOk(stores[1..])
    ensures SafeKept(stores, stores[1..], us)
  {
    KeptBy(stores, stores[1..], 1, us);
  }

  lemma KeptByCut(stores: seq<StqEntry>, us: seq<Uop>)
    requires stores != [] && StoresOk(stores) && StoresOk(stores[..|stores| - 1])
    requires forall u :: u in us ==> u.seqNum <= stores[|stores| - 1].uopSeq
    ensures SafeKept(stores, stores[..|stores| - 1], us)
  {
    KeptBy(stores, stores[..|stores| - 1], 0, us);
  }

  lemma KeptThrough(stores: seq<StqEntry>, stores': seq<StqEntry>, stores'': seq<StqEntry>, us: seq<Uop>, us': seq<Uop>)
    requires SafeKept(stores, stores', us) && SafeKept(stores', stores'', us') && forall u :: u in us' ==> u in us
    ensures SafeKept(stores, stores'', us')
  {
  }

  // ---------------------------------------------------------------- the callers

  lemma FlyingParts(exec: ExecSTM, flight: seq<Uop>)
    requires Flying(exec, flight)
    ensures exec.Valid() && exec.Shape() && InFlight(flight, exec.Stores(), exec.Loads())
  {
  }

  lemma Fly(exec: ExecSTM, flight: seq<Uop>)
    requires exec.Valid() && InFlight(flight, exec.Stores(), exec.Loads())
    ensures Flying(exec, flight)
  {
  }

  /** What the queues say about the order of their entries. */
  lemma Ordered(exec: ExecSTM)
    requires exec.Valid()
    ensures exec.Shape() && |exec.Loads()| == exec.ldqNum && |exec.Stores()| == exec.stqNum
    ensures StoresOk(exec.Stores()) && LoadsOk(exec.Loads()) && AllUops(exec.Loads())
    ensures forall p, q :: 0 <= p < exec.stqNum && 0 <= q < exec.ldqNum ==>
              exec.Stores()[p].uopSeq != exec.Loads()[q].uop.seqNum
    ensures exec.stqNum > 0 && exec.Stores()[0].sta == null ==>
              forall q :: 0 <= q < exec.ldqNum ==> exec.Stores()[0].uopSeq < exec.Loads()[q].uop.seqNum
  {
  }

  /** A uop joins its queue at the end, with nothing known yet; a data half joins the last store. */
  ghost predicate Joined(uop: Uop, stores: seq<StqEntry>, loads: seq<LdqEntry>,
                         stores': seq<StqEntry>, loads': seq<LdqEntry>) {
    match uop.kind
    case Load =>
      && stores' == stores && |loads'| == |loads| + 1 && loads'[..|loads|] == loads
      && var e := loads'[|loads|]; e.uop == uop && !e.addrValid && e.whenIssued == Never
    case Sta =>
      && loads' == loads && |stores'| == |stores| + 1 && stores'[..|stores|] == stores
      && var e := stores'[|stores|]; e.sta == uop && e.uopSeq == uop.seqNum && !e.addrValid && !e.valueValid
    case Std =>
      loads' == loads && stores != [] && stores' == stores[|stores| - 1 := stores[|stores| - 1].(std := uop)]
  }

  lemma LoadJoins(uop: Uop, stores: seq<StqEntry>, loads: seq<LdqEntry>, e: LdqEntry)
    requires uop.kind == Load && e.uop == uop && !e.addrValid && e.whenIssued == Never
    ensures Joined(uop, stores, loads, stores, loads + [e])
  {
  }

  lemma StoreJoins(uop: Uop, stores: seq<StqEntry>, loads: seq<LdqEntry>, e: StqEntry)
    requires uop.kind == Sta && e.sta == uop && e.uopSeq == uop.seqNum && !e.addrValid && !e.valueValid
    ensures Joined(uop, stores, loads, stores + [e], loads)
  {
  }

  lemma HalfJoins(uop: Uop, stores: seq<StqEntry>, loads: seq<LdqEntry>)
    requires uop.kind == Std && stores != []
    ensures Joined(uop, stores, loads, stores[|stores| - 1 := stores[|stores| - 1].(std := uop)], loads)
  {
  }

  /** Allocation inserts a uop. The queue must have a free entry, and a data half follows its address half. */
  method Dispatch(exec: ExecSTM, uop: Uop, ghost flight: seq<Uop>)
    requires Flying(exec, flight) && uop !in exec.uops && forall u :: u in flight ==> u.seqNum < uop.seqNum
    requires uop.kind == Load ==> exec.ldqNum < exec.LDQ.Length
    requires uop.kind == Sta ==> exec.stqNum < exec.STQ.Length
    requires uop.kind == Std ==>
               flight != [] && flight[|flight| - 1].kind == Sta && flight[|flight| - 1].mop == uop.mop
    modifies exec, exec.LDQ, exec.STQ, uop`ldqIndex, uop`stqIndex
    ensures Flying(exec, flight + [uop]) && exec.uops == old(exec.uops) + {uop}
    ensures Joined(uop, old(exec.Stores()), old(exec.Loads()), exec.Stores(), exec.Loads())
    ensures SafeKept(old(exec.Stores()), exec.Stores(), flight)
  {
    hide *;
    FlyingParts(exec, flight);
    Ordered(exec);
    ghost var stores, loads := exec.Stores(), exec.Loads();
    match uop.kind {
      case Load =>
        NewIsYoungest(flight, stores, loads, uop.seqNum);
        exec.LDQInsert(uop);
        Ordered(exec);
        JoinsLoads(flight, stores, loads, uop, exec.Loads()[|loads|]);
        LoadJoins(uop, stores, loads, exec.Loads()[|loads|]);
        KeptByNothing(stores, flight);
      case Sta =>
        NewIsYoungest(flight, stores, loads, uop.seqNum);
        exec.STQInsertSta(uop);
        Ordered(exec);
        JoinsStores(flight, stores, loads, uop, exec.Stores()[|stores|]);
        StoreJoins(uop, stores, loads, exec.Stores()[|stores|]);
        KeptByInsert(stores, exec.Stores()[|stores|], flight);
      case Std =>
        LastSta(flight, stores, loads);
        exec.STQInsertStd(uop);
        JoinsHalf(flight, stores, loads, uop);
        HalfJoins(uop, stores, loads);
        Ordered(exec);
        KeptByHalf(stores, |stores| - 1, uop, flight);
    }
    Fly(exec, flight + [uop]);
  }

  /** Commit releases the oldest uop, unless the caches refuse its store. The uops of a macro-op have all been
      allocated when its first one commits. */
  method Commit(exec: ExecSTM, uop: Uop, dl1Enqueuable: bool, dtlbEnqueuable: bool, ghost flight: seq<Uop>)
    returns (ok: bool)
    requires Flying(exec, flight) && flight != [] && uop == flight[0]
    requires uop.kind == Sta ==> |flight| > 1 && flight[1].kind == Std
    modifies exec, exec.LDQ, exec.STQ, uop`ldqIndex
    ensures Flying(exec, if ok then flight[1..] else flight) && exec.uops == old(exec.uops)
    ensures SafeKept(old(exec.Stores()), exec.Stores(), flight)
    ensures ok <==> (uop.kind == Std ==> dl1Enqueuable && dtlbEnqueuable)
  {
    hide *;
    FlyingParts(exec, flight);
    Ordered(exec);
    ghost var stores, loads := exec.Stores(), exec.Loads();
    ok := true;
    match uop.kind {
      case Load =>
        FirstLoad(flight, stores, loads);
        exec.LDQDeallocate(uop);
        KeptByNothing(stores, flight);
      case Sta =>
        FirstSta(flight, stores, loads);
        exec.STQDeallocateSta();
        StaLeaves(flight, stores, loads);
        Ordered(exec);
        KeptByRelease(stores, flight);
      case Std =>
        FirstStd(flight, stores, loads);
        ok := exec.STQDeallocateStd(uop, dl1Enqueuable, dtlbEnqueuable);
        StdLeaves(flight, stores, loads);
        Ordered(exec);
        KeptByNothing(stores, flight);
        if ok { KeptByPop(stores, flight); }
    }
    Fly(exec, if ok then flight[1..] else flight);
  }

  /** The queues hold one store, and no uop points at it: nobody will release it. */
  ghost predicate Abandoned(exec: ExecSTM)
    reads exec, exec.LDQ, exec.STQ
  {
    exec.Shape() && exec.ldqNum == 0 && exec.stqNum == 1 && exec.Stores()[0].sta == null && exec.Stores()[0].std == null
  }

  /** Recovery squashes the youngest uop. If that is the data half of a store whose address half has committed,
      the store stays in its queue. */
  method Squash(exec: ExecSTM, uop: Uop, ghost flight: seq<Uop>)
    requires Flying(exec, flight) && flight != [] && uop == flight[|flight| - 1]
    modifies exec, exec.LDQ, exec.STQ, uop`ldqIndex, uop`stqIndex
    ensures exec.Valid() && exec.uops == old(exec.uops)
    ensures if uop.kind == Std && |flight| == 1 then Abandoned(exec)
            else Flying(exec, flight[..|flight| - 1])
    ensures SafeKept(old(exec.Stores()), exec.Stores(), flight[..|flight| - 1])
  {
    hide Flying, InFlight, StoresOk, LoadsOk, InOrder, SafeKept, ExecSTM.Valid, ExecSTM.Loads, ExecSTM.Stores, ExecSTM.Shape;
    FlyingParts(exec, flight);
    Ordered(exec);
    ghost var stores, loads := exec.Stores(), exec.Loads();
    OthersOlder(flight, stores, loads);
    match uop.kind {
      case Load =>
        LastLoad(flight, stores, loads);
        exec.LDQSquash(uop);
        KeptByNothing(stores, flight[..|flight| - 1]);
        Fly(exec, flight[..|flight| - 1]);
      case Sta =>
        LastSta(flight, stores, loads);
        exec.STQSquashSta(uop);
        StaSquashed(flight, stores, loads);
        Ordered(exec);
        KeptByCut(stores, flight[..|flight| - 1]);
        Fly(exec, flight[..|flight| - 1]);
      case Std =>
        LastStd(flight, stores, loads);
        exec.STQSquashStd(uop);
        Ordered(exec);
        KeptByHalf(stores, |stores| - 1, null, flight[..|flight| - 1]);
        if |flight| > 1 {
          StdSquashed(flight, stores, loads);
          Fly(exec, flight[..|flight| - 1]);
        } else {
          AloneInQueues(flight, stores, loads);
        }
    }
  }

  lemma SomeLoad(flight: seq<Uop>, stores: seq<StqEntry>, loads: seq<LdqEntry>)
    requires InFlight(flight, stores, loads) && LoadsOk(loads) && loads != []
    ensures exists u :: u in flight && u.kind == Load
  {
    assert loads[0].uop in flight;
  }

  lemma SomeStore(flight: seq<Uop>, stores: seq<StqEntry>, loads: seq<LdqEntry>)
    requires InFlight(flight, stores, loads) && StoresOk(stores) && stores != []
    ensures flight != [] && (|stores| > 1 ==> exists u :: u in flight && u.kind == Sta)
  {
    assert StoreInFlight(stores[|stores| - 1], flight);
  }

  lemma AloneInQueues(flight: seq<Uop>, stores: seq<StqEntry>, loads: seq<LdqEntry>)
    requires InFlight(flight, stores, loads) && StoresOk(stores) && LoadsOk(loads)
    requires |flight| == 1 && flight[0].kind == Std
    ensures loads == [] && |stores| == 1
  {
    hide *;
    FirstStd(flight, stores, loads);
    SomeStore(flight, stores, loads);
    if loads != [] {
      SomeLoad(flight, stores, loads);
    }
  }

  lemma NothingQueued(exec: ExecSTM)
    requires Flying(exec, [])
    ensures exec.ldqNum == 0 && exec.stqNum == 0
  {
    hide *;
    FlyingParts(exec, []);
    Ordered(exec);
    if exec.Loads() != [] {
      SomeLoad([], exec.Stores(), exec.Loads());
    }
    if exec.Stores() != [] {
      SomeStore([], exec.Stores(), exec.Loads());
    }
  }

  /** A recovery squashes the uops in flight from the youngest down to the n-th. A full flush leaves the queues empty,
      as recover_check_assertions demands, iff the oldest uop in flight is not a data half: a store of which the
      address half has committed, and the data half has been refused, stays behind with nobody to release it. */
  method Recover(exec: ExecSTM, flight: seq<Uop>, n: nat)
    requires Flying(exec, flight) && n <= |flight|
    modifies exec, exec.LDQ, exec.STQ, (set u | u in flight)`ldqIndex, (set u | u in flight)`stqIndex
    ensures exec.Valid() && exec.uops == old(exec.uops)
    ensures n > 0 ==> Flying(exec, flight[..n])
    ensures n == 0 && (flight == [] || flight[0].kind != Std) ==> exec.ldqNum == 0 && exec.stqNum == 0
    ensures n == 0 && flight != [] && flight[0].kind == Std ==> Abandoned(exec)
    ensures SafeKept(old(exec.Stores()), exec.Stores(), flight[..n])
  {
    hide *;
    FlyingParts(exec, flight);
    ghost var stores := exec.Stores();
    var k := |flight|;
    assert flight[..k] == flight;
    KeptByNothing(stores, flight);
    while k > n
      invariant n <= k <= |flight| && exec.Valid() && exec.Shape() && exec.uops == old(exec.uops)
      invariant SafeKept(stores, exec.Stores(), flight[..k])
      invariant if k == 0 && flight != [] && flight[0].kind == Std then Abandoned(exec)
                else Flying(exec, flight[..k])
    {
      ghost var before := exec.Stores();
      Squash(exec, flight[k - 1], flight[..k]);
      assert flight[..k][..k - 1] == flight[..k - 1];
      Ordered(exec);
      Earlier(flight, k);
      KeptThrough(stores, before, exec.Stores(), flight[..k], flight[..k - 1]);
      k := k - 1;
    }
    if n == 0 && (flight == [] || flight[0].kind != Std) {
      assert flight[..0] == [];
      NothingQueued(exec);
    }
  }

  lemma Earlier(flight: seq<Uop>, k: nat)
    requires 0 < k <= |flight|
    ensures forall u :: u in flight[..k - 1] ==> u in flight[..k]
  {
  }

  // ---------------------------------------------------------------- execution

  /** What the uops of the queued loads look like. */
  ghost function Pending(loads: seq<LdqEntry>): (pending: seq<bool>)
    requires AllUops(loads)
    reads set q | 0 <= q < |loads| :: loads[q].uop
    ensures |pending| == |loads| && forall q :: 0 <= q < |loads| ==> pending[q] == (loads[q].uop.whenCompleted == Never)
  {
    seq(|loads|, q requires 0 <= q < |loads| && AllUops(loads) reads set q | 0 <= q < |loads| :: loads[q].uop =>
      loads[q].uop.whenCompleted == Never)
  }

  ghost function ActionIds(loads: seq<LdqEntry>): (ids: seq<nat>)
    requires AllUops(loads)
    reads set q | 0 <= q < |loads| :: loads[q].uop
    ensures |ids| == |loads| && forall q :: 0 <= q < |loads| ==> ids[q] == loads[q].uop.actionId
  {
    seq(|loads|, q requires 0 <= q < |loads| && AllUops(loads) reads set q | 0 <= q < |loads| :: loads[q].uop =>
      loads[q].uop.actionId)
  }

  /** The place of a slot in the store queue. */
  lemma StoreAt(exec: ExecSTM, i: nat) returns (k: nat)
    requires exec.Valid() && i < exec.STQ.Length && exec.STQ[i].sta != null
    ensures k < exec.stqNum && |exec.Stores()| == exec.stqNum && exec.Stores()[k] == exec.STQ[i]
    ensures exec.stqHead < exec.STQ.Length && exec.stqNum <= exec.STQ.Length && i == Slot(exec.stqHead, k, exec.STQ.Length)
    ensures forall j: nat :: j < exec.STQ.Length && Slot(exec.stqHead, j, exec.STQ.Length) == i ==> j == k
  {
    hide InOrder;
    assert Used(exec.stqHead, exec.stqNum, exec.STQ.Length, i);
    k := UsedSlot(exec.stqHead, exec.stqNum, exec.STQ.Length, i);
  }

  /** No load stands between the halves of a store. */
  lemma HalvesAdjacent(flight: seq<Uop>, stores: seq<StqEntry>, loads: seq<LdqEntry>, k: nat, uop: Uop)
    requires InFlight(flight, stores, loads) && StoresOk(stores) && LoadsOk(loads) && k < |stores|
    requires stores[k].sta == uop || stores[k].std == uop
    ensures forall q :: 0 <= q < |loads| ==> (loads[q].uop.seqNum > uop.seqNum <==> loads[q].uop.seqNum > stores[k].uopSeq)
  {
    assert StoreInFlight(stores[k], flight);
    forall q | 0 <= q < |loads| ensures loads[q].uop.seqNum > uop.seqNum <==> loads[q].uop.seqNum > stores[k].uopSeq {
      assert loads[q].uop in flight && loads[q].uop.kind == Load;
    }
  }

  /** Queues that point at the same uops hold the same uops. */
  lemma StaysInFlight(flight: seq<Uop>, stores: seq<StqEntry>, loads: seq<LdqEntry>, k: nat, e: StqEntry, loads': seq<LdqEntry>)
    requires InFlight(flight, stores, loads) && k < |stores| && |loads'| == |loads|
    requires e.sta == stores[k].sta && e.std == stores[k].std && e.uopSeq == stores[k].uopSeq
    requires forall q :: 0 <= q < |loads| ==> loads'[q].uop == loads[q].uop
    ensures InFlight(flight, stores[k := e], loads')
  {
    var more := stores[k := e];
    forall u | u in flight ensures Held(u, more, loads') {
      StillHeld(u, stores, loads, k, e);
      if u.kind == Load {
        var q :| 0 <= q < |loads| && loads[q].uop == u;
        assert loads'[q].uop == u;
      }
    }
    forall p | 0 <= p < |stores| ensures StoreInFlight(more[p], flight) {
      assert StoreInFlight(stores[p], flight);
    }
  }

  lemma FreedKeepUops(exec: ExecSTM, loads: seq<LdqEntry>, pending: seq<bool>, ids: seq<nat>, base: nat,
                      stores: seq<StqEntry>, p: nat)
    requires exec.Shape() && AllUops(loads) && exec.AllFreed(loads, pending, ids, base, stores, p)
    ensures |exec.Loads()| == |loads| && forall q :: 0 <= q < |loads| ==> exec.Loads()[q].uop == loads[q].uop
  {
    hide WaitsFor;
  }

  /** A half of a store completes. All loads that were safe to issue still are. Once both halves have completed, exactly
      the loads that wait for the store, in place p of the queue, may issue again. */
  method CompleteStore(exec: ExecSTM, uop: Uop, addr: nat, ghost flight: seq<Uop>) returns (ghost p: nat)
    requires Flying(exec, flight) && 0 <= uop.stqIndex < exec.STQ.Length && exec.STQ[uop.stqIndex].sta != null
    requires if uop.kind == Sta then exec.STQ[uop.stqIndex].sta == uop && !exec.STQ[uop.stqIndex].addrValid
             else exec.STQ[uop.stqIndex].std == uop && !exec.STQ[uop.stqIndex].valueValid
    modifies exec`nextAction, exec.STQ, exec.LDQ, (set u | u in flight)`actionId
    ensures Flying(exec, flight) && SafeKept(old(exec.Stores()), exec.Stores(), flight)
    ensures p < exec.stqNum && old(exec.Stores())[p] == old(exec.STQ[uop.stqIndex])
    ensures var e := old(exec.Stores())[p];
            var e' := if uop.kind == Sta then e.(virtAddr := addr, addrValid := true) else e.(valueValid := true);
            && exec.Stores() == old(exec.Stores())[p := e']
            && (if e'.addrValid && e'.valueValid then
                  exec.AllFreed(old(exec.Loads()), old(Pending(exec.Loads())), old(ActionIds(exec.Loads())),
                                old(exec.nextAction), exec.Stores(), p)
                else exec.Loads() == old(exec.Loads()) && ActionIds(exec.Loads()) == old(ActionIds(exec.Loads())))
  {
    hide InFlight, StoresOk, LoadsOk, SafeKept, ExecSTM.Valid, ExecSTM.Loads, ExecSTM.Stores, Flying, ExecSTM.AllFreed, Slot;
    FlyingParts(exec, flight);
    Ordered(exec);
    ghost var stores, loads, idx := exec.Stores(), exec.Loads(), uop.stqIndex;
    ghost var was := exec.STQ[..];
    StoresAre(exec);
    ghost var k := StoreAt(exec, idx);
    HalvesAdjacent(flight, stores, loads, k, uop);
    LoadsFly(flight, stores, loads);
    ghost var pending, ids, base := Pending(loads), ActionIds(loads), exec.nextAction;
    ghost var woke := exec.StoreExec(uop, uop.kind == Sta, addr, pending, ids);
    ghost var e := exec.STQ[idx];
    Ordered(exec);
    StoreWritten(exec, was, k, e);
    if e.addrValid && e.valueValid {
      FreedKeepUops(exec, loads, pending, ids, base, exec.Stores(), k);
    }
    p := k;
    StaysInFlight(flight, stores, loads, k, e, exec.Loads());
    KeptByUpdate(stores, k, e, flight);
    Fly(exec, flight);
  }

  lemma LoadsFly(flight: seq<Uop>, stores: seq<StqEntry>, loads: seq<LdqEntry>)
    requires InFlight(flight, stores, loads)
    ensures forall q :: 0 <= q < |loads| ==> loads[q].uop != null && loads[q].uop in flight
  {
  }

  lemma StoresAre(exec: ExecSTM)
    requires exec.Shape()
    ensures exec.Stores() == Window(exec.STQ[..], exec.stqHead, exec.stqNum)
  {
  }

  lemma StoreWritten(exec: ExecSTM, was: seq<StqEntry>, k: nat, e: StqEntry)
    requires exec.Shape() && |was| == exec.STQ.Length && k < exec.stqNum
    requires exec.STQ[..] == was[Slot(exec.stqHead, k, exec.STQ.Length) := e]
    ensures exec.Stores() == Window(was, exec.stqHead, exec.stqNum)[k := e]
  {
    WindowUpdate(was, exec.stqHead, exec.stqNum, k, e);
  }

  /** A load whose address is known is checked, and issues if it may and the caches and the search pipe accept it. It is
      safe then, unless older stores fill the STQ. */
  method IssueLoad(exec: ExecSTM, uop: Uop, accepted: bool, now: int) returns (ok: bool)
    requires exec.Valid() && 0 <= uop.ldqIndex < exec.LDQ.Length && exec.LDQ[uop.ldqIndex].uop == uop
    requires exec.LDQ[uop.ldqIndex].addrValid && exec.LDQ[uop.ldqIndex].whenIssued == Never
    modifies exec.LDQ, uop`whenCompleted
    ensures exec.Valid() && exec.Stores() == old(exec.Stores())
    ensures var e := old(exec.LDQ[uop.ldqIndex]);
            && (ok <==> IssueCheck(exec.Stores(), exec.OlderStores(uop), exec.STQ.Length, e.virtAddr))
            && exec.LDQ[..] == old(exec.LDQ[..])[uop.ldqIndex :=
                 if !ok then e.(hitInStq := false) else if accepted then e.(whenIssued := At(now)) else e]
            && uop.whenCompleted == (if ok then old(uop.whenCompleted) else Never)
            && (ok && exec.OlderStores(uop) < exec.STQ.Length ==> Safe(exec.Stores(), uop.seqNum, e.virtAddr))
  {
    hide InOrder, SafeToIssue, ExecSTM.Stores;
    var e := exec.LDQ[uop.ldqIndex];
    ok := exec.CheckLoadIssueConditions(uop, e.virtAddr);
    if ok && accepted {
      exec.SetLoadEntry(uop, e.(whenIssued := At(now)));
    } else if !ok {
      exec.SetLoadEntry(uop, e.(hitInStq := false));
      uop.whenCompleted := Never;
    } else {
      assert exec.LDQ[..] == old(exec.LDQ[..])[uop.ldqIndex := e];
    }
  }

  /** A load that was safe to issue is never abandoned for missing data when it executes: it takes the value of the last
      older store to its address, which has it, or there is no such store. */
  method ExecuteLoad(exec: ExecSTM, uop: Uop, now: int) returns (ghost p: int)
    requires exec.Valid() && 0 <= uop.ldqIndex < exec.LDQ.Length && exec.LDQ[uop.ldqIndex].uop == uop
    requires uop.whenCompleted == Never && Safe(exec.Stores(), uop.seqNum, exec.LDQ[uop.ldqIndex].virtAddr)
    modifies exec`nextAction, exec.LDQ, uop`ovalueValid, uop`whenCompleted, uop`actionId
    ensures exec.Valid() && exec.Stores() == old(exec.Stores())
    ensures exec.nextAction == old(exec.nextAction) && uop.actionId == old(uop.actionId)
    ensures -1 <= p < |exec.Stores()| && (p == -1 ==> uop.whenCompleted == Never)
    ensures var k, addr := exec.OlderStores(uop), old(exec.LDQ[uop.ldqIndex].virtAddr);
            if p == -1 then NoneKnown(exec.Stores(), k, addr)
            else exec.Stores()[p].virtAddr == addr && LastWriter(exec.Stores(), k, addr, p) && exec.Stores()[p].valueValid
                 && uop.ovalueValid && uop.whenCompleted == At(now)
  {
    hide InOrder, SafeToIssue, ExecSTM.Stores, LastWriter, NoneKnown;
    Ordered(exec);
    ghost var addr := exec.LDQ[uop.ldqIndex].virtAddr;
    p := exec.LoadExec(uop, now);
    if p != -1 {
      SafeForward(exec.Stores(), exec.OlderStores(uop), addr, p);
    }
  }

  lemma StillFlying(exec: ExecSTM, flight: seq<Uop>, stores: seq<StqEntry>, loads: seq<LdqEntry>)
    requires exec.Valid() && InFlight(flight, stores, loads)
    requires exec.Stores() == stores && |exec.Loads()| == |loads|
    requires forall q :: 0 <= q < |loads| ==> exec.Loads()[q].uop == loads[q].uop
    ensures Flying(exec, flight)
  {
    forall u | u in flight ensures Held(u, stores, exec.Loads()) {
      assert Held(u, stores, loads);
      if u.kind == Load {
        var q :| 0 <= q < |loads| && loads[q].uop == u;
        assert exec.Loads()[q].uop == u;
      }
    }
  }

  /** Where a queued load is. */
  lemma LoadSlot(exec: ExecSTM, q: nat)
    requires exec.Valid() && q < exec.ldqNum
    ensures var i := exec.Loads()[q].uop.ldqIndex;
            0 <= i < exec.LDQ.Length && i == Slot(exec.ldqHead, q, exec.LDQ.Length) && exec.LDQ[i] == exec.Loads()[q]
  {
  }

  /** No two slots hold the same store. */
  lemma StoreThere(exec: ExecSTM, i: nat, p: nat)
    requires exec.Valid() && p < exec.stqNum && i < exec.STQ.Length
    requires exec.STQ[i] == exec.Stores()[p] && exec.STQ[i].std != null
    ensures forall r :: 0 <= r < exec.stqNum && exec.Stores()[r] == exec.STQ[i] ==> r == p
  {
  }

  lemma OneFreed(exec: ExecSTM, loads: seq<LdqEntry>, pending: seq<bool>, ids: seq<nat>, base: nat,
                 stores: seq<StqEntry>, p: nat, q: nat)
    requires exec.Shape() && AllUops(loads) && exec.AllFreed(loads, pending, ids, base, stores, p) && q < |loads|
    requires WaitsFor(stores, loads[q], pending[q], p)
    ensures |loads| == exec.ldqNum && Freed(loads[q], exec.Loads()[q], true) && loads[q].uop.actionId >= base
  {
    hide WaitsFor;
  }

  lemma LoadIs(exec: ExecSTM, q: nat)
    requires exec.Shape() && q < exec.ldqNum
    ensures |exec.Loads()| == exec.ldqNum && exec.Loads()[q] == exec.LDQ[Slot(exec.ldqHead, q, exec.LDQ.Length)]
  {
  }

  lemma Counted(exec: ExecSTM, load: Uop)
    requires exec.Shape()
    ensures exec.OlderStores(load) == CountOlder(StoreAges(exec.Stores()), load.seqNum)
  {
  }

  lemma LoadsAre(exec: ExecSTM)
    requires exec.Shape()
    ensures exec.Loads() == Window(exec.LDQ[..], exec.ldqHead, exec.ldqNum)
  {
  }

  lemma LoadWritten(exec: ExecSTM, was: seq<LdqEntry>, q: nat, e: LdqEntry)
    requires exec.Shape() && |was| == exec.LDQ.Length && q < exec.ldqNum
    requires exec.LDQ[..] == was[Slot(exec.ldqHead, q, exec.LDQ.Length) := e]
    ensures exec.Loads() == Window(was, exec.ldqHead, exec.ldqNum)[q := e]
  {
    WindowUpdate(was, exec.ldqHead, exec.ldqNum, q, e);
  }

  /** The address of a load has been computed. */
  method ComputeAddress(exec: ExecSTM, uop: Uop, addr: nat, ghost q: nat, ghost flight: seq<Uop>)
    requires Flying(exec, flight) && q < exec.ldqNum && exec.Loads()[q].uop == uop
    modifies exec.LDQ
    ensures Flying(exec, flight) && exec.Stores() == old(exec.Stores())
    ensures exec.Loads() == old(exec.Loads())[q := old(exec.Loads())[q].(virtAddr := addr, addrValid := true)]
  {
    hide InOrder, InFlight, ExecSTM.Stores;
    LoadSlot(exec, q);
    ghost var loads := exec.Loads();
    ghost var e := loads[q].(virtAddr := addr, addrValid := true);
    WindowUpdate(exec.LDQ[..], exec.ldqHead, exec.ldqNum, q, e);
    exec.SetLoadEntry(uop, exec.LDQ[uop.ldqIndex].(virtAddr := addr, addrValid := true));
    StillFlying(exec, flight, exec.Stores(), loads);
  }

  /** The data of store p completes, and a load that waits for it is issued: the check passes exactly if all older stores
      have their addresses, or fill the STQ. */
  method WakeAndIssue(exec: ExecSTM, std: Uop, load: Uop, accepted: bool, now: int,
                      ghost p: nat, ghost q: nat, ghost flight: seq<Uop>) returns (ok: bool)
    requires Flying(exec, flight) && exec.Shape() && std.kind == Std && load in flight
    requires p < |exec.Stores()| && q < |exec.Loads()|
    requires 0 <= std.stqIndex < exec.STQ.Length && exec.STQ[std.stqIndex] == exec.Stores()[p]
    requires exec.Stores()[p].std == std && exec.Stores()[p].addrValid && !exec.Stores()[p].valueValid
    requires exec.Loads()[q].uop == load && WaitsFor(exec.Stores(), exec.Loads()[q], load.whenCompleted == Never, p)
    modifies exec`nextAction, exec.STQ, exec.LDQ, load`whenCompleted, (set u | u in flight)`actionId
    ensures Flying(exec, flight) && exec.Shape() && |exec.Loads()| == old(|exec.Loads()|)
    ensures exec.Stores() == old(exec.Stores())[p := old(exec.Stores())[p].(valueValid := true)]
    ensures ok <==> exec.OlderStores(load) == exec.STQ.Length || AddressesKnown(exec.Stores(), exec.OlderStores(load))
    ensures AddressesKnown(exec.Stores(), exec.OlderStores(load))
            <==> Safe(exec.Stores(), load.seqNum, exec.Loads()[q].virtAddr)
    ensures exec.Loads()[q].uop == load && exec.Loads()[q].virtAddr == old(exec.Loads()[q].virtAddr)
    ensures exec.Loads()[q].whenIssued == (if ok && accepted then At(now) else Never)
    ensures load.actionId >= old(exec.nextAction) && load.whenCompleted == Never
  {
    hide InOrder, InFlight, SafeToIssue, SafeKept, Flying, ExecSTM.Valid, ExecSTM.Stores, ExecSTM.Loads, ExecSTM.AllFreed,
         CountOlder;
    FlyingParts(exec, flight);
    Ordered(exec);
    ghost var stores, loads, base := exec.Stores(), exec.Loads(), exec.nextAction;
    WaitsStill(stores, loads[q], true, p);
    ghost var pending, ids := Pending(loads), ActionIds(loads);
    StoreThere(exec, std.stqIndex, p);
    ghost var p' := CompleteStore(exec, std, 0, flight);
    assert p' == p;
    FlyingParts(exec, flight);
    Ordered(exec);
    OneFreed(exec, loads, pending, ids, base, exec.Stores(), p, q);
    LoadSlot(exec, q);
    ghost var woken, was := exec.Loads(), exec.LDQ[..];
    LoadsAre(exec);
    ok := IssueLoad(exec, load, accepted, now);
    LoadIs(exec, q);
    LoadWritten(exec, was, q, exec.LDQ[load.ldqIndex]);
    StillFlying(exec, flight, exec.Stores(), woken);
    Counted(exec, load);
    SafeWithData(exec.Stores(), exec.OlderStores(load), loads[q].virtAddr, p);
  }

  /** Queues of one entry each, which hold a store and a younger load. */
  ghost predicate OneEach(exec: ExecSTM, sta: Uop, std: Uop, load: Uop)
    reads exec, exec.LDQ, exec.STQ, exec.uops`ldqIndex, exec.uops`stqIndex
  {
    && Flying(exec, [sta, std, load]) && sta.kind == Sta && std.kind == Std && load.kind == Load
    && exec.STQ.Length == exec.LDQ.Length == exec.stqNum == exec.ldqNum == 1
    && exec.Stores()[0].sta == sta && exec.Stores()[0].std == std && exec.Loads()[0].uop == load
  }

  lemma OneEachParts(exec: ExecSTM, sta: Uop, std: Uop, load: Uop)
    requires OneEach(exec, sta, std, load)
    ensures Flying(exec, [sta, std, load]) && exec.Valid() && exec.Shape()
    ensures exec.stqHead == exec.ldqHead == 0 && sta.stqIndex == std.stqIndex == load.ldqIndex == 0
    ensures exec.STQ[0] == exec.Stores()[0] && exec.LDQ[0] == exec.Loads()[0]
    ensures exec.STQ[0].sta == sta && exec.STQ[0].std == std && exec.LDQ[0].uop == load
    ensures exec.OlderStores(load) == 1
  {
    hide InFlight;
    assert exec.Stores()[0] == exec.STQ[Slot(exec.stqHead, 0, 1)] && exec.Loads()[0] == exec.LDQ[Slot(exec.ldqHead, 0, 1)];
    FlightOrder(exec, [sta, std, load]);
    assert [sta, std, load][0].seqNum < [sta, std, load][2].seqNum;
    OlderUnique(StoreAges(exec.Stores()), load.seqNum, 1);
  }

  lemma FlightOrder(exec: ExecSTM, flight: seq<Uop>)
    requires Flying(exec, flight)
    ensures forall i, j :: 0 <= i < j < |flight| ==> flight[i].seqNum < flight[j].seqNum
  {
  }

  /** The address half of a store enters a queue of one entry. */
  method EnterSta() returns (exec: ExecSTM, sta: Uop)
    ensures fresh(exec) && fresh(exec.LDQ) && fresh(exec.STQ) && fresh(sta)
    ensures Flying(exec, [sta]) && sta.kind == Sta && sta.seqNum == 0 && sta.mop == 0
    ensures exec.Shape() && exec.STQ.Length == exec.LDQ.Length == 1 && exec.uops == {sta}
    ensures |exec.Stores()| == 1 && exec.Stores()[0].sta == sta && exec.Loads() == []
    ensures !exec.Stores()[0].addrValid && !exec.Stores()[0].valueValid
  {
    hide *;
    exec := new ExecSTM(1, 1);
    StartsFlying(exec);
    sta := new Uop(0, 0, Sta, 8);
    assert [] + [sta] == [sta];
    Dispatch(exec, sta, []);
    FlyingParts(exec, [sta]);
    StoreJoined(sta, [], [], exec.Stores(), exec.Loads());
  }

  /** Then its data half. */
  method EnterStore() returns (exec: ExecSTM, sta: Uop, std: Uop)
    ensures fresh(exec) && fresh(exec.LDQ) && fresh(exec.STQ) && fresh(sta) && fresh(std)
    ensures Flying(exec, [sta, std]) && sta.kind == Sta && std.kind == Std && sta.seqNum == 0 && std.seqNum == 1
    ensures exec.Shape() && exec.STQ.Length == exec.LDQ.Length == 1 && exec.uops == {sta, std}
    ensures |exec.Stores()| == 1 && exec.Stores()[0].sta == sta && exec.Stores()[0].std == std && exec.Loads() == []
    ensures !exec.Stores()[0].addrValid && !exec.Stores()[0].valueValid
  {
    hide *;
    exec, sta := EnterSta();
    std := new Uop(1, 0, Std, 8);
    assert [sta] + [std] == [sta, std];
    ghost var stores := exec.Stores();
    Dispatch(exec, std, [sta]);
    FlyingParts(exec, [sta, std]);
    StoreJoined(std, stores, [], exec.Stores(), exec.Loads());
  }

  lemma StoreJoined(uop: Uop, stores: seq<StqEntry>, loads: seq<LdqEntry>, stores': seq<StqEntry>, loads': seq<LdqEntry>)
    requires Joined(uop, stores, loads, stores', loads') && uop.kind != Load
    ensures loads' == loads && |stores'| == |stores| + (if uop.kind == Sta then 1 else 0) && stores' != []
    ensures var e := stores'[|stores'| - 1];
            if uop.kind == Sta then e.sta == uop && !e.addrValid && !e.valueValid
            else e == stores[|stores| - 1].(std := uop)
  {
  }

  lemma LoadJoined(uop: Uop, stores: seq<StqEntry>, loads: seq<LdqEntry>, stores': seq<StqEntry>, loads': seq<LdqEntry>)
    requires Joined(uop, stores, loads, stores', loads') && uop.kind == Load
    ensures stores' == stores && |loads'| == |loads| + 1
    ensures var e := loads'[|loads|]; e.uop == uop && !e.addrValid && e.whenIssued == Never
  {
  }

  lemma IsOneEach(exec: ExecSTM, sta: Uop, std: Uop, load: Uop)
    requires Flying(exec, [sta, std, load]) && sta.kind == Sta && std.kind == Std && load.kind == Load && exec.Shape()
    requires exec.STQ.Length == exec.LDQ.Length == |exec.Stores()| == |exec.Loads()| == 1
    requires exec.Stores()[0].sta == sta && exec.Stores()[0].std == std && exec.Loads()[0].uop == load
    ensures OneEach(exec, sta, std, load)
  {
  }

  /** A store and a younger load enter the queues. */
  method EnterOneEach() returns (exec: ExecSTM, sta: Uop, std: Uop, load: Uop)
    ensures fresh(exec) && fresh(exec.LDQ) && fresh(exec.STQ) && fresh(sta) && fresh(std) && fresh(load)
    ensures OneEach(exec, sta, std, load) && load.whenCompleted == Never && exec.Shape()
    ensures |exec.Stores()| == |exec.Loads()| == 1
    ensures !exec.Stores()[0].addrValid && !exec.Stores()[0].valueValid && exec.Loads()[0].whenIssued == Never
  {
    hide *;
    exec, sta, std := EnterStore();
    load := new Uop(2, 2, Load, 8);
    assert [sta, std] + [load] == [sta, std, load];
    ghost var stores := exec.Stores();
    Empty(exec);
    Dispatch(exec, load, [sta, std]);
    FlyingParts(exec, [sta, std, load]);
    LoadJoined(load, stores, [], exec.Stores(), exec.Loads());
    IsOneEach(exec, sta, std, load);
  }

  lemma Empty(exec: ExecSTM)
    requires exec.Shape() && exec.Loads() == []
    ensures exec.ldqNum == 0
  {
  }

  lemma OneStays(exec: ExecSTM, sta: Uop, std: Uop, load: Uop, stores: seq<StqEntry>, loads: seq<LdqEntry>)
    requires exec.Valid() && exec.STQ.Length == exec.LDQ.Length == exec.stqNum == exec.ldqNum == 1
    requires InFlight([sta, std, load], stores, loads) && sta.kind == Sta && std.kind == Std && load.kind == Load
    requires exec.Stores() == stores && |loads| == 1 && exec.Loads()[0].uop == loads[0].uop == load
    requires stores[0].sta == sta && stores[0].std == std
    ensures OneEach(exec, sta, std, load)
  {
    hide InFlight, ExecSTM.Valid;
    StillFlying(exec, [sta, std, load], stores, loads);
  }

  /** The load issues, as a store that fills the STQ is not checked. */
  method IssueFirst() returns (exec: ExecSTM, sta: Uop, std: Uop, load: Uop)
    ensures fresh(exec) && fresh(exec.LDQ) && fresh(exec.STQ) && fresh(sta) && fresh(std) && fresh(load)
    ensures OneEach(exec, sta, std, load) && load.whenCompleted == Never && exec.Shape()
    ensures |exec.Stores()| == |exec.Loads()| == 1 && !exec.Stores()[0].addrValid && !exec.Stores()[0].valueValid
    ensures var e := exec.Loads()[0]; e.whenIssued == At(1) && e.addrValid && e.virtAddr == 64
  {
    hide InFlight, InOrder, Flying, ExecSTM.Valid, ExecSTM.OlderStores, ExecSTM.Stores, ExecSTM.Loads, SafeToIssue;
    exec, sta, std, load := EnterOneEach();
    OneEachParts(exec, sta, std, load);
    ComputeAddress(exec, load, 64, 0, [sta, std, load]);
    OneEachParts(exec, sta, std, load);
    FlyingParts(exec, [sta, std, load]);
    ghost var stores, loads := exec.Stores(), exec.Loads();
    var ok := IssueLoad(exec, load, true, 1);
    Ordered(exec);
    LoadIs(exec, 0);
    OneStays(exec, sta, std, load, stores, loads);
  }

  /** The address of the store becomes known. The search of the load ends at the store, which has no data: the load
      is abandoned and waits. */
  method WaitsForData() returns (exec: ExecSTM, sta: Uop, std: Uop, load: Uop)
    ensures fresh(exec) && fresh(exec.LDQ) && fresh(exec.STQ) && fresh(sta) && fresh(std) && fresh(load)
    ensures OneEach(exec, sta, std, load) && load.whenCompleted == Never && exec.Shape()
    ensures |exec.Stores()| == |exec.Loads()| == 1 && exec.Stores()[0].addrValid && !exec.Stores()[0].valueValid
    ensures exec.Loads()[0].virtAddr == 64 && WaitsFor(exec.Stores(), exec.Loads()[0], true, 0)
    ensures load.actionId == exec.nextAction - 1
  {
    hide InFlight, InOrder, Flying, ExecSTM.Valid, ExecSTM.OlderStores, ExecSTM.Stores, ExecSTM.Loads, SafeKept,
         ExecSTM.AllFreed;
    exec, sta, std, load := IssueFirst();
    OneEachParts(exec, sta, std, load);
    ghost var p := CompleteStore(exec, sta, 64, [sta, std, load]);
    FlyingParts(exec, [sta, std, load]);
    ghost var stores, loads := exec.Stores(), exec.Loads();
    OneEachParts(exec, sta, std, load);
    Counted(exec, load);
    p := exec.LoadExec(load, 2);
    Ordered(exec);
    LoadIs(exec, 0);
    OneStays(exec, sta, std, load, stores, loads);
  }

  /** A store and a younger load of the same address, in an STQ of one entry. The load issues before the address of the
      store is known, is abandoned, and waits for the data. It issues again when that completes, and takes the value. */
  method WaitsAndReissues() returns (exec: ExecSTM, load: Uop)
    ensures exec.Valid() && load.ovalueValid && load.whenCompleted == At(4)
  {
    hide InFlight, InOrder, Flying, ExecSTM.Valid, ExecSTM.OlderStores, ExecSTM.Stores, ExecSTM.Loads, SafeToIssue;
    var sta, std;
    exec, sta, std, load := WaitsForData();
    OneEachParts(exec, sta, std, load);
    var ok := WakeAndIssue(exec, std, load, true, 3, 0, 0, [sta, std, load]);
    OneEachParts(exec, sta, std, load);
    Counted(exec, load);
    ghost var p := ExecuteLoad(exec, load, 4);
  }

  /** A store of which only the address half commits, and then a full flush. */
  method HalfCommittedStays() returns (exec: ExecSTM, ok: bool)
    ensures exec.Valid() && Abandoned(exec) && !ok
  {
    hide *;
    exec := new ExecSTM(1, 1);
    StartsFlying(exec);
    var sta := new Uop(0, 0, Sta, 8);
    var std := new Uop(1, 0, Std, 8);
    assert [] + [sta] == [sta] && [sta] + [std] == [sta, std] && [sta, std][1..] == [std];
    Dispatch(exec, sta, []);
    Dispatch(exec, std, [sta]);
    ok := Commit(exec, sta, true, true, [sta, std]);
    ok := Commit(exec, std, false, true, [std]);
    Recover(exec, [std], 0);
  }

  lemma StartsFlying(exec: ExecSTM)
    requires exec.Valid() && exec.Loads() == [] && exec.Stores() == []
    ensures Flying(exec, []) && exec.ldqNum == 0 && exec.stqNum == 0
  {
  }
}
