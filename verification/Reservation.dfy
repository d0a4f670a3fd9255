/** Load-reserved and store-conditional: one reservation with a countdown of decoded instructions. */
module Reservation {

  /** One step of a hart. A load gives its address, width, the translated address and whether the bus failed. */
  datatype Event =
    | LR(addr: nat, size: nat, phys: nat, fault: bool)
    | SC(addr: nat, size: nat, fault: bool)
    | Other
    | Reset
  {
    predicate Shape() { LR? || SC? ==> size == 4 || size == 8 }
    /** A load that reserves. */
    predicate Reserves()
      requires Shape()
    {
      LR? && addr % size == 0 && !fault
    }
  }

  datatype Res = Res(addr: nat, watchdog: nat)

  function Decoded(r: Res): Res {
    if r.watchdog > 0 then r.(watchdog := r.watchdog - 1) else r
  }

  predicate Matches(r: Res, addr: nat) {
    r.watchdog > 0 && r.addr == addr
  }

  /** The reservation after an event. */
  function Step(r: Res, e: Event): Res
    requires e.Shape()
  {
    match e
    case Reset => r.(watchdog := 0)
    case Other => Decoded(r)
    case LR(_, _, phys, _) => if e.Reserves() then Res(phys, 64) else Decoded(r)
    case SC(addr, _, _) => if Matches(Decoded(r), addr) then Decoded(r).(watchdog := 0) else Decoded(r)
  }

  /** Does a store-conditional write 0 to its destination? */
  predicate Succeeds(r: Res, e: Event)
    requires e.Shape() && e.SC?
  {
    Matches(Decoded(r), e.addr) && e.addr % e.size == 0 && !e.fault
  }

  class CpuRiver {
    var mmuReservatedAddr: nat
    var mmuReservedAddrWatchdog: nat

    ghost function State(): Res
      reads this
    {
      Res(mmuReservatedAddr, mmuReservedAddrWatchdog)
    }

    constructor ()
      ensures State() == Res(0, 0)
    {
      mmuReservatedAddr, mmuReservedAddrWatchdog := 0, 0;
    }

    method MmuAddrReserve(addr: nat)
      modifies this
      ensures State() == Res(addr, 64)
    {
      mmuReservatedAddr := addr;
      mmuReservedAddrWatchdog := 64;
    }

    method MmuAddrRelease(addr: nat) returns (success: bool)
      modifies this
      ensures success <==> Matches(old(State()), addr)
      ensures State() == if success then old(State()).(watchdog := 0) else old(State())
    {
      success := false;
      if mmuReservedAddrWatchdog != 0 && mmuReservatedAddr == addr {
        success := true;
        mmuReservedAddrWatchdog := 0;
      }
    }

    method DecodeInstruction()
      modifies this
      ensures State() == Decoded(old(State()))
    {
      if mmuReservedAddrWatchdog != 0 {
        mmuReservedAddrWatchdog := mmuReservedAddrWatchdog - 1;
      }
    }

    /** Decode and execute one instruction, or reset; the destination of a store-conditional gets `rd`. */
    method Exec(e: Event) returns (rd: nat)
      requires e.Shape()
      modifies this
      ensures State() == Step(old(State()), e)
      ensures e.SC? ==> rd == if Succeeds(old(State()), e) then 0 else 1
    {
      rd := 0;
      if e == Reset {
        mmuReservedAddrWatchdog := 0;
        return;
      }
      DecodeInstruction();
      match e {
        case LR(addr, size, phys, fault) =>
          if addr % size == 0 && !fault {
            MmuAddrReserve(phys);
          }
        case SC(addr, size, fault) =>
          rd := 1;
          var released := MmuAddrRelease(addr);
          if released && addr % size == 0 && !fault {
            rd := 0;
          }
        case _ =>
      }
    }
  }

  // ---------- runs ----------

  predicate Shapes(es: seq<Event>) {
    forall k :: 0 <= k < |es| ==> es[k].Shape()
  }

  /** The reservation before the k-th event of a run. */
  function StateAt(es: seq<Event>, k: nat): Res
    requires Shapes(es) && k <= |es|
  {
    if k == 0 then Res(0, 0) else Step(StateAt(es, k - 1), es[k - 1])
  }

  /** The reservation made at n is the latest and has not been given up before k. */
  ghost predicate Live(es: seq<Event>, n: nat, k: nat)
    requires Shapes(es) && k <= |es|
  {
    && n < k && es[n].Reserves()
    && forall j :: n < j < k ==> !es[j].Reserves() && !es[j].Reset? && !(es[j].SC? && es[j].addr == es[n].phys)
  }

  ghost predicate Reserved(es: seq<Event>, k: nat)
    requires Shapes(es) && k <= |es|
  {
    exists n :: 0 <= n < k && Live(es, n, k) && k - n <= 64
  }

  /** The countdown tells how long ago the reservation was made, and is zero exactly when there is none. */
  lemma {:induction false} Countdown(es: seq<Event>, k: nat)
    requires Shapes(es) && k <= |es|
    ensures forall n :: 0 <= n < k && Live(es, n, k) && k - n <= 64 ==>
              StateAt(es, k) == Res(es[n].phys, 65 - (k - n))
    ensures !Reserved(es, k) ==> StateAt(es, k).watchdog == 0
  {
    if k > 0 {
      Countdown(es, k - 1);
      forall n | 0 <= n < k && Live(es, n, k) && k - n <= 64 ensures StateAt(es, k) == Res(es[n].phys, 65 - (k - n)) {
        if n < k - 1 {
          assert Live(es, n, k - 1);
        }
      }
      if !Reserved(es, k) {
        Lost(es, k);
      }
    }
  }

  lemma Lost(es: seq<Event>, k: nat)
    requires Shapes(es) && 0 < k <= |es| && !Reserved(es, k)
    requires forall n :: 0 <= n < k - 1 && Live(es, n, k - 1) && k - 1 - n <= 64 ==>
               StateAt(es, k - 1) == Res(es[n].phys, 65 - (k - 1 - n))
    requires !Reserved(es, k - 1) ==> StateAt(es, k - 1).watchdog == 0
    ensures StateAt(es, k).watchdog == 0
  {
    var e := es[k - 1];
    if e.Reserves() {
      assert Live(es, k - 1, k);
    } else if Reserved(es, k - 1) && !e.Reset? {
      var n :| 0 <= n < k - 1 && Live(es, n, k - 1) && k - 1 - n <= 64;
      if k - n <= 64 {
        assert !Live(es, n, k);
        assert e.SC? && e.addr == es[n].phys;
      }
    }
  }

  /** A store-conditional writes 0 exactly when the latest reserving load was for its address at most 63 decoded
      instructions ago, nothing has released it since, and the store is aligned and does not fault. */
  lemma SuccessIff(es: seq<Event>, k: nat)
    requires Shapes(es) && k < |es| && es[k].SC?
    ensures Succeeds(StateAt(es, k), es[k]) <==>
            && es[k].addr % es[k].size == 0 && !es[k].fault
            && exists n :: 0 <= n < k && Live(es, n, k) && k - n <= 63 && es[n].phys == es[k].addr
  {
    Countdown(es, k);
    if Reserved(es, k) {
      var n :| 0 <= n < k && Live(es, n, k) && k - n <= 64;
      assert StateAt(es, k) == Res(es[n].phys, 65 - (k - n));
      forall m | 0 <= m < k && Live(es, m, k) ensures m == n {
        LiveUnique(es, n, m, k);
      }
    }
  }

  /** LR and SC of the same address, with nothing in between that gives the reservation up: the store succeeds if and
      only if the address translates to itself. */
  lemma SameAddressSuccess(es: seq<Event>, n: nat, k: nat)
    requires Shapes(es) && n < k < |es| && Live(es, n, k) && k - n <= 63
    requires es[k].SC? && es[k].addr == es[n].addr && es[k].addr % es[k].size == 0 && !es[k].fault
    ensures Succeeds(StateAt(es, k), es[k]) <==> es[n].phys == es[n].addr
  {
    SuccessIff(es, k);
    forall m | 0 <= m < k && Live(es, m, k) ensures m == n {
      LiveUnique(es, n, m, k);
    }
  }

  /** A load, n other instructions and a store, from reset on. */
  function Spaced(load: Event, n: nat, store: Event): seq<Event> {
    [load] + seq(n, _ => Other) + [store]
  }

  lemma {:induction false} AfterOthers(es: seq<Event>, p: nat, k: nat)
    requires Shapes(es) && 0 < k <= |es| && StateAt(es, 1) == Res(p, 64)
    requires forall j :: 0 < j < k ==> es[j] == Other
    ensures StateAt(es, k) == Res(p, if k <= 65 then 65 - k else 0)
  {
    if k > 1 {
      AfterOthers(es, p, k - 1);
    }
  }

  lemma {:induction false} NothingReserved(es: seq<Event>, k: nat)
    requires Shapes(es) && 0 < k <= |es| && StateAt(es, 1).watchdog == 0
    requires forall j :: 0 < j < k ==> es[j] == Other
    ensures StateAt(es, k).watchdog == 0
  {
    if k > 1 {
      NothingReserved(es, k - 1);
    }
  }

  /** The store succeeds exactly when the load was aligned and did not fault and its translated address is the
      address of the store, at most 62 instructions lie between, and the store is aligned and does not fault. */
  lemma SpacedPair(load: Event, n: nat, store: Event)
    requires load.LR? && store.SC? && load.Shape() && store.Shape()
    ensures var es := Spaced(load, n, store);
            Shapes(es) &&
            (Succeeds(StateAt(es, n + 1), es[n + 1]) <==>
             && load.addr % load.size == 0 && !load.fault && load.phys == store.addr && n <= 62
             && store.addr % store.size == 0 && !store.fault)
  {
    var es := Spaced(load, n, store);
    assert es[0] == load && StateAt(es, 1) == Step(StateAt(es, 0), es[0]);
    if load.addr % load.size == 0 && !load.fault {
      AfterOthers(es, load.phys, n + 1);
    } else {
      NothingReserved(es, n + 1);
    }
  }

  /** A load-reserved of a translated address directly followed by its store-conditional, which fails. */
  lemma TranslatedExample(v: nat, p: nat)
    requires v % 8 == 0 && p != v
    ensures var es := [LR(v, 8, p, false), SC(v, 8, false)];
            Shapes(es) && Live(es, 0, 1) && !Succeeds(StateAt(es, 1), es[1])
  {
    var es := [LR(v, 8, p, false), SC(v, 8, false)];
    assert Shapes(es) && Live(es, 0, 1);
    SameAddressSuccess(es, 0, 1);
  }

  lemma LiveUnique(es: seq<Event>, n: nat, m: nat, k: nat)
    requires Shapes(es) && k <= |es| && Live(es, n, k) && Live(es, m, k)
    ensures n == m
  {
  }

  /** Between two successes there is a reserving load: a reservation is good for one success. */
  lemma OneSuccess(es: seq<Event>, j: nat, k: nat)
    requires Shapes(es) && j < k < |es| && es[j].SC? && es[k].SC?
    requires Succeeds(StateAt(es, j), es[j]) && Succeeds(StateAt(es, k), es[k])
    ensures exists n :: j < n < k && es[n].Reserves()
  {
    SuccessIff(es, j);
    SuccessIff(es, k);
    var m :| 0 <= m < j && Live(es, m, j) && es[m].phys == es[j].addr;
    var n :| 0 <= n < k && Live(es, n, k) && es[n].phys == es[k].addr;
    assert n > j;
  }
}
