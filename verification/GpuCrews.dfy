/**
 * Concurrent crews on one host: every interleaving of "schedule against the adjusted free memory, then
 * reserve" and "release", and what goes wrong when a crew is scheduled against the raw hardware figures.
 */
module GpuCrews {
  import opened Collections
  import opened OrderedDicts
  import opened GpuScheduler
  import opened GpuBounds
  import opened GpuSlots

  function FreeOf(t: FreeTable, index: int): int { OrElse(Get(t, index), 0) }

  /** The status whose devices report the tracker's adjusted free memory. */
  function AdjustedStatus(status: GpuStatus, l: Ledger): GpuStatus {
    status.(devices := seq(|status.devices|, i requires 0 <= i < |status.devices| =>
              status.devices[i].(memoryFreeMb := FreeOf(AdjustedFree(status.devices, l), status.devices[i].index))))
  }

  function GrantAll(l: Ledger, crewId: string, assignments: seq<Assignment>): Ledger {
    if assignments == [] then l
    else
      var a := assignments[|assignments| - 1];
      Add(GrantAll(l, crewId, assignments[..|assignments| - 1]), crewId, Grant(a.deviceIndex, a.memoryReservedMb))
  }

  /** Schedule a crew on the given view of the host and reserve its GPU assignments; a plan with errors reserves nothing. */
  function Launch(l: Ledger, crewId: string, defs: seq<Definition>, view: GpuStatus, budget: Option<int>): Ledger {
    var plan := Schedule(defs, view, budget);
    if plan.HasErrors() then l else GrantAll(l, crewId, plan.GpuAgents())
  }

  datatype Event = Started(crewId: string, defs: seq<Definition>, budget: Option<int>) | Finished(crewId: string)

  function Step(l: Ledger, e: Event, status: GpuStatus): Ledger {
    match e
    case Started(crewId, defs, budget) => Launch(l, crewId, defs, AdjustedStatus(status, l), budget)
    case Finished(crewId) => Remove(l, crewId)
  }

  function Exec(es: seq<Event>, status: GpuStatus): Ledger {
    if es == [] then [] else Step(Exec(es[..|es| - 1], status), es[|es| - 1], status)
  }

  // ------------------------------------------------------------ the program

  /** The reservation part of `_run_local`, given the status it schedules against. */
  method RunCrew(tracker: GPUSlotTracker, crewId: string, defs: seq<Definition>, view: GpuStatus, budget: Option<int>)
    returns (started: bool)
    requires Valid(tracker.reservations)
    modifies tracker
    ensures Valid(tracker.reservations)
    ensures tracker.reservations == Launch(old(tracker.reservations), crewId, defs, view, budget)
    ensures started == (Schedule(defs, view, budget).errors == [])
  {
    hide Schedule, IndexOf;
    var plan := ScheduleCrewGpus(defs, view, budget);
    if plan.errors != [] {
      return false;
    }
    var agents := plan.View().GpuAgents();
    ghost var was := tracker.reservations;
    for i := 0 to |agents|
      invariant Valid(tracker.reservations) && tracker.reservations == GrantAll(was, crewId, agents[..i])
    {
      assert agents[..i + 1][..i] == agents[..i];
      tracker.Reserve(crewId, agents[i].deviceIndex, agents[i].memoryReservedMb);
    }
    assert agents[..|agents|] == agents;
    return true;
  }

  // ------------------------------------------- the adjusted view of the host

  /** Replacing every figure by a function of its device keeps the devices of the table. */
  lemma SetMapped(t: FreeTable, u: FreeTable, index: int, free: int, f: (int, int) -> int)
    requires SameDevices(t, u) && forall p :: 0 <= p < |t| ==> u[p].value == f(t[p].key, t[p].value)
    ensures var t', u' := Set(t, index, free), Set(u, index, f(index, free));
            SameDevices(t', u') && forall p :: 0 <= p < |t'| ==> u'[p].value == f(t'[p].key, t'[p].value)
  {
    IndexIs(u, index, IndexOf(t, index));
  }

  lemma {:induction false} AdjustedTable(devices: seq<Device>, l: Ledger)
    ensures var t, u := SetAll(devices), AdjustedFree(devices, l);
            SameDevices(t, u) && forall p :: 0 <= p < |t| ==> u[p].value == Max(0, t[p].value - Total(l, t[p].key))
  {
    if devices != [] {
      var n := |devices| - 1;
      AdjustedTable(devices[..n], l);
      SetMapped(SetAll(devices[..n]), AdjustedFree(devices[..n], l), devices[n].index, devices[n].memoryFreeMb,
                (index, free) => Max(0, free - Total(l, index)));
    }
  }

  lemma {:induction false} MappedTable(devices: seq<Device>, changed: seq<Device>, f: (int, int) -> int)
    requires |devices| == |changed|
    requires forall i :: 0 <= i < |devices| ==>
               changed[i].index == devices[i].index && changed[i].memoryFreeMb == f(devices[i].index, devices[i].memoryFreeMb)
    ensures var t, u := SetAll(devices), SetAll(changed);
            SameDevices(t, u) && forall p :: 0 <= p < |t| ==> u[p].value == f(t[p].key, t[p].value)
  {
    if devices != [] {
      var n := |devices| - 1;
      MappedTable(devices[..n], changed[..n], f);
      SetMapped(SetAll(devices[..n]), SetAll(changed[..n]), devices[n].index, devices[n].memoryFreeMb, f);
    }
  }

  lemma FreeOfSlot(t: FreeTable, p: nat)
    requires Valid(t) && p < |t|
    ensures FreeOf(t, t[p].key) == t[p].value
  {
    IndexIs(t, t[p].key, p);
  }

  /** On the adjusted status every device offers its hardware figure less all reservations, never below 0. */
  lemma AdjustedView(status: GpuStatus, l: Ledger)
    ensures var t, u := InitialFree(status), InitialFree(AdjustedStatus(status, l));
            && SameDevices(t, u) && Valid(t)
            && forall p :: 0 <= p < |t| ==> u[p].value == Max(0, t[p].value - Total(l, t[p].key))
  {
    var t, u := SetAll(status.devices), AdjustedFree(status.devices, l);
    hide SetAll, AdjustedFree, Total, FreeOf;
    SetAllValid(status.devices);
    AdjustedTable(status.devices, l);
    MappedTable(status.devices, AdjustedStatus(status, l).devices, (index, free) => FreeOf(u, index));
    forall p | 0 <= p < |t| ensures FreeOf(u, t[p].key) == u[p].value {
      FreeOfSlot(u, p);
    }
  }

  // -------------------------------------------------------- one crew's grants

  function AsGrant(a: Assignment): Grant { Grant(a.deviceIndex, a.memoryReservedMb) }

  function Granted(w: Grant -> int): Assignment -> int {
    (a: Assignment) => w(AsGrant(a))
  }

  lemma {:induction false} GrantAllWeight(l: Ledger, crewId: string, assignments: seq<Assignment>, w: Grant -> int)
    ensures Weight(GrantAll(l, crewId, assignments), w)
         == Weight(l, w) + SumBy(assignments, Granted(w))
  {
    if assignments != [] {
      hide Weight;
      var n := |assignments| - 1;
      var a := assignments[n];
      GrantAllWeight(l, crewId, assignments[..n], w);
      AddWeight(GrantAll(l, crewId, assignments[..n]), crewId, AsGrant(a), w);
      assert assignments == assignments[..n] + [a];
      SumSnoc(assignments[..n], a, Granted(w));
    }
  }

  /** What reserving a plan adds on a device is what the plan reserves there. */
  lemma {:induction false} GpuAgentsWeight(assignments: seq<Assignment>, d: int)
    ensures SumBy(Filter(assignments, (a: Assignment) => a.IsGpu()), Granted(OnDevice(d))) == Reserved(assignments, d)
  {
    if assignments != [] {
      var a, rest := assignments[0], Filter(assignments[1..], (a: Assignment) => a.IsGpu());
      GpuAgentsWeight(assignments[1..], d);
      SumHead(a.IsGpu(), a, rest, Granted(OnDevice(d)));
      assert Granted(OnDevice(d))(a) == OnDevice(d)(AsGrant(a));
      assert Reserved(assignments, d) == ReservedOn(d)(a) + Reserved(assignments[1..], d);
    }
  }

  lemma {:induction false} GrantAllKeeps(l: Ledger, crewId: string, assignments: seq<Assignment>, other: string)
    requires Valid(l)
    ensures Valid(GrantAll(l, crewId, assignments))
    ensures other != crewId ==> Held(GrantAll(l, crewId, assignments), other) == Held(l, other)
  {
    if assignments != [] {
      hide IndexOf;
      var n := |assignments| - 1;
      var before := GrantAll(l, crewId, assignments[..n]);
      GrantAllKeeps(l, crewId, assignments[..n], other);
      SetGet(before, crewId, Held(before, crewId) + [AsGrant(assignments[n])], other);
    }
  }

  /** A launch adds to each device exactly what the plan reserves, or nothing when the plan has errors. */
  lemma LaunchTotal(l: Ledger, crewId: string, defs: seq<Definition>, view: GpuStatus, budget: Option<int>, d: int)
    ensures var plan, after := Schedule(defs, view, budget), Launch(l, crewId, defs, view, budget);
            Total(after, d) == Total(l, d) + if plan.errors != [] then 0 else Reserved(plan.assignments, d)
  {
    hide Schedule, Weight;
    var plan := Schedule(defs, view, budget);
    GrantAllWeight(l, crewId, plan.GpuAgents(), OnDevice(d));
    GpuAgentsWeight(plan.assignments, d);
  }

  // ------------------------------------------------------------- multi-crew safety

  ghost predicate DeclaresAtLeast(defs: seq<Definition>, m: int) {
    forall r :: r in AllRequirements(defs) && r.Wants() ==> r.memoryMinMb >= m
  }

  ghost predicate AllDeclare(es: seq<Event>, m: int) {
    forall e :: e in es && e.Started? ==> DeclaresAtLeast(e.defs, m)
  }

  /** What one launch reserved on a device. */
  datatype Share = Share(crewId: string, mb: int)

  function Mb(): Share -> int { (s: Share) => s.mb }

  function Of(crewId: string): Share -> bool { (s: Share) => s.crewId == crewId }

  function NotOf(crewId: string): Share -> bool { (s: Share) => s.crewId != crewId }

  /** What a launch reserves on device d: what its plan reserves there, or nothing when the plan has errors. */
  function Taken(l: Ledger, defs: seq<Definition>, budget: Option<int>, status: GpuStatus, d: int): int {
    var plan := Schedule(defs, AdjustedStatus(status, l), budget);
    if plan.HasErrors() then 0 else Reserved(plan.assignments, d)
  }

  /** The launches that hold memory on device d and whose crew was not released since, in order. */
  function Outstanding(es: seq<Event>, status: GpuStatus, d: int): seq<Share> {
    if es == [] then []
    else
      var n := |es| - 1;
      NextShares(Outstanding(es[..n], status, d), Exec(es[..n], status), es[n], status, d)
  }

  function NextShares(shares: seq<Share>, l: Ledger, e: Event, status: GpuStatus, d: int): seq<Share> {
    match e
    case Started(crewId, defs, budget) =>
      var mb := Taken(l, defs, budget, status, d);
      if mb > 0 then shares + [Share(crewId, mb)] else shares
    case Finished(crewId) => Filter(shares, NotOf(crewId))
  }

  /** Each launch took at most what the earlier ones still outstanding had left free, and `excess` more. */
  ghost predicate Fits(shares: seq<Share>, free: int, excess: int) {
    shares == []
    || var n := |shares| - 1;
       Fits(shares[..n], free, excess) && 0 < shares[n].mb <= Max(0, free - SumBy(shares[..n], Mb())) + excess
  }

  lemma {:induction false} FitsPositive(shares: seq<Share>, free: int, excess: int)
    requires Fits(shares, free, excess)
    ensures forall s :: s in shares ==> s.mb > 0
  {
    if shares != [] {
      FitsPositive(shares[..|shares| - 1], free, excess);
    }
  }

  lemma FitsMore(shares: seq<Share>, s: Share, free: int, excess: int)
    requires Fits(shares, free, excess) && 0 < s.mb <= Max(0, free - SumBy(shares, Mb())) + excess
    ensures Fits(shares + [s], free, excess)
  {
    assert (shares + [s])[..|shares|] == shares;
  }

  lemma FitsFront(shares: seq<Share>, free: int, excess: int)
    requires Fits(shares, free, excess) && shares != []
    ensures var front := shares[..|shares| - 1];
            Fits(front, free, excess) && 0 < shares[|shares| - 1].mb <= Max(0, free - SumBy(front, Mb())) + excess
  {
  }

  lemma FitsNothing(p: Share -> bool, free: int, excess: int)
    ensures Fits(Filter([], p), free, excess)
  {
  }

  /** Releasing a crew leaves the others with no less than they were given. */
  lemma {:induction false} FitsWithout(shares: seq<Share>, p: Share -> bool, free: int, excess: int)
    requires Fits(shares, free, excess)
    ensures Fits(Filter(shares, p), free, excess)
  {
    hide Fits, SumBy, Filter;
    if shares == [] {
      FitsNothing(p, free, excess);
    } else {
      var front, s := shares[..|shares| - 1], shares[|shares| - 1];
      FitsFront(shares, free, excess);
      FitsWithout(front, p, free, excess);
      FitsPositive(front, free, excess);
      assert shares == front + [s];
      FilterSnoc(front, s, p);
      FilterSum(front, p, Mb());
      if p(s) {
        FitsMore(Filter(front, p), s, free, excess);
      } else {
        assert Filter(front, p) + [] == Filter(front, p);
      }
    }
  }

  /** So together they exceed the free memory by at most `excess` for each of them. */
  lemma {:induction false} FitsBound(shares: seq<Share>, free: int, excess: nat)
    requires Fits(shares, free, excess)
    ensures SumBy(shares, Mb()) <= Max(0, free) + excess * |shares|
  {
    if shares != [] {
      var n := |shares| - 1;
      FitsBound(shares[..n], free, excess);
      assert shares == shares[..n] + [shares[n]];
      SumSnoc(shares[..n], shares[n], Mb());
      assert excess * |shares| == excess * n + excess;
      assert excess * n >= 0;
    }
  }

  /** The outstanding shares of every crew are what the tracker holds for it on device d. */
  ghost predicate Accounted(shares: seq<Share>, l: Ledger, d: int) {
    && Valid(l) && Total(l, d) == SumBy(shares, Mb())
    && forall c :: SumBy(Held(l, c), OnDevice(d)) == SumBy(Filter(shares, Of(c)), Mb())
  }

  lemma ShareAdded(shares: seq<Share>, s: Share, c: string)
    ensures SumBy(Filter(shares + [s], Of(c)), Mb()) == SumBy(Filter(shares, Of(c)), Mb()) + if s.crewId == c then s.mb else 0
  {
    FilterSnoc(shares, s, Of(c));
    if s.crewId == c {
      SumSnoc(Filter(shares, Of(c)), s, Mb());
    } else {
      assert Filter(shares, Of(c)) + [] == Filter(shares, Of(c));
    }
  }

  lemma LaunchAccounted(shares: seq<Share>, l: Ledger, e: Event, status: GpuStatus, d: int)
    requires Accounted(shares, l, d) && e.Started?
    requires Taken(l, e.defs, e.budget, status, d) >= 0
    ensures Accounted(NextShares(shares, l, e, status, d), Step(l, e, status), d)
  {
    hide Schedule, Weight, IndexOf, AdjustedStatus, SumBy;
    var view := AdjustedStatus(status, l);
    var plan, after, next := Schedule(e.defs, view, e.budget), Step(l, e, status), NextShares(shares, l, e, status, d);
    var mb := Taken(l, e.defs, e.budget, status, d);
    LaunchTotal(l, e.crewId, e.defs, view, e.budget, d);
    if mb > 0 { SumSnoc(shares, Share(e.crewId, mb), Mb()); }
    GrantAllKeeps(l, e.crewId, plan.GpuAgents(), "");
    forall c ensures SumBy(Held(after, c), OnDevice(d)) == SumBy(Filter(next, Of(c)), Mb()) {
      ShareAdded(shares, Share(e.crewId, mb), c);
      if c == e.crewId {
        PlanHeld(l, e.crewId, plan, d);
      } else {
        GrantAllKeeps(l, e.crewId, plan.GpuAgents(), c);
      }
    }
  }

  /** What a crew holds on a device grows by what its new plan reserves there. */
  lemma PlanHeld(l: Ledger, crewId: string, plan: Plan, d: int)
    requires Valid(l)
    ensures SumBy(Held(GrantAll(l, crewId, plan.GpuAgents()), crewId), OnDevice(d))
         == SumBy(Held(l, crewId), OnDevice(d)) + Reserved(plan.assignments, d)
  {
    GrantAllHeld(l, crewId, plan.GpuAgents(), OnDevice(d));
    GpuAgentsWeight(plan.assignments, d);
  }

  lemma {:induction false} GrantAllHeld(l: Ledger, crewId: string, assignments: seq<Assignment>, w: Grant -> int)
    requires Valid(l)
    ensures SumBy(Held(GrantAll(l, crewId, assignments), crewId), w)
         == SumBy(Held(l, crewId), w) + SumBy(assignments, Granted(w))
  {
    if assignments != [] {
      var n := |assignments| - 1;
      var before, g := GrantAll(l, crewId, assignments[..n]), AsGrant(assignments[n]);
      GrantAllHeld(l, crewId, assignments[..n], w);
      GrantAllKeeps(l, crewId, assignments[..n], crewId);
      assert assignments == assignments[..n] + [assignments[n]];
      hide IndexOf, SumBy;
      SetGet(before, crewId, Held(before, crewId) + [g], crewId);
      SumSnoc(assignments[..n], assignments[n], Granted(w));
      SumSnoc(Held(before, crewId), g, w);
    }
  }

  lemma ReleaseAccounted(shares: seq<Share>, l: Ledger, e: Event, status: GpuStatus, d: int)
    requires Accounted(shares, l, d) && e.Finished?
    ensures Accounted(NextShares(shares, l, e, status, d), Step(l, e, status), d)
  {
    hide Weight, IndexOf, SumBy, Filter;
    var rest := Filter(shares, NotOf(e.crewId));
    ReleaseWeight(l, e.crewId, OnDevice(d));
    FilterSplit(shares, Of(e.crewId), NotOf(e.crewId), Mb());
    RemoveGet(l, e.crewId, e.crewId);
    forall c ensures SumBy(Held(Step(l, e, status), c), OnDevice(d)) == SumBy(Filter(rest, Of(c)), Mb()) {
      RemoveGet(l, e.crewId, c);
      SharesLeft(shares, e.crewId, c);
      SumEmpty(OnDevice(d));
      NothingShared();
    }
  }

  lemma NothingShared()
    ensures SumBy([], Mb()) == 0
  {
  }

  lemma {:induction false} SharesLeft(shares: seq<Share>, gone: string, c: string)
    ensures Filter(Filter(shares, NotOf(gone)), Of(c)) == if c == gone then [] else Filter(shares, Of(c))
  {
    if shares != [] {
      var s, rest := shares[0], shares[1..];
      SharesLeft(rest, gone, c);
      assert shares == [s] + rest;
      hide Filter;
      FilterCons(s, rest, NotOf(gone));
      FilterCons(s, rest, Of(c));
      FilterCons(s, Filter(rest, NotOf(gone)), Of(c));
      JoinPick(s.crewId != gone, s, Filter(rest, NotOf(gone)));
    } else {
      assert Filter(shares, NotOf(gone)) == [];
    }
  }

  lemma {:induction false} RunReservesSomething(st: State, rs: seq<Requirements>, status: GpuStatus)
    requires forall a :: a in st.assignments && a.IsGpu() ==> a.memoryReservedMb >= 1
    ensures forall a :: a in Run(st, rs, status).assignments && a.IsGpu() ==> a.memoryReservedMb >= 1
  {
    if rs != [] {
      RunReservesSomething(st, rs[..|rs| - 1], status);
    }
  }

  lemma ReservedNotNegative(defs: seq<Definition>, view: GpuStatus, budget: Option<int>, d: int)
    ensures Reserved(Schedule(defs, view, budget).assignments, d) >= 0
  {
    hide Run, SortBy, InitialFree;
    RunReservesSomething(Start(view, budget), ByPriority(AllRequirements(defs)), view);
    SumNonNegative(Schedule(defs, view, budget).assignments, ReservedOn(d));
  }

  /** One launch takes at most what the tracker leaves free, and the floor of its declarations more. */
  lemma TakenBound(l: Ledger, defs: seq<Definition>, budget: Option<int>, status: GpuStatus, m: int, p: nat)
    requires DeclaresAtLeast(defs, m) && p < |InitialFree(status)| && InitialFree(status)[p].key >= 0
    ensures var slot := InitialFree(status)[p];
            0 <= Taken(l, defs, budget, status, slot.key) <= Max(0, slot.value - Total(l, slot.key)) - Floor(m)
  {
    hide Schedule, InitialFree, Total, AdjustedStatus, Reserved;
    var view := AdjustedStatus(status, l);
    AdjustedView(status, l);
    CapacityBound(defs, view, budget, m, p);
    ReservedNotNegative(defs, view, budget, InitialFree(status)[p].key);
  }

  lemma FitsNext(shares: seq<Share>, l: Ledger, e: Event, status: GpuStatus, d: int, free: int, excess: int)
    requires Fits(shares, free, excess) && Total(l, d) == SumBy(shares, Mb())
    requires e.Started? ==> 0 <= Taken(l, e.defs, e.budget, status, d) <= Max(0, free - Total(l, d)) + excess
    ensures Fits(NextShares(shares, l, e, status, d), free, excess)
  {
    hide Taken, Fits, Total, SumBy;
    if e.Finished? {
      FitsWithout(shares, NotOf(e.crewId), free, excess);
    } else if Taken(l, e.defs, e.budget, status, d) > 0 {
      FitsMore(shares, Share(e.crewId, Taken(l, e.defs, e.budget, status, d)), free, excess);
    }
  }

  lemma SafeStep(shares: seq<Share>, l: Ledger, e: Event, status: GpuStatus, m: int, p: nat)
    requires e.Started? ==> DeclaresAtLeast(e.defs, m)
    requires p < |InitialFree(status)| && InitialFree(status)[p].key >= 0
    requires Accounted(shares, l, InitialFree(status)[p].key) && Fits(shares, InitialFree(status)[p].value, -Floor(m))
    ensures var slot := InitialFree(status)[p];
            var next := NextShares(shares, l, e, status, slot.key);
            Accounted(next, Step(l, e, status), slot.key) && Fits(next, slot.value, -Floor(m))
  {
    var slot := InitialFree(status)[p];
    assert Total(l, slot.key) == SumBy(shares, Mb());
    hide SumBy, InitialFree, Step, NextShares, Fits, Accounted, Total, Taken, DeclaresAtLeast;
    if e.Started? {
      TakenBound(l, e.defs, e.budget, status, m, p);
      LaunchAccounted(shares, l, e, status, slot.key);
    } else {
      ReleaseAccounted(shares, l, e, status, slot.key);
    }
    FitsNext(shares, l, e, status, slot.key, slot.value, -Floor(m));
  }

  /** What every run keeps. */
  lemma {:induction false} RunFits(es: seq<Event>, status: GpuStatus, m: int, p: nat)
    requires AllDeclare(es, m)
    requires p < |InitialFree(status)| && InitialFree(status)[p].key >= 0
    ensures var slot := InitialFree(status)[p];
            var shares := Outstanding(es, status, slot.key);
            Accounted(shares, Exec(es, status), slot.key) && Fits(shares, slot.value, -Floor(m))
  {
    hide Step, InitialFree, NextShares;
    if es != [] {
      var n := |es| - 1;
      assert forall e :: e in es[..n] ==> e in es;
      RunFits(es[..n], status, m, p);
      SafeStep(Outstanding(es[..n], status, InitialFree(status)[p].key), Exec(es[..n], status), es[n], status, m, p);
    }
  }

  /**
   * Multi-crew safety. Over every interleaving of launches against the adjusted status and releases, what all
   * crews hold on a device never exceeds its hardware free memory when every agent that wants a GPU declares
   * at least 1 MB. With 0 MB declarations it exceeds it by at most one for each outstanding launch that holds
   * memory there; with a least declaration m below 0, by at most 1 - m for each.
   */
  lemma MultiCrewSafety(es: seq<Event>, status: GpuStatus, m: int, p: nat)
    requires AllDeclare(es, m)
    requires p < |InitialFree(status)| && InitialFree(status)[p].key >= 0
    ensures var slot := InitialFree(status)[p];
            Total(Exec(es, status), slot.key) <= Max(0, slot.value) - Floor(m) * |Outstanding(es, status, slot.key)|
  {
    hide Exec, InitialFree, Outstanding, Fits, Total;
    var slot := InitialFree(status)[p];
    RunFits(es, status, m, p);
    FitsBound(Outstanding(es, status, slot.key), slot.value, -Floor(m));
  }

  // ------------------------------------------------------------- release undoes launch

  lemma {:induction false} GrantAllIsOneEntry(l: Ledger, crewId: string, assignments: seq<Assignment>)
    requires Valid(l) && !Has(l, crewId) && assignments != []
    ensures exists v :: GrantAll(l, crewId, assignments) == Set(l, crewId, v)
  {
    hide IndexOf;
    var n := |assignments| - 1;
    var g := AsGrant(assignments[n]);
    if n == 0 {
      assert GrantAll(l, crewId, assignments[..n]) == l;
      assert GrantAll(l, crewId, assignments) == Set(l, crewId, [] + [g]);
    } else {
      GrantAllIsOneEntry(l, crewId, assignments[..n]);
      var v :| GrantAll(l, crewId, assignments[..n]) == Set(l, crewId, v);
      SetGet(l, crewId, v, crewId);
      SetTwice(l, crewId, v, v + [g]);
      assert GrantAll(l, crewId, assignments) == Set(l, crewId, v + [g]);
    }
  }

  /** Releasing a crew that held nothing before its launch restores the tracker exactly. */
  lemma ReleaseUndoesLaunch(l: Ledger, crewId: string, defs: seq<Definition>, view: GpuStatus, budget: Option<int>)
    requires Valid(l) && !Has(l, crewId)
    ensures Remove(Launch(l, crewId, defs, view, budget), crewId) == l
  {
    hide Schedule, IndexOf;
    var plan := Schedule(defs, view, budget);
    if !plan.HasErrors() && plan.GpuAgents() != [] {
      GrantAllIsOneEntry(l, crewId, plan.GpuAgents());
      var v :| GrantAll(l, crewId, plan.GpuAgents()) == Set(l, crewId, v);
      RemoveNew(l, crewId, v);
    }
  }

  // ------------------------------------------------------- the raw hardware view

  /** The free memory of all devices together. */
  function AllFree(t: FreeTable): int { SumBy(t, (s: Entry<int, int>) => s.value) }

  ghost predicate NoneNegative(t: FreeTable) { forall p :: 0 <= p < |t| ==> t[p].value >= 0 }

  lemma AllFreeUpdate(t: FreeTable, p: nat, s: Entry<int, int>)
    requires p < |t|
    ensures AllFree(t[p := s]) == AllFree(t) - t[p].value + s.value
  {
    SumSplit(t, p, (s: Entry<int, int>) => s.value);
    SumSplit(t[p := s], p, (s: Entry<int, int>) => s.value);
  }

  /** One agent that wants a megabyte and cannot fail. */
  const MEGABYTE := Definition(true, Some("a"), Fields(Some(true), Some(false), Some(1), None), Fields(None, None, None, None))

  /** As long as memory is left, 1 MB agents are all placed, so enough of them fill every device. */
  lemma {:induction false} Fill(st: State, rs: seq<Requirements>, status: GpuStatus)
    requires status.available && st.budget.None? && NoneNegative(st.free) && st.free != []
    requires forall r :: r in rs ==> r == FromDefinition(MEGABYTE)
    requires |rs| <= AllFree(st.free)
    ensures var end := Run(st, rs, status);
            && end.free != [] && NoneNegative(end.free) && end.budget.None?
            && AllFree(end.free) == AllFree(st.free) - |rs|
  {
    hide AllFree;
    if rs != [] {
      var n := |rs| - 1;
      assert rs[n] in rs && forall r :: r in rs[..n] ==> r in rs;
      Fill(st, rs[..n], status);
      var t := Run(st, rs[..n], status).free;
      var top := FirstMax(t);
      if t[top].value <= 0 {
        NothingLeft(t);
      }
      AllFreeUpdate(t, top, Entry(t[top].key, t[top].value - 1));
    }
  }

  lemma {:induction false} NothingLeft(t: FreeTable)
    requires forall p :: 0 <= p < |t| ==> t[p].value <= 0
    ensures AllFree(t) <= 0
    ensures NoneNegative(t) ==> AllFree(t) == 0
  {
    if t != [] {
      NothingLeft(t[1..]);
    }
  }

  lemma AllFreeBounds(t: FreeTable, p: nat)
    requires NoneNegative(t) && p < |t|
    ensures t[p].value <= AllFree(t)
  {
    SumSplit(t, p, (s: Entry<int, int>) => s.value);
    SumNonNegative(t[..p], (s: Entry<int, int>) => s.value);
    SumNonNegative(t[p + 1..], (s: Entry<int, int>) => s.value);
  }

  ghost predicate Safe(l: Ledger, status: GpuStatus) {
    forall p :: 0 <= p < |InitialFree(status)| ==>
      Total(l, InitialFree(status)[p].key) <= InitialFree(status)[p].value
  }

  ghost predicate Idle(l: Ledger, status: GpuStatus) {
    forall p :: 0 <= p < |InitialFree(status)| ==> Total(l, InitialFree(status)[p].key) <= 0
  }

  /** A crew of 1 MB agents that reserves every megabyte of the host. */
  function FillingCrew(status: GpuStatus): seq<Definition> {
    seq(Max(0, AllFree(InitialFree(status))), _ => MEGABYTE)
  }

  lemma FillingPlan(status: GpuStatus, p: nat)
    requires status.available && NoneNegative(InitialFree(status))
    requires p < |InitialFree(status)| && InitialFree(status)[p].key >= 0
    ensures DeclaresAtLeast(FillingCrew(status), 1)
    ensures var slot, plan := InitialFree(status)[p], Schedule(FillingCrew(status), status, None);
            !plan.HasErrors() && Reserved(plan.assignments, slot.key) == slot.value
  {
    hide Run, SortBy, AllFree;
    var defs, t := FillingCrew(status), InitialFree(status);
    var d := t[p].key;
    var rs := AllRequirements(defs);
    var end := Greedy(rs, status, None);
    AllFreeBounds(t, p);
    SetAllValid(status.devices);
    Fill(Start(status, None), ByPriority(rs), status);
    AllFreeBounds(end.free, p) by {
      RunConserves(Start(status, None), ByPriority(rs), status, p);
    }
    RunConserves(Start(status, None), ByPriority(rs), status, p);
    SortSum(end.assignments, (a: Assignment) => Rank(defs, a.agentKey), ReservedOn(d));
    assert Reserved(CrewOrder(end.assignments, defs), d) == Reserved(end.assignments, d);
    OnlyCriticalsFail(Start(status, None), ByPriority(rs), status);
  }

  /**
   * Scheduling against the raw status, as `_run_local` does, keeps the hardware bound for every crew that
   * declares at least 1 MB per agent exactly when no crew holds anything on the host.
   */
  lemma RawSchedulingSafeExactly(l: Ledger, crewId: string, status: GpuStatus)
    requires status.available && NoneNegative(InitialFree(status)) && Safe(l, status)
    requires forall p :: 0 <= p < |InitialFree(status)| ==> InitialFree(status)[p].key >= 0
    ensures (forall defs, budget :: DeclaresAtLeast(defs, 1) ==> Safe(Launch(l, crewId, defs, status, budget), status))
       <==> Idle(l, status)
  {
    hide Schedule, InitialFree, Total, Launch;
    var t := InitialFree(status);
    if Idle(l, status) {
      forall defs, budget | DeclaresAtLeast(defs, 1) ensures Safe(Launch(l, crewId, defs, status, budget), status) {
        forall p | 0 <= p < |t| ensures Total(Launch(l, crewId, defs, status, budget), t[p].key) <= t[p].value {
          CapacityBound(defs, status, budget, 1, p);
          LaunchTotal(l, crewId, defs, status, budget, t[p].key);
        }
      }
    } else {
      var p :| 0 <= p < |t| && Total(l, t[p].key) > 0;
      FillingPlan(status, p);
      LaunchTotal(l, crewId, FillingCrew(status), status, None, t[p].key);
      assert !Safe(Launch(l, crewId, FillingCrew(status), status, None), status);
    }
  }
}
