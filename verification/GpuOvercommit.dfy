/** Exactly which crews can be launched beyond the free memory of a host. A plan with errors launches nothing. */
module GpuOvercommit {
  import opened Collections
  import opened OrderedDicts
  import opened GpuScheduler
  import opened GpuBounds
  import opened GpuPlans
  import opened GpuInterference

  predicate Affords(budget: Option<int>, need: int) {
    Limit(budget).Some? ==> need <= budget.value
  }

  /**
   * The crew passes the pre-check, and either its last strict agent declares less than 1 MB and the budget covers
   * the strict agents, or another agent that wants a GPU does and the budget leaves 1 MB more.
   */
  predicate CanOvercommit(rs: seq<Requirements>, budget: Option<int>) {
    var strict := Criticals(rs);
    && PassesPreCheck(rs, budget)
    && ((strict != [] && strict[|strict| - 1].memoryMinMb < 1 && Affords(budget, EffectiveTotal(strict)))
        || ((exists r :: r in rs && Soft(r) && r.memoryMinMb < 1) && Affords(budget, EffectiveTotal(strict) + 1)))
  }

  ghost predicate NoneLeft(t: FreeTable) { forall i :: 0 <= i < |t| ==> t[i].value <= 0 }

  ghost predicate NotNegative(budget: Option<int>) { budget.Some? ==> budget.value >= 0 }

  // ------------------------------------------------------------- two phases

  /** The agents served after the strict ones. */
  function Others(rs: seq<Requirements>): seq<Requirements> { ByPriority(rs)[|Criticals(rs)|..] }

  lemma WhoIsWho(rs: seq<Requirements>)
    ensures forall r :: r in Criticals(rs) <==> r in rs && r.Critical()
    ensures forall r :: r in Others(rs) <==> r in rs && !r.Critical()
    ensures ByPriority(rs) == Criticals(rs) + Others(rs)
  {
    CriticalsFirst(rs);
    var strict, served := Criticals(rs), ByPriority(rs);
    hide SortBy;
    assert served == strict + Others(rs);
    assert forall i :: |strict| <= i < |served| ==> Others(rs)[i - |strict|] == served[i];
    forall r | r in rs && !r.Critical() ensures r in Others(rs) {
      assert r in served;
    }
  }

  /** The state after the strict agents. */
  function Middle(rs: seq<Requirements>, status: GpuStatus, budget: Option<int>): State {
    Run(Start(status, budget), Criticals(rs), status)
  }

  lemma TwoPhases(rs: seq<Requirements>, status: GpuStatus, budget: Option<int>)
    ensures Greedy(rs, status, budget) == Run(Middle(rs, status, budget), Others(rs), status)
    ensures Greedy(rs, status, budget).errors == Middle(rs, status, budget).errors
  {
    hide Criticals, Run, Others, InitialFree;
    WhoIsWho(rs);
    RunAppend(Start(status, budget), Criticals(rs), Others(rs), status);
    OnlyCriticalsFail(Middle(rs, status, budget), Others(rs), status);
  }

  // ---------------------------------------------------- what overcommits a device

  /** A step that drives a device below zero is a declaration below 1 MB with 1 MB of budget, and finds nothing free anywhere. */
  lemma NegativeStep(st: State, r: Requirements, status: GpuStatus, p: nat)
    requires p < |st.free|
    ensures var next := Advance(st, r, status);
            && p < |next.free| && next.free[p].value <= st.free[p].value
            && (NoneLeft(st.free) ==> NoneLeft(next.free))
            && (st.budget.Some? <==> next.budget.Some?)
            && (st.budget.Some? ==> next.budget.value <= st.budget.value)
            && (next.free[p].value < 0 <= st.free[p].value ==>
                  && r.Wants() && r.memoryMinMb < 1 && NoneLeft(next.free)
                  && (st.budget.Some? ==> st.budget.value >= 1))
  {
  }

  lemma {:induction false} NegativeRun(st: State, rs: seq<Requirements>, status: GpuStatus, p: nat)
    requires p < |st.free| && st.free[p].value >= 0
    ensures var end := Run(st, rs, status);
            && p < |end.free|
            && (st.budget.Some? <==> end.budget.Some?)
            && (st.budget.Some? ==> end.budget.value <= st.budget.value)
            && (end.free[p].value < 0 ==>
                  && (exists r :: r in rs && r.Wants() && r.memoryMinMb < 1) && NoneLeft(end.free)
                  && (st.budget.Some? ==> st.budget.value >= 1))
  {
    hide Advance, NoneLeft;
    if rs != [] {
      var n := |rs| - 1;
      NegativeRun(st, rs[..n], status, p);
      NegativeStep(Run(st, rs[..n], status), rs[n], status, p);
      assert rs[n] in rs && forall r :: r in rs[..n] ==> r in rs;
    }
  }

  /** One strict agent: an error, or its effective request out of the budget. */
  lemma StrictStep(st: State, r: Requirements, status: GpuStatus)
    requires r.Critical() && NonNegativeIndices(st.free) && NotNegative(st.budget)
    ensures var next := Advance(st, r, status);
            && NonNegativeIndices(next.free) && NotNegative(next.budget) && st.errors <= next.errors
            && (next.errors == st.errors ==>
                  next.budget == if st.budget.None? then None else Some(st.budget.value - r.Effective()))
            && (next.errors == st.errors && NoneLeft(st.free) ==> r.memoryMinMb < 1)
  {
  }

  /** A run of strict agents without an error takes all their requests out of the budget. */
  lemma {:induction false} StrictRun(st: State, rs: seq<Requirements>, status: GpuStatus)
    requires (forall r :: r in rs ==> r.Critical()) && NonNegativeIndices(st.free) && NotNegative(st.budget)
    ensures var end := Run(st, rs, status);
            && NonNegativeIndices(end.free) && NotNegative(end.budget) && st.errors <= end.errors
            && (end.errors == st.errors ==>
                  end.budget == if st.budget.None? then None else Some(st.budget.value - EffectiveTotal(rs)))
  {
    hide Advance, EffectiveTotal, NonNegativeIndices;
    if rs != [] {
      var n := |rs| - 1;
      StrictRun(st, rs[..n], status);
      StrictStep(Run(st, rs[..n], status), rs[n], status);
      EffectiveSnoc(rs);
      assert rs[n] in rs;
    } else {
      NoRequests();
    }
  }

  lemma NoRequests()
    ensures EffectiveTotal([]) == 0
  {
  }

  /** If strict agents overcommit a device without an error, the last of them declares less than 1 MB. */
  lemma LastStrict(st: State, rs: seq<Requirements>, status: GpuStatus, p: nat)
    requires rs != [] && (forall r :: r in rs ==> r.Critical()) && NonNegativeIndices(st.free) && NotNegative(st.budget)
    requires p < |st.free| && p < |Run(st, rs, status).free| && Run(st, rs, status).free[p].value < 0 <= st.free[p].value
    requires Run(st, rs, status).errors == st.errors
    ensures rs[|rs| - 1].memoryMinMb < 1
  {
    var n := |rs| - 1;
    var before := Run(st, rs[..n], status);
    assert Run(st, rs, status) == Advance(before, rs[n], status) && rs[n] in rs;
    hide Run, Advance, NonNegativeIndices, NoneLeft;
    StrictRun(st, rs[..n], status);
    NegativeRun(st, rs[..n], status, p);
    StrictStep(before, rs[n], status);
    NegativeStep(before, rs[n], status, p);
  }

  /** Overcommitted by the strict agents. */
  lemma NeedsStrict(rs: seq<Requirements>, budget: Option<int>, status: GpuStatus, p: nat)
    requires PassesPreCheck(rs, budget) && NonNegativeIndices(InitialFree(status))
    requires p < |InitialFree(status)| && InitialFree(status)[p].value >= 0
    requires Middle(rs, status, budget).errors == []
    requires p < |Middle(rs, status, budget).free| && Middle(rs, status, budget).free[p].value < 0
    ensures CanOvercommit(rs, budget)
  {
    hide Run, InitialFree, Criticals, EffectiveTotal, PassesPreCheck;
    var start := Start(status, budget);
    WhoIsWho(rs);
    StrictRun(start, Criticals(rs), status);
    assert Criticals(rs) != [] by { NothingRuns(start, status); }
    LastStrict(start, Criticals(rs), status, p);
  }

  /** Overcommitted by the others. */
  lemma NeedsOther(rs: seq<Requirements>, budget: Option<int>, status: GpuStatus, p: nat)
    requires PassesPreCheck(rs, budget) && NonNegativeIndices(InitialFree(status))
    requires p < |InitialFree(status)| && InitialFree(status)[p].value >= 0
    requires Middle(rs, status, budget).errors == []
    requires p < |Middle(rs, status, budget).free| && Middle(rs, status, budget).free[p].value >= 0
    requires p < |Greedy(rs, status, budget).free| && Greedy(rs, status, budget).free[p].value < 0
    ensures CanOvercommit(rs, budget)
  {
    hide Run, InitialFree, Criticals, Others, EffectiveTotal, NoneLeft, PassesPreCheck, Greedy;
    WhoIsWho(rs);
    StrictRun(Start(status, budget), Criticals(rs), status);
    TwoPhases(rs, status, budget);
    NegativeRun(Middle(rs, status, budget), Others(rs), status, p);
    var r :| r in Others(rs) && r.Wants() && r.memoryMinMb < 1;
    assert r in rs && Soft(r);
  }

  /** No crew outside the condition is launched beyond the free memory of a device. */
  lemma OvercommitNeeds(defs: seq<Definition>, budget: Option<int>, status: GpuStatus, p: nat)
    requires NonNegativeIndices(InitialFree(status)) && p < |InitialFree(status)| && InitialFree(status)[p].value >= 0
    requires Schedule(defs, status, budget).errors == []
    requires Reserved(Schedule(defs, status, budget).assignments, InitialFree(status)[p].key) > InitialFree(status)[p].value
    ensures CanOvercommit(AllRequirements(defs), budget)
  {
    var rs := AllRequirements(defs);
    assert PassesPreCheck(rs, budget) && Greedy(rs, status, budget).errors == [];
    assert InitialFree(status)[p].key >= 0;
    hide Schedule, Run, InitialFree, Criticals, PassesPreCheck, CanOvercommit, Reserved, Greedy, NoneLeft;
    PlanReserves(defs, status, budget, p);
    TwoPhases(rs, status, budget);
    NegativeRun(Start(status, budget), Criticals(rs), status, p);
    if Middle(rs, status, budget).free[p].value < 0 {
      NeedsStrict(rs, budget, status, p);
    } else {
      NeedsOther(rs, budget, status, p);
    }
  }

  lemma NothingRuns(st: State, status: GpuStatus)
    ensures Run(st, [], status) == st
  {
  }

  /** Off the pre-check path a plan reserves on a device what the run took from it. */
  lemma PlanReserves(defs: seq<Definition>, status: GpuStatus, budget: Option<int>, p: nat)
    requires PassesPreCheck(AllRequirements(defs), budget)
    requires p < |InitialFree(status)| && InitialFree(status)[p].key >= 0
    ensures var slot, end := InitialFree(status)[p], Greedy(AllRequirements(defs), status, budget);
            && p < |end.free|
            && Reserved(Schedule(defs, status, budget).assignments, slot.key) == slot.value - end.free[p].value
  {
    var rs := AllRequirements(defs);
    var slot, end := InitialFree(status)[p], Greedy(AllRequirements(defs), status, budget);
    SetAllValid(status.devices);
    hide Run, SortBy;
    RunConserves(Start(status, budget), ByPriority(rs), status, p);
    SortSum(end.assignments, (a: Assignment) => Rank(defs, a.agentKey), ReservedOn(slot.key));
    assert Reserved(CrewOrder(end.assignments, defs), slot.key) == Reserved(end.assignments, slot.key);
  }

  // ------------------------------------------------------- hosts that overcommit

  /** On one device with room for all of them, strict agents are all placed. */
  lemma {:induction false} StrictFill(st: State, rs: seq<Requirements>, status: GpuStatus)
    requires (forall r :: r in rs ==> r.Critical()) && status.available
    requires |st.free| == 1 && st.free[0].key == 0 && EffectiveTotal(rs) <= st.free[0].value
    requires st.budget.Some? ==> EffectiveTotal(rs) <= st.budget.value
    ensures var end := Run(st, rs, status);
            && end.free == [Entry(0, st.free[0].value - EffectiveTotal(rs))] && end.errors == st.errors
            && end.budget == if st.budget.None? then None else Some(st.budget.value - EffectiveTotal(rs))
  {
    hide EffectiveTotal;
    if rs != [] {
      var n := |rs| - 1;
      EffectiveSnoc(rs);
      StrictFill(st, rs[..n], status);
      assert rs[n] in rs;
    } else {
      NoRequests();
    }
  }

  /** Once a device is overcommitted it stays so. */
  lemma {:induction false} StaysNegative(st: State, rs: seq<Requirements>, status: GpuStatus)
    requires |st.free| == 1 && st.free[0].value < 0
    ensures var end := Run(st, rs, status); |end.free| == 1 && end.free[0].value < 0
  {
    if rs != [] {
      StaysNegative(st, rs[..|rs| - 1], status);
    }
  }

  ghost predicate Overcommits(defs: seq<Definition>, budget: Option<int>, status: GpuStatus) {
    && NonNegativeIndices(InitialFree(status)) && Schedule(defs, status, budget).errors == []
    && !WithinCapacity(defs, budget, status)
  }

  function OneGpu(free: int): GpuStatus { GpuStatus(true, [Device(0, "", free)]) }

  /** It is enough that the greedy run leaves the one device below zero, and that the strict agents are placed. */
  lemma OneGpuOvercommits(defs: seq<Definition>, budget: Option<int>, free: nat)
    requires PassesPreCheck(AllRequirements(defs), budget)
    requires Middle(AllRequirements(defs), OneGpu(free), budget).errors == []
    requires var end := Greedy(AllRequirements(defs), OneGpu(free), budget).free; |end| == 1 && end[0].value < 0
    ensures Overcommits(defs, budget, OneGpu(free))
  {
    OneDevice(free);
    assert InitialFree(OneGpu(free)) == [Entry(0, free)];
    hide Run, SortBy, InitialFree, Criticals;
    TwoPhases(AllRequirements(defs), OneGpu(free), budget);
    PlanReserves(defs, OneGpu(free), budget, 0);
  }

  /** A last strict agent below 1 MB finds nothing left where there is room for the others only. */
  lemma LastOverruns(st: State, strict: seq<Requirements>, status: GpuStatus)
    requires strict != [] && (forall r :: r in strict ==> r.Critical()) && strict[|strict| - 1].memoryMinMb < 1
    requires status.available && st.free == [Entry(0, EffectiveTotal(strict) - 1)]
    requires st.budget.Some? ==> EffectiveTotal(strict) <= st.budget.value
    ensures var end := Run(st, strict, status); end.free == [Entry(0, -1)] && end.errors == st.errors
  {
    var n := |strict| - 1;
    EffectiveSnoc(strict);
    assert strict[n] in strict && forall r :: r in strict[..n] ==> r in strict;
    assert Run(st, strict, status) == Advance(Run(st, strict[..n], status), strict[n], status);
    hide Run, EffectiveTotal;
    StrictFill(st, strict[..n], status);
  }

  lemma AtLeastOne(rs: seq<Requirements>)
    requires Criticals(rs) != []
    ensures EffectiveTotal(Criticals(rs)) >= 1
  {
    var strict := Criticals(rs);
    assert strict[|strict| - 1] in strict;
    hide Filter;
    EffectiveSnoc(strict);
  }

  lemma NeverNegative(rs: seq<Requirements>)
    ensures EffectiveTotal(rs) >= 0
  {
    SumNonNegative(rs, (r: Requirements) => if r.Wants() then r.Effective() else 0);
  }

  lemma StartOn(free: int, budget: Option<int>)
    ensures Start(OneGpu(free), budget) == State([Entry(0, free)], Limit(budget), [], [], [])
  {
    OneDevice(free);
  }

  /** The strict agents end with the device below zero. */
  lemma StrictOverrun(rs: seq<Requirements>, budget: Option<int>)
    requires var strict := Criticals(rs);
             strict != [] && strict[|strict| - 1].memoryMinMb < 1 && Affords(budget, EffectiveTotal(strict))
    ensures var middle := Middle(rs, OneGpu(EffectiveTotal(Criticals(rs)) - 1), budget);
            middle.free == [Entry(0, -1)] && middle.errors == []
  {
    hide Run, Start, Criticals, EffectiveTotal, Others;
    var free := EffectiveTotal(Criticals(rs)) - 1;
    StartOn(free, budget);
    WhoIsWho(rs);
    LastOverruns(Start(OneGpu(free), budget), Criticals(rs), OneGpu(free));
  }

  /** A last strict agent below 1 MB: the device has room for the other strict agents only. */
  lemma StrictOvercommits(defs: seq<Definition>, budget: Option<int>)
    requires var strict := Criticals(AllRequirements(defs));
             strict != [] && strict[|strict| - 1].memoryMinMb < 1 && Affords(budget, EffectiveTotal(strict))
    requires PassesPreCheck(AllRequirements(defs), budget)
    ensures exists status :: Overcommits(defs, budget, status)
  {
    var rs := AllRequirements(defs);
    hide Run, Criticals, EffectiveTotal, Others, PassesPreCheck, Greedy, Overcommits, Middle, Affords, AllRequirements, OneGpu;
    AtLeastOne(rs);
    StrictOverrun(rs, budget);
    var free := EffectiveTotal(Criticals(rs)) - 1;
    TwoPhases(rs, OneGpu(free), budget);
    StaysNegative(Middle(rs, OneGpu(free), budget), Others(rs), OneGpu(free));
    OneGpuOvercommits(defs, budget, free);
  }

  /** Where there is room for the strict agents only, they leave nothing. */
  lemma StrictFillExactly(rs: seq<Requirements>, budget: Option<int>)
    requires Affords(budget, EffectiveTotal(Criticals(rs)) + 1)
    ensures var middle := Middle(rs, OneGpu(EffectiveTotal(Criticals(rs))), budget);
            && middle.free == [Entry(0, 0)] && middle.errors == [] && (middle.budget.Some? ==> middle.budget.value >= 1)
  {
    hide Run, Start, Criticals, EffectiveTotal, Others;
    var free := EffectiveTotal(Criticals(rs));
    StartOn(free, budget);
    WhoIsWho(rs);
    StrictFill(Start(OneGpu(free), budget), Criticals(rs), OneGpu(free));
  }

  /** Another agent below 1 MB: the device has room for the strict agents only. */
  lemma SoftOvercommits(defs: seq<Definition>, budget: Option<int>)
    requires exists r :: r in AllRequirements(defs) && Soft(r) && r.memoryMinMb < 1
    requires Affords(budget, EffectiveTotal(Criticals(AllRequirements(defs))) + 1)
    requires PassesPreCheck(AllRequirements(defs), budget)
    ensures exists status :: Overcommits(defs, budget, status)
  {
    var rs := AllRequirements(defs);
    hide Run, Criticals, EffectiveTotal, Others, PassesPreCheck, Greedy, Overcommits, Middle, Affords, AllRequirements;
    NeverNegative(Criticals(rs));
    StrictFillExactly(rs, budget);
    var free := EffectiveTotal(Criticals(rs));
    WhoIsWho(rs);
    TwoPhases(rs, OneGpu(free), budget);
    FullHost(Middle(rs, OneGpu(free), budget), Others(rs), OneGpu(free));
    OneGpuOvercommits(defs, budget, free);
  }

  /**
   * Launch capacity, exactly. Every host whose device indices are not negative keeps what is launched within the
   * free memory of its devices, if and only if the crew does not meet the condition.
   */
  lemma LaunchCapacityExactly(defs: seq<Definition>, budget: Option<int>)
    ensures (exists status :: Overcommits(defs, budget, status)) <==> CanOvercommit(AllRequirements(defs), budget)
  {
    hide Schedule, InitialFree, EffectiveTotal, Criticals;
    if status :| Overcommits(defs, budget, status) {
      var p :| 0 <= p < |InitialFree(status)| && InitialFree(status)[p].key >= 0 && InitialFree(status)[p].value >= 0
            && Reserved(Schedule(defs, status, budget).assignments, InitialFree(status)[p].key) > InitialFree(status)[p].value;
      OvercommitNeeds(defs, budget, status, p);
    }
    if CanOvercommit(AllRequirements(defs), budget) {
      if exists r :: r in AllRequirements(defs) && Soft(r) && r.memoryMinMb < 1 {
        if Affords(budget, EffectiveTotal(Criticals(AllRequirements(defs))) + 1) {
          SoftOvercommits(defs, budget);
        } else {
          StrictOvercommits(defs, budget);
        }
      } else {
        StrictOvercommits(defs, budget);
      }
    }
  }
}
