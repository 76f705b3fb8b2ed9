/** Bounds on every run of the greedy allocator: memory, crew budget and load balance. */
module GpuBounds {
  import opened Collections
  import opened GpuScheduler
  import opened OrderedDicts

  // ------------------------------------------------------------- run algebra

  lemma {:induction false} RunAppend(st: State, a: seq<Requirements>, b: seq<Requirements>, status: GpuStatus)
    ensures Run(st, a + b, status) == Run(Run(st, a, status), b, status)
  {
    if b == [] {
      assert a + b == a;
    } else {
      var n := |a + b|;
      assert (a + b)[..n - 1] == a + b[..|b| - 1];
      RunAppend(st, a, b[..|b| - 1], status);
    }
  }

  /** Agents that are not strict never add an error. */
  lemma {:induction false} OnlyCriticalsFail(st: State, rs: seq<Requirements>, status: GpuStatus)
    requires forall r :: r in rs ==> !r.Critical()
    ensures Run(st, rs, status).errors == st.errors
  {
    if rs != [] {
      OnlyCriticalsFail(st, rs[..|rs| - 1], status);
    }
  }

  // ------------------------------------------------------- memory per device

  ghost predicate SameDevices(t: FreeTable, u: FreeTable) {
    |t| == |u| && forall i :: 0 <= i < |t| ==> t[i].key == u[i].key
  }

  function ReservedOn(d: int): Assignment -> int {
    (a: Assignment) => if a.IsGpu() && a.deviceIndex == d then a.memoryReservedMb else 0
  }

  /** What the assignments of a crew reserve on device `d`. */
  function Reserved(assignments: seq<Assignment>, d: int): int { SumBy(assignments, ReservedOn(d)) }

  /** Conservation: what a device lost is exactly what the plan reserves on it. */
  lemma {:induction false} RunConserves(st: State, rs: seq<Requirements>, status: GpuStatus, p: nat)
    requires Valid(st.free) && p < |st.free| && st.free[p].key >= 0
    ensures var end := Run(st, rs, status);
            var d := st.free[p].key;
            && SameDevices(st.free, end.free)
            && end.free[p].value + Reserved(end.assignments, d) == st.free[p].value + Reserved(st.assignments, d)
  {
    if rs != [] {
      var last := |rs| - 1;
      RunConserves(st, rs[..last], status, p);
      var before, end := Run(st, rs[..last], status), Run(st, rs, status);
      SumSnoc(before.assignments, end.assignments[|end.assignments| - 1], ReservedOn(st.free[p].key));
    }
  }

  /** The least free memory a placement can leave when every agent declares at least `m`. */
  function Floor(m: int): int { if m >= 1 then 0 else m - 1 }

  lemma {:induction false} RunFloor(st: State, rs: seq<Requirements>, status: GpuStatus, m: int, p: nat)
    requires forall r :: r in rs && r.Wants() ==> r.memoryMinMb >= m
    requires p < |st.free|
    ensures var end := Run(st, rs, status).free;
            p < |end| && end[p].value >= Min(st.free[p].value, Floor(m))
  {
    if rs != [] {
      RunFloor(st, rs[..|rs| - 1], status, m, p);
    }
  }

  lemma {:induction false} SetAllValid(devices: seq<Device>)
    ensures Valid(SetAll(devices))
  {
    if devices != [] {
      var n := |devices| - 1;
      SetAllValid(devices[..n]);
      SetGet(SetAll(devices[..n]), devices[n].index, devices[n].memoryFreeMb, 0);
    }
  }

  /**
   * Capacity. If every agent that wants a GPU declares at least `m` MB, a plan reserves on a device at most
   * its free memory when m >= 1, at most that plus 1 when m == 0, and in general at most that minus Floor(m).
   */
  lemma CapacityBound(defs: seq<Definition>, status: GpuStatus, budget: Option<int>, m: int, p: nat)
    requires forall r :: r in AllRequirements(defs) && r.Wants() ==> r.memoryMinMb >= m
    requires p < |InitialFree(status)| && InitialFree(status)[p].key >= 0
    ensures var slot := InitialFree(status)[p];
            Reserved(Schedule(defs, status, budget).assignments, slot.key) <= Max(0, slot.value - Floor(m))
  {
    var rs := AllRequirements(defs);
    var d := InitialFree(status)[p].key;
    var f := ReservedOn(d);
    if PassesPreCheck(rs, budget) {
      var end := Greedy(rs, status, budget);
      SetAllValid(status.devices);
      RunConserves(Start(status, budget), ByPriority(rs), status, p);
      RunFloor(Start(status, budget), ByPriority(rs), status, m, p);
      SortSum(end.assignments, (a: Assignment) => Rank(defs, a.agentKey), f);
      assert Reserved(CrewOrder(end.assignments, defs), d) == Reserved(end.assignments, d);
    } else {
      SumSame(AllOnCpu(rs), f, (a: Assignment) => 0);
      ZeroSum(AllOnCpu(rs));
    }
  }

  /** No plan of the crew, on any host with non-negative figures, reserves more on a device than it has free. */
  ghost predicate WithinCapacity(defs: seq<Definition>, budget: Option<int>, status: GpuStatus) {
    forall p :: 0 <= p < |InitialFree(status)| && InitialFree(status)[p].key >= 0 && InitialFree(status)[p].value >= 0 ==>
      Reserved(Schedule(defs, status, budget).assignments, InitialFree(status)[p].key) <= InitialFree(status)[p].value
  }

  /** What a full device, or an overcommitted one, comes to with one more agent. */
  lemma FullHostStep(st: State, r: Requirements, status: GpuStatus)
    requires status.available && |st.free| == 1 && st.free[0].key == 0 && st.free[0].value <= 0
    ensures var next := Advance(st, r, status);
            if st.free[0].value < 0 then |next.free| == 1 && next.free[0].key == 0 && next.free[0].value < 0
            else if r.Wants() && r.memoryMinMb < 1 && (st.budget.Some? ==> st.budget.value >= 1) then next.free == [Entry(0, -1)]
            else next.free == st.free && next.budget == st.budget
  {
  }

  /** On a full device nobody is placed before the first agent without a positive minimum, who then is. */
  lemma {:induction false} FullHost(st: State, rs: seq<Requirements>, status: GpuStatus)
    requires status.available && st.free == [Entry(0, 0)] && (st.budget.Some? ==> st.budget.value >= 1)
    ensures var end := Run(st, rs, status);
            if exists r :: r in rs && r.Wants() && r.memoryMinMb < 1
            then |end.free| == 1 && end.free[0].key == 0 && end.free[0].value < 0
            else end.free == st.free && end.budget == st.budget
  {
    hide Advance;
    if rs != [] {
      var n := |rs| - 1;
      FullHost(st, rs[..n], status);
      FullHostStep(Run(st, rs[..n], status), rs[n], status);
      assert rs == rs[..n] + [rs[n]];
    }
  }

  lemma OneDevice(free: int)
    ensures InitialFree(GpuStatus(true, [Device(0, "", free)])) == [Entry(0, free)]
  {
    assert SetAll([Device(0, "", free)][..0]) == [];
  }

  /** On a full host a crew with a declaration below 1 MB is placed beyond capacity. */
  lemma FullHostOverrun(defs: seq<Definition>, budget: Option<int>)
    requires PassesPreCheck(AllRequirements(defs), budget)
    requires exists r :: r in AllRequirements(defs) && r.Wants() && r.memoryMinMb < 1
    ensures !WithinCapacity(defs, budget, GpuStatus(true, [Device(0, "", 0)]))
  {
    var rs, status := AllRequirements(defs), GpuStatus(true, [Device(0, "", 0)]);
    OneDevice(0);
    hide Run, SortBy, InitialFree;
    FullHost(Start(status, budget), ByPriority(rs), status);
    RunConserves(Start(status, budget), ByPriority(rs), status, 0);
    var end := Greedy(rs, status, budget);
    SortSum(end.assignments, (a: Assignment) => Rank(defs, a.agentKey), ReservedOn(0));
    assert Reserved(CrewOrder(end.assignments, defs), 0) == Reserved(end.assignments, 0) > 0;
  }

  /**
   * Capacity, exactly. A crew that passes the pre-check stays within the free memory of every host if and only
   * if each of its agents that want a GPU declares at least 1 MB.
   */
  lemma CapacityExactly(defs: seq<Definition>, budget: Option<int>)
    requires PassesPreCheck(AllRequirements(defs), budget)
    ensures (forall status :: WithinCapacity(defs, budget, status))
       <==> forall r :: r in AllRequirements(defs) && r.Wants() ==> r.memoryMinMb >= 1
  {
    hide Schedule, InitialFree, AllRequirements, PassesPreCheck;
    if forall r :: r in AllRequirements(defs) && r.Wants() ==> r.memoryMinMb >= 1 {
      forall status, p | 0 <= p < |InitialFree(status)| && InitialFree(status)[p].key >= 0 && InitialFree(status)[p].value >= 0
        ensures Reserved(Schedule(defs, status, budget).assignments, InitialFree(status)[p].key) <= InitialFree(status)[p].value
      {
        CapacityBound(defs, status, budget, 1, p);
      }
    } else {
      FullHostOverrun(defs, budget);
    }
  }

  lemma {:induction false} ZeroSum(s: seq<Assignment>)
    ensures SumBy(s, (a: Assignment) => 0) == 0
  {
    if s != [] { ZeroSum(s[1..]); }
  }

  /**
   * One placement drives a table without negative entries below zero exactly when a 0 MB agent
   * is placed although no device has any memory left.
   */
  lemma OvercommitStep(st: State, r: Requirements, status: GpuStatus)
    requires r.memoryMinMb >= 0
    requires forall i :: 0 <= i < |st.free| ==> st.free[i].value >= 0
    ensures (exists i :: 0 <= i < |Advance(st, r, status).free| && Advance(st, r, status).free[i].value < 0)
       <==> && r.Wants() && status.available && r.memoryMinMb == 0
            && st.free != [] && (forall i :: 0 <= i < |st.free| ==> st.free[i].value == 0)
            && (st.budget.Some? ==> st.budget.value >= 1)
  {
    var next := Advance(st, r, status).free;
    if st.free != [] {
      var top := FirstMax(st.free);
      var v := Decide(r, status.available, st.free, st.budget);
      assert v.Placed? ==> next[top].value == st.free[top].value - r.Effective();
      if v.Placed? && r.memoryMinMb == 0 && st.free[top].value == 0 {
        assert next[top].value < 0;
        forall i | 0 <= i < |st.free| ensures st.free[i].value == 0 { }
      }
    }
  }

  // ------------------------------------------------------------- crew budget

  function CrewReserved(assignments: seq<Assignment>): int {
    SumBy(assignments, (a: Assignment) => if a.IsGpu() then a.memoryReservedMb else 0)
  }

  function EffectiveTotal(rs: seq<Requirements>): int {
    SumBy(rs, (r: Requirements) => if r.Wants() then r.Effective() else 0)
  }

  ghost predicate RefusedForBudget(st: State) {
    exists n :: (n in st.warnings || n in st.errors) && n.reason == OverBudget
  }

  lemma {:induction false} RunBudget(st: State, rs: seq<Requirements>, status: GpuStatus)
    requires st.budget.Some? && st.budget.value >= 0
    ensures var end := Run(st, rs, status);
            && end.budget.Some? && end.budget.value >= 0
            && end.budget.value + CrewReserved(end.assignments) == st.budget.value + CrewReserved(st.assignments)
  {
    if rs != [] {
      var before, end := Run(st, rs[..|rs| - 1], status), Run(st, rs, status);
      RunBudget(st, rs[..|rs| - 1], status);
      SumSnoc(before.assignments, end.assignments[|end.assignments| - 1],
              (a: Assignment) => if a.IsGpu() then a.memoryReservedMb else 0);
    }
  }

  /** The crew total never exceeds a positive budget. */
  lemma BudgetBound(defs: seq<Definition>, status: GpuStatus, budget: Option<int>)
    requires budget.Some? && budget.value > 0
    ensures CrewReserved(Schedule(defs, status, budget).assignments) <= budget.value
  {
    var rs := AllRequirements(defs);
    var f := (a: Assignment) => if a.IsGpu() then a.memoryReservedMb else 0;
    if PassesPreCheck(rs, budget) {
      var end := Greedy(rs, status, budget);
      RunBudget(Start(status, budget), ByPriority(rs), status);
      SortSum(end.assignments, (a: Assignment) => Rank(defs, a.agentKey), f);
      assert CrewReserved(CrewOrder(end.assignments, defs)) == CrewReserved(end.assignments);
    } else {
      SumSame(AllOnCpu(rs), f, (a: Assignment) => 0);
      ZeroSum(AllOnCpu(rs));
    }
  }

  lemma EffectiveSnoc(rs: seq<Requirements>)
    requires rs != []
    ensures var r := rs[|rs| - 1];
            EffectiveTotal(rs) == EffectiveTotal(rs[..|rs| - 1]) + if r.Wants() then r.Effective() else 0
    ensures EffectiveTotal(rs[..|rs| - 1]) >= 0
  {
    var n := |rs| - 1;
    var f := (r: Requirements) => if r.Wants() then r.Effective() else 0;
    assert rs[..n] + [rs[n]] == rs;
    SumSnoc(rs[..n], rs[n], f);
    SumNonNegative(rs[..n], f);
  }

  /** While the budget covers every effective request, nobody is refused for budget. */
  lemma {:induction false} BudgetCovers(st: State, rs: seq<Requirements>, status: GpuStatus)
    requires st.budget.Some? && EffectiveTotal(rs) <= st.budget.value && !RefusedForBudget(st)
    ensures var end := Run(st, rs, status);
            end.budget.Some? && end.budget.value >= st.budget.value - EffectiveTotal(rs) && !RefusedForBudget(end)
  {
    if rs != [] {
      EffectiveSnoc(rs);
      BudgetCovers(st, rs[..|rs| - 1], status);
    }
  }

  lemma RoomyStep(st: State, r: Requirements, status: GpuStatus)
    requires status.available && |st.free| == 1 && st.free[0].key >= 0 && st.budget.Some?
    requires r.Wants() ==> st.free[0].value >= r.Effective()
    ensures var next, need := Advance(st, r, status), if r.Wants() then r.Effective() else 0;
            && |next.free| == 1 && next.free[0].key >= 0 && next.budget.Some?
            && next.free[0].value >= st.free[0].value - need
            && (RefusedForBudget(next) || (!RefusedForBudget(st) && next.budget.value == st.budget.value - need))
  {
    var next, note := Advance(st, r, status), Note(r.agentKey, OverBudget);
    assert st.warnings <= next.warnings && st.errors <= next.errors;
    if RefusedForBudget(st) {
      var n :| (n in st.warnings || n in st.errors) && n.reason == OverBudget;
      assert n in next.warnings || n in next.errors;
    } else if r.Wants() && r.Effective() > st.budget.value {
      assert note in next.warnings || note in next.errors;
    }
  }

  /** On one device large enough for all, an uncovered budget does refuse somebody. */
  lemma {:induction false} RoomyRun(st: State, rs: seq<Requirements>, status: GpuStatus)
    requires status.available && |st.free| == 1 && st.free[0].key >= 0
    requires st.budget.Some? && !RefusedForBudget(st)
    requires st.free[0].value >= EffectiveTotal(rs)
    ensures var end := Run(st, rs, status);
            && |end.free| == 1 && end.free[0].key >= 0 && end.budget.Some?
            && end.free[0].value >= st.free[0].value - EffectiveTotal(rs)
            && (RefusedForBudget(end) || end.budget.value == st.budget.value - EffectiveTotal(rs))
  {
    hide Advance, RefusedForBudget;
    if rs != [] {
      EffectiveSnoc(rs);
      RoomyRun(st, rs[..|rs| - 1], status);
      RoomyStep(Run(st, rs[..|rs| - 1], status), rs[|rs| - 1], status);
    }
  }

  /** On one device with enough memory, a budget below the effective requests refuses somebody. */
  lemma RoomyHostRefuses(rs: seq<Requirements>, budget: Option<int>, free: int)
    requires budget.Some? && budget.value > 0 && EffectiveTotal(rs) > budget.value && free >= EffectiveTotal(rs)
    ensures RefusedForBudget(Greedy(rs, GpuStatus(true, [Device(0, "", free)]), budget))
  {
    var status, sorted := GpuStatus(true, [Device(0, "", free)]), ByPriority(rs);
    var f := (r: Requirements) => if r.Wants() then r.Effective() else 0;
    hide Run, SortBy, InitialFree;
    SortSum(rs, (r: Requirements) => r.Priority(), f);
    assert EffectiveTotal(sorted) == EffectiveTotal(rs);
    OneDevice(free);
    RoomyRun(Start(status, budget), sorted, status);
    RunBudget(Start(status, budget), sorted, status);
  }

  /**
   * The per-agent budget refusal is unreachable on every host exactly when the budget covers the effective
   * requests: the declared minimum, or 1 MB where that is not positive. With every declaration at least 1 MB
   * that is the pre-check itself.
   */
  lemma BudgetRefusalExactly(rs: seq<Requirements>, budget: Option<int>)
    requires budget.Some? && budget.value > 0
    ensures (forall status :: !RefusedForBudget(Greedy(rs, status, budget))) <==> EffectiveTotal(rs) <= budget.value
    ensures (forall r :: r in rs && r.Wants() ==> r.memoryMinMb >= 1) ==> EffectiveTotal(rs) == Declared(rs)
  {
    hide Run, SortBy;
    var f := (r: Requirements) => if r.Wants() then r.Effective() else 0;
    var sorted := ByPriority(rs);
    SortSum(rs, (r: Requirements) => r.Priority(), f);
    assert EffectiveTotal(sorted) == EffectiveTotal(rs);
    if EffectiveTotal(rs) <= budget.value {
      forall status ensures !RefusedForBudget(Greedy(rs, status, budget)) {
        BudgetCovers(Start(status, budget), sorted, status);
      }
    } else {
      RoomyHostRefuses(rs, budget, EffectiveTotal(rs));
    }
    if forall r :: r in rs && r.Wants() ==> r.memoryMinMb >= 1 {
      SumSame(rs, f, (r: Requirements) => if r.Wants() then r.memoryMinMb else 0);
    }
  }

  /** A 0 MB agent can use up the budget another agent declared within the pre-check. */
  lemma ZeroDeclarationRefusesAnother()
    ensures var rs := [Requirements("a", true, true, 0, false), Requirements("b", true, false, 1, false)];
            var host := GpuStatus(true, [Device(0, "", 100)]);
            PassesPreCheck(rs, Some(1)) && RefusedForBudget(Greedy(rs, host, Some(1)))
  {
    var a, b := Requirements("a", true, true, 0, false), Requirements("b", true, false, 1, false);
    SumPair(a, b, (r: Requirements) => if r.Wants() then r.memoryMinMb else 0);
    SumPair(a, b, (r: Requirements) => if r.Wants() then r.Effective() else 0);
    assert Declared([a, b]) == 1 && EffectiveTotal([a, b]) == 2;
    RoomyHostRefuses([a, b], Some(1), 100);
  }

  // ------------------------------------------------------------ load balance

  ghost predicate SpreadWithin(t: FreeTable, s: int) {
    forall i, j :: 0 <= i < |t| && 0 <= j < |t| ==> t[i].value - t[j].value <= s
  }

  function LargestReservation(assignments: seq<Assignment>): int {
    if assignments == [] then 0
    else Max(LargestReservation(assignments[..|assignments| - 1]), assignments[|assignments| - 1].memoryReservedMb)
  }

  lemma BalanceStep(st: State, r: Requirements, status: GpuStatus, s: int)
    requires SpreadWithin(st.free, s)
    ensures var next := Advance(st, r, status);
            && |next.assignments| == |st.assignments| + 1 && st.assignments <= next.assignments
            && SpreadWithin(next.free, Max(s, next.assignments[|st.assignments|].memoryReservedMb))
  {
  }

  lemma LargestSnoc(before: seq<Assignment>, after: seq<Assignment>)
    requires |after| == |before| + 1 && before <= after
    ensures LargestReservation(after) == Max(LargestReservation(before), after[|before|].memoryReservedMb)
  {
    assert after[..|after| - 1] == before;
  }

  /** After every step the spread is at most the initial one or the largest single reservation made so far. */
  lemma {:induction false} LoadBalance(st: State, rs: seq<Requirements>, status: GpuStatus, s: int)
    requires SpreadWithin(st.free, s)
    ensures var end := Run(st, rs, status);
            SpreadWithin(end.free, Max(s, LargestReservation(end.assignments)))
  {
    hide Advance;
    if rs != [] {
      LoadBalance(st, rs[..|rs| - 1], status, s);
      var before := Run(st, rs[..|rs| - 1], status);
      BalanceStep(before, rs[|rs| - 1], status, Max(s, LargestReservation(before.assignments)));
      LargestSnoc(before.assignments, Advance(before, rs[|rs| - 1], status).assignments);
    }
  }
}
