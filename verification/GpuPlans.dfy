/** What a whole plan says: which agents its errors and warnings name, and that it covers the crew. */
module GpuPlans {
  import opened Collections
  import opened GpuScheduler
  import opened OrderedDicts
  import opened GpuBounds

  // ----------------------------------------------- positions of a greedy run

  lemma AdvanceKeys(st: State, r: Requirements, status: GpuStatus)
    ensures var next := Advance(st, r, status);
            && |next.assignments| == |st.assignments| + 1 && st.assignments <= next.assignments
            && st.errors <= next.errors && next.assignments[|st.assignments|].agentKey == r.agentKey
  {
  }

  /** Position i of a run holds the outcome of agent i. */
  lemma {:induction false} RunKeys(st: State, rs: seq<Requirements>, status: GpuStatus)
    ensures var end := Run(st, rs, status);
            && |end.assignments| == |st.assignments| + |rs|
            && st.assignments <= end.assignments
            && st.errors <= end.errors
            && forall i :: 0 <= i < |rs| ==> end.assignments[|st.assignments| + i].agentKey == rs[i].agentKey
  {
    hide Advance;
    if rs != [] {
      RunKeys(st, rs[..|rs| - 1], status);
      AdvanceKeys(Run(st, rs[..|rs| - 1], status), rs[|rs| - 1], status);
    }
  }

  ghost predicate DistinctKeys(rs: seq<Requirements>) {
    forall i, j :: 0 <= i < j < |rs| ==> rs[i].agentKey != rs[j].agentKey
  }

  ghost predicate AllPresent(defs: seq<Definition>) {
    forall d :: d in defs ==> d.agentKey.Some?
  }

  ghost predicate NonNegativeIndices(t: FreeTable) {
    forall i :: 0 <= i < |t| ==> t[i].key >= 0
  }

  /** The greedy run lists the agents in priority order. */
  lemma GreedyKeys(rs: seq<Requirements>, status: GpuStatus, budget: Option<int>)
    ensures var sorted, run := ByPriority(rs), Greedy(rs, status, budget).assignments;
            && |run| == |sorted| == |rs|
            && (forall i :: 0 <= i < |run| ==> run[i].agentKey == sorted[i].agentKey)
            && (forall r :: r in sorted <==> r in rs)
            && (DistinctKeys(rs) ==> DistinctKeys(sorted) && Apart(run, (a: Assignment) => a.agentKey))
  {
    hide Run, SortBy, InitialFree;
    RunKeys(Start(status, budget), ByPriority(rs), status);
    var sorted, run := ByPriority(rs), Greedy(rs, status, budget).assignments;
    assert forall i :: 0 <= i < |run| ==> run[0 + i].agentKey == sorted[i].agentKey;
    if DistinctKeys(rs) {
      SortApart(rs, (r: Requirements) => r.Priority(), (r: Requirements) => r.agentKey);
    }
  }

  // -------------------------------------------------------------- accounting

  /** How many agents of the plan satisfy `p`. */
  function Count<T(!new)>(s: seq<T>, p: T -> bool): int {
    SumBy(s, (x: T) => if p(x) then 1 else 0)
  }

  lemma CountSnoc<T(!new)>(s: seq<T>, x: T, p: T -> bool)
    ensures Count(s + [x], p) == Count(s, p) + if p(x) then 1 else 0
  {
    SumSnoc(s, x, (x: T) => if p(x) then 1 else 0);
  }

  lemma CountSort<T(!new)>(s: seq<T>, key: T -> int, p: T -> bool)
    ensures Count(SortBy(s, key), p) == Count(s, p)
  {
    SortSum(s, key, (x: T) => if p(x) then 1 else 0);
  }

  function NoteKeys(notes: seq<Note>): seq<string> {
    seq(|notes|, i requires 0 <= i < |notes| => notes[i].agentKey)
  }

  predicate Strict(r: Requirements) { r.required && r.strict }

  predicate Soft(r: Requirements) { (r.required || r.preferred) && !(r.required && r.strict) }

  /** The keys of the agents that satisfy p and ended up on CPU, in the order they were served. */
  function OnCpu(rs: seq<Requirements>, assignments: seq<Assignment>, p: Requirements -> bool): seq<string>
    requires |rs| == |assignments|
  {
    if rs == [] then []
    else
      var n := |rs| - 1;
      OnCpu(rs[..n], assignments[..n], p) + if p(rs[n]) && !assignments[n].IsGpu() then [rs[n].agentKey] else []
  }

  lemma {:induction false} OnCpuHas(rs: seq<Requirements>, assignments: seq<Assignment>, p: Requirements -> bool, key: string)
    requires |rs| == |assignments|
    ensures key in OnCpu(rs, assignments, p)
       <==> exists i :: 0 <= i < |rs| && p(rs[i]) && !assignments[i].IsGpu() && rs[i].agentKey == key
  {
    if rs != [] {
      var n := |rs| - 1;
      OnCpuHas(rs[..n], assignments[..n], p, key);
      if i :| 0 <= i < n && p(rs[i]) && !assignments[i].IsGpu() && rs[i].agentKey == key {
        assert p(rs[..n][i]) && !assignments[..n][i].IsGpu() && rs[..n][i].agentKey == key;
      }
    }
  }

  /** One agent adds its own key to the errors or to the warnings, or takes a device, or wants none. */
  lemma AdvanceNotes(st: State, r: Requirements, status: GpuStatus)
    requires NonNegativeIndices(st.free)
    ensures var next := Advance(st, r, status);
            && NonNegativeIndices(next.free) && |next.assignments| == |st.assignments| + 1
            && next.assignments[..|st.assignments|] == st.assignments
            && var cpu := !next.assignments[|st.assignments|].IsGpu();
               && NoteKeys(next.errors) == NoteKeys(st.errors) + (if Strict(r) && cpu then [r.agentKey] else [])
               && NoteKeys(next.warnings) == NoteKeys(st.warnings) + (if Soft(r) && cpu then [r.agentKey] else [])
  {
  }

  /** The errors of a run name its strict agents on CPU, the warnings the others that want a GPU and are on CPU. */
  lemma {:induction false} RunNotes(st: State, rs: seq<Requirements>, status: GpuStatus)
    requires NonNegativeIndices(st.free) && st.assignments == [] && st.errors == [] && st.warnings == []
    ensures var end := Run(st, rs, status);
            && NonNegativeIndices(end.free) && |end.assignments| == |rs|
            && NoteKeys(end.errors) == OnCpu(rs, end.assignments, Strict)
            && NoteKeys(end.warnings) == OnCpu(rs, end.assignments, Soft)
  {
    hide Advance, NonNegativeIndices;
    if rs != [] {
      var n := |rs| - 1;
      RunNotes(st, rs[..n], status);
      AdvanceNotes(Run(st, rs[..n], status), rs[n], status);
    }
  }

  /** One agent that wants a GPU adds one to errors, warnings or GPU agents. */
  lemma AdvanceTotals(st: State, r: Requirements, status: GpuStatus)
    requires NonNegativeIndices(st.free)
    ensures var next, gpu := Advance(st, r, status), (a: Assignment) => a.IsGpu();
            && NonNegativeIndices(next.free)
            && |next.errors| + |next.warnings| + Count(next.assignments, gpu)
               == |st.errors| + |st.warnings| + Count(st.assignments, gpu) + if r.required || r.preferred then 1 else 0
  {
    var next := Advance(st, r, status);
    var a := next.assignments[|st.assignments|];
    assert next.assignments == st.assignments + [a];
    hide Count;
    CountSnoc(st.assignments, a, (a: Assignment) => a.IsGpu());
  }

  lemma {:induction false} RunTotals(st: State, rs: seq<Requirements>, status: GpuStatus)
    requires NonNegativeIndices(st.free)
    ensures var end, gpu := Run(st, rs, status), (a: Assignment) => a.IsGpu();
            && NonNegativeIndices(end.free)
            && |end.errors| + |end.warnings| + Count(end.assignments, gpu)
               == |st.errors| + |st.warnings| + Count(st.assignments, gpu) + Count(rs, (r: Requirements) => r.required || r.preferred)
  {
    hide Advance, NonNegativeIndices;
    if rs != [] {
      var n := |rs| - 1;
      RunTotals(st, rs[..n], status);
      AdvanceTotals(Run(st, rs[..n], status), rs[n], status);
      assert rs == rs[..n] + [rs[n]];
      CountSnoc(rs[..n], rs[n], (r: Requirements) => r.required || r.preferred);
    }
  }

  /** Off the pre-check path, errors, warnings and GPU agents add up to the agents that want a GPU. */
  lemma PlanTotals(defs: seq<Definition>, status: GpuStatus, budget: Option<int>)
    requires PassesPreCheck(AllRequirements(defs), budget) && NonNegativeIndices(InitialFree(status))
    ensures var rs, plan := AllRequirements(defs), Schedule(defs, status, budget);
            |plan.errors| + |plan.warnings| + Count(plan.assignments, (a: Assignment) => a.IsGpu())
            == Count(rs, (r: Requirements) => r.required || r.preferred)
  {
    var rs, run := AllRequirements(defs), Greedy(AllRequirements(defs), status, budget).assignments;
    RunTotals(Start(status, budget), ByPriority(rs), status);
    CountSort(rs, (r: Requirements) => r.Priority(), (r: Requirements) => r.required || r.preferred);
    CountSort(run, (a: Assignment) => Rank(defs, a.agentKey), (a: Assignment) => a.IsGpu());
    assert Schedule(defs, status, budget).assignments == CrewOrder(run, defs);
  }

  /**
   * Off the pre-check path, the errors name exactly the strict-required agents on CPU and the warnings exactly the
   * other agents that want a GPU and are on CPU, each once, in the order they were served.
   */
  lemma PlanAccounting(defs: seq<Definition>, status: GpuStatus, budget: Option<int>)
    requires PassesPreCheck(AllRequirements(defs), budget) && NonNegativeIndices(InitialFree(status))
    ensures var rs, plan := AllRequirements(defs), Schedule(defs, status, budget);
            var served, run := ByPriority(rs), Greedy(rs, status, budget).assignments;
            && |run| == |served|
            && NoteKeys(plan.errors) == OnCpu(served, run, Strict)
            && NoteKeys(plan.warnings) == OnCpu(served, run, Soft)
  {
    var rs := AllRequirements(defs);
    hide Run, SortBy, InitialFree, OnCpu;
    RunNotes(Start(status, budget), ByPriority(rs), status);
  }

  lemma {:induction false} FindInApart(assignments: seq<Assignment>, a: Assignment)
    requires Apart(assignments, (a: Assignment) => a.agentKey) && a in assignments
    ensures FindKey(assignments, a.agentKey) == Some(a)
  {
    if assignments[0] != a {
      var i :| 0 < i < |assignments| && assignments[i] == a;
      assert assignments[1..][i - 1] == a;
      FindInApart(assignments[1..], a);
    }
  }

  /** With distinct keys the plan gives every agent the outcome of its turn. */
  lemma OutcomeOfTurn(defs: seq<Definition>, status: GpuStatus, budget: Option<int>, j: nat)
    requires DistinctKeys(AllRequirements(defs)) && PassesPreCheck(AllRequirements(defs), budget) && j < |defs|
    ensures var rs := AllRequirements(defs);
            var run := Greedy(rs, status, budget).assignments;
            && |run| == |defs|
            && Schedule(defs, status, budget).GetAssignment(ByPriority(rs)[j].agentKey) == Some(run[j])
  {
    hide Run, SortBy, FindKey, Rank, InitialFree;
    var rs, run := AllRequirements(defs), Greedy(AllRequirements(defs), status, budget).assignments;
    GreedyKeys(rs, status, budget);
    SortApart(run, (a: Assignment) => Rank(defs, a.agentKey), (a: Assignment) => a.agentKey);
    assert run[j] in run;
    FindInApart(CrewOrder(run, defs), run[j]);
  }

  /** With distinct keys: an agent is named by an error, or by a warning, exactly when the plan has it on CPU. */
  lemma AgentAccounting(defs: seq<Definition>, status: GpuStatus, budget: Option<int>, r: Requirements)
    requires DistinctKeys(AllRequirements(defs)) && r in AllRequirements(defs)
    requires PassesPreCheck(AllRequirements(defs), budget) && NonNegativeIndices(InitialFree(status))
    ensures var plan := Schedule(defs, status, budget);
            var a := plan.GetAssignment(r.agentKey);
            && a.Some?
            && (r.agentKey in NoteKeys(plan.errors) <==> Strict(r) && !a.value.IsGpu())
            && (r.agentKey in NoteKeys(plan.warnings) <==> Soft(r) && !a.value.IsGpu())
  {
    var rs := AllRequirements(defs);
    var served, run := ByPriority(rs), Greedy(rs, status, budget).assignments;
    hide Run, SortBy, InitialFree, OnCpu, FindKey, Schedule, Greedy;
    GreedyKeys(rs, status, budget);
    PlanAccounting(defs, status, budget);
    assert r in served;
    var j :| 0 <= j < |served| && served[j] == r;
    OutcomeOfTurn(defs, status, budget, j);
    OnCpuHas(served, run, Strict, r.agentKey);
    OnCpuHas(served, run, Soft, r.agentKey);
    assert forall i :: 0 <= i < |served| && served[i].agentKey == r.agentKey ==> i == j;
  }

  // ------------------------------------------------------------ completeness

  lemma {:induction false} RankOf(defs: seq<Definition>, key: string)
    ensures var r := Rank(defs, key);
            if exists i :: 0 <= i < |defs| && OrderKey(defs[i]) == Some(key)
            then 0 <= r < |defs| && OrderKey(defs[r]) == Some(key)
                 && forall i :: r < i < |defs| ==> OrderKey(defs[i]) != Some(key)
            else r == 999
  {
    if defs != [] {
      RankOf(defs[..|defs| - 1], key);
      assert forall i :: 0 <= i < |defs| - 1 ==> defs[..|defs| - 1][i] == defs[i];
      if exists i :: 0 <= i < |defs| && OrderKey(defs[i]) == Some(key) {
        var i :| 0 <= i < |defs| && OrderKey(defs[i]) == Some(key);
        assert i < |defs| - 1 ==> OrderKey(defs[..|defs| - 1][i]) == Some(key);
      }
    }
  }

  /** n strictly increasing numbers below n are 0, 1, ..., n - 1. */
  lemma {:induction false} RanksCount(ranks: seq<int>, i: nat)
    requires forall i, j :: 0 <= i < j < |ranks| ==> ranks[i] < ranks[j]
    requires forall i :: 0 <= i < |ranks| ==> 0 <= ranks[i]
    requires i < |ranks|
    ensures i <= ranks[i] && ranks[i] - i <= ranks[|ranks| - 1] - (|ranks| - 1)
    decreases |ranks|
  {
    if i < |ranks| - 1 {
      var shorter := ranks[..|ranks| - 1];
      RanksCount(shorter, i);
      assert shorter[|shorter| - 1] == ranks[|ranks| - 2];
    } else if i > 0 {
      RanksCount(ranks[..i], i - 1);
    }
  }

  /** With distinct, present keys the two sorts compose to give assignment i to definition i. */
  lemma PlanComplete(defs: seq<Definition>, status: GpuStatus, budget: Option<int>)
    requires AllPresent(defs) && DistinctKeys(AllRequirements(defs))
    ensures var rs, plan := AllRequirements(defs), Schedule(defs, status, budget);
            && |plan.assignments| == |defs|
            && (forall i :: 0 <= i < |defs| ==> plan.assignments[i].agentKey == defs[i].agentKey.value)
            && (PassesPreCheck(rs, budget) ==> forall i :: 0 <= i < |defs| ==> IsOutcome(rs, status, budget, i, plan.assignments[i]))
  {
    hide Run, SortBy, InitialFree, Greedy;
    var rs := AllRequirements(defs);
    if PassesPreCheck(rs, budget) {
      var sorted, run := ByPriority(rs), Greedy(rs, status, budget).assignments;
      GreedyKeys(rs, status, budget);
      var plan := CrewOrder(run, defs);
      OrderedByCrew(defs, rs, sorted, run);
      forall i | 0 <= i < |defs| ensures IsOutcome(rs, status, budget, i, plan[i]) {
        assert plan[i] in run;
        var j :| 0 <= j < |run| && run[j] == plan[i];
        assert sorted[j] in rs;
        var k :| 0 <= k < |rs| && rs[k] == sorted[j];
        assert rs[k].agentKey == rs[i].agentKey;
        assert k == i;
      }
      assert Schedule(defs, status, budget).assignments == plan;
    }
  }

  /** The assignment is what the greedy run gives to agent i when its turn comes. */
  ghost predicate IsOutcome(rs: seq<Requirements>, status: GpuStatus, budget: Option<int>, i: nat, a: Assignment)
    requires i < |rs|
  {
    var run := Greedy(rs, status, budget).assignments;
    exists j :: 0 <= j < |run| && j < |rs| && ByPriority(rs)[j] == rs[i] && run[j] == a
  }

  lemma OrderedByCrew(defs: seq<Definition>, rs: seq<Requirements>, sorted: seq<Requirements>, run: seq<Assignment>)
    requires AllPresent(defs) && rs == AllRequirements(defs) && DistinctKeys(rs)
    requires sorted == ByPriority(rs) && DistinctKeys(sorted)
    requires |run| == |sorted| && forall i :: 0 <= i < |run| ==> run[i].agentKey == sorted[i].agentKey
    ensures forall i :: 0 <= i < |defs| ==> CrewOrder(run, defs)[i].agentKey == defs[i].agentKey.value
  {
    hide SortBy, Rank;
    var rank := (a: Assignment) => Rank(defs, a.agentKey);
    var plan := CrewOrder(run, defs);
    SortSorted(run, rank);
    SortApart(run, rank, (a: Assignment) => a.agentKey);
    var ranks := seq(|plan|, i requires 0 <= i < |plan| => Rank(defs, plan[i].agentKey));
    forall i | 0 <= i < |plan|
      ensures 0 <= ranks[i] < |defs| && defs[ranks[i]].agentKey == Some(plan[i].agentKey)
    {
      assert plan[i] in run;
      var j :| 0 <= j < |run| && run[j] == plan[i];
      assert sorted[j] in rs;
      var k :| 0 <= k < |rs| && rs[k] == sorted[j];
      assert OrderKey(defs[k]) == Some(plan[i].agentKey) by { assert defs[k] in defs; }
      RankOf(defs, plan[i].agentKey);
      assert defs[ranks[i]] in defs;
    }
    forall i, j | 0 <= i < j < |ranks| ensures ranks[i] < ranks[j] {
      assert rank(plan[i]) <= rank(plan[j]);
    }
    forall i | 0 <= i < |defs| ensures plan[i].agentKey == defs[i].agentKey.value {
      RanksCount(ranks, i);
      assert ranks[i] == i;
    }
  }
}
