/** Two-run properties of the scheduler: order under repeated keys, and non-interference between agents. */
module GpuInterference {
  import opened Collections
  import opened GpuScheduler
  import opened OrderedDicts
  import opened GpuBounds
  import opened GpuPlans

  // ------------------------------------------------------- non-interference

  /** The required-and-strict agents of a crew, in crew order. */
  function Criticals(rs: seq<Requirements>): seq<Requirements> {
    Filter(rs, (r: Requirements) => r.Critical())
  }

  /** The priority sort puts exactly the strict agents first, in crew order. */
  lemma CriticalsFirst(rs: seq<Requirements>)
    ensures Criticals(rs) <= ByPriority(rs)
    ensures forall i :: |Criticals(rs)| <= i < |rs| ==> !ByPriority(rs)[i].Critical()
  {
    var key := (r: Requirements) => r.Priority();
    SortSorted(rs, key);
    SortStable(rs, key, 0);
    CriticalsAreKeyZero(rs);
    LeastKeyFirst(ByPriority(rs), key, 0);
  }

  lemma {:induction false} CriticalsAreKeyZero(rs: seq<Requirements>)
    ensures Criticals(rs) == OfKey(rs, (r: Requirements) => r.Priority(), 0)
  {
    if rs != [] {
      CriticalsAreKeyZero(rs[1..]);
    }
  }

  /** The elements of the least key open a sorted sequence. */
  lemma {:induction false} LeastKeyFirst<T(!new)>(s: seq<T>, key: T -> int, k: int)
    requires Sorted(s, key) && forall x :: x in s ==> key(x) >= k
    ensures OfKey(s, key, k) <= s
    ensures forall i :: |OfKey(s, key, k)| <= i < |s| ==> key(s[i]) != k
  {
    if s != [] {
      var y, rest := s[0], s[1..];
      assert s == [y] + rest;
      hide OfKey;
      if key(y) == k {
        LeastKeyFirst(rest, key, k);
        OfKeyCons(y, rest, key, k);
      } else {
        forall x | x in s ensures key(x) != k {
          var i :| 0 <= i < |s| && s[i] == x;
          assert key(s[0]) <= key(s[i]);
        }
        NoneOfKey(s, key, k);
      }
    }
  }

  /** The greedy run starts with the run of the strict agents alone and adds no error to it. */
  lemma CriticalPrefix(rs: seq<Requirements>, status: GpuStatus, budget: Option<int>)
    ensures var alone, all := Run(Start(status, budget), Criticals(rs), status), Greedy(rs, status, budget);
            alone.assignments <= all.assignments && alone.errors == all.errors
  {
    CriticalsFirst(rs);
    var n := |Criticals(rs)|;
    var sorted := ByPriority(rs);
    assert sorted == Criticals(rs) + sorted[n..];
    RunAppend(Start(status, budget), Criticals(rs), sorted[n..], status);
    RunKeys(Run(Start(status, budget), Criticals(rs), status), sorted[n..], status);
    OnlyCriticalsFail(Run(Start(status, budget), Criticals(rs), status), sorted[n..], status);
  }

  /** The assignments under a key, in order; a key may repeat. */
  function Under(assignments: seq<Assignment>, key: string): seq<Assignment> {
    Filter(assignments, (a: Assignment) => a.agentKey == key)
  }

  /** How many of the agents have the key. */
  function Namesakes(rs: seq<Requirements>, key: string): nat {
    |Filter(rs, (r: Requirements) => r.agentKey == key)|
  }

  /** The final sort never reorders the assignments under one key. */
  lemma CrewOrderUnder(run: seq<Assignment>, defs: seq<Definition>, key: string)
    ensures Under(CrewOrder(run, defs), key) == Under(run, key)
  {
    SortFilter(run, (a: Assignment) => Rank(defs, a.agentKey), (a: Assignment) => a.agentKey == key);
  }

  lemma {:induction false} UnderCount(assignments: seq<Assignment>, rs: seq<Requirements>, key: string)
    requires |assignments| == |rs| && forall i :: 0 <= i < |rs| ==> assignments[i].agentKey == rs[i].agentKey
    ensures |Under(assignments, key)| == Namesakes(rs, key)
  {
    if rs != [] {
      UnderCount(assignments[1..], rs[1..], key);
    }
  }

  /** Under every key a plan first lists the outcomes of the strict agents with that key, as if they ran alone. */
  lemma StrictFirst(defs: seq<Definition>, status: GpuStatus, budget: Option<int>, key: string)
    requires PassesPreCheck(AllRequirements(defs), budget)
    ensures var strict := Criticals(AllRequirements(defs));
            var alone := Run(Start(status, budget), strict, status).assignments;
            && |Under(alone, key)| == Namesakes(strict, key)
            && Under(alone, key) <= Under(Schedule(defs, status, budget).assignments, key)
  {
    var rs := AllRequirements(defs);
    hide Run, SortBy, Rank, InitialFree, Filter;
    var alone, run := Run(Start(status, budget), Criticals(rs), status).assignments, Greedy(rs, status, budget).assignments;
    RunKeys(Start(status, budget), Criticals(rs), status);
    assert forall i :: 0 <= i < |alone| ==> alone[0 + i].agentKey == Criticals(rs)[i].agentKey;
    UnderCount(alone, Criticals(rs), key);
    CriticalPrefix(rs, status, budget);
    assert run == alone + run[|alone|..];
    FilterAppend(alone, run[|alone|..], (a: Assignment) => a.agentKey == key);
    CrewOrderUnder(run, defs, key);
  }

  /**
   * Both plans have the same errors and, under every key, the same assignments for the strict agents of the first
   * crew: the first ones under that key, as many as there are strict agents with it.
   */
  ghost predicate SameForStrict(defs: seq<Definition>, other: seq<Definition>, status: GpuStatus, budget: Option<int>) {
    var plan, plan' := Schedule(defs, status, budget), Schedule(other, status, budget);
    plan.errors == plan'.errors && forall key :: SameUnder(plan, plan', key, Namesakes(Criticals(AllRequirements(defs)), key))
  }

  ghost predicate SameUnder(plan: Plan, other: Plan, key: string, n: nat) {
    var mine, theirs := Under(plan.assignments, key), Under(other.assignments, key);
    n <= |mine| && n <= |theirs| && mine[..n] == theirs[..n]
  }

  /**
   * Non-interference: two crews with the same strict agents (in the same order) give each of them the same
   * device, reservation or error, whatever the other agents of either crew are, and whatever keys they have.
   */
  lemma NonInterference(defs: seq<Definition>, other: seq<Definition>, status: GpuStatus, budget: Option<int>)
    requires PassesPreCheck(AllRequirements(defs), budget) && PassesPreCheck(AllRequirements(other), budget)
    requires Criticals(AllRequirements(defs)) == Criticals(AllRequirements(other))
    ensures SameForStrict(defs, other, status, budget)
  {
    hide Run, SortBy, Rank, InitialFree, Filter;
    CriticalPrefix(AllRequirements(defs), status, budget);
    CriticalPrefix(AllRequirements(other), status, budget);
    forall key
      ensures SameUnder(Schedule(defs, status, budget), Schedule(other, status, budget), key,
                        Namesakes(Criticals(AllRequirements(defs)), key))
    {
      StrictFirst(defs, status, budget, key);
      StrictFirst(other, status, budget, key);
    }
  }

  lemma {:induction false} FindFirst(assignments: seq<Assignment>, key: string)
    ensures FindKey(assignments, key) == if Under(assignments, key) == [] then None else Some(Under(assignments, key)[0])
  {
    if assignments != [] {
      FindFirst(assignments[1..], key);
    }
  }

  /** In particular `get_assignment` answers the same for the key of every strict agent. */
  lemma SameAnswers(defs: seq<Definition>, other: seq<Definition>, status: GpuStatus, budget: Option<int>, r: Requirements)
    requires SameForStrict(defs, other, status, budget) && r in Criticals(AllRequirements(defs))
    ensures var plan, plan' := Schedule(defs, status, budget), Schedule(other, status, budget);
            plan.GetAssignment(r.agentKey).Some? && plan.GetAssignment(r.agentKey) == plan'.GetAssignment(r.agentKey)
  {
    hide Schedule, Filter;
    var plan, plan' := Schedule(defs, status, budget), Schedule(other, status, budget);
    var n := Namesakes(Criticals(AllRequirements(defs)), r.agentKey);
    assert r in Filter(Criticals(AllRequirements(defs)), (q: Requirements) => q.agentKey == r.agentKey);
    assert SameUnder(plan, plan', r.agentKey, n);
    FindFirst(plan.assignments, r.agentKey);
    FindFirst(plan'.assignments, r.agentKey);
    assert Under(plan.assignments, r.agentKey)[..n][0] == Under(plan'.assignments, r.agentKey)[..n][0];
  }

  /** The crew without every agent that is not required-and-strict. */
  function CriticalDefs(defs: seq<Definition>): seq<Definition> {
    Filter(defs, (d: Definition) => FromDefinition(d).Critical())
  }

  lemma {:induction false} CriticalDefsRequirements(defs: seq<Definition>)
    ensures AllRequirements(CriticalDefs(defs)) == Criticals(AllRequirements(defs))
  {
    if defs != [] {
      CriticalDefsRequirements(defs[1..]);
      assert AllRequirements(defs)[1..] == AllRequirements(defs[1..]);
    }
  }

  lemma {:induction false} NoCrewBudgetInRun(st: State, rs: seq<Requirements>, status: GpuStatus)
    requires forall n :: n in st.errors ==> n.reason != CrewBudget
    ensures forall n :: n in Run(st, rs, status).errors ==> n.reason != CrewBudget
  {
    if rs != [] {
      NoCrewBudgetInRun(st, rs[..|rs| - 1], status);
    }
  }

  /**
   * Deleting every other agent changes no strict agent's outcome exactly when the strict agents alone pass the
   * pre-check too; they do if nothing declares a negative minimum.
   */
  lemma DeletingOthers(defs: seq<Definition>, status: GpuStatus, budget: Option<int>)
    requires PassesPreCheck(AllRequirements(defs), budget)
    ensures SameForStrict(defs, CriticalDefs(defs), status, budget)
       <==> PassesPreCheck(Criticals(AllRequirements(defs)), budget)
    ensures (forall r :: r in AllRequirements(defs) && r.Wants() ==> r.memoryMinMb >= 0) ==>
              PassesPreCheck(Criticals(AllRequirements(defs)), budget)
  {
    var rs := AllRequirements(defs);
    var strict := Criticals(rs);
    CriticalDefsRequirements(defs);
    if forall r :: r in rs && r.Wants() ==> r.memoryMinMb >= 0 {
      FilterSum(rs, (r: Requirements) => r.Critical(), (r: Requirements) => if r.Wants() then r.memoryMinMb else 0);
      assert Declared(strict) <= Declared(rs);
    }
    if PassesPreCheck(strict, budget) {
      FilterAll(strict, (r: Requirements) => r.Critical());
      NonInterference(defs, CriticalDefs(defs), status, budget);
    } else {
      NoCrewBudgetInRun(Start(status, budget), ByPriority(rs), status);
      assert Schedule(CriticalDefs(defs), status, budget).errors[0] !in Schedule(defs, status, budget).errors;
    }
  }

  // ------------------------------------------------------------- crew order

  /** The keys of a crew's agents, in crew order; "unknown" for a definition without one. */
  function CrewKeys(defs: seq<Definition>): seq<string> {
    RequirementKeys(AllRequirements(defs))
  }

  function RequirementKeys(rs: seq<Requirements>): (keys: seq<string>)
    ensures |keys| == |rs| && forall i :: 0 <= i < |rs| ==> keys[i] == rs[i].agentKey
  {
    seq(|rs|, i requires 0 <= i < |rs| => rs[i].agentKey)
  }

  function PlanKeys(plan: Plan): seq<string> { AssignmentKeys(plan.assignments) }

  function AssignmentKeys(assignments: seq<Assignment>): (keys: seq<string>)
    ensures |keys| == |assignments| && forall i :: 0 <= i < |assignments| ==> keys[i] == assignments[i].agentKey
  {
    seq(|assignments|, i requires 0 <= i < |assignments| => assignments[i].agentKey)
  }

  function RankOfKey(defs: seq<Definition>): string -> int { (k: string) => Rank(defs, k) }

  /** The agents of rank 999, the one `key_order` gives to a key it does not have. */
  function Last(defs: seq<Definition>): seq<Requirements> {
    OfKey(AllRequirements(defs), (r: Requirements) => Rank(defs, r.agentKey), 999)
  }

  /**
   * What the final sort needs: ranks do not fall along the crew, and serving the agents of rank 999 by priority
   * leaves their keys as they stand.
   */
  ghost predicate InRankOrder(defs: seq<Definition>) {
    && Sorted(CrewKeys(defs), RankOfKey(defs))
    && RequirementKeys(ByPriority(Last(defs))) == RequirementKeys(Last(defs))
  }

  lemma RequirementKeysCons(r: Requirements, rs: seq<Requirements>)
    ensures RequirementKeys([]) == [] && RequirementKeys([r] + rs) == [r.agentKey] + RequirementKeys(rs)
  {
  }

  lemma {:induction false} RequirementKeysOf(rs: seq<Requirements>, rank: string -> int, f: Requirements -> int, v: int)
    requires forall r :: f(r) == rank(r.agentKey)
    ensures OfKey(RequirementKeys(rs), rank, v) == RequirementKeys(OfKey(rs, f, v))
  {
    hide OfKey, RequirementKeys;
    if rs == [] {
      NoneOfKey(rs, f, v);
      NoneOfKey(RequirementKeys(rs), rank, v);
    } else {
      var r, rest := rs[0], rs[1..];
      assert rs == [r] + rest;
      RequirementKeysOf(rest, rank, f, v);
      RequirementKeysCons(r, rest);
      RequirementKeysCons(r, OfKey(rest, f, v));
      OfKeyCons(r.agentKey, RequirementKeys(rest), rank, v);
      OfKeyCons(r, rest, f, v);
      JoinPick(f(r) == v, r, OfKey(rest, f, v));
      JoinPick(f(r) == v, r.agentKey, RequirementKeys(OfKey(rest, f, v)));
    }
  }

  lemma AssignmentKeysCons(a: Assignment, s: seq<Assignment>)
    ensures AssignmentKeys([]) == [] && AssignmentKeys([a] + s) == [a.agentKey] + AssignmentKeys(s)
  {
  }

  lemma {:induction false} AssignmentKeysOf(s: seq<Assignment>, rank: string -> int, f: Assignment -> int, v: int)
    requires forall a :: f(a) == rank(a.agentKey)
    ensures OfKey(AssignmentKeys(s), rank, v) == AssignmentKeys(OfKey(s, f, v))
  {
    hide OfKey, AssignmentKeys;
    if s == [] {
      NoneOfKey(s, f, v);
      NoneOfKey(AssignmentKeys(s), rank, v);
    } else {
      var a, rest := s[0], s[1..];
      assert s == [a] + rest;
      AssignmentKeysOf(rest, rank, f, v);
      AssignmentKeysCons(a, rest);
      AssignmentKeysCons(a, OfKey(rest, f, v));
      OfKeyCons(a.agentKey, AssignmentKeys(rest), rank, v);
      OfKeyCons(a, rest, f, v);
      JoinPick(f(a) == v, a, OfKey(rest, f, v));
      JoinPick(f(a) == v, a.agentKey, AssignmentKeys(OfKey(rest, f, v)));
    }
  }

  /** Within one rank the plan lists the keys as the priority sort does. */
  lemma PlanKeysOfRank(defs: seq<Definition>, status: GpuStatus, budget: Option<int>, v: int)
    requires PassesPreCheck(AllRequirements(defs), budget)
    ensures var group := OfKey(AllRequirements(defs), (r: Requirements) => Rank(defs, r.agentKey), v);
            && OfKey(PlanKeys(Schedule(defs, status, budget)), RankOfKey(defs), v) == RequirementKeys(ByPriority(group))
            && OfKey(CrewKeys(defs), RankOfKey(defs), v) == RequirementKeys(group)
  {
    hide Run, SortBy, OfKey, Rank, InitialFree;
    var rs, rank := AllRequirements(defs), RankOfKey(defs);
    var ofReq, ofAssign := (r: Requirements) => Rank(defs, r.agentKey), (a: Assignment) => Rank(defs, a.agentKey);
    var served, run := ByPriority(rs), Greedy(rs, status, budget).assignments;
    GreedyKeys(rs, status, budget);
    assert AssignmentKeys(run) == RequirementKeys(served);
    SortStable(run, ofAssign, v);
    SortAmong(rs, (r: Requirements) => r.Priority(), ofReq, v);
    AssignmentKeysOf(CrewOrder(run, defs), rank, ofAssign, v);
    AssignmentKeysOf(run, rank, ofAssign, v);
    RequirementKeysOf(served, rank, ofReq, v);
    RequirementKeysOf(rs, rank, ofReq, v);
  }

  /** Agents that share their key can be served in any order without changing the list of keys. */
  lemma SameKeySorted(group: seq<Requirements>)
    requires forall r, q :: r in group && q in group ==> r.agentKey == q.agentKey
    ensures RequirementKeys(ByPriority(group)) == RequirementKeys(group)
  {
    hide SortBy;
    forall i | 0 <= i < |group| ensures ByPriority(group)[i].agentKey == group[i].agentKey {
      assert ByPriority(group)[i] in group && group[i] in group;
    }
  }

  /** A rank other than 999 belongs to one key. */
  lemma OneKeyPerRank(defs: seq<Definition>, v: int)
    requires v != 999
    ensures var group := OfKey(AllRequirements(defs), (r: Requirements) => Rank(defs, r.agentKey), v);
            RequirementKeys(ByPriority(group)) == RequirementKeys(group)
  {
    hide Rank, OfKey, SortBy;
    var group := OfKey(AllRequirements(defs), (r: Requirements) => Rank(defs, r.agentKey), v);
    forall r, q | r in group && q in group ensures r.agentKey == q.agentKey {
      RankOf(defs, r.agentKey);
      RankOf(defs, q.agentKey);
    }
    SameKeySorted(group);
  }

  /**
   * The final re-sort restores crew order, by key, exactly when ranks do not fall along the crew and the agents of
   * rank 999 stand in priority order by key: `key_order` keeps only the last position of a repeated key, and
   * gives 999 to the key of an agent it did not file.
   */
  lemma CrewOrderExactly(defs: seq<Definition>, status: GpuStatus, budget: Option<int>)
    requires PassesPreCheck(AllRequirements(defs), budget)
    ensures PlanKeys(Schedule(defs, status, budget)) == CrewKeys(defs) <==> InRankOrder(defs)
  {
    var planKeys, keys, rank := PlanKeys(Schedule(defs, status, budget)), CrewKeys(defs), RankOfKey(defs);
    var run := Greedy(AllRequirements(defs), status, budget).assignments;
    hide Run, SortBy, OfKey, Rank, InitialFree, Greedy;
    SortSorted(run, (a: Assignment) => Rank(defs, a.agentKey));
    assert Sorted(planKeys, rank);
    PlanKeysOfRank(defs, status, budget, 999);
    if InRankOrder(defs) {
      forall v ensures OfKey(planKeys, rank, v) == OfKey(keys, rank, v) {
        PlanKeysOfRank(defs, status, budget, v);
        if v != 999 { OneKeyPerRank(defs, v); }
      }
      StableSortUnique(planKeys, keys, rank);
    }
  }

  /** With a key in every definition, or at most 999 of them, the agents of rank 999 share one key. */
  lemma RanksDecide(defs: seq<Definition>)
    requires AllPresent(defs) || |defs| <= 999
    ensures InRankOrder(defs) <==> Sorted(CrewKeys(defs), RankOfKey(defs))
  {
    hide Rank, OfKey, SortBy;
    forall r, q | r in Last(defs) && q in Last(defs) ensures r.agentKey == q.agentKey {
      LastKey(defs, r);
      LastKey(defs, q);
    }
    SameKeySorted(Last(defs));
  }

  lemma LastKey(defs: seq<Definition>, r: Requirements)
    requires AllPresent(defs) || |defs| <= 999
    requires r in AllRequirements(defs) && Rank(defs, r.agentKey) == 999
    ensures if AllPresent(defs) then |defs| > 999 && OrderKey(defs[999]) == Some(r.agentKey) else r.agentKey == "unknown"
  {
    hide Rank;
    RankOf(defs, r.agentKey);
    var i :| 0 <= i < |defs| && AllRequirements(defs)[i] == r;
    if defs[i].agentKey.Some? {
      assert OrderKey(defs[i]) == Some(r.agentKey);
    } else {
      assert defs[i] in defs;
    }
  }

  ghost predicate RepeatsAdjacent(keys: seq<string>) {
    forall i, j, k :: 0 <= i < j < k < |keys| && keys[i] == keys[k] ==> keys[j] == keys[i]
  }

  /** Among present keys the rank of a key is its last position. */
  lemma RankIsLast(defs: seq<Definition>, i: nat)
    requires AllPresent(defs) && i < |defs|
    ensures var keys := CrewKeys(defs);
            var r := Rank(defs, keys[i]);
            i <= r < |keys| && keys[r] == keys[i]
  {
    hide Rank;
    RankOf(defs, CrewKeys(defs)[i]);
    assert OrderKey(defs[i]) == Some(CrewKeys(defs)[i]) by { assert defs[i] in defs; }
    assert defs[Rank(defs, CrewKeys(defs)[i])] in defs;
  }

  lemma AdjacentMeansRanked(defs: seq<Definition>)
    requires AllPresent(defs)
    ensures RepeatsAdjacent(CrewKeys(defs)) <==> Sorted(CrewKeys(defs), RankOfKey(defs))
  {
    hide Rank;
    var keys, rank := CrewKeys(defs), RankOfKey(defs);
    forall i | 0 <= i < |keys| ensures i <= rank(keys[i]) < |keys| && keys[rank(keys[i])] == keys[i] {
      RankIsLast(defs, i);
    }
    if RepeatsAdjacent(keys) {
      forall i, j | 0 <= i < j < |keys| ensures rank(keys[i]) <= rank(keys[j]) {
        assert keys[rank(keys[i])] == keys[i] && j <= rank(keys[j]);
      }
    }
    if Sorted(keys, rank) {
      forall i, j, k | 0 <= i < j < k < |keys| && keys[i] == keys[k] ensures keys[j] == keys[i] {
        assert rank(keys[i]) <= rank(keys[j]) <= rank(keys[k]);
        assert rank(keys[j]) == rank(keys[i]);
      }
    }
  }

  /** With a key in every definition crew order is restored exactly when repeated keys are adjacent. */
  lemma CrewOrderPresent(defs: seq<Definition>, status: GpuStatus, budget: Option<int>)
    requires AllPresent(defs) && PassesPreCheck(AllRequirements(defs), budget)
    ensures PlanKeys(Schedule(defs, status, budget)) == CrewKeys(defs) <==> RepeatsAdjacent(CrewKeys(defs))
  {
    hide Rank, Schedule;
    CrewOrderExactly(defs, status, budget);
    RanksDecide(defs);
    AdjacentMeansRanked(defs);
  }
}
