/**
 * What the scheduler does, told from the fields of the agents and the figures of the devices alone: how a
 * definition is read, who is served first, what a turn comes to, and when the whole crew is turned away.
 */
module GpuTurns {
  import opened Collections
  import opened Decimal
  import opened OrderedDicts
  import opened GpuScheduler
  import opened GpuBounds
  import opened GpuPlans
  import opened GpuInterference

  // ------------------------------------------------------- reading definitions

  predicate SaysYes(own: Option<bool>, meta: Option<bool>) { own == Some(true) || (own == None && meta == Some(true)) }

  /** A field of the definition itself wins over its metadata; what neither has is off, 0 or "unknown". */
  lemma DefinitionRead(d: Definition)
    ensures var r := FromDefinition(d);
            && (r.required <==> SaysYes(d.fields.required, d.metadata.required))
            && (r.strict <==> SaysYes(d.fields.strict, d.metadata.strict))
            && (r.preferred <==> SaysYes(d.fields.preferred, d.metadata.preferred))
            && (d.fields.memoryMinMb.Some? ==> d.fields.memoryMinMb == Some(r.memoryMinMb))
            && (d.fields.memoryMinMb.None? && d.metadata.memoryMinMb.Some? ==> d.metadata.memoryMinMb == Some(r.memoryMinMb))
            && (d.fields.memoryMinMb.None? && d.metadata.memoryMinMb.None? ==> r.memoryMinMb == 0)
            && (d.agentKey == Some(r.agentKey) || (d.agentKey == None && r.agentKey == "unknown"))
  {
  }

  // ------------------------------------------------------------ who goes first

  /** Strict agents come before the rest, required ones before the rest, and those that want a GPU before the rest. */
  lemma ServingOrder(rs: seq<Requirements>, i: nat, j: nat)
    requires i < j < |rs|
    ensures var s := ByPriority(rs);
            && (s[j].required && s[j].strict ==> s[i].required && s[i].strict)
            && (s[j].required ==> s[i].required)
            && (s[j].required || s[j].preferred ==> s[i].required || s[i].preferred)
  {
    SortSorted(rs, (r: Requirements) => r.Priority());
    hide SortBy;
    var key := (r: Requirements) => r.Priority();
    assert key(ByPriority(rs)[i]) <= key(ByPriority(rs)[j]);
  }

  /** The agents that are strict or not, required or not, and want a GPU or not, as told. */
  function Class(strict: bool, required: bool, wants: bool): Requirements -> bool {
    (r: Requirements) =>
      (r.required && r.strict) == strict && r.required == required && (r.required || r.preferred) == wants
  }

  /** Agents alike in that are served in crew order. */
  lemma ServingStable(rs: seq<Requirements>, strict: bool, required: bool, wants: bool)
    ensures Filter(ByPriority(rs), Class(strict, required, wants)) == Filter(rs, Class(strict, required, wants))
  {
    SortFilter(rs, (r: Requirements) => r.Priority(), Class(strict, required, wants));
  }

  // -------------------------------------------------------------- one turn

  /** The first device listed under the index gives its name. */
  lemma {:induction false} NameMeans(devices: seq<Device>, i: nat)
    requires i < |devices| && forall j :: 0 <= j < i ==> devices[j].index != devices[i].index
    ensures DeviceName(devices, devices[i].index) == devices[i].name
  {
    if i > 0 {
      NameMeans(devices[1..], i - 1);
    }
  }

  predicate HasRoom(t: FreeTable, minimum: int) { exists p :: 0 <= p < |t| && t[p].value >= minimum }

  /** p is the first of the devices with the most free memory. */
  ghost predicate FirstOfMost(t: FreeTable, p: nat) {
    && p < |t| && (forall q :: 0 <= q < |t| ==> t[q].value <= t[p].value)
    && forall q :: 0 <= q < p ==> t[q].value < t[p].value
  }

  function Needed(r: Requirements): int { if r.memoryMinMb >= 1 then r.memoryMinMb else 1 }

  /** Turned down for want of a GPU, of memory on any device, or of budget, in this order. */
  function WhyNot(st: State, r: Requirements, status: GpuStatus): Option<Reason> {
    if !status.available || |st.free| == 0 then Some(NoGpu)
    else if !HasRoom(st.free, r.memoryMinMb) then Some(NoMemory)
    else if st.budget.Some? && st.budget.value < Needed(r) then Some(OverBudget)
    else None
  }

  /** An agent that wants no GPU runs on CPU, unmentioned. */
  lemma UnwantedTurn(st: State, r: Requirements, status: GpuStatus)
    requires !r.required && !r.preferred
    ensures Advance(st, r, status) == st.(assignments := st.assignments + [Assignment(r.agentKey, -1, "", 0, "")])
  {
  }

  /** One that is turned down runs on CPU: an error if it is required and strict, a warning otherwise. */
  lemma RefusedTurn(st: State, r: Requirements, status: GpuStatus)
    requires (r.required || r.preferred) && WhyNot(st, r, status).Some?
    ensures var note, next := Note(r.agentKey, WhyNot(st, r, status).value), Advance(st, r, status);
            && next.free == st.free && next.budget == st.budget
            && next.assignments == st.assignments + [Assignment(r.agentKey, -1, "", 0, "")]
            && next.errors == st.errors + (if r.required && r.strict then [note] else [])
            && next.warnings == st.warnings + (if r.required && r.strict then [] else [note])
  {
  }

  /** One that is not takes what it needs from the first device with the most free memory, and from the budget. */
  lemma PlacedTurn(st: State, r: Requirements, status: GpuStatus, p: nat)
    requires (r.required || r.preferred) && WhyNot(st, r, status).None? && FirstOfMost(st.free, p)
    ensures var next, device := Advance(st, r, status), st.free[p].key;
            && next.free == st.free[p := Entry(device, st.free[p].value - Needed(r))]
            && next.errors == st.errors && next.warnings == st.warnings
            && |next.assignments| == |st.assignments| + 1 && st.assignments <= next.assignments
            && var a := next.assignments[|st.assignments|];
               && a.agentKey == r.agentKey && a.deviceIndex == device && a.memoryReservedMb == Needed(r)
               && a.deviceName == DeviceName(status.devices, device)
               && (device >= 0 ==> AllDigits(a.cudaVisibleDevices) && Value(a.cudaVisibleDevices) == device)
               && (device >= 0 ==> next.budget == if st.budget.None? then None else Some(st.budget.value - Needed(r)))
  {
    assert FirstMax(st.free) == p;
    if st.free[p].key >= 0 { ValueOfPrint(st.free[p].key); }
  }

  // ----------------------------------------------------------- the pre-check

  /** What counts towards the pre-check: the declarations of the agents that want a GPU. */
  lemma DeclaredSum(rs: seq<Requirements>, r: Requirements)
    ensures Declared([]) == 0
    ensures Declared(rs + [r]) == Declared(rs) + if r.required || r.preferred then r.memoryMinMb else 0
  {
    SumSnoc(rs, r, (r: Requirements) => if r.Wants() then r.memoryMinMb else 0);
  }

  /** A positive budget below that turns the crew away: everybody on CPU in crew order, one error, no warning. */
  lemma TurnedAway(defs: seq<Definition>, status: GpuStatus, budget: Option<int>)
    requires budget.Some? && 0 < budget.value < Declared(AllRequirements(defs))
    ensures var plan := Schedule(defs, status, budget);
            && |plan.assignments| == |defs| && plan.warnings == [] && plan.errors == [Note("", CrewBudget)]
            && forall i :: 0 <= i < |defs| ==>
                 plan.assignments[i] == Assignment(FromDefinition(defs[i]).agentKey, -1, "", 0, "")
  {
  }

  /** Nothing else does. */
  lemma TurnedAwayExactly(defs: seq<Definition>, status: GpuStatus, budget: Option<int>)
    ensures (exists n :: n in Schedule(defs, status, budget).errors && n.reason == CrewBudget)
       <==> budget.Some? && 0 < budget.value < Declared(AllRequirements(defs))
  {
    hide Run, SortBy, InitialFree, Declared;
    if budget.Some? && 0 < budget.value < Declared(AllRequirements(defs)) {
      TurnedAway(defs, status, budget);
      assert Note("", CrewBudget) in Schedule(defs, status, budget).errors;
    } else {
      NoCrewBudgetInRun(Start(status, budget), ByPriority(AllRequirements(defs)), status);
    }
  }

  /** A budget that is not positive is none. */
  lemma NoBudget(defs: seq<Definition>, status: GpuStatus, budget: int)
    requires budget <= 0
    ensures Schedule(defs, status, Some(budget)) == Schedule(defs, status, None)
  {
  }

  // ----------------------------------------------------------- the final order

  /** Position of the last definition filed under a key; a keyless object is filed under the empty one. */
  lemma RankMeans(defs: seq<Definition>, key: string, i: nat)
    requires i < |defs|
    requires defs[i].agentKey == Some(key) || (key == "" && defs[i].agentKey == None && !defs[i].isDict)
    requires forall j :: i < j < |defs| ==>
               defs[j].agentKey != Some(key) && (key == "" ==> defs[j].agentKey.Some? || defs[j].isDict)
    ensures Rank(defs, key) == i
  {
    RankOf(defs, key);
    assert OrderKey(defs[i]) == Some(key);
  }

  lemma UnfiledRank(defs: seq<Definition>, key: string)
    requires forall j :: 0 <= j < |defs| ==>
               defs[j].agentKey != Some(key) && (key == "" ==> defs[j].agentKey.Some? || defs[j].isDict)
    ensures Rank(defs, key) == 999
  {
    RankOf(defs, key);
  }

  // ----------------------------------------------------- one device, one agent

  lemma {:induction false} FirstOfFilter<T(!new)>(s: seq<T>, p: T -> bool, i: nat)
    requires i < |s| && p(s[i]) && forall j :: 0 <= j < i ==> !p(s[j])
    ensures Filter(s, p) != [] && Filter(s, p)[0] == s[i]
  {
    if i > 0 {
      FirstOfFilter(s[1..], p, i - 1);
    }
  }

  /** No agent of the crew is better than agent i, which wants a GPU, and none before it is as good. */
  ghost predicate FirstInLine(rs: seq<Requirements>, i: nat) {
    && i < |rs| && (rs[i].required || rs[i].preferred)
    && (forall r :: r in rs && r.required ==> rs[i].required && (r.strict ==> rs[i].strict))
    && forall j :: 0 <= j < i ==> !Class(rs[i].required && rs[i].strict, rs[i].required, true)(rs[j])
  }

  /** Who is first in line is served first. */
  lemma ServedFirst(rs: seq<Requirements>, i: nat)
    requires FirstInLine(rs, i)
    ensures ByPriority(rs)[0] == rs[i]
  {
    var s, strict := ByPriority(rs), rs[i].required && rs[i].strict;
    var alike := Class(strict, rs[i].required, true);
    hide SortBy, Filter;
    assert rs[i] in s && s[0] in rs by { assert rs[i] in rs; assert s[0] in s; }
    var k :| 0 <= k < |s| && s[k] == rs[i];
    if k > 0 { ServingOrder(rs, 0, k); }
    assert alike(s[0]) && alike(rs[i]);
    ServingStable(rs, strict, rs[i].required, true);
    FirstOfFilter(s, alike, 0);
    FirstOfFilter(rs, alike, i);
  }

  lemma NoSeatLeft(st: State, r: Requirements, status: GpuStatus)
    requires |st.free| == 1 && (r.required || r.preferred ==> r.memoryMinMb > st.free[0].value)
    ensures var next := Advance(st, r, status);
            && next.free == st.free && |next.assignments| == |st.assignments| + 1
            && st.assignments == next.assignments[..|st.assignments|]
            && next.assignments[|st.assignments|].deviceIndex == -1
  {
  }

  /** On one device that is half full or more after its first agent, everybody else stays on CPU. */
  lemma {:induction false} OthersOnCpu(st: State, rs: seq<Requirements>, status: GpuStatus)
    requires |st.free| == 1 && forall r :: r in rs && (r.required || r.preferred) ==> r.memoryMinMb > st.free[0].value
    ensures var end := Run(st, rs, status);
            && end.free == st.free && |end.assignments| == |st.assignments| + |rs| && st.assignments <= end.assignments
            && forall k :: |st.assignments| <= k < |end.assignments| ==> end.assignments[k].deviceIndex == -1
  {
    hide Advance;
    if rs != [] {
      var n := |rs| - 1;
      OthersOnCpu(st, rs[..n], status);
      assert rs[n] in rs && forall r :: r in rs[..n] ==> r in rs;
      NoSeatLeft(Run(st, rs[..n], status), rs[n], status);
    }
  }

  /** The one GPU assignment of a run is the one of its plan. */
  lemma OneGpuAgent(run: seq<Assignment>, defs: seq<Definition>)
    requires run != [] && run[0].deviceIndex >= 0 && forall k :: 0 < k < |run| ==> run[k].deviceIndex == -1
    ensures Filter(CrewOrder(run, defs), (a: Assignment) => a.IsGpu()) == [run[0]]
  {
    var it, gpu := (a: Assignment) => a == run[0], (a: Assignment) => a.IsGpu();
    SortFilter(run, (a: Assignment) => Rank(defs, a.agentKey), it);
    hide SortBy, Rank;
    assert forall a :: a in run ==> it(a) == gpu(a);
    FilterAlike(run, it, gpu);
    FilterAlike(CrewOrder(run, defs), it, gpu);
    assert run == [run[0]] + run[1..];
    FilterCons(run[0], run[1..], gpu);
    FilterNone(run[1..], gpu);
  }

  lemma {:induction false} FilterAlike<T(!new)>(s: seq<T>, p: T -> bool, q: T -> bool)
    requires forall x :: x in s ==> p(x) == q(x)
    ensures Filter(s, p) == Filter(s, q)
  {
    if s != [] { FilterAlike(s[1..], p, q); }
  }

  lemma {:induction false} FilterNone<T(!new)>(s: seq<T>, p: T -> bool)
    requires forall x :: x in s ==> !p(x)
    ensures Filter(s, p) == []
  {
    if s != [] { FilterNone(s[1..], p); }
  }

  /**
   * One device that holds one agent only, and no budget: it goes to the first strict agent of the crew, or to its
   * first required one if none is strict, or to its first preferred one if none is required; and everybody else is
   * on CPU.
   */
  lemma OneSeat(defs: seq<Definition>, name: string, free: int, i: nat)
    requires FirstInLine(AllRequirements(defs), i)
    requires forall r :: r in AllRequirements(defs) && (r.required || r.preferred) ==> 0 < r.memoryMinMb <= free < 2 * r.memoryMinMb
    ensures var r, host := AllRequirements(defs)[i], GpuStatus(true, [Device(0, name, free)]);
            Schedule(defs, host, None).GpuAgents() == [Assignment(r.agentKey, 0, name, r.memoryMinMb, "0")]
  {
    var rs, host := AllRequirements(defs), GpuStatus(true, [Device(0, name, free)]);
    var s, start := ByPriority(rs), Start(host, None);
    ServedFirst(rs, i);
    assert rs[i] in rs;
    SeatTaken(rs[i], host, name, free);
    hide SortBy, Rank, InitialFree, Filter;
    assert s == [s[0]] + s[1..];
    RunAppend(start, [s[0]], s[1..], host);
    var after := Run(start, [s[0]], host);
    forall r | r in s[1..] && (r.required || r.preferred) ensures r.memoryMinMb > after.free[0].value {
      assert r in s;
    }
    OthersOnCpu(after, s[1..], host);
    OneGpuAgent(Greedy(rs, host, None).assignments, defs);
  }

  lemma SeatTaken(r: Requirements, host: GpuStatus, name: string, free: int)
    requires host == GpuStatus(true, [Device(0, name, free)]) && (r.required || r.preferred) && 0 < r.memoryMinMb <= free
    ensures var after := Run(Start(host, None), [r], host);
            && after.free == [Entry(0, free - r.memoryMinMb)]
            && after.assignments == [Assignment(r.agentKey, 0, name, r.memoryMinMb, "0")]
  {
    assert SetAll([Device(0, name, free)][..0]) == [];
    assert InitialFree(host) == [Entry(0, free)];
    assert [r][..0] == [];
    assert Run(Start(host, None), [r], host) == Advance(Start(host, None), r, host);
    assert PrintInt(0) == "0";
  }
}
