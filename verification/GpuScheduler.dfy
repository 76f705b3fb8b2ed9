/**
 * config/gpu_scheduler.py: the placement plan of one crew.
 *
 * The greedy allocator is specified by `Decide` (which device, or why none),
 * `Advance` (one agent) and `Run` (a list of agents); the methods at the end
 * are the program itself and are proved to compute that specification.
 */
module GpuScheduler {
  import opened Collections
  import opened Decimal
  import opened OrderedDicts

  // ------------------------------------------------------------ data model

  /** The four GPU keys of a definition, each possibly absent. */
  datatype Fields = Fields(required: Option<bool>, strict: Option<bool>,
                           memoryMinMb: Option<int>, preferred: Option<bool>)

  /** An agent definition: a dict or an AgentDefinition object. */
  datatype Definition = Definition(isDict: bool, agentKey: Option<string>, fields: Fields, metadata: Fields)

  datatype Requirements = Requirements(agentKey: string, required: bool, strict: bool,
                                       memoryMinMb: int, preferred: bool)
  {
    predicate Wants() { required || preferred }

    predicate Critical() { required && strict }

    /** The amount a placed agent reserves: its minimum, or a nominal 1 MB. */
    function Effective(): int { if memoryMinMb > 0 then memoryMinMb else 1 }

    function Priority(): int {
      if required && strict then 0 else if required then 1 else if preferred then 2 else 3
    }
  }

  datatype Device = Device(index: int, name: string, memoryFreeMb: int)

  datatype GpuStatus = GpuStatus(available: bool, devices: seq<Device>)

  datatype Assignment = Assignment(agentKey: string, deviceIndex: int, deviceName: string,
                                   memoryReservedMb: int, cudaVisibleDevices: string)
  {
    predicate IsGpu() { deviceIndex >= 0 }
  }

  /** Why an agent that wants a GPU runs on CPU, or why the whole crew does. */
  datatype Reason = NoGpu | NoMemory | OverBudget | CrewBudget

  datatype Note = Note(agentKey: string, reason: Reason)

  /** The `device_free` dict: free memory by device index. */
  type FreeTable = Dict<int, int>

  datatype Plan = Plan(assignments: seq<Assignment>, warnings: seq<Note>, errors: seq<Note>)
  {
    predicate HasErrors() { errors != [] }

    function GpuAgents(): seq<Assignment> { Filter(assignments, (a: Assignment) => a.IsGpu()) }

    function GetAssignment(agentKey: string): Option<Assignment> { FindKey(assignments, agentKey) }
  }

  function FindKey(assignments: seq<Assignment>, agentKey: string): Option<Assignment> {
    if assignments == [] then None
    else if assignments[0].agentKey == agentKey then Some(assignments[0])
    else FindKey(assignments[1..], agentKey)
  }

  // --------------------------------------------------------- specification

  function FromDefinition(d: Definition): Requirements {
    Requirements(OrElse(d.agentKey, "unknown"),
                 OrElse(d.fields.required, OrElse(d.metadata.required, false)),
                 OrElse(d.fields.strict, OrElse(d.metadata.strict, false)),
                 OrElse(d.fields.memoryMinMb, OrElse(d.metadata.memoryMinMb, 0)),
                 OrElse(d.fields.preferred, OrElse(d.metadata.preferred, false)))
  }

  function AllRequirements(defs: seq<Definition>): (rs: seq<Requirements>)
    ensures |rs| == |defs|
    ensures forall i :: 0 <= i < |defs| ==> rs[i] == FromDefinition(defs[i])
  {
    seq(|defs|, i requires 0 <= i < |defs| => FromDefinition(defs[i]))
  }

  function CpuAssignment(agentKey: string): Assignment { Assignment(agentKey, -1, "", 0, "") }

  /** `device_free[dev.index] = dev.memory_free_mb` for every device. */
  function SetAll(devices: seq<Device>): FreeTable {
    if devices == [] then []
    else
      var d := devices[|devices| - 1];
      Set(SetAll(devices[..|devices| - 1]), d.index, d.memoryFreeMb)
  }

  function InitialFree(status: GpuStatus): FreeTable {
    if status.available then SetAll(status.devices) else []
  }

  /** The first of the devices with the most free memory. */
  function FirstMax(t: FreeTable): (p: nat)
    requires t != []
    ensures p < |t|
    ensures forall i :: 0 <= i < |t| ==> t[i].value <= t[p].value
    ensures forall i :: 0 <= i < p ==> t[i].value < t[p].value
  {
    if |t| == 1 then 0
    else
      var p := FirstMax(t[..|t| - 1]);
      assert forall i :: 0 <= i < |t| - 1 ==> t[..|t| - 1][i] == t[i];
      if t[|t| - 1].value > t[p].value then |t| - 1 else p
  }

  datatype Verdict = Unwanted | Refused(reason: Reason) | Placed(slot: nat)

  /** Where one agent goes, given the free table and the remaining crew budget. */
  function Decide(r: Requirements, available: bool, t: FreeTable, budget: Option<int>): (v: Verdict)
    ensures v.Placed? ==> v.slot < |t|
  {
    if !r.Wants() then Unwanted
    else if !available || t == [] then Refused(NoGpu)
    else if t[FirstMax(t)].value < r.memoryMinMb then Refused(NoMemory)
    else if budget.Some? && r.Effective() > budget.value then Refused(OverBudget)
    else Placed(FirstMax(t))
  }

  function DeviceName(devices: seq<Device>, index: int): string {
    if devices == [] then ""
    else if devices[0].index == index then devices[0].name
    else DeviceName(devices[1..], index)
  }

  datatype State = State(free: FreeTable, budget: Option<int>, assignments: seq<Assignment>,
                         warnings: seq<Note>, errors: seq<Note>)

  function Advance(st: State, r: Requirements, status: GpuStatus): State {
    match Decide(r, status.available, st.free, st.budget)
    case Unwanted => st.(assignments := st.assignments + [CpuAssignment(r.agentKey)])
    case Refused(why) =>
      var note := Note(r.agentKey, why);
      st.(assignments := st.assignments + [CpuAssignment(r.agentKey)],
          warnings := if r.Critical() then st.warnings else st.warnings + [note],
          errors := if r.Critical() then st.errors + [note] else st.errors)
    case Placed(p) =>
      var Entry(index, free) := st.free[p];
      var a := Assignment(r.agentKey, index, DeviceName(status.devices, index), r.Effective(), PrintInt(index));
      st.(free := st.free[p := Entry(index, free - r.Effective())],
          budget := if st.budget.Some? && a.IsGpu() then Some(st.budget.value - r.Effective()) else st.budget,
          assignments := st.assignments + [a])
  }

  function Run(st: State, rs: seq<Requirements>, status: GpuStatus): State {
    if rs == [] then st else Advance(Run(st, rs[..|rs| - 1], status), rs[|rs| - 1], status)
  }

  /** `None` and non-positive budgets mean "no budget". */
  function Limit(budget: Option<int>): Option<int> {
    if budget.Some? && budget.value > 0 then budget else None
  }

  function Declared(rs: seq<Requirements>): int {
    SumBy(rs, (r: Requirements) => if r.Wants() then r.memoryMinMb else 0)
  }

  predicate PassesPreCheck(rs: seq<Requirements>, budget: Option<int>) {
    Limit(budget).Some? ==> Declared(rs) <= budget.value
  }

  function ByPriority(rs: seq<Requirements>): seq<Requirements> {
    SortBy(rs, (r: Requirements) => r.Priority())
  }

  function Start(status: GpuStatus, budget: Option<int>): State {
    State(InitialFree(status), Limit(budget), [], [], [])
  }

  function Greedy(rs: seq<Requirements>, status: GpuStatus, budget: Option<int>): State {
    Run(Start(status, budget), ByPriority(rs), status)
  }

  /** The key under which `key_order` files definition `d`; it is not the key of its assignment when absent. */
  function OrderKey(d: Definition): Option<string> {
    if d.agentKey.None? && !d.isDict then Some("") else d.agentKey
  }

  /** `key_order.get(key, 999)`: the last definition filed under the key. */
  function Rank(defs: seq<Definition>, agentKey: string): int {
    if defs == [] then 999
    else if OrderKey(defs[|defs| - 1]) == Some(agentKey) then |defs| - 1
    else Rank(defs[..|defs| - 1], agentKey)
  }

  function CrewOrder(assignments: seq<Assignment>, defs: seq<Definition>): seq<Assignment> {
    SortBy(assignments, (a: Assignment) => Rank(defs, a.agentKey))
  }

  function AllOnCpu(rs: seq<Requirements>): seq<Assignment> {
    seq(|rs|, i requires 0 <= i < |rs| => CpuAssignment(rs[i].agentKey))
  }

  /** The plan `schedule_crew_gpus` returns. */
  function Schedule(defs: seq<Definition>, status: GpuStatus, budget: Option<int>): Plan {
    var rs := AllRequirements(defs);
    if !PassesPreCheck(rs, budget) then
      Plan(AllOnCpu(rs), [], [Note("", CrewBudget)])
    else
      var end := Greedy(rs, status, budget);
      Plan(CrewOrder(end.assignments, defs), end.warnings, end.errors)
  }

  // ------------------------------------------------------------ the program

  /** The `device_free` dict shared between the loop and `_assign_device`. */
  class DeviceFree {
    var slots: FreeTable

    constructor (status: GpuStatus)
      ensures slots == InitialFree(status)
    {
      slots := [];
      new;
      if status.available {
        for i := 0 to |status.devices|
          invariant slots == SetAll(status.devices[..i])
        {
          var dev := status.devices[i];
          assert status.devices[..i + 1][..i] == status.devices[..i];
          slots := Set(slots, dev.index, dev.memoryFreeMb);
        }
        assert status.devices[..|status.devices|] == status.devices;
      }
    }
  }

  class PlacementPlan {
    var assignments: seq<Assignment>
    var warnings: seq<Note>
    var errors: seq<Note>

    function View(): Plan
      reads this
    {
      Plan(assignments, warnings, errors)
    }

    constructor ()
      ensures View() == Plan([], [], [])
    {
      assignments, warnings, errors := [], [], [];
    }

    method Complain(r: Requirements, reason: Reason)
      modifies this
      ensures assignments == old(assignments)
      ensures errors == old(errors) + if r.Critical() then [Note(r.agentKey, reason)] else []
      ensures warnings == old(warnings) + if r.Critical() then [] else [Note(r.agentKey, reason)]
    {
      if r.required && r.strict {
        errors := errors + [Note(r.agentKey, reason)];
      } else {
        warnings := warnings + [Note(r.agentKey, reason)];
      }
    }
  }

  /** `max` over the candidate devices, those with at least `minMem` free; -1 when there is none. */
  method BestCandidate(t: FreeTable, minMem: int) returns (best: int)
    ensures best == if t == [] || t[FirstMax(t)].value < minMem then -1 else FirstMax(t)
  {
    best := -1;
    for i := 0 to |t|
      invariant -1 <= best < i
      invariant best == -1 ==> forall j :: 0 <= j < i ==> t[j].value < minMem
      invariant best >= 0 ==> t[best].value >= minMem
      invariant best >= 0 ==> forall j :: 0 <= j < i ==> t[j].value <= t[best].value
      invariant best >= 0 ==> forall j :: 0 <= j < best ==> t[j].value < t[best].value
    {
      if t[i].value >= minMem && (best == -1 || t[i].value > t[best].value) {
        best := i;
      }
    }
  }

  method AssignDevice(r: Requirements, status: GpuStatus, deviceFree: DeviceFree, plan: PlacementPlan,
                      budget: Option<int>)
    returns (a: Assignment)
    modifies deviceFree, plan
    ensures plan.assignments == old(plan.assignments)
    ensures var st := State(old(deviceFree.slots), budget, old(plan.assignments), old(plan.warnings), old(plan.errors));
            var next := Advance(st, r, status);
            && deviceFree.slots == next.free && plan.warnings == next.warnings && plan.errors == next.errors
            && st.assignments + [a] == next.assignments
            && next.budget == if budget.Some? && a.IsGpu() then Some(budget.value - a.memoryReservedMb) else budget
  {
    hide FirstMax, DeviceName;
    a := CpuAssignment(r.agentKey);
    if !r.required && !r.preferred {
      return;
    }
    if !status.available || deviceFree.slots == [] {
      plan.Complain(r, NoGpu);
      return;
    }
    var best := BestCandidate(deviceFree.slots, r.memoryMinMb);
    if best < 0 {
      plan.Complain(r, NoMemory);
      return;
    }
    var agentMem := if r.memoryMinMb > 0 then r.memoryMinMb else 1;
    if budget.Some? && agentMem > budget.value {
      plan.Complain(r, OverBudget);
      return;
    }
    var index := deviceFree.slots[best].key;
    deviceFree.slots := deviceFree.slots[best := Entry(index, deviceFree.slots[best].value - agentMem)];
    a := Assignment(r.agentKey, index, DeviceName(status.devices, index), agentMem, PrintInt(index));
  }

  method ScheduleCrewGpus(defs: seq<Definition>, status: GpuStatus, budget: Option<int>)
    returns (plan: PlacementPlan)
    ensures fresh(plan) && plan.View() == Schedule(defs, status, budget)
  {
    hide Advance, InitialFree, SortBy, SumBy, Rank;
    plan := new PlacementPlan();
    var rs := AllRequirements(defs);
    var deviceFree := new DeviceFree(status);

    if budget.Some? && budget.value > 0 {
      if Declared(rs) > budget.value {
        plan.errors := plan.errors + [Note("", CrewBudget)];
        for i := 0 to |rs|
          invariant plan.View() == Plan(AllOnCpu(rs)[..i], [], [Note("", CrewBudget)])
        {
          plan.assignments := plan.assignments + [CpuAssignment(rs[i].agentKey)];
        }
        return;
      }
    }

    var sorted := ByPriority(rs);
    var remaining := Limit(budget);
    for i := 0 to |sorted|
      invariant State(deviceFree.slots, remaining, plan.assignments, plan.warnings, plan.errors)
             == Run(Start(status, budget), sorted[..i], status)
    {
      assert sorted[..i + 1][..i] == sorted[..i];
      var a := AssignDevice(sorted[i], status, deviceFree, plan, remaining);
      plan.assignments := plan.assignments + [a];
      if remaining.Some? && a.IsGpu() {
        remaining := Some(remaining.value - a.memoryReservedMb);
      }
    }
    assert sorted[..|sorted|] == sorted;
    plan.assignments := CrewOrder(plan.assignments, defs);
  }
}
