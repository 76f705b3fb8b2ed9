# Verification of the agnostic control plane

A Dafny 4.11 model of the parts of this repository that carry real invariants, with proofs. `dafny verify
dfyconfig.toml` checks everything. Each component of the program has its own module; where the program changes
state step by step the model is a class or a method with loops, proved to compute a specification function, and
the theorems are lemmas about that function. Clock readings and megabytes are unbounded integers, as in Python;
the values of a trend are exact reals.

## What is modelled

- **GPU crew scheduler** (`GpuScheduler`, `GpuTurns`, `GpuBounds`, `GpuPlans`, `GpuInterference`,
  `GpuOvercommit`): definitions, the pre-check, the stable priority sort, the greedy allocator over a shared
  free-memory dict, the final re-sort. `AssignDevice` and `ScheduleCrewGpus` are the program; `Decide`, `Advance`,
  `Run` and `Schedule` its specification; `GpuTurns` says what that means from the fields of the agents alone.
- **Slot tracker and concurrent crews** (`GpuSlots`, `GpuCrews`): the reservation table, and every interleaving
  of launches and releases.
- **Preprocessor** (`Preprocessor`, `PreprocessorForms`, `PreprocessorTree`, `PreprocessorReadings`): the fused
  pass of `active_lines`, its split into a lexer and a stack machine, what each directive means, a recursive
  evaluator over nested groups, a parser that gives every file such a structure, and readings of the conditions the
  gate does not evaluate.
- **Store-lock gate** (`StoreLock`): the fixpoint, rules 0 to 3, and call paths to a handle fetch.
- **Trend** (`Trend`): least squares over positions and its classification.
- **Alert cooldown** (`AlertCooldown`, and whole runs in `AlertRuns`), **circuit breaker** (`CircuitBreakers`),
  **result cache** (`ResultCache`), **audit buffer** (`AuditBuffer`): bounded or lazy structures against a simple
  specification.
- **Connections and replay** (`Connections`, `Replay`): the four tables under interleaving, and cursor paging.
- **Agent keys and teams** (`AgentKeys`, `CrewAssembler`): key normal form, role matching, de-duplication.

`Collections` (sums, filters, the stable sort and its uniqueness), `OrderedDicts` (insertion-ordered dicts) and
`Decimal` (decimal text) are shared.

## Where the code does less than its text says

- A 0 MB declaration is placed on a device with nothing free, so a plan is within capacity on every host exactly
  for crews whose GPU agents all declare at least 1 MB (`GpuBounds.CapacityExactly`); `GpuOvercommit` says exactly
  which crews can also be launched that way. The per-agent budget refusal can follow a passed pre-check
  (`GpuBounds.BudgetRefusalExactly`, `GpuBounds.ZeroDeclarationRefusesAnother`).
- The last sort does not always restore crew order; `GpuInterference.CrewOrderExactly` says exactly when. With a
  key in every definition it does exactly when repeated keys are adjacent (`GpuInterference.CrewOrderPresent`).
- `_run_local` (crews.py:413) schedules against the raw hardware status. The multi-crew bound is proved for
  callers that pass `adjusted_free`; against the raw status it holds exactly when no crew holds anything on the
  host (`GpuCrews.RawSchedulingSafeExactly`).
- "Stricter, never blind" needs that no condition tests a name changed before it inside an `#if` group
  (`PreprocessorReadings.NeverBlind`); `DefineUnderIfBlinds` gives a family of files that lose a line otherwise,
  and says exactly for which targets. The condition is sufficient, not necessary.
- The cooldown is kept exactly as long as no delivered alert throws away a live entry (`AlertRuns.SpacedExactly`).
  Two things do. More than 5000 live entries when the hard cap applies: `AlertRuns.CapRunRepeats` delivers one
  alert twice in the same instant. And a cooldown above the eviction age of 7200 seconds, which
  `ALERT_COOLDOWN_SECONDS` may ask for: `AlertRuns.LongRunRepeats` delivers an alert again after 7201 ticks however
  long the cooldown, and `AlertRuns.CooldownLimitExactly` shows that this is the only other way.
- The key just fired survives unless more than two hours pass between the two clock readings of one `fire`
  (`AlertCooldown.RecordBounded`).
- A user whose id is empty keeps an empty set (`Connections.EmptySetStays`), and `cleanup` leaves
  `_last_activity` behind (`Connections.RealtimeManager.Cleanup`).
- Paging from some cursor stops early exactly when `limit` entries without a message stand before a message, or a
  payload that does not parse has a message behind it or fewer than `limit` places before it
  (`Replay.PagingExactly`): one such payload empties the whole answer.
- Numbered agent keys can repeat a base key; `CrewAssembler.KeysDistinctExactly` says exactly when.
- `validate_agent_key` also accepts a key followed by one newline, because of `$` (`AgentKeys.AcceptedExactly`).
- A circuit breaker threshold below 1 acts as 1.

## Model

| member | source | states |
|---|---|---|
| GpuScheduler.FirstMax | python-port/config/gpu_scheduler.py:296-297 | the chosen slot is the first of the devices with the most free memory |
| GpuScheduler.DeviceFree.constructor | python-port/config/gpu_scheduler.py:169-172 | the dict of free memory, last figure of a repeated index winning |
| GpuScheduler.PlacementPlan.Complain | python-port/config/gpu_scheduler.py:277-280 | a refusal is an error for required-and-strict agents and a warning for all others |
| GpuScheduler.BestCandidate | python-port/config/gpu_scheduler.py:268-297 | the maximum over the candidates is the first global maximum of free memory, whatever the minimum asked for |
| GpuScheduler.AssignDevice | python-port/config/gpu_scheduler.py:239-317 | one agent's assignment, the new free memory, warnings and errors are those of the specification step |
| GpuScheduler.ScheduleCrewGpus | python-port/config/gpu_scheduler.py:143-236 | the plan is the specified one: pre-check, stable priority order, greedy run, crew order |
| GpuTurns.DefinitionRead | python-port/config/gpu_scheduler.py:41-72 | a field of the definition wins over its metadata; what neither has is off, 0 or "unknown" |
| GpuTurns.ServingOrder | python-port/config/gpu_scheduler.py:193-204 | strict agents are served before all others, required before not required, those that want a GPU before those that do not |
| GpuTurns.ServingStable | python-port/config/gpu_scheduler.py:193-204 | agents alike in these three are served in crew order |
| GpuTurns.UnwantedTurn | python-port/config/gpu_scheduler.py:248-250 | an agent that wants no GPU runs on CPU without a note |
| GpuTurns.RefusedTurn | python-port/config/gpu_scheduler.py:252-294 | no GPU, no device with enough memory, or no budget, in this order: CPU, and an error iff required and strict |
| GpuTurns.PlacedTurn | python-port/config/gpu_scheduler.py:296-317 | otherwise the first device with the most free memory gives the declared minimum, or 1 MB, and so does the budget |
| GpuTurns.NameMeans | python-port/config/gpu_scheduler.py:304-309 | the name is that of the first device listed under the index |
| GpuTurns.DeclaredSum | python-port/config/gpu_scheduler.py:175-179 | the pre-check adds the minimums of the agents that want a GPU |
| GpuTurns.TurnedAway | python-port/config/gpu_scheduler.py:174-191 | a positive budget below the sum: everybody on CPU in crew order, one error |
| GpuTurns.TurnedAwayExactly | python-port/config/gpu_scheduler.py:174-191 | and no other cause |
| GpuTurns.NoBudget | python-port/config/gpu_scheduler.py:206-208 | a budget of 0 or less is none |
| GpuTurns.RankMeans | python-port/config/gpu_scheduler.py:218-223 | a key ranks at the last definition filed under it, a keyless object under the empty key |
| GpuTurns.UnfiledRank | python-port/config/gpu_scheduler.py:218-223 | a key nobody is filed under ranks 999 |
| GpuTurns.OneSeat | python-port/config/gpu_scheduler.py:193-317 | a device that holds one agent goes to the first strict agent, else the first required, else the first preferred one; everybody else is on CPU |
| GpuBounds.RunConserves | python-port/config/gpu_scheduler.py:296-317 | on every device, free memory lost equals memory reserved by the run |
| GpuBounds.RunFloor | python-port/config/gpu_scheduler.py:268-302 | how low a run can drive a device, given the least declaration |
| GpuBounds.CapacityBound | python-port/config/gpu_scheduler.py:268-302 | reservations on a device are at most its free memory, plus 1 with 0 MB declarations, and in general minus the floor |
| GpuBounds.CapacityExactly | python-port/config/gpu_scheduler.py:268-302 | a crew stays within capacity on every host iff every GPU agent declares at least 1 MB |
| GpuBounds.OvercommitStep | python-port/config/gpu_scheduler.py:283-302 | one placement overcommits iff a 0 MB agent is placed when no device has memory left |
| GpuBounds.RunBudget | python-port/config/gpu_scheduler.py:206-216 | remaining budget plus reservations is constant and the remainder never negative |
| GpuBounds.BudgetBound | python-port/config/gpu_scheduler.py:174-216 | the crew's reservations never exceed a positive budget |
| GpuBounds.BudgetRefusalExactly | python-port/config/gpu_scheduler.py:174-191 | the per-agent budget refusal is unreachable on every host iff the budget covers the effective requests, which is the pre-check when all declare at least 1 MB |
| GpuBounds.ZeroDeclarationRefusesAnother | python-port/config/gpu_scheduler.py:283-294 | a concrete crew that passes the pre-check and still meets the per-agent refusal |
| GpuBounds.LoadBalance | python-port/config/gpu_scheduler.py:268-302 | after any run the spread of free memory is at most the initial spread or the largest single reservation so far |
| GpuBounds.OnlyCriticalsFail | python-port/config/gpu_scheduler.py:253-294 | agents that are not strict never add an error |
| GpuPlans.RunKeys | python-port/config/gpu_scheduler.py:210-216 | position i of a run holds the assignment of agent i |
| GpuPlans.GreedyKeys | python-port/config/gpu_scheduler.py:204-216 | the run is a rearrangement of the crew in priority order and keeps distinct keys distinct |
| GpuPlans.PlanTotals | python-port/config/gpu_scheduler.py:248-317 | errors, warnings and GPU agents add up to the agents that want a GPU |
| GpuPlans.PlanAccounting | python-port/config/gpu_scheduler.py:248-294 | for any crew the errors name exactly the strict agents on CPU and the warnings exactly the other GPU-wanting agents on CPU, each once, in the order served |
| GpuPlans.AgentAccounting | python-port/config/gpu_scheduler.py:248-317 | with distinct keys, an agent is named by an error, or by a warning, iff the plan has it on CPU and it is of that kind |
| GpuPlans.PlanComplete | python-port/config/gpu_scheduler.py:204-223 | with distinct, present keys assignment i belongs to definition i and is the outcome of its greedy step |
| GpuInterference.CrewOrderExactly | python-port/config/gpu_scheduler.py:218-223 | for every crew, with or without keys, the keys come back in crew order iff ranks do not fall along the crew and the agents of rank 999 stand in priority order by key |
| GpuInterference.RanksDecide | python-port/config/gpu_scheduler.py:218-223 | for keys in all definitions, or at most 999 definitions, the ranks alone decide |
| GpuInterference.CrewOrderPresent | python-port/config/gpu_scheduler.py:218-223 | with a key in every definition the keys come back in crew order iff repeated keys are adjacent |
| GpuInterference.CriticalsFirst | python-port/config/gpu_scheduler.py:193-204 | the priority sort puts exactly the strict agents first, in crew order |
| GpuInterference.CriticalPrefix | python-port/config/gpu_scheduler.py:193-216 | the run of the strict agents alone is a prefix of the whole run, with the same errors |
| GpuInterference.NonInterference | python-port/config/gpu_scheduler.py:193-317 | two crews with the same strict agents give each the same device, reservation or error, repeated keys included |
| GpuInterference.SameAnswers | python-port/config/gpu_scheduler.py:120-124 | looking up the key of a strict agent answers the same in both plans |
| GpuInterference.DeletingOthers | python-port/config/gpu_scheduler.py:174-216 | deleting all other agents changes no strict outcome iff the strict agents alone pass the pre-check; they do without negative declarations |
| GpuSlots.AddWeight | python-port/config/gpu_scheduler.py:361-365 | reserving adds exactly the new grant to every total |
| GpuSlots.ReleaseWeight | python-port/config/gpu_scheduler.py:367-369 | releasing removes exactly what the crew held from every total |
| GpuSlots.GPUSlotTracker.Reserve | python-port/config/gpu_scheduler.py:361-365 | the crew's list grows by the grant, no other crew changes, the device total grows by the amount |
| GpuSlots.GPUSlotTracker.Release | python-port/config/gpu_scheduler.py:367-369 | exactly the crew's reservations go |
| GpuSlots.GPUSlotTracker.TotalReserved | python-port/config/gpu_scheduler.py:371-378 | the sum over all crews and grants on the device |
| GpuSlots.GPUSlotTracker.AdjustedFreeOf | python-port/config/gpu_scheduler.py:380-386 | per device, hardware free memory less reservations, never below 0 |
| GpuCrews.RunCrew | python-port/webgui/routes/crews.py:411-431 | schedule, reserve nothing on errors, else every GPU assignment |
| GpuCrews.AdjustedView | python-port/config/gpu_scheduler.py:380-386 | a scheduler given the adjusted status starts from hardware free memory less reservations on every device |
| GpuCrews.LaunchTotal | python-port/webgui/routes/crews.py:413-426 | a launch adds to each device exactly what its plan reserves there |
| GpuCrews.MultiCrewSafety | python-port/config/gpu_scheduler.py:340-386 | over every interleaving, reservations never exceed hardware free memory with declarations of at least 1 MB; otherwise by at most 1 MB, or 1 - m for a least declaration m below 0, per outstanding launch on the device |
| GpuCrews.ReleaseUndoesLaunch | python-port/config/gpu_scheduler.py:361-369 | launching and releasing a crew that held nothing restores the tracker |
| GpuOvercommit.LaunchCapacityExactly | python-port/config/gpu_scheduler.py:174-317 | some host overcommits a device with what the crew is launched with iff the crew passes the pre-check and its last strict agent declares less than 1 MB within the budget, or another GPU agent does with 1 MB of budget to spare |
| GpuCrews.RawSchedulingSafeExactly | python-port/webgui/routes/crews.py:413-430 | against the raw status the bound survives every crew iff no crew holds anything on the host |
| Preprocessor.LexAt | scripts/check-lib-symbols.py:196-198 | a line is a directive iff it matches and no string is open at its start |
| Preprocessor.TargetsAgreeOnDirectives | scripts/check-lib-symbols.py:194-223 | for every target alike a directive line is blanked and any other line kept or blanked, one output line per line |
| Preprocessor.ScanLine | scripts/check-lib-symbols.py:224-242 | the string state after a line |
| Preprocessor.ActiveLines | scripts/check-lib-symbols.py:184-243 | the fused pass outputs what the stack machine outputs on the lexed file |
| Preprocessor.LiteralIsTransparent | scripts/check-lib-symbols.py:226-234 | a complete string literal with any escaped contents does not change the string state |
| Preprocessor.OpenLiteralContinues | scripts/check-lib-symbols.py:188-191 | an unclosed literal makes the next line string data |
| Preprocessor.InsideString | scripts/check-lib-symbols.py:226-232 | inside a string only quotes and backslashes matter |
| Preprocessor.OutsideString | scripts/check-lib-symbols.py:233-241 | outside, a quote opens one, a comment ends the line, other characters say nothing |
| Preprocessor.CharIsTransparent | scripts/check-lib-symbols.py:235-239 | a character literal, a quote in it or not, changes nothing; an unclosed one ends the line |
| PreprocessorForms.TextRuns | scripts/check-lib-symbols.py:223-223 | text is kept where it is live and blanked where it is not |
| PreprocessorForms.DefineRuns | scripts/check-lib-symbols.py:217-220 | #define and #undef change their name where they are live |
| PreprocessorForms.KnownGroup | scripts/check-lib-symbols.py:199-216 | lines under #ifdef n live iff n is defined, under #ifndef n iff not, under #ifplat p iff p is a platform of the target |
| PreprocessorForms.UnknownGroup | scripts/check-lib-symbols.py:199-206 | lines under #if live whatever its expression |
| PreprocessorForms.KnownArms | scripts/check-lib-symbols.py:207-214 | of #ifdef/#elif/#else the first arm that holds lives, and no other |
| PreprocessorForms.UnknownArms | scripts/check-lib-symbols.py:207-214 | of #if/#elif/#else all arms live |
| PreprocessorForms.StrayRuns | scripts/check-lib-symbols.py:207-216 | an arm or an end outside any group does nothing |
| PreprocessorForms.FileOfOneGroup | scripts/check-lib-symbols.py:184-243 | a file that is one known group keeps its text for a target iff the head holds for it |
| PreprocessorForms.DefinedLater | scripts/check-lib-symbols.py:199-220 | a definition, or its removal, decides a later #ifdef |
| PreprocessorTree.ParseFlattens | scripts/check-lib-symbols.py:199-216 | every sequence of lines is the flattening of a well-formed tree of groups |
| PreprocessorTree.ParseRoundTrip | scripts/check-lib-symbols.py:199-216 | and of no other: a well-formed tree is what its flattening parses to |
| PreprocessorTree.MachineRunsBlock | scripts/check-lib-symbols.py:199-223 | running a block keeps what the evaluator keeps, restores parent state and stack, and threads the definitions |
| PreprocessorTree.ActiveLinesMeaning | scripts/check-lib-symbols.py:184-243 | on every file the kept lines are those of the recursive evaluator, one per input line |
| PreprocessorReadings.AtMostOneArm | scripts/check-lib-symbols.py:207-214 | a known group has at most one live arm, exactly one when live with an #else |
| PreprocessorReadings.ReadCovered | scripts/check-lib-symbols.py:189-214 | under a reading of the unknown groups the live lines are among the kept ones, and definitions differ only in names changed inside an #if group |
| PreprocessorReadings.NeverBlind | scripts/check-lib-symbols.py:189-192 | for every reading no live line is lost, if no condition tests a name changed before it inside an #if group |
| PreprocessorReadings.NothingChangedUnderIf | scripts/check-lib-symbols.py:189-192 | which holds if nothing is defined or undefined inside an #if group |
| PreprocessorReadings.DefineUnderIfBlinds | scripts/check-lib-symbols.py:189-220 | a file of six lines, a #define under #if and then an #ifndef of the name, loses its text line for some reading iff the target does not define the name |
| StoreLock.GrowOnce | scripts/check-store-lock.py:119-125 | one pass only adds sound members, and reports growth exactly |
| StoreLock.ComputeStoreLocked | scripts/check-store-lock.py:113-125 | the loop ends with exactly the *_locked functions that reach a fetch through *_locked functions |
| StoreLock.CheckFunction | scripts/check-store-lock.py:145-160 | the reported problems of one function are exactly its rule 1 and rule 2 violations |
| StoreLock.CheckRules | scripts/check-store-lock.py:128-160 | the problems are exactly those of all functions outside the store |
| StoreLock.PathProtected | scripts/check-store-lock.py:18-27 | without problems a path to a fetch is protected or runs through *_locked functions only |
| StoreLock.ProblemPath | scripts/check-store-lock.py:150-160 | every problem is a real path to a fetch on which nobody takes the lock |
| StoreLock.GateExactly | scripts/check-store-lock.py:18-40 | no problem iff every call path to a fetch has a function that is not *_locked with the lock at or before its step |
| StoreLock.CollectKeepsLast | scripts/check-store-lock.py:108-109 | the last definition of a name is the one analysed |
| StoreLock.LockedNames | scripts/check-store-lock.py:94-95 | the names are exactly those ending in _locked or _locked_a |
| StoreLock.OneFunction | scripts/check-store-lock.py:144-153 | one function fails iff it is outside the store, not so named, and fetches with no lock call on the line or before |
| StoreLock.CallerOfLocked | scripts/check-store-lock.py:154-160 | a caller of a *_locked function that fetches fails iff it calls it with no lock call on the line or before |
| StoreLock.DanglesMeans | scripts/check-store-lock.py:130-143 | a variable counts as borrowed from the line it is assigned on |
| StoreLock.CheckBorrowing | scripts/check-store-lock.py:130-143 | the lines reported for rule 3 are exactly those that hand a result string, or a variable assigned from one, to a call that keeps the pointer |
| StoreLock.CheckAllBorrowing | scripts/check-store-lock.py:128-143 | rule 3 over every function, the store's own included |
| StoreLock.Gate | scripts/check-store-lock.py:98-172 | the gate passes iff the raw handle stays in the store, every call path is protected and no result string is borrowed |
| Trend.DenominatorClosedForm | python-port/webgui/history.py:592-597 | the denominator is n(n^2-1)/12 |
| Trend.DenominatorPositive | python-port/webgui/history.py:597-600 | the zero test is dead for two points or more |
| Trend.TrendIsSlope | python-port/webgui/history.py:602-610 | a slope of 0.01 or more is improving, of -0.01 or less declining, both with ten times its size, and one between is stable |
| Trend.TooShort | python-port/webgui/history.py:582-583 | fewer than two points are stable |
| Trend.LeastSquares | python-port/webgui/history.py:584-602 | no line misses the points by less than the one with the computed slope, and no other by as little |
| Trend.MisfitSplit | python-port/webgui/history.py:584-602 | what another line misses by is what the fitted one does and the squared distance of the two |
| Trend.MomentIgnoresCentre | python-port/webgui/history.py:592-596 | the mean of the values does not matter to the numerator |
| Trend.SlopeLinear | python-port/webgui/history.py:592-602 | the slope is linear in the values and blind to constants |
| Trend.LineHasItsSlope | python-port/webgui/history.py:592-610 | y = a + b*i gives slope exactly b and the verdict of b against 0.01 |
| Trend.ConstantIgnored | python-port/webgui/history.py:592-610 | adding a constant changes nothing |
| Trend.NegationSwaps | python-port/webgui/history.py:604-610 | negating swaps the verdict with the same percentage |
| Trend.ReversalSwaps | python-port/webgui/history.py:584-610 | reversing swaps the verdict with the same percentage |
| Trend.RisingMoment | python-port/webgui/history.py:594-596 | a non-decreasing series has a non-negative numerator |
| Trend.MonotoneVerdicts | python-port/webgui/history.py:604-610 | non-decreasing is never declining, non-increasing never improving |
| AlertCooldown.AlertManager.EvictStaleCooldowns | python-port/shared/alerts.py:114-120 | entries older than the eviction age go |
| AlertCooldown.AlertManager.Fire | python-port/shared/alerts.py:134-159 | delivered iff enabled and not within the cooldown; the map after it |
| AlertCooldown.EvictGet | python-port/shared/alerts.py:114-120 | exactly the stale entries are removed |
| AlertCooldown.CapDropsLiveExactly | python-port/shared/alerts.py:153-159 | the hard cap drops a live cooldown iff more than 5000 entries are live |
| AlertCooldown.CapSize | python-port/shared/alerts.py:153-159 | the cap leaves exactly 5000 entries |
| AlertCooldown.RecordBounded | python-port/shared/alerts.py:145-159 | at most 5000 entries after a delivery, and when the key just fired is kept |
| AlertRuns.RunValid | python-port/shared/alerts.py:137-159 | at most 5000 entries after every run |
| AlertRuns.InSyncExactly | python-port/shared/alerts.py:140-143 | the bounded map decides all future alerts like the unbounded one iff only expired entries are missing |
| AlertRuns.NextInSyncExactly | python-port/shared/alerts.py:140-159 | one attempt keeps the maps in sync iff it delivers nothing or throws away no live entry |
| AlertRuns.CooldownRefinesExactly | python-port/shared/alerts.py:137-159 | for every cooldown and run: at each point every next decision is that of an unbounded map iff no delivery evicts by age a live entry or meets more than 5000 of them at the cap |
| AlertRuns.CooldownRefines | python-port/shared/alerts.py:137-143 | while earlier deliveries spare the live entries, an attempt is decided as by an unbounded map |
| AlertRuns.DeliveriesSpaced | python-port/shared/alerts.py:140-145 | while earlier deliveries spare the live entries, delivered alerts of one key are at least the cooldown apart |
| AlertRuns.SpacedExactly | python-port/shared/alerts.py:137-159 | from each point of a run on the next delivery comes a cooldown after every earlier one of its key iff no delivery threw away a live entry |
| AlertRuns.CapRunRepeats | python-port/shared/alerts.py:153-159 | 5001 alerts at once, for any cooldown, and the first is delivered again in the same instant |
| AlertRuns.LongRunRepeats | python-port/shared/alerts.py:114-120 | for any cooldown above 7201 ticks, 101 alerts of which the first and last have one key and are 7201 ticks apart |
| AlertRuns.CooldownLimitExactly | python-port/shared/alerts.py:114-159 | all runs without more than 5000 live entries are spaced iff the cooldown is at most the least age evicted |
| CircuitBreakers.FailuresMean | python-port/shared/resilience.py:77-82 | the failure count is the length of the run of failures at the end of the history |
| CircuitBreakers.TrippedMeans | python-port/shared/resilience.py:79-92 | the count reaches the threshold iff the last reports are failures, as many as the threshold |
| CircuitBreakers.CircuitBreaker.State | python-port/shared/resilience.py:55-63 | CLOSED unless the last reports are as many failures; then OPEN until the recovery time has passed, HALF_OPEN after |
| CircuitBreakers.CircuitBreaker.CanExecute | python-port/shared/resilience.py:65-67 | turned down iff the last reports are failures, as many as the threshold, and the last is less than the recovery time ago |
| CircuitBreakers.CircuitBreaker.RecordSuccess | python-port/shared/resilience.py:69-77 | closes, with a callback iff it was not CLOSED |
| CircuitBreakers.CircuitBreaker.RecordFailure | python-port/shared/resilience.py:79-92 | counts and dates the failure; opens with a callback iff the last reports are failures, as many as the threshold |
| CircuitBreakers.Drive | python-port/shared/resilience.py:55-92 | over every run a question is turned down iff the reports before it end in as many failures, the last too recent; not CLOSED iff they do iff the last callback was "open" |
| ResultCache.RecencyMeans | python-port/shared/yeoman_a2a_client.py:284-287 | recency order lists every key once by the position of its last touch |
| ResultCache.RecentMeans | python-port/shared/yeoman_a2a_client.py:282-297 | a key is among the n most recent iff it was touched and fewer than n others were touched after it |
| ResultCache.RecentTouch | python-port/shared/yeoman_a2a_client.py:282-290 | one touch of the n most recent keys gives the n most recent keys of the longer log |
| ResultCache.YeomanCache.EvictOverflow | python-port/shared/yeoman_a2a_client.py:288-290 | the newest entries stay, as many as fit |
| ResultCache.YeomanCache.CacheResult | python-port/shared/yeoman_a2a_client.py:282-290 | after a store the cache is the most recently touched keys in touch order, with the values last stored |
| ResultCache.YeomanCache.GetCachedResult | python-port/shared/yeoman_a2a_client.py:292-297 | a hit iff the key is among them, with the value last stored; a miss touches nothing |
| ResultCache.YeomanCache.ClearCache | python-port/shared/yeoman_a2a_client.py:303-305 | the touches start afresh |
| AuditBuffer.AgnosAuditForwarder.QueueEvent | python-port/shared/agnos_audit.py:76-93 | the event goes last, a full buffer first drops its oldest, and queued = removed + buffer |
| AuditBuffer.AgnosAuditForwarder.BeginFlush | python-port/shared/agnos_audit.py:119-129 | the first batch leaves the buffer, on its way or dropped as the circuit decides |
| AuditBuffer.AgnosAuditForwarder.FinishFlush | python-port/shared/agnos_audit.py:131-150 | the batch is settled once as sent or failed and nothing returns to the buffer |
| AuditBuffer.RemovedSettled | python-port/shared/agnos_audit.py:139-150 | settling changes no removed event |
| AuditBuffer.Drive | python-port/shared/agnos_audit.py:76-150 | over every interleaving the queued events are the removed ones in order followed by the buffer, of at most 10,000 |
| Connections.LeaveAgrees | python-port/webgui/realtime.py:213-224 | removing an id keeps users' sets disjoint, non-empty and in agreement with the sockets |
| Connections.EmptySetStays | python-port/webgui/realtime.py:223-224 | an emptied set stays behind iff the user id is empty |
| Connections.OthersStay | python-port/webgui/realtime.py:213-234 | removing or pruning ids leaves every other id with its socket, activity, channels and user |
| Connections.EnteredMeans | python-port/webgui/realtime.py:190-198 | a new id is known to its user, with its socket and the time, without channels, and no other id changes |
| Connections.SentMeans | python-port/webgui/realtime.py:280-301 | a send renews the activity and nothing else, a failed one removes the id |
| Connections.SubscriptionMeans | python-port/webgui/realtime.py:236-268 | subscribing adds one channel to one id, unsubscribing takes it away |
| Connections.PrunedMeans | python-port/webgui/realtime.py:398-412 | a connection stays iff it is not idle for longer than the timeout |
| Connections.RealtimeManager.RemoveConnection | python-port/webgui/realtime.py:213-234 | the id leaves all four tables and nothing else changes |
| Connections.RealtimeManager.SendToConnection | python-port/webgui/realtime.py:280-301 | activity is renewed; a failed send removes the connection |
| Connections.RealtimeManager.Enter | python-port/webgui/realtime.py:190-198 | before the welcome the id is in all four tables |
| Connections.RealtimeManager.AddConnection | python-port/webgui/realtime.py:186-211 | the id joins all four tables, or none if the welcome fails |
| Connections.RealtimeManager.Subscribe | python-port/webgui/realtime.py:236-260 | the channel is added, for a pruned id too while its handler runs |
| Connections.RealtimeManager.Unsubscribe | python-port/webgui/realtime.py:262-268 | the channel is removed if the id has subscriptions |
| Connections.RealtimeManager.PruneStale | python-port/webgui/realtime.py:398-412 | exactly the connections idle beyond the timeout leave all four tables |
| Connections.SurvivorsStay | python-port/webgui/realtime.py:398-412 | every other connection stays with its user |
| Connections.RealtimeManager.Cleanup | python-port/webgui/realtime.py:522-525 | the tables agree afterwards iff nobody was connected |
| Connections.StepReachable | python-port/webgui/realtime.py:186-301 | every step keeps the tables consistent, and an ended handler is in none |
| Connections.EveryRunConsistent | python-port/webgui/realtime.py:534-568 | every interleaving of handlers, sends, subscriptions and removals keeps the tables consistent; ids of ended handlers are in none of the four |
| Replay.GetMessagesSince | python-port/webgui/realtime.py:101-125 | the readable entries of the next page after the cursor, or nothing if one does not parse |
| Replay.AfterSkips | python-port/webgui/realtime.py:111-114 | what is read is a suffix of the stream, what is skipped is at or before the cursor |
| Replay.PageMoves | python-port/webgui/realtime.py:112-122 | a non-empty page ends at its last message, and the next page starts right behind it |
| Replay.PagingExactly | python-port/webgui/realtime.py:101-125 | paging from every cursor returns every readable entry after it once and in order iff no limit-long gap stands before a message and a corrupt payload has no message behind it or fewer than limit places before it |
| Replay.PagingComplete | python-port/webgui/realtime.py:81-122 | with a payload in every entry and a limit of at least 1 nothing is missed or repeated |
| AgentKeys.KeyIsJoinedWords | python-port/agents/constants.py:45-50 | the key is the role's alphanumeric words joined by dashes, or "agent" |
| AgentKeys.KeyIsNormal | python-port/agents/constants.py:45-50 | lower-case letters and digits with single dashes only between them, whatever characters count as white space |
| AgentKeys.GeneratedKeysAccepted | python-port/agents/constants.py:39-50 | every generated key passes validation |
| AgentKeys.KeyMeans | python-port/agents/constants.py:20-20 | a key is letters a-z, digits and dashes, by ASCII code, and does not begin with a dash |
| AgentKeys.AcceptedExactly | python-port/agents/constants.py:39-42 | what else passes is exactly a key with one newline behind it |
| AgentKeys.Idempotent | python-port/agents/constants.py:45-50 | generating a key from a key changes nothing |
| CrewAssembler.FindBestMatch | python-port/agents/crew_assembler.py:309-346 | the first exact match, else the first of the best overlaps of two words or more, else none |
| CrewAssembler.BestMatchUnique | python-port/agents/crew_assembler.py:309-346 | that description determines the match |
| CrewAssembler.MatchMeans | python-port/agents/crew_assembler.py:319-338 | exact: key, name or role equal after normalization; score: words of the role in the name or the role |
| CrewAssembler.NumberedExactly | python-port/agents/crew_assembler.py:110-114 | a member whose base key an earlier one has gets its position appended, any other keeps its base key |
| CrewAssembler.AssembleTeam | python-port/agents/crew_assembler.py:58-117 | the keys of the members in order; no key repeats iff no member collides |
| CrewAssembler.KeysDistinctExactly | python-port/agents/crew_assembler.py:110-114 | keys are distinct iff no member whose base is taken has a numbered key equal to an earlier base key |
| CrewAssembler.SuffixedInjective | python-port/agents/crew_assembler.py:113 | a numbered key determines its base and number |
| CrewAssembler.PlainBasesDistinct | python-port/agents/crew_assembler.py:110-114 | no base key ending in a dash and a number means distinct keys |
| CrewAssembler.NumberedBaseCollides | python-port/agents/crew_assembler.py:110-114 | a concrete team whose keys repeat |
| CrewAssembler.EmittedKeysValid | python-port/agents/crew_assembler.py:110-114 | numbering a valid key gives a valid key |

## Left out

- GPU probing, the network, Redis, Celery, SMTP, LLM providers and files: their success or failure, the hardware
  status, the answer to a request and the outcome of a send are inputs.
- `apply_gpu_assignment`, `to_dict`, dashboards, exports and reports: single-branch or formatting.
- Message texts, log lines and metrics: only the kind of an error or warning and the agent it is about are kept.
- The directive pattern of `active_lines` and the patterns of `check-store-lock.py` are given classifiers of a
  line; `strip_comments`, `_array_after` and `constants` are not modelled, they would add easy members.
- GpuCrews.RawSchedulingSafeExactly: for an available host whose figures are non-negative and not yet exceeded.
- GpuPlans.PlanComplete: assumes distinct, present keys; for any others GpuInterference.CrewOrderExactly says when
  the order survives.
- GpuOvercommit.LaunchCapacityExactly: hosts whose device indices are not negative, as nvidia-smi numbers them.
- PreprocessorReadings.NeverBlind: one direction; a changed name may be tested where it makes no difference.
- Trend.MonotoneVerdicts: exact reals in place of floating point, so rounding at the 0.01 threshold is not modelled.
- AlertRuns.CooldownRefinesExactly: clock readings are integers, so that the least age evicted is one tick above
  the eviction age, and the JSON text of the cooldown key is a given string.
- ResultCache.YeomanCache.GetCachedResult: a stored result is never None, as the callers store dicts.
- AuditBuffer.Drive: scheduling of the delayed flush task is not modelled; flushes start at any time.
- Connections.EveryRunConsistent: connection ids are new (the program draws them at random); the Redis pub/sub
  side, the broadcast loop over a changing set and the `:tasks` fan-out are not modelled.
- Replay.PagingExactly: the stream does not change while a client pages, and the cursor "0-0" is the number 0.
- AgentKeys.Idempotent: lower-casing is any function that leaves keys alone, and white space any characters
  outside a-z and 0-9.
- CrewAssembler.AssembleTeam: the texts of a definition (goal, backstory, tools) are left out; only its key is kept.
- The Cyrius server under `src/`, `config/fleet`, versioning, token and role tables: not part of this model.
