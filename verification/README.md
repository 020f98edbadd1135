# Date-effective policy assignments, verified

An employee's assignments follow from dated policy versions, nested and/or conditions
on the employee's facts, group membership, priorities, and manual overrides. The
program does not recompute them on every read. It keeps rows with half-open intervals,
recomputes them when something changes, and keeps a queue of midnights at which the
passing of time alone can change an outcome. This project models that machinery in
Dafny and proves that the stored rows agree with the simple function they cache.

The layers, bottom up:

- `Calendar`: proleptic Gregorian dates as ordinals, anniversaries, tenure comparisons.
- `OrgChart`, `Conditions`, `Employees`: the manager relation, the thirteen condition
  fields, and the set of employees whose facts a mutation can move.
- `ConditionTree`: compilation of condition trees into an OR of ANDs, and the separate
  size predictor.
- `Versions`, `Resolution`, `Overrides`, `Matching`: which version is effective, which
  values win, what overrides replace, and `OutcomeOf`, what one employee should have on
  one date as a function of what is read from the database.
- `Reconciliation`: the rows, their diff, the as-of query and the audit entries.
- `Schedule`, `EventQueue`: the event table, its synchronization and the worker loop.
- `Engine`: the whole database as one value `World`, each operation of the program as
  an atomic step (`Apply` is `None` when the operation raises, and `Step` rolls back),
  and runs of operations in any order.
- `Freshness`, `Runs`, `EmployeeRuns`, `Batches`: the invariant and why each operation
  keeps it. `Theorems`, `Chronicle`, `Processing`, `Cardinality`, `QueueExactness`: what
  follows for every run.
- `Decisions`, `Explanations`, `ImpactMeaning`: what the resolver, the explanations and
  the impact report compute, stated on the stored rows and the employees' records
  without the functions that compute it. `Effects` says so of every operation, and
  `Failures` when an operation raises.
- `Services`: batch reconciliation and event processing as imperative code over tables,
  proved equal to the steps of `Engine`. `Worker` joins them to the runs: what they
  load exists, and the worker catches up.
- `ImpactSummary`: the counters of a policy impact report.

Time is an integer number of microseconds, a date is its ordinal, and `DayOf` maps one
to the other. Identities are integers; the identity of a version or an event is its
position in its table (plus one for versions). Clock readings are parameters. Theorems
about runs assume that no operation starts before the previous one finished and that
readings stay inside the calendar (`RunTimed`); `ClockPremiseIsNeeded` shows that the
program's own order check does not supply this. Freshness is stated on the stable key
of a row: field, value, source, and the explanation without evaluation dates. The
explanation holds the origins of the winner and every candidate it competed with,
losing ones included, and so freshness holds on (field, value, source) too.

The model follows the code, also where a reader might expect otherwise. A creation of a
version closes the prior open version before it looks for overlaps, and only the
rollback reopens it (`policy_versions.py:84-90`). A priority conflict raises even when
an override would hide the field, because overrides come later
(`policy_engine.py:130-153`). A tenure condition whose anniversary leaves the calendar
raises for the employee instead of being false (`condition_fields.py:577-582`).

## Model

| member | source | states |
|---|---|---|
| Theorems.AlwaysFresh | backend/app/services/assignment_resolution.py:21-64 | after every run, at every later instant with no due event that concerns the employee, the resolver succeeds for that date and the as-of query, the open rows and the policy links are exactly its result |
| Theorems.HistoryTellsTheTruth | backend/app/services/employee_assignments.py:20-41 | asked after any further operations, the as-of query for an instant at which nothing concerning the employee was due answers what the resolver computed from the database as it was then |
| Theorems.PastIsPermanent | backend/app/services/reconciliation.py:134-206 | later operations of any kind leave the as-of answer at an earlier instant unchanged for every surviving employee |
| Theorems.ScheduleComplete | backend/app/services/scheduled_reconciliations.py:118-161 | with facts frozen, if an employee's effective versions, matched clauses (of losing versions too), assignments or matched policies on a future day differ from the day before, an event is pending at that midnight and every batch holding it reconciles the employee |
| Theorems.RowsAreDecided | backend/app/services/policy_engine.py:64-181 | after every run, while nothing that concerns the employee is due, the as-of query gives a field a value from a source if and only if the stored rows decide so: an override in force, or else the row of highest stored priority, the older one on a tie, among the active effective rows that give the field a competing value and whose tree the employee's record satisfies or whose policy a group passes on |
| Theorems.RowsAreExplained | backend/app/services/reconciliation.py:244-257 | under the same premise a key is answered if and only if the stored rows decide its value and source so and its evidence is the explanation of that decision, but for evaluation dates |
| Theorems.LinksAreDecided | backend/app/services/policy_matching.py:134-175 | under the same premise the policy links are the policies of the rows that apply |
| Decisions.MatchedRowsApply | backend/app/services/policy_matching.py:71-175 | the matcher finds exactly the rows of active policies whose range holds the date and whose tree the record satisfies or whose policy a group of the employee passes on |
| Decisions.GroupMeaning | backend/app/services/policy_matching.py:144-163 | the groups of a match are those that the employee belongs to and the policy is attached to |
| Decisions.FinalsAreDecided | backend/app/services/policy_engine.py:85-181 | a value is final if and only if the stored overrides and priorities decide it |
| Decisions.ConflictMeaning | backend/app/services/policy_engine.py:119-153 | resolution conflicts if and only if two rows that share the highest stored priority for a one-valued field give it different values |
| Explanations.PolicyExplanationTells | backend/app/services/policy_engine.py:184-281 | the explanation of a value from a policy is true of the stored rows: it names the deciding row, its policy and the date; its evidence lists exactly the satisfied clauses in order, its origins the groups that pass the policy on, and its candidates exactly the competing rows with their stored priorities, values and origins |
| Explanations.OverrideExplanationTells | backend/app/services/overrides.py:33-73 | the explanation of an override names it and, for each version, exactly the values of the field that the policies alone would have decided |
| Effects.OperationEffect | backend/app/services/groups.py:88-217 | what each of the fourteen operations has done when it completes, and that it leaves every other stored input alone: memberships, attachments, overrides in force, versions, statuses, records, catalog and processed events |
| Effects.JoiningInherits | backend/app/services/groups.py:88-110 | after joining, the group is among the groups of a match exactly for the policies attached to it |
| Effects.LeavingDisinherits | backend/app/services/groups.py:113-138 | after leaving, the group is in no match of the employee |
| Theorems.DrainedMeansFresh | backend/app/services/scheduled_reconciliations.py:192-260 | a successful batch below its limit leaves the rows and links of every employee equal to today's resolution |
| Failures.BatchFailsExactly | backend/app/services/scheduled_reconciliations.py:192-260 | in every reachable database a batch fails if and only if its limit is not positive or it reconciles somebody whose policies conflict or whose tenure leaves the calendar: no event names a missing entity and the order check accepts |
| Failures.CreateFailsExactly | backend/app/services/employees.py:21-62 | in every reachable database creating an employee fails if and only if the manager is rejected, an impacted employee's policies conflict or tenure leaves the calendar, or some tenure rule of an active policy needs an anniversary of the new employee past the last year |
| Failures.FailsExactly | backend/app/services/assignment_resolution.py:21-64 | in every reachable database each operation raises if and only if something it names is missing or refused, an employee it reconciles has conflicting priorities or tenure outside the calendar, or a tenure threshold it schedules is outside the calendar; all of it stated on the stored rows |
| Failures.RaisesExactly | backend/app/services/policy_versions.py:160-170 | in every reachable database the error for several effective versions cannot occur; a resolution raises if and only if two stored values share the highest priority of a one-valued field or some tenure condition of an effective version has start year + years + 1 past the last year |
| Failures.SchedulingRaisesExactly | backend/app/services/tenure_scheduling.py:54-61 | scheduling an employee's thresholds raises if and only if some rule needs an anniversary past the last year; for < and >= it needs one year less than evaluation does |
| Failures.EvaluationRaisesExactly | backend/app/services/condition_fields.py:702-708 | matching raises if and only if such a condition belongs to an effective version, whether or not its clause could match |
| Worker.WorkerCatchesUp | backend/app/workers/reconciliation.py:130-160 | from every reachable database in which nobody is unresolvable today, at most as many batches as pending events leave nothing due and everybody fresh |
| Worker.ServicesCanLoad | backend/app/services/assignment_resolution.py:27-44 | after every run the imperative services find what they need for every employee and date: one effective version per policy, validated overrides, rows in query order |
| Processing.AlwaysPunctual | backend/app/services/scheduled_reconciliations.py:256-260 | after every run each processed event was processed no earlier than it was due and no later than the clock |
| Processing.ProcessedIsTerminal | backend/app/services/scheduled_reconciliations.py:65-77 | whatever is done later, rows keep their identities and processed events never change |
| Theorems.DirectMatchOverRuns | backend/app/services/policy_matching.py:106-132 | in every reachable database a stored version matches an employee directly if and only if its and/or tree is true of the employee's facts |
| Theorems.HistoriesAreSound | backend/app/services/reconciliation.py:156-204 | after every run each history has no empty interval, no overlap of one key, nothing later than the clock, and for every key and every assignment created minus ended audit entries equal to its open rows |
| Theorems.OperationKeeps | backend/app/database.py:56-63 | every operation, completed or rolled back, keeps the invariant under a clock that never runs backwards |
| Theorems.RunKeeps | backend/app/services/scheduled_reconciliations.py:118-260 | every interleaving of employee, policy, group, field and override operations and worker batches keeps the invariant |
| QueueExactness.FutureQueueIsExact | backend/app/services/tenure_scheduling.py:54-89 | after every run an event later than the clock is pending if and only if, under the trigger of its kind, it is the start of a stored version of an active policy, the day after its end, or a day inside the version's range on which a stored tenure condition flips for an existing employee; identities are unique, and each processed event carries a processing time between its due instant and the clock |
| QueueExactness.AlwaysJustified | backend/app/services/scheduled_reconciliations.py:134-160 | after every run each pending event, due or not, is such a boundary, so it names an existing version or employee |
| Cardinality.OpenRowsHaveOneValue | backend/app/services/employee_overrides.py:196-230 | after every run, whatever is due, an employee's open rows hold at most one value of a one-valued field and no repeated (field, value) |
| Cardinality.AlwaysValidated | backend/app/services/employee_overrides.py:60-193 | after every run active overrides have one value per one-valued field and no repeated value, also when employees are deleted and fields are added |
| Freshness.ChangesOnlyAtBoundaries | backend/app/services/tenure_scheduling.py:54-71 | a day on which an employee's effective versions, matched clauses or outcome differ from the day before is a version start, the day after a version end or a tenure threshold inside a version's range |
| Freshness.QuietOutcome | backend/app/services/assignment_resolution.py:21-64 | between two days without a boundary the resolver raises on both or gives the same stable keys and policies |
| Freshness.NothingDueMeansFresh | backend/app/services/scheduled_reconciliations.py:164-189 | the invariant gives freshness to one employee as soon as no event concerning it is due |
| Freshness.StepKeeps | backend/app/services/reconciliation.py:42-86 | reconciling a set of employees keeps the invariant when every other employee's view and pending boundaries are unchanged |
| Freshness.ReconciledEmployee | backend/app/services/reconciliation.py:64-85 | a batch gives its members the resolver's open rows and links and leaves everybody else's alone |
| Runs.SyncVersionsExact | backend/app/services/scheduled_reconciliations.py:118-161 | after the synchronization of a policy its pending events are the desired ones not yet processed, and all other pending events are as before |
| Runs.SyncVersionsQueue | backend/app/services/scheduled_reconciliations.py:134-160 | every future start and end of an active policy's versions is pending afterwards |
| Runs.SyncVersionsJustified | backend/app/services/scheduled_reconciliations.py:134-150 | whatever is pending for the policy afterwards is a boundary of an active version |
| Runs.SyncTenureQueue | backend/app/services/tenure_scheduling.py:25-89 | one employee's synchronization leaves exactly its thresholds pending and touches no other employee's events |
| Runs.SyncAllTenureQueue | backend/app/services/tenure_scheduling.py:92-101 | the synchronization of everybody does so for every employee |
| Runs.AddVersionKeeps | backend/app/services/policy_authoring.py:75-89 | storing a version, both synchronizations and the refresh of everybody keep the invariant |
| Runs.SetStatusKeeps | backend/app/routers/policies.py:228-250 | changing a policy's status, both synchronizations and the refresh keep the invariant |
| Runs.MembersKeep | backend/app/services/groups.py:88-138 | any change of one employee's memberships keeps the invariant though only that employee is reconciled; which change joining and leaving make is in `Effects` |
| Runs.GroupPoliciesKeep | backend/app/services/groups.py:188-217 | changing a group's policies keeps the invariant though only its members are reconciled |
| Runs.OverrideKeeps | backend/app/services/employee_overrides.py:60-193 | changing an override keeps the invariant though only that employee is reconciled |
| EmployeeRuns.CreateKeeps | backend/app/services/employees.py:21-62 | creating an employee keeps the invariant for all, reconciling only the impacted |
| EmployeeRuns.UpdateKeeps | backend/app/services/employees.py:65-117 | updating keeps it, although tenure events are resynchronized only when the start date changed |
| EmployeeRuns.DeleteKeeps | backend/app/services/employees.py:120-158 | deleting keeps it for every survivor, and no pending event names the deleted employee |
| Batches.ReconcileTwice | backend/app/services/reconciliation.py:134-206 | a second batch at the same instant reconciles nothing differently: two batches equal one batch of their union, errors included |
| Batches.ReconcileManyIsOne | backend/app/services/scheduled_reconciliations.py:238-245 | the repeated fan-outs and single refreshes of one event batch equal one reconciliation of everybody they name |
| Batches.PlanMembers | backend/app/services/policy_reconciliation.py:11-35 | an event batch reconciles an employee if and only if it names a policy version or that employee |
| Batches.BatchKeeps | backend/app/services/scheduled_reconciliations.py:192-260 | processing a batch keeps the invariant: events leave the queue only after their employees were reconciled |
| Chronicle.StepMoves | backend/app/services/reconciliation.py:89-211 | one operation moves a surviving history by at most one reconciliation at its own instant, never reuses an identity and never changes a processed event |
| Reconciliation.StableIgnoresOnlyTheClock | backend/app/services/reconciliation.py:260-270 | two explanations have the same stable form if and only if they differ only in nested evaluation dates |
| Reconciliation.PastNeverRewritten | backend/app/services/reconciliation.py:156-204 | a reconciliation leaves the as-of answer at every earlier instant unchanged, with no premise on the clock |
| Reconciliation.OpenRowsAreDesired | backend/app/services/reconciliation.py:134-204 | afterwards the open rows carry exactly the desired keys, each once |
| Reconciliation.FutureIsDesiredExactly | backend/app/services/reconciliation.py:225-241 | the as-of answer at every instant from the reconciliation on is the desired set if and only if every row closed later than that carries a desired key; the order check alone does not ensure this |
| Reconciliation.HistoryRefinesStepFunction | backend/app/services/employee_assignments.py:20-41 | under a non-decreasing clock, ties included, no request is rejected, intervals are non-empty and disjoint per key, and the as-of query is the step function of the requests |
| Reconciliation.ClockPremiseIsNeeded | backend/app/services/reconciliation.py:225-241 | a run that the order check accepts and that answers wrongly, because the check ignores closing times |
| Reconciliation.NoChurn | backend/app/services/reconciliation.py:156-204 | reconciling with the keys that are open already changes no row and audits nothing |
| Reconciliation.NoChurnFromTheClock | backend/app/services/reconciliation.py:244-270 | so does a later request that differs only in evaluation dates |
| Reconciliation.ReconcileAudits | backend/app/services/reconciliation.py:166-202 | for every property of assignments, and so for every key, the audit balance moves exactly as the number of open rows |
| Reconciliation.AuditConservation | backend/app/services/reconciliation.py:156-204 | over every run, for every key and every assignment, created minus ended entries equal the open rows |
| Reconciliation.NewEntries | backend/app/services/reconciliation.py:168-203 | the audit trail only grows, and each new entry carries the instant of its reconciliation |
| Reconciliation.NewRowsAreDesired | backend/app/services/reconciliation.py:179-188 | a row that opens starts at the instant and carries the last desired assignment of its key |
| Reconciliation.ByKeyIsLast | backend/app/services/reconciliation.py:134-134 | an assignment is in the dictionary if and only if it is the last desired one of its key |
| Reconciliation.AsOfMembers | backend/app/services/employee_assignments.py:20-41 | the as-of answer lists the assignment and the start of exactly the rows live at the instant |
| Reconciliation.AssignmentTable.LatestStart | backend/app/services/reconciliation.py:225-241 | the latest start decides the order check |
| Reconciliation.AssignmentTable.Refresh | backend/app/services/reconciliation.py:89-211 | the in-place loops compute the new rows and audit entries of the specification, the open keys become the desired ones, earlier entries stay and new ones carry the instant; a rejected call changes nothing |
| Reconciliation.AssignmentTable.Dictionary | backend/app/services/reconciliation.py:134-134 | the dictionary of desired assignments by key, later duplicates replacing earlier ones |
| Reconciliation.AssignmentTable.AssignmentsAsOf | backend/app/services/employee_assignments.py:20-41 | the half-open as-of query as a scan of the table |
| Services.ResolveForDate | backend/app/services/assignment_resolution.py:21-64 | the pipeline of matching, resolution, overrides and explanations computes the outcome of the view, whatever order the queries return |
| Services.ResolveAll | backend/app/services/assignment_resolution.py:67-88 | every existing employee of a batch is resolved, or one that raises stops the batch |
| Services.Store.RefreshEach | backend/app/services/reconciliation.py:69-85 | the loop over a batch refreshes links and rows of each employee and of no other |
| Services.Store.ReconcileEmployees | backend/app/services/reconciliation.py:42-86 | the batch equals the atomic step of the state machine: all of it, or nothing |
| Services.Store.CollectBatch | backend/app/services/scheduled_reconciliations.py:206-225 | the dictionaries of policies and employees that a batch names, or the error for a missing entity |
| Services.Store.ReconcileDueEvents | backend/app/services/scheduled_reconciliations.py:192-260 | processing a batch equals the atomic step of the state machine, tables and queue, or changes nothing |
| Schedule.SyncIsExact | backend/app/services/scheduled_reconciliations.py:80-115 | a synchronization makes the pending events of the given entities the desired ones minus the processed, leaves others alone, keeps identities unique and processed events terminal |
| Schedule.SyncReachesDesired | backend/app/services/scheduled_reconciliations.py:145-160 | when nothing later than now was processed, the pending events of the entities are exactly the desired set |
| Schedule.VersionEventsMembers | backend/app/services/scheduled_reconciliations.py:134-143 | the desired events of a policy: every future start, and the day after every future end except the last day of the calendar |
| Schedule.TenureEventsMembers | backend/app/services/tenure_scheduling.py:54-71 | the desired events of an employee: every future threshold of a rule inside its version's range |
| Schedule.BatchIsEarliest | backend/app/services/scheduled_reconciliations.py:164-189 | a batch is the earliest part of what is due by (time, identity); below the limit it is all of it |
| Schedule.BatchRuns | backend/app/services/scheduled_reconciliations.py:164-189 | a batch runs from the earliest due instant to the latest, and the older event comes first at one instant |
| Schedule.MarkedKeys | backend/app/services/scheduled_reconciliations.py:256-260 | processing moves exactly the batch from pending to processed, with a processing time on processed events only |
| Schedule.StaysPunctual | backend/app/services/scheduled_reconciliations.py:105-115 | whatever keeps processed events as they were keeps every processing time between due instant and clock |
| EventQueue.EventTable.ScheduleReconciliation | backend/app/services/scheduled_reconciliations.py:46-77 | idempotent creation that restores a cancelled event, leaves a processed one, and rejects unsupported events |
| EventQueue.EventTable.CancelPending | backend/app/services/scheduled_reconciliations.py:80-115 | cancels exactly the pending events of the entities that are not kept, and returns those |
| EventQueue.EventTable.SyncPolicyVersions | backend/app/services/scheduled_reconciliations.py:118-161 | the loops reach the specified synchronization of a policy |
| EventQueue.EventTable.SyncEmployeeTenure | backend/app/services/tenure_scheduling.py:25-89 | the loops reach the specified synchronization of an employee, or a calendar error changes nothing |
| EventQueue.EventTable.ProcessDue | backend/app/services/scheduled_reconciliations.py:256-260 | the status loop marks exactly the due batch |
| EventQueue.EventTable.Drain | backend/app/workers/reconciliation.py:117-169 | the loop ends; each handled event was pending, is handled once, and carries the reading of the batch that handled it, not earlier than it was due; all batches together are ordered by (time, identity) for any clock and precede everything still pending; every batch but the last is full; the counter is the number handled; `drained` means nothing was due at the last reading, and otherwise the time was up, which it was not before |
| Calendar.OrdinalOrder | backend/app/services/condition_fields.py:702-719 | comparing ordinals is comparing dates |
| Calendar.NextDay | backend/app/services/condition_fields.py:577-599 | the day after a date on the Gregorian calendar has the next ordinal, and January 1 of year 1 has ordinal 1 |
| Calendar.MonthLengths | backend/app/services/condition_fields.py:577-582 | the lengths of the months, by the alternation of 30 and 31 and the leap year rule |
| Calendar.TenureIsCompletedYears | backend/app/services/condition_fields.py:702-719 | for every operator a tenure comparison compares the number of completed years: the n whose anniversary is reached while the next is not |
| Calendar.OrdinalRange | backend/app/services/scheduled_reconciliations.py:140-141 | every date lies between the first and last ordinal, and only the last day of the calendar has none after it |
| Calendar.AnniversaryIsTheSameDay | backend/app/services/condition_fields.py:577-582 | an anniversary is the same month and day, or February 28 for February 29 in a common year, and fails only beyond the last year |
| Calendar.ThresholdsIncrease | backend/app/services/condition_fields.py:577-582 | thresholds are strictly increasing in the number of years |
| Calendar.FlipDaysExact | backend/app/services/condition_fields.py:585-599 | for every start date and operator the condition differs between a day and the day before if and only if the day is a computed transition date |
| Calendar.TenureDefined | backend/app/services/condition_fields.py:702-708 | a comparison has a value if and only if the anniversary after the threshold is representable, whatever the operator |
| Calendar.TransitionDaysDefined | backend/app/services/condition_fields.py:585-599 | transition dates exist if and only if the last anniversary that the operator needs is representable |
| ConditionTree.CompilationPreservesMeaning | backend/app/services/policy_compiler.py:57-91 | for every tree without an empty group and every valuation, some clause holds if and only if the tree does, and no clause is empty |
| ConditionTree.DnfSize | backend/app/services/policy_compiler.py:80-91 | the number of clauses is the arithmetic of the tree: sums for or, products for and |
| ConditionTree.Compile | backend/app/services/policy_compiler.py:57-91 | the recursive loop yields the clauses, or the errors for an empty group or too many clauses, despite its early exits |
| ConditionTree.CompiledClauseCount | backend/app/policy_condition_limits.py:77-90 | the saturating predictor is the minimum of the true count and 201 |
| ConditionTree.StructuralStats | backend/app/policy_condition_limits.py:58-74 | the accumulated groups, conditions and depth of a tree |
| ConditionTree.DepthIsLongestChain | backend/app/policy_condition_limits.py:58-74 | the computed depth is the length of the longest chain of nested groups |
| ConditionTree.ValidateLimits | backend/app/policy_condition_limits.py:38-55 | which limit is reported first |
| ConditionTree.PredictThenCompile | backend/app/policy_condition_limits.py:77-90 | compilation succeeds if and only if the prediction is at most 200, and then yields that many clauses |
| ConditionTree.DnfConditions | backend/app/services/policy_compiler.py:39-54 | compilation invents no condition |
| OrgChart.AncestorsAreAbove | backend/app/services/org_chart.py:57-77 | the upward closure is exactly the set of managers some hops above, cycles included |
| OrgChart.DescendantsAreBelow | backend/app/services/org_chart.py:80-94 | the downward closure is exactly the set of reports some hops below, cycles included |
| OrgChart.ClosuresAreDual | backend/app/services/org_chart.py:57-94 | one employee is an ancestor of another if and only if the other is its descendant |
| OrgChart.LevelIsHopsToRoot | backend/app/services/org_chart.py:117-119 | in an acyclic chart the level is the number of hops to the root |
| OrgChart.InsertKeepsAcyclic | backend/app/services/org_chart.py:30-54 | an accepted manager assignment keeps the chart acyclic |
| OrgChart.RemoveKeepsAcyclic | backend/app/services/employees.py:128-141 | so does a deletion that detaches the direct reports |
| OrgChart.AlwaysAcyclic | backend/app/services/employees.py:21-158 | every run of creations, updates and deletions keeps the chart acyclic and its managers existing |
| OrgChart.RejectedMoveIsACycle | backend/app/services/org_chart.py:47-54 | a rejected move would have created a cycle, so the check is not too strict |
| OrgChart.ManagerAcceptedExactly | backend/app/services/org_chart.py:30-54 | a manager is accepted if and only if it exists, is not the employee and does not report to it; each error has its own reason |
| Common.FirstDifference | backend/app/services/condition_fields.py:688-699 | one text is smaller than another exactly when it ends or has the smaller character at their first difference |
| Conditions.TruthIsSatisfaction | backend/app/services/condition_fields.py:688-719 | for all thirteen fields and five operators the evaluator's truth is the meaning of the condition on the employee's record and the manager relation |
| Conditions.FactsOverTime | backend/app/services/condition_fields.py:182-210 | the passing of time changes no field but tenure |
| Employees.FindImpacted | backend/app/services/condition_impacts.py:60-89 | the loop collects exactly the existing employees that some triggered resolver names |
| Employees.UpdateImpactComplete | backend/app/services/condition_impacts.py:29-89 | after an update every employee outside the impact set has all thirteen field values unchanged on every date |
| Employees.CreateImpactComplete | backend/app/services/employees.py:46-54 | the same after a creation, for everybody who existed before |
| Employees.DeleteImpactComplete | backend/app/services/employees.py:127-158 | the same after a deletion, for every survivor outside the descendants and the manager |
| Employees.ImpactIsBounded | backend/app/services/condition_impacts.py:29-89 | a mutation reconciles nobody but the employee, and on a change of manager the managers it names and everybody below |
| Employees.DeleteImpactExactly | backend/app/services/employees.py:127-128 | a deletion reconciles exactly the manager and everybody below |
| Employees.EmployeeTable.Create | backend/app/services/employees.py:26-54 | validation, insertion and the impact set, or the error with nothing changed |
| Employees.EmployeeTable.Update | backend/app/services/employees.py:71-108 | validation, the patched record and the impact set of the changed columns |
| Employees.EmployeeTable.Delete | backend/app/services/employees.py:127-135 | detaches the reports, removes the record and returns the impact set taken before |
| Versions.CreateSucceedsExactly | backend/app/services/policy_versions.py:52-90 | creation fails if and only if the range is reversed or shares a day with a version other than the one closed to make room |
| Versions.CreateKeepsTimeline | backend/app/services/policy_versions.py:64-107 | ranges of a policy stay pairwise disjoint and the new number is the highest |
| Versions.CreateStoresTheDraft | backend/app/services/policy_versions.py:84-119 | the new row holds the requested policy, priority, range and content under the next number, and no other row changes but the one closed the day before |
| Versions.CreateMovesTheTimeline | backend/app/services/policy_versions.py:203-220 | days before the new start keep their version, the new range has the new version only, and later days lose only the version that was closed |
| Versions.AlwaysTimeline | backend/app/services/policy_versions.py:173-200 | every run of creations keeps the timelines disjoint |
| Versions.GetEffective | backend/app/services/policy_versions.py:134-170 | the effective version of each policy, or the error if and only if two are effective, which a timeline excludes |
| Versions.VersionTable.Create | backend/app/services/policy_versions.py:52-119 | closes the prior version in place and inserts, or changes nothing |
| Resolution.ManyIsUnion | backend/app/services/policy_engine.py:159-181 | a many-valued field gets exactly the union of its candidates' values |
| Resolution.OneIsTopPriority | backend/app/services/policy_engine.py:119-156 | without a conflict a one-valued field gets the top-priority value |
| Resolution.SourceIsBest | backend/app/services/policy_engine.py:164-168 | a value's source is its highest-priority, then lowest-identity version |
| Resolution.FinalCardinality | backend/app/services/overrides.py:22-74 | with validated overrides a one-valued field has one final value and no (field, value) repeats |
| Resolution.SortedListUnique | backend/app/services/overrides.py:74-74 | the strictly sorted list of a set is unique |
| Resolution.SortedListOrder | backend/app/services/overrides.py:74-74 | the final list is in the order of fields, then values |
| Resolution.ResolveOne | backend/app/services/policy_engine.py:119-156 | raises if and only if the top priority has two values, otherwise the selected value and source |
| Resolution.ResolveMany | backend/app/services/policy_engine.py:159-181 | the deduplicating loop yields the selection, no pair twice |
| Resolution.ResolveCandidates | backend/app/services/policy_engine.py:64-116 | the loop over groups of equal fields yields the selection of the candidate set, or raises if and only if the set conflicts |
| Resolution.ResolveFinal | backend/app/services/overrides.py:17-74 | resolution and overrides give the sorted list of the final set, and an override never hides a conflict |
| Resolution.ResolveTwice | backend/app/services/policy_engine.py:93-97 | two row orders and two override orders that the queries allow conflict together or give the same list |
| Resolution.ApplyOverridesIsSortedList | backend/app/services/overrides.py:17-74 | filtering, appending and sorting equal the sorted list of the replaced set |
| Overrides.ChangeKeeps | backend/app/services/employee_overrides.py:196-230 | each validated change keeps one override per one-valued field and no repeated value |
| Overrides.ChangeEffect | backend/app/services/employee_overrides.py:60-193 | a successful creation adds exactly its override to those in force, a deletion removes exactly the named one, an update replaces it by its patched form; other employees keep theirs |
| Overrides.ChangedRows | backend/app/services/employee_overrides.py:115-177 | an update or deletion finds its override in force, and rows are only ever retired, at the instant of the change |
| Overrides.ChangeFailsExactly | backend/app/services/employee_overrides.py:196-230 | a change is refused if and only if its override is not in force, a one-valued field has another one, or the value is there already, each with its error |
| Overrides.AlwaysKept | backend/app/services/employee_overrides.py:60-193 | every run of changes does |
| Overrides.CardinalityOverRuns | backend/app/services/employee_overrides.py:60-230 | for every run of changes and every resolution without a conflict, one final value per one-valued field and unique (field, value) pairs |
| Overrides.OverrideTable.Create | backend/app/services/employee_overrides.py:67-87 | validates and inserts, or reports the error with nothing changed |
| Overrides.OverrideTable.Update | backend/app/services/employee_overrides.py:115-146 | retires the row and inserts its replacement, excluding the row itself from validation; an equal target changes nothing |
| Overrides.OverrideTable.Delete | backend/app/services/employee_overrides.py:172-177 | retires an override in force, so that the employee's others and nobody else's stay in force, or reports that there is none |
| Matching.DirectMatchIsTreeTruth | backend/app/services/policy_matching.py:106-132 | a version that stores what its tree compiles to matches directly if and only if the tree holds |
| Matching.DesiredKeys | backend/app/services/assignment_resolution.py:45-58 | the keys to be materialized are the final values, each with its stable explanation, which names winning and losing candidates with their clause and group origins |
| Matching.SameOutcome | backend/app/services/assignment_resolution.py:21-64 | while no condition in use changes its truth, the outcome keeps its policies and stable keys although the date moved |
| Matching.EvaluateClause | backend/app/services/policy_matching.py:106-126 | every condition is evaluated, so an error later in a clause is not hidden by an earlier false |
| Matching.MatchVersion | backend/app/services/policy_matching.py:106-132 | the evidence of exactly the matching non-empty clauses, in order |
| Matching.FindPolicyMatches | backend/app/services/policy_matching.py:71-175 | the policies that match directly or by a group, each with its effective version, evidence and groups and at least one origin |
| ImpactSummary.SummaryBalances | backend/app/services/impact_summaries.py:264-349 | for every population matched = selected + without selected + conflicted = direct + group - both, and the totals are the sums over the field accumulators |
| ImpactMeaning.CountersMeaning | backend/app/services/impact_summaries.py:264-336 | each of the eight employee counters is the number of employees of whom the stored rows say what it is named after: the version applies, by its tree, by a group or by both, priorities conflict, a value is taken from it or none, or an override replaces one |
| ImpactMeaning.FieldIdsMeaning | backend/app/services/impact_summaries.py:338-349 | the employees listed for a field are exactly those whose value of the field the version decides, in force or replaced by an override |
| ImpactSummary.BuildPolicyImpactSummary | backend/app/services/impact_summaries.py:195-382 | without an effective version the report is empty and nobody matches the policy; with one it holds the counted summary |
| ImpactSummary.CountImpact | backend/app/services/impact_summaries.py:264-349 | every counter of the loop is the size of the set it is named after, and every field lookup is defined |
| ImpactSummary.ReadSubject | backend/app/services/impact_summaries.py:276-328 | one employee's origins, conflict, selected and suppressed values |
| ImpactSummary.TakenFields | backend/app/services/impact_summaries.py:338-349 | a value taken from the version belongs to one of its fields |

## Left out

- HTTP routing, request schemas, pagination, permissions, visibility filters, the frontend and the agent server.
- Database sessions, row and advisory locks and `skip_locked`: an operation is one atomic step, and a raising operation changes nothing.
- Scheduled events of overrides, and resolution through persisted policy links: nothing schedules the former.
- Parsing and normalization of condition and assignment values, names of fields, groups and policies: conditions carry parsed operands, which are accepted or not by type.
- Checks that only reject more requests (references in conditions, duplicate names, allowed values): a run of the program is still a run of the model.
- The catalog of condition fields is taken to be synchronized with the code, so every field is active.
- Compiler errors for cyclic groups and unknown logical operators: trees are finite and have two operators.
- Display names, version numbers, constant labels and the outcome label of each candidate in explanations, which follows from the winner, the values and the priorities; a rename of a policy or group does not refresh rows and is no operation here. Candidates and replaced values are recorded for each version, not in list order, which the query leaves open when one version gives a field two values.
- The order of query results without an ORDER BY, and the sorted return lists of services.
- Audit entries of anything but assignments, and the history of deleted employees.
- The assignment summary report, conflict samples, and change previews.
- Freshness over runs says nothing about instants at which the worker is late, beyond the rows being those of an earlier day with every later boundary pending.
- EventQueue.EventTable.Drain: every batch is taken to succeed and no other operation runs in between; a failing batch is a rolled-back step of `Engine`.
- Services.Store.ReconcileEmployees: employees of a batch are visited in any order rather than by identity; the result does not depend on it.
- Services.Store.CollectBatch: events of overrides are not modelled, so its third dictionary is not.
- Services.Store.ReconcileDueEvents: events of overrides are not modelled, and the check that each event has a supported trigger is made where events are created.
- Employees.EmployeeTable.Create: reconciliation and tenure synchronization after the insertion are in `Engine.AfterCreate`; likewise for updates and deletions.
- Overrides.OverrideTable.Create: the reconciliation after the insertion is in `Engine.AfterOverride`; likewise for updates and deletions.
- ImpactSummary.BuildPolicyImpactSummary: field accumulators are values in a map, not shared objects.
