/** Which inputs make resolution, scheduling and creation raise in a reachable database. */
module Failures {
  import opened Common
  import opened Calendar
  import opened OrgChart
  import opened Conditions
  import opened Employees
  import opened ConditionTree
  import opened Reconciliation
  import opened Versions
  import opened Matching
  import opened Schedule
  import opened Engine
  import opened Freshness
  import opened Decisions
  import opened Batches
  import opened Runs
  import opened EmployeeRuns
  import opened Chronicle
  import opened Overrides
  import opened Theorems

  // ----- tenure thresholds beyond the calendar

  /** Some tenure condition of an effective version compares with an anniversary past the last year. */
  ghost predicate PastCalendar(w: World, e: int, day: int)
    requires e in w.people
  {
    exists i, c ::
      && i in EffectiveOf(w.versions, w.statuses, day) && Occurs(c, w.versions[i].payload.clauses)
      && c.field == TenureField && c.operand.YearsOperand?
      && w.people[e].startDate.year + c.operand.years + 1 > MAX_YEAR
  }

  lemma EvaluationRaisesExactly(w: World, e: int, day: int)
    requires e in w.people && TypedVersions(w.versions)
    ensures EvaluationRaises(ViewOf(w, e, day)) <==> PastCalendar(w, e, day)
  {
    forall i, c | i in EffectiveOf(w.versions, w.statuses, day) && Occurs(c, w.versions[i].payload.clauses)
      ensures TruthIn(ViewOf(w, e, day), c).None? <==>
              c.field == TenureField && c.operand.YearsOperand?
              && w.people[e].startDate.year + c.operand.years + 1 > MAX_YEAR
    {
      assert Typed(c);
    }
  }

  lemma RuleYears(w: World, rule: TenureRule)
    requires TypedVersions(w.versions) && rule in AllRules(w)
    ensures rule.years > 0
  {
    RulesMembers(w.versions, w.statuses, |w.versions|, rule);
    var i, c :| 0 <= i < |w.versions| && StoresTenure(w.versions, w.statuses, i, c) && rule == RuleOf(c, WindowOf(w.versions, i));
    assert Occurs(c, w.versions[i].payload.clauses) && Typed(c);
  }

  /** Scheduling one employee's thresholds raises exactly when some rule needs an anniversary past the last year. */
  lemma {:induction false} SchedulingRaisesExactly(employee: int, start: ValidDate, rules: seq<TenureRule>, now: int)
    requires forall rule | rule in rules :: rule.years > 0
    ensures TenureEvents(employee, start, rules, now).None? <==>
            exists rule :: rule in rules && start.year + LastYears(rule.op, rule.years) > MAX_YEAR
  {
    if rules != [] {
      var init, last := rules[..|rules| - 1], rules[|rules| - 1];
      assert rules == init + [last];
      SchedulingRaisesExactly(employee, start, init, now);
      TransitionDaysDefined(start, last.op, last.years);
    }
  }

  // ----- what can raise after a run

  lemma NeverTwoEffective(w: World, e: int, day: int)
    requires e in w.people && Timeline(w.versions)
    ensures !TwoEffective(ViewOf(w, e, day))
  {
    var view := ViewOf(w, e, day);
    forall i, j | i in view.effective && j in view.effective && i < j
      ensures view.effective[i].policy != view.effective[j].policy
    {
      assert Disjoint(w.versions[i], w.versions[j]) || w.versions[i].policy != w.versions[j].policy;
    }
  }

  /** Policies conflict for the employee, or its tenure leaves the calendar. */
  ghost predicate Unresolvable(w: World, e: int, day: int)
    requires e in w.people
  {
    PastCalendar(w, e, day) || PrioritiesConflict(w, e, day)
  }

  lemma ResolutionRaisesExactly(w: World, e: int, day: int)
    requires e in w.people && Inputs(w)
    ensures Resolve(w, e, day).Raised? <==> Unresolvable(w, e, day)
  {
    NeverTwoEffective(w, e, day);
    EvaluationRaisesExactly(w, e, day);
    ConflictMeaning(w, e, day);
  }

  /**
   * After every run the error for several effective versions cannot occur, and a
   * resolution raises exactly for a priority conflict or when a tenure condition of an
   * effective version compares with an anniversary past the last year.
   */
  lemma RaisesExactly(ops: seq<Op>, e: int, day: int)
    requires RunTimed(ops) && e in Engine.Run(ops).people
    ensures var w := Engine.Run(ops);
            !TwoEffective(ViewOf(w, e, day)) && (Resolve(w, e, day).Raised? <==> Unresolvable(w, e, day))
  {
    var w := Engine.Run(ops);
    RunKeeps(ops);
    NeverTwoEffective(w, e, day);
    ResolutionRaisesExactly(w, e, day);
  }

  // ----- why an operation raises

  /** Somebody among those to be reconciled has no resolution. */
  ghost predicate SomeUnresolvable(w: World, ids: set<int>, day: int) {
    exists e :: e in ids && e in w.people && Unresolvable(w, e, day)
  }

  /** Some tenure condition of an active policy has a threshold past the last year for this start date. */
  ghost predicate ThresholdPastCalendar(w: World, start: ValidDate) {
    exists i, c :: StoresTenure(w.versions, w.statuses, i, c) && start.year + LastYears(c.op, c.operand.years) > MAX_YEAR
  }

  lemma ReconcilingFails(w: World, clock: int, ids: set<int>, at: int)
    requires Inputs(w) && clock <= at && forall e | e in w.people :: Clocked(HistoryOf(w, e).rows, clock)
    ensures ReconcileAll(w, ids, at).None? <==> SomeUnresolvable(w, ids, DayOf(at))
  {
    ReconcileFailsExactly(w, ids, at);
    forall e | e in w.people
      ensures Resolve(w, e, DayOf(at)).Raised? <==> Unresolvable(w, e, DayOf(at))
    {
      ResolutionRaisesExactly(w, e, DayOf(at));
    }
  }

  lemma SyncingFails(w: World, e: int, now: int)
    requires TypedVersions(w.versions) && e in w.people
    ensures SyncTenure(w, e, now).None? <==> ThresholdPastCalendar(w, w.people[e].startDate)
  {
    var start := w.people[e].startDate;
    forall rule | rule in AllRules(w)
      ensures rule.years > 0
    {
      RuleYears(w, rule);
    }
    SchedulingRaisesExactly(e, start, AllRules(w), now);
    if rule :| rule in AllRules(w) && start.year + LastYears(rule.op, rule.years) > MAX_YEAR {
      RulesMembers(w.versions, w.statuses, |w.versions|, rule);
    }
    if i, c :| StoresTenure(w.versions, w.statuses, i, c) && start.year + LastYears(c.op, c.operand.years) > MAX_YEAR {
      RulesMembers(w.versions, w.statuses, |w.versions|, RuleOf(c, WindowOf(w.versions, i)));
    }
  }

  ghost predicate Unschedulable(w: World, e: int) {
    e in w.people && ThresholdPastCalendar(w, w.people[e].startDate)
  }

  lemma {:induction false} SyncingAllFails(w: World, below: nat, now: int)
    requires TypedVersions(w.versions)
    ensures SyncAllTenure(w, below, now).None? <==>
            exists e :: 0 <= e < below && Unschedulable(w, e)
  {
    if below > 0 {
      var last := below - 1;
      SyncingAllFails(w, last, now);
      if SyncAllTenure(w, last, now).Some? {
        var w1 := SyncAllTenure(w, last, now).value;
        SyncAllTenureOnlyEvents(w, last, now);
        assert AllRules(w1) == AllRules(w);
        if last in w.people {
          SyncingFails(w1, last, now);
          assert SyncAllTenure(w, below, now) == SyncTenure(w1, last, now);
        }
        assert SyncAllTenure(w, below, now).None? <==> Unschedulable(w, last);
      }
      assert forall e | 0 <= e < below && Unschedulable(w, e) :: e == last || e < last;
    }
  }

  /** Both synchronizations and the refresh of everybody, for the policies of `w`. */
  ghost predicate RefreshFails(w: World, day: int) {
    || (exists e :: Unschedulable(w, e))
    || SomeUnresolvable(w, w.people.Keys, day)
  }

  lemma RefreshingFails(w: World, clock: int, policy: int, syncAt: int, tenureAt: int, at: int)
    requires Inputs(w) && clock <= at && forall e | e in w.people :: Clocked(HistoryOf(w, e).rows, clock)
    ensures SyncAndRefresh(w, policy, syncAt, tenureAt, at).None? <==> RefreshFails(w, DayOf(at))
  {
    var ws := SyncVersions(w, policy, syncAt);
    assert AllRules(ws) == AllRules(w);
    SyncingAllFails(ws, w.nextEmployee, tenureAt);
    assert forall e :: Unschedulable(ws, e) <==> Unschedulable(w, e);
    if SyncAllTenure(ws, w.nextEmployee, tenureAt).Some? {
      SyncAllTenureOnlyEvents(ws, w.nextEmployee, tenureAt);
      var w2 := SyncAllTenure(ws, w.nextEmployee, tenureAt).value;
      assert VersionsSound(w2);
      RefreshingFailsAfter(w, clock, w2, at);
    }
  }

  lemma RefreshingFailsAfter(w: World, clock: int, w2: World, at: int)
    requires Inputs(w) && Inputs(w2) && clock <= at && forall e | e in w.people :: Clocked(HistoryOf(w, e).rows, clock)
    requires w2 == w.(events := w2.events)
    ensures ReconcileAll(w2, w2.people.Keys, at).None? <==> SomeUnresolvable(w, w.people.Keys, DayOf(at))
  {
    ReconcileFailsExactly(w2, w2.people.Keys, at);
    forall e | e in w.people
      ensures Resolve(w2, e, DayOf(at)).Raised? <==> Unresolvable(w, e, DayOf(at))
    {
      assert ViewOf(w2, e, DayOf(at)) == ViewOf(w, e, DayOf(at));
      ResolutionRaisesExactly(w, e, DayOf(at));
    }
  }

  // ----- employees

  ghost predicate CreateFails(w: World, record: Employee, day: int) {
    var w1 := WithEmployee(w, record);
    || ValidateManager(ChartOf(w.people), None, record.manager).Some?
    || SomeUnresolvable(w1, Impacted(w1.people, CreateMutation(w.nextEmployee, record)), day)
    || ThresholdPastCalendar(w, record.startDate)
  }

  ghost predicate UpdateFails(w: World, id: int, patch: Patch, day: int) {
    id in w.people ==>
      var before, record := w.people[id], Patched(w.people[id], patch);
      var w1 := w.(people := w.people[id := record]);
      || (patch.manager.Some? && ValidateManager(ChartOf(w.people), Some(id), patch.manager.value).Some?)
      || (record != before
          && (SomeUnresolvable(w1, Impacted(w1.people, UpdateMutation(id, before, record)), day)
              || (record.startDate != before.startDate && ThresholdPastCalendar(w, record.startDate))))
  }

  ghost predicate DeleteFails(w: World, id: int, day: int) {
    id in w.people ==> SomeUnresolvable(WithoutEmployeeRows(w, id), DeleteImpact(w.people, id), day)
  }

  lemma CreationFails(w: World, clock: int, record: Employee, at: int)
    requires Inputs(w) && TablesSound(w, clock) && clock <= at
    ensures AfterCreate(w, record, at).None? <==> CreateFails(w, record, DayOf(at))
  {
    if ValidateManager(ChartOf(w.people), None, record.manager).None? {
      var id, w1 := w.nextEmployee, WithEmployee(w, record);
      var ids := Impacted(w1.people, CreateMutation(id, record));
      CreatedInputs(w, record);
      ReconcilingFails(w1, clock, ids, at);
      assert AllRules(w1) == AllRules(w);
      if ReconcileAll(w1, ids, at).Some? {
        SyncingFailsAfter(w1, ids, id, at);
      }
    }
  }

  lemma SyncingFailsAfter(w1: World, ids: set<int>, id: int, at: int)
    requires TypedVersions(w1.versions) && id in w1.people && ReconcileAll(w1, ids, at).Some?
    ensures SyncTenure(ReconcileAll(w1, ids, at).value, id, at).None? <==> ThresholdPastCalendar(w1, w1.people[id].startDate)
  {
    var r := ReconcileAll(w1, ids, at).value;
    assert AllRules(r) == AllRules(w1);
    SyncingFails(r, id, at);
  }

  lemma UpdatingFails(w: World, clock: int, id: int, patch: Patch, at: int)
    requires Inputs(w) && TablesSound(w, clock) && clock <= at && id in w.people
    ensures AfterUpdate(w, id, patch, at).None? <==> UpdateFails(w, id, patch, DayOf(at))
  {
    var before, record := w.people[id], Patched(w.people[id], patch);
    NoColumnChanged(before, record);
    if patch.manager.Some? ==> ValidateManager(ChartOf(w.people), Some(id), patch.manager.value).None? {
      UpdatedInputs(w, id, patch);
      ReplacingFails(w, clock, id, record, at);
    }
  }

  lemma NoColumnChanged(before: Employee, after: Employee)
    ensures ChangedColumns(before, after) == {} <==> after == before
    ensures StartDateColumn in ChangedColumns(before, after) <==> after.startDate != before.startDate
  {
    if ChangedColumns(before, after) == {} {
      assert forall column :: column !in ChangedColumns(before, after);
    }
  }

  lemma ReplacingFails(w: World, clock: int, id: int, record: Employee, at: int)
    requires id in w.people && TablesSound(w, clock) && clock <= at && Inputs(w.(people := w.people[id := record]))
    ensures var before, w1 := w.people[id], w.(people := w.people[id := record]);
            var ids := Impacted(w1.people, UpdateMutation(id, before, record));
            && (ReconcileAll(w1, ids, at).None? <==> SomeUnresolvable(w1, ids, DayOf(at)))
            && (ReconcileAll(w1, ids, at).Some? ==>
                  (SyncTenure(ReconcileAll(w1, ids, at).value, id, at).None? <==> ThresholdPastCalendar(w, record.startDate)))
  {
    var w1 := w.(people := w.people[id := record]);
    var ids := Impacted(w1.people, UpdateMutation(id, w.people[id], record));
    ReconcilingFails(w1, clock, ids, at);
    assert AllRules(w1) == AllRules(w);
    if ReconcileAll(w1, ids, at).Some? {
      SyncingFailsAfter(w1, ids, id, at);
    }
  }

  lemma DeletingFails(w: World, clock: int, id: int, at: int)
    requires Inputs(w) && TablesSound(w, clock) && clock <= at && id in w.people
    ensures AfterDelete(w, id, at).None? <==> DeleteFails(w, id, DayOf(at))
  {
    DeletedInputs(w, id);
    ReconcilingFails(WithoutEmployeeRows(w, id), clock, DeleteImpact(w.people, id), at);
  }

  // ----- policies

  /** The request is refused before anything is written. */
  ghost predicate VersionRefused(w: World, policy: int, input: VersionInput) {
    || (exists v :: v in input.values && v.0 !in w.cardinality)
    || !EveryCondition(input.tree, Typed) || !NoEmptyGroup(input.tree) || FirstBrokenLimit(input.tree).Some?
    || WithVersion(w.versions, DraftOf(policy, input)).Err?
  }

  lemma StoredRefused(w: World, policy: int, input: VersionInput)
    ensures Stored(w, policy, input).None? <==> VersionRefused(w, policy, input)
  {
  }

  ghost predicate CreatePolicyFails(w: World, status: PolicyStatus, input: VersionInput, day: int) {
    VersionRefused(w, w.nextPolicy, input)
    || RefreshFails(Stored(WithPolicy(w, status), w.nextPolicy, input).value, day)
  }

  ghost predicate AddVersionFails(w: World, policy: int, input: VersionInput, day: int) {
    policy !in w.statuses || VersionRefused(w, policy, input) || RefreshFails(Stored(w, policy, input).value, day)
  }

  ghost predicate SetStatusFails(w: World, policy: int, status: PolicyStatus, day: int) {
    policy !in w.statuses
    || (w.statuses[policy] != status && RefreshFails(w.(statuses := w.statuses[policy := status]), day))
  }

  lemma CreatingPolicyFails(w: World, clock: int, status: PolicyStatus, input: VersionInput, syncAt: int, tenureAt: int, at: int)
    requires Inputs(w) && TablesSound(w, clock) && clock <= at
    ensures AfterCreatePolicy(w, status, input, syncAt, tenureAt, at).None? <==> CreatePolicyFails(w, status, input, DayOf(at))
  {
    StoredRefused(WithPolicy(w, status), w.nextPolicy, input);
    if Stored(WithPolicy(w, status), w.nextPolicy, input).Some? {
      StoredNewPolicy(w, status, input);
      RefreshingFails(Stored(WithPolicy(w, status), w.nextPolicy, input).value, clock, w.nextPolicy, syncAt, tenureAt, at);
    }
  }

  lemma AddingVersionFails(w: World, clock: int, policy: int, input: VersionInput, syncAt: int, tenureAt: int, at: int)
    requires Inputs(w) && TablesSound(w, clock) && clock <= at
    ensures AfterAddVersion(w, policy, input, syncAt, tenureAt, at).None? <==> AddVersionFails(w, policy, input, DayOf(at))
  {
    StoredRefused(w, policy, input);
    if policy in w.statuses && Stored(w, policy, input).Some? {
      StoredInputs(w, policy, input);
      RefreshingFails(Stored(w, policy, input).value, clock, policy, syncAt, tenureAt, at);
    }
  }

  lemma SettingStatusFails(w: World, clock: int, policy: int, status: PolicyStatus, syncAt: int, tenureAt: int, at: int)
    requires Inputs(w) && TablesSound(w, clock) && clock <= at
    ensures AfterSetStatus(w, policy, status, syncAt, tenureAt, at).None? <==> SetStatusFails(w, policy, status, DayOf(at))
  {
    if policy in w.statuses && w.statuses[policy] != status {
      var w1 := w.(statuses := w.statuses[policy := status]);
      StatusInputs(w, policy, status, w.nextPolicy);
      assert w1 == w.(statuses := w.statuses[policy := status], nextPolicy := w.nextPolicy);
      RefreshingFails(w1, clock, policy, syncAt, tenureAt, at);
    }
  }

  // ----- groups, overrides and the worker

  ghost predicate MembersFail(w: World, members: set<(int, int)>, group: int, id: int, day: int) {
    group !in w.groups || id !in w.people
    || (members != w.members && Unresolvable(w.(members := members), id, day))
  }

  ghost predicate AttachmentsFail(w: World, group: int, added: set<int>, removed: set<int>, day: int) {
    || group !in w.groups || !(added + removed <= w.statuses.Keys)
    || ((exists p :: (p in removed && (group, p) in w.attached) || (p in added && (group, p) !in w.attached))
        && SomeUnresolvable(w.(attached := Attached(w, group, added, removed)), MembersOf(w, group), day))
  }

  /** The attachments after an update: removals first. */
  function Attached(w: World, group: int, added: set<int>, removed: set<int>): set<(int, int)> {
    w.attached - (set p | p in removed :: (group, p)) + (set p | p in added :: (group, p))
  }

  ghost predicate OverrideFails(w: World, change: OverrideOp, day: int) {
    var employee, field := OverrideEmployee(change), OverrideField(change);
    || employee !in w.people || (field.Some? && field.value !in w.cardinality)
    || Changed(w.overrides, OneValued(w), change).Err?
    || (var overrides := Changed(w.overrides, OneValued(w), change).value;
        overrides != w.overrides && Unresolvable(w.(overrides := overrides), employee, day))
  }

  ghost predicate BatchFails(w: World, limit: nat, at: int) {
    limit < 1
    || exists i, e :: i in Due(w.events, at, limit) && i < |w.events| && Concerns(w.events[i].key, e)
                      && e in w.people && Unresolvable(w, e, DayOf(at))
  }

  lemma ChangingMembersFails(w: World, clock: int, members: set<(int, int)>, group: int, id: int, at: int)
    requires Inputs(w) && TablesSound(w, clock) && clock <= at
    requires forall m: (int, int) | m.1 != id :: m in members <==> m in w.members
    ensures AfterMembers(w, members, group, id, at).None? <==> MembersFail(w, members, group, id, DayOf(at))
  {
    if group in w.groups && id in w.people && members != w.members {
      MembersAreLocal(w, members, id);
      ReconcilingFails(w.(members := members), clock, {id}, at);
    }
  }

  lemma ChangingAttachmentsFails(w: World, clock: int, group: int, added: set<int>, removed: set<int>, at: int)
    requires Inputs(w) && TablesSound(w, clock) && clock <= at
    ensures AfterGroupPolicies(w, group, added, removed, at).None? <==> AttachmentsFail(w, group, added, removed, DayOf(at))
  {
    var detached := w.attached - (set p | p in removed :: (group, p));
    var attached := Attached(w, group, added, removed);
    assert detached == w.attached && attached == detached <==>
        !exists p :: (p in removed && (group, p) in w.attached) || (p in added && (group, p) !in w.attached) by {
      ChangesAttachments(w, group, added, removed);
    }
    if !(detached == w.attached && attached == detached) {
      AttachmentsAreLocal(w, group, attached);
      ReconcilingFails(w.(attached := attached), clock, MembersOf(w, group), at);
    }
  }

  lemma ChangesAttachments(w: World, group: int, added: set<int>, removed: set<int>)
    ensures var detached := w.attached - (set p | p in removed :: (group, p));
            (detached == w.attached && Attached(w, group, added, removed) == detached) <==>
            !exists p :: (p in removed && (group, p) in w.attached) || (p in added && (group, p) !in w.attached)
  {
    var detached := w.attached - (set p | p in removed :: (group, p));
    var attached := Attached(w, group, added, removed);
    if p :| p in removed && (group, p) in w.attached {
      assert (group, p) !in detached;
    }
    if p :| p in added && (group, p) !in w.attached {
      assert (group, p) in attached && (group, p) !in detached;
    }
  }

  lemma ChangingOverrideFails(w: World, clock: int, change: OverrideOp, at: int)
    requires Inputs(w) && TablesSound(w, clock) && clock <= at
    ensures AfterOverride(w, change, at).None? <==> OverrideFails(w, change, DayOf(at))
  {
    if OverrideEmployee(change) in w.people && Changed(w.overrides, OneValued(w), change).Ok? {
      OverridesAreLocal(w, change);
      var overrides := Changed(w.overrides, OneValued(w), change).value;
      ReconcilingFails(w.(overrides := overrides), clock, {OverrideEmployee(change)}, at);
    }
  }

  lemma ProcessingFails(w: World, clock: int, limit: nat, at: int)
    requires Inputs(w) && QueueSound(w, clock) && TablesSound(w, clock) && clock <= at
    ensures AfterBatch(w, limit, at).None? <==> BatchFails(w, limit, at)
  {
    var batch := Due(w.events, at, limit);
    BatchNamesExisting(w, clock, limit, at);
    PlanFailsExactly(w, clock, PlanOf(w, batch), at);
    forall e | e in w.people
      ensures e in UnionOf(PlanOf(w, batch)) <==> exists i :: i in batch && i < |w.events| && Concerns(w.events[i].key, e)
      ensures Resolve(w, e, DayOf(at)).Raised? <==> Unresolvable(w, e, DayOf(at))
    {
      BatchReconciles(w, batch, e);
      ResolutionRaisesExactly(w, e, DayOf(at));
    }
  }

  /** A batch reconciles exactly the employees that some event of it concerns. */
  lemma BatchReconciles(w: World, batch: seq<nat>, e: int)
    requires Inputs(w) && e in w.people && forall i | i in batch :: i < |w.events| && Named(w, w.events[i].key)
    ensures e in UnionOf(PlanOf(w, batch)) <==> exists i :: i in batch && i < |w.events| && Concerns(w.events[i].key, e)
  {
    PlanMembers(w, batch, e);
    if i :| i in batch && Concerns(w.events[i].key, e) {
      BatchEvents(w, batch, i);
    }
    if BatchPolicies(w, batch) != {} {
      var policy := SomeMember(BatchPolicies(w, batch));
    }
  }

  /** Why an operation raises, for every operation. */
  ghost predicate Fails(w: World, op: Op) {
    match op
    case CreateEmployee(record, at) => CreateFails(w, record, DayOf(at))
    case UpdateEmployee(id, patch, at) => id !in w.people || UpdateFails(w, id, patch, DayOf(at))
    case DeleteEmployee(id, at) => id !in w.people || DeleteFails(w, id, DayOf(at))
    case CreatePolicy(status, input, _, _, at) => CreatePolicyFails(w, status, input, DayOf(at))
    case AddVersion(policy, input, _, _, at) => AddVersionFails(w, policy, input, DayOf(at))
    case SetStatus(policy, status, _, _, at) => SetStatusFails(w, policy, status, DayOf(at))
    case CreateField(_, _) => false
    case CreateGroup(_) => false
    case AddMember(group, id, at) => MembersFail(w, w.members + {(group, id)}, group, id, DayOf(at))
    case RemoveMember(group, id, at) => MembersFail(w, w.members - {(group, id)}, group, id, DayOf(at))
    case UpdateGroupPolicies(group, added, removed, at) => AttachmentsFail(w, group, added, removed, DayOf(at))
    case ChangeOverride(change, at) => OverrideFails(w, change.(at := at), DayOf(at))
    case RefreshEmployee(id, at) => id !in w.people || Unresolvable(w, id, DayOf(at))
    case WorkBatch(limit, at) => BatchFails(w, limit, at)
  }

  lemma DirectoryFails(w: World, clock: int, op: Op)
    requires Inputs(w) && TablesSound(w, clock) && Timed(clock, op)
    requires op.CreateEmployee? || op.UpdateEmployee? || op.DeleteEmployee? || op.CreatePolicy? || op.AddVersion? || op.SetStatus?
    ensures Apply(w, op).None? <==> Fails(w, op)
  {
    match op {
      case CreateEmployee(record, at) => CreationFails(w, clock, record, at);
      case UpdateEmployee(id, patch, at) => if id in w.people { UpdatingFails(w, clock, id, patch, at); }
      case DeleteEmployee(id, at) => if id in w.people { DeletingFails(w, clock, id, at); }
      case CreatePolicy(status, input, syncAt, tenureAt, at) => CreatingPolicyFails(w, clock, status, input, syncAt, tenureAt, at);
      case AddVersion(policy, input, syncAt, tenureAt, at) => AddingVersionFails(w, clock, policy, input, syncAt, tenureAt, at);
      case SetStatus(policy, status, syncAt, tenureAt, at) => SettingStatusFails(w, clock, policy, status, syncAt, tenureAt, at);
    }
  }

  lemma OtherFails(w: World, clock: int, op: Op)
    requires Inputs(w) && QueueSound(w, clock) && TablesSound(w, clock) && Timed(clock, op)
    requires !(op.CreateEmployee? || op.UpdateEmployee? || op.DeleteEmployee? || op.CreatePolicy? || op.AddVersion? || op.SetStatus?)
    ensures Apply(w, op).None? <==> Fails(w, op)
  {
    match op {
      case AddMember(group, id, at) => ChangingMembersFails(w, clock, w.members + {(group, id)}, group, id, at);
      case RemoveMember(group, id, at) => ChangingMembersFails(w, clock, w.members - {(group, id)}, group, id, at);
      case UpdateGroupPolicies(group, added, removed, at) => ChangingAttachmentsFails(w, clock, group, added, removed, at);
      case ChangeOverride(change, at) => ChangingOverrideFails(w, clock, change.(at := at), at);
      case RefreshEmployee(id, at) => if id in w.people { ReconcilingFails(w, clock, {id}, at); }
      case WorkBatch(limit, at) => ProcessingFails(w, clock, limit, at);
      case _ =>
    }
  }

  /**
   * After every run an operation raises exactly for a reason the caller could check:
   * something it names is missing or refused, an employee it reconciles is unresolvable
   * on the date, or a tenure threshold it schedules leaves the calendar.
   */
  lemma FailsExactly(ops: seq<Op>, op: Op)
    requires RunTimed(ops) && Timed(ClockAfter(ops), op)
    ensures Apply(Engine.Run(ops), op).None? <==> Fails(Engine.Run(ops), op)
  {
    RunKeeps(ops);
    OperationFails(Engine.Run(ops), ClockAfter(ops), op);
  }

  lemma OperationFails(w: World, clock: int, op: Op)
    requires Inputs(w) && QueueSound(w, clock) && TablesSound(w, clock) && Timed(clock, op)
    ensures Apply(w, op).None? <==> Fails(w, op)
  {
    if op.CreateEmployee? || op.UpdateEmployee? || op.DeleteEmployee? || op.CreatePolicy? || op.AddVersion? || op.SetStatus? {
      DirectoryFails(w, clock, op);
    } else {
      OtherFails(w, clock, op);
    }
  }

  lemma BatchFailsExactly(ops: seq<Op>, limit: nat, at: int)
    requires RunTimed(ops) && ClockAfter(ops) <= at
    ensures AfterBatch(Engine.Run(ops), limit, at).None? <==> BatchFails(Engine.Run(ops), limit, at)
  {
    RunKeeps(ops);
    ProcessingFails(Engine.Run(ops), ClockAfter(ops), limit, at);
  }

  lemma CreateFailsExactly(ops: seq<Op>, record: Employee, at: int)
    requires RunTimed(ops) && ClockAfter(ops) <= at
    ensures AfterCreate(Engine.Run(ops), record, at).None? <==> CreateFails(Engine.Run(ops), record, DayOf(at))
  {
    RunKeeps(ops);
    CreationFails(Engine.Run(ops), ClockAfter(ops), record, at);
  }
}
