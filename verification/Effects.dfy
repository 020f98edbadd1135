/** What an operation that completes has done to the stored inputs, and that it did nothing else to them. */
module Effects {
  import opened Common
  import opened Conditions
  import opened Employees
  import opened ConditionTree
  import opened Resolution
  import opened Overrides
  import opened Versions
  import opened Matching
  import opened Schedule
  import opened Engine
  import opened Batches
  import opened Chronicle
  import opened Freshness
  import opened Decisions

  // ----- what stays

  ghost predicate SamePeople(w: World, a: World) {
    a.people == w.people && a.nextEmployee == w.nextEmployee
  }

  ghost predicate SameRules(w: World, a: World) {
    a.versions == w.versions && a.statuses == w.statuses && a.nextPolicy == w.nextPolicy
  }

  ghost predicate SameGroups(w: World, a: World) {
    a.groups == w.groups && a.nextGroup == w.nextGroup && a.members == w.members && a.attached == w.attached
  }

  ghost predicate SameCatalog(w: World, a: World) {
    a.cardinality == w.cardinality && a.nextField == w.nextField
  }

  // ----- what changes

  /** One record is new or replaced. */
  ghost predicate OneRecord(before: People, after: People, id: int) {
    && id in after
    && (forall x | x != id :: x in after <==> x in before)
    && forall x | x != id && x in before && x in after :: after[x] == before[x]
  }

  /** A column takes the value that the patch gives it, and stays otherwise. */
  ghost predicate PatchedBy(before: Employee, after: Employee, p: Patch) {
    && after.name == (if p.name.Some? then p.name.value else before.name)
    && after.state == (if p.state.Some? then p.state.value else before.state)
    && after.department == (if p.department.Some? then p.department.value else before.department)
    && after.employeeType == (if p.employeeType.Some? then p.employeeType.value else before.employeeType)
    && after.location == (if p.location.Some? then p.location.value else before.location)
    && after.startDate == (if p.startDate.Some? then p.startDate.value else before.startDate)
    && after.manager == (if p.manager.Some? then p.manager.value else before.manager)
  }

  /** The employee is gone, its reports have no manager, and nothing of anybody else is lost. */
  ghost predicate Removed(w: World, a: World, id: int) {
    && (forall x :: x in a.people <==> x in w.people && x != id)
    && (forall x | x in a.people && x in w.people ::
          a.people[x] == if w.people[x].manager == Some(id) then w.people[x].(manager := None) else w.people[x])
    && (forall m :: m in a.members <==> m in w.members && m.1 != id)
    && (forall o :: o in a.overrides.table <==> o in w.overrides.table && w.overrides.table[o].employee != id)
    && (forall o | o in a.overrides.table && o in w.overrides.table :: a.overrides.table[o] == w.overrides.table[o])
    && id !in a.histories && id !in a.links
  }

  /** The row holds what the request says, and its clauses mean what its tree means. */
  ghost predicate Holding(stored: Version<Rules>, policy: int, input: VersionInput) {
    && stored.policy == policy && stored.priority == input.priority
    && stored.from == input.from && stored.until == input.until
    && stored.payload.values == input.values && stored.payload.tree == input.tree
    && forall truth: Condition -> bool :: AnyClauseHolds(stored.payload.clauses, truth) <==> Holds(input.tree, truth)
  }

  /** An earlier row stays, but for an open one of the policy that now ends the day before. */
  ghost predicate StaysOrEnds(before: Version<Rules>, after: Version<Rules>, policy: int, from: int) {
    after == before
    || (before.policy == policy && before.until.None? && before.from < from
        && after == before.(until := after.until) && after.until.Some? && after.until.value == from - 1)
  }

  /** The last row holds the requested version. */
  ghost predicate StoresVersion(w: World, a: World, policy: int, input: VersionInput) {
    && |a.versions| == |w.versions| + 1
    && Holding(a.versions[|w.versions|], policy, input)
    && forall i | 0 <= i < |w.versions| :: StaysOrEnds(w.versions[i], a.versions[i], policy, input.from)
  }

  /** One policy has the status, and every other policy keeps its own. */
  ghost predicate StatusIs(w: World, a: World, policy: int, status: PolicyStatus) {
    && policy in a.statuses && a.statuses[policy] == status
    && (forall p | p != policy :: p in a.statuses <==> p in w.statuses)
    && forall p | p != policy && p in w.statuses && p in a.statuses :: a.statuses[p] == w.statuses[p]
  }

  /** The overrides in force of one employee, before and after. */
  ghost predicate ActiveMove(s: OverrideState, t: OverrideState, change: OverrideOp, e: int) {
    var before, after := ActiveOverrides(s.table, e), ActiveOverrides(t.table, e);
    if e != OverrideEmployee(change) then after == before
    else
      match change
      case CreateOverride(_, field, value, _) => after == before + {Override(s.nextId, field, value)}
      case UpdateOverride(_, id, newField, newValue, _) =>
        id in s.table
        && var row := s.table[id];
           var target := Target(row, newField, newValue);
           after == if target == (row.field, row.value) then before
                    else Without(before, id) + {Override(s.nextId, target.0, target.1)}
      case DeleteOverride(_, id, _) => after == Without(before, id)
  }

  ghost predicate OverridesMove(s: OverrideState, t: OverrideState, change: OverrideOp) {
    forall e :: ActiveMove(s, t, change, e)
  }

  /** The group's policies after an update: a policy added and removed at once is attached. */
  ghost predicate AttachmentsMove(w: World, a: World, group: int, added: set<int>, removed: set<int>) {
    && (forall p :: (group, p) in a.attached <==> p in added || ((group, p) in w.attached && p !in removed))
    && forall g, p | g != group :: (g, p) in a.attached <==> (g, p) in w.attached
  }

  /** Due events are processed, and no other event changes. */
  ghost predicate ProcessesDue(w: World, a: World, limit: nat, at: int) {
    && |a.events| == |w.events|
    && forall i: nat | i < |w.events| ::
         a.events[i] == if i in Due(w.events, at, limit) then w.events[i].(status := Processed, processedAt := Some(at))
                        else w.events[i]
  }

  // ----- the effect of each operation

  ghost predicate Effect(w: World, op: Op, a: World) {
    match op
    case CreateEmployee(record, _) =>
      && w.nextEmployee !in w.people && OneRecord(w.people, a.people, w.nextEmployee) && a.people[w.nextEmployee] == record
      && a.nextEmployee == w.nextEmployee + 1
      && SameRules(w, a) && SameGroups(w, a) && SameCatalog(w, a) && a.overrides == w.overrides
    case UpdateEmployee(id, patch, _) =>
      && id in w.people && OneRecord(w.people, a.people, id) && PatchedBy(w.people[id], a.people[id], patch)
      && a.nextEmployee == w.nextEmployee
      && SameRules(w, a) && SameGroups(w, a) && SameCatalog(w, a) && a.overrides == w.overrides
    case DeleteEmployee(id, _) =>
      && id in w.people && Removed(w, a, id) && a.nextEmployee == w.nextEmployee
      && SameRules(w, a) && SameCatalog(w, a)
      && a.groups == w.groups && a.nextGroup == w.nextGroup && a.attached == w.attached
      && a.overrides.nextId == w.overrides.nextId
    case CreatePolicy(status, input, _, _, _) =>
      && w.nextPolicy !in w.statuses && StatusIs(w, a, w.nextPolicy, status) && a.nextPolicy == w.nextPolicy + 1
      && StoresVersion(w, a, w.nextPolicy, input)
      && SamePeople(w, a) && SameGroups(w, a) && SameCatalog(w, a) && a.overrides == w.overrides
    case AddVersion(policy, input, _, _, _) =>
      && policy in w.statuses && a.statuses == w.statuses && a.nextPolicy == w.nextPolicy
      && StoresVersion(w, a, policy, input)
      && SamePeople(w, a) && SameGroups(w, a) && SameCatalog(w, a) && a.overrides == w.overrides
    case SetStatus(policy, status, _, _, _) =>
      && policy in w.statuses && StatusIs(w, a, policy, status) && a.nextPolicy == w.nextPolicy && a.versions == w.versions
      && SamePeople(w, a) && SameGroups(w, a) && SameCatalog(w, a) && a.overrides == w.overrides
    case CreateField(one, _) =>
      && w.nextField !in w.cardinality && a.cardinality == w.cardinality[w.nextField := one] && a.nextField == w.nextField + 1
      && SamePeople(w, a) && SameRules(w, a) && SameGroups(w, a) && a.overrides == w.overrides
    case CreateGroup(_) =>
      && a.groups == w.groups + {w.nextGroup} && a.nextGroup == w.nextGroup + 1
      && a.members == w.members && a.attached == w.attached
      && SamePeople(w, a) && SameRules(w, a) && SameCatalog(w, a) && a.overrides == w.overrides
    case AddMember(group, id, _) =>
      && (forall m :: m in a.members <==> m == (group, id) || m in w.members)
      && a.groups == w.groups && a.nextGroup == w.nextGroup && a.attached == w.attached
      && SamePeople(w, a) && SameRules(w, a) && SameCatalog(w, a) && a.overrides == w.overrides
    case RemoveMember(group, id, _) =>
      && (forall m :: m in a.members <==> m != (group, id) && m in w.members)
      && a.groups == w.groups && a.nextGroup == w.nextGroup && a.attached == w.attached
      && SamePeople(w, a) && SameRules(w, a) && SameCatalog(w, a) && a.overrides == w.overrides
    case UpdateGroupPolicies(group, added, removed, _) =>
      && AttachmentsMove(w, a, group, added, removed)
      && a.groups == w.groups && a.nextGroup == w.nextGroup && a.members == w.members
      && SamePeople(w, a) && SameRules(w, a) && SameCatalog(w, a) && a.overrides == w.overrides
    case ChangeOverride(change, _) =>
      && OverridesMove(w.overrides, a.overrides, change)
      && SamePeople(w, a) && SameRules(w, a) && SameGroups(w, a) && SameCatalog(w, a)
    case RefreshEmployee(_, _) =>
      SamePeople(w, a) && SameRules(w, a) && SameGroups(w, a) && SameCatalog(w, a) && a.overrides == w.overrides
    case WorkBatch(limit, at) =>
      && ProcessesDue(w, a, limit, at)
      && SamePeople(w, a) && SameRules(w, a) && SameGroups(w, a) && SameCatalog(w, a) && a.overrides == w.overrides
  }

  lemma CreateEffect(w: World, record: Employee, at: int)
    requires Inputs(w) && AfterCreate(w, record, at).Some?
    ensures Effect(w, CreateEmployee(record, at), AfterCreate(w, record, at).value)
  {
  }

  lemma UpdateEffect(w: World, id: int, patch: Patch, at: int)
    requires id in w.people && AfterUpdate(w, id, patch, at).Some?
    ensures Effect(w, UpdateEmployee(id, patch, at), AfterUpdate(w, id, patch, at).value)
  {
    var record, a := Patched(w.people[id], patch), AfterUpdate(w, id, patch, at).value;
    UpdatedWorld(w, id, patch, at);
    assert OneRecord(w.people, w.people[id := record], id) && PatchedBy(w.people[id], record, patch);
  }

  lemma UpdatedWorld(w: World, id: int, patch: Patch, at: int)
    requires id in w.people && AfterUpdate(w, id, patch, at).Some?
    ensures var a := AfterUpdate(w, id, patch, at).value;
            a == w.(people := w.people[id := Patched(w.people[id], patch)],
                    histories := a.histories, links := a.links, events := a.events)
  {
    NoColumnMoved(w.people[id], Patched(w.people[id], patch));
  }

  lemma NoColumnMoved(before: Employee, after: Employee)
    ensures ChangedColumns(before, after) == {} ==> after == before
  {
    assert forall column :: column in ChangedColumns(before, after) ==> ChangedColumns(before, after) != {};
  }

  lemma DeleteEffect(w: World, id: int, at: int)
    requires Inputs(w) && id in w.people && AfterDelete(w, id, at).Some?
    ensures Effect(w, DeleteEmployee(id, at), AfterDelete(w, id, at).value)
  {
  }

  /** Both synchronizations and the refresh touch only events, rows and links. */
  lemma RefreshEffect(w: World, policy: int, syncAt: int, tenureAt: int, at: int)
    requires SyncAndRefresh(w, policy, syncAt, tenureAt, at).Some?
    ensures var a := SyncAndRefresh(w, policy, syncAt, tenureAt, at).value;
            a == w.(histories := a.histories, links := a.links, events := a.events)
  {
    SyncAllTenureOnlyEvents(SyncVersions(w, policy, syncAt), w.nextEmployee, tenureAt);
  }

  lemma StoredEffect(w: World, policy: int, input: VersionInput)
    requires Stored(w, policy, input).Some?
    ensures StoresVersion(w, Stored(w, policy, input).value, policy, input)
  {
    var d := DraftOf(policy, input);
    CreateStoresTheDraft(w.versions, d);
    forall truth: Condition -> bool
      ensures AnyClauseHolds(Dnf(input.tree), truth) <==> Holds(input.tree, truth)
    {
      CompilationPreservesMeaning(input.tree, truth);
    }
  }

  lemma PolicyEffect(w: World, op: Op)
    requires Inputs(w) && Apply(w, op).Some? && (op.CreatePolicy? || op.AddVersion?)
    ensures Effect(w, op, Apply(w, op).value)
  {
    match op {
      case CreatePolicy(status, input, syncAt, tenureAt, at) =>
        StoredEffect(WithPolicy(w, status), w.nextPolicy, input);
        RefreshEffect(Stored(WithPolicy(w, status), w.nextPolicy, input).value, w.nextPolicy, syncAt, tenureAt, at);
      case AddVersion(policy, input, syncAt, tenureAt, at) =>
        StoredEffect(w, policy, input);
        RefreshEffect(Stored(w, policy, input).value, policy, syncAt, tenureAt, at);
    }
  }

  lemma StatusEffect(w: World, policy: int, status: PolicyStatus, syncAt: int, tenureAt: int, at: int)
    requires AfterSetStatus(w, policy, status, syncAt, tenureAt, at).Some?
    ensures Effect(w, SetStatus(policy, status, syncAt, tenureAt, at), AfterSetStatus(w, policy, status, syncAt, tenureAt, at).value)
  {
    if w.statuses[policy] != status {
      RefreshEffect(w.(statuses := w.statuses[policy := status]), policy, syncAt, tenureAt, at);
    }
  }

  lemma MembersEffect(w: World, members: set<(int, int)>, group: int, id: int, at: int)
    requires AfterMembers(w, members, group, id, at).Some?
    ensures var a := AfterMembers(w, members, group, id, at).value;
            a == w.(members := members, histories := a.histories, links := a.links)
  {
  }

  lemma GroupPoliciesEffect(w: World, group: int, added: set<int>, removed: set<int>, at: int)
    requires AfterGroupPolicies(w, group, added, removed, at).Some?
    ensures Effect(w, UpdateGroupPolicies(group, added, removed, at), AfterGroupPolicies(w, group, added, removed, at).value)
  {
    var a := AfterGroupPolicies(w, group, added, removed, at).value;
    AttachedWorld(w, group, added, removed, at);
    forall g, p
      ensures (g, p) in a.attached <==> (g == group && p in added) || ((g, p) in w.attached && !(g == group && p in removed))
    {
    }
  }

  lemma AttachedWorld(w: World, group: int, added: set<int>, removed: set<int>, at: int)
    requires AfterGroupPolicies(w, group, added, removed, at).Some?
    ensures var a := AfterGroupPolicies(w, group, added, removed, at).value;
            a == w.(attached := w.attached - (set p | p in removed :: (group, p)) + (set p | p in added :: (group, p)),
                    histories := a.histories, links := a.links)
  {
  }

  /** The instant that a change carries is the instant of its operation. */
  lemma OverrideEffect(w: World, change: OverrideOp, stamped: OverrideOp, at: int)
    requires Inputs(w) && stamped == change.(at := at) && AfterOverride(w, stamped, at).Some?
    ensures Effect(w, ChangeOverride(change, at), AfterOverride(w, stamped, at).value)
  {
    OverriddenWorld(w, stamped, at);
    AllActiveMove(w.overrides, OneValued(w), change, stamped);
  }

  lemma AllActiveMove(s: OverrideState, ones: set<int>, change: OverrideOp, stamped: OverrideOp)
    requires forall o | o in s.table :: o < s.nextId
    requires stamped == change.(at := stamped.at) && Changed(s, ones, stamped).Ok?
    ensures OverridesMove(s, Changed(s, ones, stamped).value, change)
  {
    forall e
      ensures ActiveMove(s, Changed(s, ones, stamped).value, change, e)
    {
      ChangeEffect(s, ones, stamped, e);
    }
  }

  lemma OverriddenWorld(w: World, change: OverrideOp, at: int)
    requires AfterOverride(w, change, at).Some?
    ensures Changed(w.overrides, OneValued(w), change).Ok?
    ensures var a := AfterOverride(w, change, at).value;
            a == w.(overrides := Changed(w.overrides, OneValued(w), change).value, histories := a.histories, links := a.links)
  {
  }

  lemma BatchEffect(w: World, limit: nat, at: int)
    requires AfterBatch(w, limit, at).Some?
    ensures Effect(w, WorkBatch(limit, at), AfterBatch(w, limit, at).value)
  {
    PlanOnlyTables(w, PlanOf(w, Due(w.events, at, limit)), at);
  }

  lemma GroupEffect(w: World, op: Op)
    requires Apply(w, op).Some? && (op.AddMember? || op.RemoveMember? || op.UpdateGroupPolicies?)
    ensures Effect(w, op, Apply(w, op).value)
  {
    match op {
      case AddMember(group, id, at) => MembersEffect(w, w.members + {(group, id)}, group, id, at);
      case RemoveMember(group, id, at) => MembersEffect(w, w.members - {(group, id)}, group, id, at);
      case UpdateGroupPolicies(group, added, removed, at) => GroupPoliciesEffect(w, group, added, removed, at);
    }
  }

  lemma EmployeeEffect(w: World, op: Op)
    requires Inputs(w) && Apply(w, op).Some? && (op.CreateEmployee? || op.UpdateEmployee? || op.DeleteEmployee?)
    ensures Effect(w, op, Apply(w, op).value)
  {
    match op {
      case CreateEmployee(record, at) => CreateEffect(w, record, at);
      case UpdateEmployee(id, patch, at) => UpdateEffect(w, id, patch, at);
      case DeleteEmployee(id, at) => DeleteEffect(w, id, at);
    }
  }

  lemma OtherEffect(w: World, op: Op)
    requires Inputs(w) && Apply(w, op).Some?
    requires op.CreateField? || op.CreateGroup? || op.ChangeOverride? || op.RefreshEmployee? || op.WorkBatch?
    ensures Effect(w, op, Apply(w, op).value)
  {
    match op {
      case ChangeOverride(change, at) => OverrideEffect(w, change, change.(at := at), at);
      case WorkBatch(limit, at) => BatchEffect(w, limit, at);
      case _ =>
    }
  }

  /** Every operation that completes has its effect on the stored inputs and no other. */
  lemma OperationEffect(w: World, op: Op)
    requires Inputs(w) && Apply(w, op).Some?
    ensures Effect(w, op, Apply(w, op).value)
  {
    if op.CreateEmployee? || op.UpdateEmployee? || op.DeleteEmployee? {
      EmployeeEffect(w, op);
    } else if op.CreatePolicy? || op.AddVersion? {
      PolicyEffect(w, op);
    } else if op.AddMember? || op.RemoveMember? || op.UpdateGroupPolicies? {
      GroupEffect(w, op);
    } else if op.SetStatus? {
      StatusEffect(w, op.policy, op.status, op.syncAt, op.tenureAt, op.at);
    } else {
      OtherEffect(w, op);
    }
  }

  // ----- what joining and leaving mean for the employee

  /** A new member inherits every policy of the group, and the match lists the group. */
  lemma JoiningInherits(w: World, group: int, id: int, at: int, policy: int, day: int)
    requires Inputs(w) && Apply(w, AddMember(group, id, at)).Some?
    ensures var a := Apply(w, AddMember(group, id, at)).value;
            id in a.people && (group in GroupsOf(ViewOf(a, id, day), policy) <==> (group, policy) in w.attached)
  {
    OperationEffect(w, AddMember(group, id, at));
    GroupMeaning(Apply(w, AddMember(group, id, at)).value, id, day, policy, group);
  }

  /** After leaving, the group is gone from every match of the employee. */
  lemma LeavingDisinherits(w: World, group: int, id: int, at: int, policy: int, day: int)
    requires Inputs(w) && Apply(w, RemoveMember(group, id, at)).Some?
    ensures var a := Apply(w, RemoveMember(group, id, at)).value;
            id in a.people && group !in GroupsOf(ViewOf(a, id, day), policy)
  {
    OperationEffect(w, RemoveMember(group, id, at));
    GroupMeaning(Apply(w, RemoveMember(group, id, at)).value, id, day, policy, group);
  }
}
