/** What a run of the system does to the history of each employee. */
module Chronicle {
  import opened Common
  import opened Conditions
  import opened Employees
  import opened Reconciliation
  import opened Overrides
  import opened Schedule
  import opened Engine
  import opened Freshness
  import opened Batches

  /** The history is as before, or was reconciled once. */
  ghost predicate Moved(before: History, after: History, at: int) {
    after == before || exists desired :: Reconcile(before, at, desired) == Ok(after)
  }

  /** Identities are never reused, surviving histories move by at most one reconciliation, and processed events stay. */
  ghost predicate Chronicled(w: World, w2: World, at: int) {
    && w.nextEmployee <= w2.nextEmployee
    && (forall e | e in w2.people :: e in w.people || e >= w.nextEmployee)
    && (forall e | e in w2.people :: Moved(HistoryOf(w, e), HistoryOf(w2, e), at))
    && Evolves(w.events, w2.events)
  }

  ghost predicate SameFields(w: World, w2: World) {
    w2.overrides == w.overrides && w2.cardinality == w.cardinality && w2.nextField == w.nextField
  }

  /** Before the reconciliation of an operation: people may differ, histories do not. */
  ghost predicate SameHistories(w: World, w1: World) {
    && w.nextEmployee <= w1.nextEmployee
    && (forall e | e in w1.people :: e in w.people || e >= w.nextEmployee)
    && (forall e | e in w1.people :: HistoryOf(w1, e) == HistoryOf(w, e))
    && Evolves(w.events, w1.events)
  }

  lemma ReconcileMoves(w: World, w1: World, ids: set<int>, at: int)
    requires SameHistories(w, w1) && ReconcileAll(w1, ids, at).Some?
    ensures Chronicled(w, ReconcileAll(w1, ids, at).value, at)
    ensures SameFields(w1, ReconcileAll(w1, ids, at).value)
  {
    var r := ReconcileAll(w1, ids, at).value;
    forall e | e in r.people
      ensures Moved(HistoryOf(w, e), HistoryOf(r, e), at)
    {
      ReconciledEmployee(w1, ids, at, e);
    }
  }

  lemma {:induction false} SyncAllTenureOnlyEvents(w: World, below: nat, now: int)
    requires SyncAllTenure(w, below, now).Some?
    ensures var w1 := SyncAllTenure(w, below, now).value; w1 == w.(events := w1.events) && Evolves(w.events, w1.events)
  {
    if below > 0 {
      SyncAllTenureOnlyEvents(w, below - 1, now);
      var w1 := SyncAllTenure(w, below - 1, now).value;
      if below - 1 in w1.people {
        SyncTenureEvolves(w1, below - 1, now);
        EvolvesTwice(w.events, w1.events, SyncTenure(w1, below - 1, now).value.events);
      }
    }
  }

  lemma SyncTenureEvolves(w: World, e: int, now: int)
    requires e in w.people && SyncTenure(w, e, now).Some?
    ensures Evolves(w.events, SyncTenure(w, e, now).value.events)
  {
    SyncedEvolves(w.events, EmployeeEntity, {e}, TenureEvents(e, w.people[e].startDate, AllRules(w), now).value);
  }

  lemma SyncVersionsEvolves(w: World, policy: int, now: int)
    ensures Evolves(w.events, SyncVersions(w, policy, now).events)
  {
    var windows := WindowsOf(w.versions, policy, |w.versions|);
    SyncedEvolves(w.events, PolicyVersionEntity, set x | x in windows :: x.id,
                  if IsActive(w.statuses, policy) then VersionEvents(windows, now) else []);
  }

  lemma SyncAndRefreshMoves(w: World, w1: World, policy: int, syncAt: int, tenureAt: int, at: int)
    requires SameHistories(w, w1) && SyncAndRefresh(w1, policy, syncAt, tenureAt, at).Some?
    ensures Chronicled(w, SyncAndRefresh(w1, policy, syncAt, tenureAt, at).value, at)
    ensures SameFields(w1, SyncAndRefresh(w1, policy, syncAt, tenureAt, at).value)
  {
    var ws := SyncVersions(w1, policy, syncAt);
    SyncVersionsEvolves(w1, policy, syncAt);
    SyncAllTenureOnlyEvents(ws, w1.nextEmployee, tenureAt);
    var w2 := SyncAllTenure(ws, w1.nextEmployee, tenureAt).value;
    assert w2 == w1.(events := w2.events);
    EvolvesTwice(w.events, w1.events, ws.events);
    EvolvesTwice(w.events, ws.events, w2.events);
    assert forall e :: HistoryOf(w2, e) == HistoryOf(w1, e);
    ReconcileMoves(w, w2, w2.people.Keys, at);
  }

  lemma PolicyMoves(w: World, op: Op)
    requires Apply(w, op).Some? && (op.CreatePolicy? || op.AddVersion? || op.SetStatus?)
    ensures Chronicled(w, Apply(w, op).value, op.at)
    ensures SameFields(w, Apply(w, op).value)
  {
    match op {
      case CreatePolicy(status, input, syncAt, tenureAt, at) =>
        SyncAndRefreshMoves(w, Stored(WithPolicy(w, status), w.nextPolicy, input).value, w.nextPolicy, syncAt, tenureAt, at);
      case AddVersion(policy, input, syncAt, tenureAt, at) =>
        SyncAndRefreshMoves(w, Stored(w, policy, input).value, policy, syncAt, tenureAt, at);
      case SetStatus(policy, status, syncAt, tenureAt, at) =>
        if w.statuses[policy] != status {
          SyncAndRefreshMoves(w, w.(statuses := w.statuses[policy := status]), policy, syncAt, tenureAt, at);
        }
    }
  }

  lemma CreateMoves(w: World, record: Employee, at: int)
    requires AfterCreate(w, record, at).Some?
    ensures Chronicled(w, AfterCreate(w, record, at).value, at)
    ensures SameFields(w, AfterCreate(w, record, at).value)
  {
    var id, w1 := w.nextEmployee, WithEmployee(w, record);
    var ids := Impacted(w1.people, CreateMutation(id, record));
    ReconcileMoves(w, w1, ids, at);
    SyncTenureEvolves(ReconcileAll(w1, ids, at).value, id, at);
  }

  lemma UpdateMoves(w: World, id: int, patch: Patch, at: int)
    requires id in w.people && AfterUpdate(w, id, patch, at).Some?
    ensures Chronicled(w, AfterUpdate(w, id, patch, at).value, at)
    ensures SameFields(w, AfterUpdate(w, id, patch, at).value)
  {
    var before, record := w.people[id], Patched(w.people[id], patch);
    var w1 := w.(people := w.people[id := record]);
    if ChangedColumns(before, record) != {} {
      var ids := Impacted(w1.people, UpdateMutation(id, before, record));
      ReconcileMoves(w, w1, ids, at);
      if StartDateColumn in ChangedColumns(before, record) {
        SyncTenureEvolves(ReconcileAll(w1, ids, at).value, id, at);
      }
    }
  }

  lemma DeleteMoves(w: World, id: int, at: int)
    requires id in w.people && AfterDelete(w, id, at).Some?
    ensures Chronicled(w, AfterDelete(w, id, at).value, at)
  {
    var w1 := WithoutEmployeeRows(w, id);
    assert forall e | e in w1.people :: e in w.people && HistoryOf(w1, e) == HistoryOf(w, e);
    ReconcileMoves(w, w1, DeleteImpact(w.people, id), at);
  }

  lemma MembersMove(w: World, members: set<(int, int)>, group: int, id: int, at: int)
    requires AfterMembers(w, members, group, id, at).Some?
    ensures Chronicled(w, AfterMembers(w, members, group, id, at).value, at)
    ensures SameFields(w, AfterMembers(w, members, group, id, at).value)
  {
    if members != w.members {
      ReconcileMoves(w, w.(members := members), {id}, at);
    }
  }

  lemma AttachmentsMove(w: World, group: int, added: set<int>, removed: set<int>, at: int)
    requires AfterGroupPolicies(w, group, added, removed, at).Some?
    ensures Chronicled(w, AfterGroupPolicies(w, group, added, removed, at).value, at)
    ensures SameFields(w, AfterGroupPolicies(w, group, added, removed, at).value)
  {
    var detached := w.attached - (set p | p in removed :: (group, p));
    var attached := detached + (set p | p in added :: (group, p));
    if !(detached == w.attached && attached == detached) {
      ReconcileMoves(w, w.(attached := attached), MembersOf(w, group), at);
    }
  }

  lemma OverrideMoves(w: World, change: OverrideOp, at: int)
    requires AfterOverride(w, change, at).Some?
    ensures Chronicled(w, AfterOverride(w, change, at).value, at)
  {
    var overrides := Changed(w.overrides, OneValued(w), change).value;
    if overrides != w.overrides {
      ReconcileMoves(w, w.(overrides := overrides), {OverrideEmployee(change)}, at);
    }
  }

  lemma BatchMoves(w: World, clock: int, limit: nat, at: int)
    requires TablesSound(w, clock) && clock <= at && AfterBatch(w, limit, at).Some?
    ensures Chronicled(w, AfterBatch(w, limit, at).value, at)
  {
    var plan := PlanOf(w, Due(w.events, at, limit));
    BatchIsEarliest(w.events, at, limit);
    if plan != [] {
      forall e | e in w.people
        ensures Clocked(HistoryOf(w, e).rows, at)
      {
      }
      ReconcileManyIsOne(w, plan, at);
      ReconcileMoves(w, w, UnionOf(plan), at);
    }
  }

  lemma EmployeeMoves(w: World, op: Op)
    requires Apply(w, op).Some? && (op.CreateEmployee? || op.UpdateEmployee? || op.DeleteEmployee? || op.RefreshEmployee?)
    ensures Chronicled(w, Apply(w, op).value, op.at)
    ensures !op.DeleteEmployee? ==> SameFields(w, Apply(w, op).value)
  {
    match op {
      case CreateEmployee(record, at) => CreateMoves(w, record, at);
      case UpdateEmployee(id, patch, at) => UpdateMoves(w, id, patch, at);
      case DeleteEmployee(id, at) => DeleteMoves(w, id, at);
      case RefreshEmployee(id, at) => ReconcileMoves(w, w, {id}, at);
    }
  }

  lemma GroupMoves(w: World, op: Op)
    requires Apply(w, op).Some? && (op.AddMember? || op.RemoveMember? || op.UpdateGroupPolicies?)
    ensures Chronicled(w, Apply(w, op).value, op.at)
    ensures SameFields(w, Apply(w, op).value)
  {
    match op {
      case AddMember(group, id, at) => MembersMove(w, w.members + {(group, id)}, group, id, at);
      case RemoveMember(group, id, at) => MembersMove(w, w.members - {(group, id)}, group, id, at);
      case UpdateGroupPolicies(group, added, removed, at) => AttachmentsMove(w, group, added, removed, at);
    }
  }

  /** Every operation but the worker batch. */
  lemma OperationMoves(w: World, op: Op)
    requires Apply(w, op).Some? && !op.WorkBatch?
    ensures Chronicled(w, Apply(w, op).value, op.at)
    ensures op.CreateField? || op.ChangeOverride? || op.DeleteEmployee? || SameFields(w, Apply(w, op).value)
  {
    if op.CreatePolicy? || op.AddVersion? || op.SetStatus? {
      PolicyMoves(w, op);
    } else if op.CreateEmployee? || op.UpdateEmployee? || op.DeleteEmployee? || op.RefreshEmployee? {
      EmployeeMoves(w, op);
    } else if op.AddMember? || op.RemoveMember? || op.UpdateGroupPolicies? {
      GroupMoves(w, op);
    } else if op.ChangeOverride? {
      OverrideMoves(w, op.change.(at := op.at), op.at);
    }
  }

  lemma StepMoves(w: World, clock: int, op: Op)
    requires TablesSound(w, clock) && Timed(clock, op)
    ensures Chronicled(w, Step(w, op), op.at)
  {
    if Apply(w, op).Some? {
      if op.WorkBatch? {
        BatchMoves(w, clock, op.limit, op.at);
      } else {
        OperationMoves(w, op);
      }
    }
  }
}
