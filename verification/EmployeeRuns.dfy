/** Creating, updating and deleting an employee keeps the invariant of freshness. */
module EmployeeRuns {
  import opened Common
  import opened OrgChart
  import opened Conditions
  import opened Employees
  import opened Reconciliation
  import opened Overrides
  import opened Schedule
  import opened Engine
  import opened Freshness
  import opened Runs

  /** Same facts, start date, groups and overrides of `e`; same policies and versions. */
  ghost predicate SamePerson(w: World, w1: World, e: int) {
    && e in w.people && e in w1.people
    && SameFacts(w.people, w1.people, e)
    && w1.people[e].startDate == w.people[e].startDate
    && w1.versions == w.versions && w1.statuses == w.statuses && w1.cardinality == w.cardinality
    && InheritedOf(w1.members, w1.attached, e) == InheritedOf(w.members, w.attached, e)
    && ActiveOverrides(w1.overrides.table, e) == ActiveOverrides(w.overrides.table, e)
  }

  /** Pending events survive, except those of the changed employee. */
  ghost predicate OthersQueued(before: seq<Event>, after: seq<Event>, id: int) {
    forall key | key in PendingKeys(before) && !OfEmployee(key, id) :: key in PendingKeys(after)
  }

  lemma BoundaryEntity(w: World, e: int, key: EventKey)
    requires e in w.people && Boundary(w, e, key)
    ensures key.entity == PolicyVersionEntity || OfEmployee(key, e)
  {
  }

  lemma OtherCarried(w: World, w1: World, e: int, id: int, events: seq<Event>)
    requires SamePerson(w, w1, e) && e != id && OthersQueued(w.events, events, id)
    requires HistoryOf(w1, e) == HistoryOf(w, e) && LinksOf(w1, e) == LinksOf(w, e)
    ensures Carried(w, w1, e, events)
  {
    forall key | Boundary(w1, e, key) && key in PendingKeys(w.events)
      ensures key in PendingKeys(events)
    {
      BoundaryEntity(w, e, key);
    }
  }

  /** The queue after a synchronization of the changed employee, or of nobody. */
  lemma QueueAfter(w: World, clock: int, w1: World, id: int, at: int, events: seq<Event>)
    requires QueueSound(w, clock) && Queued(w, clock) && clock <= at
    requires w1.versions == w.versions && w1.statuses == w.statuses
    requires forall e | e in w1.people && e != id :: e in w.people && w1.people[e].startDate == w.people[e].startDate
    requires KeepsProcessed(w.events, events) && OthersQueued(w.events, events, id)
    requires forall key | key in PendingKeys(events) :: Named(w1, key)
    requires id in w1.people ==> forall key | TenureBoundary(w1, id, key) && key.at > at :: key in PendingKeys(events)
    ensures QueueSound(w1.(events := events), at) && Queued(w1.(events := events), at)
  {
    var w2 := w1.(events := events);
    StaysPunctual(w.events, events, clock);
    assert AllRules(w2) == AllRules(w) && AllRules(w1) == AllRules(w);
    forall key | VersionBoundary(w2, key) && key.at > at
      ensures key in PendingKeys(events)
    {
      assert VersionBoundary(w, key);
    }
    forall e, key | e in w2.people && TenureBoundary(w2, e, key) && key.at > at
      ensures key in PendingKeys(events)
    {
      if e == id {
        assert TenureBoundary(w1, id, key);
      } else {
        assert TenureBoundary(w, e, key);
      }
    }
  }

  // ----- create

  lemma CreatedInputs(w: World, record: Employee)
    requires Inputs(w) && ValidateManager(ChartOf(w.people), None, record.manager).None?
    ensures Inputs(WithEmployee(w, record))
  {
    var id := w.nextEmployee;
    var w1 := WithEmployee(w, record);
    assert id !in w.people;
    CreateIsValid(ChartOf(w.people), id, record.manager);
    InsertKeepsAcyclic(ChartOf(w.people), id, record.manager);
    assert ChartOf(w1.people) == Insert(ChartOf(w.people), id, record.manager);
    assert VersionsSound(w1);
  }

  lemma ChangedIsImpacted(people: People, m: Mutation)
    requires m.changed != {} && m.id in people
    ensures m.id in Impacted(people, m)
  {
    ManagerChangeUsesAll(m.changed);
    assert m.id in ImpactOf(ChangedEmployee, people, m);
  }

  lemma CreateKeeps(w: World, clock: int, record: Employee, at: int)
    requires Inv(w, clock) && clock <= at && AfterCreate(w, record, at).Some?
    ensures Inv(AfterCreate(w, record, at).value, at)
  {
    var id, w1 := w.nextEmployee, WithEmployee(w, record);
    CreatedInputs(w, record);
    CreatedIsImpacted(w, record);
    SyncedStep(w, clock, w1, id, Impacted(w1.people, CreateMutation(id, record)), at);
  }

  lemma CreatedIsImpacted(w: World, record: Employee)
    requires Inputs(w)
    ensures var id, w1 := w.nextEmployee, WithEmployee(w, record);
            id !in w.people && id in Impacted(w1.people, CreateMutation(id, record))
  {
    assert NameColumn in CREATED_COLUMNS;
    ChangedIsImpacted(WithEmployee(w, record).people, CreateMutation(w.nextEmployee, record));
  }

  function MutationOf(w: World, w1: World, id: int): Mutation
    requires id in w1.people
  {
    if id in w.people then UpdateMutation(id, w.people[id], w1.people[id]) else CreateMutation(id, w1.people[id])
  }

  /**
   * The record of `id` is new or has changed, the impacted employees are reconciled,
   * and the tenure events of `id` are synchronized.
   */
  lemma SyncedStep(w: World, clock: int, w1: World, id: int, ids: set<int>, at: int)
    requires Inv(w, clock) && clock <= at && id in w1.people && id in ids
    requires w1 == w.(people := w1.people, nextEmployee := w1.nextEmployee) && Inputs(w1)
    requires w1.people == w.people[id := w1.people[id]]
    requires ids == Impacted(w1.people, MutationOf(w, w1, id))
    requires ReconcileAll(w1, ids, at).Some? && SyncTenure(ReconcileAll(w1, ids, at).value, id, at).Some?
    ensures Inv(SyncTenure(ReconcileAll(w1, ids, at).value, id, at).value, at)
  {
    var r := ReconcileAll(w1, ids, at).value;
    assert r == w1.(histories := r.histories, links := r.links);
    SyncTenureQueue(r, id, at);
    var events := SyncTenure(r, id, at).value.events;
    assert AllRules(r) == AllRules(w1);
    assert forall key :: TenureBoundary(r, id, key) <==> TenureBoundary(w1, id, key);
    forall key | key in PendingKeys(events)
      ensures Named(w1, key)
    {
      if key in PendingKeys(w.events) {
        assert Named(w, key);
      }
    }
    QueueAfter(w, clock, w1, id, at, events);
    OnlyImpactedChange(w, clock, w1, id, ids, at, events);
    StepKeeps(w, clock, w1, ids, at, events);
  }

  lemma OnlyImpactedChange(w: World, clock: int, w1: World, id: int, ids: set<int>, at: int, events: seq<Event>)
    requires TablesSound(w, clock) && clock <= at && id in w1.people && id in ids
    requires w1 == w.(people := w1.people, nextEmployee := w1.nextEmployee)
    requires w1.people == w.people[id := w1.people[id]]
    requires ids == Impacted(w1.people, MutationOf(w, w1, id))
    requires OthersQueued(w.events, events, id)
    ensures forall e | e in w1.people :: e in ids || Carried(w, w1, e, events)
    ensures forall e | e in w1.people :: Clocked(HistoryOf(w1, e).rows, at)
  {
    forall e | e in w1.people
      ensures e in ids || Carried(w, w1, e, events)
      ensures Clocked(HistoryOf(w1, e).rows, at)
    {
      if e !in ids {
        if id in w.people {
          UpdateImpactComplete(w.people, id, w1.people[id], e);
        } else {
          CreateImpactComplete(w.people, id, w1.people[id], e);
        }
        OtherCarried(w, w1, e, id, events);
      }
    }
  }

  // ----- update

  lemma UpdatedInputs(w: World, id: int, patch: Patch)
    requires Inputs(w) && id in w.people
    requires patch.manager.Some? ==> ValidateManager(ChartOf(w.people), Some(id), patch.manager.value).None?
    ensures Inputs(w.(people := w.people[id := Patched(w.people[id], patch)]))
  {
    var w1 := w.(people := w.people[id := Patched(w.people[id], patch)]);
    var chart := ChartOf(w.people);
    assert ChartOf(w1.people) == Insert(chart, id, w1.people[id].manager);
    if patch.manager.Some? {
      InsertKeepsAcyclic(chart, id, patch.manager.value);
    } else {
      assert Insert(chart, id, w1.people[id].manager) == chart;
    }
    assert VersionsSound(w1);
  }

  lemma UpdateKeeps(w: World, clock: int, id: int, patch: Patch, at: int)
    requires Inv(w, clock) && clock <= at && id in w.people && AfterUpdate(w, id, patch, at).Some?
    ensures Inv(AfterUpdate(w, id, patch, at).value, at)
  {
    var before, record := w.people[id], Patched(w.people[id], patch);
    var w1 := w.(people := w.people[id := record]);
    var m := UpdateMutation(id, before, record);
    if m.changed == {} {
      TimePasses(w, clock, at);
    } else {
      UpdatedInputs(w, id, patch);
      ChangedIsImpacted(w1.people, m);
      if StartDateColumn in m.changed {
        SyncedStep(w, clock, w1, id, Impacted(w1.people, m), at);
      } else {
        UnsyncedStep(w, clock, w1, id, at);
      }
    }
  }

  /** The start date is the same, so the tenure events need no change. */
  lemma UnsyncedStep(w: World, clock: int, w1: World, id: int, at: int)
    requires Inv(w, clock) && clock <= at && id in w.people && id in w1.people
    requires w1 == w.(people := w1.people) && Inputs(w1) && w1.people == w.people[id := w1.people[id]]
    requires w1.people[id].startDate == w.people[id].startDate
    requires ChangedColumns(w.people[id], w1.people[id]) != {}
    requires ReconcileAll(w1, Impacted(w1.people, UpdateMutation(id, w.people[id], w1.people[id])), at).Some?
    ensures Inv(ReconcileAll(w1, Impacted(w1.people, UpdateMutation(id, w.people[id], w1.people[id])), at).value, at)
  {
    var ids := Impacted(w1.people, MutationOf(w, w1, id));
    ChangedIsImpacted(w1.people, MutationOf(w, w1, id));
    UnsyncedQueue(w, clock, w1, id, at);
    OnlyImpactedChange(w, clock, w1, id, ids, at, w.events);
    StepKeepsWithoutEvents(w, clock, w1, ids, at);
  }

  lemma UnsyncedQueue(w: World, clock: int, w1: World, id: int, at: int)
    requires QueueSound(w, clock) && Queued(w, clock) && clock <= at && id in w.people && id in w1.people
    requires w1 == w.(people := w1.people) && w1.people == w.people[id := w1.people[id]]
    requires w1.people[id].startDate == w.people[id].startDate
    ensures QueueSound(w1, at) && Queued(w1, at) && OthersQueued(w.events, w.events, id)
  {
    assert AllRules(w1) == AllRules(w);
    forall key | key in PendingKeys(w.events)
      ensures Named(w1, key)
    {
      assert Named(w, key);
    }
    forall key | TenureBoundary(w1, id, key) && key.at > at
      ensures key in PendingKeys(w.events)
    {
      assert TenureBoundary(w, id, key);
    }
    QueueAfter(w, clock, w1, id, at, w.events);
    assert w1.(events := w.events) == w1;
  }

  // ----- delete

  lemma DeletedInputs(w: World, id: int)
    requires Inputs(w) && id in w.people
    ensures Inputs(WithoutEmployeeRows(w, id))
  {
    var w1 := WithoutEmployeeRows(w, id);
    assert ChartOf(w1.people) == Remove(ChartOf(w.people), id);
    RemoveKeepsAcyclic(ChartOf(w.people), id);
    assert VersionsSound(w1);
  }

  lemma DeletedQueue(w: World, clock: int, id: int, at: int)
    requires QueueSound(w, clock) && Queued(w, clock) && clock <= at && id in w.people
    ensures QueueSound(WithoutEmployeeRows(w, id), at) && Queued(WithoutEmployeeRows(w, id), at)
    ensures OthersQueued(w.events, WithoutEmployeeRows(w, id).events, id)
  {
    var w1 := WithoutEmployeeRows(w, id);
    CancelledKeys(w.events, EmployeeEntity, {id}, []);
    forall key | key in PendingKeys(w1.events)
      ensures Named(w1, key)
    {
      assert Named(w, key);
    }
    QueueAfter(w, clock, w1, id, at, w1.events);
    assert w1.(events := w1.events) == w1;
  }

  lemma SurvivorKeepsRest(w: World, id: int, e: int)
    requires e != id && id in w.people && e in w.people
    ensures var w1 := WithoutEmployeeRows(w, id);
            && InheritedOf(w1.members, w1.attached, e) == InheritedOf(w.members, w.attached, e)
            && ActiveOverrides(w1.overrides.table, e) == ActiveOverrides(w.overrides.table, e)
            && HistoryOf(w1, e) == HistoryOf(w, e) && LinksOf(w1, e) == LinksOf(w, e)
            && w1.people[e].startDate == w.people[e].startDate
  {
    var w1 := WithoutEmployeeRows(w, id);
    forall o
      ensures o in ActiveOverrides(w1.overrides.table, e) <==> o in ActiveOverrides(w.overrides.table, e)
    {
      if o in ActiveOverrides(w.overrides.table, e) {
        assert o.id in w1.overrides.table;
      }
      if o in ActiveOverrides(w1.overrides.table, e) {
        assert o.id in w.overrides.table;
      }
    }
  }

  lemma DeleteKeeps(w: World, clock: int, id: int, at: int)
    requires Inv(w, clock) && clock <= at && id in w.people && AfterDelete(w, id, at).Some?
    ensures Inv(AfterDelete(w, id, at).value, at)
  {
    var w1 := WithoutEmployeeRows(w, id);
    DeletedInputs(w, id);
    DeletedQueue(w, clock, id, at);
    forall e | e in w1.people
      ensures Clocked(HistoryOf(w1, e).rows, at)
      ensures e in DeleteImpact(w.people, id) || Carried(w, w1, e, w1.events)
    {
      SurvivorKeepsRest(w, id, e);
      if e !in DeleteImpact(w.people, id) {
        DeleteImpactComplete(w.people, id, e);
        OtherCarried(w, w1, e, id, w1.events);
      }
    }
    StepKeepsWithoutEvents(w, clock, w1, DeleteImpact(w.people, id), at);
  }
}
