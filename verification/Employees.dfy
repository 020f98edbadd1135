/**
 * Creating, updating and deleting employees, and the set of employees whose
 * condition facts such a mutation may have moved.
 */
module Employees {
  import opened Common
  import opened Calendar
  import opened OrgChart
  import opened Conditions

  datatype Column =
    | IdColumn | NameColumn | StateColumn | DepartmentColumn | EmployeeTypeColumn
    | LocationColumn | StartDateColumn | ManagerColumn

  datatype ImpactResolver = ChangedEmployee | OldAndNewManagers | MovedSubtree

  /** The declared dependencies of a field on employee columns. */
  function Dependencies(field: Field): set<(Column, ImpactResolver)> {
    match field
    case EmployeeId => {(IdColumn, ChangedEmployee)}
    case Name => {(NameColumn, ChangedEmployee)}
    case State => {(StateColumn, ChangedEmployee)}
    case Department => {(DepartmentColumn, ChangedEmployee)}
    case EmployeeType => {(EmployeeTypeColumn, ChangedEmployee)}
    case Location => {(LocationColumn, ChangedEmployee)}
    case StartDate => {(StartDateColumn, ChangedEmployee)}
    case ManagerId => {(ManagerColumn, ChangedEmployee)}
    case IsManager => {(ManagerColumn, OldAndNewManagers)}
    case DirectReportCount => {(ManagerColumn, OldAndNewManagers)}
    case ReportsUnder => {(ManagerColumn, MovedSubtree)}
    case Level => {(ManagerColumn, MovedSubtree)}
    case TenureField => {(StartDateColumn, ChangedEmployee)}
  }

  function ResolversFor(changed: set<Column>): set<ImpactResolver> {
    set field: Field, dependency | dependency in Dependencies(field) && dependency.0 in changed :: dependency.1
  }

  datatype Mutation = Mutation(id: int, changed: set<Column>, oldManager: Option<int>, newManager: Option<int>)

  function IdOf(manager: Option<int>): set<int> {
    if manager.Some? then {manager.value} else {}
  }

  /** `people` is the state after the mutation. */
  function ImpactOf(resolver: ImpactResolver, people: People, m: Mutation): set<int> {
    match resolver
    case ChangedEmployee => {m.id}
    case OldAndNewManagers => IdOf(m.oldManager) + IdOf(m.newManager)
    case MovedSubtree => if m.id in people then {m.id} + Descendants(ChartOf(people), m.id) else {}
  }

  function Impacted(people: People, m: Mutation): set<int> {
    set resolver, id | resolver in ResolversFor(m.changed) && id in ImpactOf(resolver, people, m) && id in people :: id
  }

  method FindImpacted(people: People, m: Mutation) returns (impacted: set<int>)
    ensures impacted == Impacted(people, m)
  {
    if m.changed == {} {
      assert forall field, d | d in Dependencies(field) :: d.0 !in m.changed;
      return {};
    }
    var left := ResolversFor(m.changed);
    ghost var seen: set<ImpactResolver> := {};
    var found: set<int> := {};
    while left != {}
      invariant seen !! left && seen + left == ResolversFor(m.changed)
      invariant forall id :: id in found <==> exists resolver :: resolver in seen && id in ImpactOf(resolver, people, m)
      decreases left
    {
      var resolver :| resolver in left;
      left, seen := left - {resolver}, seen + {resolver};
      found := found + ImpactOf(resolver, people, m);
    }
    assert seen == ResolversFor(m.changed);
    impacted := set id | id in found && id in people;
    forall id
      ensures id in impacted <==> id in Impacted(people, m)
    {
    }
  }

  // ----- the three mutations

  datatype Patch = Patch(
    name: Option<string>, state: Option<string>, department: Option<string>, employeeType: Option<string>,
    location: Option<Option<string>>, startDate: Option<ValidDate>, manager: Option<Option<int>>)

  function Or<T>(change: Option<T>, current: T): T {
    if change.Some? then change.value else current
  }

  function Patched(e: Employee, p: Patch): Employee {
    Employee(Or(p.name, e.name), Or(p.state, e.state), Or(p.department, e.department),
             Or(p.employeeType, e.employeeType), Or(p.location, e.location),
             Or(p.startDate, e.startDate), Or(p.manager, e.manager))
  }

  function ChangedColumns(before: Employee, after: Employee): set<Column> {
    (if before.name != after.name then {NameColumn} else {})
    + (if before.state != after.state then {StateColumn} else {})
    + (if before.department != after.department then {DepartmentColumn} else {})
    + (if before.employeeType != after.employeeType then {EmployeeTypeColumn} else {})
    + (if before.location != after.location then {LocationColumn} else {})
    + (if before.startDate != after.startDate then {StartDateColumn} else {})
    + (if before.manager != after.manager then {ManagerColumn} else {})
  }

  const CREATED_COLUMNS: set<Column> :=
    {NameColumn, StateColumn, DepartmentColumn, EmployeeTypeColumn, LocationColumn, StartDateColumn, ManagerColumn}

  function CreateMutation(id: int, e: Employee): Mutation {
    Mutation(id, CREATED_COLUMNS, None, e.manager)
  }

  function UpdateMutation(id: int, before: Employee, after: Employee): Mutation {
    Mutation(id, ChangedColumns(before, after), before.manager, after.manager)
  }

  function DetachedFrom(e: Employee, id: int): Employee {
    if e.manager == Some(id) then e.(manager := None) else e
  }

  function Deleted(people: People, id: int): People {
    map y | y in people && y != id :: DetachedFrom(people[y], id)
  }

  function DeleteImpact(people: People, id: int): set<int>
    requires id in people
  {
    Descendants(ChartOf(people), id) + IdOf(people[id].manager)
  }

  // ----- impact completeness

  ghost predicate SameFacts(before: People, after: People, y: int)
    requires y in before && y in after
  {
    forall field, day :: FieldValue(before, y, field, day) == FieldValue(after, y, field, day)
  }

  /** What the org-derived fields of `y` depend on. */
  lemma SameChartFacts(before: People, after: People, y: int)
    requires y in before && y in after && before[y] == after[y]
    requires DirectReports(ChartOf(before), y) == DirectReports(ChartOf(after), y)
    requires forall a :: Above(ChartOf(before), a, y) <==> Above(ChartOf(after), a, y)
    ensures SameFacts(before, after, y)
  {
    forall a
      ensures a in Ancestors(ChartOf(before), y) <==> a in Ancestors(ChartOf(after), y)
    {
      AncestorsAreAbove(ChartOf(before), y, a);
      AncestorsAreAbove(ChartOf(after), y, a);
    }
    assert Ancestors(ChartOf(before), y) == Ancestors(ChartOf(after), y);
  }

  /** Replacing or adding the record of `x` only. */
  lemma OneRecordChanged(before: People, after: People, x: int, y: int)
    requires y in before && y in after && y != x
    requires forall z | z != x :: z in before <==> z in after
    requires forall z | z != x && z in before && z in after :: before[z] == after[z]
    requires !Above(ChartOf(after), x, y)
    requires ManagerOf(ChartOf(before), x) != Some(y) && ManagerOf(ChartOf(after), x) != Some(y)
    ensures SameFacts(before, after, y)
  {
    forall a
      ensures Above(ChartOf(before), a, y) <==> Above(ChartOf(after), a, y)
    {
      AboveUnchanged(ChartOf(after), ChartOf(before), x, y, a);
    }
    forall r
      ensures r in DirectReports(ChartOf(before), y) <==> r in DirectReports(ChartOf(after), y)
    {
    }
    SameChartFacts(before, after, y);
  }

  lemma ManagerChangeUsesAll(changed: set<Column>)
    ensures ManagerColumn in changed ==> ResolversFor(changed) == {ChangedEmployee, OldAndNewManagers, MovedSubtree}
    ensures changed != {} ==> ChangedEmployee in ResolversFor(changed)
  {
    assert (ManagerColumn, ChangedEmployee) in Dependencies(ManagerId);
    assert (ManagerColumn, OldAndNewManagers) in Dependencies(IsManager);
    assert (ManagerColumn, MovedSubtree) in Dependencies(Level);
    if column :| column in changed {
      var field := match column
        case IdColumn => EmployeeId case NameColumn => Name case StateColumn => State
        case DepartmentColumn => Department case EmployeeTypeColumn => EmployeeType
        case LocationColumn => Location case StartDateColumn => StartDate case ManagerColumn => ManagerId;
      assert (column, ChangedEmployee) in Dependencies(field);
    }
  }

  /**
   * Impact completeness of an update: every employee outside the computed set keeps
   * all thirteen field values, on every date.
   */
  lemma UpdateImpactComplete(people: People, x: int, record: Employee, y: int)
    requires x in people && y in people
    requires y !in Impacted(people[x := record], UpdateMutation(x, people[x], record))
    ensures SameFacts(people, people[x := record], y)
  {
    var after := people[x := record];
    var m := UpdateMutation(x, people[x], record);
    ManagerChangeUsesAll(m.changed);
    if m.changed == {} {
      assert after == people;
    } else {
      assert x in ImpactOf(ChangedEmployee, after, m);
      if ManagerColumn in m.changed {
        DescendantsAreBelow(ChartOf(after), x, y);
        OneRecordChanged(people, after, x, y);
      } else {
        assert ChartOf(after) == ChartOf(people);
        SameChartFacts(people, after, y);
      }
    }
  }

  lemma CreateImpactComplete(people: People, x: int, record: Employee, y: int)
    requires x !in people && y in people
    requires y !in Impacted(people[x := record], CreateMutation(x, record))
    ensures SameFacts(people, people[x := record], y)
  {
    var after := people[x := record];
    var m := CreateMutation(x, record);
    ManagerChangeUsesAll(m.changed);
    DescendantsAreBelow(ChartOf(after), x, y);
    OneRecordChanged(people, after, x, y);
  }

  lemma {:induction false} HopsAfterDelete(chart: Chart, x: int, y: int, hops: nat)
    requires y != x && !Above(chart, x, y)
    ensures Hop(Remove(chart, x), y, hops) == Hop(chart, y, hops)
    ensures Hop(chart, y, hops) != Some(x)
  {
    if hops > 0 {
      HopsAfterDelete(chart, x, y, hops - 1);
    }
  }

  lemma AboveAfterDelete(chart: Chart, x: int, y: int, a: int)
    requires y != x && !Above(chart, x, y)
    ensures Above(chart, a, y) <==> Above(Remove(chart, x), a, y)
  {
    if Above(chart, a, y) {
      var hops: nat :| hops >= 1 && Hop(chart, y, hops) == Some(a);
      HopsAfterDelete(chart, x, y, hops);
    }
    if Above(Remove(chart, x), a, y) {
      var hops: nat :| hops >= 1 && Hop(Remove(chart, x), y, hops) == Some(a);
      HopsAfterDelete(chart, x, y, hops);
    }
  }

  /** Impact completeness of a delete: descendants and manager are enough. */
  lemma DeleteImpactComplete(people: People, x: int, y: int)
    requires x in people && y in people && y != x
    requires y !in DeleteImpact(people, x)
    ensures SameFacts(people, Deleted(people, x), y)
  {
    var after := Deleted(people, x);
    var chart := ChartOf(people);
    assert ChartOf(after) == Remove(chart, x);
    DescendantsAreBelow(chart, x, y);
    AboveStep(chart, x, y);
    assert people[y] == after[y];
    forall a
      ensures Above(ChartOf(people), a, y) <==> Above(ChartOf(after), a, y)
    {
      AboveAfterDelete(chart, x, y, a);
    }
    assert DirectReports(ChartOf(people), y) == DirectReports(ChartOf(after), y);
    SameChartFacts(people, after, y);
  }

  // ----- what a mutation does

  /** Only the changed employee, its old and new manager and its reports are reconciled, and without a new manager only itself. */
  lemma ImpactIsBounded(people: People, m: Mutation, e: int)
    requires e in Impacted(people, m)
    ensures e in people
    ensures e == m.id
            || (ManagerColumn in m.changed && (m.oldManager == Some(e) || m.newManager == Some(e) || Above(ChartOf(people), m.id, e)))
  {
    DescendantsAreBelow(ChartOf(people), m.id, e);
  }

  /** A deletion reconciles exactly the manager and everybody below. */
  lemma DeleteImpactExactly(people: People, id: int, e: int)
    requires id in people
    ensures e in DeleteImpact(people, id) <==> Above(ChartOf(people), id, e) || people[id].manager == Some(e)
  {
    DescendantsAreBelow(ChartOf(people), id, e);
  }

  // ----- the employee table as the program updates it

  class EmployeeTable {
    var people: People
    var nextId: int

    constructor ()
      ensures people == map[] && nextId == 1
    {
      people, nextId := map[], 1;
    }

    /** Inserts a validated employee and reports whom to reconcile. */
    method Create(e: Employee) returns (r: Result<int, HierarchyError>, impacted: set<int>)
      modifies this
      ensures var invalid := ValidateManager(ChartOf(old(people)), None, e.manager);
              if invalid.Some? then
                r == Err(invalid.value) && people == old(people) && nextId == old(nextId) && impacted == {}
              else
                && r == Ok(old(nextId)) && nextId == old(nextId) + 1
                && people == old(people)[old(nextId) := e]
                && impacted == Impacted(people, CreateMutation(old(nextId), e))
    {
      var invalid := ValidateManager(ChartOf(people), None, e.manager);
      if invalid.Some? {
        return Err(invalid.value), {};
      }
      var id := nextId;
      people, nextId := people[id := e], nextId + 1;
      impacted := FindImpacted(people, CreateMutation(id, e));
      return Ok(id), impacted;
    }

    /** The manager is validated only when the patch sets it. */
    method Update(id: int, patch: Patch) returns (r: Result<set<Column>, HierarchyError>, impacted: set<int>)
      requires id in people
      modifies this
      ensures var invalid := if patch.manager.Some? then ValidateManager(ChartOf(old(people)), Some(id), patch.manager.value)
                             else None;
              if invalid.Some? then
                r == Err(invalid.value) && people == old(people) && nextId == old(nextId) && impacted == {}
              else
                var record := Patched(old(people)[id], patch);
                && r == Ok(ChangedColumns(old(people)[id], record)) && nextId == old(nextId)
                && people == old(people)[id := record]
                && impacted == Impacted(people, UpdateMutation(id, old(people)[id], record))
    {
      if patch.manager.Some? {
        var invalid := ValidateManager(ChartOf(people), Some(id), patch.manager.value);
        if invalid.Some? {
          return Err(invalid.value), {};
        }
      }
      var before := people[id];
      people := people[id := Patched(before, patch)];
      var m := UpdateMutation(id, before, people[id]);
      impacted := FindImpacted(people, m);
      return Ok(m.changed), impacted;
    }

    /** Detaches the direct reports one by one, then removes the row. */
    method Delete(id: int) returns (impacted: set<int>)
      requires id in people
      modifies this
      ensures people == Deleted(old(people), id) && nextId == old(nextId)
      ensures impacted == DeleteImpact(old(people), id)
    {
      impacted := DeleteImpact(people, id);
      DetachReports(id);
      people := people - {id};
      assert people == Deleted(old(people), id);
    }

    method DetachReports(id: int)
      modifies this
      ensures people.Keys == old(people).Keys && nextId == old(nextId)
      ensures forall y | y in people :: people[y] == DetachedFrom(old(people)[y], id)
    {
      var reports := set y | y in people && people[y].manager == Some(id);
      while reports != {}
        invariant people.Keys == old(people).Keys && nextId == old(nextId)
        invariant forall y | y in reports :: y in people && people[y] == old(people)[y] && people[y].manager == Some(id)
        invariant forall y | y in people && !(y in reports) ::
                    people[y] == DetachedFrom(old(people)[y], id)
        decreases reports
      {
        var report := AnyOf(reports);
        reports := reports - {report};
        people := people[report := people[report].(manager := None)];
      }
    }
  }
}
