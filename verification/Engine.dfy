/**
 * The whole system as a state machine: the database contents, every operation that
 * changes them, and the worker batch. An operation either completes or, when it
 * raises, leaves the database as it was.
 */
module Engine {
  import opened Common
  import opened Calendar
  import opened OrgChart
  import opened Conditions
  import opened Employees
  import opened ConditionTree
  import opened Reconciliation
  import opened Overrides
  import opened Versions
  import opened Matching
  import opened Schedule

  datatype PolicyStatus = DraftPolicy | ActivePolicy | ArchivedPolicy

  datatype World = World(
    people: People,
    nextEmployee: nat,
    statuses: map<int, PolicyStatus>,
    nextPolicy: int,
    versions: seq<Version<Rules>>,
    cardinality: map<int, bool>,  // assignment field to "accepts one value"
    nextField: int,
    groups: set<int>,
    nextGroup: int,
    members: set<(int, int)>,  // (group, employee)
    attached: set<(int, int)>,  // (group, policy)
    overrides: OverrideState,
    histories: map<int, History>,
    links: map<int, set<int>>,  // employee to the policies it matched
    events: seq<Event>)

  const EMPTY_WORLD: World :=
    World(map[], 1, map[], 1, [], map[], 1, {}, 1, {}, {}, OverrideState(map[], 1), map[], map[], [])

  // ----- what the resolver reads for one employee and one date

  function FactsOf(people: People, e: int, day: int): map<Field, Value>
    requires e in people
  {
    map f: Field :: FieldValue(people, e, f, day)
  }

  predicate IsActive(statuses: map<int, PolicyStatus>, policy: int) {
    policy in statuses && statuses[policy] == ActivePolicy
  }

  function EffectiveOf(versions: seq<Version<Rules>>, statuses: map<int, PolicyStatus>, day: int): map<nat, Version<Rules>> {
    map i: nat | i < |versions| && IsActive(statuses, versions[i].policy) && EffectiveOn(versions[i], day) :: versions[i]
  }

  function InheritedOf(members: set<(int, int)>, attached: set<(int, int)>, e: int): set<(int, int)> {
    set link | link in attached && (link.0, e) in members
  }

  /** The one-valued fields among those that the effective versions assign. */
  function OnesOf(effective: map<nat, Version<Rules>>, cardinality: map<int, bool>): set<int> {
    set i, v | i in effective && v in effective[i].payload.values && v.0 in cardinality && cardinality[v.0] :: v.0
  }

  function ViewOf(w: World, e: int, day: int): View
    requires e in w.people
  {
    var effective := EffectiveOf(w.versions, w.statuses, day);
    View(day, FactsOf(w.people, e, day), effective, InheritedOf(w.members, w.attached, e),
         ActiveOverrides(w.overrides.table, e), OnesOf(effective, w.cardinality))
  }

  /** What the resolver computes for an employee on a date. */
  ghost function Resolve(w: World, e: int, day: int): Outcome
    requires e in w.people
  {
    OutcomeOf(ViewOf(w, e, day))
  }

  // ----- reconciling employees

  function HistoryOf(w: World, e: int): History {
    if e in w.histories then w.histories[e] else History([], [])
  }

  function LinksOf(w: World, e: int): set<int> {
    if e in w.links then w.links[e] else {}
  }

  /** `None` when the resolver or the order check raises. */
  ghost function Refreshed(w: World, e: int, at: int): Option<History>
    requires e in w.people
  {
    var outcome := Resolve(w, e, DayOf(at));
    if outcome.Raised? then None
    else
      match Reconcile(HistoryOf(w, e), at, outcome.desired)
      case Ok(h) => Some(h)
      case Err(_) => None
  }

  ghost function ReconcileAll(w: World, ids: set<int>, at: int): Option<World> {
    if exists e :: e in ids && e in w.people && Refreshed(w, e, at).None? then None
    else
      Some(w.(
        histories := map e | e in w.people :: if e in ids then Refreshed(w, e, at).value else HistoryOf(w, e),
        links := map e | e in w.people :: if e in ids then Resolve(w, e, DayOf(at)).policies else LinksOf(w, e)))
  }

  /** Several batches at one instant, in order. */
  ghost function ReconcileMany(w: World, plan: seq<set<int>>, at: int): Option<World> {
    if plan == [] then Some(w)
    else
      match ReconcileMany(w, plan[..|plan| - 1], at)
      case None => None
      case Some(w1) => ReconcileAll(w1, plan[|plan| - 1], at)
  }

  // ----- schedules

  function WindowOf<P>(versions: seq<Version<P>>, i: nat): Window
    requires i < |versions|
  {
    Window(i + 1, versions[i].from, versions[i].until)
  }

  function WindowsOf<P>(versions: seq<Version<P>>, policy: int, n: nat): seq<Window>
    requires n <= |versions|
  {
    if n == 0 then []
    else WindowsOf(versions, policy, n - 1) + (if versions[n - 1].policy == policy then [WindowOf(versions, n - 1)] else [])
  }

  function SyncVersions(w: World, policy: int, now: int): World {
    var windows := WindowsOf(w.versions, policy, |w.versions|);
    w.(events := Synced(w.events, PolicyVersionEntity, set x | x in windows :: x.id,
                        if IsActive(w.statuses, policy) then VersionEvents(windows, now) else []))
  }

  function ClauseRules(clause: Clause<Condition>, window: Window): seq<TenureRule> {
    if clause == [] then []
    else
      var c := clause[|clause| - 1];
      ClauseRules(clause[..|clause| - 1], window)
      + (if c.field == TenureField && c.operand.YearsOperand? then [TenureRule(c.op, c.operand.years, window)] else [])
  }

  function ClausesRules(clauses: seq<Clause<Condition>>, window: Window): seq<TenureRule> {
    if clauses == [] then []
    else ClausesRules(clauses[..|clauses| - 1], window) + ClauseRules(clauses[|clauses| - 1], window)
  }

  /** The tenure conditions of all versions of active policies, effective or not. */
  function TenureRules(versions: seq<Version<Rules>>, statuses: map<int, PolicyStatus>, n: nat): seq<TenureRule>
    requires n <= |versions|
  {
    if n == 0 then []
    else
      TenureRules(versions, statuses, n - 1)
      + (if IsActive(statuses, versions[n - 1].policy)
         then ClausesRules(versions[n - 1].payload.clauses, WindowOf(versions, n - 1)) else [])
  }

  function AllRules(w: World): seq<TenureRule> {
    TenureRules(w.versions, w.statuses, |w.versions|)
  }

  function SyncTenure(w: World, e: int, now: int): Option<World>
    requires e in w.people
  {
    match TenureEvents(e, w.people[e].startDate, AllRules(w), now)
    case None => None
    case Some(keys) => Some(w.(events := Synced(w.events, EmployeeEntity, {e}, keys)))
  }

  /** Employees in the order of their identities. */
  function SyncAllTenure(w: World, below: nat, now: int): Option<World> {
    if below == 0 then Some(w)
    else
      match SyncAllTenure(w, below - 1, now)
      case None => None
      case Some(w1) => if below - 1 in w1.people then SyncTenure(w1, below - 1, now) else Some(w1)
  }

  // ----- operations

  /** The request body of a policy version. */
  datatype VersionInput = VersionInput(
    priority: int, from: DateOrdinal, until: Option<DateOrdinal>, tree: Group<Condition>, values: set<(int, string)>)

  datatype Op =
    | CreateEmployee(record: Employee, at: int)
    | UpdateEmployee(id: int, patch: Patch, at: int)
    | DeleteEmployee(id: int, at: int)
    | CreatePolicy(status: PolicyStatus, input: VersionInput, syncAt: int, tenureAt: int, at: int)
    | AddVersion(policy: int, input: VersionInput, syncAt: int, tenureAt: int, at: int)
    | SetStatus(policy: int, status: PolicyStatus, syncAt: int, tenureAt: int, at: int)
    | CreateField(one: bool, at: int)
    | CreateGroup(at: int)
    | AddMember(group: int, id: int, at: int)
    | RemoveMember(group: int, id: int, at: int)
    | UpdateGroupPolicies(group: int, added: set<int>, removed: set<int>, at: int)
    | ChangeOverride(change: OverrideOp, at: int)
    | RefreshEmployee(id: int, at: int)
    | WorkBatch(limit: nat, at: int)

  /** The clock readings of an operation never run backwards, and stay inside the calendar. */
  predicate Timed(clock: int, op: Op) {
    && DayOf(op.at) <= MAX_ORDINAL
    && match op
       case CreatePolicy(_, _, syncAt, tenureAt, at) => clock <= syncAt <= tenureAt <= at
       case AddVersion(_, _, syncAt, tenureAt, at) => clock <= syncAt <= tenureAt <= at
       case SetStatus(_, _, syncAt, tenureAt, at) => clock <= syncAt <= tenureAt <= at
       case _ => clock <= op.at
  }

  predicate Typed(c: Condition) {
    OperatorAllowed(c.field, c.op) && Parses(c.field, c.operand)
  }

  /** The checks made before a version is stored; the last two make the compiler succeed. */
  ghost predicate Accepted(w: World, input: VersionInput) {
    && (forall v | v in input.values :: v.0 in w.cardinality)
    && EveryCondition(input.tree, Typed)
    && NoEmptyGroup(input.tree)
    && FirstBrokenLimit(input.tree).None?
  }

  function DraftOf(policy: int, input: VersionInput): Draft<Rules> {
    Draft(policy, input.priority, input.from, input.until, Rules(input.tree, Dnf(input.tree), input.values))
  }

  ghost function Stored(w: World, policy: int, input: VersionInput): Option<World> {
    if !Accepted(w, input) then None
    else
      match WithVersion(w.versions, DraftOf(policy, input))
      case Err(_) => None
      case Ok(versions) => Some(w.(versions := versions))
  }

  /** Both synchronizations, then every employee. */
  ghost function SyncAndRefresh(w: World, policy: int, syncAt: int, tenureAt: int, at: int): Option<World> {
    match SyncAllTenure(SyncVersions(w, policy, syncAt), w.nextEmployee, tenureAt)
    case None => None
    case Some(w1) => ReconcileAll(w1, w1.people.Keys, at)
  }

  function MembersOf(w: World, group: int): set<int> {
    set m | m in w.members && m.0 == group :: m.1
  }

  function OverrideEmployee(change: OverrideOp): int {
    match change
    case CreateOverride(employee, _, _, _) => employee
    case UpdateOverride(employee, _, _, _, _) => employee
    case DeleteOverride(employee, _, _) => employee
  }

  function OverrideField(change: OverrideOp): Option<int> {
    match change
    case CreateOverride(_, field, _, _) => Some(field)
    case UpdateOverride(_, _, newField, _, _) => newField
    case DeleteOverride(_, _, _) => None
  }

  function OneValued(w: World): set<int> {
    set f | f in w.cardinality && w.cardinality[f]
  }

  function Singles(ids: set<int>, below: nat): seq<set<int>> {
    if below == 0 then [] else Singles(ids, below - 1) + (if below - 1 in ids then [{below - 1}] else [])
  }

  function BatchPolicies(w: World, batch: seq<nat>): set<int> {
    set i | i in batch && i < |w.events| && w.events[i].key.entity == PolicyVersionEntity
            && 1 <= w.events[i].key.id <= |w.versions| :: w.versions[w.events[i].key.id - 1].policy
  }

  function BatchEmployees(w: World, batch: seq<nat>): set<int> {
    set i | i in batch && i < |w.events| && w.events[i].key.entity == EmployeeEntity :: w.events[i].key.id
  }

  /** What a batch reconciles: everybody once for each policy, then single employees in order. */
  function PlanOf(w: World, batch: seq<nat>): seq<set<int>> {
    seq(|BatchPolicies(w, batch)|, i => w.people.Keys) + Singles(BatchEmployees(w, batch), w.nextEmployee)
  }

  function WithEmployee(w: World, record: Employee): World {
    w.(people := w.people[w.nextEmployee := record], nextEmployee := w.nextEmployee + 1)
  }

  ghost function AfterCreate(w: World, record: Employee, at: int): Option<World> {
    var id := w.nextEmployee;
    if ValidateManager(ChartOf(w.people), None, record.manager).Some? then None
    else
      var w1 := WithEmployee(w, record);
      match ReconcileAll(w1, Impacted(w1.people, CreateMutation(id, record)), at)
      case None => None
      case Some(w2) => SyncTenure(w2, id, at)
  }

  ghost function AfterUpdate(w: World, id: int, patch: Patch, at: int): Option<World>
    requires id in w.people
  {
    var before, record := w.people[id], Patched(w.people[id], patch);
    if patch.manager.Some? && ValidateManager(ChartOf(w.people), Some(id), patch.manager.value).Some? then None
    else
      var changed := ChangedColumns(before, record);
      if changed == {} then Some(w)
      else
        var w1 := w.(people := w.people[id := record]);
        match ReconcileAll(w1, Impacted(w1.people, UpdateMutation(id, before, record)), at)
        case None => None
        case Some(w2) => if StartDateColumn in changed then SyncTenure(w2, id, at) else Some(w2)
  }

  function WithoutEmployee(table: Table, id: int): Table {
    map o | o in table && table[o].employee != id :: table[o]
  }

  /** The row is gone with everything that cascades from it, and its pending events are cancelled. */
  function WithoutEmployeeRows(w: World, id: int): World {
    w.(people := Deleted(w.people, id),
       members := (set m | m in w.members && m.1 != id),
       overrides := w.overrides.(table := WithoutEmployee(w.overrides.table, id)),
       histories := w.histories - {id},
       links := w.links - {id},
       events := CancelledExcept(w.events, EmployeeEntity, {id}, []))
  }

  ghost function AfterDelete(w: World, id: int, at: int): Option<World>
    requires id in w.people
  {
    ReconcileAll(WithoutEmployeeRows(w, id), DeleteImpact(w.people, id), at)
  }

  /** An event of the batch names an employee or a version that does not exist. */
  ghost predicate MissingEntity(w: World, batch: seq<nat>) {
    exists i :: i in batch && i < |w.events|
                && match w.events[i].key.entity
                   case EmployeeEntity => w.events[i].key.id !in w.people
                   case PolicyVersionEntity => !(1 <= w.events[i].key.id <= |w.versions|)
  }

  ghost function AfterBatch(w: World, limit: nat, at: int): Option<World> {
    var batch := Due(w.events, at, limit);
    if limit < 1 then None
    else if MissingEntity(w, batch) then None
    else
      match ReconcileMany(w, PlanOf(w, batch), at)
      case None => None
      case Some(w1) => Some(w1.(events := Marked(w.events, batch, at)))
  }

  function WithPolicy(w: World, status: PolicyStatus): World {
    w.(statuses := w.statuses[w.nextPolicy := status], nextPolicy := w.nextPolicy + 1)
  }

  ghost function AfterCreatePolicy(w: World, status: PolicyStatus, input: VersionInput, syncAt: int, tenureAt: int, at: int)
    : Option<World>
  {
    match Stored(WithPolicy(w, status), w.nextPolicy, input)
    case None => None
    case Some(w1) => SyncAndRefresh(w1, w.nextPolicy, syncAt, tenureAt, at)
  }

  ghost function AfterAddVersion(w: World, policy: int, input: VersionInput, syncAt: int, tenureAt: int, at: int): Option<World> {
    if policy !in w.statuses then None
    else
      match Stored(w, policy, input)
      case None => None
      case Some(w1) => SyncAndRefresh(w1, policy, syncAt, tenureAt, at)
  }

  ghost function AfterSetStatus(w: World, policy: int, status: PolicyStatus, syncAt: int, tenureAt: int, at: int): Option<World> {
    if policy !in w.statuses then None
    else if w.statuses[policy] == status then Some(w)
    else SyncAndRefresh(w.(statuses := w.statuses[policy := status]), policy, syncAt, tenureAt, at)
  }

  function WithField(w: World, one: bool): World {
    w.(cardinality := w.cardinality[w.nextField := one], nextField := w.nextField + 1)
  }

  function WithGroup(w: World): World {
    w.(groups := w.groups + {w.nextGroup}, nextGroup := w.nextGroup + 1)
  }

  ghost function AfterMembers(w: World, members: set<(int, int)>, group: int, id: int, at: int): Option<World> {
    if group !in w.groups || id !in w.people then None
    else if members == w.members then Some(w)
    else ReconcileAll(w.(members := members), {id}, at)
  }

  ghost function AfterGroupPolicies(w: World, group: int, added: set<int>, removed: set<int>, at: int): Option<World> {
    if group !in w.groups || !(added + removed <= w.statuses.Keys) then None
    else
      var detached := w.attached - (set p | p in removed :: (group, p));
      var attached := detached + (set p | p in added :: (group, p));
      if detached == w.attached && attached == detached then Some(w)
      else ReconcileAll(w.(attached := attached), MembersOf(w, group), at)
  }

  ghost function AfterOverride(w: World, change: OverrideOp, at: int): Option<World> {
    var employee, field := OverrideEmployee(change), OverrideField(change);
    if employee !in w.people || (field.Some? && field.value !in w.cardinality) then None
    else
      match Changed(w.overrides, OneValued(w), change)
      case Err(_) => None
      case Ok(overrides) =>
        if overrides == w.overrides then Some(w) else ReconcileAll(w.(overrides := overrides), {employee}, at)
  }

  /** `None` when the operation raises. */
  ghost function Apply(w: World, op: Op): Option<World> {
    match op
    case CreateEmployee(record, at) => AfterCreate(w, record, at)
    case UpdateEmployee(id, patch, at) => if id in w.people then AfterUpdate(w, id, patch, at) else None
    case DeleteEmployee(id, at) => if id in w.people then AfterDelete(w, id, at) else None
    case CreatePolicy(status, input, syncAt, tenureAt, at) => AfterCreatePolicy(w, status, input, syncAt, tenureAt, at)
    case AddVersion(policy, input, syncAt, tenureAt, at) => AfterAddVersion(w, policy, input, syncAt, tenureAt, at)
    case SetStatus(policy, status, syncAt, tenureAt, at) => AfterSetStatus(w, policy, status, syncAt, tenureAt, at)
    case CreateField(one, at) => Some(WithField(w, one))
    case CreateGroup(at) => Some(WithGroup(w))
    case AddMember(group, id, at) => AfterMembers(w, w.members + {(group, id)}, group, id, at)
    case RemoveMember(group, id, at) => AfterMembers(w, w.members - {(group, id)}, group, id, at)
    case UpdateGroupPolicies(group, added, removed, at) => AfterGroupPolicies(w, group, added, removed, at)
    case ChangeOverride(change, at) => AfterOverride(w, change.(at := at), at)
    case RefreshEmployee(id, at) => if id in w.people then ReconcileAll(w, {id}, at) else None
    case WorkBatch(limit, at) => AfterBatch(w, limit, at)
  }

  /** A raising operation is rolled back. */
  ghost function Step(w: World, op: Op): World {
    match Apply(w, op)
    case Some(after) => after
    case None => w
  }

  ghost function Run(ops: seq<Op>): World
    decreases |ops|, 0
  {
    if ops == [] then EMPTY_WORLD else Next(ops[..|ops| - 1], ops[|ops| - 1])
  }

  /** One more operation after a run. */
  ghost function Next(ops: seq<Op>, op: Op): World
    decreases |ops|, 1
  {
    Step(Run(ops), op)
  }

  /** The instant at which the last operation finished. */
  function ClockAfter(ops: seq<Op>): int {
    if ops == [] then 0 else ops[|ops| - 1].at
  }

  /** No operation starts before the one before it finished. */
  predicate RunTimed(ops: seq<Op>) {
    ops == [] || (RunTimed(ops[..|ops| - 1]) && Timed(ClockAfter(ops[..|ops| - 1]), ops[|ops| - 1]))
  }
}
