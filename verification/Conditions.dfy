/**
 * Employees, the thirteen condition fields computed from them, and the truth of one
 * condition on one date. `None` as a truth value is the calendar error that escapes
 * from a tenure comparison past year 9999.
 */
module Conditions {
  import opened Common
  import opened Calendar
  import opened OrgChart
  import opened Reconciliation

  datatype Employee = Employee(
    name: string, state: string, department: string, employeeType: string,
    location: Option<string>, startDate: ValidDate, manager: Option<int>)

  type People = map<int, Employee>

  function ChartOf(people: People): Chart {
    map x | x in people :: people[x].manager
  }

  datatype Field =
    | EmployeeId | Name | State | Department | EmployeeType | Location | StartDate | ManagerId
    | IsManager | DirectReportCount | ReportsUnder | Level | TenureField

  datatype Value =
    | Missing
    | Text(text: string)
    | Day(day: int)
    | Number(number: int)
    | Flag(flag: bool)
    | Ids(ids: set<int>)
    | Tenure(start: ValidDate, on: int)

  /** The parsed comparison value of a condition. */
  datatype Operand =
    | TextOperand(text: string)
    | DayOperand(day: int)
    | NumberOperand(number: int)
    | FlagOperand(flag: bool)
    | YearsOperand(years: int)

  datatype Condition = Condition(field: Field, op: Operator, operand: Operand)

  function FieldValue(people: People, x: int, field: Field, day: int): Value
    requires x in people
  {
    var e, chart := people[x], ChartOf(people);
    match field
    case EmployeeId => Number(x)
    case Name => Text(e.name)
    case State => Text(e.state)
    case Department => Text(e.department)
    case EmployeeType => Text(e.employeeType)
    case Location => if e.location.Some? then Text(e.location.value) else Missing
    case StartDate => Day(Ordinal(e.startDate))
    case ManagerId => if e.manager.Some? then Number(e.manager.value) else Missing
    case IsManager => Flag(DirectReports(chart, x) != {})
    case DirectReportCount => Number(|DirectReports(chart, x)|)
    case ReportsUnder => Ids(Ancestors(chart, x))
    case Level => Number(ManagementLevel(chart, x))
    case TenureField => Tenure(e.startDate, day)
  }

  predicate OperatorAllowed(field: Field, op: Operator) {
    op == Eq || field in {Name, Department, EmployeeType, Location, StartDate, DirectReportCount, Level, TenureField}
  }

  /** The parser of the field accepts the operand. */
  predicate Parses(field: Field, operand: Operand) {
    match field
    case EmployeeId => operand.NumberOperand? && operand.number > 0
    case ManagerId => operand.NumberOperand? && operand.number > 0
    case ReportsUnder => operand.NumberOperand? && operand.number > 0
    case DirectReportCount => operand.NumberOperand? && operand.number >= 0
    case Level => operand.NumberOperand? && operand.number >= 0
    case IsManager => operand.FlagOperand?
    case StartDate => operand.DayOperand?
    case TenureField => operand.YearsOperand? && operand.years > 0
    case _ => operand.TextOperand?
  }

  predicate Compares(less: bool, equal: bool, op: Operator) {
    match op
    case Eq => equal
    case Lt => less
    case Le => less || equal
    case Gt => !less && !equal
    case Ge => !less
  }

  function Compare(value: Value, op: Operator, operand: Operand): Option<bool> {
    match (value, operand)
    case (Text(a), TextOperand(b)) => Some(Compares(StringLess(a, b), a == b, op))
    case (Day(a), DayOperand(b)) => Some(Compares(a < b, a == b, op))
    case (Number(a), NumberOperand(b)) => Some(Compares(a < b, a == b, op))
    case (Flag(a), FlagOperand(b)) => Some(Compares(!a && b, a == b, op))
    case (Ids(a), NumberOperand(b)) => Some(op == Eq && b in a)
    case (Tenure(start, on), YearsOperand(years)) => TenureHolds(start, op, years, on)
    case _ => Some(false)
  }

  /** A disallowed operator, an unparsable operand and a missing value make a condition false. */
  function Truth(c: Condition, value: Value): Option<bool> {
    if !OperatorAllowed(c.field, c.op) || !Parses(c.field, c.operand) || value == Missing then Some(false)
    else Compare(value, c.op, c.operand)
  }

  /** Evidence stored with a matched condition: only tenure records the evaluation date. */
  function ValueJson(value: Value): Json {
    match value
    case Missing => JNull
    case Text(t) => JStr(t)
    case Day(d) => JInt(d)
    case Number(n) => JInt(n)
    case Flag(b) => JBool(b)
    case Ids(s) => JIds(s)
    case Tenure(start, on) => JObj(map["start_date" := JInt(Ordinal(start)), CLOCK_KEY := JInt(on)])
  }

  /** The values of one employee on two dates differ at most in the tenure date. */
  predicate SameFact(a: Value, b: Value) {
    if a.Tenure? && b.Tenure? then a.start == b.start else a == b
  }

  lemma FactsKeepTheirEvidence(a: Value, b: Value)
    requires SameFact(a, b)
    ensures Stable(ValueJson(a)) == Stable(ValueJson(b))
  {
    StableIgnoresOnlyTheClock(ValueJson(a), ValueJson(b));
  }

  /** Time alone changes nothing but tenure. */
  lemma FactsOverTime(people: People, x: int, field: Field, day: int, later: int)
    requires x in people
    ensures SameFact(FieldValue(people, x, field, day), FieldValue(people, x, field, later))
    ensures field != TenureField ==> FieldValue(people, x, field, day) == FieldValue(people, x, field, later)
  {
  }

  // ----- what a condition means for the stored records

  predicate TextOrder(op: Operator, a: string, b: string) {
    match op
    case Eq => a == b
    case Lt => StringLess(a, b)
    case Le => !StringLess(b, a)
    case Gt => StringLess(b, a)
    case Ge => !StringLess(a, b)
  }

  predicate IntOrder(op: Operator, a: int, b: int) {
    match op case Eq => a == b case Lt => a < b case Le => a <= b case Gt => a > b case Ge => a >= b
  }

  /** The reports of an employee, read from the records. */
  function ReportsOf(people: People, x: int): set<int> {
    set r | r in people && people[r].manager == Some(x)
  }

  /** `level` hops lead to a root. */
  ghost predicate HopsToRoot(chart: Chart, x: int, level: nat) {
    Hop(chart, x, level).Some? && Hop(chart, x, level + 1).None?
  }

  /** The meaning of a condition on an employee's record, without values, parsers or closures. */
  ghost predicate Satisfies(people: People, x: int, c: Condition, day: int)
    requires x in people
  {
    var e, chart := people[x], ChartOf(people);
    match (c.field, c.operand)
    case (EmployeeId, NumberOperand(n)) => c.op == Eq && n > 0 && n == x
    case (Name, TextOperand(t)) => TextOrder(c.op, e.name, t)
    case (State, TextOperand(t)) => c.op == Eq && e.state == t
    case (Department, TextOperand(t)) => TextOrder(c.op, e.department, t)
    case (EmployeeType, TextOperand(t)) => TextOrder(c.op, e.employeeType, t)
    case (Location, TextOperand(t)) => e.location.Some? && TextOrder(c.op, e.location.value, t)
    case (StartDate, DayOperand(d)) => IntOrder(c.op, Ordinal(e.startDate), d)
    case (ManagerId, NumberOperand(n)) => c.op == Eq && n > 0 && e.manager == Some(n)
    case (IsManager, FlagOperand(b)) => c.op == Eq && (b <==> ReportsOf(people, x) != {})
    case (DirectReportCount, NumberOperand(n)) => n >= 0 && IntOrder(c.op, |ReportsOf(people, x)|, n)
    case (ReportsUnder, NumberOperand(n)) => c.op == Eq && n > 0 && Above(chart, n, x)
    case (Level, NumberOperand(n)) => n >= 0 && exists level: nat :: HopsToRoot(chart, x, level) && IntOrder(c.op, level, n)
    case (TenureField, YearsOperand(y)) => y > 0 && TenureHolds(e.startDate, c.op, y, day) == Some(true)
    case _ => false
  }

  lemma TextOperators(a: string, b: string)
    ensures forall op :: Compares(StringLess(a, b), a == b, op) <==> TextOrder(op, a, b)
  {
    StringLessTotal(a, b);
    StringLessIrreflexive(a);
    if StringLess(a, b) && StringLess(b, a) {
      StringLessTransitive(a, b, a);
    }
  }

  lemma {:induction false} NoHopsBeyond(chart: Chart, x: int, level: nat, hops: nat)
    requires HopsToRoot(chart, x, level) && hops > level
    ensures Hop(chart, x, hops).None?
  {
    if hops > level + 1 {
      NoHopsBeyond(chart, x, level, hops - 1);
    }
  }

  lemma LevelIsUnique(chart: Chart, x: int, level: nat)
    requires Acyclic(chart) && HopsToRoot(chart, x, level)
    ensures level == ManagementLevel(chart, x)
  {
    LevelIsHopsToRoot(chart, x);
    var computed := ManagementLevel(chart, x);
    if level < computed {
      NoHopsBeyond(chart, x, level, computed);
    } else if computed < level {
      NoHopsBeyond(chart, x, computed, level);
    }
  }

  /** The evaluator's truth is the meaning of the condition, for all thirteen fields and five operators. */
  lemma TruthIsSatisfaction(people: People, x: int, c: Condition, day: int)
    requires x in people && Acyclic(ChartOf(people))
    ensures Truth(c, FieldValue(people, x, c.field, day)) == Some(true) <==> Satisfies(people, x, c, day)
  {
    if c.operand.TextOperand? {
      TextMeaning(people, x, c, day);
    } else if c.operand.NumberOperand? {
      NumberMeaning(people, x, c, day);
    } else {
      assert DirectReports(ChartOf(people), x) == ReportsOf(people, x);
    }
  }

  lemma TextMeaning(people: People, x: int, c: Condition, day: int)
    requires x in people && c.operand.TextOperand?
    ensures Truth(c, FieldValue(people, x, c.field, day)) == Some(true) <==> Satisfies(people, x, c, day)
  {
    var value := FieldValue(people, x, c.field, day);
    if value.Text? {
      TextOperators(value.text, c.operand.text);
    }
  }

  lemma NumberMeaning(people: People, x: int, c: Condition, day: int)
    requires x in people && Acyclic(ChartOf(people)) && c.operand.NumberOperand?
    ensures Truth(c, FieldValue(people, x, c.field, day)) == Some(true) <==> Satisfies(people, x, c, day)
  {
    var chart, n := ChartOf(people), c.operand.number;
    match c.field {
      case ReportsUnder => AncestorsAreAbove(chart, x, n);
      case Level => LevelMeaning(chart, x, c.op, n);
      case _ => assert DirectReports(chart, x) == ReportsOf(people, x);
    }
  }

  lemma LevelMeaning(chart: Chart, x: int, op: Operator, n: int)
    requires Acyclic(chart)
    ensures (exists level: nat :: HopsToRoot(chart, x, level) && IntOrder(op, level, n))
            <==> IntOrder(op, ManagementLevel(chart, x), n)
  {
    LevelIsHopsToRoot(chart, x);
    assert HopsToRoot(chart, x, ManagementLevel(chart, x));
    forall level: nat | HopsToRoot(chart, x, level)
      ensures level == ManagementLevel(chart, x)
    {
      LevelIsUnique(chart, x, level);
    }
  }
}
