/** Employee overrides: rows are retired, never changed, and each change is validated. */
module Overrides {
  import opened Common
  import opened Resolution

  datatype OverrideRow = OverrideRow(employee: int, field: int, value: string, retiredAt: Option<int>)

  datatype OverrideError = NotFound | SecondValue | DuplicateValue

  type Table = map<int, OverrideRow>

  datatype OverrideState = OverrideState(table: Table, nextId: int)

  /** The overrides in force for one employee. */
  function ActiveOverrides(table: Table, employee: int): set<Override> {
    set id | id in table && table[id].employee == employee && table[id].retiredAt.None? ::
      Override(id, table[id].field, table[id].value)
  }

  function Existing(table: Table, employee: int, field: int, excluded: Option<int>): set<Override> {
    set o | o in ActiveOverrides(table, employee) && o.field == field && Some(o.id) != excluded
  }

  function Validate(table: Table, ones: set<int>, employee: int, field: int, value: string, excluded: Option<int>)
    : Option<OverrideError>
  {
    var existing := Existing(table, employee, field, excluded);
    if field in ones && existing != {} then Some(SecondValue)
    else if exists o | o in existing :: o.value == value then Some(DuplicateValue)
    else None
  }

  datatype OverrideOp =
    | CreateOverride(employee: int, field: int, value: string, at: int)
    | UpdateOverride(employee: int, id: int, newField: Option<int>, newValue: Option<string>, at: int)
    | DeleteOverride(employee: int, id: int, at: int)

  predicate InForce(table: Table, employee: int, id: int) {
    id in table && table[id].employee == employee && table[id].retiredAt.None?
  }

  /** The state after a successful operation; a target equal to the current override changes nothing. */
  function Changed(s: OverrideState, ones: set<int>, op: OverrideOp): Result<OverrideState, OverrideError> {
    match op
    case CreateOverride(employee, field, value, at) =>
      (match Validate(s.table, ones, employee, field, value, None)
       case Some(e) => Err(e)
       case None => Ok(OverrideState(s.table[s.nextId := OverrideRow(employee, field, value, None)], s.nextId + 1)))
    case UpdateOverride(employee, id, newField, newValue, at) =>
      if !InForce(s.table, employee, id) then Err(NotFound)
      else
        var row := s.table[id];
        var field := if newField.Some? then newField.value else row.field;
        var value := if newValue.Some? then newValue.value else row.value;
        if field == row.field && value == row.value then Ok(s)
        else
          (match Validate(s.table, ones, employee, field, value, Some(id))
           case Some(e) => Err(e)
           case None =>
             Ok(OverrideState(s.table[id := row.(retiredAt := Some(at))][s.nextId := OverrideRow(employee, field, value, None)],
                              s.nextId + 1)))
    case DeleteOverride(employee, id, at) =>
      if !InForce(s.table, employee, id) then Err(NotFound)
      else Ok(s.(table := s.table[id := s.table[id].(retiredAt := Some(at))]))
  }

  ghost predicate Kept(s: OverrideState, ones: set<int>) {
    (forall id | id in s.table :: id < s.nextId)
    && forall employee :: OverridesKept(ActiveOverrides(s.table, employee), ones)
  }

  lemma InsertedActive(table: Table, id: int, row: OverrideRow, employee: int)
    requires id !in table && row.retiredAt.None?
    ensures ActiveOverrides(table[id := row], employee) ==
            ActiveOverrides(table, employee) + (if row.employee == employee then {Override(id, row.field, row.value)} else {})
  {
    var after := table[id := row];
    forall o
      ensures o in ActiveOverrides(after, employee) <==>
              o in ActiveOverrides(table, employee) || (row.employee == employee && o == Override(id, row.field, row.value))
    {
      if o in ActiveOverrides(after, employee) {
        assert o.id in after;
      }
      if o in ActiveOverrides(table, employee) {
        assert o.id in after;
      }
      assert id in after;
    }
  }

  lemma RetiredActive(table: Table, id: int, at: int, employee: int)
    requires id in table
    ensures ActiveOverrides(table[id := table[id].(retiredAt := Some(at))], employee) ==
            (set o | o in ActiveOverrides(table, employee) && o.id != id)
  {
    var after := table[id := table[id].(retiredAt := Some(at))];
    forall o
      ensures o in ActiveOverrides(after, employee) <==> o in ActiveOverrides(table, employee) && o.id != id
    {
      if o in ActiveOverrides(after, employee) {
        assert o.id in table;
      }
      if o in ActiveOverrides(table, employee) && o.id != id {
        assert o.id in after;
      }
    }
  }

  /** One accepted value added to validated overrides keeps them valid. */
  lemma AddedKept(active: set<Override>, ones: set<int>, o: Override)
    requires OverridesKept(active, ones)
    requires o.field in ones ==> forall other | other in active :: other.field != o.field
    requires forall other | other in active && other.field == o.field :: other.value != o.value
    ensures OverridesKept(active + {o}, ones)
  {
  }

  /** Every operation keeps one override per one-valued field and no repeated value. */
  lemma ChangeKeeps(s: OverrideState, ones: set<int>, op: OverrideOp)
    requires Kept(s, ones) && Changed(s, ones, op).Ok?
    ensures Kept(Changed(s, ones, op).value, ones)
  {
    var after := Changed(s, ones, op).value;
    forall employee
      ensures OverridesKept(ActiveOverrides(after.table, employee), ones)
    {
      var active := ActiveOverrides(s.table, employee);
      match op {
        case CreateOverride(e, field, value, at) =>
          InsertedActive(s.table, s.nextId, OverrideRow(e, field, value, None), employee);
          if e == employee {
            assert forall o | o in active && o.field == field :: o in Existing(s.table, e, field, None);
            AddedKept(active, ones, Override(s.nextId, field, value));
          }
        case UpdateOverride(e, id, newField, newValue, at) =>
          if after != s {
            var row := s.table[id];
            var field := if newField.Some? then newField.value else row.field;
            var value := if newValue.Some? then newValue.value else row.value;
            var retired := s.table[id := row.(retiredAt := Some(at))];
            RetiredActive(s.table, id, at, employee);
            InsertedActive(retired, s.nextId, OverrideRow(e, field, value, None), employee);
            if e == employee {
              assert forall o | o in active && o.field == field && o.id != id :: o in Existing(s.table, e, field, Some(id));
              AddedKept(ActiveOverrides(retired, employee), ones, Override(s.nextId, field, value));
            }
          }
        case DeleteOverride(e, id, at) => RetiredActive(s.table, id, at, employee);
      }
    }
  }

  // ----- what a change does, and when it is refused

  function Without(active: set<Override>, id: int): set<Override> {
    set o | o in active && o.id != id
  }

  /** The field and value that an update asks for. */
  function Target(row: OverrideRow, newField: Option<int>, newValue: Option<string>): (int, string) {
    (if newField.Some? then newField.value else row.field, if newValue.Some? then newValue.value else row.value)
  }

  /**
   * What a successful change does to the overrides in force of an employee: a creation
   * adds the new one, a deletion removes the named one, and an update replaces it by its
   * patched form under a new identity. Other employees keep theirs.
   */
  lemma ChangeEffect(s: OverrideState, ones: set<int>, op: OverrideOp, employee: int)
    requires Changed(s, ones, op).Ok? && forall o | o in s.table :: o < s.nextId
    ensures var before, after := ActiveOverrides(s.table, employee), ActiveOverrides(Changed(s, ones, op).value.table, employee);
            match op
            case CreateOverride(e, field, value, _) =>
              after == before + (if e == employee then {Override(s.nextId, field, value)} else {})
            case UpdateOverride(e, id, newField, newValue, _) =>
              id in s.table
              && var target := Target(s.table[id], newField, newValue);
                 after == if e != employee || target == (s.table[id].field, s.table[id].value) then before
                          else Without(before, id) + {Override(s.nextId, target.0, target.1)}
            case DeleteOverride(e, id, _) => after == if e == employee then Without(before, id) else before
  {
    match op {
      case CreateOverride(e, field, value, at) =>
        InsertedActive(s.table, s.nextId, OverrideRow(e, field, value, None), employee);
      case UpdateOverride(e, id, newField, newValue, at) =>
        var row := s.table[id];
        var target := Target(row, newField, newValue);
        if target != (row.field, row.value) {
          var retired := s.table[id := row.(retiredAt := Some(at))];
          RetiredActive(s.table, id, at, employee);
          InsertedActive(retired, s.nextId, OverrideRow(e, target.0, target.1, None), employee);
          OthersUnaffected(s.table, id, employee);
        }
      case DeleteOverride(e, id, at) =>
        RetiredActive(s.table, id, at, employee);
        OthersUnaffected(s.table, id, employee);
    }
  }

  lemma OthersUnaffected(table: Table, id: int, employee: int)
    requires id in table
    ensures table[id].employee != employee ==> Without(ActiveOverrides(table, employee), id) == ActiveOverrides(table, employee)
  {
  }

  /** An update or deletion needs an override in force of that employee; rows are retired at that instant, never changed. */
  lemma ChangedRows(s: OverrideState, ones: set<int>, op: OverrideOp)
    requires Changed(s, ones, op).Ok? && forall o | o in s.table :: o < s.nextId
    ensures !op.CreateOverride? ==> Override(op.id, s.table[op.id].field, s.table[op.id].value) in ActiveOverrides(s.table, op.employee)
    ensures forall o | o in s.table ::
              var after := Changed(s, ones, op).value.table;
              o in after && (after[o] == s.table[o] || after[o] == s.table[o].(retiredAt := Some(op.at)))
  {
  }

  ghost predicate SomeFor(active: set<Override>, field: int) {
    exists o | o in active :: o.field == field
  }

  ghost predicate SameValueFor(active: set<Override>, field: int, value: string) {
    exists o | o in active :: o.field == field && o.value == value
  }

  /** The first reason to refuse a value, given the other overrides in force. */
  ghost function Refusal(active: set<Override>, ones: set<int>, field: int, value: string): Option<OverrideError> {
    if field in ones && SomeFor(active, field) then Some(SecondValue)
    else if SameValueFor(active, field, value) then Some(DuplicateValue)
    else None
  }

  lemma ValidateIsRefusal(table: Table, ones: set<int>, employee: int, field: int, value: string, excluded: Option<int>)
    ensures var active := ActiveOverrides(table, employee);
            Validate(table, ones, employee, field, value, excluded)
            == Refusal(if excluded.Some? then Without(active, excluded.value) else active, ones, field, value)
  {
    var active := ActiveOverrides(table, employee);
    var others := if excluded.Some? then Without(active, excluded.value) else active;
    assert Existing(table, employee, field, excluded) == set o | o in others && o.field == field;
    if o :| o in others && o.field == field {
      assert o in Existing(table, employee, field, excluded);
    }
  }

  /**
   * A change is refused exactly when the override is not in force, when a one-valued
   * field has another one, or when the value is there already.
   */
  lemma ChangeFailsExactly(s: OverrideState, ones: set<int>, op: OverrideOp)
    ensures var active := ActiveOverrides(s.table, op.employee);
            match Changed(s, ones, op)
            case Err(NotFound) => !op.CreateOverride? && !InForce(s.table, op.employee, op.id)
            case Err(error) =>
              if op.CreateOverride? then Some(error) == Refusal(active, ones, op.field, op.value)
              else
                op.UpdateOverride? && InForce(s.table, op.employee, op.id)
                && var target := Target(s.table[op.id], op.newField, op.newValue);
                   target != (s.table[op.id].field, s.table[op.id].value)
                   && Some(error) == Refusal(Without(active, op.id), ones, target.0, target.1)
            case Ok(_) =>
              if op.CreateOverride? then Refusal(active, ones, op.field, op.value).None?
              else
                InForce(s.table, op.employee, op.id)
                && (op.UpdateOverride? ==>
                      var target := Target(s.table[op.id], op.newField, op.newValue);
                      target == (s.table[op.id].field, s.table[op.id].value)
                      || Refusal(Without(active, op.id), ones, target.0, target.1).None?)
  {
    if op.CreateOverride? {
      ValidateIsRefusal(s.table, ones, op.employee, op.field, op.value, None);
    } else if op.UpdateOverride? && InForce(s.table, op.employee, op.id) {
      var target := Target(s.table[op.id], op.newField, op.newValue);
      ValidateIsRefusal(s.table, ones, op.employee, target.0, target.1, Some(op.id));
    }
  }

  // ----- runs

  function Run(ones: set<int>, ops: seq<OverrideOp>): OverrideState {
    if ops == [] then OverrideState(map[], 1)
    else
      var before := Run(ones, ops[..|ops| - 1]);
      match Changed(before, ones, ops[|ops| - 1])
      case Ok(after) => after
      case Err(_) => before
  }

  lemma {:induction false} AlwaysKept(ones: set<int>, ops: seq<OverrideOp>)
    ensures Kept(Run(ones, ops), ones)
  {
    if ops != [] {
      AlwaysKept(ones, ops[..|ops| - 1]);
      var before := Run(ones, ops[..|ops| - 1]);
      if Changed(before, ones, ops[|ops| - 1]).Ok? {
        ChangeKeeps(before, ones, ops[|ops| - 1]);
      }
    }
  }

  /**
   * Cardinality over runs: after every run of override operations and for every
   * resolution without a conflict, a one-valued field has at most one final value and
   * no (field, value) pair is repeated.
   */
  lemma CardinalityOverRuns(ones: set<int>, ops: seq<OverrideOp>, employee: int, all: set<Candidate>)
    requires Coherent(all) && !Conflicted(all, ones)
    ensures var finals := Applied(Selection(all, ones), ActiveOverrides(Run(ones, ops).table, employee));
            && KeysUnique(finals)
            && forall a, b | a in finals && b in finals && a.field == b.field && a.field in ones :: a == b
  {
    AlwaysKept(ones, ops);
    FinalCardinality(all, ones, ActiveOverrides(Run(ones, ops).table, employee));
  }

  class OverrideTable {
    var table: Table
    var nextId: int

    constructor ()
      ensures table == map[] && nextId == 1
    {
      table, nextId := map[], 1;
    }

    ghost function State(): OverrideState
      reads this
    {
      OverrideState(table, nextId)
    }

    method Create(ones: set<int>, employee: int, field: int, value: string, at: int) returns (r: Result<int, OverrideError>)
      modifies this
      ensures match Changed(old(State()), ones, CreateOverride(employee, field, value, at))
              case Ok(after) => State() == after && r == Ok(old(nextId))
              case Err(e) => State() == old(State()) && r == Err(e)
    {
      var invalid := Validate(table, ones, employee, field, value, None);
      if invalid.Some? {
        return Err(invalid.value);
      }
      table := table[nextId := OverrideRow(employee, field, value, None)];
      nextId := nextId + 1;
      return Ok(nextId - 1);
    }

    /** Retires the override and inserts its replacement; the identity returned is the one now in force. */
    method Update(ones: set<int>, employee: int, id: int, field: Option<int>, value: Option<string>, at: int)
      returns (r: Result<int, OverrideError>)
      modifies this
      ensures match Changed(old(State()), ones, UpdateOverride(employee, id, field, value, at))
              case Ok(after) => State() == after && r == Ok(if after == old(State()) then id else old(nextId))
              case Err(e) => State() == old(State()) && r == Err(e)
    {
      if !InForce(table, employee, id) {
        return Err(NotFound);
      }
      var row := table[id];
      var targetField := if field.Some? then field.value else row.field;
      var targetValue := if value.Some? then value.value else row.value;
      if targetField == row.field && targetValue == row.value {
        return Ok(id);
      }
      var invalid := Validate(table, ones, employee, targetField, targetValue, Some(id));
      if invalid.Some? {
        return Err(invalid.value);
      }
      table := table[id := row.(retiredAt := Some(at))];
      table := table[nextId := OverrideRow(employee, targetField, targetValue, None)];
      nextId := nextId + 1;
      return Ok(nextId - 1);
    }

    method Delete(ones: set<int>, employee: int, id: int, at: int) returns (r: Result<(), OverrideError>)
      modifies this
      ensures match Changed(old(State()), ones, DeleteOverride(employee, id, at))
              case Ok(after) => State() == after && r == Ok(())
              case Err(e) => State() == old(State()) && r == Err(e)
      ensures r.Ok? ==> ActiveOverrides(table, employee) == Without(old(ActiveOverrides(table, employee)), id)
      ensures forall e | e != employee :: ActiveOverrides(table, e) == old(ActiveOverrides(table, e))
    {
      if !InForce(table, employee, id) {
        return Err(NotFound);
      }
      forall e {
        RetiredActive(table, id, at, e);
      }
      table := table[id := table[id].(retiredAt := Some(at))];
      return Ok(());
    }
  }
}
