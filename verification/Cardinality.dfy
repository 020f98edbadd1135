/** Cardinality over every run of the system: what override validation and resolution give together. */
module Cardinality {
  import opened Calendar
  import opened Reconciliation
  import opened Resolution
  import opened Overrides
  import opened Matching
  import opened Schedule
  import opened Engine
  import opened Batches
  import opened Freshness
  import opened Chronicle
  import opened Theorems

  /** Overrides are validated against the fields, and fields exist before they are overridden. */
  ghost predicate Validated(w: World) {
    && Kept(w.overrides, OneValued(w))
    && (forall o | o in w.overrides.table :: w.overrides.table[o].field in w.cardinality)
    && (forall f | f in w.cardinality :: f < w.nextField)
  }

  lemma FewerOverrides(table: Table, id: int, employee: int)
    ensures ActiveOverrides(WithoutEmployee(table, id), employee) <= ActiveOverrides(table, employee)
  {
    forall o | o in ActiveOverrides(WithoutEmployee(table, id), employee)
      ensures o in ActiveOverrides(table, employee)
    {
      assert o.id in table;
    }
  }

  lemma DeletionKeepsValidated(w: World, id: int, at: int)
    requires Validated(w) && id in w.people && AfterDelete(w, id, at).Some?
    ensures Validated(AfterDelete(w, id, at).value)
  {
    var after := AfterDelete(w, id, at).value;
    assert OneValued(after) == OneValued(w);
    forall employee
      ensures OverridesKept(ActiveOverrides(after.overrides.table, employee), OneValued(after))
    {
      FewerOverrides(w.overrides.table, id, employee);
    }
  }

  lemma NewFieldKeepsValidated(w: World, one: bool)
    requires Validated(w)
    ensures Validated(WithField(w, one))
  {
    var after := WithField(w, one);
    forall employee
      ensures OverridesKept(ActiveOverrides(after.overrides.table, employee), OneValued(after))
    {
      forall o | o in ActiveOverrides(w.overrides.table, employee)
        ensures o.field in OneValued(after) <==> o.field in OneValued(w)
      {
        assert o.id in w.overrides.table;
      }
    }
  }

  lemma OverrideKeepsValidated(w: World, change: OverrideOp, at: int)
    requires Validated(w) && AfterOverride(w, change, at).Some?
    ensures Validated(AfterOverride(w, change, at).value)
  {
    var after := AfterOverride(w, change, at).value;
    ChangeKeeps(w.overrides, OneValued(w), change);
    assert after.overrides == Changed(w.overrides, OneValued(w), change).value;
    assert OneValued(after) == OneValued(w);
  }

  lemma SameFieldsValidated(w: World, w2: World)
    requires Validated(w) && SameFields(w, w2)
    ensures Validated(w2)
  {
    assert OneValued(w2) == OneValued(w);
  }

  lemma StepKeepsValidated(w: World, op: Op)
    requires Validated(w)
    ensures Validated(Step(w, op))
  {
    if Apply(w, op).Some? {
      if op.CreateField? {
        NewFieldKeepsValidated(w, op.one);
      } else if op.ChangeOverride? {
        OverrideKeepsValidated(w, op.change.(at := op.at), op.at);
      } else if op.DeleteEmployee? {
        DeletionKeepsValidated(w, op.id, op.at);
      } else {
        if op.WorkBatch? {
          PlanOnlyTables(w, PlanOf(w, Due(w.events, op.at, op.limit)), op.at);
        } else {
          OperationMoves(w, op);
        }
        SameFieldsValidated(w, Apply(w, op).value);
      }
    }
  }

  lemma {:induction false} AlwaysValidated(ops: seq<Op>)
    ensures Validated(Engine.Run(ops))
  {
    if ops != [] {
      AlwaysValidated(ops[..|ops| - 1]);
      StepKeepsValidated(Engine.Run(ops[..|ops| - 1]), ops[|ops| - 1]);
    }
  }

  // ----- open rows

  ghost predicate OneValuePerField(keys: set<Key>, ones: set<int>) {
    forall a, b | a in keys && b in keys && a.field == b.field && (a.value == b.value || a.field in ones) ::
      a == b
  }

  /** Fields without candidates do not matter. */
  lemma OnlyAssignedOnes(all: set<Candidate>, few: set<int>, many: set<int>)
    requires forall c | c in all :: c.field in few <==> c.field in many
    ensures Selection(all, few) == Selection(all, many) && Conflicted(all, few) == Conflicted(all, many)
  {
    assert forall c, d | c in all && d in all :: Rivals(few, c, d) == Rivals(many, c, d);
    assert forall c | c in all :: Wins(all, few, c) == Wins(all, many, c);
    assert forall c | TopOfField(all, c) :: c in all;
  }

  lemma FinalsHaveOneValue(w: World, e: int, day: int)
    requires Validated(w) && e in w.people && Resolve(w, e, day).Assigned?
    ensures OneValuePerField(KeysOf(Resolve(w, e, day)), OneValued(w))
  {
    var view := ViewOf(w, e, day);
    var all := Candidates(view);
    OnlyAssignedOnes(all, view.ones, OneValued(w));
    FinalCardinality(all, OneValued(w), view.overrides);
    DesiredKeys(view);
    forall k | k in KeysOf(Resolve(w, e, day))
      ensures FinalOf(k) in Finals(view)
      ensures k == Key(k.field, k.value, k.source, Stable(Explain(view, FinalOf(k))))
    {
    }
  }

  /**
   * After every run, whatever is due, the open rows of an employee hold at most one
   * value of a one-valued field, and each (field, value) pair from one source.
   */
  lemma OpenRowsHaveOneValue(ops: seq<Op>, e: int)
    requires RunTimed(ops) && e in Engine.Run(ops).people
    ensures var w := Engine.Run(ops); OneValuePerField(OpenKeys(HistoryOf(w, e).rows), OneValued(w))
  {
    var w := Engine.Run(ops);
    RunKeeps(ops);
    AlwaysValidated(ops);
    var day :| day <= DayOf(ClockAfter(ops)) && FreshSince(w, e, day);
    FinalsHaveOneValue(w, e, day);
  }
}
