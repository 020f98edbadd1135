/** What the impact of a policy version counts, stated on the stored rows. */
module ImpactMeaning {
  import opened Conditions
  import opened Reconciliation
  import opened ConditionTree
  import opened Resolution
  import opened ImpactSummary
  import opened Engine
  import opened Freshness
  import opened Decisions

  /** The employee takes the value from the version at the row. */
  ghost predicate TakesValue(w: World, e: int, day: int, row: int, field: int, value: string)
    requires e in w.people
  {
    !PrioritiesConflict(w, e, day) && Decided(w, e, day, field, value, FromVersion(row + 1))
  }

  /** The row decides the value among the policies, and an override in force replaces it. */
  ghost predicate Replaced(w: World, e: int, day: int, row: int, field: int, value: string)
    requires e in w.people
  {
    !PrioritiesConflict(w, e, day) && BestFor(w, e, day, row, field, value) && exists o :: OverrideInForce(w, e, o, field)
  }

  ghost predicate TakesSome(w: World, e: int, day: int, row: int)
    requires e in w.people
  {
    exists field, value :: TakesValue(w, e, day, row, field, value)
  }

  ghost predicate ReplacedSome(w: World, e: int, day: int, row: int)
    requires e in w.people
  {
    exists field, value :: Replaced(w, e, day, row, field, value)
  }

  /** What each counter counts, on the stored rows. */
  ghost predicate CountedAs(w: World, e: int, day: int, row: nat, kind: Kind)
    requires e in w.people && row < |w.versions|
  {
    var v := w.versions[row];
    var direct := Holds(v.payload.tree, (c: Condition) => Satisfies(w.people, e, c, day));
    match kind
    case Matched => Applies(w, e, day, row)
    case DirectOrigin => direct
    case GroupOrigin => Inherits(w, e, v.policy)
    case BothOrigins => direct && Inherits(w, e, v.policy)
    case Conflicting => Applies(w, e, day, row) && PrioritiesConflict(w, e, day)
    case WithSelected => TakesSome(w, e, day, row)
    case WithoutSelected => Applies(w, e, day, row) && !PrioritiesConflict(w, e, day) && !TakesSome(w, e, day, row)
    case WithSuppressed => ReplacedSome(w, e, day, row)
  }

  ghost predicate ReadsFrom(s: Subject, w: World, day: int, row: nat) {
    s.id in w.people && s.view == ViewOf(w, s.id, day) && row in s.view.effective
  }

  lemma TakenMeaning(w: World, s: Subject, day: int, row: nat, field: int, value: string)
    requires Inputs(w) && ReadsFrom(s, w, day, row)
    ensures var r := ReadingOf(s, row, w.versions[row]);
            && (Resolved(field, value, row + 1) in r.selected <==> TakesValue(w, s.id, day, row, field, value))
            && (Resolved(field, value, row + 1) in r.suppressed <==> Replaced(w, s.id, day, row, field, value))
  {
    ConflictMeaning(w, s.id, day);
    MatchedRowsApply(w, s.id, day, row);
    SelectionIsBest(w, s.id, day, field, value, row);
    OverriddenMeaning(w, s.id, field);
  }

  lemma SomeTaken(w: World, s: Subject, day: int, row: nat)
    requires Inputs(w) && ReadsFrom(s, w, day, row)
    ensures ReadingOf(s, row, w.versions[row]).selected != {} <==> TakesSome(w, s.id, day, row)
  {
    var selected := ReadingOf(s, row, w.versions[row]).selected;
    if selected != {} {
      var x :| x in selected;
      TakenMeaning(w, s, day, row, x.field, x.value);
    }
    if field, value :| TakesValue(w, s.id, day, row, field, value) {
      TakenMeaning(w, s, day, row, field, value);
    }
  }

  lemma SomeReplaced(w: World, s: Subject, day: int, row: nat)
    requires Inputs(w) && ReadsFrom(s, w, day, row)
    ensures ReadingOf(s, row, w.versions[row]).suppressed != {} <==> ReplacedSome(w, s.id, day, row)
  {
    var suppressed := ReadingOf(s, row, w.versions[row]).suppressed;
    if suppressed != {} {
      var x :| x in suppressed;
      TakenMeaning(w, s, day, row, x.field, x.value);
    }
    if field, value :| Replaced(w, s.id, day, row, field, value) {
      TakenMeaning(w, s, day, row, field, value);
    }
  }

  /** An employee is counted under a kind exactly when the stored rows say so. */
  lemma ReadingMeaning(w: World, s: Subject, day: int, row: nat, kind: Kind)
    requires Inputs(w) && ReadsFrom(s, w, day, row)
    ensures Has(ReadingOf(s, row, w.versions[row]), kind) <==> CountedAs(w, s.id, day, row, kind)
  {
    MatchedRowsApply(w, s.id, day, row);
    DirectMeaning(w, s.id, day, row);
    InheritanceMeaning(w, s.id, day, w.versions[row].policy);
    ConflictMeaning(w, s.id, day);
    SomeTaken(w, s, day, row);
    SomeReplaced(w, s, day, row);
  }

  function CounterOf(sum: Summary, kind: Kind): nat {
    match kind
    case Matched => sum.matched
    case DirectOrigin => sum.direct
    case GroupOrigin => sum.grouped
    case BothOrigins => sum.both
    case Conflicting => sum.conflicted
    case WithSelected => sum.selectedEmployees
    case WithoutSelected => sum.withoutSelected
    case WithSuppressed => sum.suppressedEmployees
  }

  /** Positions of the employees that the stored rows put under a kind. */
  ghost function Reached(w: World, subjects: seq<Subject>, day: int, row: nat, kind: Kind): set<nat>
    requires row < |w.versions|
  {
    set i: nat | i < |subjects| && subjects[i].id in w.people && CountedAs(w, subjects[i].id, day, row, kind)
  }

  /** Each counter of a complete summary is the number of employees of whom the stored rows say what it is named after. */
  lemma CountersMeaning(w: World, subjects: seq<Subject>, day: int, row: nat, sum: Summary, kind: Kind)
    requires Inputs(w) && row < |w.versions| && forall i | 0 <= i < |subjects| :: ReadsFrom(subjects[i], w, day, row)
    requires Complete(sum, ReadingsOf(subjects, row, w.versions[row]), w.versions[row])
    ensures CounterOf(sum, kind) == |Reached(w, subjects, day, row, kind)|
  {
    var readings := ReadingsOf(subjects, row, w.versions[row]);
    forall i: nat | i < |subjects|
      ensures Has(readings[i], kind) <==> CountedAs(w, subjects[i].id, day, row, kind)
    {
      ReadingMeaning(w, subjects[i], day, row, kind);
    }
    assert Reached(w, subjects, day, row, kind) == Those(readings, kind);
  }

  /** The row gives the employee a value of the field, taken or replaced by an override. */
  ghost predicate FieldFrom(w: World, e: int, day: int, row: int, field: int, overridden: bool)
    requires e in w.people
  {
    exists value ::
      if overridden then Replaced(w, e, day, row, field, value) else TakesValue(w, e, day, row, field, value)
  }

  function IdsFor(impact: FieldImpact, overridden: bool): set<int> {
    if overridden then impact.suppressedIds else impact.selectedIds
  }

  lemma FieldTaken(w: World, s: Subject, day: int, row: nat, field: int, overridden: bool)
    requires Inputs(w) && ReadsFrom(s, w, day, row)
    ensures OfField(ValuesTaken(ReadingOf(s, row, w.versions[row]), overridden), field) != {} <==>
            FieldFrom(w, s.id, day, row, field, overridden)
  {
    var values := OfField(ValuesTaken(ReadingOf(s, row, w.versions[row]), overridden), field);
    if values != {} {
      var x :| x in values;
      TakenMeaning(w, s, day, row, field, x.value);
    }
    if value :| if overridden then Replaced(w, s.id, day, row, field, value) else TakesValue(w, s.id, day, row, field, value) {
      TakenMeaning(w, s, day, row, field, value);
      assert Resolved(field, value, row + 1) in values;
    }
  }

  lemma ListedIds(readings: seq<Reading>, overridden: bool, field: int, id: int)
    ensures id in IdsOf(readings, TakenOf(readings, overridden, field)) <==>
            exists i :: 0 <= i < |readings| && readings[i].id == id && OfField(ValuesTaken(readings[i], overridden), field) != {}
  {
    var taken := TakenOf(readings, overridden, field);
    if x :| x in taken && x.0 < |readings| && readings[x.0].id == id {
      assert x.1 in OfField(ValuesTaken(readings[x.0], overridden), field);
    }
    if i :| 0 <= i < |readings| && readings[i].id == id && OfField(ValuesTaken(readings[i], overridden), field) != {} {
      var r :| r in OfField(ValuesTaken(readings[i], overridden), field);
      assert (i, r) in taken;
    }
  }

  /** The employees listed for a field are those whose value of the field the row decides. */
  lemma FieldIdsMeaning(w: World, subjects: seq<Subject>, day: int, row: nat, sum: Summary, field: int, overridden: bool, id: int)
    requires Inputs(w) && row < |w.versions| && forall i | 0 <= i < |subjects| :: ReadsFrom(subjects[i], w, day, row)
    requires CountsFields(sum.fields, ReadingsOf(subjects, row, w.versions[row]), w.versions[row]) && field in sum.fields
    ensures id in IdsFor(sum.fields[field], overridden) <==>
            id in w.people && FieldFrom(w, id, day, row, field, overridden) && exists s :: s in subjects && s.id == id
  {
    var readings := ReadingsOf(subjects, row, w.versions[row]);
    ListedIds(readings, overridden, field, id);
    forall i | 0 <= i < |subjects|
      ensures OfField(ValuesTaken(readings[i], overridden), field) != {} <==>
              FieldFrom(w, subjects[i].id, day, row, field, overridden)
    {
      FieldTaken(w, subjects[i], day, row, field, overridden);
    }
    assert forall i | 0 <= i < |subjects| :: readings[i].id == subjects[i].id;
  }
}
