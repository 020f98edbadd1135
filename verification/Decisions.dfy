/** What the resolver decides, stated on the stored rows: which version or override each value comes from. */
module Decisions {
  import opened Common
  import opened Conditions
  import opened ConditionTree
  import opened Reconciliation
  import opened Resolution
  import opened Overrides
  import opened Matching
  import opened Engine
  import opened Freshness

  // ----- the stored rows that count for one employee and one date

  /** The employee is in a group to which the policy is attached. */
  ghost predicate Inherits(w: World, e: int, policy: int) {
    exists g :: (g, e) in w.members && (g, policy) in w.attached
  }

  /** The version at row `i` is effective, its policy is active, and it reaches the employee. */
  ghost predicate Applies(w: World, e: int, day: int, i: int)
    requires e in w.people
  {
    && 0 <= i < |w.versions|
    && var v := w.versions[i];
       && v.policy in w.statuses && w.statuses[v.policy] == ActivePolicy
       && v.from <= day && (v.until.Some? ==> day <= v.until.value)
       && (Holds(v.payload.tree, (c: Condition) => Satisfies(w.people, e, c, day)) || Inherits(w, e, v.policy))
  }

  ghost predicate Gives(w: World, e: int, day: int, i: int, field: int, value: string)
    requires e in w.people
  {
    Applies(w, e, day, i) && (field, value) in w.versions[i].payload.values
  }

  predicate IsOneValued(w: World, field: int) {
    field in w.cardinality && w.cardinality[field]
  }

  /** Higher priority first, then the older row. */
  predicate Precedes(w: World, i: int, j: int)
    requires 0 <= i < |w.versions| && 0 <= j < |w.versions|
  {
    w.versions[i].priority > w.versions[j].priority || (w.versions[i].priority == w.versions[j].priority && i <= j)
  }

  /** Row `i` gives the value, and precedes every row that gives a value it competes with. */
  ghost predicate BestFor(w: World, e: int, day: int, i: int, field: int, value: string)
    requires e in w.people
  {
    && Gives(w, e, day, i, field, value)
    && forall j, other | Gives(w, e, day, j, field, other) && (IsOneValued(w, field) || other == value) :: Precedes(w, i, j)
  }

  ghost predicate OverrideInForce(w: World, e: int, o: int, field: int) {
    o in w.overrides.table && w.overrides.table[o].employee == e && w.overrides.table[o].field == field
    && w.overrides.table[o].retiredAt.None?
  }

  /** The value of a field and where it comes from: overrides replace every policy value of their field. */
  ghost predicate Decided(w: World, e: int, day: int, field: int, value: string, source: Source)
    requires e in w.people
  {
    if exists o :: OverrideInForce(w, e, o, field) then
      source.FromOverride? && OverrideInForce(w, e, source.overrideId, field) && w.overrides.table[source.overrideId].value == value
    else
      source.FromVersion? && BestFor(w, e, day, source.versionId - 1, field, value)
  }

  /** Row `i` gives the field a value, and no row that does has a higher priority. */
  ghost predicate TopFor(w: World, e: int, day: int, i: int, field: int, value: string)
    requires e in w.people
  {
    && Gives(w, e, day, i, field, value)
    && forall j, other | Gives(w, e, day, j, field, other) :: w.versions[j].priority <= w.versions[i].priority
  }

  /** Two values share the highest priority of a one-valued field. */
  ghost predicate PrioritiesConflict(w: World, e: int, day: int)
    requires e in w.people
  {
    exists field, i, j, a, b ::
      IsOneValued(w, field) && a != b && TopFor(w, e, day, i, field, a) && TopFor(w, e, day, j, field, b)
  }

  // ----- the candidates are the values given

  lemma {:induction false} HoldsAlike(g: Group<Condition>, p: Condition -> bool, q: Condition -> bool)
    requires forall c :: p(c) <==> q(c)
    ensures Holds(g, p) <==> Holds(g, q)
  {
    forall child | child in g.children
      ensures Holds(child, p) <==> Holds(child, q)
    {
      HoldsAlike(child, p, q);
    }
  }

  lemma DirectMeaning(w: World, e: int, day: int, i: nat)
    requires Inputs(w) && e in w.people && i < |w.versions|
    ensures Direct(ViewOf(w, e, day), w.versions[i])
            <==> Holds(w.versions[i].payload.tree, (c: Condition) => Satisfies(w.people, e, c, day))
  {
    var view := ViewOf(w, e, day);
    var p, q := (c: Condition) => TruthIn(view, c) == Some(true), (c: Condition) => Satisfies(w.people, e, c, day);
    DirectMatchIsTreeTruth(view, w.versions[i]);
    forall c
      ensures p(c) <==> q(c)
    {
      TruthIsSatisfaction(w.people, e, c, day);
    }
    HoldsAlike(w.versions[i].payload.tree, p, q);
  }

  /** The groups of a match are those that hold the employee and the policy. */
  lemma GroupMeaning(w: World, e: int, day: int, policy: int, g: int)
    requires e in w.people
    ensures g in GroupsOf(ViewOf(w, e, day), policy) <==> (g, e) in w.members && (g, policy) in w.attached
  {
    if (g, e) in w.members && (g, policy) in w.attached {
      assert (g, policy) in ViewOf(w, e, day).inherited;
    }
  }

  lemma InheritanceMeaning(w: World, e: int, day: int, policy: int)
    requires e in w.people
    ensures GroupsOf(ViewOf(w, e, day), policy) != {} <==> Inherits(w, e, policy)
  {
    var groups := GroupsOf(ViewOf(w, e, day), policy);
    if groups != {} {
      var g := SomeMember(groups);
      GroupMeaning(w, e, day, policy, g);
    }
    if g :| (g, e) in w.members && (g, policy) in w.attached {
      GroupMeaning(w, e, day, policy, g);
    }
  }

  /** The matcher finds exactly the rows that apply. */
  lemma MatchedRowsApply(w: World, e: int, day: int, i: int)
    requires Inputs(w) && e in w.people
    ensures Applies(w, e, day, i) <==> i >= 0 && i in MatchedRows(ViewOf(w, e, day))
  {
    if 0 <= i < |w.versions| {
      DirectMeaning(w, e, day, i);
      InheritanceMeaning(w, e, day, w.versions[i].policy);
    }
  }

  lemma CandidateMeaning(w: World, e: int, day: int, c: Candidate)
    requires Inputs(w) && e in w.people
    ensures c in Candidates(ViewOf(w, e, day)) <==>
            Gives(w, e, day, c.version - 1, c.field, c.value) && c.priority == w.versions[c.version - 1].priority
  {
    MatchedRowsApply(w, e, day, c.version - 1);
  }

  lemma OnesMeaning(w: World, e: int, day: int, c: Candidate)
    requires e in w.people && c in Candidates(ViewOf(w, e, day))
    ensures c.field in ViewOf(w, e, day).ones <==> IsOneValued(w, c.field)
  {
    var view := ViewOf(w, e, day);
    var i, v :| i in MatchedRows(view) && v in view.effective[i].payload.values
                && c == Candidate(v.0, v.1, view.effective[i].priority, i + 1);
    assert i in view.effective && v.0 == c.field;
  }

  function CandidateOf(w: World, i: int, field: int, value: string): Candidate
    requires 0 <= i < |w.versions|
  {
    Candidate(field, value, w.versions[i].priority, i + 1)
  }

  // ----- what is selected

  lemma WinnerIsBest(w: World, e: int, day: int, i: int, field: int, value: string)
    requires Inputs(w) && e in w.people && Gives(w, e, day, i, field, value)
    ensures var view := ViewOf(w, e, day);
            Wins(Candidates(view), view.ones, CandidateOf(w, i, field, value)) <==> BestFor(w, e, day, i, field, value)
  {
    var view := ViewOf(w, e, day);
    var all, c := Candidates(view), CandidateOf(w, i, field, value);
    CandidateMeaning(w, e, day, c);
    OnesMeaning(w, e, day, c);
    if Wins(all, view.ones, c) {
      forall j, other | Gives(w, e, day, j, field, other) && (IsOneValued(w, field) || other == value)
        ensures Precedes(w, i, j)
      {
        CandidateMeaning(w, e, day, CandidateOf(w, j, field, other));
        assert Rivals(view.ones, c, CandidateOf(w, j, field, other));
      }
    }
    if BestFor(w, e, day, i, field, value) {
      forall d | d in all && Rivals(view.ones, c, d)
        ensures Outranks(c, d)
      {
        CandidateMeaning(w, e, day, d);
        assert Gives(w, e, day, d.version - 1, field, d.value);
      }
    }
  }

  lemma SelectedIsBest(w: World, e: int, day: int, c: Candidate)
    requires Inputs(w) && e in w.people && c in Candidates(ViewOf(w, e, day))
    requires Wins(Candidates(ViewOf(w, e, day)), ViewOf(w, e, day).ones, c)
    ensures BestFor(w, e, day, c.version - 1, c.field, c.value)
  {
    CandidateMeaning(w, e, day, c);
    WinnerIsBest(w, e, day, c.version - 1, c.field, c.value);
  }

  lemma SelectionIsBest(w: World, e: int, day: int, field: int, value: string, i: int)
    requires Inputs(w) && e in w.people
    ensures var view := ViewOf(w, e, day);
            Resolved(field, value, i + 1) in Selection(Candidates(view), view.ones) <==> BestFor(w, e, day, i, field, value)
  {
    var view := ViewOf(w, e, day);
    var all, ones := Candidates(view), view.ones;
    if Resolved(field, value, i + 1) in Selection(all, ones) {
      var c :| c in all && Wins(all, ones, c) && Resolved(c.field, c.value, c.version) == Resolved(field, value, i + 1);
      SelectedIsBest(w, e, day, c);
    }
    if BestFor(w, e, day, i, field, value) {
      BestIsSelected(w, e, day, i, field, value);
    }
  }

  lemma BestIsSelected(w: World, e: int, day: int, i: int, field: int, value: string)
    requires Inputs(w) && e in w.people && BestFor(w, e, day, i, field, value)
    ensures Resolved(field, value, i + 1) in Selection(Candidates(ViewOf(w, e, day)), ViewOf(w, e, day).ones)
  {
    var c := CandidateOf(w, i, field, value);
    CandidateMeaning(w, e, day, c);
    WinnerIsBest(w, e, day, i, field, value);
    assert c in Candidates(ViewOf(w, e, day));
  }

  lemma OverrideMeaning(w: World, e: int, o: Override)
    ensures o in ActiveOverrides(w.overrides.table, e) <==>
            OverrideInForce(w, e, o.id, o.field) && w.overrides.table[o.id].value == o.value
  {
  }

  lemma OverriddenMeaning(w: World, e: int, field: int)
    ensures Overridden(ActiveOverrides(w.overrides.table, e), field) <==> exists o :: OverrideInForce(w, e, o, field)
  {
    var active := ActiveOverrides(w.overrides.table, e);
    if o :| OverrideInForce(w, e, o, field) {
      var x := Override(o, field, w.overrides.table[o].value);
      OverrideMeaning(w, e, x);
      assert x in active;
    }
    if o :| o in active && o.field == field {
      OverrideMeaning(w, e, o);
    }
  }

  /** The final values of a view are exactly what the stored rows decide. */
  lemma FinalsAreDecided(w: World, e: int, day: int, f: Final)
    requires Inputs(w) && e in w.people
    ensures f in Finals(ViewOf(w, e, day)) <==> Decided(w, e, day, f.field, f.value, f.source)
  {
    OverriddenMeaning(w, e, f.field);
    match f.source {
      case FromVersion(id) => SelectionIsBest(w, e, day, f.field, f.value, id - 1);
        assert Resolved(f.field, f.value, id) == Resolved(f.field, f.value, id - 1 + 1);
      case FromOverride(id) => OverrideMeaning(w, e, Override(id, f.field, f.value));
    }
  }

  /** The resolver raises for a conflict exactly when two stored values share the highest priority. */
  lemma ConflictMeaning(w: World, e: int, day: int)
    requires Inputs(w) && e in w.people
    ensures var view := ViewOf(w, e, day); Conflicted(Candidates(view), view.ones) <==> PrioritiesConflict(w, e, day)
  {
    var view := ViewOf(w, e, day);
    var all := Candidates(view);
    if Conflicted(all, view.ones) {
      var a, b :| TopOfField(all, a) && TopOfField(all, b) && a.field == b.field && a.field in view.ones && a.value != b.value;
      TopMeaning(w, e, day, a);
      TopMeaning(w, e, day, b);
      OnesMeaning(w, e, day, a);
    }
    if PrioritiesConflict(w, e, day) {
      ConflictIsFound(w, e, day);
    }
  }

  lemma ConflictIsFound(w: World, e: int, day: int)
    requires Inputs(w) && e in w.people && PrioritiesConflict(w, e, day)
    ensures Conflicted(Candidates(ViewOf(w, e, day)), ViewOf(w, e, day).ones)
  {
    var field, i, j, x, y :| IsOneValued(w, field) && x != y && TopFor(w, e, day, i, field, x) && TopFor(w, e, day, j, field, y);
    GivenIsTop(w, e, day, i, field, x);
    GivenIsTop(w, e, day, j, field, y);
    OnesMeaning(w, e, day, CandidateOf(w, i, field, x));
  }

  lemma GivenIsTop(w: World, e: int, day: int, i: int, field: int, value: string)
    requires Inputs(w) && e in w.people && TopFor(w, e, day, i, field, value)
    ensures TopOfField(Candidates(ViewOf(w, e, day)), CandidateOf(w, i, field, value))
  {
    CandidateMeaning(w, e, day, CandidateOf(w, i, field, value));
    TopMeaning(w, e, day, CandidateOf(w, i, field, value));
  }

  lemma TopMeaning(w: World, e: int, day: int, c: Candidate)
    requires Inputs(w) && e in w.people && c in Candidates(ViewOf(w, e, day))
    ensures TopOfField(Candidates(ViewOf(w, e, day)), c) <==> TopFor(w, e, day, c.version - 1, c.field, c.value)
  {
    var all := Candidates(ViewOf(w, e, day));
    CandidateMeaning(w, e, day, c);
    if TopOfField(all, c) {
      forall j, other | Gives(w, e, day, j, c.field, other)
        ensures w.versions[j].priority <= c.priority
      {
        CandidateMeaning(w, e, day, CandidateOf(w, j, c.field, other));
      }
    }
    if TopFor(w, e, day, c.version - 1, c.field, c.value) {
      forall d | d in all && d.field == c.field
        ensures d.priority <= c.priority
      {
        CandidateMeaning(w, e, day, d);
      }
    }
  }

  /** The policy links are the policies of the rows that apply. */
  lemma LinksMeaning(w: World, e: int, day: int, policy: int)
    requires Inputs(w) && e in w.people
    ensures policy in MatchedPolicies(ViewOf(w, e, day)) <==>
            exists i :: Applies(w, e, day, i) && w.versions[i].policy == policy
  {
    var view := ViewOf(w, e, day);
    if i :| Applies(w, e, day, i) && w.versions[i].policy == policy {
      MatchedRowsApply(w, e, day, i);
      assert i in MatchedRows(view);
    }
    if policy in MatchedPolicies(view) {
      var i :| i in MatchedRows(view) && view.effective[i].policy == policy;
      MatchedRowsApply(w, e, day, i);
    }
  }
}
