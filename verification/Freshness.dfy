/**
 * Freshness over whole runs: whenever no pending event is due, the open rows and the
 * policy links of every employee are what the resolver computes for today.
 */
module Freshness {
  import opened Common
  import opened Calendar
  import opened OrgChart
  import opened Conditions
  import opened ConditionTree
  import opened Reconciliation
  import opened Versions
  import opened Matching
  import opened Schedule
  import opened Engine

  // ----- the midnights at which time alone can change an outcome

  ghost predicate RowBoundary(versions: seq<Version<Rules>>, i: nat, key: EventKey) {
    i < |versions|
    && (key == StartKey(WindowOf(versions, i))
        || (versions[i].until.Some? && versions[i].until.value < MAX_ORDINAL && key == EndKey(WindowOf(versions, i))))
  }

  ghost predicate VersionBoundary(w: World, key: EventKey) {
    exists i: nat :: RowBoundary(w.versions, i, key) && IsActive(w.statuses, w.versions[i].policy)
  }

  ghost predicate ThresholdOf(rules: seq<TenureRule>, start: ValidDate, e: int, key: EventKey) {
    exists rule, day :: rule in rules && RuleFlips(rule, start, day) && key == ThresholdKey(e, day)
  }

  ghost predicate TenureBoundary(w: World, e: int, key: EventKey)
    requires e in w.people
  {
    ThresholdOf(AllRules(w), w.people[e].startDate, e, key)
  }

  /** A version start, the day after a version end, or a tenure threshold inside a version window. */
  ghost predicate Boundary(w: World, e: int, key: EventKey)
    requires e in w.people
  {
    VersionBoundary(w, key) || TenureBoundary(w, e, key)
  }

  ghost predicate TypedVersions(versions: seq<Version<Rules>>) {
    forall i, c | 0 <= i < |versions| && Occurs(c, versions[i].payload.clauses) ::
      Typed(c)
  }

  // ----- between two boundaries nothing changes

  lemma {:induction false} TenureKept(start: ValidDate, op: Operator, years: int, day: int, later: int)
    requires years >= 0 && day <= later
    requires forall d | day < d <= later :: !(TransitionDays(start, op, years).Some? && d in TransitionDays(start, op, years).value)
    ensures TenureHolds(start, op, years, day) == TenureHolds(start, op, years, later)
    decreases later - day
  {
    if day < later {
      TenureKept(start, op, years, day, later - 1);
      TenureDefined(start, op, years, later);
      TenureDefined(start, op, years, later - 1);
      if start.year + years + 1 <= MAX_YEAR {
        FlipDaysExact(start, op, years, later);
      }
    }
  }

  /** The tenure condition is in the clause. */
  ghost predicate StatesTenure(c: Condition, clause: Clause<Condition>) {
    c in clause && c.field == TenureField && c.operand.YearsOperand?
  }

  /** The tenure condition is stored in a version of an active policy. */
  ghost predicate StoresTenure(versions: seq<Version<Rules>>, statuses: map<int, PolicyStatus>, i: int, c: Condition) {
    && 0 <= i < |versions| && IsActive(statuses, versions[i].policy)
    && exists clause :: clause in versions[i].payload.clauses && StatesTenure(c, clause)
  }

  function RuleOf(c: Condition, window: Window): TenureRule
    requires c.operand.YearsOperand?
  {
    TenureRule(c.op, c.operand.years, window)
  }

  lemma {:induction false} ClauseRulesMembers(clause: Clause<Condition>, window: Window, rule: TenureRule)
    ensures rule in ClauseRules(clause, window) <==> exists c :: StatesTenure(c, clause) && rule == RuleOf(c, window)
  {
    if clause != [] {
      var init, last := clause[..|clause| - 1], clause[|clause| - 1];
      assert clause == init + [last];
      ClauseRulesMembers(init, window, rule);
      if last.field == TenureField && last.operand.YearsOperand? && rule == RuleOf(last, window) {
        assert StatesTenure(last, clause);
      }
      if c :| StatesTenure(c, init) && rule == RuleOf(c, window) {
        assert StatesTenure(c, clause);
      }
    }
  }

  lemma {:induction false} ClausesRulesMembers(clauses: seq<Clause<Condition>>, window: Window, rule: TenureRule)
    ensures rule in ClausesRules(clauses, window) <==>
            exists clause, c :: clause in clauses && StatesTenure(c, clause) && rule == RuleOf(c, window)
  {
    if clauses != [] {
      var init, last := clauses[..|clauses| - 1], clauses[|clauses| - 1];
      assert clauses == init + [last];
      ClausesRulesMembers(init, window, rule);
      ClauseRulesMembers(last, window, rule);
    }
  }

  /** The tenure rules are exactly the stored tenure conditions, each with the date range of its version. */
  lemma {:induction false} RulesMembers(versions: seq<Version<Rules>>, statuses: map<int, PolicyStatus>, n: nat, rule: TenureRule)
    requires n <= |versions|
    ensures rule in TenureRules(versions, statuses, n) <==>
            exists i: nat, c :: i < n && StoresTenure(versions, statuses, i, c) && rule == RuleOf(c, WindowOf(versions, i))
  {
    if n > 0 {
      var last := n - 1;
      RulesMembers(versions, statuses, last, rule);
      ClausesRulesMembers(versions[last].payload.clauses, WindowOf(versions, last), rule);
    }
  }

  ghost predicate Quiet(w: World, e: int, day: int, later: int)
    requires e in w.people
  {
    forall key | Boundary(w, e, key) :: !(Midnight(day) < key.at <= Midnight(later))
  }

  lemma EffectiveKept(w: World, e: int, day: int, later: int)
    requires e in w.people && day <= later <= MAX_ORDINAL && Quiet(w, e, day, later)
    ensures EffectiveOf(w.versions, w.statuses, day) == EffectiveOf(w.versions, w.statuses, later)
  {
    forall i: nat | i < |w.versions| && IsActive(w.statuses, w.versions[i].policy)
      ensures EffectiveOn(w.versions[i], day) <==> EffectiveOn(w.versions[i], later)
    {
      var window := WindowOf(w.versions, i);
      assert RowBoundary(w.versions, i, StartKey(window));
      assert Boundary(w, e, StartKey(window));
      if window.until.Some? && window.until.value < MAX_ORDINAL {
        assert RowBoundary(w.versions, i, EndKey(window));
        assert Boundary(w, e, EndKey(window));
      }
    }
  }

  lemma FlipIsBoundary(w: World, e: int, rule: TenureRule, day: int)
    requires e in w.people && rule in AllRules(w) && RuleFlips(rule, w.people[e].startDate, day)
    ensures Boundary(w, e, ThresholdKey(e, day))
  {
  }

  lemma TruthKept(w: World, e: int, day: int, later: int, i: nat, c: Condition)
    requires e in w.people && day <= later <= MAX_ORDINAL && Quiet(w, e, day, later) && TypedVersions(w.versions)
    requires i in EffectiveOf(w.versions, w.statuses, day) && i in EffectiveOf(w.versions, w.statuses, later)
    requires Occurs(c, w.versions[i].payload.clauses)
    ensures Truth(c, FieldValue(w.people, e, c.field, day)) == Truth(c, FieldValue(w.people, e, c.field, later))
  {
    FactsOverTime(w.people, e, c.field, day, later);
    if c.field == TenureField {
      assert Typed(c);
      var start, years := w.people[e].startDate, c.operand.years;
      var rule := RuleOf(c, WindowOf(w.versions, i));
      assert StoresTenure(w.versions, w.statuses, i, c);
      RulesMembers(w.versions, w.statuses, |w.versions|, rule);
      forall d | day < d <= later
        ensures !(TransitionDays(start, c.op, years).Some? && d in TransitionDays(start, c.op, years).value)
      {
        if TransitionDays(start, c.op, years).Some? && d in TransitionDays(start, c.op, years).value {
          FlipIsBoundary(w, e, rule, d);
        }
      }
      TenureKept(start, c.op, years, day, later);
    }
  }

  /** With the facts frozen and no boundary in between, two dates have the same view but for the date. */
  lemma QuietViews(w: World, e: int, day: int, later: int)
    requires e in w.people && day <= later <= MAX_ORDINAL && Quiet(w, e, day, later) && TypedVersions(w.versions)
    ensures SameButDate(ViewOf(w, e, day), ViewOf(w, e, later))
  {
    EffectiveKept(w, e, day, later);
    var v, u := ViewOf(w, e, day), ViewOf(w, e, later);
    forall f | f in v.facts
      ensures SameFact(v.facts[f], u.facts[f])
    {
      FactsOverTime(w.people, e, f, day, later);
    }
    forall i, c | i in v.effective && Occurs(c, v.effective[i].payload.clauses)
      ensures TruthIn(v, c) == TruthIn(u, c)
    {
      TruthKept(w, e, day, later, i, c);
    }
  }

  ghost predicate SameAssignments(a: Outcome, b: Outcome) {
    && (a.Raised? <==> b.Raised?)
    && KeysOf(a) == KeysOf(b)
    && (a.Assigned? && b.Assigned? ==> a.policies == b.policies)
  }

  lemma QuietOutcome(w: World, e: int, day: int, later: int)
    requires e in w.people && day <= later <= MAX_ORDINAL && Quiet(w, e, day, later) && TypedVersions(w.versions)
    ensures SameAssignments(Resolve(w, e, day), Resolve(w, e, later))
  {
    QuietViews(w, e, day, later);
    SameOutcome(ViewOf(w, e, day), ViewOf(w, e, later));
  }

  /** The effective versions, or the matching of a clause of an effective version, differ from the day before. */
  ghost predicate MatchingMoves(w: World, e: int, day: int)
    requires e in w.people
  {
    var before, after := EffectiveOf(w.versions, w.statuses, day - 1), EffectiveOf(w.versions, w.statuses, day);
    || before != after
    || exists i, clause ::
         && i in after && clause in after[i].payload.clauses
         && ClauseMatches(ViewOf(w, e, day - 1), clause) != ClauseMatches(ViewOf(w, e, day), clause)
  }

  /**
   * Schedule completeness, day by day: with the facts frozen, a day on which an
   * employee's effective versions, matched clauses or outcome differ from the day
   * before is a boundary. A clause counts even when its version wins no value.
   */
  lemma ChangesOnlyAtBoundaries(w: World, e: int, day: int)
    requires e in w.people && day <= MAX_ORDINAL && TypedVersions(w.versions)
    requires MatchingMoves(w, e, day) || !SameAssignments(Resolve(w, e, day - 1), Resolve(w, e, day))
    ensures exists key :: Boundary(w, e, key) && key.at == Midnight(day)
  {
    if Quiet(w, e, day - 1, day) {
      QuietOutcome(w, e, day - 1, day);
      QuietMatching(w, e, day);
    } else {
      BoundaryOnDay(w, e, day);
    }
  }

  lemma QuietMatching(w: World, e: int, day: int)
    requires e in w.people && day <= MAX_ORDINAL && Quiet(w, e, day - 1, day) && TypedVersions(w.versions)
    ensures !MatchingMoves(w, e, day)
  {
    var v, u := ViewOf(w, e, day - 1), ViewOf(w, e, day);
    QuietViews(w, e, day - 1, day);
    forall i, clause | i in v.effective && clause in v.effective[i].payload.clauses
      ensures ClauseMatches(v, clause) == ClauseMatches(u, clause)
    {
      SameClauses(v, u, i);
    }
  }

  lemma BoundaryOnDay(w: World, e: int, day: int)
    requires e in w.people && !Quiet(w, e, day - 1, day)
    ensures exists key :: Boundary(w, e, key) && key.at == Midnight(day)
  {
    var key :| Boundary(w, e, key) && Midnight(day - 1) < key.at <= Midnight(day);
    BoundaryAtMidnight(w, e, key);
    var d :| key.at == Midnight(d);
    assert d == day;
  }

  lemma BoundaryAtMidnight(w: World, e: int, key: EventKey)
    requires e in w.people && Boundary(w, e, key)
    ensures exists day :: key.at == Midnight(day)
  {
    if VersionBoundary(w, key) {
      var i: nat :| RowBoundary(w.versions, i, key);
    } else {
      var rule, day :| rule in AllRules(w) && RuleFlips(rule, w.people[e].startDate, day) && key == ThresholdKey(e, day);
    }
  }

  // ----- the invariant

  /** The inputs of the resolver refer only to things that exist. */
  ghost predicate Inputs(w: World) {
    && 1 <= w.nextEmployee && (forall e | e in w.people :: 1 <= e < w.nextEmployee)
    && WellFormed(ChartOf(w.people)) && Acyclic(ChartOf(w.people))
    && (forall m | m in w.members :: m.1 in w.people)
    && (forall p | p in w.statuses :: p < w.nextPolicy)
    && (forall f | f in w.cardinality :: f < w.nextField)
    && VersionsSound(w)
    && (forall o | o in w.overrides.table :: o < w.overrides.nextId && w.overrides.table[o].employee in w.people)
  }

  ghost predicate VersionsSound(w: World) {
    && Timeline(w.versions)
    && TypedVersions(w.versions)
    && (forall i | 0 <= i < |w.versions| :: w.versions[i].policy in w.statuses)
    && (forall i, v | 0 <= i < |w.versions| && v in w.versions[i].payload.values :: v.0 in w.cardinality)
    && (forall i | 0 <= i < |w.versions| ::
          NoEmptyGroup(w.versions[i].payload.tree) && w.versions[i].payload.clauses == Dnf(w.versions[i].payload.tree))
  }

  /** A pending event names an existing entity. */
  ghost predicate Named(w: World, key: EventKey) {
    match key.entity
    case EmployeeEntity => key.id in w.people
    case PolicyVersionEntity => 1 <= key.id <= |w.versions|
  }

  ghost predicate QueueSound(w: World, clock: int) {
    && Sound(w.events)
    && Punctual(w.events, clock)
    && forall key | key in PendingKeys(w.events) :: Named(w, key)
  }

  /** Every boundary after the clock has a pending event. */
  ghost predicate Queued(w: World, clock: int) {
    && (forall key | VersionBoundary(w, key) && key.at > clock :: key in PendingKeys(w.events))
    && forall e, key | e in w.people && TenureBoundary(w, e, key) && key.at > clock :: key in PendingKeys(w.events)
  }

  ghost predicate TablesSound(w: World, clock: int) {
    && w.histories.Keys <= w.people.Keys && w.links.Keys <= w.people.Keys
    && forall e | e in w.people :: Clocked(HistoryOf(w, e).rows, clock)
  }

  /** The rows and links are what the resolver computed for `day`, and every later boundary is pending. */
  ghost predicate FreshSince(w: World, e: int, day: int)
    requires e in w.people
  {
    && Resolve(w, e, day).Assigned?
    && OpenKeys(HistoryOf(w, e).rows) == KeysOf(Resolve(w, e, day))
    && LinksOf(w, e) == Resolve(w, e, day).policies
    && forall key | Boundary(w, e, key) && key.at > Midnight(day) :: key in PendingKeys(w.events)
  }

  ghost predicate AllFresh(w: World, clock: int) {
    forall e | e in w.people :: exists day :: day <= DayOf(clock) && FreshSince(w, e, day)
  }

  ghost predicate Inv(w: World, clock: int) {
    Inputs(w) && QueueSound(w, clock) && Queued(w, clock) && TablesSound(w, clock) && AllFresh(w, clock)
  }

  // ----- one reconciliation step

  /** An employee that is not reconciled must keep its view, and the events of its boundaries. */
  ghost predicate Carried(w: World, w1: World, e: int, events: seq<Event>) {
    && e in w.people && e in w1.people
    && HistoryOf(w1, e) == HistoryOf(w, e) && LinksOf(w1, e) == LinksOf(w, e)
    && (forall day :: ViewOf(w1, e, day) == ViewOf(w, e, day))
    && (forall key | Boundary(w1, e, key) :: Boundary(w, e, key))
    && (forall key | Boundary(w1, e, key) && key in PendingKeys(w.events) :: key in PendingKeys(events))
  }

  /** What the reconciliation of `ids` does to each employee. */
  lemma ReconciledEmployee(w: World, ids: set<int>, at: int, e: int)
    requires ReconcileAll(w, ids, at).Some? && e in w.people
    ensures var after := ReconcileAll(w, ids, at).value;
            && after == w.(histories := after.histories, links := after.links)
            && after.histories.Keys == w.people.Keys && after.links.Keys == w.people.Keys
            && (e !in ids ==> HistoryOf(after, e) == HistoryOf(w, e) && LinksOf(after, e) == LinksOf(w, e))
            && (e in ids ==>
                  && Resolve(w, e, DayOf(at)).Assigned?
                  && LinksOf(after, e) == Resolve(w, e, DayOf(at)).policies
                  && OpenKeys(HistoryOf(after, e).rows) == KeysOf(Resolve(w, e, DayOf(at)))
                  && OpenDistinct(HistoryOf(after, e).rows)
                  && Reconcile(HistoryOf(w, e), at, Resolve(w, e, DayOf(at)).desired) == Ok(HistoryOf(after, e)))
  {
    if e in ids {
      assert Refreshed(w, e, at).Some?;
      var desired := Resolve(w, e, DayOf(at)).desired;
      OpenRowsAreDesired(HistoryOf(w, e).rows, at, desired);
    }
  }

  /** Only the table of assignments and the queue may have changed since the view was taken. */
  lemma ViewIgnoresTables(w: World, histories: map<int, History>, links: map<int, set<int>>, events: seq<Event>, e: int)
    requires e in w.people
    ensures var w2 := w.(histories := histories, links := links, events := events);
            && (forall day :: ViewOf(w2, e, day) == ViewOf(w, e, day))
            && (forall key :: Boundary(w2, e, key) <==> Boundary(w, e, key))
            && (forall key :: TenureBoundary(w2, e, key) <==> TenureBoundary(w, e, key))
            && (forall key :: VersionBoundary(w2, key) <==> VersionBoundary(w, key))
  {
    assert AllRules(w.(histories := histories, links := links, events := events)) == AllRules(w);
  }

  /**
   * One step: the inputs move from `w` to `w1`, the employees in `ids` are reconciled
   * and the queue becomes `events`. The invariant is kept when every other employee is
   * carried over and every future boundary is queued.
   */
  lemma StepKeeps(w: World, clock: int, w1: World, ids: set<int>, at: int, events: seq<Event>)
    requires Inv(w, clock) && clock <= at
    requires ReconcileAll(w1, ids, at).Some?
    requires Inputs(w1) && QueueSound(w1.(events := events), at) && Queued(w1.(events := events), at)
    requires forall e | e in w1.people :: e in ids || Carried(w, w1, e, events)
    requires forall e | e in w1.people :: Clocked(HistoryOf(w1, e).rows, at)
    ensures Inv(ReconcileAll(w1, ids, at).value.(events := events), at)
  {
    var r := ReconcileAll(w1, ids, at).value;
    var w2 := r.(events := events);
    forall e | e in w2.people
      ensures exists day :: day <= DayOf(at) && FreshSince(w2, e, day)
      ensures Clocked(HistoryOf(w2, e).rows, at)
    {
      ReconciledEmployee(w1, ids, at, e);
      assert HistoryOf(w2, e) == HistoryOf(r, e) && LinksOf(w2, e) == LinksOf(r, e);
      if e in ids {
        ReconciledIsFresh(w1, ids, at, events, e);
      } else {
        CarriedIsFresh(w, clock, w1, r, at, events, e);
      }
    }
    StepKeepsQueue(w1, ids, at, events);
  }

  lemma QueueIgnoresTables(w: World, histories: map<int, History>, links: map<int, set<int>>, at: int)
    requires Queued(w, at)
    ensures Queued(w.(histories := histories, links := links), at)
  {
    var w2 := w.(histories := histories, links := links);
    assert AllRules(w2) == AllRules(w);
    forall e, key | e in w2.people && TenureBoundary(w2, e, key) && key.at > at
      ensures key in PendingKeys(w2.events)
    {
      assert TenureBoundary(w, e, key);
    }
    forall key | VersionBoundary(w2, key) && key.at > at
      ensures key in PendingKeys(w2.events)
    {
      assert VersionBoundary(w, key);
    }
  }

  lemma StepKeepsQueue(w1: World, ids: set<int>, at: int, events: seq<Event>)
    requires ReconcileAll(w1, ids, at).Some?
    requires Inputs(w1) && QueueSound(w1.(events := events), at) && Queued(w1.(events := events), at)
    ensures var w2 := ReconcileAll(w1, ids, at).value.(events := events);
            && Inputs(w2) && QueueSound(w2, at) && Queued(w2, at)
            && w2.people == w1.people && w2.histories.Keys == w1.people.Keys && w2.links.Keys == w1.people.Keys
  {
    var r := ReconcileAll(w1, ids, at).value;
    QueueIgnoresTables(w1.(events := events), r.histories, r.links, at);
  }

  lemma ReconciledIsFresh(w1: World, ids: set<int>, at: int, events: seq<Event>, e: int)
    requires ReconcileAll(w1, ids, at).Some? && e in ids && e in w1.people
    requires Queued(w1.(events := events), at) && Clocked(HistoryOf(w1, e).rows, at)
    ensures var w2 := ReconcileAll(w1, ids, at).value.(events := events);
            FreshSince(w2, e, DayOf(at)) && Clocked(HistoryOf(w2, e).rows, at)
  {
    var r := ReconcileAll(w1, ids, at).value;
    var w2 := r.(events := events);
    ReconciledEmployee(w1, ids, at, e);
    ViewIgnoresTables(w1, r.histories, r.links, events, e);
    ViewIgnoresTables(w1, w1.histories, w1.links, events, e);
    forall key | Boundary(w2, e, key) && key.at > Midnight(DayOf(at))
      ensures key in PendingKeys(events)
    {
      BoundaryAtMidnight(w2, e, key);
      var day :| key.at == Midnight(day);
      MidnightIsFirst(day, at);
    }
    ReconcileKeepsClock(HistoryOf(w1, e), at, Resolve(w1, e, DayOf(at)).desired);
  }

  lemma ReconcileKeepsClock(h: History, at: int, desired: seq<Assignment>)
    requires Clocked(h.rows, at)
    ensures Reconcile(h, at, desired).Ok? && Clocked(Reconcile(h, at, desired).value.rows, at)
  {
    forall row | row in Diffed(h.rows, at, desired)
      ensures row.from <= at && (row.until.Some? ==> row.from < row.until.value <= at)
    {
      DiffedOrigins(h.rows, at, desired, row);
    }
  }

  lemma CarriedIsFresh(w: World, clock: int, w1: World, r: World, at: int, events: seq<Event>, e: int)
    requires AllFresh(w, clock) && clock <= at && Carried(w, w1, e, events)
    requires r == w1.(histories := r.histories, links := r.links)
    requires HistoryOf(r, e) == HistoryOf(w1, e) && LinksOf(r, e) == LinksOf(w1, e)
    ensures exists day :: day <= DayOf(at) && FreshSince(r.(events := events), e, day)
  {
    var w2 := r.(events := events);
    var day :| day <= DayOf(clock) && FreshSince(w, e, day);
    ViewIgnoresTables(w1, r.histories, r.links, events, e);
    assert w2 == w1.(histories := r.histories, links := r.links, events := events);
    assert ViewOf(w2, e, day) == ViewOf(w, e, day);
    assert FreshSince(w2, e, day);
    MidnightIsFirst(day, clock);
    MidnightIsFirst(day, at);
  }

  lemma StepKeepsWithoutEvents(w: World, clock: int, w1: World, ids: set<int>, at: int)
    requires Inv(w, clock) && clock <= at
    requires ReconcileAll(w1, ids, at).Some?
    requires Inputs(w1) && QueueSound(w1, at) && Queued(w1, at)
    requires forall e | e in w1.people :: e in ids || Carried(w, w1, e, w1.events)
    requires forall e | e in w1.people :: Clocked(HistoryOf(w1, e).rows, at)
    ensures Inv(ReconcileAll(w1, ids, at).value, at)
  {
    var r := ReconcileAll(w1, ids, at).value;
    assert w1.(events := w1.events) == w1;
    assert r.(events := w1.events) == r;
    StepKeeps(w, clock, w1, ids, at, w1.events);
  }

  /** Reconciling everybody needs nothing from the past but a sound table. */
  lemma ReconcileEverybody(w1: World, at: int)
    requires ReconcileAll(w1, w1.people.Keys, at).Some?
    requires Inputs(w1) && QueueSound(w1, at) && Queued(w1, at)
    requires forall e | e in w1.people :: Clocked(HistoryOf(w1, e).rows, at)
    ensures Inv(ReconcileAll(w1, w1.people.Keys, at).value, at)
  {
    var r := ReconcileAll(w1, w1.people.Keys, at).value;
    assert w1.(events := w1.events) == w1;
    assert r.(events := w1.events) == r;
    forall e | e in r.people
      ensures FreshSince(r, e, DayOf(at)) && Clocked(HistoryOf(r, e).rows, at)
    {
      ReconciledIsFresh(w1, w1.people.Keys, at, w1.events, e);
    }
    StepKeepsQueue(w1, w1.people.Keys, at, w1.events);
  }

  // ----- the theorem, from the invariant

  /** Today's resolution exists and the stored rows and links are it. */
  ghost predicate FreshToday(w: World, e: int, today: int)
    requires e in w.people
  {
    && Resolve(w, e, today).Assigned?
    && OpenKeys(HistoryOf(w, e).rows) == KeysOf(Resolve(w, e, today))
    && LinksOf(w, e) == Resolve(w, e, today).policies
  }

  /** Processing the event reconciles the employee. */
  predicate Concerns(key: EventKey, e: int) {
    key.entity == PolicyVersionEntity || key.id == e
  }

  lemma BoundaryConcerns(w: World, e: int, key: EventKey)
    requires e in w.people && Boundary(w, e, key)
    ensures Concerns(key, e)
  {
  }

  /** One employee is fresh when no event that concerns it is due, whatever else is due. */
  lemma NothingDueMeansFresh(w: World, clock: int, now: int, e: int)
    requires Inv(w, clock) && clock <= now && DayOf(now) <= MAX_ORDINAL && e in w.people
    requires forall key | key in PendingKeys(w.events) && Concerns(key, e) :: key.at > now
    ensures FreshToday(w, e, DayOf(now))
  {
    var day :| day <= DayOf(clock) && FreshSince(w, e, day);
    MidnightIsFirst(day, clock);
    MidnightIsFirst(day, now);
    MidnightIsFirst(DayOf(now), now);
    forall key | Boundary(w, e, key)
      ensures !(Midnight(day) < key.at <= Midnight(DayOf(now)))
    {
      BoundaryConcerns(w, e, key);
    }
    QuietOutcome(w, e, day, DayOf(now));
  }
}
