/** The guarantees that hold over every run of the system. */
module Theorems {
  import opened Common
  import opened Calendar
  import opened Conditions
  import opened ConditionTree
  import opened Reconciliation
  import opened Resolution
  import opened Matching
  import opened Schedule
  import opened Engine
  import opened Freshness
  import opened Decisions
  import opened Runs
  import opened EmployeeRuns
  import opened Batches
  import opened Chronicle

  // ----- every run

  lemma DirectoryOperationKeeps(w: World, clock: int, op: Op)
    requires Inv(w, clock) && Timed(clock, op) && Apply(w, op).Some?
    requires op.CreateEmployee? || op.UpdateEmployee? || op.DeleteEmployee? || op.RefreshEmployee?
             || op.CreatePolicy? || op.AddVersion? || op.SetStatus? || op.CreateField?
    ensures Inv(Apply(w, op).value, op.at)
  {
    match op {
      case CreateEmployee(record, at) => CreateKeeps(w, clock, record, at);
      case UpdateEmployee(id, patch, at) => UpdateKeeps(w, clock, id, patch, at);
      case DeleteEmployee(id, at) => DeleteKeeps(w, clock, id, at);
      case RefreshEmployee(id, at) => RefreshKeeps(w, clock, id, at);
      case CreateField(one, at) => FieldKeeps(w, clock, one, at);
      case CreatePolicy(status, input, syncAt, tenureAt, at) => CreatePolicyKeeps(w, clock, status, input, syncAt, tenureAt, at);
      case AddVersion(policy, input, syncAt, tenureAt, at) => AddVersionKeeps(w, clock, policy, input, syncAt, tenureAt, at);
      case SetStatus(policy, status, syncAt, tenureAt, at) => SetStatusKeeps(w, clock, policy, status, syncAt, tenureAt, at);
    }
  }

  lemma OtherOperationKeeps(w: World, clock: int, op: Op)
    requires Inv(w, clock) && Timed(clock, op) && Apply(w, op).Some?
    requires op.CreateGroup? || op.AddMember? || op.RemoveMember? || op.UpdateGroupPolicies? || op.ChangeOverride? || op.WorkBatch?
    ensures Inv(Apply(w, op).value, op.at)
  {
    match op {
      case CreateGroup(at) => GroupKeeps(w, clock, at);
      case AddMember(group, id, at) => MembersKeep(w, clock, w.members + {(group, id)}, group, id, at);
      case RemoveMember(group, id, at) => MembersKeep(w, clock, w.members - {(group, id)}, group, id, at);
      case UpdateGroupPolicies(group, added, removed, at) => GroupPoliciesKeep(w, clock, group, added, removed, at);
      case ChangeOverride(change, at) => OverrideKeeps(w, clock, change.(at := at), at);
      case WorkBatch(limit, at) => BatchKeeps(w, clock, limit, at);
    }
  }

  /** Every operation, completed or rolled back, keeps the invariant. */
  lemma OperationKeeps(w: World, clock: int, op: Op)
    requires Inv(w, clock) && Timed(clock, op)
    ensures clock <= op.at && Inv(Step(w, op), op.at)
  {
    if Apply(w, op).None? {
      TimePasses(w, clock, op.at);
    } else if op.CreateGroup? || op.AddMember? || op.RemoveMember? || op.UpdateGroupPolicies? || op.ChangeOverride? || op.WorkBatch? {
      OtherOperationKeeps(w, clock, op);
    } else {
      DirectoryOperationKeeps(w, clock, op);
    }
  }

  /** Every interleaving of operations with a clock that never runs backwards. */
  lemma {:induction false} RunKeeps(ops: seq<Op>)
    requires RunTimed(ops)
    ensures Inv(Engine.Run(ops), ClockAfter(ops))
  {
    if ops != [] {
      RunKeeps(ops[..|ops| - 1]);
      OperationKeeps(Engine.Run(ops[..|ops| - 1]), ClockAfter(ops[..|ops| - 1]), ops[|ops| - 1]);
    }
  }

  // ----- freshness

  /** What the as-of query answers for an employee, as stable keys. */
  ghost function Answered(w: World, e: int, instant: int): set<Key> {
    LiveKeys(HistoryOf(w, e).rows, instant)
  }

  lemma LiveAreOpen(rows: seq<Row>, clock: int, now: int)
    requires Clocked(rows, clock) && clock <= now
    ensures LiveKeys(rows, now) == OpenKeys(rows)
  {
  }

  /**
   * Freshness: after every run, at every later instant with no due event that concerns
   * the employee, today's resolution exists, the as-of query and the open rows are
   * exactly what it assigns, and the policy links are the policies it matched.
   */
  lemma AlwaysFresh(ops: seq<Op>, now: int, e: int)
    requires RunTimed(ops) && ClockAfter(ops) <= now && DayOf(now) <= MAX_ORDINAL && e in Engine.Run(ops).people
    requires forall key | key in PendingKeys(Engine.Run(ops).events) && Concerns(key, e) :: key.at > now
    ensures var w := Engine.Run(ops);
            && FreshToday(w, e, DayOf(now))
            && Answered(w, e, now) == OpenKeys(HistoryOf(w, e).rows)
            && (set k | k in Answered(w, e, now) :: FinalOf(k)) == Finals(ViewOf(w, e, DayOf(now)))
  {
    var w := Engine.Run(ops);
    RunKeeps(ops);
    NothingDueMeansFresh(w, ClockAfter(ops), now, e);
    LiveAreOpen(HistoryOf(w, e).rows, ClockAfter(ops), now);
    DesiredKeys(ViewOf(w, e, DayOf(now)));
  }

  /**
   * What the rows say: whenever nothing that concerns the employee is due, the as-of query
   * gives a field a value from a source exactly when the stored overrides and versions
   * decide so, and the policy links are the policies of the versions that apply.
   */
  lemma RowsAreDecided(ops: seq<Op>, now: int, e: int, field: int, value: string, source: Source)
    requires RunTimed(ops) && ClockAfter(ops) <= now && DayOf(now) <= MAX_ORDINAL && e in Engine.Run(ops).people
    requires forall key | key in PendingKeys(Engine.Run(ops).events) && Concerns(key, e) :: key.at > now
    ensures var w := Engine.Run(ops);
            (exists k :: k in Answered(w, e, now) && FinalOf(k) == Final(field, value, source))
            <==> Decided(w, e, DayOf(now), field, value, source)
  {
    var w := Engine.Run(ops);
    RunKeeps(ops);
    AlwaysFresh(ops, now, e);
    FinalsAreDecided(w, e, DayOf(now), Final(field, value, source));
    var answered := Answered(w, e, now);
    var finals := Finals(ViewOf(w, e, DayOf(now)));
    assert (set k | k in answered :: FinalOf(k)) == finals;
  }

  /** The same with the evidence: a decided value is stored with its explanation, but for evaluation dates. */
  lemma RowsAreExplained(ops: seq<Op>, now: int, e: int, k: Key)
    requires RunTimed(ops) && ClockAfter(ops) <= now && DayOf(now) <= MAX_ORDINAL && e in Engine.Run(ops).people
    requires forall key | key in PendingKeys(Engine.Run(ops).events) && Concerns(key, e) :: key.at > now
    ensures var w := Engine.Run(ops);
            k in Answered(w, e, now) <==>
            Decided(w, e, DayOf(now), k.field, k.value, k.source)
            && k.evidence == Stable(Explain(ViewOf(w, e, DayOf(now)), FinalOf(k)))
  {
    var w := Engine.Run(ops);
    RunKeeps(ops);
    AlwaysFresh(ops, now, e);
    FinalsAreDecided(w, e, DayOf(now), FinalOf(k));
    DesiredKeys(ViewOf(w, e, DayOf(now)));
  }

  lemma LinksAreDecided(ops: seq<Op>, now: int, e: int, policy: int)
    requires RunTimed(ops) && ClockAfter(ops) <= now && DayOf(now) <= MAX_ORDINAL && e in Engine.Run(ops).people
    requires forall key | key in PendingKeys(Engine.Run(ops).events) && Concerns(key, e) :: key.at > now
    ensures var w := Engine.Run(ops);
            policy in LinksOf(w, e) <==> exists i :: Applies(w, e, DayOf(now), i) && w.versions[i].policy == policy
  {
    RunKeeps(ops);
    AlwaysFresh(ops, now, e);
    LinksMeaning(Engine.Run(ops), e, DayOf(now), policy);
  }

  /** A worker batch below its limit leaves every employee fresh. */
  lemma DrainedMeansFresh(ops: seq<Op>, limit: nat, at: int, e: int)
    requires RunTimed(ops) && ClockAfter(ops) <= at && DayOf(at) <= MAX_ORDINAL && e in Engine.Run(ops).people
    requires AfterBatch(Engine.Run(ops), limit, at).Some? && |Due(Engine.Run(ops).events, at, limit)| < limit
    ensures var after := AfterBatch(Engine.Run(ops), limit, at).value;
            e in after.people && FreshToday(after, e, DayOf(at))
  {
    var w := Engine.Run(ops);
    RunKeeps(ops);
    BatchKeeps(w, ClockAfter(ops), limit, at);
    NothingLeftDue(w.events, at, limit);
    var after := AfterBatch(w, limit, at).value;
    PlanOnlyTables(w, PlanOf(w, Due(w.events, at, limit)), at);
    NothingDueMeansFresh(after, at, at, e);
  }

  lemma NothingLeftDue(events: seq<Event>, now: int, limit: nat)
    requires Sound(events) && |Due(events, now, limit)| < limit
    ensures forall key | key in PendingKeys(Marked(events, Due(events, now, limit), now)) :: key.at > now
  {
    BatchIsEarliest(events, now, limit);
    MarkedKeys(events, Due(events, now, limit), now);
    forall key | key in PendingKeys(events) && key.at <= now
      ensures exists i :: i in Due(events, now, limit) && events[i].key == key
    {
      var event :| event in events && event.status == Pending && event.key == key;
      var i :| 0 <= i < |events| && events[i] == event;
      assert IsDue(events[i], now);
    }
  }

  // ----- schedule completeness

  /**
   * Schedule completeness: if, with the facts frozen, an employee's effective versions,
   * matched clauses, assignments or matched policies on a future day differ from the day
   * before, then an event is pending at that midnight, and every batch that contains it
   * reconciles the employee.
   */
  lemma ScheduleComplete(ops: seq<Op>, e: int, day: int)
    requires RunTimed(ops) && e in Engine.Run(ops).people && ClockAfter(ops) < Midnight(day) && day <= MAX_ORDINAL
    requires var w := Engine.Run(ops); MatchingMoves(w, e, day) || !SameAssignments(Resolve(w, e, day - 1), Resolve(w, e, day))
    ensures var w := Engine.Run(ops);
            exists i :: && 0 <= i < |w.events| && w.events[i].status == Pending && w.events[i].key.at == Midnight(day)
                        && ReconciledBy(w, i, e)
  {
    RunKeeps(ops);
    ChangeIsPending(Engine.Run(ops), ClockAfter(ops), e, day);
  }

  lemma ChangeIsPending(w: World, clock: int, e: int, day: int)
    requires Inputs(w) && QueueSound(w, clock) && Queued(w, clock)
    requires e in w.people && clock < Midnight(day) && day <= MAX_ORDINAL
    requires MatchingMoves(w, e, day) || !SameAssignments(Resolve(w, e, day - 1), Resolve(w, e, day))
    ensures exists i :: && 0 <= i < |w.events| && w.events[i].status == Pending && w.events[i].key.at == Midnight(day)
                        && ReconciledBy(w, i, e)
  {
    ChangesOnlyAtBoundaries(w, e, day);
    var key :| Boundary(w, e, key) && key.at == Midnight(day);
    BoundaryConcerns(w, e, key);
    assert key in PendingKeys(w.events);
    var event :| event in w.events && event.status == Pending && event.key == key;
    var i :| 0 <= i < |w.events| && w.events[i] == event;
    EventReconciles(w, clock, i, e);
  }

  ghost predicate ReconciledBy(w: World, i: int, e: int) {
    forall batch: seq<nat> | i in batch :: e in UnionOf(PlanOf(w, batch))
  }

  lemma EventReconciles(w: World, clock: int, i: nat, e: int)
    requires Inputs(w) && QueueSound(w, clock) && e in w.people
    requires i < |w.events| && w.events[i].status == Pending && Concerns(w.events[i].key, e)
    ensures ReconciledBy(w, i, e)
  {
    assert w.events[i].key in PendingKeys(w.events);
    assert Named(w, w.events[i].key);
    forall batch: seq<nat> | i in batch
      ensures e in UnionOf(PlanOf(w, batch))
    {
      BatchEvents(w, batch, i);
      PlanMembers(w, batch, e);
    }
  }

  // ----- which errors a run can meet

  lemma PlanFailsExactly(w: World, clock: int, plan: seq<set<int>>, at: int)
    requires TablesSound(w, clock) && clock <= at
    ensures ReconcileMany(w, plan, at).None? <==>
            exists e :: e in w.people && Resolve(w, e, DayOf(at)).Raised? && e in UnionOf(plan)
  {
    forall e | e in w.people
      ensures Clocked(HistoryOf(w, e).rows, at)
    {
    }
    if plan != [] {
      ReconcileManyIsOne(w, plan, at);
      ReconcileFailsExactly(w, UnionOf(plan), at);
    }
  }

  lemma ReconcileFailsExactly(w: World, ids: set<int>, at: int)
    requires forall e | e in w.people :: Clocked(HistoryOf(w, e).rows, at)
    ensures ReconcileAll(w, ids, at).None? <==> exists e :: e in w.people && Resolve(w, e, DayOf(at)).Raised? && e in ids
  {
    forall e | e in w.people
      ensures Refreshed(w, e, at).None? <==> Resolve(w, e, DayOf(at)).Raised?
    {
      assert Accepts(HistoryOf(w, e).rows, at);
    }
  }

  lemma BatchNamesExisting(w: World, clock: int, limit: nat, at: int)
    requires QueueSound(w, clock)
    ensures forall i | i in Due(w.events, at, limit) :: i < |w.events| && Named(w, w.events[i].key)
  {
    BatchIsEarliest(w.events, at, limit);
    forall i | i in Due(w.events, at, limit)
      ensures Named(w, w.events[i].key)
    {
      assert w.events[i].key in PendingKeys(w.events);
    }
  }

  /** After every run a version matches directly exactly when its stored condition tree holds. */
  lemma DirectMatchOverRuns(ops: seq<Op>, e: int, day: int, i: nat)
    requires RunTimed(ops) && e in Engine.Run(ops).people && i < |Engine.Run(ops).versions|
    ensures var w, view := Engine.Run(ops), ViewOf(Engine.Run(ops), e, day);
            Direct(view, w.versions[i]) <==>
            Holds(w.versions[i].payload.tree, (c: Condition) => TruthIn(view, c) == Some(true))
  {
    RunKeeps(ops);
    DirectMatchIsTreeTruth(ViewOf(Engine.Run(ops), e, day), Engine.Run(ops).versions[i]);
  }

  // ----- histories

  /** Audit entries are in the order of their instants, none later than the clock. */
  ghost predicate AuditInOrder(audit: seq<Entry>, clock: int) {
    forall i, j | 0 <= i <= j < |audit| :: audit[i].at <= audit[j].at <= clock
  }

  /** No empty interval, no overlap of one key, and an ordered audit trail that adds up to the open rows with the property. */
  ghost predicate SoundHistory(h: History, clock: int, p: Assignment -> bool) {
    Clocked(h.rows, clock) && NoOverlap(h.rows) && AuditInOrder(h.audit, clock) && NetCreated(h.audit, p) == OpenCount(h.rows, p)
  }

  lemma MovedIsSound(before: History, after: History, clock: int, at: int, p: Assignment -> bool)
    requires SoundHistory(before, clock, p) && clock <= at && Moved(before, after, at)
    ensures SoundHistory(after, at, p)
  {
    if after != before {
      var desired :| Reconcile(before, at, desired) == Ok(after);
      StepKeepsTableSound(before.rows, at, desired);
      ReconcileAudits(before, at, desired, p);
      NewEntries(before, at, desired);
    }
  }

  /** After every run, and for every property of assignments, the history of every employee is sound. */
  lemma {:induction false} HistoriesAreSound(ops: seq<Op>, e: int, p: Assignment -> bool)
    requires RunTimed(ops) && e in Engine.Run(ops).people
    ensures SoundHistory(HistoryOf(Engine.Run(ops), e), ClockAfter(ops), p)
  {
    if ops != [] {
      var init, op := ops[..|ops| - 1], ops[|ops| - 1];
      var w := Engine.Run(init);
      RunKeeps(init);
      OperationKeeps(w, ClockAfter(init), op);
      StepMoves(w, ClockAfter(init), op);
      if e in w.people {
        HistoriesAreSound(init, e, p);
      } else {
        assert HistoryOf(w, e) == History([], []);
      }
      MovedIsSound(HistoryOf(w, e), HistoryOf(Step(w, op), e), ClockAfter(init), op.at, p);
    }
  }

  ghost predicate AllAfter(ops: seq<Op>, instant: int) {
    forall i | 0 <= i < |ops| :: instant < ops[i].at
  }

  lemma {:induction false} EarlierRunIsTimed(ops: seq<Op>, more: seq<Op>)
    requires RunTimed(ops + more)
    ensures RunTimed(ops) && Engine.Run(ops).nextEmployee <= Engine.Run(ops + more).nextEmployee
  {
    if more == [] {
      assert ops + more == ops;
    } else {
      var init := more[..|more| - 1];
      LastStep(ops, more);
      EarlierRunIsTimed(ops, init);
      RunKeeps(ops + init);
      StepMoves(Engine.Run(ops + init), ClockAfter(ops + init), more[|more| - 1]);
    }
  }

  lemma StepKeepsThePast(ops: seq<Op>, op: Op, e: int, instant: int)
    requires RunTimed(ops) && Timed(ClockAfter(ops), op) && instant < op.at
    requires e < Engine.Run(ops).nextEmployee && e in Step(Engine.Run(ops), op).people
    ensures e in Engine.Run(ops).people
    ensures AsOf(HistoryOf(Step(Engine.Run(ops), op), e).rows, instant) == AsOf(HistoryOf(Engine.Run(ops), e).rows, instant)
  {
    var w := Engine.Run(ops);
    RunKeeps(ops);
    StepMoves(w, ClockAfter(ops), op);
    var before, after := HistoryOf(w, e), HistoryOf(Step(w, op), e);
    if after != before {
      var desired :| Reconcile(before, op.at, desired) == Ok(after);
      PastNeverRewritten(before.rows, op.at, desired, instant);
    }
  }

  lemma IdentitiesBelowNext(ops: seq<Op>, e: int)
    requires RunTimed(ops) && e in Engine.Run(ops).people
    ensures e < Engine.Run(ops).nextEmployee
  {
    RunKeeps(ops);
  }

  lemma RunLast(ops: seq<Op>)
    requires RunTimed(ops) && ops != []
    ensures var init, op := ops[..|ops| - 1], ops[|ops| - 1];
            RunTimed(init) && Timed(ClockAfter(init), op) && Engine.Run(ops) == Step(Engine.Run(init), op)
  {
  }

  lemma LastStep(ops: seq<Op>, more: seq<Op>)
    requires RunTimed(ops + more) && more != []
    ensures var init := more[..|more| - 1];
            && RunTimed(ops + init) && Timed(ClockAfter(ops + init), more[|more| - 1])
            && Engine.Run(ops + more) == Step(Engine.Run(ops + init), more[|more| - 1])
  {
    LastOfConcat(ops, more);
    RunLast(ops + more);
  }

  /** Whatever is done later, the as-of answer at an earlier instant stays as it was. */
  lemma {:induction false} PastIsPermanent(ops: seq<Op>, more: seq<Op>, instant: int, e: int)
    requires RunTimed(ops + more) && AllAfter(more, instant)
    requires e in Engine.Run(ops).people && e in Engine.Run(ops + more).people
    ensures AsOf(HistoryOf(Engine.Run(ops + more), e).rows, instant) == AsOf(HistoryOf(Engine.Run(ops), e).rows, instant)
  {
    if more == [] {
      assert ops + more == ops;
    } else {
      var init := more[..|more| - 1];
      LastStep(ops, more);
      EarlierRunIsTimed(ops, init);
      IdentitiesBelowNext(ops, e);
      StepKeepsThePast(ops + init, more[|more| - 1], e, instant);
      PastIsPermanent(ops, init, instant, e);
    }
  }

  /**
   * History tells the truth: asked at any later time, the as-of query for an instant at
   * which nothing concerning the employee was due answers what the resolver computed
   * from the database as it was then.
   */
  lemma HistoryTellsTheTruth(ops: seq<Op>, more: seq<Op>, instant: int, e: int)
    requires RunTimed(ops + more) && AllAfter(more, instant)
    requires ClockAfter(ops) <= instant && DayOf(instant) <= MAX_ORDINAL
    requires e in Engine.Run(ops).people && e in Engine.Run(ops + more).people
    requires forall key | key in PendingKeys(Engine.Run(ops).events) && Concerns(key, e) :: key.at > instant
    ensures Resolve(Engine.Run(ops), e, DayOf(instant)).Assigned?
    ensures Answered(Engine.Run(ops + more), e, instant) == KeysOf(Resolve(Engine.Run(ops), e, DayOf(instant)))
  {
    EarlierRunIsTimed(ops, more);
    AlwaysFresh(ops, instant, e);
    PastIsPermanent(ops, more, instant, e);
    AsOfKeys(HistoryOf(Engine.Run(ops), e).rows, instant);
    AsOfKeys(HistoryOf(Engine.Run(ops + more), e).rows, instant);
  }
}
