/** Over every run the queue holds no event that could not matter, and misses none that could. */
module QueueExactness {
  import opened Calendar
  import opened Conditions
  import opened Employees
  import opened Schedule
  import opened Engine
  import opened Batches
  import opened Freshness
  import opened Runs
  import opened Theorems
  import opened Processing

  /** At the instant of the event time alone can change an outcome. */
  ghost predicate Justified(w: World, key: EventKey) {
    match key.entity
    case PolicyVersionEntity => VersionBoundary(w, key)
    case EmployeeEntity => key.id in w.people && TenureBoundary(w, key.id, key)
  }

  ghost predicate AllJustified(w: World) {
    forall key | key in PendingKeys(w.events) :: Justified(w, key)
  }

  /** Same versions and statuses, so the same tenure rules and version boundaries. */
  ghost predicate SamePolicies(w: World, w2: World) {
    w2.versions == w.versions && w2.statuses == w.statuses
  }

  lemma ResyncedIsJustified(w: World, r: World, id: int, now: int)
    requires AllJustified(w) && Sound(r.events) && ProcessedBy(r.events, now) && SamePolicies(w, r) && r.events == w.events
    requires id in r.people && SyncTenure(r, id, now).Some?
    requires forall e | e in w.people && e != id :: e in r.people && r.people[e].startDate == w.people[e].startDate
    ensures AllJustified(SyncTenure(r, id, now).value)
  {
    SyncTenureQueue(r, id, now);
    var w2 := SyncTenure(r, id, now).value;
    assert AllRules(w2) == AllRules(r);
    forall key | key in PendingKeys(w2.events)
      ensures Justified(w2, key)
    {
      if OfEmployee(key, id) {
        assert TenureBoundary(r, id, key);
      }
    }
  }

  lemma CreateJustified(w: World, clock: int, record: Employee, at: int)
    requires QueueSound(w, clock) && w.nextEmployee !in w.people && clock <= at && AllJustified(w)
    requires AfterCreate(w, record, at).Some?
    ensures AllJustified(AfterCreate(w, record, at).value)
  {
    var id, w1 := w.nextEmployee, WithEmployee(w, record);
    var r := ReconcileAll(w1, Impacted(w1.people, CreateMutation(id, record)), at).value;
    ResyncedIsJustified(w, r, id, at);
  }

  lemma UpdateJustified(w: World, clock: int, id: int, patch: Patch, at: int)
    requires QueueSound(w, clock) && clock <= at && AllJustified(w) && id in w.people
    requires AfterUpdate(w, id, patch, at).Some?
    ensures AllJustified(AfterUpdate(w, id, patch, at).value)
  {
    var before, record := w.people[id], Patched(w.people[id], patch);
    var changed := ChangedColumns(before, record);
    if changed != {} {
      var w1 := w.(people := w.people[id := record]);
      var r := ReconcileAll(w1, Impacted(w1.people, UpdateMutation(id, before, record)), at).value;
      if StartDateColumn in changed {
        ResyncedIsJustified(w, r, id, at);
      }
    }
  }

  lemma RemovedJustified(w: World, clock: int, id: int)
    requires QueueSound(w, clock) && AllJustified(w) && id in w.people
    ensures AllJustified(WithoutEmployeeRows(w, id))
  {
    var w1 := WithoutEmployeeRows(w, id);
    CancelledKeys(w.events, EmployeeEntity, {id}, []);
    forall key | key in PendingKeys(w1.events)
      ensures Justified(w1, key)
    {
    }
  }

  lemma DeleteJustified(w: World, clock: int, id: int, at: int)
    requires QueueSound(w, clock) && AllJustified(w) && id in w.people && AfterDelete(w, id, at).Some?
    ensures AllJustified(AfterDelete(w, id, at).value)
  {
    RemovedJustified(w, clock, id);
  }

  lemma SyncedIsJustified(w: World, clock: int, w1: World, policy: int, syncAt: int, tenureAt: int)
    requires AllJustified(w) && QueueSound(w, clock) && clock <= syncAt <= tenureAt
    requires PolicyChange(w, w1) && Inputs(w1) && OtherPoliciesKept(w, w1, policy)
    requires SyncAllTenure(SyncVersions(w1, policy, syncAt), w1.nextEmployee, tenureAt).Some?
    ensures AllJustified(SyncAllTenure(SyncVersions(w1, policy, syncAt), w1.nextEmployee, tenureAt).value)
  {
    var ws := SyncVersions(w1, policy, syncAt);
    SyncVersionsExact(w1, policy, syncAt);
    SyncVersionsQueue(w1, policy, syncAt);
    SyncAllTenureQueue(ws, w1.nextEmployee, tenureAt);
    var w2 := SyncAllTenure(ws, w1.nextEmployee, tenureAt).value;
    assert AllRules(w2) == AllRules(ws);
    forall key | key in PendingKeys(w2.events)
      ensures Justified(w2, key)
    {
      if key.entity == PolicyVersionEntity {
        VersionEventJustified(w, clock, w1, policy, syncAt, key);
        assert VersionBoundary(w2, key);
      } else {
        assert key in PendingKeys(w.events) ==> Justified(w, key);
        assert OfEmployee(key, key.id) && key.id in w2.people;
        assert TenureBoundary(ws, key.id, key);
      }
    }
  }

  lemma VersionEventJustified(w: World, clock: int, w1: World, policy: int, syncAt: int, key: EventKey)
    requires AllJustified(w) && QueueSound(w, clock) && clock <= syncAt && w1.events == w.events
    requires OtherPoliciesKept(w, w1, policy) && key.entity == PolicyVersionEntity
    requires key in PendingKeys(SyncVersions(w1, policy, syncAt).events)
    ensures VersionBoundary(w1, key)
  {
    if OfPolicy(w1, key, policy) {
      SyncVersionsJustified(w1, policy, syncAt, key);
    } else {
      SyncVersionsQueue(w1, policy, syncAt);
      assert Justified(w, key);
      var i: nat :| RowBoundary(w.versions, i, key) && IsActive(w.statuses, w.versions[i].policy);
      assert key.id == i + 1;
      assert RowBoundary(w1.versions, i, key);
    }
  }

  lemma RefreshJustified(w: World, clock: int, w1: World, policy: int, syncAt: int, tenureAt: int, at: int)
    requires AllJustified(w) && QueueSound(w, clock) && clock <= syncAt <= tenureAt
    requires PolicyChange(w, w1) && Inputs(w1) && OtherPoliciesKept(w, w1, policy)
    requires SyncAndRefresh(w1, policy, syncAt, tenureAt, at).Some?
    ensures AllJustified(SyncAndRefresh(w1, policy, syncAt, tenureAt, at).value)
  {
    SyncedIsJustified(w, clock, w1, policy, syncAt, tenureAt);
  }

  lemma PolicyJustified(w: World, clock: int, op: Op)
    requires Inv(w, clock) && Timed(clock, op) && AllJustified(w) && Apply(w, op).Some?
    requires op.CreatePolicy? || op.AddVersion? || op.SetStatus?
    ensures AllJustified(Apply(w, op).value)
  {
    match op {
      case CreatePolicy(status, input, syncAt, tenureAt, at) =>
        StoredNewPolicy(w, status, input);
        var w1 := Stored(WithPolicy(w, status), w.nextPolicy, input).value;
        RefreshJustified(w, clock, w1, w.nextPolicy, syncAt, tenureAt, at);
      case AddVersion(policy, input, syncAt, tenureAt, at) =>
        StoredInputs(w, policy, input);
        RefreshJustified(w, clock, Stored(w, policy, input).value, policy, syncAt, tenureAt, at);
      case SetStatus(policy, status, syncAt, tenureAt, at) =>
        if w.statuses[policy] != status {
          var w1 := w.(statuses := w.statuses[policy := status]);
          StatusInputs(w, policy, status, w.nextPolicy);
          assert w1 == w.(statuses := w.statuses[policy := status], nextPolicy := w.nextPolicy);
          RefreshJustified(w, clock, w1, policy, syncAt, tenureAt, at);
        }
    }
  }

  lemma BatchJustified(w: World, clock: int, limit: nat, at: int)
    requires QueueSound(w, clock) && AllJustified(w) && AfterBatch(w, limit, at).Some?
    ensures AllJustified(AfterBatch(w, limit, at).value)
  {
    var batch := Due(w.events, at, limit);
    BatchIsEarliest(w.events, at, limit);
    MarkedKeys(w.events, batch, at);
    PlanOnlyTables(w, PlanOf(w, batch), at);
  }

  lemma EmployeeJustified(w: World, clock: int, op: Op)
    requires Inv(w, clock) && Timed(clock, op) && AllJustified(w) && Apply(w, op).Some?
    requires op.CreateEmployee? || op.UpdateEmployee? || op.DeleteEmployee?
    ensures AllJustified(Apply(w, op).value)
  {
    match op {
      case CreateEmployee(record, at) => CreateJustified(w, clock, record, at);
      case UpdateEmployee(id, patch, at) => UpdateJustified(w, clock, id, patch, at);
      case DeleteEmployee(id, at) => DeleteJustified(w, clock, id, at);
    }
  }

  lemma StepJustified(w: World, clock: int, op: Op)
    requires Inv(w, clock) && Timed(clock, op) && AllJustified(w)
    ensures AllJustified(Step(w, op))
  {
    if Apply(w, op).Some? {
      if op.CreateEmployee? || op.UpdateEmployee? || op.DeleteEmployee? {
        EmployeeJustified(w, clock, op);
      } else if op.CreatePolicy? || op.AddVersion? || op.SetStatus? {
        PolicyJustified(w, clock, op);
      } else if op.WorkBatch? {
        BatchJustified(w, clock, op.limit, op.at);
      } else {
        QueueUntouched(w, op);
      }
    }
  }

  lemma {:induction false} AlwaysJustified(ops: seq<Op>)
    requires RunTimed(ops)
    ensures AllJustified(Engine.Run(ops))
  {
    if ops != [] {
      var init := ops[..|ops| - 1];
      AlwaysJustified(init);
      RunKeeps(init);
      StepJustified(Engine.Run(init), ClockAfter(init), ops[|ops| - 1]);
    }
  }

  /** The instant at which a stored version starts, or the day after it ends. */
  ghost predicate StartsOrEnds(w: World, key: EventKey) {
    && key.entity == PolicyVersionEntity && 1 <= key.id <= |w.versions|
    && var v := w.versions[key.id - 1];
       && v.policy in w.statuses && w.statuses[v.policy] == ActivePolicy
       && match key.trigger
          case BecomesEffective => key.at == Midnight(v.from)
          case Expires => v.until.Some? && v.until.value < MAX_ORDINAL && key.at == Midnight(v.until.value + 1)
          case TenureThreshold => false
  }

  /** On the day of the instant a stored tenure condition flips for the employee, inside the range of its version. */
  ghost predicate FlipsTenure(w: World, key: EventKey) {
    && key.entity == EmployeeEntity && key.id in w.people && key.trigger == TenureThreshold
    && exists i, c, day ::
         && StoresTenure(w.versions, w.statuses, i, c) && key.at == Midnight(day)
         && w.versions[i].from <= day && (w.versions[i].until.Some? ==> day <= w.versions[i].until.value)
         && var days := TransitionDays(w.people[key.id].startDate, c.op, c.operand.years); days.Some? && day in days.value
  }

  lemma VersionKeys(w: World, key: EventKey)
    ensures VersionBoundary(w, key) <==> StartsOrEnds(w, key)
  {
    if i: nat :| RowBoundary(w.versions, i, key) && IsActive(w.statuses, w.versions[i].policy) {
      assert key.id == i + 1;
    }
    if StartsOrEnds(w, key) {
      assert RowBoundary(w.versions, key.id - 1, key);
    }
  }

  lemma ThresholdKeys(w: World, e: int, key: EventKey)
    requires e in w.people
    ensures TenureBoundary(w, e, key) <==> FlipsTenure(w, key) && key.id == e
  {
    var start := w.people[e].startDate;
    if rule, day :| rule in AllRules(w) && RuleFlips(rule, start, day) && key == ThresholdKey(e, day) {
      RulesMembers(w.versions, w.statuses, |w.versions|, rule);
      var i, c :| 0 <= i < |w.versions| && StoresTenure(w.versions, w.statuses, i, c) && rule == RuleOf(c, WindowOf(w.versions, i));
      assert FlipsTenure(w, key);
    }
    if FlipsTenure(w, key) && key.id == e {
      var i, c, day :|
        && StoresTenure(w.versions, w.statuses, i, c) && key.at == Midnight(day)
        && w.versions[i].from <= day && (w.versions[i].until.Some? ==> day <= w.versions[i].until.value)
        && var days := TransitionDays(start, c.op, c.operand.years); days.Some? && day in days.value;
      var rule := RuleOf(c, WindowOf(w.versions, i));
      RulesMembers(w.versions, w.statuses, |w.versions|, rule);
      assert RuleFlips(rule, start, day) && key == ThresholdKey(e, day);
    }
  }

  lemma JustifiedKeys(w: World, key: EventKey)
    ensures Justified(w, key) <==> StartsOrEnds(w, key) || FlipsTenure(w, key)
  {
    match key.entity {
      case PolicyVersionEntity => VersionKeys(w, key);
      case EmployeeEntity => if key.id in w.people { ThresholdKeys(w, key.id, key); }
    }
  }

  /**
   * The future queue is exact: after every run an event later than the clock is pending
   * exactly when it is the start of a version of an active policy, the day after its
   * end, or a tenure threshold of an existing employee inside a version's range, each
   * under its own trigger. Identities are unique, and the processed events are those
   * with a processing time, which lies between the instant they were due and the clock.
   */
  lemma FutureQueueIsExact(ops: seq<Op>, key: EventKey)
    requires RunTimed(ops) && key.at > ClockAfter(ops)
    ensures var w := Engine.Run(ops);
            && Sound(w.events) && Punctual(w.events, ClockAfter(ops))
            && (key in PendingKeys(w.events) <==> StartsOrEnds(w, key) || FlipsTenure(w, key))
  {
    RunKeeps(ops);
    AlwaysJustified(ops);
    AlwaysPunctual(ops);
    JustifiedKeys(Engine.Run(ops), key);
  }
}
