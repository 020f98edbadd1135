/** Every operation keeps the invariant of freshness, so every run does. */
module Runs {
  import opened Calendar
  import opened ConditionTree
  import opened Reconciliation
  import opened Overrides
  import opened Versions
  import opened Matching
  import opened Schedule
  import opened Engine
  import opened Freshness

  // ----- steps without events

  lemma CarriedAll(w: World, clock: int, w1: World, at: int)
    requires Inv(w, clock) && clock <= at
    requires Inputs(w1) && QueueSound(w1, at) && Queued(w1, at) && TablesSound(w1, at)
    requires forall e | e in w1.people :: Carried(w, w1, e, w1.events)
    ensures Inv(w1, at)
  {
    forall e | e in w1.people
      ensures exists day :: day <= DayOf(at) && FreshSince(w1, e, day)
    {
      CarriedIsFresh(w, clock, w1, w1, at, w1.events, e);
      assert w1.(events := w1.events) == w1;
    }
  }

  lemma TimePasses(w: World, clock: int, at: int)
    requires Inv(w, clock) && clock <= at
    ensures Inv(w, at)
  {
    forall e | e in w.people
      ensures Carried(w, w, e, w.events) && Clocked(HistoryOf(w, e).rows, at)
    {
    }
    CarriedAll(w, clock, w, at);
  }

  /** People, versions, queue and tables are untouched. */
  ghost predicate Local(w: World, w1: World) {
    && w1.people == w.people && w1.nextEmployee == w.nextEmployee
    && w1.statuses == w.statuses && w1.nextPolicy == w.nextPolicy && w1.versions == w.versions
    && w1.histories == w.histories && w1.links == w.links && w1.events == w.events
  }

  /** What remains of the view of one employee after a local change. */
  ghost predicate SameLocalView(w: World, w1: World, e: int) {
    && InheritedOf(w1.members, w1.attached, e) == InheritedOf(w.members, w.attached, e)
    && ActiveOverrides(w1.overrides.table, e) == ActiveOverrides(w.overrides.table, e)
    && forall day ::
         var effective := EffectiveOf(w.versions, w.statuses, day);
         OnesOf(effective, w1.cardinality) == OnesOf(effective, w.cardinality)
  }

  lemma LocalCarried(w: World, w1: World, e: int)
    requires Local(w, w1) && e in w.people && SameLocalView(w, w1, e)
    ensures Carried(w, w1, e, w1.events)
  {
    assert AllRules(w1) == AllRules(w);
    forall day
      ensures ViewOf(w1, e, day) == ViewOf(w, e, day)
    {
    }
    forall key | Boundary(w1, e, key)
      ensures Boundary(w, e, key)
    {
      assert VersionBoundary(w1, key) <==> VersionBoundary(w, key);
      assert TenureBoundary(w1, e, key) <==> TenureBoundary(w, e, key);
    }
  }

  lemma LocalQueue(w: World, w1: World, at: int)
    requires Local(w, w1) && QueueSound(w, at) && Queued(w, at)
    ensures QueueSound(w1, at) && Queued(w1, at)
  {
    assert AllRules(w1) == AllRules(w);
    forall key
      ensures VersionBoundary(w1, key) <==> VersionBoundary(w, key)
    {
    }
    forall e, key | e in w.people
      ensures TenureBoundary(w1, e, key) <==> TenureBoundary(w, e, key)
    {
    }
  }

  lemma LocalStep(w: World, clock: int, w1: World, ids: set<int>, at: int)
    requires Inv(w, clock) && clock <= at && Local(w, w1) && Inputs(w1)
    requires forall e | e in w.people && e !in ids :: SameLocalView(w, w1, e)
    requires ReconcileAll(w1, ids, at).Some?
    ensures Inv(ReconcileAll(w1, ids, at).value, at)
  {
    LocalQueue(w, w1, at);
    forall e | e in w1.people
      ensures Clocked(HistoryOf(w1, e).rows, at)
      ensures e !in ids ==> Carried(w, w1, e, w1.events)
    {
      if e !in ids {
        LocalCarried(w, w1, e);
      }
    }
    StepKeepsWithoutEvents(w, clock, w1, ids, at);
  }

  lemma LocalWithoutReconciling(w: World, clock: int, w1: World, at: int)
    requires Inv(w, clock) && clock <= at && Local(w, w1) && Inputs(w1)
    requires forall e | e in w.people :: SameLocalView(w, w1, e)
    ensures Inv(w1, at)
  {
    LocalQueue(w, w1, at);
    forall e | e in w1.people
      ensures Clocked(HistoryOf(w1, e).rows, at) && Carried(w, w1, e, w1.events)
    {
      LocalCarried(w, w1, e);
    }
    CarriedAll(w, clock, w1, at);
  }

  // ----- groups, fields and overrides

  lemma NewFieldIsUnused(w: World, one: bool)
    requires Inputs(w)
    ensures var w1 := WithField(w, one);
            Inputs(w1) && forall e | e in w.people :: SameLocalView(w, w1, e)
  {
    var w1 := WithField(w, one);
    assert w.nextField !in w.cardinality;
    assert VersionsSound(w1);
    forall day
      ensures OnesOf(EffectiveOf(w.versions, w.statuses, day), w1.cardinality)
              == OnesOf(EffectiveOf(w.versions, w.statuses, day), w.cardinality)
    {
      OnesKept(w, EffectiveOf(w.versions, w.statuses, day), w1.cardinality);
    }
  }

  lemma OnesKept(w: World, effective: map<nat, Version<Rules>>, cardinality: map<int, bool>)
    requires forall i, v | i in effective && v in effective[i].payload.values :: v.0 in w.cardinality
    requires forall f | f in w.cardinality :: f in cardinality && cardinality[f] == w.cardinality[f]
    ensures OnesOf(effective, cardinality) == OnesOf(effective, w.cardinality)
  {
    forall f
      ensures f in OnesOf(effective, cardinality) <==> f in OnesOf(effective, w.cardinality)
    {
    }
  }

  lemma FieldKeeps(w: World, clock: int, one: bool, at: int)
    requires Inv(w, clock) && clock <= at
    ensures Inv(WithField(w, one), at)
  {
    NewFieldIsUnused(w, one);
    LocalWithoutReconciling(w, clock, WithField(w, one), at);
  }

  lemma GroupKeeps(w: World, clock: int, at: int)
    requires Inv(w, clock) && clock <= at
    ensures Inv(WithGroup(w), at)
  {
    LocalWithoutReconciling(w, clock, WithGroup(w), at);
  }

  lemma MembersAreLocal(w: World, members: set<(int, int)>, id: int)
    requires Inputs(w) && id in w.people
    requires forall m: (int, int) | m.1 != id :: m in members <==> m in w.members
    ensures Inputs(w.(members := members))
    ensures forall e | e in w.people && e != id :: SameLocalView(w, w.(members := members), e)
  {
    var w1 := w.(members := members);
    assert VersionsSound(w1);
    forall e | e in w.people && e != id
      ensures InheritedOf(w1.members, w1.attached, e) == InheritedOf(w.members, w.attached, e)
    {
    }
  }

  lemma MembersKeep(w: World, clock: int, members: set<(int, int)>, group: int, id: int, at: int)
    requires Inv(w, clock) && clock <= at
    requires forall m: (int, int) | m.1 != id :: m in members <==> m in w.members
    requires AfterMembers(w, members, group, id, at).Some?
    ensures Inv(AfterMembers(w, members, group, id, at).value, at)
  {
    if members == w.members {
      TimePasses(w, clock, at);
    } else {
      MembersAreLocal(w, members, id);
      LocalStep(w, clock, w.(members := members), {id}, at);
    }
  }

  lemma AttachmentsAreLocal(w: World, group: int, attached: set<(int, int)>)
    requires Inputs(w)
    requires forall link: (int, int) | link.0 != group :: link in attached <==> link in w.attached
    ensures Inputs(w.(attached := attached))
    ensures forall e | e in w.people && e !in MembersOf(w, group) :: SameLocalView(w, w.(attached := attached), e)
  {
    var w1 := w.(attached := attached);
    assert VersionsSound(w1);
    forall e | e in w.people && e !in MembersOf(w, group)
      ensures InheritedOf(w1.members, w1.attached, e) == InheritedOf(w.members, w.attached, e)
    {
      assert (group, e) !in w.members;
    }
  }

  lemma GroupPoliciesKeep(w: World, clock: int, group: int, added: set<int>, removed: set<int>, at: int)
    requires Inv(w, clock) && clock <= at
    requires AfterGroupPolicies(w, group, added, removed, at).Some?
    ensures Inv(AfterGroupPolicies(w, group, added, removed, at).value, at)
  {
    var detached := w.attached - (set p | p in removed :: (group, p));
    var attached := detached + (set p | p in added :: (group, p));
    if detached == w.attached && attached == detached {
      TimePasses(w, clock, at);
    } else {
      AttachmentsAreLocal(w, group, attached);
      LocalStep(w, clock, w.(attached := attached), MembersOf(w, group), at);
    }
  }

  lemma OverrideOthers(s: OverrideState, ones: set<int>, change: OverrideOp, e: int)
    requires Changed(s, ones, change).Ok? && e != OverrideEmployee(change)
    requires forall o | o in s.table :: o < s.nextId
    ensures ActiveOverrides(Changed(s, ones, change).value.table, e) == ActiveOverrides(s.table, e)
  {
    var after := Changed(s, ones, change).value;
    forall o
      ensures o in ActiveOverrides(after.table, e) <==> o in ActiveOverrides(s.table, e)
    {
      if o in ActiveOverrides(s.table, e) {
        assert o.id in after.table;
      }
      if o in ActiveOverrides(after.table, e) {
        assert o.id in s.table;
      }
    }
  }

  lemma OverridesAreLocal(w: World, change: OverrideOp)
    requires Inputs(w) && OverrideEmployee(change) in w.people && Changed(w.overrides, OneValued(w), change).Ok?
    ensures var w1 := w.(overrides := Changed(w.overrides, OneValued(w), change).value);
            Inputs(w1) && forall e | e in w.people && e != OverrideEmployee(change) :: SameLocalView(w, w1, e)
  {
    var w1 := w.(overrides := Changed(w.overrides, OneValued(w), change).value);
    assert VersionsSound(w1);
    forall e | e in w.people && e != OverrideEmployee(change)
      ensures SameLocalView(w, w1, e)
    {
      OverrideOthers(w.overrides, OneValued(w), change, e);
    }
  }

  lemma OverrideKeeps(w: World, clock: int, change: OverrideOp, at: int)
    requires Inv(w, clock) && clock <= at
    requires AfterOverride(w, change, at).Some?
    ensures Inv(AfterOverride(w, change, at).value, at)
  {
    var overrides := Changed(w.overrides, OneValued(w), change).value;
    if overrides == w.overrides {
      TimePasses(w, clock, at);
    } else {
      OverridesAreLocal(w, change);
      LocalStep(w, clock, w.(overrides := overrides), {OverrideEmployee(change)}, at);
    }
  }

  lemma RefreshKeeps(w: World, clock: int, id: int, at: int)
    requires Inv(w, clock) && clock <= at && ReconcileAll(w, {id}, at).Some?
    ensures Inv(ReconcileAll(w, {id}, at).value, at)
  {
    LocalStep(w, clock, w, {id}, at);
  }

  // ----- synchronizing schedules

  lemma {:induction false} WindowsOfMembers(versions: seq<Version<Rules>>, policy: int, n: nat, x: Window)
    requires n <= |versions|
    ensures x in WindowsOf(versions, policy, n) <==>
            exists i: nat :: i < n && versions[i].policy == policy && x == WindowOf(versions, i)
  {
    if n > 0 {
      WindowsOfMembers(versions, policy, n - 1, x);
    }
  }

  ghost predicate OfPolicy(w: World, key: EventKey, policy: int) {
    key.entity == PolicyVersionEntity && 1 <= key.id <= |w.versions| && w.versions[key.id - 1].policy == policy
  }

  /** The pending events of the policy become the desired ones that were not processed. */
  lemma SyncVersionsExact(w: World, policy: int, now: int)
    requires Sound(w.events)
    ensures var after, desired := SyncVersions(w, policy, now).events, DesiredOf(w, policy, now);
            && KeepsProcessed(w.events, after)
            && (forall key | key in desired :: OfPolicy(w, key, policy))
            && forall key :: key in PendingKeys(after) <==>
                             (key in PendingKeys(w.events) && !OfPolicy(w, key, policy))
                             || (key in desired && key !in ProcessedKeys(w.events))
  {
    var ids := set x | x in WindowsOf(w.versions, policy, |w.versions|) :: x.id;
    forall key: EventKey
      ensures key.id in ids && key.entity == PolicyVersionEntity <==> OfPolicy(w, key, policy)
    {
      PolicyIds(w.versions, policy, key.id);
    }
    DesiredOfPolicy(w, policy, now);
    SyncIsExact(w.events, PolicyVersionEntity, ids, DesiredOf(w, policy, now));
  }

  lemma DesiredOfPolicy(w: World, policy: int, now: int)
    ensures forall key | key in DesiredOf(w, policy, now) :: OfPolicy(w, key, policy)
  {
    forall key | key in DesiredOf(w, policy, now)
      ensures OfPolicy(w, key, policy)
    {
      DesiredVersionKeys(w.versions, policy, now, key);
    }
  }

  lemma SyncVersionsQueue(w: World, policy: int, now: int)
    requires Sound(w.events) && ProcessedBy(w.events, now)
    ensures var after := SyncVersions(w, policy, now).events;
            && (forall key | key in PendingKeys(after) :: key in PendingKeys(w.events) || OfPolicy(w, key, policy))
            && (forall key | key in PendingKeys(w.events) && !OfPolicy(w, key, policy) :: key in PendingKeys(after))
            && (forall i: nat, key | RowBoundary(w.versions, i, key) && w.versions[i].policy == policy
                                     && IsActive(w.statuses, policy) && key.at > now :: key in PendingKeys(after))
  {
    SyncVersionsExact(w, policy, now);
    forall i: nat, key | RowBoundary(w.versions, i, key) && w.versions[i].policy == policy
                         && IsActive(w.statuses, policy) && key.at > now
      ensures key in DesiredOf(w, policy, now)
    {
      DesiredVersionKeys(w.versions, policy, now, key);
    }
  }

  /** What is pending for the policy after its synchronization is a boundary. */
  lemma SyncVersionsJustified(w: World, policy: int, now: int, key: EventKey)
    requires Sound(w.events) && key in PendingKeys(SyncVersions(w, policy, now).events) && OfPolicy(w, key, policy)
    ensures VersionBoundary(w, key)
  {
    SyncVersionsExact(w, policy, now);
    DesiredVersionKeys(w.versions, policy, now, key);
  }

  function DesiredOf(w: World, policy: int, now: int): seq<EventKey> {
    if IsActive(w.statuses, policy) then VersionEvents(WindowsOf(w.versions, policy, |w.versions|), now) else []
  }

  ghost predicate PolicyBoundary(versions: seq<Version<Rules>>, policy: int, key: EventKey) {
    exists i: nat :: RowBoundary(versions, i, key) && versions[i].policy == policy
  }

  lemma PolicyIds(versions: seq<Version<Rules>>, policy: int, id: int)
    ensures (exists x :: x in WindowsOf(versions, policy, |versions|) && x.id == id)
            <==> 1 <= id <= |versions| && versions[id - 1].policy == policy
  {
    if x :| x in WindowsOf(versions, policy, |versions|) && x.id == id {
      WindowsOfMembers(versions, policy, |versions|, x);
    }
    if 1 <= id <= |versions| && versions[id - 1].policy == policy {
      WindowsOfMembers(versions, policy, |versions|, WindowOf(versions, id - 1));
    }
  }

  lemma DesiredVersionKeys(versions: seq<Version<Rules>>, policy: int, now: int, key: EventKey)
    ensures key in VersionEvents(WindowsOf(versions, policy, |versions|), now) <==>
            key.at > now && PolicyBoundary(versions, policy, key)
  {
    var windows := WindowsOf(versions, policy, |versions|);
    VersionEventsMembers(windows, now, key);
    if key in VersionEvents(windows, now) {
      var x :| x in windows && (key == StartKey(x) || (x.until.Some? && x.until.value < MAX_ORDINAL && key == EndKey(x)));
      WindowsOfMembers(versions, policy, |versions|, x);
      var i: nat :| i < |versions| && versions[i].policy == policy && x == WindowOf(versions, i);
      assert RowBoundary(versions, i, key);
    }
    if i: nat :| RowBoundary(versions, i, key) && versions[i].policy == policy {
      WindowsOfMembers(versions, policy, |versions|, WindowOf(versions, i));
    }
  }

  ghost predicate OfEmployee(key: EventKey, e: int) {
    key.entity == EmployeeEntity && key.id == e
  }

  lemma SyncTenureQueue(w: World, e: int, now: int)
    requires Sound(w.events) && e in w.people && SyncTenure(w, e, now).Some?
    requires ProcessedBy(w.events, now)
    ensures var w1 := SyncTenure(w, e, now).value;
            && w1 == w.(events := w1.events)
            && KeepsProcessed(w.events, w1.events)
            && (forall key | key in PendingKeys(w1.events) :: key in PendingKeys(w.events) || OfEmployee(key, e))
            && (forall key | key in PendingKeys(w.events) && !OfEmployee(key, e) :: key in PendingKeys(w1.events))
            && (forall key | TenureBoundary(w, e, key) && key.at > now :: key in PendingKeys(w1.events))
            && (forall key | key in PendingKeys(w1.events) && OfEmployee(key, e) :: TenureBoundary(w, e, key))
  {
    var start := w.people[e].startDate;
    var keys := TenureEvents(e, start, AllRules(w), now).value;
    forall key
      ensures key in keys <==> key.at > now && TenureBoundary(w, e, key)
    {
      TenureEventsMembers(e, start, AllRules(w), now, key);
    }
    SyncIsExact(w.events, EmployeeEntity, {e}, keys);
  }

  /** What synchronizing the employees below an identity has done to the queue. */
  ghost predicate TenureSynced(w: World, events: seq<Event>, below: int, now: int) {
    && KeepsProcessed(w.events, events)
    && (forall key | key in PendingKeys(events) ::
          key in PendingKeys(w.events) || (key.entity == EmployeeEntity && key.id in w.people))
    && (forall key | key in PendingKeys(w.events) && key.entity == PolicyVersionEntity :: key in PendingKeys(events))
    && (forall e, key | e in w.people && 0 <= e < below && TenureBoundary(w, e, key) && key.at > now ::
          key in PendingKeys(events))
    && (forall e, key | e in w.people && 0 <= e < below && OfEmployee(key, e) && key in PendingKeys(events) ::
          TenureBoundary(w, e, key))
  }

  lemma TenureStep(w: World, w1: World, e: int, now: int)
    requires w1 == w.(events := w1.events) && TenureSynced(w, w1.events, e, now)
    requires ProcessedBy(w.events, now) && e in w.people && SyncTenure(w1, e, now).Some?
    ensures var w2 := SyncTenure(w1, e, now).value;
            w2 == w.(events := w2.events) && TenureSynced(w, w2.events, e + 1, now)
  {
    SyncTenureQueue(w1, e, now);
    var events := SyncTenure(w1, e, now).value.events;
    forall x, key | x in w.people && 0 <= x < e + 1 && TenureBoundary(w, x, key) && key.at > now
      ensures key in PendingKeys(events)
    {
      if x == e {
        assert TenureBoundary(w1, e, key);
      } else {
        assert !OfEmployee(key, e);
      }
    }
    forall x, key | x in w.people && 0 <= x < e + 1 && OfEmployee(key, x) && key in PendingKeys(events)
      ensures TenureBoundary(w, x, key)
    {
      if x == e {
        assert TenureBoundary(w1, e, key);
      } else {
        assert !OfEmployee(key, e);
      }
    }
  }

  lemma NothingSynced(w: World, now: int)
    requires Sound(w.events)
    ensures TenureSynced(w, w.events, 0, now)
  {
  }

  lemma {:induction false} SyncAllTenureQueue(w: World, below: nat, now: int)
    requires Sound(w.events) && ProcessedBy(w.events, now) && SyncAllTenure(w, below, now).Some?
    ensures var w1 := SyncAllTenure(w, below, now).value;
            w1 == w.(events := w1.events) && TenureSynced(w, w1.events, below, now)
  {
    if below == 0 {
      NothingSynced(w, now);
    } else {
      SyncAllTenureQueue(w, below - 1, now);
      var w1 := SyncAllTenure(w, below - 1, now).value;
      if below - 1 in w.people {
        TenureStep(w, w1, below - 1, now);
      }
    }
  }

  /** Version rows of every other policy are as before. */
  ghost predicate OtherPoliciesKept(w: World, w1: World, policy: int) {
    && |w.versions| <= |w1.versions|
    && forall i: nat | i < |w1.versions| && w1.versions[i].policy != policy ::
         && i < |w.versions| && w1.versions[i] == w.versions[i]
         && IsActive(w1.statuses, w1.versions[i].policy) == IsActive(w.statuses, w.versions[i].policy)
  }

  /** Everything but policies and versions is as before. */
  ghost predicate PolicyChange(w: World, w1: World) {
    w1.people == w.people && w1.nextEmployee == w.nextEmployee && w1.events == w.events
    && w1.histories == w.histories && w1.links == w.links
  }

  lemma SyncedQueue(w: World, clock: int, w1: World, policy: int, syncAt: int, tenureAt: int, at: int)
    requires QueueSound(w, clock) && Queued(w, clock) && clock <= syncAt <= tenureAt <= at
    requires PolicyChange(w, w1) && Inputs(w1) && OtherPoliciesKept(w, w1, policy)
    requires SyncAllTenure(SyncVersions(w1, policy, syncAt), w1.nextEmployee, tenureAt).Some?
    ensures var w2 := SyncAllTenure(SyncVersions(w1, policy, syncAt), w1.nextEmployee, tenureAt).value;
            w2 == w1.(events := w2.events) && QueueSound(w2, at) && Queued(w2, at)
  {
    var ws := SyncVersions(w1, policy, syncAt);
    SyncVersionsExact(w1, policy, syncAt);
    SyncVersionsQueue(w1, policy, syncAt);
    SyncAllTenureQueue(ws, w1.nextEmployee, tenureAt);
    var w2 := SyncAllTenure(ws, w1.nextEmployee, tenureAt).value;
    StaysPunctual(w.events, w2.events, clock);
    assert AllRules(w2) == AllRules(ws);
    forall key | key in PendingKeys(w2.events)
      ensures Named(w2, key)
    {
      if key in PendingKeys(w.events) {
        assert Named(w, key);
      }
    }
    forall e, key | e in w2.people && TenureBoundary(w2, e, key) && key.at > at
      ensures key in PendingKeys(w2.events)
    {
      assert TenureBoundary(ws, e, key);
    }
    forall key | VersionBoundary(w2, key) && key.at > at
      ensures key in PendingKeys(w2.events)
    {
      VersionKeysStay(w, clock, w1, policy, syncAt, key);
    }
  }

  lemma VersionKeysStay(w: World, clock: int, w1: World, policy: int, syncAt: int, key: EventKey)
    requires Queued(w, clock) && clock <= syncAt && Sound(w1.events) && ProcessedBy(w1.events, syncAt)
    requires w1.events == w.events && OtherPoliciesKept(w, w1, policy)
    requires VersionBoundary(w1, key) && key.at > syncAt
    ensures key in PendingKeys(SyncVersions(w1, policy, syncAt).events) && key.entity == PolicyVersionEntity
  {
    SyncVersionsQueue(w1, policy, syncAt);
    var i: nat :| RowBoundary(w1.versions, i, key) && IsActive(w1.statuses, w1.versions[i].policy);
    if w1.versions[i].policy != policy {
      assert RowBoundary(w.versions, i, key);
      assert VersionBoundary(w, key);
      assert key.id == i + 1;
    }
  }

  lemma SyncAndRefreshKeeps(w: World, clock: int, w1: World, policy: int, syncAt: int, tenureAt: int, at: int)
    requires Inv(w, clock) && clock <= syncAt <= tenureAt <= at
    requires PolicyChange(w, w1) && Inputs(w1) && OtherPoliciesKept(w, w1, policy)
    requires SyncAndRefresh(w1, policy, syncAt, tenureAt, at).Some?
    ensures Inv(SyncAndRefresh(w1, policy, syncAt, tenureAt, at).value, at)
  {
    SyncedQueue(w, clock, w1, policy, syncAt, tenureAt, at);
    var w2 := SyncAllTenure(SyncVersions(w1, policy, syncAt), w1.nextEmployee, tenureAt).value;
    assert w2 == w1.(histories := w1.histories, links := w1.links, events := w2.events);
    RefreshEverybody(w, clock, w2, at);
  }

  lemma RefreshEverybody(w: World, clock: int, w2: World, at: int)
    requires TablesSound(w, clock) && clock <= at
    requires w2.people == w.people && w2.histories == w.histories
    requires Inputs(w2) && QueueSound(w2, at) && Queued(w2, at)
    requires ReconcileAll(w2, w2.people.Keys, at).Some?
    ensures Inv(ReconcileAll(w2, w2.people.Keys, at).value, at)
  {
    forall e | e in w2.people
      ensures Clocked(HistoryOf(w2, e).rows, at)
    {
    }
    ReconcileEverybody(w2, at);
  }

  // ----- policies and versions

  lemma StoredVersionsSound(w: World, policy: int, input: VersionInput)
    requires VersionsSound(w) && policy in w.statuses && Stored(w, policy, input).Some?
    ensures VersionsSound(Stored(w, policy, input).value)
    ensures OtherPoliciesKept(w, Stored(w, policy, input).value, policy)
  {
    var d := DraftOf(policy, input);
    var after := Stored(w, policy, input).value.versions;
    CreateKeepsTimeline(w.versions, d);
    assert forall i | 0 <= i < |w.versions| :: after[i].policy == w.versions[i].policy && after[i].payload == w.versions[i].payload;
    assert after[|w.versions|].payload == d.payload;
    DnfConditions(input.tree, Typed);
    forall i, c | 0 <= i < |after| && Occurs(c, after[i].payload.clauses)
      ensures Typed(c)
    {
      if i < |w.versions| {
        assert Occurs(c, w.versions[i].payload.clauses);
      }
    }
  }

  lemma StoredInputs(w: World, policy: int, input: VersionInput)
    requires Inputs(w) && policy in w.statuses && Stored(w, policy, input).Some?
    ensures Inputs(Stored(w, policy, input).value)
    ensures OtherPoliciesKept(w, Stored(w, policy, input).value, policy)
  {
    StoredVersionsSound(w, policy, input);
  }

  lemma AddVersionKeeps(w: World, clock: int, policy: int, input: VersionInput, syncAt: int, tenureAt: int, at: int)
    requires Inv(w, clock) && clock <= syncAt <= tenureAt <= at
    requires AfterAddVersion(w, policy, input, syncAt, tenureAt, at).Some?
    ensures Inv(AfterAddVersion(w, policy, input, syncAt, tenureAt, at).value, at)
  {
    StoredInputs(w, policy, input);
    SyncAndRefreshKeeps(w, clock, Stored(w, policy, input).value, policy, syncAt, tenureAt, at);
  }

  lemma StatusInputs(w: World, policy: int, status: PolicyStatus, nextPolicy: int)
    requires Inputs(w) && policy < nextPolicy && w.nextPolicy <= nextPolicy
    ensures Inputs(w.(statuses := w.statuses[policy := status], nextPolicy := nextPolicy))
    ensures OtherPoliciesKept(w, w.(statuses := w.statuses[policy := status], nextPolicy := nextPolicy), policy)
  {
    assert VersionsSound(w.(statuses := w.statuses[policy := status], nextPolicy := nextPolicy));
  }

  lemma SetStatusKeeps(w: World, clock: int, policy: int, status: PolicyStatus, syncAt: int, tenureAt: int, at: int)
    requires Inv(w, clock) && clock <= syncAt <= tenureAt <= at
    requires AfterSetStatus(w, policy, status, syncAt, tenureAt, at).Some?
    ensures Inv(AfterSetStatus(w, policy, status, syncAt, tenureAt, at).value, at)
  {
    if w.statuses[policy] == status {
      TimePasses(w, clock, at);
    } else {
      var w1 := w.(statuses := w.statuses[policy := status]);
      StatusInputs(w, policy, status, w.nextPolicy);
      assert w1 == w.(statuses := w.statuses[policy := status], nextPolicy := w.nextPolicy);
      SyncAndRefreshKeeps(w, clock, w1, policy, syncAt, tenureAt, at);
    }
  }

  lemma CreatePolicyKeeps(w: World, clock: int, status: PolicyStatus, input: VersionInput, syncAt: int, tenureAt: int, at: int)
    requires Inv(w, clock) && clock <= syncAt <= tenureAt <= at
    requires AfterCreatePolicy(w, status, input, syncAt, tenureAt, at).Some?
    ensures Inv(AfterCreatePolicy(w, status, input, syncAt, tenureAt, at).value, at)
  {
    StoredNewPolicy(w, status, input);
    SyncAndRefreshKeeps(w, clock, Stored(WithPolicy(w, status), w.nextPolicy, input).value, w.nextPolicy, syncAt, tenureAt, at);
  }

  lemma StoredNewPolicy(w: World, status: PolicyStatus, input: VersionInput)
    requires Inputs(w) && Stored(WithPolicy(w, status), w.nextPolicy, input).Some?
    ensures var w1 := Stored(WithPolicy(w, status), w.nextPolicy, input).value;
            PolicyChange(w, w1) && Inputs(w1) && OtherPoliciesKept(w, w1, w.nextPolicy)
  {
    var w0 := WithPolicy(w, status);
    StatusInputs(w, w.nextPolicy, status, w.nextPolicy + 1);
    StoredInputs(w0, w.nextPolicy, input);
  }
}
