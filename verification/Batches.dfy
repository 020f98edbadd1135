/** The worker batch reconciles everybody it names once, and keeps the invariant of freshness. */
module Batches {
  import opened Calendar
  import opened Reconciliation
  import opened Schedule
  import opened Engine
  import opened Freshness
  import opened Runs
  import opened EmployeeRuns

  // ----- reconciling twice at one instant

  lemma RefreshedTwice(w: World, first: set<int>, at: int, e: int)
    requires ReconcileAll(w, first, at).Some? && e in w.people && Clocked(HistoryOf(w, e).rows, at)
    ensures var w1 := ReconcileAll(w, first, at).value;
            Refreshed(w1, e, at) == Refreshed(w, e, at) && Resolve(w1, e, DayOf(at)) == Resolve(w, e, DayOf(at))
  {
    var w1 := ReconcileAll(w, first, at).value;
    ReconciledEmployee(w, first, at, e);
    assert ViewOf(w1, e, DayOf(at)) == ViewOf(w, e, DayOf(at));
    if e in first {
      var desired := Resolve(w, e, DayOf(at)).desired;
      ReconcileKeepsClock(HistoryOf(w, e), at, desired);
      NoChurn(HistoryOf(w1, e), at, desired);
    }
  }

  /** `w1` is `w` after the employees of `first` were reconciled, and would be reconciled as `w`. */
  ghost predicate HalfDone(w: World, w1: World, first: set<int>, at: int) {
    && w1 == w.(histories := w1.histories, links := w1.links)
    && forall e | e in w.people ::
         && Refreshed(w1, e, at) == Refreshed(w, e, at)
         && Resolve(w1, e, DayOf(at)) == Resolve(w, e, DayOf(at))
         && (e in first ==> Refreshed(w, e, at).Some? && HistoryOf(w1, e) == Refreshed(w, e, at).value
                            && LinksOf(w1, e) == Resolve(w, e, DayOf(at)).policies)
         && (e !in first ==> HistoryOf(w1, e) == HistoryOf(w, e) && LinksOf(w1, e) == LinksOf(w, e))
  }

  lemma FirstHalf(w: World, first: set<int>, at: int)
    requires ReconcileAll(w, first, at).Some?
    requires forall e | e in w.people :: Clocked(HistoryOf(w, e).rows, at)
    ensures HalfDone(w, ReconcileAll(w, first, at).value, first, at)
  {
    forall e | e in w.people
      ensures var w1 := ReconcileAll(w, first, at).value;
              Refreshed(w1, e, at) == Refreshed(w, e, at) && Resolve(w1, e, DayOf(at)) == Resolve(w, e, DayOf(at))
    {
      RefreshedTwice(w, first, at, e);
    }
  }

  lemma SameHistory(w: World, w1: World, first: set<int>, second: set<int>, at: int, e: int)
    requires HalfDone(w, w1, first, at) && e in w.people
    requires ReconcileAll(w1, second, at).Some? && ReconcileAll(w, first + second, at).Some?
    ensures var a, b := ReconcileAll(w1, second, at).value, ReconcileAll(w, first + second, at).value;
            HistoryOf(a, e) == HistoryOf(b, e) && LinksOf(a, e) == LinksOf(b, e)
  {
    if e in second {
      assert e in first + second;
    }
  }

  lemma SameResult(w: World, w1: World, first: set<int>, second: set<int>, at: int)
    requires HalfDone(w, w1, first, at)
    requires ReconcileAll(w1, second, at).Some? && ReconcileAll(w, first + second, at).Some?
    ensures ReconcileAll(w1, second, at).value == ReconcileAll(w, first + second, at).value
  {
    var a, b := ReconcileAll(w1, second, at).value, ReconcileAll(w, first + second, at).value;
    assert a.histories.Keys == w.people.Keys == b.histories.Keys;
    assert a.links.Keys == w.people.Keys == b.links.Keys;
    forall e | e in w.people
      ensures a.histories[e] == b.histories[e] && a.links[e] == b.links[e]
    {
      SameHistory(w, w1, first, second, at, e);
    }
    assert a.histories == b.histories && a.links == b.links;
  }

  /** A second batch at the same instant only adds employees: nothing is reconciled differently. */
  lemma ReconcileTwice(w: World, first: set<int>, second: set<int>, at: int)
    requires ReconcileAll(w, first, at).Some?
    requires forall e | e in w.people :: Clocked(HistoryOf(w, e).rows, at)
    ensures ReconcileAll(ReconcileAll(w, first, at).value, second, at) == ReconcileAll(w, first + second, at)
  {
    var w1 := ReconcileAll(w, first, at).value;
    FirstHalf(w, first, at);
    if ReconcileAll(w1, second, at).Some? {
      SameResult(w, w1, first, second, at);
    }
  }

  lemma {:induction false} PlanOnlyTables(w: World, plan: seq<set<int>>, at: int)
    requires ReconcileMany(w, plan, at).Some?
    ensures var after := ReconcileMany(w, plan, at).value;
            after == w.(histories := after.histories, links := after.links)
  {
    if plan != [] {
      PlanOnlyTables(w, plan[..|plan| - 1], at);
    }
  }

  function UnionOf(plan: seq<set<int>>): set<int> {
    if plan == [] then {} else UnionOf(plan[..|plan| - 1]) + plan[|plan| - 1]
  }

  /** Several batches at one instant amount to one reconciliation of everybody they name. */
  lemma {:induction false} ReconcileManyIsOne(w: World, plan: seq<set<int>>, at: int)
    requires plan != []
    requires forall e | e in w.people :: Clocked(HistoryOf(w, e).rows, at)
    ensures ReconcileMany(w, plan, at) == ReconcileAll(w, UnionOf(plan), at)
  {
    var init, last := plan[..|plan| - 1], plan[|plan| - 1];
    if init == [] {
      assert UnionOf(init) + last == last;
    } else {
      ReconcileManyIsOne(w, init, at);
      if ReconcileAll(w, UnionOf(init), at).Some? {
        ReconcileTwice(w, UnionOf(init), last, at);
      }
    }
  }

  lemma {:induction false} UnionOfMembers(plan: seq<set<int>>, e: int)
    ensures e in UnionOf(plan) <==> exists i :: 0 <= i < |plan| && e in plan[i]
  {
    if plan != [] {
      UnionOfMembers(plan[..|plan| - 1], e);
    }
  }

  lemma {:induction false} SinglesMembers(ids: set<int>, below: nat, s: set<int>)
    ensures s in Singles(ids, below) <==> exists e :: e in ids && 0 <= e < below && s == {e}
  {
    if below > 0 {
      SinglesMembers(ids, below - 1, s);
    }
  }

  /** Everybody when the batch names a policy version, and otherwise the employees it names. */
  lemma PlanMembers(w: World, batch: seq<nat>, e: int)
    requires e in w.people && 0 <= e < w.nextEmployee
    ensures e in UnionOf(PlanOf(w, batch)) <==> BatchPolicies(w, batch) != {} || e in BatchEmployees(w, batch)
  {
    var plan, all := PlanOf(w, batch), |BatchPolicies(w, batch)|;
    var singles := Singles(BatchEmployees(w, batch), w.nextEmployee);
    UnionOfMembers(plan, e);
    assert all > 0 ==> plan[0] == w.people.Keys;
    assert forall i | 0 <= i < |singles| :: plan[all + i] == singles[i];
    if e in BatchEmployees(w, batch) {
      SinglesMembers(BatchEmployees(w, batch), w.nextEmployee, {e});
      var i :| 0 <= i < |singles| && singles[i] == {e};
      assert e in plan[all + i];
    }
    if i :| 0 <= i < |plan| && e in plan[i] {
      if i >= all {
        SinglesMembers(BatchEmployees(w, batch), w.nextEmployee, plan[i]);
      }
    }
  }

  // ----- the worker batch

  lemma BatchQueue(w: World, clock: int, limit: nat, at: int)
    requires QueueSound(w, clock) && Queued(w, clock) && clock <= at
    ensures var w1 := w.(events := Marked(w.events, Due(w.events, at, limit), at));
            QueueSound(w1, at) && Queued(w1, at)
  {
    var batch := Due(w.events, at, limit);
    BatchIsEarliest(w.events, at, limit);
    MarkedKeys(w.events, batch, at);
    MarkedIsPunctual(w.events, clock, at, limit);
    var w1 := w.(events := Marked(w.events, batch, at));
    assert AllRules(w1) == AllRules(w);
    forall key | key in PendingKeys(w1.events)
      ensures Named(w1, key)
    {
      assert Named(w, key);
    }
    forall key | VersionBoundary(w1, key) && key.at > at
      ensures key in PendingKeys(w1.events)
    {
      assert VersionBoundary(w, key);
    }
    forall e, key | e in w1.people && TenureBoundary(w1, e, key) && key.at > at
      ensures key in PendingKeys(w1.events)
    {
      assert TenureBoundary(w, e, key);
    }
  }

  /** An event of the batch either names a policy version, or an employee of the batch. */
  lemma BatchEvents(w: World, batch: seq<nat>, i: nat)
    requires i in batch && i < |w.events|
    requires w.events[i].key.entity == PolicyVersionEntity ==> 1 <= w.events[i].key.id <= |w.versions|
    ensures match w.events[i].key.entity
            case PolicyVersionEntity => w.versions[w.events[i].key.id - 1].policy in BatchPolicies(w, batch)
            case EmployeeEntity => w.events[i].key.id in BatchEmployees(w, batch)
  {
  }

  lemma OutsideBatch(w: World, limit: nat, at: int, e: int)
    requires Inputs(w) && Sound(w.events) && AfterBatch(w, limit, at).Some? && e in w.people
    requires e !in UnionOf(PlanOf(w, Due(w.events, at, limit)))
    ensures Carried(w, w, e, Marked(w.events, Due(w.events, at, limit), at))
  {
    var batch := Due(w.events, at, limit);
    BatchIsEarliest(w.events, at, limit);
    MarkedKeys(w.events, batch, at);
    PlanMembers(w, batch, e);
    forall key | Boundary(w, e, key) && key in PendingKeys(w.events)
      ensures key in PendingKeys(Marked(w.events, batch, at))
    {
      BoundaryEntity(w, e, key);
      if i :| i in batch && w.events[i].key == key {
        BatchEvents(w, batch, i);
        assert false;
      }
    }
  }

  lemma BatchKeeps(w: World, clock: int, limit: nat, at: int)
    requires Inv(w, clock) && clock <= at && AfterBatch(w, limit, at).Some?
    ensures Inv(AfterBatch(w, limit, at).value, at)
  {
    var batch := Due(w.events, at, limit);
    var plan := PlanOf(w, batch);
    if plan == [] {
      EmptyBatch(w, limit, at);
      assert w.(events := w.events) == w;
      TimePasses(w, clock, at);
    } else {
      forall e | e in w.people
        ensures Clocked(HistoryOf(w, e).rows, at)
        ensures e in UnionOf(plan) || Carried(w, w, e, Marked(w.events, batch, at))
      {
        if e !in UnionOf(plan) {
          OutsideBatch(w, limit, at, e);
        }
      }
      ReconcileManyIsOne(w, plan, at);
      BatchQueue(w, clock, limit, at);
      StepKeeps(w, clock, w, UnionOf(plan), at, Marked(w.events, batch, at));
    }
  }

  lemma EmptyBatch(w: World, limit: nat, at: int)
    requires Inputs(w) && AfterBatch(w, limit, at).Some?
    requires PlanOf(w, Due(w.events, at, limit)) == []
    ensures Marked(w.events, Due(w.events, at, limit), at) == w.events
  {
    var batch := Due(w.events, at, limit);
    BatchIsEarliest(w.events, at, limit);
    if batch != [] {
      var i := batch[0];
      assert i in batch;
      BatchEvents(w, batch, i);
      if w.events[i].key.entity == EmployeeEntity {
        SinglesMembers(BatchEmployees(w, batch), w.nextEmployee, {w.events[i].key.id});
      }
      assert false;
    }
  }
}
