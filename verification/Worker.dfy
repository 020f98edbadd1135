/** The services on the databases that runs reach: what they load exists, and the worker catches up. */
module Worker {
  import opened Calendar
  import opened Resolution
  import opened Matching
  import opened Schedule
  import opened Engine
  import opened Batches
  import opened Freshness
  import opened Theorems
  import opened Failures
  import opened Cardinality
  import opened Services

  // ----- the queries of the services

  lemma {:induction false} FirstRow(all: set<Candidate>) returns (first: Candidate)
    requires all != {}
    ensures first in all
    ensures forall c | c in all :: first.field < c.field || (first.field == c.field && Outranks(first, c))
  {
    var c :| c in all;
    if all == {c} {
      first := c;
    } else {
      var rest := FirstRow(all - {c});
      first := if rest.field < c.field || (rest.field == c.field && Outranks(rest, c)) then rest else c;
      assert forall d | d in all :: d == c || d in all - {c};
    }
  }

  lemma {:induction false} OrderedRows(all: set<Candidate>) returns (rows: seq<Candidate>)
    ensures InOrder(rows) && Members(rows) == all
  {
    if all == {} {
      rows := [];
    } else {
      var first := FirstRow(all);
      var rest := OrderedRows(all - {first});
      rows := [first] + rest;
      assert forall i | 0 <= i < |rest| :: rest[i] in Members(rest);
      MembersConcat([first], rest);
      assert Members([first]) == {first};
    }
  }

  lemma {:induction false} ListedOverrides(all: set<Override>) returns (list: seq<Override>)
    ensures NoDuplicates(list) && OverrideSet(list) == all
  {
    if all == {} {
      list := [];
    } else {
      var o :| o in all;
      var rest := ListedOverrides(all - {o});
      list := [o] + rest;
      assert forall i | 0 <= i < |rest| :: rest[i] in OverrideSet(rest);
      assert OverrideSet(list) == {o} + OverrideSet(rest);
    }
  }

  lemma LoadOne(view: View)
    requires !TwoEffective(view) && OverridesKept(view.overrides, view.ones)
    ensures exists l :: Loads(l, view)
  {
    var rows := OrderedRows(Candidates(view));
    var list := ListedOverrides(view.overrides);
    assert Loads(Loaded(view, rows, list), view);
  }

  /** After every run the services find what they need: one effective version per policy and validated overrides. */
  lemma ServicesCanLoad(ops: seq<Op>, day: int)
    requires RunTimed(ops)
    ensures exists loaded :: LoadsAll(Engine.Run(ops), loaded, day)
  {
    var w := Engine.Run(ops);
    AlwaysValidated(ops);
    forall e | e in w.people
      ensures exists l :: Loads(l, ViewOf(w, e, day))
    {
      RaisesExactly(ops, e, day);
      LoadOne(ViewOf(w, e, day));
    }
    var loaded := map e | e in w.people :: var l :| Loads(l, ViewOf(w, e, day)); l;
    assert LoadsAll(w, loaded, day);
  }

  // ----- progress

  /** Nothing is due and everybody is fresh. */
  ghost predicate CaughtUp(w: World, now: int) {
    && (forall key | key in PendingKeys(w.events) :: key.at > now)
    && forall e | e in w.people :: FreshToday(w, e, DayOf(now))
  }

  function Repeated(op: Op, n: nat): seq<Op> {
    seq(n, i => op)
  }

  ghost predicate NobodyRaises(w: World, day: int) {
    forall e | e in w.people :: !Unresolvable(w, e, day)
  }

  lemma BatchSucceeds(ops: seq<Op>, limit: nat, now: int)
    requires RunTimed(ops) && ClockAfter(ops) <= now && limit > 0 && NobodyRaises(Engine.Run(ops), DayOf(now))
    ensures AfterBatch(Engine.Run(ops), limit, now).Some?
  {
    BatchFailsExactly(ops, limit, now);
  }

  /** A batch leaves people and views alone, and when something is due it shortens the queue. */
  lemma BatchAdvances(w: World, limit: nat, now: int)
    requires Inputs(w) && limit > 0 && AfterBatch(w, limit, now).Some? && NobodyRaises(w, DayOf(now))
    ensures var after := AfterBatch(w, limit, now).value;
            && NobodyRaises(after, DayOf(now))
            && after.people == w.people
            && (SomethingDue(w, now) ==> PendingCount(after.events) < PendingCount(w.events))
  {
    var batch := Due(w.events, now, limit);
    var after := AfterBatch(w, limit, now).value;
    PlanOnlyTables(w, PlanOf(w, batch), now);
    assert VersionsSound(after);
    forall e | e in w.people
      ensures !Unresolvable(after, e, DayOf(now))
    {
      assert ViewOf(after, e, DayOf(now)) == ViewOf(w, e, DayOf(now));
      ResolutionRaisesExactly(w, e, DayOf(now));
      ResolutionRaisesExactly(after, e, DayOf(now));
    }
    BatchIsEarliest(w.events, now, limit);
    if batch != [] {
      MarkedTogether(w.events, batch, now);
    }
  }

  lemma CaughtUpAlready(ops: seq<Op>, now: int)
    requires RunTimed(ops) && ClockAfter(ops) <= now && DayOf(now) <= MAX_ORDINAL
    requires forall i | 0 <= i < |Engine.Run(ops).events| :: !IsDue(Engine.Run(ops).events[i], now)
    ensures CaughtUp(Engine.Run(ops), now)
  {
    var w := Engine.Run(ops);
    forall key | key in PendingKeys(w.events)
      ensures key.at > now
    {
      var event :| event in w.events && event.status == Pending && event.key == key;
    }
    forall e | e in w.people
      ensures FreshToday(w, e, DayOf(now))
    {
      AlwaysFresh(ops, now, e);
    }
  }

  /** The worker may start at `now`, and nobody is unresolvable on that date. */
  ghost predicate Ready(ops: seq<Op>, now: int) {
    && RunTimed(ops) && ClockAfter(ops) <= now && DayOf(now) <= MAX_ORDINAL
    && NobodyRaises(Engine.Run(ops), DayOf(now))
  }

  ghost predicate SomethingDue(w: World, now: int) {
    exists i :: 0 <= i < |w.events| && IsDue(w.events[i], now)
  }

  lemma RunOneMore(ops: seq<Op>, op: Op)
    requires RunTimed(ops) && Timed(ClockAfter(ops), op)
    ensures RunTimed(ops + [op]) && Engine.Run(ops + [op]) == Step(Engine.Run(ops), op)
  {
    LastStep(ops, [op]);
    assert ops + [op][..0] == ops;
  }

  lemma OneBatch(ops: seq<Op>, limit: nat, now: int)
    requires Ready(ops, now) && limit > 0 && SomethingDue(Engine.Run(ops), now)
    ensures var later := ops + [WorkBatch(limit, now)];
            && Ready(later, now)
            && Engine.Run(later).people == Engine.Run(ops).people
            && PendingCount(Engine.Run(later).events) < PendingCount(Engine.Run(ops).events)
  {
    BatchSucceeds(ops, limit, now);
    RunKeeps(ops);
    RunOneMore(ops, WorkBatch(limit, now));
    BatchAdvances(Engine.Run(ops), limit, now);
  }

  lemma RepeatedOnce(ops: seq<Op>, op: Op, n: nat)
    ensures ops + Repeated(op, 0) == ops && ops + Repeated(op, n + 1) == ops + [op] + Repeated(op, n)
  {
    assert Repeated(op, n + 1) == [op] + Repeated(op, n);
  }

  /**
   * Progress: from every reachable database in which nobody is unresolvable on the date
   * of `now`, at most as many batches as there are pending events leave nothing due and
   * everybody fresh.
   */
  lemma {:induction false} WorkerCatchesUp(ops: seq<Op>, limit: nat, now: int) returns (n: nat)
    requires Ready(ops, now) && limit > 0
    ensures n <= PendingCount(Engine.Run(ops).events)
    ensures var later := ops + Repeated(WorkBatch(limit, now), n);
            RunTimed(later) && Engine.Run(later).people == Engine.Run(ops).people && CaughtUp(Engine.Run(later), now)
    decreases PendingCount(Engine.Run(ops).events)
  {
    if SomethingDue(Engine.Run(ops), now) {
      OneBatch(ops, limit, now);
      var m := WorkerCatchesUp(ops + [WorkBatch(limit, now)], limit, now);
      RepeatedOnce(ops, WorkBatch(limit, now), m);
      n := m + 1;
    } else {
      n := 0;
      RepeatedOnce(ops, WorkBatch(limit, now), 0);
      CaughtUpAlready(ops, now);
    }
  }
}
