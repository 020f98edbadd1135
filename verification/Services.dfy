/** The reconciliation services as the program runs them, against the state machine. */
module Services {
  import opened Common
  import opened Calendar
  import opened Reconciliation
  import opened Resolution
  import opened Matching
  import opened Schedule
  import opened Engine
  import opened Batches

  // ----- resolving one employee for a date

  /** What the queries return for one employee: candidate rows and overrides in some allowed order. */
  datatype Loaded = Loaded(view: View, rows: seq<Candidate>, overrides: seq<Override>)

  ghost predicate Loads(l: Loaded, view: View) {
    && l.view == view && !TwoEffective(view)
    && InOrder(l.rows) && Members(l.rows) == Candidates(view)
    && NoDuplicates(l.overrides) && OverrideSet(l.overrides) == view.overrides
    && OverridesKept(view.overrides, view.ones)
  }

  datatype ResolutionError = Evaluation(calendar: EvaluationError) | Conflict(conflict: ConflictError)

  function ExplainFinal(view: View, resolved: seq<Resolved>, f: Final): Json {
    match f.source
    case FromVersion(id) => ExplainVersion(view, id - 1, f.field, f.value)
    case FromOverride(id) => OverrideJson(view.on, id, ReplacedJson(SetOf(resolved), f.field))
  }

  /** Matching, resolution, overrides and explanations compute the outcome of the view. */
  method ResolveForDate(l: Loaded) returns (r: Result<(set<int>, seq<Assignment>), ResolutionError>)
    requires Loads(l, l.view)
    ensures match OutcomeOf(l.view)
            case Raised => r.Err?
            case Assigned(policies, desired) => r == Ok((policies, desired))
  {
    var matches := FindPolicyMatches(l.view);
    if matches.Err? {
      return Err(Evaluation(matches.error));
    }
    var resolved := ResolveCandidates(l.rows, l.view.ones);
    if resolved.Err? {
      return Err(Conflict(resolved.error));
    }
    var finals := ApplyOverrides(resolved.value, l.overrides);
    ApplyOverridesIsSortedList(resolved.value, l.overrides, l.view.ones);
    var desired := ExplainAll(l.view, resolved.value, finals);
    AllExplained(l.view, resolved.value, finals, desired);
    return Ok((matches.value.Keys, desired));
  }

  method ExplainAll(view: View, resolved: seq<Resolved>, finals: seq<Final>) returns (desired: seq<Assignment>)
    ensures |desired| == |finals|
    ensures forall k | 0 <= k < |finals| ::
              desired[k] == Assignment(finals[k].field, finals[k].value, finals[k].source, ExplainFinal(view, resolved, finals[k]))
  {
    desired := [];
    for i := 0 to |finals|
      invariant |desired| == i
      invariant forall k | 0 <= k < i ::
                  desired[k] == Assignment(finals[k].field, finals[k].value, finals[k].source, ExplainFinal(view, resolved, finals[k]))
    {
      var f := finals[i];
      desired := desired + [Assignment(f.field, f.value, f.source, ExplainFinal(view, resolved, f))];
    }
  }

  lemma AllExplained(view: View, resolved: seq<Resolved>, finals: seq<Final>, desired: seq<Assignment>)
    requires SetOf(resolved) == Selection(Candidates(view), view.ones) && finals == SortedList(Finals(view))
    requires |desired| == |finals|
    requires forall k | 0 <= k < |finals| ::
               desired[k] == Assignment(finals[k].field, finals[k].value, finals[k].source, ExplainFinal(view, resolved, finals[k]))
    ensures desired == DesiredList(view)
  {
    forall k | 0 <= k < |finals|
      ensures desired[k] == DesiredList(view)[k]
    {
      assert ExplainFinal(view, resolved, finals[k]) == Explain(view, finals[k]);
    }
  }

  // ----- reconciling a batch of employees

  ghost predicate LoadsAll(w: World, loaded: map<int, Loaded>, day: int) {
    && loaded.Keys == w.people.Keys
    && forall e | e in w.people :: Loads(loaded[e], ViewOf(w, e, day))
  }

  ghost predicate AllLoaded(loaded: map<int, Loaded>) {
    forall e | e in loaded :: Loads(loaded[e], loaded[e].view)
  }

  ghost predicate ReadsViews(w: World, loaded: map<int, Loaded>, day: int) {
    loaded.Keys == w.people.Keys && forall e | e in w.people :: loaded[e].view == ViewOf(w, e, day)
  }

  lemma LoadedAll(w: World, loaded: map<int, Loaded>, day: int)
    requires LoadsAll(w, loaded, day)
    ensures AllLoaded(loaded) && ReadsViews(w, loaded, day)
  {
  }

  /** All resolutions come first: one that raises stops the batch before anything is written. */
  method ResolveAll(loaded: map<int, Loaded>, ids: set<int>) returns (r: Option<map<int, (set<int>, seq<Assignment>)>>)
    requires AllLoaded(loaded)
    ensures r.None? <==> exists e :: e in ids && e in loaded && OutcomeOf(loaded[e].view).Raised?
    ensures r.Some? ==> r.value.Keys == ids * loaded.Keys
    ensures r.Some? ==> forall e | e in r.value :: OutcomeOf(loaded[e].view) == Assigned(r.value[e].0, r.value[e].1)
  {
    var resolutions: map<int, (set<int>, seq<Assignment>)> := map[];
    var left := ids * loaded.Keys;
    while left != {}
      invariant left <= ids * loaded.Keys && resolutions.Keys == ids * loaded.Keys - left
      invariant forall e | e in resolutions :: OutcomeOf(loaded[e].view) == Assigned(resolutions[e].0, resolutions[e].1)
      decreases left
    {
      var e := AnyOf(left);
      var r := ResolveForDate(loaded[e]);
      if r.Err? {
        return None;
      }
      resolutions := resolutions[e := r.value];
      left := left - {e};
    }
    return Some(resolutions);
  }

  /** One employee's rows, updated in place; a rejected instant changes nothing. */
  method RefreshHistory(h: History, at: int, desired: seq<Assignment>) returns (r: Option<History>)
    ensures r == (match Reconcile(h, at, desired) case Ok(after) => Some(after) case Err(_) => None)
  {
    var table := new AssignmentTable();
    table.rows, table.audit := h.rows, h.audit;
    var outcome := table.Refresh(at, desired);
    if outcome.Err? {
      return None;
    }
    return Some(History(table.rows, table.audit));
  }

  function HistoryIn(histories: map<int, History>, e: int): History {
    if e in histories then histories[e] else History([], [])
  }

  function LinksIn(links: map<int, set<int>>, e: int): set<int> {
    if e in links then links[e] else {}
  }

  ghost predicate Agrees(w: World, histories: map<int, History>, links: map<int, set<int>>) {
    forall e | e in w.people :: HistoryIn(histories, e) == HistoryOf(w, e) && LinksIn(links, e) == LinksOf(w, e)
  }

  /** The rows and links of one employee after its reconciliation. */
  ghost predicate Done(w: World, e: int, at: int, h: History, policies: set<int>)
    requires e in w.people
  {
    Refreshed(w, e, at) == Some(h) && Resolve(w, e, DayOf(at)).Assigned? && policies == Resolve(w, e, DayOf(at)).policies
  }

  /** Where a batch stands: the employees of `done` are reconciled, all others are as in `w`. */
  ghost predicate Halfway(w: World, done: set<int>, at: int, histories: map<int, History>, links: map<int, set<int>>) {
    && (forall e | e in w.people && e in done :: Done(w, e, at, HistoryIn(histories, e), LinksIn(links, e)))
    && forall e | e in w.people && e !in done :: HistoryIn(histories, e) == HistoryOf(w, e) && LinksIn(links, e) == LinksOf(w, e)
  }

  lemma OneMore(w: World, done: set<int>, at: int, histories: map<int, History>, links: map<int, set<int>>,
                e: int, h: History, policies: set<int>)
    requires Halfway(w, done, at, histories, links) && e in w.people && Done(w, e, at, h, policies)
    ensures Halfway(w, done + {e}, at, histories[e := h], links[e := policies])
  {
    var h2, l2 := histories[e := h], links[e := policies];
    forall x | x in w.people && x in done + {e}
      ensures Done(w, x, at, HistoryIn(h2, x), LinksIn(l2, x))
    {
      if x != e {
        assert HistoryIn(h2, x) == HistoryIn(histories, x) && LinksIn(l2, x) == LinksIn(links, x);
      }
    }
  }

  lemma AllDone(w: World, ids: set<int>, at: int, histories: map<int, History>, links: map<int, set<int>>)
    requires Halfway(w, ids * w.people.Keys, at, histories, links)
    ensures ReconcileAll(w, ids, at).Some?
    ensures Agrees(ReconcileAll(w, ids, at).value, histories, links) && ReconcileAll(w, ids, at).value.events == w.events
  {
    forall e | e in w.people && e in ids
      ensures Refreshed(w, e, at).Some?
    {
      assert e in ids * w.people.Keys;
    }
  }

  lemma OneRaises(w: World, loaded: map<int, Loaded>, ids: set<int>, at: int)
    requires ReadsViews(w, loaded, DayOf(at))
    requires exists e :: e in ids && e in loaded && OutcomeOf(loaded[e].view).Raised?
    ensures ReconcileAll(w, ids, at).None?
  {
    var e :| e in ids && e in loaded && OutcomeOf(loaded[e].view).Raised?;
    assert Refreshed(w, e, at).None?;
  }

  lemma OneRejected(w: World, resolutions: map<int, (set<int>, seq<Assignment>)>, ids: set<int>, at: int)
    requires Matches(w, resolutions, DayOf(at)) && resolutions.Keys <= ids
    requires exists e :: e in resolutions && Refreshed(w, e, at).None?
    ensures ReconcileAll(w, ids, at).None?
  {
    var e :| e in resolutions && Refreshed(w, e, at).None?;
  }

  ghost predicate Matches(w: World, resolutions: map<int, (set<int>, seq<Assignment>)>, day: int) {
    forall e | e in resolutions :: e in w.people && Resolve(w, e, day) == Assigned(resolutions[e].0, resolutions[e].1)
  }

  lemma ResolutionsMatch(w: World, loaded: map<int, Loaded>, resolutions: map<int, (set<int>, seq<Assignment>)>, day: int)
    requires ReadsViews(w, loaded, day) && resolutions.Keys <= loaded.Keys
    requires forall e | e in resolutions :: OutcomeOf(loaded[e].view) == Assigned(resolutions[e].0, resolutions[e].1)
    ensures Matches(w, resolutions, day)
  {
  }

  method RefreshOne(ghost w: World, e: int, at: int, h: History, policies: set<int>, desired: seq<Assignment>)
    returns (r: Option<History>)
    requires e in w.people && h == HistoryOf(w, e) && Resolve(w, e, DayOf(at)) == Assigned(policies, desired)
    ensures r.None? ==> Refreshed(w, e, at).None?
    ensures r.Some? ==> Done(w, e, at, r.value, policies)
  {
    r := RefreshHistory(h, at, desired);
  }

  class Store {
    var histories: map<int, History>
    var links: map<int, set<int>>
    var events: seq<Event>

    constructor ()
      ensures histories == map[] && links == map[] && events == []
    {
      histories, links, events := map[], map[], [];
    }

    /** The tables hold what the state machine says. */
    ghost predicate Shows(w: World)
      reads this
    {
      events == w.events && Agrees(w, histories, links)
    }

    /** Refreshes links and rows employee by employee; stops at the first rejected instant. */
    method RefreshEach(ghost w: World, resolutions: map<int, (set<int>, seq<Assignment>)>, at: int) returns (ok: bool)
      requires Agrees(w, histories, links) && Matches(w, resolutions, DayOf(at))
      modifies this`histories, this`links
      ensures ok ==> Halfway(w, resolutions.Keys, at, histories, links)
      ensures !ok ==> exists e :: e in resolutions && Refreshed(w, e, at).None?
    {
      ghost var done: set<int> := {};
      var left := resolutions.Keys;
      while left != {}
        invariant done + left == resolutions.Keys && done !! left
        invariant Halfway(w, done, at, histories, links)
        decreases left
      {
        var e := AnyOf(left);
        var (policies, desired) := resolutions[e];
        assert e in w.people && HistoryIn(histories, e) == HistoryOf(w, e);
        var h := RefreshOne(w, e, at, HistoryIn(histories, e), policies, desired);
        if h.None? {
          return false;
        }
        OneMore(w, done, at, histories, links, e, h.value, policies);
        histories, links := histories[e := h.value], links[e := policies];
        left, done := left - {e}, done + {e};
      }
      assert done == resolutions.Keys;
      return true;
    }

    /** All or nothing: an error rolls the tables back. Unknown identities are ignored. */
    method ReconcileEmployees(ghost w: World, loaded: map<int, Loaded>, ids: set<int>, at: int) returns (ok: bool)
      requires Shows(w) && LoadsAll(w, loaded, DayOf(at))
      modifies this`histories, this`links
      ensures ok <==> ReconcileAll(w, ids, at).Some?
      ensures ok ==> Shows(ReconcileAll(w, ids, at).value)
      ensures !ok ==> histories == old(histories) && links == old(links)
    {
      LoadedAll(w, loaded, DayOf(at));
      var resolutions := ResolveAll(loaded, ids);
      if resolutions.None? {
        OneRaises(w, loaded, ids, at);
        return false;
      }
      ResolutionsMatch(w, loaded, resolutions.value, DayOf(at));
      var savedHistories, savedLinks := histories, links;
      ok := RefreshEach(w, resolutions.value, at);
      if ok {
        assert resolutions.value.Keys == ids * w.people.Keys;
        AllDone(w, ids, at, histories, links);
      } else {
        OneRejected(w, resolutions.value, ids, at);
        histories, links := savedHistories, savedLinks;
      }
    }

    /** The policies and employees that the events of a batch name; `None` when one does not exist. */
    method CollectBatch(ghost w: World, batch: seq<nat>, policyOf: seq<int>, people: set<int>)
      returns (r: Option<(set<int>, set<int>)>)
      requires events == w.events && people == w.people.Keys
      requires |policyOf| == |w.versions| && forall i | 0 <= i < |policyOf| :: policyOf[i] == w.versions[i].policy
      requires forall i | i in batch :: i < |events|
      ensures r.None? <==> MissingEntity(w, batch)
      ensures r.Some? ==> r.value == (BatchPolicies(w, batch), BatchEmployees(w, batch))
    {
      var policies: set<int>, employees: set<int> := {}, {};
      for k := 0 to |batch|
        invariant !MissingEntity(w, batch[..k])
        invariant policies == BatchPolicies(w, batch[..k]) && employees == BatchEmployees(w, batch[..k])
      {
        var i := batch[k];
        assert i in batch && batch[..k + 1] == batch[..k] + [i];
        var key := events[i].key;
        match key.entity {
          case PolicyVersionEntity =>
            if !(1 <= key.id <= |policyOf|) {
              return None;
            }
            policies := policies + {policyOf[key.id - 1]};
          case EmployeeEntity =>
            if key.id !in people {
              return None;
            }
            employees := employees + {key.id};
        }
      }
      assert batch[..|batch|] == batch;
      return Some((policies, employees));
    }

    /** The first `k` steps of the plan are done. */
    ghost predicate AtStep(w: World, plan: seq<set<int>>, k: nat, at: int)
      reads this
    {
      k <= |plan| && ReconcileMany(w, plan[..k], at).Some? && Shows(ReconcileMany(w, plan[..k], at).value)
    }

    /** Runs one step of a plan; `w` is the world when the plan started. */
    method RunStep(ghost w: World, ghost plan: seq<set<int>>, ghost k: nat, loaded: map<int, Loaded>, ids: set<int>, at: int)
      returns (ok: bool)
      requires k < |plan| && ids == plan[k] && LoadsAll(w, loaded, DayOf(at)) && AtStep(w, plan, k, at)
      modifies this`histories, this`links
      ensures ok ==> AtStep(w, plan, k + 1, at)
      ensures !ok ==> ReconcileMany(w, plan, at).None?
    {
      ghost var current := ReconcileMany(w, plan[..k], at).value;
      PlanOnlyTables(w, plan[..k], at);
      assert plan[..k + 1][..k] == plan[..k];
      ok := ReconcileEmployees(current, loaded, ids, at);
      if !ok {
        FailureStays(w, plan, k + 1, at);
      }
    }

    /**
     * One batch: everybody once for each policy that the events name, then each
     * employee that they name, and the events are processed; or nothing at all.
     */
    method ReconcileDueEvents(ghost w: World, loaded: map<int, Loaded>, policyOf: seq<int>, next: nat, limit: nat, at: int)
      returns (ok: bool)
      requires Shows(w) && LoadsAll(w, loaded, DayOf(at)) && next == w.nextEmployee
      requires |policyOf| == |w.versions| && forall i | 0 <= i < |policyOf| :: policyOf[i] == w.versions[i].policy
      modifies this
      ensures ok <==> AfterBatch(w, limit, at).Some?
      ensures ok ==> Shows(AfterBatch(w, limit, at).value)
      ensures !ok ==> histories == old(histories) && links == old(links) && events == old(events)
    {
      if limit < 1 {
        return false;
      }
      var batch := Due(events, at, limit);
      BatchIsEarliest(events, at, limit);
      var collected := CollectBatch(w, batch, policyOf, loaded.Keys);
      if collected.None? {
        return false;
      }
      var savedHistories, savedLinks := histories, links;
      ok := RunPlan(w, batch, loaded, collected.value.0, collected.value.1, next, at);
      if ok {
        events := Marked(events, batch, at);
      } else {
        histories, links := savedHistories, savedLinks;
      }
    }

    method RunPlan(ghost w: World, ghost batch: seq<nat>, loaded: map<int, Loaded>, policies: set<int>, employees: set<int>,
                   next: nat, at: int)
      returns (ok: bool)
      requires Shows(w) && LoadsAll(w, loaded, DayOf(at)) && next == w.nextEmployee
      requires policies == BatchPolicies(w, batch) && employees == BatchEmployees(w, batch)
      modifies this`histories, this`links
      ensures ok <==> ReconcileMany(w, PlanOf(w, batch), at).Some?
      ensures ok ==> Shows(ReconcileMany(w, PlanOf(w, batch), at).value)
    {
      ghost var plan := PlanOf(w, batch);
      ok := RunPolicies(w, plan, loaded, policies, at);
      if ok {
        ok := RunEmployees(w, plan, |policies|, loaded, employees, next, at);
        assert plan[..|plan|] == plan;
      }
    }

    method RunPolicies(ghost w: World, ghost plan: seq<set<int>>, loaded: map<int, Loaded>, policies: set<int>, at: int)
      returns (ok: bool)
      requires Shows(w) && LoadsAll(w, loaded, DayOf(at))
      requires |policies| <= |plan| && forall i | 0 <= i < |policies| :: plan[i] == loaded.Keys
      modifies this`histories, this`links
      ensures ok ==> AtStep(w, plan, |policies|, at)
      ensures !ok ==> ReconcileMany(w, plan, at).None?
    {
      ghost var k: nat := 0;
      var left := policies;
      while left != {}
        invariant left <= policies && k == |policies| - |left| && AtStep(w, plan, k, at)
        decreases left
      {
        var policy := AnyOf(left);
        ok := RunStep(w, plan, k, loaded, loaded.Keys, at);
        if !ok {
          return;
        }
        left, k := left - {policy}, k + 1;
      }
      return true;
    }

    method RunEmployees(ghost w: World, ghost plan: seq<set<int>>, ghost first: nat, loaded: map<int, Loaded>,
                        employees: set<int>, next: nat, at: int)
      returns (ok: bool)
      requires LoadsAll(w, loaded, DayOf(at)) && AtStep(w, plan, first, at)
      requires plan[first..] == Singles(employees, next)
      modifies this`histories, this`links
      ensures ok ==> AtStep(w, plan, |plan|, at)
      ensures !ok ==> ReconcileMany(w, plan, at).None?
    {
      for e := 0 to next
        invariant AtStep(w, plan, first + |Singles(employees, e)|, at)
      {
        ok := RunSingle(w, plan, first, loaded, employees, e, next, at);
        if !ok {
          return;
        }
      }
      return true;
    }

    method RunSingle(ghost w: World, ghost plan: seq<set<int>>, ghost first: nat, loaded: map<int, Loaded>,
                     employees: set<int>, e: nat, next: nat, at: int)
      returns (ok: bool)
      requires LoadsAll(w, loaded, DayOf(at)) && first <= |plan| && plan[first..] == Singles(employees, next) && e < next
      requires AtStep(w, plan, first + |Singles(employees, e)|, at)
      modifies this`histories, this`links
      ensures ok ==> AtStep(w, plan, first + |Singles(employees, e + 1)|, at)
      ensures !ok ==> ReconcileMany(w, plan, at).None?
    {
      NextSingle(plan, first, employees, e, next);
      ok := true;
      if e in employees {
        ok := RunStep(w, plan, first + |Singles(employees, e)|, loaded, {e}, at);
      }
    }
  }

  lemma NextSingle(plan: seq<set<int>>, first: nat, ids: set<int>, e: nat, below: nat)
    requires first <= |plan| && plan[first..] == Singles(ids, below) && e < below
    ensures first + |Singles(ids, e)| <= |plan|
    ensures |Singles(ids, e + 1)| == |Singles(ids, e)| + (if e in ids then 1 else 0)
    ensures e in ids ==> first + |Singles(ids, e)| < |plan| && plan[first + |Singles(ids, e)|] == {e}
  {
    SinglesPrefix(ids, e, below);
  }

  lemma {:induction false} SinglesPrefix(ids: set<int>, e: nat, below: nat)
    requires e < below
    ensures |Singles(ids, e)| <= |Singles(ids, below)|
    ensures e in ids ==> |Singles(ids, e)| < |Singles(ids, below)| && Singles(ids, below)[|Singles(ids, e)|] == {e}
  {
    if e < below - 1 {
      SinglesPrefix(ids, e, below - 1);
    }
  }

  lemma {:induction false} FailureStays(w: World, plan: seq<set<int>>, k: nat, at: int)
    requires k <= |plan| && ReconcileMany(w, plan[..k], at).None?
    ensures ReconcileMany(w, plan, at).None?
  {
    if k == |plan| {
      assert plan[..k] == plan;
    } else {
      assert plan[..|plan| - 1][..k] == plan[..k];
      FailureStays(w, plan[..|plan| - 1], k, at);
    }
  }
}
