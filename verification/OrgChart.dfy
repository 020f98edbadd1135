/**
 * The manager relation: each employee has at most one manager. Closures are the
 * fixed points of the recursive UNION queries, so they exist on cyclic data too;
 * the validator is what keeps the data acyclic.
 */
module OrgChart {
  import opened Common

  /** The employees, each with the identity of its manager. */
  type Chart = map<int, Option<int>>

  /** Every manager named in the chart is an employee of the chart. */
  ghost predicate WellFormed(chart: Chart) {
    forall x | x in chart && chart[x].Some? :: chart[x].value in chart
  }

  function ManagerOf(chart: Chart, x: int): Option<int> {
    if x in chart then chart[x] else None
  }

  // ----- the closures

  function Managers(chart: Chart): set<int> {
    set x | x in chart && chart[x].Some? :: chart[x].value
  }

  function StepUp(chart: Chart, above: set<int>): (r: set<int>)
    ensures r <= Managers(chart)
  {
    set x | x in above && ManagerOf(chart, x).Some? :: ManagerOf(chart, x).value
  }

  function StepDown(chart: Chart, below: set<int>): set<int> {
    set x | x in chart && chart[x].Some? && chart[x].value in below
  }

  function CloseUp(chart: Chart, above: set<int>): set<int>
    requires above <= Managers(chart)
    decreases |Managers(chart) - above|
  {
    var next := above + StepUp(chart, above);
    if next == above then above
    else
      Shrinks(Managers(chart), above, next);
      CloseUp(chart, next)
  }

  function CloseDown(chart: Chart, below: set<int>): set<int>
    requires below <= chart.Keys
    decreases |chart.Keys - below|
  {
    var next := below + StepDown(chart, below);
    if next == below then below
    else
      Shrinks(chart.Keys, below, next);
      CloseDown(chart, next)
  }

  lemma Shrinks(all: set<int>, old_: set<int>, moved: set<int>)
    requires old_ < moved <= all
    ensures |all - moved| < |all - old_|
  {
    assert all - moved < all - old_;
    SubsetSmaller(all - moved, all - old_);
  }

  lemma SubsetSmaller(small: set<int>, large: set<int>)
    requires small < large
    ensures |small| < |large|
  {
    assert large == small + (large - small);
    assert small == large || large - small != {};
  }

  /** Every manager above an employee. */
  function Ancestors(chart: Chart, x: int): set<int> {
    CloseUp(chart, StepUp(chart, {x}))
  }

  /** Every direct and indirect report below an employee. */
  function Descendants(chart: Chart, x: int): set<int> {
    CloseDown(chart, StepDown(chart, {x}))
  }

  function DirectReports(chart: Chart, x: int): set<int> {
    set r | r in chart && chart[r] == Some(x)
  }

  function ManagementLevel(chart: Chart, x: int): nat {
    |Ancestors(chart, x)|
  }

  // ----- the closures are reachability

  /** The manager `hops` levels above `x`. */
  function Hop(chart: Chart, x: int, hops: nat): Option<int> {
    if hops == 0 then Some(x)
    else
      var lower := Hop(chart, x, hops - 1);
      if lower.None? then None else ManagerOf(chart, lower.value)
  }

  ghost predicate Above(chart: Chart, a: int, x: int) {
    exists hops: nat :: hops >= 1 && Hop(chart, x, hops) == Some(a)
  }

  lemma {:induction false} HopsCompose(chart: Chart, x: int, i: nat, j: nat)
    ensures Hop(chart, x, i).None? ==> Hop(chart, x, i + j).None?
    ensures Hop(chart, x, i).Some? ==> Hop(chart, x, i + j) == Hop(chart, Hop(chart, x, i).value, j)
    decreases j
  {
    if j > 0 {
      HopsCompose(chart, x, i, j - 1);
    }
  }

  lemma AboveStep(chart: Chart, a: int, x: int)
    ensures Above(chart, a, x) <==>
            ManagerOf(chart, x).Some?
            && (ManagerOf(chart, x).value == a || Above(chart, a, ManagerOf(chart, x).value))
  {
    assert Hop(chart, x, 0) == Some(x);
    assert Hop(chart, x, 1) == ManagerOf(chart, x);
    if Above(chart, a, x) {
      var hops: nat :| hops >= 1 && Hop(chart, x, hops) == Some(a);
      HopsCompose(chart, x, 1, hops - 1);
    }
    if ManagerOf(chart, x).Some? && Above(chart, a, ManagerOf(chart, x).value) {
      var hops: nat :| hops >= 1 && Hop(chart, ManagerOf(chart, x).value, hops) == Some(a);
      HopsCompose(chart, x, 1, hops);
      assert Hop(chart, x, hops + 1) == Some(a);
    }
  }

  lemma {:induction false} CloseUpReaches(chart: Chart, above: set<int>, a: int)
    requires above <= Managers(chart)
    ensures above <= CloseUp(chart, above) <= Managers(chart)
    ensures StepUp(chart, CloseUp(chart, above)) <= CloseUp(chart, above)
    ensures a in CloseUp(chart, above) ==> a in above || exists x :: x in above && Above(chart, a, x)
    decreases |Managers(chart) - above|
  {
    var next := above + StepUp(chart, above);
    if next != above {
      Shrinks(Managers(chart), above, next);
      CloseUpReaches(chart, next, a);
      if a in CloseUp(chart, next) && a !in above {
        if a in StepUp(chart, above) {
          var x :| x in above && ManagerOf(chart, x) == Some(a);
          AboveStep(chart, a, x);
        } else {
          var y :| y in next && Above(chart, a, y);
          if y !in above {
            var x :| x in above && ManagerOf(chart, x) == Some(y);
            AboveStep(chart, a, x);
          }
        }
      }
    }
  }

  lemma {:induction false} ClosedUnderHops(chart: Chart, closed: set<int>, x: int, hops: nat)
    requires StepUp(chart, closed) <= closed && StepUp(chart, {x}) <= closed
    requires hops >= 1 && Hop(chart, x, hops).Some?
    ensures Hop(chart, x, hops).value in closed
  {
    if hops == 1 {
      assert Hop(chart, x, 0) == Some(x);
      assert x in {x};
    } else {
      ClosedUnderHops(chart, closed, x, hops - 1);
    }
  }

  /** The ancestor query returns the managers reachable in one or more hops, on any data. */
  lemma AncestorsAreAbove(chart: Chart, x: int, a: int)
    ensures a in Ancestors(chart, x) <==> Above(chart, a, x)
  {
    var base := StepUp(chart, {x});
    CloseUpReaches(chart, base, a);
    if a in Ancestors(chart, x) {
      AboveStep(chart, a, x);
    }
    if Above(chart, a, x) {
      var hops: nat :| hops >= 1 && Hop(chart, x, hops) == Some(a);
      ClosedUnderHops(chart, Ancestors(chart, x), x, hops);
    }
  }

  lemma {:induction false} CloseDownReaches(chart: Chart, below: set<int>, d: int)
    requires below <= chart.Keys
    ensures below <= CloseDown(chart, below) <= chart.Keys
    ensures StepDown(chart, CloseDown(chart, below)) <= CloseDown(chart, below)
    ensures d in CloseDown(chart, below) ==> d in below || exists x :: x in below && Above(chart, x, d)
    decreases |chart.Keys - below|
  {
    var next := below + StepDown(chart, below);
    if next != below {
      Shrinks(chart.Keys, below, next);
      CloseDownReaches(chart, next, d);
      if d in CloseDown(chart, next) && d !in below {
        if d in StepDown(chart, below) {
          AboveStep(chart, chart[d].value, d);
        } else {
          var y :| y in next && Above(chart, y, d);
          if y !in below {
            AboveTransitive(chart, chart[y].value, y, d);
          }
        }
      }
    }
  }

  lemma AboveTransitive(chart: Chart, a: int, b: int, c: int)
    requires ManagerOf(chart, b) == Some(a) && Above(chart, b, c)
    ensures Above(chart, a, c)
  {
    var hops: nat :| hops >= 1 && Hop(chart, c, hops) == Some(b);
    assert Hop(chart, c, hops + 1) == Some(a);
  }

  lemma {:induction false} ClosedUnderReports(chart: Chart, closed: set<int>, x: int, d: int, hops: nat)
    requires StepDown(chart, closed) <= closed && StepDown(chart, {x}) <= closed
    requires hops >= 1 && Hop(chart, d, hops) == Some(x)
    ensures d in closed
    decreases hops
  {
    assert Hop(chart, d, 0) == Some(d);
    HopsCompose(chart, d, 1, hops - 1);
    assert Hop(chart, d, 1) == ManagerOf(chart, d);
    var m := chart[d].value;
    if hops == 1 {
      assert m in {x};
    } else {
      ClosedUnderReports(chart, closed, x, m, hops - 1);
    }
  }

  lemma DescendantsAreBelow(chart: Chart, x: int, d: int)
    ensures d in Descendants(chart, x) <==> Above(chart, x, d)
  {
    var base := StepDown(chart, {x});
    CloseDownReaches(chart, base, d);
    if d in Descendants(chart, x) {
      if d in base {
        AboveStep(chart, x, d);
      } else {
        var y :| y in base && Above(chart, y, d);
        AboveTransitive(chart, x, y, d);
      }
    }
    if Above(chart, x, d) {
      var hops: nat :| hops >= 1 && Hop(chart, d, hops) == Some(x);
      ClosedUnderReports(chart, Descendants(chart, x), x, d, hops);
    }
  }

  /** Ancestor and descendant closures are dual, on cyclic data as well. */
  lemma ClosuresAreDual(chart: Chart, a: int, d: int)
    ensures d in Descendants(chart, a) <==> a in Ancestors(chart, d)
  {
    AncestorsAreAbove(chart, d, a);
    DescendantsAreBelow(chart, a, d);
  }

  // ----- acyclic charts

  ghost predicate Acyclic(chart: Chart) {
    forall x :: !Above(chart, x, x)
  }

  lemma {:induction false} HopsDistinct(chart: Chart, x: int, i: nat, j: nat)
    requires Acyclic(chart) && i < j && Hop(chart, x, i).Some? && Hop(chart, x, j).Some?
    ensures Hop(chart, x, i) != Hop(chart, x, j)
  {
    HopsCompose(chart, x, i, j - i);
    if Hop(chart, x, i) == Hop(chart, x, j) {
      assert Above(chart, Hop(chart, x, i).value, Hop(chart, x, i).value);
    }
  }

  ghost predicate Within(chart: Chart, a: int, x: int, limit: nat) {
    exists hops: nat :: 1 <= hops <= limit && Hop(chart, x, hops) == Some(a)
  }

  /** The employees on the chain at hops 1 to n. */
  ghost function Chain(chart: Chart, x: int, n: nat): set<int> {
    if n == 0 || Hop(chart, x, n).None? then {} else Chain(chart, x, n - 1) + {Hop(chart, x, n).value}
  }

  lemma {:induction false} ChainMembers(chart: Chart, x: int, n: nat, a: int)
    requires Hop(chart, x, n).Some?
    ensures a in Chain(chart, x, n) <==> Within(chart, a, x, n)
    ensures Chain(chart, x, n) <= Managers(chart)
  {
    if n > 0 {
      ChainMembers(chart, x, n - 1, a);
      assert Within(chart, a, x, n) <==> Within(chart, a, x, n - 1) || Hop(chart, x, n) == Some(a);
    }
  }

  lemma {:induction false} ChainSize(chart: Chart, x: int, n: nat)
    requires Acyclic(chart) && Hop(chart, x, n).Some?
    ensures |Chain(chart, x, n)| == n
  {
    if n > 0 {
      ChainSize(chart, x, n - 1);
      var a := Hop(chart, x, n).value;
      ChainMembers(chart, x, n - 1, a);
      if a in Chain(chart, x, n - 1) {
        var i: nat :| 1 <= i <= n - 1 && Hop(chart, x, i) == Some(a);
        HopsDistinct(chart, x, i, n);
      }
    }
  }

  lemma SubsetAtMost(small: set<int>, large: set<int>)
    requires small <= large
    ensures |small| <= |large|
  {
    if small != large {
      SubsetSmaller(small, large);
    }
  }

  lemma {:induction false} FirstMissingHop(chart: Chart, x: int, n: nat) returns (level: nat)
    requires Hop(chart, x, n).None?
    ensures level < n && Hop(chart, x, level).Some? && Hop(chart, x, level + 1).None?
    decreases n
  {
    if Hop(chart, x, n - 1).Some? {
      level := n - 1;
    } else {
      level := FirstMissingHop(chart, x, n - 1);
    }
  }

  lemma AboveWithin(chart: Chart, x: int, a: int, level: nat)
    requires Hop(chart, x, level + 1).None?
    ensures Above(chart, a, x) <==> Within(chart, a, x, level)
  {
    if Above(chart, a, x) {
      var hops: nat :| hops >= 1 && Hop(chart, x, hops) == Some(a);
      if hops > level {
        HopsCompose(chart, x, level + 1, hops - level - 1);
      }
      assert Within(chart, a, x, level);
    }
  }

  /** On an acyclic chart the management level is the number of hops to the root. */
  lemma LevelIsHopsToRoot(chart: Chart, x: int)
    requires Acyclic(chart)
    ensures Hop(chart, x, ManagementLevel(chart, x)).Some?
    ensures Hop(chart, x, ManagementLevel(chart, x) + 1).None?
  {
    var n := |Managers(chart)| + 1;
    if Hop(chart, x, n).Some? {
      ChainSize(chart, x, n);
      ChainMembers(chart, x, n, x);
      SubsetAtMost(Chain(chart, x, n), Managers(chart));
      assert false;
    }
    var level := FirstMissingHop(chart, x, n);
    ChainSize(chart, x, level);
    forall a
      ensures a in Ancestors(chart, x) <==> a in Chain(chart, x, level)
    {
      AncestorsAreAbove(chart, x, a);
      ChainMembers(chart, x, level, a);
      AboveWithin(chart, x, a, level);
    }
    assert Ancestors(chart, x) == Chain(chart, x, level);
  }

  // ----- the validator and the three mutations of the chart

  datatype HierarchyError = SelfManagement | ManagerNotFound | ReportingCycle

  /** `employee` is None while an employee is being created. */
  function ValidateManager(chart: Chart, employee: Option<int>, manager: Option<int>): Option<HierarchyError> {
    if manager.None? then None
    else if employee.Some? && manager == employee then Some(SelfManagement)
    else if manager.value !in chart then Some(ManagerNotFound)
    else if employee.Some? && employee.value in Ancestors(chart, manager.value) then Some(ReportingCycle)
    else None
  }

  function Insert(chart: Chart, x: int, manager: Option<int>): Chart {
    chart[x := manager]
  }

  function Remove(chart: Chart, x: int): Chart {
    map y | y in chart && y != x :: if chart[y] == Some(x) then None else chart[y]
  }

  lemma {:induction false} HopsAvoiding(old_: Chart, moved: Chart, x: int, y: int, hops: nat)
    requires forall z | z != x :: ManagerOf(moved, z) == ManagerOf(old_, z)
    requires y != x && !Above(old_, x, y)
    ensures Hop(moved, y, hops) == Hop(old_, y, hops)
  {
    if hops > 0 {
      HopsAvoiding(old_, moved, x, y, hops - 1);
      if hops > 1 && Hop(old_, y, hops - 1).Some? {
        assert Hop(old_, y, hops - 1).value != x;
      }
    }
  }

  /** Employees that are not below the changed one keep their ancestors. */
  lemma AboveUnchanged(old_: Chart, moved: Chart, x: int, y: int, a: int)
    requires forall z | z != x :: ManagerOf(moved, z) == ManagerOf(old_, z)
    requires y != x && !Above(old_, x, y)
    ensures Above(moved, a, y) <==> Above(old_, a, y)
  {
    if Above(old_, a, y) {
      var hops: nat :| hops >= 1 && Hop(old_, y, hops) == Some(a);
      HopsAvoiding(old_, moved, x, y, hops);
    }
    if Above(moved, a, y) {
      var hops: nat :| hops >= 1 && Hop(moved, y, hops) == Some(a);
      HopsAvoiding(old_, moved, x, y, hops);
    }
  }

  lemma CycleRotates(chart: Chart, x: int, y: int)
    requires Above(chart, y, y) && Above(chart, x, y)
    ensures Above(chart, x, x)
  {
    var k: nat :| k >= 1 && Hop(chart, y, k) == Some(y);
    var j: nat :| j >= 1 && Hop(chart, y, j) == Some(x);
    HopsCompose(chart, y, k, j);
    HopsCompose(chart, y, j, k);
    assert Hop(chart, x, k) == Some(x);
  }

  /** An assignment accepted by the validator keeps the chart well formed and acyclic. */
  lemma InsertKeepsAcyclic(chart: Chart, x: int, manager: Option<int>)
    requires WellFormed(chart) && Acyclic(chart)
    requires ValidateManager(chart, Some(x), manager).None?
    ensures WellFormed(Insert(chart, x, manager)) && Acyclic(Insert(chart, x, manager))
  {
    var moved := Insert(chart, x, manager);
    if manager.Some? {
      AncestorsAreAbove(chart, manager.value, x);
    }
    if Above(moved, x, x) {
      AboveStep(moved, x, x);
      AboveUnchanged(chart, moved, x, manager.value, x);
      assert false;
    }
    forall y
      ensures !Above(moved, y, y)
    {
      if Above(moved, y, y) {
        if Above(chart, x, y) && y != x {
          assert Above(moved, x, y) by { StillBelow(chart, moved, x, y); }
          CycleRotates(moved, x, y);
        } else if y != x {
          AboveUnchanged(chart, moved, x, y, y);
        }
      }
    }
  }

  /** Changing the manager of `x` cannot disconnect anyone from `x`. */
  lemma StillBelow(old_: Chart, moved: Chart, x: int, y: int)
    requires forall z | z != x :: ManagerOf(moved, z) == ManagerOf(old_, z)
    requires Above(old_, x, y) && y != x
    ensures Above(moved, x, y)
  {
    var hops: nat :| hops >= 1 && Hop(old_, y, hops) == Some(x);
    StillBelowHops(old_, moved, x, y, hops);
  }

  lemma {:induction false} StillBelowHops(old_: Chart, moved: Chart, x: int, y: int, hops: nat)
    requires forall z | z != x :: ManagerOf(moved, z) == ManagerOf(old_, z)
    requires hops >= 1 && Hop(old_, y, hops) == Some(x) && y != x
    ensures Above(moved, x, y)
    decreases hops
  {
    HopsCompose(old_, y, 1, hops - 1);
    assert Hop(old_, y, 0) == Some(y) && Hop(old_, y, 1) == ManagerOf(old_, y);
    var m := ManagerOf(old_, y).value;
    if m != x {
      StillBelowHops(old_, moved, x, m, hops - 1);
    }
    AboveStep(moved, x, y);
  }

  lemma {:induction false} RemoveHops(chart: Chart, x: int, y: int, hops: nat)
    requires y != x
    ensures Hop(Remove(chart, x), y, hops).Some? ==>
              Hop(Remove(chart, x), y, hops) == Hop(chart, y, hops)
              && Hop(Remove(chart, x), y, hops) != Some(x)
  {
    if hops > 0 {
      RemoveHops(chart, x, y, hops - 1);
    }
  }

  lemma RemoveKeepsAcyclic(chart: Chart, x: int)
    requires WellFormed(chart) && Acyclic(chart)
    ensures WellFormed(Remove(chart, x)) && Acyclic(Remove(chart, x))
  {
    forall y
      ensures !Above(Remove(chart, x), y, y)
    {
      if Above(Remove(chart, x), y, y) {
        var hops: nat :| hops >= 1 && Hop(Remove(chart, x), y, hops) == Some(y);
        AboveStep(Remove(chart, x), y, y);
        RemoveHops(chart, x, y, hops);
        assert Above(chart, y, y);
      }
    }
  }

  // ----- runs

  datatype ChartOp =
    | Create(id: int, manager: Option<int>)
    | Move(id: int, manager: Option<int>)
    | Delete(id: int)

  /** A rejected operation changes nothing. A created identity is new and nobody reports to it. */
  function ApplyOp(chart: Chart, op: ChartOp): Chart {
    match op
    case Create(x, m) =>
      if x in chart || ValidateManager(chart, None, m).Some? then chart else Insert(chart, x, m)
    case Move(x, m) =>
      if x !in chart || ValidateManager(chart, Some(x), m).Some? then chart else Insert(chart, x, m)
    case Delete(x) => if x !in chart then chart else Remove(chart, x)
  }

  function Run(ops: seq<ChartOp>): Chart {
    if ops == [] then map[] else ApplyOp(Run(ops[..|ops| - 1]), ops[|ops| - 1])
  }

  lemma CreateIsValid(chart: Chart, x: int, manager: Option<int>)
    requires WellFormed(chart) && x !in chart && ValidateManager(chart, None, manager).None?
    ensures ValidateManager(chart, Some(x), manager).None?
  {
    if manager.Some? {
      AncestorsAreAbove(chart, manager.value, x);
    }
  }

  /** The org chart stays well formed and acyclic over every run of create, update and delete. */
  lemma {:induction false} AlwaysAcyclic(ops: seq<ChartOp>)
    ensures WellFormed(Run(ops)) && Acyclic(Run(ops))
  {
    if ops == [] {
      forall x
        ensures !Above(map[], x, x)
      {
        AboveStep(map[], x, x);
      }
    } else {
      var before := Run(ops[..|ops| - 1]);
      AlwaysAcyclic(ops[..|ops| - 1]);
      match ops[|ops| - 1]
      case Create(x, m) =>
        if x !in before && ValidateManager(before, None, m).None? {
          CreateIsValid(before, x, m);
          InsertKeepsAcyclic(before, x, m);
        }
      case Move(x, m) =>
        if x in before && ValidateManager(before, Some(x), m).None? {
          InsertKeepsAcyclic(before, x, m);
        }
      case Delete(x) => RemoveKeepsAcyclic(before, x);
    }
  }

  /** The cycle check rejects nothing else: a refused move really would close a cycle. */
  lemma RejectedMoveIsACycle(chart: Chart, x: int, manager: int)
    requires Acyclic(chart)
    requires ValidateManager(chart, Some(x), Some(manager)) in {Some(SelfManagement), Some(ReportingCycle)}
    ensures !Acyclic(Insert(chart, x, Some(manager)))
  {
    var moved := Insert(chart, x, Some(manager));
    AboveStep(moved, x, x);
    if manager != x {
      AncestorsAreAbove(chart, manager, x);
      StillBelow(chart, moved, x, manager);
    }
  }

  /** Which assignments are accepted, and why another one is refused, in terms of reachability. */
  lemma ManagerAcceptedExactly(chart: Chart, employee: Option<int>, manager: Option<int>)
    ensures match ValidateManager(chart, employee, manager)
            case Some(SelfManagement) => manager.Some? && employee == manager
            case Some(ManagerNotFound) => manager.Some? && employee != manager && manager.value !in chart
            case Some(ReportingCycle) =>
              manager.Some? && employee.Some? && employee != manager && manager.value in chart
              && Above(chart, employee.value, manager.value)
            case None =>
              manager.Some? ==>
                employee != manager && manager.value in chart
                && (employee.Some? ==> !Above(chart, employee.value, manager.value))
  {
    if manager.Some? && employee.Some? {
      AncestorsAreAbove(chart, manager.value, employee.value);
    }
  }
}
