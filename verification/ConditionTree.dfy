/**
 * Nested AND/OR condition groups, their compilation to an OR of AND clauses, and
 * the size limits checked before compilation. The type of a single condition does
 * not matter here.
 */
module ConditionTree {
  import opened Common

  const MAX_CONDITION_GROUP_DEPTH := 3
  const MAX_CONDITION_GROUPS := 20
  const MAX_POLICY_CONDITIONS := 50
  const MAX_COMPILED_CLAUSES := 200

  datatype LogicalOperator = And | Or

  datatype Group<C> = Group(op: LogicalOperator, conditions: seq<C>, children: seq<Group<C>>)

  type Clause<C> = seq<C>

  datatype CompileError = EmptyGroup | TooManyClauses

  datatype LimitError = TooDeep | TooManyGroups | TooManyConditions | TooLarge

  /** Every group of the tree has a condition or a child group. */
  ghost predicate NoEmptyGroup<C>(g: Group<C>) {
    (g.conditions != [] || g.children != [])
    && forall child | child in g.children :: NoEmptyGroup(child)
  }

  // ----- meaning of a tree and of a list of clauses

  ghost predicate Holds<C(!new)>(g: Group<C>, truth: C -> bool) {
    match g.op
    case And =>
      (forall c | c in g.conditions :: truth(c)) && (forall child | child in g.children :: Holds(child, truth))
    case Or =>
      (exists c | c in g.conditions :: truth(c)) || (exists child | child in g.children :: Holds(child, truth))
  }

  ghost predicate ClauseHolds<C(!new)>(clause: Clause<C>, truth: C -> bool) {
    forall c | c in clause :: truth(c)
  }

  /** The matcher skips a clause without conditions and takes any other clause that holds. */
  ghost predicate AnyClauseHolds<C(!new)>(clauses: seq<Clause<C>>, truth: C -> bool) {
    exists clause | clause in clauses :: clause != [] && ClauseHolds(clause, truth)
  }

  // ----- the disjunctive normal form, without any limit

  function Cross<C>(lefts: seq<Clause<C>>, rights: seq<Clause<C>>): (r: seq<Clause<C>>)
    ensures |r| == |lefts| * |rights|
  {
    if lefts == [] then []
    else
      var rest := Cross(lefts[1..], rights);
      assert |lefts| * |rights| == |rights| + |lefts[1..]| * |rights|;
      seq(|rights|, i requires 0 <= i < |rights| => lefts[0] + rights[i]) + rest
  }

  function Flatten<C>(operands: seq<seq<Clause<C>>>): seq<Clause<C>> {
    if operands == [] then [] else Flatten(operands[..|operands| - 1]) + operands[|operands| - 1]
  }

  function Product<C>(operands: seq<seq<Clause<C>>>): seq<Clause<C>> {
    if operands == [] then [[]] else Cross(Product(operands[..|operands| - 1]), operands[|operands| - 1])
  }

  function Operands<C>(g: Group<C>): seq<seq<Clause<C>>>
    decreases g, 0
  {
    seq(|g.conditions|, i requires 0 <= i < |g.conditions| => [[g.conditions[i]]])
    + seq(|g.children|, i requires 0 <= i < |g.children| => Dnf(g.children[i]))
  }

  function Dnf<C>(g: Group<C>): seq<Clause<C>>
    decreases g, 1
  {
    if g.op == Or then Flatten(Operands(g)) else Product(Operands(g))
  }

  // ----- compilation preserves meaning

  lemma {:induction false} CrossMembers<C>(lefts: seq<Clause<C>>, rights: seq<Clause<C>>, clause: Clause<C>)
    ensures clause in Cross(lefts, rights) <==> exists l, r :: l in lefts && r in rights && clause == l + r
  {
    if lefts != [] {
      CrossMembers(lefts[1..], rights, clause);
      var row := seq(|rights|, i requires 0 <= i < |rights| => lefts[0] + rights[i]);
      assert Cross(lefts, rights) == row + Cross(lefts[1..], rights);
      if l, r :| l in lefts && r in rights && clause == l + r {
        if l == lefts[0] {
          var i :| 0 <= i < |rights| && rights[i] == r;
          assert row[i] == clause;
        } else {
          assert l in lefts[1..];
        }
      }
      if clause in row {
        var i :| 0 <= i < |row| && row[i] == clause;
        assert lefts[0] in lefts && rights[i] in rights && clause == lefts[0] + rights[i];
      }
    }
  }

  lemma {:induction false} FlattenMembers<C>(operands: seq<seq<Clause<C>>>, clause: Clause<C>)
    ensures clause in Flatten(operands) <==> exists operand | operand in operands :: clause in operand
  {
    if operands != [] {
      FlattenMembers(operands[..|operands| - 1], clause);
      assert operands == operands[..|operands| - 1] + [operands[|operands| - 1]];
    }
  }

  ghost predicate SomeClauseHolds<C(!new)>(clauses: seq<Clause<C>>, truth: C -> bool) {
    exists clause | clause in clauses :: ClauseHolds(clause, truth)
  }

  ghost predicate AllHold<C(!new)>(operands: seq<seq<Clause<C>>>, truth: C -> bool) {
    forall operand | operand in operands :: SomeClauseHolds(operand, truth)
  }

  ghost predicate AnyHolds<C(!new)>(operands: seq<seq<Clause<C>>>, truth: C -> bool) {
    exists operand | operand in operands :: SomeClauseHolds(operand, truth)
  }

  lemma CrossMeaning<C(!new)>(lefts: seq<Clause<C>>, rights: seq<Clause<C>>, truth: C -> bool)
    ensures SomeClauseHolds(Cross(lefts, rights), truth)
            <==> SomeClauseHolds(lefts, truth) && SomeClauseHolds(rights, truth)
  {
    if SomeClauseHolds(Cross(lefts, rights), truth) {
      var clause :| clause in Cross(lefts, rights) && ClauseHolds(clause, truth);
      CrossMembers(lefts, rights, clause);
      var l, r :| l in lefts && r in rights && clause == l + r;
      assert forall c | c in l :: c in clause;
      assert forall c | c in r :: c in clause;
    }
    if SomeClauseHolds(lefts, truth) && SomeClauseHolds(rights, truth) {
      var l :| l in lefts && ClauseHolds(l, truth);
      var r :| r in rights && ClauseHolds(r, truth);
      CrossMembers(lefts, rights, l + r);
      assert ClauseHolds(l + r, truth);
    }
  }

  lemma {:induction false} ProductMeaning<C(!new)>(operands: seq<seq<Clause<C>>>, truth: C -> bool)
    ensures SomeClauseHolds(Product(operands), truth)
            <==> AllHold(operands, truth)
  {
    if operands == [] {
      assert [] in Product(operands) && ClauseHolds([], truth);
    } else {
      var init, last := operands[..|operands| - 1], operands[|operands| - 1];
      assert operands == init + [last];
      ProductMeaning(init, truth);
      CrossMeaning(Product(init), last, truth);
    }
  }

  lemma FlattenMeaning<C(!new)>(operands: seq<seq<Clause<C>>>, truth: C -> bool)
    ensures SomeClauseHolds(Flatten(operands), truth)
            <==> AnyHolds(operands, truth)
  {
    if SomeClauseHolds(Flatten(operands), truth) {
      var clause :| clause in Flatten(operands) && ClauseHolds(clause, truth);
      FlattenMembers(operands, clause);
    }
    if operand :| operand in operands && SomeClauseHolds(operand, truth) {
      var clause :| clause in operand && ClauseHolds(clause, truth);
      FlattenMembers(operands, clause);
    }
  }

  lemma LeafMeaning<C(!new)>(conditions: seq<C>, operands: seq<seq<Clause<C>>>, truth: C -> bool)
    requires |operands| == |conditions|
    requires forall i | 0 <= i < |conditions| :: operands[i] == [[conditions[i]]]
    ensures AllHold(operands, truth) <==> forall c | c in conditions :: truth(c)
    ensures AnyHolds(operands, truth) <==> exists c | c in conditions :: truth(c)
  {
    forall i | 0 <= i < |conditions|
      ensures SomeClauseHolds(operands[i], truth) == truth(conditions[i])
    {
      assert [conditions[i]] in operands[i];
    }
  }

  lemma BranchMeaning<C(!new)>(children: seq<Group<C>>, operands: seq<seq<Clause<C>>>, truth: C -> bool)
    requires |operands| == |children|
    requires forall i | 0 <= i < |children| :: SomeClauseHolds(operands[i], truth) == Holds(children[i], truth)
    ensures AllHold(operands, truth) <==> forall child | child in children :: Holds(child, truth)
    ensures AnyHolds(operands, truth) <==> exists child | child in children :: Holds(child, truth)
  {
    assert forall i | 0 <= i < |children| :: operands[i] in operands && children[i] in children;
  }

  lemma ConcatMeaning<C(!new)>(a: seq<seq<Clause<C>>>, b: seq<seq<Clause<C>>>, truth: C -> bool)
    ensures AllHold(a + b, truth) <==> AllHold(a, truth) && AllHold(b, truth)
    ensures AnyHolds(a + b, truth) <==> AnyHolds(a, truth) || AnyHolds(b, truth)
  {
    assert forall operand :: operand in a + b <==> operand in a || operand in b;
  }

  lemma {:induction false} DnfMeaning<C(!new)>(g: Group<C>, truth: C -> bool)
    ensures SomeClauseHolds(Dnf(g), truth) == Holds(g, truth)
  {
    forall i | 0 <= i < |g.children|
      ensures SomeClauseHolds(Dnf(g.children[i]), truth) == Holds(g.children[i], truth)
    {
      DnfMeaning(g.children[i], truth);
    }
    var leaves, branches := Operands(g)[..|g.conditions|], Operands(g)[|g.conditions|..];
    assert Operands(g) == leaves + branches;
    LeafMeaning(g.conditions, leaves, truth);
    BranchMeaning(g.children, branches, truth);
    ConcatMeaning(leaves, branches, truth);
    if g.op == Or {
      FlattenMeaning(Operands(g), truth);
    } else {
      ProductMeaning(Operands(g), truth);
    }
  }

  ghost predicate NoEmptyClause<C>(clauses: seq<Clause<C>>) {
    forall clause | clause in clauses :: clause != []
  }

  lemma {:induction false} ProductNoEmptyClause<C>(operands: seq<seq<Clause<C>>>)
    requires operands != [] && forall operand | operand in operands :: NoEmptyClause(operand)
    ensures NoEmptyClause(Product(operands))
  {
    var init, last := operands[..|operands| - 1], operands[|operands| - 1];
    assert last in operands;
    forall clause | clause in Product(operands)
      ensures clause != []
    {
      CrossMembers(Product(init), last, clause);
    }
  }

  lemma {:induction false} DnfNoEmptyClause<C>(g: Group<C>)
    requires NoEmptyGroup(g)
    ensures NoEmptyClause(Dnf(g))
  {
    forall operand | operand in Operands(g)
      ensures NoEmptyClause(operand)
    {
      var k :| 0 <= k < |Operands(g)| && Operands(g)[k] == operand;
      if k >= |g.conditions| {
        var child := g.children[k - |g.conditions|];
        assert child in g.children;
        DnfNoEmptyClause(child);
      }
    }
    assert Operands(g) != [];
    if g.op == And {
      ProductNoEmptyClause(Operands(g));
    } else {
      forall clause | clause in Flatten(Operands(g))
        ensures clause != []
      {
        FlattenMembers(Operands(g), clause);
      }
    }
  }

  /**
   * For every truth valuation, the clauses of a compiled tree match exactly when the
   * tree holds, and the matcher's skip of clauses without conditions drops nothing.
   */
  lemma CompilationPreservesMeaning<C(!new)>(g: Group<C>, truth: C -> bool)
    requires NoEmptyGroup(g)
    ensures NoEmptyClause(Dnf(g))
    ensures AnyClauseHolds(Dnf(g), truth) <==> Holds(g, truth)
  {
    DnfNoEmptyClause(g);
    DnfMeaning(g, truth);
  }

  ghost predicate EveryCondition<C(!new)>(g: Group<C>, p: C -> bool) {
    (forall c | c in g.conditions :: p(c)) && forall child | child in g.children :: EveryCondition(child, p)
  }

  ghost predicate InEveryClause<C(!new)>(clauses: seq<Clause<C>>, p: C -> bool) {
    forall clause, c | clause in clauses && c in clause :: p(c)
  }

  lemma {:induction false} ProductInEveryClause<C(!new)>(operands: seq<seq<Clause<C>>>, p: C -> bool)
    requires forall operand | operand in operands :: InEveryClause(operand, p)
    ensures InEveryClause(Product(operands), p)
  {
    if operands != [] {
      var init, last := operands[..|operands| - 1], operands[|operands| - 1];
      assert operands == init + [last];
      ProductInEveryClause(init, p);
      forall clause, c | clause in Product(operands) && c in clause
        ensures p(c)
      {
        CrossMembers(Product(init), last, clause);
        var l, r :| l in Product(init) && r in last && clause == l + r;
        assert last in operands && (c in l || c in r);
      }
    }
  }

  /** Compilation invents no condition. */
  lemma {:induction false} DnfConditions<C(!new)>(g: Group<C>, p: C -> bool)
    requires EveryCondition(g, p)
    ensures InEveryClause(Dnf(g), p)
  {
    forall operand | operand in Operands(g)
      ensures InEveryClause(operand, p)
    {
      var k :| 0 <= k < |Operands(g)| && Operands(g)[k] == operand;
      if k < |g.conditions| {
        assert operand == [[g.conditions[k]]];
      } else {
        var child := g.children[k - |g.conditions|];
        assert child in g.children;
        DnfConditions(child, p);
      }
    }
    if g.op == And {
      ProductInEveryClause(Operands(g), p);
    } else {
      forall clause, c | clause in Flatten(Operands(g)) && c in clause
        ensures p(c)
      {
        FlattenMembers(Operands(g), clause);
      }
    }
  }

  // ----- the true number of clauses

  function Sum(ns: seq<nat>): nat {
    if ns == [] then 0 else Sum(ns[..|ns| - 1]) + ns[|ns| - 1]
  }

  function Times(ns: seq<nat>): nat {
    if ns == [] then 1 else Times(ns[..|ns| - 1]) * ns[|ns| - 1]
  }

  function OperandCounts<C>(g: Group<C>): seq<nat>
    decreases g, 0
  {
    seq(|g.conditions|, i => 1) + seq(|g.children|, i requires 0 <= i < |g.children| => ClauseCount(g.children[i]))
  }

  function ClauseCount<C>(g: Group<C>): nat
    decreases g, 1
  {
    if g.op == Or then Sum(OperandCounts(g)) else Times(OperandCounts(g))
  }

  function Sizes<C>(operands: seq<seq<Clause<C>>>): seq<nat> {
    seq(|operands|, i requires 0 <= i < |operands| => |operands[i]|)
  }

  lemma {:induction false} SizesPrefix<C>(operands: seq<seq<Clause<C>>>)
    ensures |Flatten(operands)| == Sum(Sizes(operands))
    ensures |Product(operands)| == Times(Sizes(operands))
  {
    if operands != [] {
      SizesPrefix(operands[..|operands| - 1]);
      assert Sizes(operands)[..|operands| - 1] == Sizes(operands[..|operands| - 1]);
    }
  }

  lemma {:induction false} DnfSize<C>(g: Group<C>)
    ensures |Dnf(g)| == ClauseCount(g)
  {
    forall i | 0 <= i < |g.children|
      ensures |Dnf(g.children[i])| == ClauseCount(g.children[i])
    {
      DnfSize(g.children[i]);
    }
    assert Sizes(Operands(g)) == OperandCounts(g);
    SizesPrefix(Operands(g));
  }

  lemma {:induction false} GrowingPrefixes(ns: seq<nat>, k: nat)
    requires forall i | 0 <= i < |ns| :: ns[i] >= 1
    requires k <= |ns|
    ensures 1 <= Times(ns[..k]) <= Times(ns) && Sum(ns[..k]) <= Sum(ns)
    ensures k < |ns| ==> ns[k] <= Times(ns) && ns[k] <= Sum(ns)
  {
    if ns == [] {
    } else {
      var init, last := ns[..|ns| - 1], ns[|ns| - 1];
      if k == |ns| {
        assert ns[..k] == ns;
        GrowingPrefixes(init, |init|);
        assert init[..|init|] == init;
      } else {
        GrowingPrefixes(init, k);
        assert init[..k] == ns[..k];
        if k == |ns| - 1 {
          assert init[..k] == init;
        }
      }
      MulAtLeast(Times(init), last);
    }
  }

  lemma MulAtLeast(a: nat, b: nat)
    requires a >= 1 && b >= 1
    ensures a * b >= a && a * b >= b
  {
  }

  lemma {:induction false} CountPositive<C>(g: Group<C>)
    requires NoEmptyGroup(g)
    ensures ClauseCount(g) >= 1
    ensures forall i | 0 <= i < |OperandCounts(g)| :: OperandCounts(g)[i] >= 1
  {
    forall i | 0 <= i < |g.children|
      ensures ClauseCount(g.children[i]) >= 1
    {
      CountPositive(g.children[i]);
    }
    GrowingPrefixes(OperandCounts(g), 0);
    assert |OperandCounts(g)| > 0;
  }

  // ----- the compiler, with its limit checks

  /** The compiler: depth first, and every group is checked while it is built. */
  method Compile<C>(g: Group<C>) returns (r: Result<seq<Clause<C>>, CompileError>)
    ensures r.Ok? <==> NoEmptyGroup(g) && ClauseCount(g) <= MAX_COMPILED_CLAUSES
    ensures r.Ok? ==> r.value == Dnf(g)
    ensures r.Err? && NoEmptyGroup(g) ==> r.error == TooManyClauses
    decreases g, 1
  {
    var operands := CompileOperands(g);
    if operands.Err? {
      return Err(operands.error);
    }
    if operands.value == [] {
      return Err(EmptyGroup);
    }
    CountPositive(g);
    DnfSize(g);
    OperandSizes(g);
    assert forall i | 0 <= i < |operands.value| :: |operands.value[i]| == Sizes(operands.value)[i] >= 1;
    r := Combine(g.op, operands.value);
  }

  method CompileOperands<C>(g: Group<C>) returns (r: Result<seq<seq<Clause<C>>>, CompileError>)
    ensures r.Ok? ==> r.value == Operands(g) && (r.value != [] ==> NoEmptyGroup(g))
    ensures r.Err? && NoEmptyGroup(g) ==> ClauseCount(g) > MAX_COMPILED_CLAUSES && r.error == TooManyClauses
    decreases g, 0
  {
    var operands: seq<seq<Clause<C>>> := seq(|g.conditions|, i requires 0 <= i < |g.conditions| => [[g.conditions[i]]]);
    for i := 0 to |g.children|
      invariant operands == Operands(g)[..|g.conditions| + i]
      invariant forall j | 0 <= j < i :: NoEmptyGroup(g.children[j])
    {
      var child := Compile(g.children[i]);
      if child.Err? {
        ChildTooLarge(g, i);
        return Err(child.error);
      }
      operands := operands + [child.value];
    }
    return Ok(operands);
  }

  method Combine<C>(op: LogicalOperator, operands: seq<seq<Clause<C>>>)
    returns (r: Result<seq<Clause<C>>, CompileError>)
    requires operands != [] && forall i | 0 <= i < |operands| :: operands[i] != []
    ensures var all := if op == Or then Flatten(operands) else Product(operands);
            r == if |all| <= MAX_COMPILED_CLAUSES then Ok(all) else Err(TooManyClauses)
  {
    if op == Or {
      var all := Flatten(operands);
      return if |all| <= MAX_COMPILED_CLAUSES then Ok(all) else Err(TooManyClauses);
    }
    var clauses: seq<Clause<C>> := [[]];
    for i := 0 to |operands|
      invariant clauses == Product(operands[..i]) && |clauses| <= MAX_COMPILED_CLAUSES
    {
      if |clauses| * |operands[i]| > MAX_COMPILED_CLAUSES {
        ProductTooLarge(operands, i);
        return Err(TooManyClauses);
      }
      ProductNext(operands, i);
      clauses := Cross(clauses, operands[i]);
    }
    assert operands[..|operands|] == operands;
    return Ok(clauses);
  }

  lemma ProductNext<C>(operands: seq<seq<Clause<C>>>, i: nat)
    requires i < |operands|
    ensures Product(operands[..i + 1]) == Cross(Product(operands[..i]), operands[i])
  {
    assert operands[..i + 1][..i] == operands[..i];
  }

  lemma ProductTooLarge<C>(operands: seq<seq<Clause<C>>>, i: nat)
    requires forall k | 0 <= k < |operands| :: operands[k] != []
    requires i < |operands| && |Product(operands[..i])| * |operands[i]| > MAX_COMPILED_CLAUSES
    ensures |Product(operands)| > MAX_COMPILED_CLAUSES
  {
    ProductNext(operands, i);
    SizesPrefix(operands[..i + 1]);
    SizesPrefix(operands);
    assert Sizes(operands[..i + 1]) == Sizes(operands)[..i + 1];
    GrowingPrefixes(Sizes(operands), i + 1);
  }

  lemma OperandSizes<C>(g: Group<C>)
    ensures Sizes(Operands(g)) == OperandCounts(g)
  {
    forall i | 0 <= i < |g.children|
      ensures |Dnf(g.children[i])| == ClauseCount(g.children[i])
    {
      DnfSize(g.children[i]);
    }
  }

  /** A group is at least as large as each of its children. */
  lemma ChildTooLarge<C>(g: Group<C>, i: nat)
    requires i < |g.children|
    ensures NoEmptyGroup(g) ==> NoEmptyGroup(g.children[i]) && ClauseCount(g.children[i]) <= ClauseCount(g)
  {
    if NoEmptyGroup(g) {
      assert g.children[i] in g.children;
      CountPositive(g);
      GrowingPrefixes(OperandCounts(g), |g.conditions| + i);
    }
  }

  // ----- the size predictor

  function Min(a: nat, b: nat): nat {
    if a < b then a else b
  }

  /** The saturating predictor, for a tree with no empty group: min(true count, 201). */
  method CompiledClauseCount<C>(g: Group<C>) returns (n: nat)
    ensures n <= MAX_COMPILED_CLAUSES + 1
    ensures NoEmptyGroup(g) ==> n == Min(ClauseCount(g), MAX_COMPILED_CLAUSES + 1)
    ensures g.conditions == [] && g.children == [] ==> n == 0
    decreases g
  {
    var limit := MAX_COMPILED_CLAUSES + 1;
    var counts: seq<nat> := seq(|g.conditions|, i => 1);
    ghost var truth := OperandCounts(g);
    for i := 0 to |g.children|
      invariant |counts| == |g.conditions| + i
      invariant NoEmptyGroup(g) ==> forall j | 0 <= j < |counts| :: counts[j] == Min(truth[j], limit)
    {
      var count := CompiledClauseCount(g.children[i]);
      assert g.children[i] in g.children;
      counts := counts + [count];
    }
    if counts == [] {
      return 0;
    }
    if NoEmptyGroup(g) {
      CountPositive(g);
      SaturatedSum(counts, truth, limit);
    }
    if g.op == Or {
      return Min(Sum(counts), limit);
    }
    var product: nat := 1;
    for i := 0 to |counts|
      invariant product <= MAX_COMPILED_CLAUSES
      invariant NoEmptyGroup(g) ==> product == Times(truth[..i])
    {
      assert truth[..i + 1][..i] == truth[..i];
      product := product * counts[i];
      if NoEmptyGroup(g) {
        GrowingPrefixes(truth, i);
        GrowingPrefixes(truth, i + 1);
        if truth[i] > MAX_COMPILED_CLAUSES {
          MulAtLeast(Times(truth[..i]), counts[i]);
        }
      }
      if product > MAX_COMPILED_CLAUSES {
        return limit;
      }
    }
    assert truth[..|counts|] == truth;
    return product;
  }

  lemma {:induction false} SaturatedSum(counts: seq<nat>, truth: seq<nat>, limit: nat)
    requires |counts| == |truth| && forall j | 0 <= j < |counts| :: counts[j] == Min(truth[j], limit)
    ensures Min(Sum(counts), limit) == Min(Sum(truth), limit)
  {
    if counts != [] {
      SaturatedSum(counts[..|counts| - 1], truth[..|counts| - 1], limit);
    }
  }

  // ----- structural limits

  datatype Stats = Stats(groups: nat, conditions: nat, depth: nat)

  function GroupCount<C>(g: Group<C>): nat {
    1 + Sum(seq(|g.children|, i requires 0 <= i < |g.children| => GroupCount(g.children[i])))
  }

  function ConditionCount<C>(g: Group<C>): nat {
    |g.conditions| + Sum(seq(|g.children|, i requires 0 <= i < |g.children| => ConditionCount(g.children[i])))
  }

  /** Some chain of nested groups starting at `g` has `levels` members. */
  ghost predicate HasDepth<C(!new)>(g: Group<C>, levels: nat) {
    levels >= 1 && (levels == 1 || exists child | child in g.children :: HasDepth(child, levels - 1))
  }

  lemma SumNext(ns: seq<nat>, i: nat)
    requires i < |ns|
    ensures Sum(ns[..i + 1]) == Sum(ns[..i]) + ns[i]
  {
    assert ns[..i + 1][..i] == ns[..i];
  }

  function Max(ns: seq<nat>): nat {
    if ns == [] then 0
    else
      var rest, last := Max(ns[..|ns| - 1]), ns[|ns| - 1];
      if last > rest then last else rest
  }

  lemma MaxNext(ns: seq<nat>, i: nat)
    requires i < |ns|
    ensures Max(ns[..i + 1]) == if ns[i] > Max(ns[..i]) then ns[i] else Max(ns[..i])
  {
    assert ns[..i + 1][..i] == ns[..i];
  }

  lemma {:induction false} MaxIsLargest(ns: seq<nat>)
    ensures forall i | 0 <= i < |ns| :: ns[i] <= Max(ns)
    ensures ns != [] ==> Max(ns) in ns
  {
    if ns != [] {
      MaxIsLargest(ns[..|ns| - 1]);
      assert ns == ns[..|ns| - 1] + [ns[|ns| - 1]];
    }
  }

  function Depth<C>(g: Group<C>): nat {
    1 + Max(seq(|g.children|, i requires 0 <= i < |g.children| => Depth(g.children[i])))
  }

  /** The depth is the length of a longest chain of nested groups. */
  lemma {:induction false} DepthIsLongestChain<C(!new)>(g: Group<C>, levels: nat)
    ensures HasDepth(g, Depth(g))
    ensures HasDepth(g, levels) ==> levels <= Depth(g)
  {
    var depths: seq<nat> := seq(|g.children|, i requires 0 <= i < |g.children| => Depth(g.children[i]));
    MaxIsLargest(depths);
    if depths != [] {
      var i :| 0 <= i < |depths| && depths[i] == Max(depths);
      DepthIsLongestChain(g.children[i], 0);
      assert g.children[i] in g.children;
    }
    if HasDepth(g, levels) && levels > 1 {
      var child :| child in g.children && HasDepth(child, levels - 1);
      var i :| 0 <= i < |g.children| && g.children[i] == child;
      DepthIsLongestChain(g.children[i], levels - 1);
      assert depths[i] == Depth(child);
    }
  }

  method StructuralStats<C>(g: Group<C>, depth: nat) returns (stats: Stats)
    ensures stats.groups == GroupCount(g) && stats.conditions == ConditionCount(g)
    ensures stats.depth + 1 == depth + Depth(g)
    decreases g
  {
    var groups, conditions, deepest := 1, |g.conditions|, depth;
    ghost var groupCounts: seq<nat> := seq(|g.children|, i requires 0 <= i < |g.children| => GroupCount(g.children[i]));
    ghost var conditionCounts: seq<nat> :=
      seq(|g.children|, i requires 0 <= i < |g.children| => ConditionCount(g.children[i]));
    ghost var depths: seq<nat> := seq(|g.children|, i requires 0 <= i < |g.children| => Depth(g.children[i]));
    for i := 0 to |g.children|
      invariant groups == 1 + Sum(groupCounts[..i])
      invariant conditions == |g.conditions| + Sum(conditionCounts[..i])
      invariant deepest == depth + Max(depths[..i])
    {
      var child := StructuralStats(g.children[i], depth + 1);
      SumNext(groupCounts, i);
      SumNext(conditionCounts, i);
      MaxNext(depths, i);
      groups := groups + child.groups;
      conditions := conditions + child.conditions;
      deepest := if child.depth > deepest then child.depth else deepest;
    }
    assert groupCounts[..|g.children|] == groupCounts;
    assert conditionCounts[..|g.children|] == conditionCounts;
    assert depths[..|g.children|] == depths;
    return Stats(groups, conditions, deepest);
  }

  /** The first limit that the tree itself breaks, with nothing saturated. */
  function FirstBrokenLimit<C>(g: Group<C>): Option<LimitError> {
    if Depth(g) > MAX_CONDITION_GROUP_DEPTH then Some(TooDeep)
    else if GroupCount(g) > MAX_CONDITION_GROUPS then Some(TooManyGroups)
    else if ConditionCount(g) > MAX_POLICY_CONDITIONS then Some(TooManyConditions)
    else if ClauseCount(g) > MAX_COMPILED_CLAUSES then Some(TooLarge)
    else None
  }

  method ValidateLimits<C>(g: Group<C>) returns (broken: Option<LimitError>)
    ensures NoEmptyGroup(g) ==> broken == FirstBrokenLimit(g)
    ensures FirstBrokenLimit(g) in {Some(TooDeep), Some(TooManyGroups), Some(TooManyConditions)} ==>
              broken == FirstBrokenLimit(g)
  {
    var stats := StructuralStats(g, 1);
    var count := CompiledClauseCount(g);
    if stats.depth > MAX_CONDITION_GROUP_DEPTH {
      return Some(TooDeep);
    }
    if stats.groups > MAX_CONDITION_GROUPS {
      return Some(TooManyGroups);
    }
    if stats.conditions > MAX_POLICY_CONDITIONS {
      return Some(TooManyConditions);
    }
    if count > MAX_COMPILED_CLAUSES {
      return Some(TooLarge);
    }
    return None;
  }

  /**
   * The predictor and the compiler agree although they stop early in different
   * places: compilation succeeds exactly for trees without an empty group whose
   * prediction is at most 200, and then the prediction is the number of clauses.
   */
  method PredictThenCompile<C>(g: Group<C>)
    returns (predicted: nat, r: Result<seq<Clause<C>>, CompileError>)
    ensures r.Ok? <==> NoEmptyGroup(g) && predicted <= MAX_COMPILED_CLAUSES
    ensures r.Ok? ==> |r.value| == predicted
  {
    predicted := CompiledClauseCount(g);
    r := Compile(g);
    DnfSize(g);
  }
}
