/**
 * What one employee's assignments are on one date, as a function of a view: the facts,
 * the effective versions, the inherited groups and the overrides that the program
 * reads from the database for that employee and that date.
 */
module Matching {
  import opened Common
  import opened Calendar
  import opened Conditions
  import opened ConditionTree
  import opened Reconciliation
  import opened Resolution
  import opened Versions

  /** The content of a policy version: its tree, the clauses compiled from it, and its values. */
  datatype Rules = Rules(tree: Group<Condition>, clauses: seq<Clause<Condition>>, values: set<(int, string)>)

  /** `effective` maps table rows of versions of active policies; the identity of row i is i + 1. */
  datatype View = View(
    on: int,
    facts: map<Field, Value>,
    effective: map<nat, Version<Rules>>,
    inherited: set<(int, int)>,  // (group, policy)
    overrides: set<Override>,
    ones: set<int>)

  function TruthIn(view: View, c: Condition): Option<bool> {
    if c.field in view.facts then Truth(c, view.facts[c.field]) else Some(false)
  }

  predicate Occurs(c: Condition, clauses: seq<Clause<Condition>>) {
    exists clause | clause in clauses :: c in clause
  }

  /** Every condition of every effective version is evaluated, so one calendar error is enough. */
  ghost predicate EvaluationRaises(view: View) {
    exists i, c :: i in view.effective && Occurs(c, view.effective[i].payload.clauses) && TruthIn(view, c).None?
  }

  predicate ClauseMatches(view: View, clause: Clause<Condition>) {
    clause != [] && forall c | c in clause :: TruthIn(view, c) == Some(true)
  }

  predicate Direct(view: View, version: Version<Rules>) {
    exists clause | clause in version.payload.clauses :: ClauseMatches(view, clause)
  }

  function GroupsOf(view: View, policy: int): set<int> {
    set link | link in view.inherited && link.1 == policy :: link.0
  }

  predicate IsMatch(view: View, version: Version<Rules>) {
    Direct(view, version) || GroupsOf(view, version.policy) != {}
  }

  function MatchedRows(view: View): set<nat> {
    set i | i in view.effective && IsMatch(view, view.effective[i])
  }

  function MatchedPolicies(view: View): set<int> {
    set i | i in MatchedRows(view) :: view.effective[i].policy
  }

  ghost predicate TwoEffective(view: View) {
    exists i, j :: i in view.effective && j in view.effective && i != j && view.effective[i].policy == view.effective[j].policy
  }

  function Candidates(view: View): set<Candidate> {
    set i, v | i in MatchedRows(view) && v in view.effective[i].payload.values ::
      Candidate(v.0, v.1, view.effective[i].priority, i + 1)
  }

  // ----- explanations

  function OperatorName(op: Operator): string {
    match op case Eq => "=" case Lt => "<" case Le => "<=" case Gt => ">" case Ge => ">="
  }

  function FieldKey(f: Field): string {
    match f
    case EmployeeId => "employee_id" case Name => "name" case State => "state" case Department => "department"
    case EmployeeType => "employee_type" case Location => "location" case StartDate => "start_date"
    case ManagerId => "manager_id" case IsManager => "is_manager" case DirectReportCount => "direct_report_count"
    case ReportsUnder => "reports_under" case Level => "management_level" case TenureField => "tenure"
  }

  function OperandJson(operand: Operand): Json {
    match operand
    case TextOperand(t) => JStr(t)
    case DayOperand(d) => JInt(d)
    case NumberOperand(n) => JInt(n)
    case FlagOperand(b) => JBool(b)
    case YearsOperand(y) => JArr([JStr("years"), JInt(y)])
  }

  function ConditionJson(view: View, c: Condition): Json {
    JObj(map[
           "field" := JStr(FieldKey(c.field)),
           "operator" := JStr(OperatorName(c.op)),
           "expected" := OperandJson(c.operand),
           "actual" := if c.field in view.facts then ValueJson(view.facts[c.field]) else JNull])
  }

  function ClauseJson(view: View, clause: Clause<Condition>, n: int): Json {
    JObj(map["clause" := JInt(n), "conditions" := JArr(seq(|clause|, i requires 0 <= i < |clause| => ConditionJson(view, clause[i])))])
  }

  /** Evidence of the matched clauses, in the order of the clauses. */
  function MatchedClauses(view: View, clauses: seq<Clause<Condition>>): seq<Json> {
    if clauses == [] then []
    else
      var n := |clauses| - 1;
      MatchedClauses(view, clauses[..n]) + (if ClauseMatches(view, clauses[n]) then [ClauseJson(view, clauses[n], n)] else [])
  }

  /** How the version at a table row matches: the evidence of its clauses and the inheriting groups. */
  function OriginsJson(view: View, row: int): Json {
    if row in view.effective then
      var version := view.effective[row];
      JObj(map[
             "matched_clauses" := JArr(MatchedClauses(view, version.payload.clauses)),
             "groups" := JIds(GroupsOf(view, version.policy))])
    else JNull
  }

  /** The candidates that a final value was chosen from. */
  function RivalsOf(view: View, field: int, value: string): set<Candidate> {
    set c | c in Candidates(view) && c.field == field && (field in view.ones || c.value == value)
  }

  function CandidateJson(view: View, rivals: set<Candidate>, version: int): Json {
    JObj(map[
           "priority" := if version - 1 in view.effective then JInt(view.effective[version - 1].priority) else JNull,
           "values" := JStrs(set c | c in rivals && c.version == version :: c.value),
           "origins" := OriginsJson(view, version - 1)])
  }

  /** Winning and losing candidates, for each version. */
  function CandidatesJson(view: View, field: int, value: string): Json {
    var rivals := RivalsOf(view, field, value);
    JTable(map c | c in rivals :: c.version := CandidateJson(view, rivals, c.version))
  }

  /** The policy values that an override of the field replaces, for each version. */
  function ReplacedJson(selected: set<Resolved>, field: int): Json {
    JTable(map r | r in selected && r.field == field ::
             r.version := JStrs(set q | q in selected && q.field == field && q.version == r.version :: q.value))
  }

  /** An explanation starts with the date it was made for. */
  function Dated(on: int, members: map<string, Json>): Json {
    JObj(members[CLOCK_KEY := JInt(on)])
  }

  function PolicyJson(on: int, policy: int, version: int, origins: Json, candidates: Json): Json {
    Dated(on, map[
            "reason" := JStr("policy"),
            "policy" := JInt(policy),
            "policy_version" := JInt(version),
            "origins" := origins,
            "candidates" := candidates])
  }

  function OverrideJson(on: int, id: int, replaced: Json): Json {
    Dated(on, map[
            "reason" := JStr("manual_override"),
            "override" := JInt(id),
            "replaced_policy_assignments" := replaced])
  }

  function ExplainVersion(view: View, row: int, field: int, value: string): Json {
    if row in view.effective then
      PolicyJson(view.on, view.effective[row].policy, row + 1, OriginsJson(view, row), CandidatesJson(view, field, value))
    else JNull
  }

  ghost function ExplainOverride(view: View, id: int, field: int): Json {
    OverrideJson(view.on, id, ReplacedJson(Selection(Candidates(view), view.ones), field))
  }

  ghost function Explain(view: View, f: Final): Json {
    match f.source
    case FromVersion(id) => ExplainVersion(view, id - 1, f.field, f.value)
    case FromOverride(id) => ExplainOverride(view, id, f.field)
  }

  // ----- the outcome

  datatype Outcome = Raised | Assigned(policies: set<int>, desired: seq<Assignment>)

  ghost function Finals(view: View): set<Final> {
    Applied(Selection(Candidates(view), view.ones), view.overrides)
  }

  ghost function DesiredList(view: View): seq<Assignment> {
    var list := SortedList(Finals(view));
    seq(|list|, i requires 0 <= i < |list| => Assignment(list[i].field, list[i].value, list[i].source, Explain(view, list[i])))
  }

  /** The simple function that the materialized rows must agree with. */
  ghost function OutcomeOf(view: View): Outcome {
    if TwoEffective(view) || EvaluationRaises(view) || Conflicted(Candidates(view), view.ones) then Raised
    else Assigned(MatchedPolicies(view), DesiredList(view))
  }

  function FinalOf(k: Key): Final {
    Final(k.field, k.value, k.source)
  }

  /** The desired keys are the finals, each with its stable explanation. */
  lemma DesiredKeys(view: View)
    ensures Keys(DesiredList(view)) == set f | f in Finals(view) :: Key(f.field, f.value, f.source, Stable(Explain(view, f)))
    ensures (set k | k in Keys(DesiredList(view)) :: FinalOf(k)) == Finals(view)
  {
    var list, desired := SortedList(Finals(view)), DesiredList(view);
    forall k
      ensures k in Keys(desired) <==>
              exists f | f in Finals(view) :: k == Key(f.field, f.value, f.source, Stable(Explain(view, f)))
    {
      if k in Keys(desired) {
        var a :| a in desired && KeyOf(a) == k;
        var i :| 0 <= i < |desired| && desired[i] == a;
        assert list[i] in list;
      }
      if f :| f in Finals(view) && k == Key(f.field, f.value, f.source, Stable(Explain(view, f))) {
        var i :| 0 <= i < |list| && list[i] == f;
        assert desired[i] in desired;
      }
    }
    forall f | f in Finals(view)
      ensures exists k :: k in Keys(desired) && FinalOf(k) == f
    {
      assert FinalOf(Key(f.field, f.value, f.source, Stable(Explain(view, f)))) == f;
    }
  }

  // ----- views that differ only in the clock

  /** Same database facts, and every condition in use has the same truth. */
  ghost predicate SameButDate(v: View, w: View) {
    && v.effective == w.effective && v.inherited == w.inherited && v.overrides == w.overrides && v.ones == w.ones
    && v.facts.Keys == w.facts.Keys
    && (forall f | f in v.facts :: SameFact(v.facts[f], w.facts[f]))
    && (forall i, c | i in v.effective && Occurs(c, v.effective[i].payload.clauses) :: TruthIn(v, c) == TruthIn(w, c))
  }

  lemma SameClauses(v: View, w: View, i: nat)
    requires SameButDate(v, w) && i in v.effective
    ensures forall clause | clause in v.effective[i].payload.clauses :: ClauseMatches(v, clause) == ClauseMatches(w, clause)
    ensures IsMatch(v, v.effective[i]) == IsMatch(w, w.effective[i])
  {
    forall clause | clause in v.effective[i].payload.clauses
      ensures ClauseMatches(v, clause) == ClauseMatches(w, clause)
    {
      forall c | c in clause
        ensures TruthIn(v, c) == TruthIn(w, c)
      {
        assert Occurs(c, v.effective[i].payload.clauses);
      }
    }
    assert GroupsOf(v, v.effective[i].policy) == GroupsOf(w, v.effective[i].policy);
  }

  lemma SameConditionJson(v: View, w: View, c: Condition)
    requires SameButDate(v, w)
    ensures SameButClock(ConditionJson(v, c), ConditionJson(w, c))
  {
    SameJsonReflexive(OperandJson(c.operand));
    if c.field in v.facts {
      StableIgnoresOnlyTheClock(ValueJson(v.facts[c.field]), ValueJson(w.facts[c.field]));
      FactsKeepTheirEvidence(v.facts[c.field], w.facts[c.field]);
    }
  }

  lemma SameJsonReflexive(j: Json)
    ensures SameButClock(j, j)
  {
    StableIgnoresOnlyTheClock(j, j);
  }

  lemma SameClauseJson(v: View, w: View, clause: Clause<Condition>, n: int)
    requires SameButDate(v, w)
    ensures SameButClock(ClauseJson(v, clause, n), ClauseJson(w, clause, n))
  {
    forall i | 0 <= i < |clause|
      ensures SameButClock(ConditionJson(v, clause[i]), ConditionJson(w, clause[i]))
    {
      SameConditionJson(v, w, clause[i]);
    }
  }

  lemma {:induction false} SameMatchedClauses(v: View, w: View, clauses: seq<Clause<Condition>>)
    requires SameButDate(v, w)
    requires forall clause | clause in clauses :: ClauseMatches(v, clause) == ClauseMatches(w, clause)
    ensures SameButClock(JArr(MatchedClauses(v, clauses)), JArr(MatchedClauses(w, clauses)))
  {
    if clauses != [] {
      var n := |clauses| - 1;
      assert clauses[n] in clauses;
      assert forall clause | clause in clauses[..n] :: clause in clauses;
      SameMatchedClauses(v, w, clauses[..n]);
      SameClauseJson(v, w, clauses[n], n);
    }
  }

  lemma SameMatches(v: View, w: View)
    requires SameButDate(v, w)
    ensures MatchedRows(v) == MatchedRows(w) && MatchedPolicies(v) == MatchedPolicies(w)
    ensures Candidates(v) == Candidates(w)
    ensures EvaluationRaises(v) == EvaluationRaises(w) && TwoEffective(v) == TwoEffective(w)
  {
    forall i | i in v.effective
      ensures IsMatch(v, v.effective[i]) == IsMatch(w, w.effective[i])
    {
      SameClauses(v, w, i);
    }
    assert MatchedRows(v) == MatchedRows(w);
  }

  lemma SameOrigins(v: View, w: View, row: int)
    requires SameButDate(v, w)
    ensures SameButClock(OriginsJson(v, row), OriginsJson(w, row))
  {
    if row in v.effective {
      var version := v.effective[row];
      SameClauses(v, w, row);
      SameMatchedClauses(v, w, version.payload.clauses);
      assert GroupsOf(v, version.policy) == GroupsOf(w, version.policy);
    }
  }

  lemma SameCandidates(v: View, w: View, field: int, value: string)
    requires SameButDate(v, w)
    ensures SameButClock(CandidatesJson(v, field, value), CandidatesJson(w, field, value))
  {
    SameMatches(v, w);
    var rivals := RivalsOf(v, field, value);
    assert rivals == RivalsOf(w, field, value);
    forall c | c in rivals
      ensures SameButClock(CandidateJson(v, rivals, c.version), CandidateJson(w, rivals, c.version))
    {
      SameOrigins(v, w, c.version - 1);
    }
  }

  lemma SamePolicyJson(on: int, later: int, policy: int, version: int, a: Json, b: Json, c: Json, d: Json)
    requires SameButClock(a, b) && SameButClock(c, d)
    ensures Stable(PolicyJson(on, policy, version, a, c)) == Stable(PolicyJson(later, policy, version, b, d))
  {
    var m := map[
      "reason" := JStr("policy"), "policy" := JInt(policy), "policy_version" := JInt(version), "origins" := a, "candidates" := c];
    var n := map[
      "reason" := JStr("policy"), "policy" := JInt(policy), "policy_version" := JInt(version), "origins" := b, "candidates" := d];
    forall k | k in m
      ensures SameButClock(m[k], n[k])
    {
      SameJsonReflexive(m[k]);
    }
    SameDated(on, later, m, n);
  }

  lemma SameDated(on: int, later: int, m: map<string, Json>, n: map<string, Json>)
    requires m.Keys == n.Keys && forall k | k in m && k in n :: SameButClock(m[k], n[k])
    ensures Stable(Dated(on, m)) == Stable(Dated(later, n))
  {
    StableIgnoresOnlyTheClock(Dated(on, m), Dated(later, n));
  }

  lemma SameOverrideJson(on: int, later: int, id: int, replaced: Json)
    ensures Stable(OverrideJson(on, id, replaced)) == Stable(OverrideJson(later, id, replaced))
  {
    var m := map["reason" := JStr("manual_override"), "override" := JInt(id), "replaced_policy_assignments" := replaced];
    forall k | k in m
      ensures SameButClock(m[k], m[k])
    {
      SameJsonReflexive(m[k]);
    }
    SameDated(on, later, m, m);
  }

  lemma SameVersionExplanation(v: View, w: View, row: int, field: int, value: string)
    requires SameButDate(v, w)
    ensures Stable(ExplainVersion(v, row, field, value)) == Stable(ExplainVersion(w, row, field, value))
  {
    if row in v.effective {
      SameOrigins(v, w, row);
      SameCandidates(v, w, field, value);
      SamePolicyJson(v.on, w.on, v.effective[row].policy, row + 1, OriginsJson(v, row), OriginsJson(w, row),
                     CandidatesJson(v, field, value), CandidatesJson(w, field, value));
    }
  }

  lemma SameOverrideExplanation(v: View, w: View, id: int, field: int)
    requires SameButDate(v, w)
    ensures Stable(ExplainOverride(v, id, field)) == Stable(ExplainOverride(w, id, field))
  {
    SameMatches(v, w);
    SameOverrideJson(v.on, w.on, id, ReplacedJson(Selection(Candidates(v), v.ones), field));
  }

  lemma SameExplanation(v: View, w: View, f: Final)
    requires SameButDate(v, w)
    ensures Stable(Explain(v, f)) == Stable(Explain(w, f))
  {
    if f.source.FromVersion? {
      SameVersionExplanation(v, w, f.source.versionId - 1, f.field, f.value);
      assert Explain(v, f) == ExplainVersion(v, f.source.versionId - 1, f.field, f.value);
      assert Explain(w, f) == ExplainVersion(w, f.source.versionId - 1, f.field, f.value);
    } else {
      SameOverrideExplanation(v, w, f.source.overrideId, f.field);
      assert Explain(v, f) == ExplainOverride(v, f.source.overrideId, f.field);
      assert Explain(w, f) == ExplainOverride(w, f.source.overrideId, f.field);
    }
  }

  ghost function KeysOf(outcome: Outcome): set<Key> {
    if outcome.Raised? then {} else Keys(outcome.desired)
  }

  /** While no condition in use changes its truth, the outcome keeps its policies and its stable keys. */
  lemma SameOutcome(v: View, w: View)
    requires SameButDate(v, w)
    ensures OutcomeOf(v).Raised? <==> OutcomeOf(w).Raised?
    ensures KeysOf(OutcomeOf(v)) == KeysOf(OutcomeOf(w))
    ensures OutcomeOf(v).Assigned? ==> OutcomeOf(v).policies == OutcomeOf(w).policies
  {
    SameMatches(v, w);
    assert Finals(v) == Finals(w);
    DesiredKeys(v);
    DesiredKeys(w);
    forall f | f in Finals(v)
      ensures Stable(Explain(v, f)) == Stable(Explain(w, f))
    {
      SameExplanation(v, w, f);
    }
  }

  /** A version that stores what its tree compiles to matches directly exactly when the tree holds. */
  lemma DirectMatchIsTreeTruth(view: View, version: Version<Rules>)
    requires NoEmptyGroup(version.payload.tree) && version.payload.clauses == Dnf(version.payload.tree)
    ensures Direct(view, version) <==> Holds(version.payload.tree, (c: Condition) => TruthIn(view, c) == Some(true))
  {
    var truth := (c: Condition) => TruthIn(view, c) == Some(true);
    CompilationPreservesMeaning(version.payload.tree, truth);
    assert forall clause :: ConditionTree.ClauseHolds(clause, truth) && clause != [] <==> ClauseMatches(view, clause);
  }

  // ----- the matcher as the program runs it

  datatype PolicyMatch = PolicyMatch(row: nat, evidence: seq<Json>, groups: set<int>)

  datatype EvaluationError = CalendarError

  /** All conditions of a clause are evaluated before the clause is judged. */
  method EvaluateClause(view: View, clause: Clause<Condition>) returns (r: Result<bool, EvaluationError>)
    ensures r.Err? <==> exists c | c in clause :: TruthIn(view, c).None?
    ensures r.Ok? ==> (r.value <==> forall c | c in clause :: TruthIn(view, c) == Some(true))
  {
    var all := true;
    for i := 0 to |clause|
      invariant forall c | c in clause[..i] :: TruthIn(view, c).Some?
      invariant all <==> forall c | c in clause[..i] :: TruthIn(view, c) == Some(true)
    {
      assert clause[..i + 1] == clause[..i] + [clause[i]];
      var truth := TruthIn(view, clause[i]);
      if truth.None? {
        return Err(CalendarError);
      }
      all := all && truth.value;
    }
    assert clause[..|clause|] == clause;
    return Ok(all);
  }

  method MatchVersion(view: View, clauses: seq<Clause<Condition>>) returns (r: Result<seq<Json>, EvaluationError>)
    ensures r.Err? <==> exists c :: Occurs(c, clauses) && TruthIn(view, c).None?
    ensures r.Ok? ==> r.value == MatchedClauses(view, clauses)
  {
    var evidence: seq<Json> := [];
    for n := 0 to |clauses|
      invariant evidence == MatchedClauses(view, clauses[..n])
      invariant forall c | Occurs(c, clauses[..n]) :: TruthIn(view, c).Some?
    {
      assert clauses[..n + 1][..n] == clauses[..n];
      assert clauses[..n + 1] == clauses[..n] + [clauses[n]];
      var clause := clauses[n];
      var truth := EvaluateClause(view, clause);
      if truth.Err? {
        var c :| c in clause && TruthIn(view, c).None?;
        assert Occurs(c, clauses);
        return Err(truth.error);
      }
      if clause != [] && truth.value {
        evidence := evidence + [ClauseJson(view, clause, n)];
      }
    }
    assert clauses[..|clauses|] == clauses;
    return Ok(evidence);
  }

  lemma {:induction false} EvidenceMeansDirect(view: View, clauses: seq<Clause<Condition>>)
    ensures MatchedClauses(view, clauses) != [] <==> exists clause | clause in clauses :: ClauseMatches(view, clause)
  {
    if clauses != [] {
      var n := |clauses| - 1;
      assert clauses == clauses[..n] + [clauses[n]];
      EvidenceMeansDirect(view, clauses[..n]);
    }
  }

  /** The matching policies with their clause and group origins; a match always has an origin. */
  method FindPolicyMatches(view: View) returns (r: Result<map<int, PolicyMatch>, EvaluationError>)
    requires !TwoEffective(view)
    ensures r.Err? <==> EvaluationRaises(view)
    ensures r.Ok? ==> r.value.Keys == MatchedPolicies(view)
    ensures r.Ok? ==> forall p | p in r.value ::
              var m := r.value[p];
              && m.row in MatchedRows(view) && view.effective[m.row].policy == p
              && m.evidence == MatchedClauses(view, view.effective[m.row].payload.clauses)
              && m.groups == GroupsOf(view, p)
              && (m.evidence != [] || m.groups != {})
  {
    var found: map<int, PolicyMatch> := map[];
    var left := view.effective.Keys;
    while left != {}
      invariant left <= view.effective.Keys
      invariant forall i, c | i in view.effective && i !in left && Occurs(c, view.effective[i].payload.clauses) ::
                  TruthIn(view, c).Some?
      invariant forall p :: p in found <==>
                  exists i :: i in view.effective && i !in left && IsMatch(view, view.effective[i]) && view.effective[i].policy == p
      invariant forall p | p in found :: IsMatchOf(view, p, found[p])
      decreases left
    {
      var row := AnyOf(left);
      left := left - {row};
      var version := view.effective[row];
      var evidence := MatchVersion(view, version.payload.clauses);
      if evidence.Err? {
        return Err(evidence.error);
      }
      EvidenceMeansDirect(view, version.payload.clauses);
      var groups := GroupsOf(view, version.policy);
      if evidence.value != [] || groups != {} {
        found := found[version.policy := PolicyMatch(row, evidence.value, groups)];
      }
    }
    forall p
      ensures p in found <==> p in MatchedPolicies(view)
    {
    }
    return Ok(found);
  }

  ghost predicate IsMatchOf(view: View, p: int, m: PolicyMatch) {
    && m.row in MatchedRows(view) && view.effective[m.row].policy == p
    && m.evidence == MatchedClauses(view, view.effective[m.row].payload.clauses)
    && m.groups == GroupsOf(view, p)
    && (m.evidence != [] || m.groups != {})
  }
}
