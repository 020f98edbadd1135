/** What the explanation stored with a value tells about the stored rows. */
module Explanations {
  import opened Common
  import opened Conditions
  import opened ConditionTree
  import opened Reconciliation
  import opened Resolution
  import opened Matching
  import opened Engine
  import opened Freshness
  import opened Decisions

  ghost predicate Tells(j: Json, name: string, value: Json) {
    j.JObj? && name in j.members && j.members[name] == value
  }

  // ----- the evidence of the matched clauses

  ghost predicate Numbered(list: seq<Json>, numbers: seq<int>) {
    |numbers| == |list| && forall k | 0 <= k < |list| :: Tells(list[k], "clause", JInt(numbers[k]))
  }

  /** The clauses that hold, each once and in order. */
  ghost predicate Holding(numbers: seq<int>, clauses: seq<Clause<Condition>>, p: Condition -> bool) {
    && (forall a, b | 0 <= a < b < |numbers| :: numbers[a] < numbers[b])
    && forall n :: n in numbers <==> 0 <= n < |clauses| && clauses[n] != [] && ConditionTree.ClauseHolds(clauses[n], p)
  }

  lemma ClauseNumber(view: View, clause: Clause<Condition>, n: int)
    ensures Tells(ClauseJson(view, clause, n), "clause", JInt(n))
  {
  }

  lemma {:induction false} EvidenceNumbers(view: View, clauses: seq<Clause<Condition>>, p: Condition -> bool) returns (numbers: seq<int>)
    requires forall c :: p(c) <==> TruthIn(view, c) == Some(true)
    ensures Numbered(MatchedClauses(view, clauses), numbers) && Holding(numbers, clauses, p)
  {
    numbers := [];
    if clauses != [] {
      var init, n := clauses[..|clauses| - 1], |clauses| - 1;
      var earlier := EvidenceNumbers(view, init, p);
      NextHolding(earlier, clauses, p);
      ClauseNumber(view, clauses[n], n);
      numbers := if ClauseMatches(view, clauses[n]) then earlier + [n] else earlier;
    }
  }

  lemma NextHolding(earlier: seq<int>, clauses: seq<Clause<Condition>>, p: Condition -> bool)
    requires clauses != [] && Holding(earlier, clauses[..|clauses| - 1], p)
    ensures var n := |clauses| - 1;
            var holds := clauses[n] != [] && ConditionTree.ClauseHolds(clauses[n], p);
            Holding(if holds then earlier + [n] else earlier, clauses, p)
  {
    var n := |clauses| - 1;
    var init := clauses[..n];
    forall k | 0 <= k < |earlier|
      ensures earlier[k] < n
    {
      assert earlier[k] in earlier;
    }
    assert forall m | 0 <= m < n :: init[m] == clauses[m];
    if clauses[n] != [] && ConditionTree.ClauseHolds(clauses[n], p) {
      assert forall m :: m in earlier + [n] <==> m in earlier || m == n;
    }
  }

  /** The evidence lists the clauses that the employee's record satisfies; the groups are those that pass the policy on. */
  ghost predicate TellsOrigins(w: World, e: int, day: int, row: int, origins: Json)
    requires e in w.people && 0 <= row < |w.versions|
  {
    var v := w.versions[row];
    && origins.JObj? && "matched_clauses" in origins.members && "groups" in origins.members
    && origins.members["matched_clauses"].JArr? && origins.members["groups"].JIds?
    && (exists numbers ::
          Numbered(origins.members["matched_clauses"].items, numbers)
          && Holding(numbers, v.payload.clauses, (c: Condition) => Satisfies(w.people, e, c, day)))
    && forall g :: g in origins.members["groups"].ids <==> (g, e) in w.members && (g, v.policy) in w.attached
  }

  lemma OriginsTell(w: World, e: int, day: int, row: nat)
    requires Inputs(w) && e in w.people && Applies(w, e, day, row)
    ensures TellsOrigins(w, e, day, row, OriginsJson(ViewOf(w, e, day), row))
  {
    var view, v := ViewOf(w, e, day), w.versions[row];
    var p := (c: Condition) => Satisfies(w.people, e, c, day);
    forall c
      ensures p(c) <==> TruthIn(view, c) == Some(true)
    {
      TruthIsSatisfaction(w.people, e, c, day);
    }
    var numbers := EvidenceNumbers(view, v.payload.clauses, p);
    forall g
      ensures g in GroupsOf(view, v.policy) <==> (g, e) in w.members && (g, v.policy) in w.attached
    {
      GroupMeaning(w, e, day, v.policy, g);
    }
  }

  // ----- the candidates a value was chosen from

  /** The row gives a value that the final value was chosen from: any value of a one-valued field, else the same value. */
  ghost predicate Competes(w: World, e: int, day: int, i: int, field: int, value: string, other: string)
    requires e in w.people
  {
    Gives(w, e, day, i, field, other) && (IsOneValued(w, field) || other == value)
  }

  ghost predicate CompetesAtAll(w: World, e: int, day: int, i: int, field: int, value: string)
    requires e in w.people
  {
    exists other :: Competes(w, e, day, i, field, value, other)
  }

  ghost predicate TellsCandidate(w: World, e: int, day: int, i: int, field: int, value: string, row: Json)
    requires e in w.people && 0 <= i < |w.versions|
  {
    && Tells(row, "priority", JInt(w.versions[i].priority))
    && "values" in row.members && row.members["values"].JStrs? && "origins" in row.members
    && (forall other :: other in row.members["values"].texts <==> Competes(w, e, day, i, field, value, other))
    && TellsOrigins(w, e, day, i, row.members["origins"])
  }

  /** A record for the version exactly when its row competes, with its stored priority, its values and why it applies. */
  ghost predicate TellsRow(w: World, e: int, day: int, i: int, field: int, value: string, rows: map<int, Json>)
    requires e in w.people
  {
    && (i + 1 in rows <==> CompetesAtAll(w, e, day, i, field, value))
    && (i + 1 in rows && 0 <= i < |w.versions| ==> TellsCandidate(w, e, day, i, field, value, rows[i + 1]))
  }

  ghost predicate TellsCandidates(w: World, e: int, day: int, field: int, value: string, table: Json)
    requires e in w.people
  {
    table.JTable? && forall i :: TellsRow(w, e, day, i, field, value, table.rows)
  }

  lemma RivalMeaning(w: World, e: int, day: int, i: int, field: int, value: string, other: string)
    requires Inputs(w) && e in w.people && 0 <= i < |w.versions|
    ensures CandidateOf(w, i, field, other) in RivalsOf(ViewOf(w, e, day), field, value) <==>
            Competes(w, e, day, i, field, value, other)
  {
    var c := CandidateOf(w, i, field, other);
    CandidateMeaning(w, e, day, c);
    if c in Candidates(ViewOf(w, e, day)) {
      OnesMeaning(w, e, day, c);
    }
  }

  lemma CandidateTells(w: World, e: int, day: int, i: int, field: int, value: string, some: string)
    requires Inputs(w) && e in w.people && Competes(w, e, day, i, field, value, some)
    ensures var view := ViewOf(w, e, day);
            TellsCandidate(w, e, day, i, field, value, CandidateJson(view, RivalsOf(view, field, value), i + 1))
  {
    var view := ViewOf(w, e, day);
    var rivals := RivalsOf(view, field, value);
    OriginsTell(w, e, day, i);
    forall other
      ensures other in (set c | c in rivals && c.version == i + 1 :: c.value) <==> Competes(w, e, day, i, field, value, other)
    {
      RivalMeaning(w, e, day, i, field, value, other);
      RivalRow(w, e, day, i, field, value, other);
    }
  }

  lemma RivalRow(w: World, e: int, day: int, i: int, field: int, value: string, other: string)
    requires Inputs(w) && e in w.people && 0 <= i < |w.versions|
    ensures var rivals := RivalsOf(ViewOf(w, e, day), field, value);
            (exists c :: c in rivals && c.version == i + 1 && c.value == other) <==> CandidateOf(w, i, field, other) in rivals
  {
    var rivals := RivalsOf(ViewOf(w, e, day), field, value);
    if c :| c in rivals && c.version == i + 1 && c.value == other {
      CandidateMeaning(w, e, day, c);
      assert c == CandidateOf(w, i, field, other);
    }
  }

  lemma RivalRows(w: World, e: int, day: int, i: int, field: int, value: string)
    requires Inputs(w) && e in w.people
    ensures var rivals := RivalsOf(ViewOf(w, e, day), field, value);
            (exists c :: c in rivals && c.version == i + 1) <==> CompetesAtAll(w, e, day, i, field, value)
  {
    var rivals := RivalsOf(ViewOf(w, e, day), field, value);
    if c :| c in rivals && c.version == i + 1 {
      CandidateMeaning(w, e, day, c);
      RivalMeaning(w, e, day, i, field, value, c.value);
    }
    if other :| Competes(w, e, day, i, field, value, other) {
      RivalMeaning(w, e, day, i, field, value, other);
    }
  }

  lemma RowTells(w: World, e: int, day: int, i: int, field: int, value: string, row: Json, rows: map<int, Json>)
    requires e in w.people && (i + 1 in rows <==> CompetesAtAll(w, e, day, i, field, value))
    requires i + 1 in rows ==> rows[i + 1] == row
    requires CompetesAtAll(w, e, day, i, field, value) ==> TellsCandidate(w, e, day, i, field, value, row)
    ensures TellsRow(w, e, day, i, field, value, rows)
  {
  }

  lemma TableRows(view: View, field: int, value: string, version: int)
    ensures var rivals, rows := RivalsOf(view, field, value), CandidatesJson(view, field, value).rows;
            && (version in rows <==> exists c :: c in rivals && c.version == version)
            && (version in rows ==> rows[version] == CandidateJson(view, rivals, version))
  {
  }

  lemma CandidatesTell(w: World, e: int, day: int, field: int, value: string)
    requires Inputs(w) && e in w.people
    ensures TellsCandidates(w, e, day, field, value, CandidatesJson(ViewOf(w, e, day), field, value))
  {
    var view := ViewOf(w, e, day);
    var rivals, rows := RivalsOf(view, field, value), CandidatesJson(view, field, value).rows;
    forall i
      ensures TellsRow(w, e, day, i, field, value, rows)
    {
      TableRows(view, field, value, i + 1);
      RivalRows(w, e, day, i, field, value);
      if other :| Competes(w, e, day, i, field, value, other) {
        CandidateTells(w, e, day, i, field, value, other);
      }
      RowTells(w, e, day, i, field, value, CandidateJson(view, rivals, i + 1), rows);
    }
  }

  // ----- the explanation of a final value

  ghost predicate TellsPolicy(w: World, e: int, day: int, f: Final, j: Json)
    requires e in w.people && f.source.FromVersion? && 0 < f.source.versionId <= |w.versions|
  {
    var row := f.source.versionId - 1;
    && Tells(j, "reason", JStr("policy")) && Tells(j, CLOCK_KEY, JInt(day))
    && Tells(j, "policy_version", JInt(row + 1)) && Tells(j, "policy", JInt(w.versions[row].policy))
    && "origins" in j.members && TellsOrigins(w, e, day, row, j.members["origins"])
    && "candidates" in j.members && TellsCandidates(w, e, day, f.field, f.value, j.members["candidates"])
  }

  lemma PolicyMembers(on: int, policy: int, version: int, origins: Json, candidates: Json)
    ensures var j := PolicyJson(on, policy, version, origins, candidates);
            && Tells(j, "reason", JStr("policy")) && Tells(j, CLOCK_KEY, JInt(on))
            && Tells(j, "policy_version", JInt(version)) && Tells(j, "policy", JInt(policy))
            && Tells(j, "origins", origins) && Tells(j, "candidates", candidates)
  {
  }

  lemma PolicyTells(w: World, e: int, day: int, f: Final, j: Json, origins: Json, candidates: Json)
    requires e in w.people && f.source.FromVersion? && 0 < f.source.versionId <= |w.versions|
    requires Tells(j, "reason", JStr("policy")) && Tells(j, CLOCK_KEY, JInt(day)) && Tells(j, "policy_version", JInt(f.source.versionId))
    requires Tells(j, "policy", JInt(w.versions[f.source.versionId - 1].policy))
    requires Tells(j, "origins", origins) && TellsOrigins(w, e, day, f.source.versionId - 1, origins)
    requires Tells(j, "candidates", candidates) && TellsCandidates(w, e, day, f.field, f.value, candidates)
    ensures TellsPolicy(w, e, day, f, j)
  {
  }

  lemma ExplainsRow(view: View, f: Final)
    requires f.source.FromVersion? && f.source.versionId - 1 in view.effective
    ensures var i := f.source.versionId - 1;
            Explain(view, f)
            == PolicyJson(view.on, view.effective[i].policy, i + 1, OriginsJson(view, i), CandidatesJson(view, f.field, f.value))
  {
  }

  lemma AppliedRow(w: World, e: int, day: int, i: int)
    requires e in w.people && Applies(w, e, day, i)
    ensures i in ViewOf(w, e, day).effective && ViewOf(w, e, day).effective[i] == w.versions[i]
  {
  }

  /** The explanation of a value that a policy decides is true of the stored rows. */
  lemma PolicyExplanationTells(w: World, e: int, day: int, f: Final)
    requires Inputs(w) && e in w.people && f.source.FromVersion? && Decided(w, e, day, f.field, f.value, f.source)
    ensures 0 < f.source.versionId <= |w.versions| && TellsPolicy(w, e, day, f, Explain(ViewOf(w, e, day), f))
  {
    var i, view := f.source.versionId - 1, ViewOf(w, e, day);
    var origins, candidates := OriginsJson(view, i), CandidatesJson(view, f.field, f.value);
    assert Applies(w, e, day, i);
    AppliedRow(w, e, day, i);
    ExplainsRow(view, f);
    OriginsTell(w, e, day, i);
    CandidatesTell(w, e, day, f.field, f.value);
    PolicyMembers(day, w.versions[i].policy, i + 1, origins, candidates);
    PolicyTells(w, e, day, f, Explain(view, f), origins, candidates);
  }

  ghost predicate BestAtAll(w: World, e: int, day: int, i: int, field: int)
    requires e in w.people
  {
    exists value :: BestFor(w, e, day, i, field, value)
  }

  /** The values that the row would give the field without the override. */
  ghost predicate TellsBest(w: World, e: int, day: int, i: int, field: int, rows: map<int, Json>)
    requires e in w.people
  {
    && (i + 1 in rows <==> BestAtAll(w, e, day, i, field))
    && (i + 1 in rows ==>
          rows[i + 1].JStrs? && forall value :: value in rows[i + 1].texts <==> BestFor(w, e, day, i, field, value))
  }

  ghost predicate TellsReplaced(w: World, e: int, day: int, field: int, table: Json)
    requires e in w.people
  {
    table.JTable? && forall i :: TellsBest(w, e, day, i, field, table.rows)
  }

  /** The explanation of an override names it, and what it replaces. */
  lemma OverrideExplanationTells(w: World, e: int, day: int, f: Final)
    requires Inputs(w) && e in w.people && f.source.FromOverride?
    ensures var j := Explain(ViewOf(w, e, day), f);
            && Tells(j, "reason", JStr("manual_override")) && Tells(j, CLOCK_KEY, JInt(day))
            && Tells(j, "override", JInt(f.source.overrideId))
            && "replaced_policy_assignments" in j.members
            && TellsReplaced(w, e, day, f.field, j.members["replaced_policy_assignments"])
  {
    ReplacedTell(w, e, day, f.field);
  }

  lemma BestTells(w: World, e: int, day: int, i: int, field: int, selected: set<Resolved>)
    requires e in w.people && forall value :: Resolved(field, value, i + 1) in selected <==> BestFor(w, e, day, i, field, value)
    ensures TellsBest(w, e, day, i, field, ReplacedJson(selected, field).rows)
  {
    var rows, version := ReplacedJson(selected, field).rows, i + 1;
    ReplacedRows(selected, field, version);
    if version in rows {
      var value :| Resolved(field, value, version) in selected;
      assert BestFor(w, e, day, i, field, value);
    }
    if value :| BestFor(w, e, day, i, field, value) {
      assert Resolved(field, value, version) in selected;
    }
  }

  lemma ReplacedTell(w: World, e: int, day: int, field: int)
    requires Inputs(w) && e in w.people
    ensures var view := ViewOf(w, e, day);
            TellsReplaced(w, e, day, field, ReplacedJson(Selection(Candidates(view), view.ones), field))
  {
    var view := ViewOf(w, e, day);
    var selected := Selection(Candidates(view), view.ones);
    forall i
      ensures TellsBest(w, e, day, i, field, ReplacedJson(selected, field).rows)
    {
      forall value
        ensures Resolved(field, value, i + 1) in selected <==> BestFor(w, e, day, i, field, value)
      {
        SelectionIsBest(w, e, day, field, value, i);
      }
      BestTells(w, e, day, i, field, selected);
    }
  }

  lemma ReplacedRows(selected: set<Resolved>, field: int, version: int)
    ensures var rows := ReplacedJson(selected, field).rows;
            && (version in rows <==> exists value :: Resolved(field, value, version) in selected)
            && (version in rows ==>
                  && rows[version].JStrs?
                  && forall value :: value in rows[version].texts <==> Resolved(field, value, version) in selected)
  {
    if r :| r in selected && r.field == field && r.version == version {
      assert r == Resolved(field, r.value, version);
    }
  }
}
