/** The impact of one policy version on a population, counted in one pass. */
module ImpactSummary {
  import opened Common
  import opened Resolution
  import opened Versions
  import opened Matching

  /** One employee: what the matcher reads, and its candidate rows in the order of the query. */
  datatype Subject = Subject(id: int, view: View, rows: seq<Candidate>)

  /** The version at table row `row` is the effective one of its policy. */
  ghost predicate Readable(s: Subject, row: nat, version: Version<Rules>) {
    && row in s.view.effective && s.view.effective[row] == version
    && !TwoEffective(s.view)
    && InOrder(s.rows) && Members(s.rows) == Candidates(s.view)
  }

  ghost predicate AllReadable(subjects: seq<Subject>, row: nat, version: Version<Rules>) {
    forall i | 0 <= i < |subjects| :: Readable(subjects[i], row, version)
  }

  /** What one employee means for the version: how it matches, and which values it takes from it. */
  datatype Reading = Reading(
    id: int, direct: bool, grouped: bool, clashes: bool, selected: set<Resolved>, suppressed: set<Resolved>)

  /** The values that the resolver takes from the version, whether they are overridden or not. */
  ghost function Taken(view: View, row: nat, overridden: bool): set<Resolved> {
    set r | r in Selection(Candidates(view), view.ones) && r.version == row + 1
            && Overridden(view.overrides, r.field) == overridden
  }

  ghost function ReadingOf(s: Subject, row: nat, version: Version<Rules>): Reading {
    var clashes := Conflicted(Candidates(s.view), s.view.ones);
    var counted := IsMatch(s.view, version) && !clashes;
    Reading(s.id, Direct(s.view, version), GroupsOf(s.view, version.policy) != {}, clashes,
            if counted then Taken(s.view, row, false) else {}, if counted then Taken(s.view, row, true) else {})
  }

  ghost function ReadingsOf(subjects: seq<Subject>, row: nat, version: Version<Rules>): seq<Reading> {
    seq(|subjects|, i requires 0 <= i < |subjects| => ReadingOf(subjects[i], row, version))
  }

  /** What a counter counts employees by. */
  datatype Kind =
    | Matched | DirectOrigin | GroupOrigin | BothOrigins | Conflicting | WithSelected | WithoutSelected | WithSuppressed

  predicate Has(r: Reading, kind: Kind) {
    && (r.direct || r.grouped)
    && match kind
       case Matched => true
       case DirectOrigin => r.direct
       case GroupOrigin => r.grouped
       case BothOrigins => r.direct && r.grouped
       case Conflicting => r.clashes
       case WithSelected => !r.clashes && r.selected != {}
       case WithoutSelected => !r.clashes && r.selected == {}
       case WithSuppressed => !r.clashes && r.suppressed != {}
  }

  /** Positions of the employees of a kind. */
  ghost function Those(readings: seq<Reading>, kind: Kind): set<nat> {
    set i: nat | i < |readings| && Has(readings[i], kind)
  }

  function ValuesTaken(r: Reading, overridden: bool): set<Resolved> {
    if overridden then r.suppressed else r.selected
  }

  /** Values taken from the version, each with the position of its employee. */
  ghost function TakenValues(readings: seq<Reading>, overridden: bool): set<(nat, Resolved)> {
    set i: nat, r | i < |readings| && r in ValuesTaken(readings[i], overridden) :: (i, r)
  }

  ghost function TakenOf(readings: seq<Reading>, overridden: bool, field: int): set<(nat, Resolved)> {
    set x | x in TakenValues(readings, overridden) && x.1.field == field
  }

  ghost function IdsOf(readings: seq<Reading>, taken: set<(nat, Resolved)>): set<int> {
    set x | x in taken && x.0 < |readings| :: readings[x.0].id
  }

  function FieldsOf(version: Version<Rules>): set<int> {
    set v | v in version.payload.values :: v.0
  }

  function Configured(version: Version<Rules>, field: int): set<string> {
    set v | v in version.payload.values && v.0 == field :: v.1
  }

  // ----- the balances

  lemma ThreeParts<T>(all: set<T>, a: set<T>, b: set<T>, c: set<T>)
    requires all == a + b + c && a !! b && a !! c && b !! c
    ensures |all| == |a| + |b| + |c|
  {
    assert a * b == {} && (a + b) * c == {};
  }

  /** Every matched employee is selected, not selected or conflicted. */
  lemma OutcomesBalance(readings: seq<Reading>)
    ensures |Those(readings, Matched)| ==
            |Those(readings, WithSelected)| + |Those(readings, WithoutSelected)| + |Those(readings, Conflicting)|
  {
    var all, some := Those(readings, Matched), Those(readings, WithSelected);
    var none, clash := Those(readings, WithoutSelected), Those(readings, Conflicting);
    forall i
      ensures i in all <==> i in some || i in none || i in clash
      ensures !(i in some && i in none) && !(i in some && i in clash) && !(i in none && i in clash)
    {
    }
    ThreeParts(all, some, none, clash);
  }

  /** Every matched employee has a direct origin, a group origin or both. */
  lemma OriginsBalance(readings: seq<Reading>)
    ensures |Those(readings, Matched)| ==
            |Those(readings, DirectOrigin)| + |Those(readings, GroupOrigin)| - |Those(readings, BothOrigins)|
  {
    var direct, grouped := Those(readings, DirectOrigin), Those(readings, GroupOrigin);
    forall i
      ensures i in Those(readings, Matched) <==> i in direct || i in grouped
      ensures i in Those(readings, BothOrigins) <==> i in direct && i in grouped
    {
    }
    assert Those(readings, Matched) == direct + grouped;
    assert Those(readings, BothOrigins) == direct * grouped;
  }

  /** Each counted value belongs to a field of the version, so every field lookup is defined. */
  lemma TakenFields(s: Subject, row: nat, version: Version<Rules>, overridden: bool, r: Resolved)
    requires Readable(s, row, version) && r in Taken(s.view, row, overridden)
    ensures r.field in FieldsOf(version)
  {
    var c :| c in Candidates(s.view) && Resolved(c.field, c.value, c.version) == r;
    assert (c.field, c.value) in version.payload.values;
  }

  /** The sum of one counter over the accumulators of the given fields. */
  function Total(impacts: map<int, FieldImpact>, fields: seq<int>, overridden: bool): nat
    requires forall f | f in fields :: f in impacts
  {
    if fields == [] then 0
    else
      var last := fields[|fields| - 1];
      Total(impacts, fields[..|fields| - 1], overridden)
      + (if overridden then impacts[last].suppressed else impacts[last].selected)
  }

  ghost function TakenIn(readings: seq<Reading>, overridden: bool, fields: seq<int>): set<(nat, Resolved)> {
    set x | x in TakenValues(readings, overridden) && x.1.field in fields
  }

  lemma OneMoreField(readings: seq<Reading>, overridden: bool, fields: seq<int>, field: int)
    requires field !in fields
    ensures |TakenIn(readings, overridden, fields + [field])| ==
            |TakenIn(readings, overridden, fields)| + |TakenOf(readings, overridden, field)|
  {
    var before, added := TakenIn(readings, overridden, fields), TakenOf(readings, overridden, field);
    forall x
      ensures x in TakenIn(readings, overridden, fields + [field]) <==> x in before || x in added
      ensures !(x in before && x in added)
    {
    }
    assert TakenIn(readings, overridden, fields + [field]) == before + added;
  }

  lemma {:induction false} TotalIsUnion(impacts: map<int, FieldImpact>, readings: seq<Reading>, version: Version<Rules>,
                                        fields: seq<int>, overridden: bool)
    requires CountsFields(impacts, readings, version) && NoDuplicates(fields) && forall f | f in fields :: f in impacts
    ensures Total(impacts, fields, overridden) == |TakenIn(readings, overridden, fields)|
  {
    if fields != [] {
      var init, last := fields[..|fields| - 1], fields[|fields| - 1];
      assert fields == init + [last];
      TotalIsUnion(impacts, readings, version, init, overridden);
      OneMoreField(readings, overridden, init, last);
    }
  }

  lemma TotalOfAllFields(sum: Summary, subjects: seq<Subject>, row: nat, version: Version<Rules>, fields: seq<int>, overridden: bool)
    requires AllReadable(subjects, row, version) && Complete(sum, ReadingsOf(subjects, row, version), version)
    requires NoDuplicates(fields) && forall f :: f in fields <==> f in sum.fields
    ensures Total(sum.fields, fields, overridden) == |TakenValues(ReadingsOf(subjects, row, version), overridden)|
  {
    var readings := ReadingsOf(subjects, row, version);
    TotalIsUnion(sum.fields, readings, version, fields, overridden);
    forall x | x in TakenValues(readings, overridden)
      ensures x.1.field in fields
    {
      TakenFields(subjects[x.0], row, version, overridden, x.1);
    }
    assert TakenValues(readings, overridden) == TakenIn(readings, overridden, fields);
  }

  /**
   * The counters of a summary balance for every population: matched employees are
   * selected, not selected or conflicted; they match directly, by group or both; the
   * totals are the sums over the field accumulators.
   */
  lemma SummaryBalances(sum: Summary, subjects: seq<Subject>, row: nat, version: Version<Rules>, fields: seq<int>)
    requires AllReadable(subjects, row, version) && Complete(sum, ReadingsOf(subjects, row, version), version)
    requires NoDuplicates(fields) && forall f :: f in fields <==> f in sum.fields
    ensures sum.matched == sum.selectedEmployees + sum.withoutSelected + sum.conflicted
    ensures sum.matched == sum.direct + sum.grouped - sum.both
    ensures Total(sum.fields, fields, false) == sum.selectedAssignments
    ensures Total(sum.fields, fields, true) == sum.suppressedAssignments
  {
    OutcomesBalance(ReadingsOf(subjects, row, version));
    OriginsBalance(ReadingsOf(subjects, row, version));
    TotalOfAllFields(sum, subjects, row, version, fields, false);
    TotalOfAllFields(sum, subjects, row, version, fields, true);
  }

  // ----- one more employee

  lemma ThoseStep(readings: seq<Reading>, r: Reading, kind: Kind)
    ensures |Those(readings + [r], kind)| == |Those(readings, kind)| + (if Has(r, kind) then 1 else 0)
  {
    assert Those(readings + [r], kind) == Those(readings, kind) + (if Has(r, kind) then {|readings|} else {});
  }

  ghost function Paired(i: nat, values: set<Resolved>): set<(nat, Resolved)> {
    set r | r in values :: (i, r)
  }

  lemma {:induction false} PairedSize(i: nat, values: set<Resolved>)
    ensures |Paired(i, values)| == |values|
  {
    if values != {} {
      var r :| r in values;
      PairedSize(i, values - {r});
      assert Paired(i, values) == Paired(i, values - {r}) + {(i, r)};
    }
  }

  lemma TakenStep(readings: seq<Reading>, r: Reading, overridden: bool)
    ensures |TakenValues(readings + [r], overridden)| == |TakenValues(readings, overridden)| + |ValuesTaken(r, overridden)|
  {
    var before, after := TakenValues(readings, overridden), TakenValues(readings + [r], overridden);
    var added := Paired(|readings|, ValuesTaken(r, overridden));
    forall x
      ensures x in after <==> x in before || x in added
      ensures !(x in before && x in added)
    {
    }
    assert after == before + added;
    PairedSize(|readings|, ValuesTaken(r, overridden));
  }

  ghost function OfField(values: set<Resolved>, field: int): set<Resolved> {
    set x | x in values && x.field == field
  }

  lemma TakenOfStep(readings: seq<Reading>, r: Reading, overridden: bool, field: int)
    ensures TakenOf(readings + [r], overridden, field) ==
            TakenOf(readings, overridden, field) + Paired(|readings|, OfField(ValuesTaken(r, overridden), field))
    ensures |TakenOf(readings + [r], overridden, field)| ==
            |TakenOf(readings, overridden, field)| + |OfField(ValuesTaken(r, overridden), field)|
  {
    var before, after := TakenOf(readings, overridden, field), TakenOf(readings + [r], overridden, field);
    var added := Paired(|readings|, OfField(ValuesTaken(r, overridden), field));
    forall x
      ensures x in after <==> x in before || x in added
      ensures !(x in before && x in added)
    {
    }
    assert after == before + added && before * added == {};
    PairedSize(|readings|, OfField(ValuesTaken(r, overridden), field));
  }

  lemma IdsStep(readings: seq<Reading>, r: Reading, taken: set<(nat, Resolved)>, values: set<Resolved>)
    requires forall x | x in taken :: x.0 < |readings|
    ensures IdsOf(readings + [r], taken + Paired(|readings|, values)) ==
            IdsOf(readings, taken) + (if values != {} then {r.id} else {})
  {
    var all, after := readings + [r], taken + Paired(|readings|, values);
    forall id
      ensures id in IdsOf(all, after) <==> id in IdsOf(readings, taken) || (values != {} && id == r.id)
    {
      if values != {} && id == r.id {
        var v :| v in values;
        assert (|readings|, v) in after && all[|readings|] == r;
      }
      if id in IdsOf(readings, taken) {
        var x :| x in taken && x.0 < |readings| && readings[x.0].id == id;
        assert x in after && all[x.0] == readings[x.0];
      }
      if id in IdsOf(all, after) {
        var x :| x in after && x.0 < |all| && all[x.0].id == id;
        assert x in taken ==> all[x.0] == readings[x.0];
      }
    }
  }

  // ----- the summary

  datatype FieldImpact = FieldImpact(
    configured: set<string>, selectedIds: set<int>, suppressedIds: set<int>, selected: nat, suppressed: nat)

  datatype Summary = Summary(
    matched: nat, direct: nat, grouped: nat, both: nat, conflicted: nat,
    selectedEmployees: nat, withoutSelected: nat, suppressedEmployees: nat,
    selectedAssignments: nat, suppressedAssignments: nat,
    fields: map<int, FieldImpact>)

  ghost predicate CountsFields(fields: map<int, FieldImpact>, readings: seq<Reading>, version: Version<Rules>) {
    && fields.Keys == FieldsOf(version)
    && forall f | f in fields ::
         fields[f] == FieldImpact(
           Configured(version, f),
           IdsOf(readings, TakenOf(readings, false, f)), IdsOf(readings, TakenOf(readings, true, f)),
           |TakenOf(readings, false, f)|, |TakenOf(readings, true, f)|)
  }

  /** Every counter is the size of the set that it is named after. */
  ghost predicate Counts(sum: Summary, readings: seq<Reading>) {
    && sum.matched == |Those(readings, Matched)| && sum.direct == |Those(readings, DirectOrigin)|
    && sum.grouped == |Those(readings, GroupOrigin)| && sum.both == |Those(readings, BothOrigins)|
    && sum.conflicted == |Those(readings, Conflicting)|
    && sum.selectedEmployees == |Those(readings, WithSelected)|
    && sum.withoutSelected == |Those(readings, WithoutSelected)|
    && sum.suppressedEmployees == |Those(readings, WithSuppressed)|
    && sum.selectedAssignments == |TakenValues(readings, false)|
    && sum.suppressedAssignments == |TakenValues(readings, true)|
  }

  function One(b: bool): nat {
    if b then 1 else 0
  }

  /** The counters after one more employee; the fields are updated on their own. */
  function Counted(sum: Summary, r: Reading): Summary {
    Summary(
      sum.matched + One(Has(r, Matched)), sum.direct + One(Has(r, DirectOrigin)), sum.grouped + One(Has(r, GroupOrigin)),
      sum.both + One(Has(r, BothOrigins)), sum.conflicted + One(Has(r, Conflicting)),
      sum.selectedEmployees + One(Has(r, WithSelected)), sum.withoutSelected + One(Has(r, WithoutSelected)),
      sum.suppressedEmployees + One(Has(r, WithSuppressed)),
      sum.selectedAssignments + |r.selected|, sum.suppressedAssignments + |r.suppressed|,
      sum.fields)
  }

  lemma CountedStep(sum: Summary, readings: seq<Reading>, r: Reading)
    requires Counts(sum, readings)
    ensures Counts(Counted(sum, r), readings + [r])
  {
    forall kind: Kind
      ensures |Those(readings + [r], kind)| == |Those(readings, kind)| + One(Has(r, kind))
    {
      ThoseStep(readings, r, kind);
    }
    TakenStep(readings, r, false);
    TakenStep(readings, r, true);
  }

  function Grown(impact: FieldImpact, id: int, values: set<Resolved>, overridden: bool): FieldImpact {
    var ids := if values != {} then {id} else {};
    if overridden then impact.(suppressedIds := impact.suppressedIds + ids, suppressed := impact.suppressed + |values|)
    else impact.(selectedIds := impact.selectedIds + ids, selected := impact.selected + |values|)
  }

  lemma GrownStep(fields: map<int, FieldImpact>, readings: seq<Reading>, r: Reading, version: Version<Rules>, f: int)
    requires CountsFields(fields, readings, version) && f in fields
    ensures var all := readings + [r];
            Grown(Grown(fields[f], r.id, OfField(r.selected, f), false), r.id, OfField(r.suppressed, f), true) ==
            FieldImpact(
              Configured(version, f), IdsOf(all, TakenOf(all, false, f)), IdsOf(all, TakenOf(all, true, f)),
              |TakenOf(all, false, f)|, |TakenOf(all, true, f)|)
  {
    TakenOfStep(readings, r, false, f);
    TakenOfStep(readings, r, true, f);
    IdsStep(readings, r, TakenOf(readings, false, f), OfField(r.selected, f));
    IdsStep(readings, r, TakenOf(readings, true, f), OfField(r.suppressed, f));
  }

  ghost predicate AllGrown(after: map<int, FieldImpact>, fields: map<int, FieldImpact>, id: int, values: set<Resolved>,
                           overridden: bool)
  {
    && after.Keys == fields.Keys
    && forall f | f in fields :: after[f] == Grown(fields[f], id, OfField(values, f), overridden)
  }

  /** The accumulators of the fields of one list of values. */
  method AddToFields(fields: map<int, FieldImpact>, id: int, list: seq<Resolved>, overridden: bool)
    returns (after: map<int, FieldImpact>)
    requires NoDuplicates(list) && forall r | r in list :: r.field in fields
    ensures AllGrown(after, fields, id, SetOf(list), overridden)
  {
    after := fields;
    for k := 0 to |list|
      invariant AllGrown(after, fields, id, SetOf(list[..k]), overridden)
    {
      var r := list[k];
      assert r in list;
      NextValue(list, k);
      AllGrownByOne(after, fields, id, SetOf(list[..k]), r, overridden);
      after := after[r.field := Bumped(after[r.field], id, overridden)];
    }
    assert list[..|list|] == list;
  }

  lemma NextValue(list: seq<Resolved>, k: nat)
    requires NoDuplicates(list) && k < |list|
    ensures list[k] !in SetOf(list[..k]) && SetOf(list[..k + 1]) == SetOf(list[..k]) + {list[k]}
  {
    assert list[..k + 1] == list[..k] + [list[k]];
  }

  lemma AllGrownByOne(after: map<int, FieldImpact>, fields: map<int, FieldImpact>, id: int, values: set<Resolved>, r: Resolved,
                      overridden: bool)
    requires AllGrown(after, fields, id, values, overridden) && r !in values && r.field in fields
    ensures AllGrown(after[r.field := Bumped(after[r.field], id, overridden)], fields, id, values + {r}, overridden)
  {
    forall f | f in fields
      ensures Grown(fields[f], id, OfField(values + {r}, f), overridden) ==
              if f == r.field then Bumped(after[f], id, overridden) else after[f]
    {
      GrownByOne(fields[f], id, values, r, f, overridden);
    }
  }

  function Bumped(impact: FieldImpact, id: int, overridden: bool): FieldImpact {
    if overridden then impact.(suppressedIds := impact.suppressedIds + {id}, suppressed := impact.suppressed + 1)
    else impact.(selectedIds := impact.selectedIds + {id}, selected := impact.selected + 1)
  }

  lemma GrownByOne(impact: FieldImpact, id: int, values: set<Resolved>, r: Resolved, f: int, overridden: bool)
    requires r !in values
    ensures var before := Grown(impact, id, OfField(values, f), overridden);
            Grown(impact, id, OfField(values + {r}, f), overridden) ==
            if f == r.field then Bumped(before, id, overridden) else before
  {
    OfFieldStep(values, r, f);
  }

  lemma OfFieldStep(values: set<Resolved>, r: Resolved, f: int)
    requires r !in values
    ensures OfField(values + {r}, f) == OfField(values, f) + (if f == r.field then {r} else {})
    ensures |OfField(values + {r}, f)| == |OfField(values, f)| + One(f == r.field)
  {
    assert OfField(values + {r}, f) == OfField(values, f) + (if f == r.field then {r} else {});
    assert r !in OfField(values, f);
  }

  /** What the loop body computes for one employee. */
  datatype Tally = Tally(direct: bool, grouped: bool, clashes: bool, selected: seq<Resolved>, suppressed: seq<Resolved>)

  ghost predicate Describes(t: Tally, r: Reading) {
    && t.direct == r.direct && t.grouped == r.grouped
    && ((t.direct || t.grouped) ==> t.clashes == r.clashes)
    && SetOf(t.selected) == r.selected && NoDuplicates(t.selected)
    && SetOf(t.suppressed) == r.suppressed && NoDuplicates(t.suppressed)
  }

  /** The values of the version among those resolved, overridden or not. */
  method Split(resolved: seq<Resolved>, row: nat, overrides: set<Override>, overridden: bool) returns (list: seq<Resolved>)
    requires NoDuplicates(resolved)
    ensures NoDuplicates(list)
    ensures SetOf(list) == set r | r in resolved && r.version == row + 1 && Overridden(overrides, r.field) == overridden
  {
    list := [];
    for k := 0 to |resolved|
      invariant NoDuplicates(list)
      invariant SetOf(list) == set r | r in resolved[..k] && r.version == row + 1 && Overridden(overrides, r.field) == overridden
    {
      var r := resolved[k];
      assert resolved[..k + 1] == resolved[..k] + [r];
      assert r !in resolved[..k];
      if r.version == row + 1 && Overridden(overrides, r.field) == overridden {
        assert r !in SetOf(list);
        SetOfConcat(list, [r]);
        list := list + [r];
      }
    }
    assert resolved[..|resolved|] == resolved;
  }

  method ReadSubject(s: Subject, row: nat, version: Version<Rules>) returns (r: Result<Tally, EvaluationError>)
    requires Readable(s, row, version)
    ensures r.Err? <==> EvaluationRaises(s.view)
    ensures r.Ok? ==> Describes(r.value, ReadingOf(s, row, version))
  {
    var matches := FindPolicyMatches(s.view);
    if matches.Err? {
      return Err(matches.error);
    }
    if version.policy !in matches.value {
      return Ok(Tally(false, false, false, [], []));
    }
    var m := matches.value[version.policy];
    EvidenceMeansDirect(s.view, version.payload.clauses);
    var direct, grouped := m.evidence != [], m.groups != {};
    var resolved := ResolveCandidates(s.rows, s.view.ones);
    if resolved.Err? {
      return Ok(Tally(direct, grouped, true, [], []));
    }
    var selected := Split(resolved.value, row, s.view.overrides, false);
    var suppressed := Split(resolved.value, row, s.view.overrides, true);
    assert forall x :: x in resolved.value <==> x in Selection(Candidates(s.view), s.view.ones);
    assert SetOf(selected) == Taken(s.view, row, false) && SetOf(suppressed) == Taken(s.view, row, true);
    return Ok(Tally(direct, grouped, false, selected, suppressed));
  }

  ghost predicate Complete(sum: Summary, readings: seq<Reading>, version: Version<Rules>) {
    Counts(sum, readings) && CountsFields(sum.fields, readings, version)
  }

  /** The effective version of the policy, if any, with its table row. */
  datatype EffectiveVersion = EffectiveVersion(row: nat, version: Version<Rules>)

  datatype Report = Report(effective: bool, total: nat, summary: Summary)

  const NO_IMPACT: Summary := Summary(0, 0, 0, 0, 0, 0, 0, 0, 0, 0, map[])

  ghost predicate NotEffective(subjects: seq<Subject>, policy: int) {
    forall s, i | s in subjects && i in s.view.effective :: s.view.effective[i].policy != policy
  }

  /** Without an effective version nobody can match the policy, and the report is empty. */
  method BuildPolicyImpactSummary(subjects: seq<Subject>, policy: int, effective: Option<EffectiveVersion>)
    returns (result: Result<Report, EvaluationError>)
    requires effective.None? ==> NotEffective(subjects, policy)
    requires effective.Some? ==> effective.value.version.policy == policy
    requires effective.Some? ==> AllReadable(subjects, effective.value.row, effective.value.version)
    ensures effective.None? ==>
              && result == Ok(Report(false, |subjects|, NO_IMPACT))
              && forall s | s in subjects :: policy !in MatchedPolicies(s.view)
    ensures effective.Some? ==>
              var row, version := effective.value.row, effective.value.version;
              && (result.Err? <==> SomeRaises(subjects))
              && (result.Ok? ==>
                    && result.value.effective && result.value.total == |subjects|
                    && Complete(result.value.summary, ReadingsOf(subjects, row, version), version))
  {
    if effective.None? {
      return Ok(Report(false, |subjects|, NO_IMPACT));
    }
    var counted := CountImpact(subjects, effective.value.row, effective.value.version);
    if counted.Err? {
      return Err(counted.error);
    }
    return Ok(Report(true, |subjects|, counted.value));
  }

  /**
   * The summary of the effective version: each counter is the size of the set it is
   * named after, no field lookup fails, and a calendar error of one employee raises.
   */
  method CountImpact(subjects: seq<Subject>, row: nat, version: Version<Rules>)
    returns (result: Result<Summary, EvaluationError>)
    requires AllReadable(subjects, row, version)
    ensures result.Err? <==> SomeRaises(subjects)
    ensures result.Ok? ==> Complete(result.value, ReadingsOf(subjects, row, version), version)
  {
    var sum := EmptySummary(version);
    assert ReadingsOf(subjects[..0], row, version) == [];
    for n := 0 to |subjects|
      invariant !SomeRaises(subjects[..n])
      invariant Complete(sum, ReadingsOf(subjects[..n], row, version), version)
    {
      var s := subjects[n];
      assert Readable(s, row, version);
      var tally := ReadSubject(s, row, version);
      NextSubject(subjects, n, row, version);
      if tally.Err? {
        return Err(tally.error);
      }
      ghost var readings := ReadingsOf(subjects[..n], row, version);
      sum := CountSubject(s, row, version, tally.value, sum, readings);
    }
    assert subjects[..|subjects|] == subjects;
    return Ok(sum);
  }

  ghost predicate SomeRaises(subjects: seq<Subject>) {
    exists i :: 0 <= i < |subjects| && EvaluationRaises(subjects[i].view)
  }

  lemma NextSubject(subjects: seq<Subject>, n: nat, row: nat, version: Version<Rules>)
    requires n < |subjects|
    ensures ReadingsOf(subjects[..n + 1], row, version) ==
            ReadingsOf(subjects[..n], row, version) + [ReadingOf(subjects[n], row, version)]
    ensures SomeRaises(subjects[..n + 1]) <==> SomeRaises(subjects[..n]) || EvaluationRaises(subjects[n].view)
    ensures EvaluationRaises(subjects[n].view) ==> SomeRaises(subjects)
  {
    var before, after := subjects[..n], subjects[..n + 1];
    assert after == before + [subjects[n]];
    if i :| 0 <= i < |before| && EvaluationRaises(before[i].view) {
      assert after[i] == before[i];
    }
    assert after[n] == subjects[n];
  }

  function EmptySummary(version: Version<Rules>): Summary {
    Summary(0, 0, 0, 0, 0, 0, 0, 0, 0, 0, map f | f in FieldsOf(version) :: FieldImpact(Configured(version, f), {}, {}, 0, 0))
  }

  method CountSubject(s: Subject, row: nat, version: Version<Rules>, t: Tally, sum: Summary, ghost readings: seq<Reading>)
    returns (after: Summary)
    requires Readable(s, row, version) && Describes(t, ReadingOf(s, row, version))
    requires Complete(sum, readings, version)
    ensures Complete(after, readings + [ReadingOf(s, row, version)], version)
  {
    ghost var r := ReadingOf(s, row, version);
    CountedStep(sum, readings, r);
    after := CountEmployee(sum, t, r);
    var fields := CountFields(s, row, version, t, sum.fields, readings);
    after := after.(fields := fields);
  }

  lemma SizeOfList(list: seq<Resolved>)
    requires NoDuplicates(list)
    ensures |SetOf(list)| == |list|
  {
    if list != [] {
      var init, last := list[..|list| - 1], list[|list| - 1];
      SizeOfList(init);
      assert SetOf(list) == SetOf(init) + {last};
      assert last !in init;
    }
  }

  method CountEmployee(sum: Summary, t: Tally, ghost r: Reading) returns (after: Summary)
    requires Describes(t, r) && (!(r.direct || r.grouped) || r.clashes ==> r.selected == {} && r.suppressed == {})
    ensures after == Counted(sum, r)
  {
    SizeOfList(t.selected);
    SizeOfList(t.suppressed);
    after := sum;
    if !t.direct && !t.grouped {
      return;
    }
    after := after.(matched := after.matched + 1, direct := after.direct + One(t.direct),
      grouped := after.grouped + One(t.grouped), both := after.both + One(t.direct && t.grouped));
    if t.clashes {
      after := after.(conflicted := after.conflicted + 1);
      return;
    }
    if t.selected != [] {
      after := after.(selectedEmployees := after.selectedEmployees + 1,
        selectedAssignments := after.selectedAssignments + |t.selected|);
    } else {
      after := after.(withoutSelected := after.withoutSelected + 1);
    }
    if t.suppressed != [] {
      after := after.(suppressedEmployees := after.suppressedEmployees + 1,
        suppressedAssignments := after.suppressedAssignments + |t.suppressed|);
    }
  }

  method CountFields(s: Subject, row: nat, version: Version<Rules>, t: Tally, fields: map<int, FieldImpact>,
                     ghost readings: seq<Reading>)
    returns (after: map<int, FieldImpact>)
    requires Readable(s, row, version) && Describes(t, ReadingOf(s, row, version))
    requires CountsFields(fields, readings, version)
    ensures CountsFields(after, readings + [ReadingOf(s, row, version)], version)
  {
    ghost var r := ReadingOf(s, row, version);
    forall x | x in t.selected || x in t.suppressed
      ensures x.field in fields
    {
      assert x in SetOf(t.selected) || x in SetOf(t.suppressed);
      TakenFields(s, row, version, x in SetOf(t.suppressed), x);
    }
    after := AddToFields(fields, s.id, t.selected, false);
    after := AddToFields(after, s.id, t.suppressed, true);
    forall f | f in fields
      ensures after[f] == Grown(Grown(fields[f], r.id, OfField(r.selected, f), false), r.id, OfField(r.suppressed, f), true)
    {
    }
    forall f | f in fields {
      GrownStep(fields, readings, r, version, f);
    }
  }
}
