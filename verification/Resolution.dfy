/**
 * From candidate values to final assignments: priority for one-valued fields, union
 * for many-valued fields, and overrides that replace every policy value of a field.
 */
module Resolution {
  import opened Common
  import opened Reconciliation

  /** A value that an effective, matching policy version gives to a field. */
  datatype Candidate = Candidate(field: int, value: string, priority: int, version: int)

  datatype Resolved = Resolved(field: int, value: string, version: int)

  datatype Override = Override(id: int, field: int, value: string)

  datatype Final = Final(field: int, value: string, source: Source)

  datatype ConflictError = PolicyConflict(field: int, priority: int)

  // ----- what a set of candidates resolves to

  /** Higher priority first, then the lower version identity. */
  predicate Outranks(a: Candidate, b: Candidate) {
    a.priority > b.priority || (a.priority == b.priority && a.version <= b.version)
  }

  /** The candidates that one final value is chosen from. */
  predicate Rivals(ones: set<int>, a: Candidate, b: Candidate) {
    a.field == b.field && (a.field in ones || a.value == b.value)
  }

  ghost predicate Wins(all: set<Candidate>, ones: set<int>, c: Candidate) {
    c in all && forall other | other in all && Rivals(ones, c, other) :: Outranks(c, other)
  }

  ghost predicate TopOfField(all: set<Candidate>, c: Candidate) {
    c in all && forall other | other in all && other.field == c.field :: other.priority <= c.priority
  }

  /** Two values share the highest priority of a one-valued field. */
  ghost predicate Conflicted(all: set<Candidate>, ones: set<int>) {
    exists a, b :: TopOfField(all, a) && TopOfField(all, b) && a.field == b.field && a.field in ones && a.value != b.value
  }

  ghost function Selection(all: set<Candidate>, ones: set<int>): set<Resolved> {
    set c | c in all && Wins(all, ones, c) :: Resolved(c.field, c.value, c.version)
  }

  /** A version has one priority. */
  ghost predicate Coherent(all: set<Candidate>) {
    forall a, b | a in all && b in all && a.version == b.version :: a.priority == b.priority
  }

  // ----- properties of the selection

  lemma {:induction false} BestExists(group: set<Candidate>) returns (best: Candidate)
    requires group != {}
    ensures best in group && forall other | other in group :: Outranks(best, other)
  {
    var c :| c in group;
    if group == {c} {
      best := c;
    } else {
      var rest := BestExists(group - {c});
      best := if Outranks(rest, c) then rest else c;
      assert forall other | other in group :: other == c || other in group - {c};
    }
  }

  /** A many-valued field gets exactly the union of the candidate values. */
  lemma ManyIsUnion(all: set<Candidate>, ones: set<int>, field: int)
    requires field !in ones
    ensures (set r | r in Selection(all, ones) && r.field == field :: r.value)
            == (set c | c in all && c.field == field :: c.value)
  {
    forall c | c in all && c.field == field
      ensures exists r :: r in Selection(all, ones) && r.field == field && r.value == c.value
    {
      var rivals := set other | other in all && Rivals(ones, c, other);
      assert c in rivals;
      var best := BestExists(rivals);
      assert Wins(all, ones, best);
      assert Resolved(best.field, best.value, best.version) in Selection(all, ones);
    }
  }

  /** Without a conflict a one-valued field with candidates gets one value: any top-priority one. */
  lemma OneIsTopPriority(all: set<Candidate>, ones: set<int>, top: Candidate)
    requires !Conflicted(all, ones) && TopOfField(all, top) && top.field in ones
    ensures exists r :: r in Selection(all, ones) && r.field == top.field
    ensures forall r | r in Selection(all, ones) && r.field == top.field :: r.value == top.value
  {
    var rivals := set other | other in all && Rivals(ones, top, other);
    assert top in rivals;
    var best := BestExists(rivals);
    assert Wins(all, ones, best);
    assert Resolved(best.field, best.value, best.version) in Selection(all, ones);
    forall c | Wins(all, ones, c) && c.field == top.field
      ensures c.value == top.value
    {
      assert TopOfField(all, c);
    }
  }

  /** Each selected value comes from its highest-priority, then lowest-identity version. */
  lemma SourceIsBest(all: set<Candidate>, ones: set<int>, r: Resolved, c: Candidate)
    requires Coherent(all) && r in Selection(all, ones)
    requires c in all && c.field == r.field && c.value == r.value
    ensures exists w :: w in all && w.version == r.version && w.field == r.field && w.value == r.value && Outranks(w, c)
  {
    var w :| w in all && Wins(all, ones, w) && r == Resolved(w.field, w.value, w.version);
    assert Rivals(ones, w, c);
  }

  // ----- overrides

  function Applied(resolved: set<Resolved>, overrides: set<Override>): set<Final> {
    (set r | r in resolved && !Overridden(overrides, r.field) :: Final(r.field, r.value, FromVersion(r.version)))
    + (set o | o in overrides :: Final(o.field, o.value, FromOverride(o.id)))
  }

  predicate Overridden(overrides: set<Override>, field: int) {
    exists o | o in overrides :: o.field == field
  }

  /** What override validation keeps: one override of a one-valued field, no repeated value. */
  ghost predicate OverridesKept(overrides: set<Override>, ones: set<int>) {
    forall a, b | a in overrides && b in overrides && a != b && a.field == b.field ::
      a.field !in ones && a.value != b.value
  }

  ghost predicate KeysUnique(finals: set<Final>) {
    forall a, b | a in finals && b in finals && a.field == b.field && a.value == b.value :: a == b
  }

  /**
   * Cardinality: a one-valued field has at most one final value, and no (field, value)
   * pair appears twice, so the final sort never meets a tie.
   */
  lemma FinalCardinality(all: set<Candidate>, ones: set<int>, overrides: set<Override>)
    requires Coherent(all) && !Conflicted(all, ones) && OverridesKept(overrides, ones)
    ensures KeysUnique(Applied(Selection(all, ones), overrides))
    ensures forall a, b | a in Applied(Selection(all, ones), overrides) && b in Applied(Selection(all, ones), overrides)
                          && a.field == b.field && a.field in ones :: a == b
  {
    var finals := Applied(Selection(all, ones), overrides);
    forall a, b | a in finals && b in finals && a.field == b.field && (a.field in ones || a.value == b.value)
      ensures a == b
    {
      if Overridden(overrides, a.field) {
        var x :| x in overrides && a == Final(x.field, x.value, FromOverride(x.id));
        var y :| y in overrides && b == Final(y.field, y.value, FromOverride(y.id));
      } else {
        var x :| x in Selection(all, ones) && a == Final(x.field, x.value, FromVersion(x.version));
        var y :| y in Selection(all, ones) && b == Final(y.field, y.value, FromVersion(y.version));
      }
    }
  }

  // ----- the sorted list of a set of finals

  predicate FinalLess(a: Final, b: Final) {
    a.field < b.field || (a.field == b.field && StringLess(a.value, b.value))
  }

  ghost predicate StrictlySorted(list: seq<Final>) {
    forall i, j | 0 <= i < j < |list| :: FinalLess(list[i], list[j])
  }

  lemma FinalOrder(a: Final, b: Final, c: Final)
    ensures !FinalLess(a, a)
    ensures FinalLess(a, b) && FinalLess(b, c) ==> FinalLess(a, c)
    ensures (a.field == b.field && a.value == b.value) || FinalLess(a, b) || FinalLess(b, a)
  {
    StringLessIrreflexive(a.value);
    StringLessTotal(a.value, b.value);
    if StringLess(a.value, b.value) && StringLess(b.value, c.value) {
      StringLessTransitive(a.value, b.value, c.value);
    }
  }

  ghost predicate Least(finals: set<Final>, least: Final) {
    least in finals && forall other | other in finals :: !FinalLess(other, least)
  }

  lemma {:induction false} LeastExists(finals: set<Final>)
    requires finals != {}
    ensures exists least :: Least(finals, least)
  {
    var f :| f in finals;
    if finals == {f} {
      FinalOrder(f, f, f);
      assert Least(finals, f);
    } else {
      LeastExists(finals - {f});
      var rest :| Least(finals - {f}, rest);
      FinalOrder(f, f, f);
      if FinalLess(f, rest) {
        forall other | other in finals
          ensures !FinalLess(other, f)
        {
          FinalOrder(other, f, rest);
        }
        assert Least(finals, f);
      } else {
        assert Least(finals, rest);
      }
    }
  }

  ghost function SortedList(finals: set<Final>): (list: seq<Final>)
    ensures forall f :: f in list <==> f in finals
  {
    if finals == {} then []
    else
      LeastExists(finals);
      var least :| Least(finals, least);
      [least] + SortedList(finals - {least})
  }

  lemma SortedListStep(finals: set<Final>) returns (least: Final)
    requires finals != {}
    ensures Least(finals, least)
    ensures SortedList(finals) == [least] + SortedList(finals - {least})
  {
    LeastExists(finals);
    least := SortedList(finals)[0];
  }

  /** The list is in the order of fields, then values. */
  lemma {:induction false} SortedListOrder(finals: set<Final>, i: nat, j: nat)
    requires i < j < |SortedList(finals)|
    ensures var a, b := SortedList(finals)[i], SortedList(finals)[j];
            a.field < b.field || (a.field == b.field && (a.value == b.value || StringLess(a.value, b.value)))
    decreases i
  {
    var least := SortedListStep(finals);
    var rest := SortedList(finals - {least});
    assert SortedList(finals)[j] == rest[j - 1];
    if i > 0 {
      SortedListOrder(finals - {least}, i - 1, j - 1);
    } else {
      assert rest[j - 1] in rest;
      FinalOrder(least, rest[j - 1], least);
    }
  }

  /** A strictly sorted list is determined by its elements. */
  lemma {:induction false} SortedListUnique(list: seq<Final>, finals: set<Final>)
    requires StrictlySorted(list) && forall f :: f in list <==> f in finals
    ensures list == SortedList(finals)
    decreases |list|
  {
    if list == [] {
      assert finals == {};
    } else {
      var first, rest := list[0], list[1..];
      assert list == [first] + rest;
      assert first in list;
      var least := SortedListStep(finals);
      var k :| 0 <= k < |list| && list[k] == least;
      assert k == 0;
      assert forall i | 0 <= i < |rest| :: rest[i] == list[i + 1] && FinalLess(first, rest[i]);
      FinalOrder(first, first, first);
      assert first !in rest;
      SortedListUnique(rest, finals - {least});
    }
  }

  // ----- resolution as the program computes it

  /** Rows in the order of the query: field, then priority downwards, then version identity. */
  ghost predicate InOrder(rows: seq<Candidate>) {
    forall i, j | 0 <= i < j < |rows| ::
      rows[i].field < rows[j].field || (rows[i].field == rows[j].field && Outranks(rows[i], rows[j]))
  }

  function Members(rows: seq<Candidate>): set<Candidate> {
    set c | c in rows
  }

  function SetOf(list: seq<Resolved>): set<Resolved> {
    set r | r in list
  }

  function Values(all: set<Candidate>): set<string> {
    set c | c in all :: c.value
  }

  lemma MembersConcat(a: seq<Candidate>, b: seq<Candidate>)
    ensures Members(a + b) == Members(a) + Members(b)
  {
  }

  lemma SetOfConcat(a: seq<Resolved>, b: seq<Resolved>)
    ensures SetOf(a + b) == SetOf(a) + SetOf(b)
  {
  }

  /** One field's rows, in query order. */
  ghost predicate FieldGroup(group: seq<Candidate>, field: int) {
    group != [] && InOrder(group) && forall i | 0 <= i < |group| :: group[i].field == field
  }

  /** The values at one priority. */
  function ValuesAt(all: set<Candidate>, priority: int): set<string> {
    set c | c in all && c.priority == priority :: c.value
  }

  /** The first row of a one-valued field decides, unless its priority has two values. */
  lemma FirstRowDecides(group: seq<Candidate>, ones: set<int>)
    requires group != [] && FieldGroup(group, group[0].field) && group[0].field in ones
    ensures var values := ValuesAt(Members(group), group[0].priority);
            && group[0].value in values
            && (Conflicted(Members(group), ones) <==> values != {group[0].value})
            && (values == {group[0].value} ==>
                  Selection(Members(group), ones) == {Resolved(group[0].field, group[0].value, group[0].version)})
  {
    var first, all := group[0], Members(group);
    var values := ValuesAt(all, first.priority);
    forall c | c in all
      ensures c.field == first.field && Outranks(first, c)
    {
      var i :| 0 <= i < |group| && group[i] == c;
    }
    assert first in all && TopOfField(all, first) && Wins(all, ones, first);
    assert forall c | c in all :: TopOfField(all, c) <==> c.priority == first.priority;
    if values == {first.value} {
      assert forall c | c in all && c.priority == first.priority :: c.value in values;
    } else {
      var other :| other in values && other != first.value;
      var c :| c in all && c.priority == first.priority && c.value == other;
      assert TopOfField(all, c);
    }
  }

  method ResolveOne(group: seq<Candidate>, ones: set<int>) returns (r: Result<Resolved, ConflictError>)
    requires group != [] && FieldGroup(group, group[0].field) && group[0].field in ones
    ensures r.Err? <==> Conflicted(Members(group), ones)
    ensures r.Ok? ==> Selection(Members(group), ones) == {r.value}
    ensures r.Err? ==> r.error == PolicyConflict(group[0].field, group[0].priority)
  {
    var first := group[0];
    var values := ValuesAt(Members(group), first.priority);
    FirstRowDecides(group, ones);
    if |values| > 1 {
      return Err(PolicyConflict(first.field, first.priority));
    }
    assert values == {first.value} by {
      assert values == {first.value} + (values - {first.value});
    }
    return Ok(Resolved(first.field, first.value, first.version));
  }

  /** A row after all others of its field adds a value only when the value is new. */
  lemma LowerRow(all: set<Candidate>, ones: set<int>, c: Candidate)
    requires c.field !in ones
    requires forall other | other in all :: other.field == c.field && Outranks(other, c)
    ensures Selection(all + {c}, ones) ==
            if c.value in Values(all) then Selection(all, ones)
            else Selection(all, ones) + {Resolved(c.field, c.value, c.version)}
    ensures Values(all + {c}) == Values(all) + {c.value}
  {
    if c in all {
      assert all + {c} == all && c.value in Values(all);
    } else {
      forall x
        ensures Wins(all + {c}, ones, x) <==> Wins(all, ones, x) || (x == c && c.value !in Values(all))
      {
      }
    }
  }

  lemma NextRow(group: seq<Candidate>, i: nat)
    requires InOrder(group) && i < |group| && forall k | 0 <= k < |group| :: group[k].field == group[0].field
    ensures Members(group[..i + 1]) == Members(group[..i]) + {group[i]}
    ensures forall other | other in Members(group[..i]) :: other.field == group[i].field && Outranks(other, group[i])
  {
    assert group[..i + 1] == group[..i] + [group[i]];
    forall other | other in Members(group[..i])
      ensures other.field == group[i].field && Outranks(other, group[i])
    {
      var k :| 0 <= k < i && group[k] == other;
    }
  }

  /** What the loop over a many-valued group has built after `i` rows. */
  ghost predicate UniqueSoFar(group: seq<Candidate>, i: nat, ones: set<int>, list: seq<Resolved>, seen: set<string>)
    requires i <= |group|
  {
    && seen == Values(Members(group[..i]))
    && Selection(Members(group[..i]), ones) == SetOf(list)
    && PairsDistinct(list)
    && forall r | r in list :: r.value in seen
  }

  lemma UniqueStep(group: seq<Candidate>, i: nat, ones: set<int>, list: seq<Resolved>, seen: set<string>)
    requires group != [] && FieldGroup(group, group[0].field) && group[0].field !in ones && i < |group|
    requires UniqueSoFar(group, i, ones, list, seen)
    ensures var c := group[i];
            if c.value in seen then UniqueSoFar(group, i + 1, ones, list, seen)
            else UniqueSoFar(group, i + 1, ones, list + [Resolved(c.field, c.value, c.version)], seen + {c.value})
  {
    var c := group[i];
    NextRow(group, i);
    LowerRow(Members(group[..i]), ones, c);
    SetOfConcat(list, [Resolved(c.field, c.value, c.version)]);
    assert forall k | 0 <= k < |list| :: list[k] in list;
  }

  method ResolveMany(group: seq<Candidate>, ones: set<int>) returns (list: seq<Resolved>)
    requires group != [] && FieldGroup(group, group[0].field) && group[0].field !in ones
    ensures Selection(Members(group), ones) == SetOf(list)
    ensures PairsDistinct(list)
  {
    list := [];
    var seen: set<string> := {};
    assert Members(group[..0]) == {};
    for i := 0 to |group|
      invariant UniqueSoFar(group, i, ones, list, seen)
    {
      UniqueStep(group, i, ones, list, seen);
      var c := group[i];
      if c.value !in seen {
        list, seen := list + [Resolved(c.field, c.value, c.version)], seen + {c.value};
      }
    }
    assert group[..|group|] == group;
  }

  /** No (field, value) pair is repeated. */
  ghost predicate PairsDistinct(list: seq<Resolved>) {
    forall i, j | 0 <= i < j < |list| :: list[i].field != list[j].field || list[i].value != list[j].value
  }

  /** One group: a single value, the union, or the conflict. */
  method ResolveGroup(group: seq<Candidate>, ones: set<int>) returns (r: Result<seq<Resolved>, ConflictError>)
    requires group != [] && FieldGroup(group, group[0].field)
    ensures r.Err? <==> Conflicted(Members(group), ones)
    ensures r.Ok? ==> Selection(Members(group), ones) == SetOf(r.value) && PairsDistinct(r.value)
  {
    if group[0].field in ones {
      var one := ResolveOne(group, ones);
      return if one.Ok? then Ok([one.value]) else Err(one.error);
    }
    var many := ResolveMany(group, ones);
    return Ok(many);
  }

  /** Consecutive groups of equal fields are resolved one after the other; a conflict raises. */
  method ResolveCandidates(rows: seq<Candidate>, ones: set<int>) returns (r: Result<seq<Resolved>, ConflictError>)
    requires InOrder(rows)
    ensures r.Err? <==> Conflicted(Members(rows), ones)
    ensures r.Ok? ==> Selection(Members(rows), ones) == SetOf(r.value) && PairsDistinct(r.value)
  {
    var resolved: seq<Resolved> := [];
    var i := 0;
    while i < |rows|
      invariant 0 <= i <= |rows| && FieldBoundary(rows, i)
      invariant Selection(Members(rows[..i]), ones) == SetOf(resolved) && PairsDistinct(resolved)
      invariant !Conflicted(Members(rows[..i]), ones)
      decreases |rows| - i
    {
      var j := GroupEnd(rows, i);
      NextGroup(rows, i, j, ones);
      var group := ResolveGroup(rows[i..j], ones);
      if group.Err? {
        ConflictSpreads(rows, j, ones);
        return Err(group.error);
      }
      SetOfConcat(resolved, group.value);
      GroupsDistinct(rows, i, j, ones, resolved, group.value);
      resolved := resolved + group.value;
      i := j;
    }
    assert rows[..i] == rows;
    return Ok(resolved);
  }

  lemma GroupsDistinct(rows: seq<Candidate>, i: nat, j: nat, ones: set<int>, a: seq<Resolved>, b: seq<Resolved>)
    requires i < j <= |rows| && FieldBoundary(rows, i)
    requires SetOf(a) == Selection(Members(rows[..i]), ones) && PairsDistinct(a)
    requires SetOf(b) == Selection(Members(rows[i..j]), ones) && PairsDistinct(b)
    ensures PairsDistinct(a + b)
  {
    forall x, y | 0 <= x < |a| && 0 <= y < |b|
      ensures a[x].field != b[y].field
    {
      assert a[x] in SetOf(a) && b[y] in SetOf(b);
      var c :| c in Members(rows[..i]) && c.field == a[x].field;
      var d :| d in Members(rows[i..j]) && d.field == b[y].field;
      var k :| 0 <= k < i && rows[k] == c;
      var l :| 0 <= l < j - i && rows[i..j][l] == d;
      assert rows[i + l] == d;
    }
  }

  /** No field continues across position `i`. */
  ghost predicate FieldBoundary(rows: seq<Candidate>, i: nat)
    requires i <= |rows|
  {
    forall a, b | 0 <= a < i <= b < |rows| :: rows[a].field < rows[b].field
  }

  lemma NextGroup(rows: seq<Candidate>, i: nat, j: nat, ones: set<int>)
    requires i < j <= |rows| && FieldBoundary(rows, i)
    ensures Selection(Members(rows[..j]), ones) == Selection(Members(rows[..i]), ones) + Selection(Members(rows[i..j]), ones)
    ensures Conflicted(Members(rows[..j]), ones) <==>
            Conflicted(Members(rows[..i]), ones) || Conflicted(Members(rows[i..j]), ones)
  {
    assert rows[..j] == rows[..i] + rows[i..j];
    MembersConcat(rows[..i], rows[i..j]);
    assert forall k | 0 <= k < j - i :: rows[i..j][k] == rows[i + k];
  }

  method GroupEnd(rows: seq<Candidate>, i: nat) returns (j: nat)
    requires InOrder(rows) && i < |rows|
    ensures i < j <= |rows| && FieldGroup(rows[i..j], rows[i].field)
    ensures FieldBoundary(rows, i) ==> FieldBoundary(rows, j)
  {
    j := i + 1;
    while j < |rows| && rows[j].field == rows[i].field
      invariant i < j <= |rows| && forall k | i <= k < j :: rows[k].field == rows[i].field
    {
      j := j + 1;
    }
    assert forall k | 0 <= k < j - i :: rows[i..j][k] == rows[i + k];
  }

  lemma ConflictSpreads(rows: seq<Candidate>, j: nat, ones: set<int>)
    requires j <= |rows| && FieldBoundary(rows, j) && Conflicted(Members(rows[..j]), ones)
    ensures Conflicted(Members(rows), ones)
  {
    assert rows == rows[..j] + rows[j..];
    MembersConcat(rows[..j], rows[j..]);
    assert forall k | 0 <= k < |rows| - j :: rows[j..][k] == rows[j + k];
  }

  // ----- applying overrides and sorting

  function InsertFinal(list: seq<Final>, f: Final): seq<Final> {
    if list == [] then [f]
    else if FinalLess(f, list[0]) then [f] + list
    else [list[0]] + InsertFinal(list[1..], f)
  }

  function SortFinals(list: seq<Final>): seq<Final> {
    if list == [] then [] else InsertFinal(SortFinals(list[..|list| - 1]), list[|list| - 1])
  }

  ghost predicate AllKeysUnique(list: seq<Final>) {
    forall i, j | 0 <= i < j < |list| :: list[i].field != list[j].field || list[i].value != list[j].value
  }

  lemma SortedCons(first: Final, rest: seq<Final>)
    requires StrictlySorted(rest) && forall g | g in rest :: FinalLess(first, g)
    ensures StrictlySorted([first] + rest)
  {
    assert forall i | 0 <= i < |rest| :: rest[i] in rest;
  }

  lemma {:induction false} InsertFinalSorts(list: seq<Final>, f: Final)
    requires StrictlySorted(list)
    requires forall g | g in list :: g.field != f.field || g.value != f.value
    ensures StrictlySorted(InsertFinal(list, f))
    ensures forall g :: g in InsertFinal(list, f) <==> g in list || g == f
  {
    if list != [] {
      var first, rest := list[0], list[1..];
      assert list == [first] + rest;
      assert forall i | 0 <= i < |rest| :: rest[i] == list[i + 1];
      FinalOrder(first, f, f);
      if FinalLess(f, first) {
        forall i | 0 <= i < |rest|
          ensures FinalLess(f, rest[i])
        {
          FinalOrder(f, first, rest[i]);
        }
      } else {
        InsertFinalSorts(rest, f);
        SortedCons(first, InsertFinal(rest, f));
      }
    }
  }

  lemma {:induction false} SortFinalsSorts(list: seq<Final>)
    requires AllKeysUnique(list)
    ensures StrictlySorted(SortFinals(list))
    ensures forall f :: f in SortFinals(list) <==> f in list
  {
    if list != [] {
      var init, last := list[..|list| - 1], list[|list| - 1];
      assert list == init + [last];
      SortFinalsSorts(init);
      InsertFinalSorts(SortFinals(init), last);
    }
  }

  function OverrideSet(overrides: seq<Override>): set<Override> {
    set o | o in overrides
  }

  /** Policy values of overridden fields disappear, overrides come in, and the list is sorted. */
  function ApplyOverrides(resolved: seq<Resolved>, overrides: seq<Override>): seq<Final> {
    SortFinals(KeptFinals(resolved, OverrideSet(overrides)) + OverrideFinals(overrides))
  }

  function KeptFinals(resolved: seq<Resolved>, overrides: set<Override>): seq<Final> {
    if resolved == [] then []
    else
      var r := resolved[|resolved| - 1];
      KeptFinals(resolved[..|resolved| - 1], overrides)
      + (if Overridden(overrides, r.field) then [] else [Final(r.field, r.value, FromVersion(r.version))])
  }

  function OverrideFinals(overrides: seq<Override>): seq<Final> {
    seq(|overrides|, i requires 0 <= i < |overrides| =>
          Final(overrides[i].field, overrides[i].value, FromOverride(overrides[i].id)))
  }

  lemma {:induction false} KeptFinalsDistinct(resolved: seq<Resolved>, overrides: set<Override>)
    requires PairsDistinct(resolved)
    ensures AllKeysUnique(KeptFinals(resolved, overrides))
    ensures forall f :: f in KeptFinals(resolved, overrides) <==>
              exists r | r in resolved :: !Overridden(overrides, r.field) && f == Final(r.field, r.value, FromVersion(r.version))
  {
    if resolved != [] {
      var init, last := resolved[..|resolved| - 1], resolved[|resolved| - 1];
      assert resolved == init + [last];
      KeptFinalsDistinct(init, overrides);
      var kept := KeptFinals(init, overrides);
      forall i | 0 <= i < |kept|
        ensures kept[i].field != last.field || kept[i].value != last.value
      {
        assert kept[i] in kept;
        var r :| r in init && kept[i] == Final(r.field, r.value, FromVersion(r.version));
        var k :| 0 <= k < |init| && init[k] == r;
        assert resolved[k] == r;
      }
    }
  }

  ghost predicate NoDuplicates<T>(list: seq<T>) {
    forall i, j | 0 <= i < j < |list| :: list[i] != list[j]
  }

  /** The program's list is the strictly sorted list of the final set. */
  lemma ApplyOverridesIsSortedList(resolved: seq<Resolved>, overrides: seq<Override>, ones: set<int>)
    requires PairsDistinct(resolved) && NoDuplicates(overrides)
    requires OverridesKept(OverrideSet(overrides), ones)
    ensures ApplyOverrides(resolved, overrides) == SortedList(Applied(SetOf(resolved), OverrideSet(overrides)))
  {
    var active := OverrideSet(overrides);
    var kept, added := KeptFinals(resolved, active), OverrideFinals(overrides);
    KeptFinalsDistinct(resolved, active);
    assert forall i | 0 <= i < |overrides| :: overrides[i] in active && added[i] in added;
    forall i, j | 0 <= i < j < |kept + added|
      ensures (kept + added)[i].field != (kept + added)[j].field || (kept + added)[i].value != (kept + added)[j].value
    {
      if j >= |kept| && i < |kept| {
        assert kept[i] in kept;
        assert overrides[j - |kept|] in active;
      } else if i >= |kept| {
        assert overrides[i - |kept|] != overrides[j - |kept|];
      }
    }
    SortFinalsSorts(kept + added);
    assert forall f :: f in kept + added <==> f in Applied(SetOf(resolved), active);
    SortedListUnique(ApplyOverrides(resolved, overrides), Applied(SetOf(resolved), active));
  }

  /** Resolution followed by overrides; an override never hides a conflict of its field. */
  method ResolveFinal(rows: seq<Candidate>, ones: set<int>, overrides: seq<Override>)
    returns (r: Result<seq<Final>, ConflictError>)
    requires InOrder(rows) && NoDuplicates(overrides) && OverridesKept(OverrideSet(overrides), ones)
    ensures r.Err? <==> Conflicted(Members(rows), ones)
    ensures r.Ok? ==> r.value == SortedList(Applied(Selection(Members(rows), ones), OverrideSet(overrides)))
  {
    var resolved := ResolveCandidates(rows, ones);
    if resolved.Err? {
      return Err(resolved.error);
    }
    ApplyOverridesIsSortedList(resolved.value, overrides, ones);
    return Ok(ApplyOverrides(resolved.value, overrides));
  }

  /**
   * Resolution is a function of the candidate set: two row orders that the query
   * allows, and two override orders, conflict together or give the same final list.
   */
  method ResolveTwice(first: seq<Candidate>, second: seq<Candidate>, ones: set<int>,
                      overrides: seq<Override>, reordered: seq<Override>)
    returns (a: Result<seq<Final>, ConflictError>, b: Result<seq<Final>, ConflictError>)
    requires InOrder(first) && InOrder(second) && Members(first) == Members(second)
    requires NoDuplicates(overrides) && NoDuplicates(reordered)
    requires OverrideSet(overrides) == OverrideSet(reordered)
    requires OverridesKept(OverrideSet(overrides), ones)
    ensures a.Ok? <==> b.Ok?
    ensures a.Ok? ==> a.value == b.value
  {
    a := ResolveFinal(first, ones, overrides);
    b := ResolveFinal(second, ones, reordered);
  }
}
