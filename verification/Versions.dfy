/**
 * Policy versions: each policy has a timeline of inclusive date ranges. A version is
 * identified by its position in the table plus one; what it assigns is its payload.
 */
module Versions {
  import opened Common
  import opened Calendar

  datatype Version<P> = Version(
    policy: int, number: int, priority: int, from: DateOrdinal, until: Option<DateOrdinal>, payload: P)

  datatype VersionError = RangeReversed | Overlap(row: nat)

  datatype Draft<P> = Draft(policy: int, priority: int, from: DateOrdinal, until: Option<DateOrdinal>, payload: P)

  predicate EffectiveOn<P>(v: Version<P>, day: int) {
    v.from <= day && (v.until.None? || day <= v.until.value)
  }

  /** Rows of one policy that are effective on a day. */
  function EffectiveRows<P>(versions: seq<Version<P>>, policy: int, day: int): set<nat> {
    set i: nat | i < |versions| && versions[i].policy == policy && EffectiveOn(versions[i], day)
  }

  ghost predicate Disjoint<P>(a: Version<P>, b: Version<P>) {
    forall day :: !(EffectiveOn(a, day) && EffectiveOn(b, day))
  }

  /** Ranges of one policy are pairwise disjoint and none is empty. */
  ghost predicate Timeline<P>(versions: seq<Version<P>>) {
    && (forall i | 0 <= i < |versions| :: versions[i].until.Some? ==> versions[i].from <= versions[i].until.value)
    && forall i, j | 0 <= i < j < |versions| && versions[i].policy == versions[j].policy ::
      Disjoint(versions[i], versions[j])
  }

  // ----- creating a version

  predicate Closable<P>(v: Version<P>, policy: int, nextFrom: int) {
    v.policy == policy && v.until.None? && v.from < nextFrom
  }

  /** The open-ended version of the policy with the latest start before `nextFrom`. */
  function PriorOpen<P>(versions: seq<Version<P>>, policy: int, nextFrom: int): (r: Option<nat>)
    ensures r.Some? ==> r.value < |versions| && Closable(versions[r.value], policy, nextFrom)
    ensures forall i | 0 <= i < |versions| && Closable(versions[i], policy, nextFrom) ::
              r.Some? && versions[i].from <= versions[r.value].from
  {
    if versions == [] then None
    else
      var earlier, last := PriorOpen(versions[..|versions| - 1], policy, nextFrom), versions[|versions| - 1];
      if Closable(last, policy, nextFrom) && (earlier.None? || versions[earlier.value].from < last.from)
      then Some(|versions| - 1) else earlier
  }

  function ClosePrior<P>(versions: seq<Version<P>>, policy: int, nextFrom: DateOrdinal): seq<Version<P>> {
    match PriorOpen(versions, policy, nextFrom)
    case None => versions
    case Some(i) => versions[i := versions[i].(until := Some(nextFrom - 1))]
  }

  predicate Overlaps<P>(v: Version<P>, d: Draft<P>) {
    v.policy == d.policy
    && v.from <= (if d.until.Some? then d.until.value else MAX_ORDINAL)
    && (v.until.None? || v.until.value >= d.from)
  }

  function FirstOverlap<P>(versions: seq<Version<P>>, d: Draft<P>): (r: Option<nat>)
    ensures r.Some? ==> r.value < |versions| && Overlaps(versions[r.value], d)
    ensures r.None? ==> forall i | 0 <= i < |versions| :: !Overlaps(versions[i], d)
  {
    if versions == [] then None
    else
      var earlier := FirstOverlap(versions[..|versions| - 1], d);
      if earlier.Some? then earlier
      else if Overlaps(versions[|versions| - 1], d) then Some(|versions| - 1) else None
  }

  function LastNumber<P>(versions: seq<Version<P>>, policy: int): (n: int)
    ensures n >= 0
    ensures forall i | 0 <= i < |versions| && versions[i].policy == policy :: versions[i].number <= n
  {
    if versions == [] then 0
    else
      var earlier, last := LastNumber(versions[..|versions| - 1], policy), versions[|versions| - 1];
      if last.policy == policy && last.number > earlier then last.number else earlier
  }

  function WithVersion<P>(versions: seq<Version<P>>, d: Draft<P>): Result<seq<Version<P>>, VersionError> {
    if d.until.Some? && d.until.value < d.from then Err(RangeReversed)
    else
      var closed := ClosePrior(versions, d.policy, d.from);
      match FirstOverlap(closed, d)
      case Some(row) => Err(Overlap(row))
      case None =>
        Ok(closed + [Version(d.policy, LastNumber(versions, d.policy) + 1, d.priority, d.from, d.until, d.payload)])
  }

  /** The last day of a draft; an open-ended one reaches the end of the calendar. */
  function LastDay<P>(d: Draft<P>): int {
    if d.until.Some? then d.until.value else MAX_ORDINAL
  }

  lemma OverlapMeansCommonDay<P>(v: Version<P>, d: Draft<P>)
    requires d.until.Some? ==> d.from <= d.until.value
    requires v.until.Some? ==> v.from <= v.until.value
    ensures Overlaps(v, d) <==>
            v.policy == d.policy && exists day :: d.from <= day <= LastDay(d) && EffectiveOn(v, day)
  {
    if Overlaps(v, d) {
      var day := if v.from <= d.from then d.from else v.from;
      assert EffectiveOn(v, day);
    }
  }

  /**
   * Creation fails exactly for a reversed range and for a range that shares a day with
   * a version of the policy other than the one that is closed to make room.
   */
  lemma CreateSucceedsExactly<P>(versions: seq<Version<P>>, d: Draft<P>)
    requires Timeline(versions)
    ensures WithVersion(versions, d).Ok? <==>
            (d.until.Some? ==> d.from <= d.until.value)
            && forall i, day | 0 <= i < |versions| && versions[i].policy == d.policy
                               && d.from <= day <= LastDay(d) && EffectiveOn(versions[i], day) ::
                 PriorOpen(versions, d.policy, d.from) == Some(i)
  {
    if d.until.None? || d.from <= d.until.value {
      var closed := ClosePrior(versions, d.policy, d.from);
      forall i | 0 <= i < |closed|
        ensures Overlaps(closed[i], d) <==>
                closed[i].policy == d.policy && exists day :: d.from <= day <= LastDay(d) && EffectiveOn(closed[i], day)
      {
        OverlapMeansCommonDay(closed[i], d);
      }
      if i, day :| 0 <= i < |versions| && versions[i].policy == d.policy && d.from <= day <= LastDay(d)
                   && EffectiveOn(versions[i], day) && PriorOpen(versions, d.policy, d.from) != Some(i) {
        assert EffectiveOn(closed[i], day);
        assert Overlaps(closed[i], d);
      }
    }
  }

  /** Creation keeps the timeline and numbers the version after all others of its policy. */
  lemma CreateKeepsTimeline<P>(versions: seq<Version<P>>, d: Draft<P>)
    requires Timeline(versions) && WithVersion(versions, d).Ok?
    ensures Timeline(WithVersion(versions, d).value)
    ensures forall i | 0 <= i < |versions| && versions[i].policy == d.policy ::
              versions[i].number < WithVersion(versions, d).value[|versions|].number
  {
    var after := WithVersion(versions, d).value;
    var closed := ClosePrior(versions, d.policy, d.from);
    forall i, j | 0 <= i < j < |after| && after[i].policy == after[j].policy
      ensures Disjoint(after[i], after[j])
    {
      forall day
        ensures !(EffectiveOn(after[i], day) && EffectiveOn(after[j], day))
      {
        if j < |closed| {
          assert EffectiveOn(after[i], day) ==> EffectiveOn(versions[i], day);
          assert EffectiveOn(after[j], day) ==> EffectiveOn(versions[j], day);
          assert Disjoint(versions[i], versions[j]);
        } else {
          assert !Overlaps(closed[i], d);
        }
      }
    }
  }

  lemma {:induction false} LastNumberIsUsed<P>(versions: seq<Version<P>>, policy: int)
    ensures LastNumber(versions, policy) == 0
            || exists i :: 0 <= i < |versions| && versions[i].policy == policy && versions[i].number == LastNumber(versions, policy)
  {
    if versions != [] {
      var init := versions[..|versions| - 1];
      LastNumberIsUsed(init, policy);
      if i :| 0 <= i < |init| && init[i].policy == policy && init[i].number == LastNumber(init, policy) {
        assert versions[i] == init[i];
      }
    }
  }

  /**
   * Creation stores what was asked for, numbered without gaps, and changes nothing else
   * but the end of an earlier open version of the same policy.
   */
  lemma CreateStoresTheDraft<P>(versions: seq<Version<P>>, d: Draft<P>)
    requires WithVersion(versions, d).Ok?
    ensures var after := WithVersion(versions, d).value;
            && |after| == |versions| + 1
            && (exists number :: after[|versions|] == Version(d.policy, number, d.priority, d.from, d.until, d.payload))
            && (after[|versions|].number == 1
                || exists i :: 0 <= i < |versions| && versions[i].policy == d.policy && versions[i].number == after[|versions|].number - 1)
            && forall i | 0 <= i < |versions| ::
                 after[i] == versions[i]
                 || (Closable(versions[i], d.policy, d.from) && after[i] == versions[i].(until := Some(d.from - 1)))
  {
    LastNumberIsUsed(versions, d.policy);
  }

  /**
   * What a creation does to the timeline: other policies and all days before the new
   * start keep their effective versions; the new version is the only one on its own
   * range; after its end only the version that was closed is missing.
   */
  lemma CreateMovesTheTimeline<P>(versions: seq<Version<P>>, d: Draft<P>, policy: int, day: DateOrdinal)
    requires Timeline(versions) && WithVersion(versions, d).Ok?
    ensures var after := WithVersion(versions, d).value;
            var closed := PriorOpen(versions, d.policy, d.from);
            EffectiveRows(after, policy, day) ==
            if policy != d.policy || day < d.from then EffectiveRows(versions, policy, day)
            else if day <= LastDay(d) then {|versions|}
            else EffectiveRows(versions, policy, day) - (if closed.Some? then {closed.value} else {})
  {
    var after := WithVersion(versions, d).value;
    forall i: nat | i < |versions|
      ensures after[i].policy == versions[i].policy
      ensures EffectiveOn(after[i], day) <==>
              EffectiveOn(versions[i], day) && (day < d.from || PriorOpen(versions, d.policy, d.from) != Some(i))
      ensures versions[i].policy == d.policy && d.from <= day <= LastDay(d) ==> !EffectiveOn(after[i], day)
    {
      CreateMovesRow(versions, d, i, day);
    }
    assert after[|versions|].policy == d.policy;
    assert EffectiveOn(after[|versions|], day) <==> d.from <= day <= LastDay(d);
  }

  lemma CreateMovesRow<P>(versions: seq<Version<P>>, d: Draft<P>, i: nat, day: DateOrdinal)
    requires WithVersion(versions, d).Ok? && i < |versions|
    ensures var row := WithVersion(versions, d).value[i];
            && row.policy == versions[i].policy
            && (EffectiveOn(row, day) <==>
                EffectiveOn(versions[i], day) && (day < d.from || PriorOpen(versions, d.policy, d.from) != Some(i)))
            && (row.policy == d.policy && d.from <= day <= LastDay(d) ==> !EffectiveOn(row, day))
  {
    var closed := ClosePrior(versions, d.policy, d.from);
    assert !Overlaps(closed[i], d);
  }

  // ----- runs

  function Run<P>(drafts: seq<Draft<P>>): seq<Version<P>> {
    if drafts == [] then []
    else
      var before := Run(drafts[..|drafts| - 1]);
      match WithVersion(before, drafts[|drafts| - 1])
      case Ok(after) => after
      case Err(_) => before
  }

  /** Every run of version creation keeps the ranges of each policy disjoint. */
  lemma {:induction false} AlwaysTimeline<P>(drafts: seq<Draft<P>>)
    ensures Timeline(Run(drafts))
  {
    if drafts != [] {
      var init, last := drafts[..|drafts| - 1], drafts[|drafts| - 1];
      AlwaysTimeline(init);
      if WithVersion(Run(init), last).Ok? {
        CreateKeepsTimeline(Run(init), last);
      }
    }
  }

  // ----- looking up effective versions

  datatype EffectiveError = MultipleEffective(policy: int)

  predicate Selected<P>(v: Version<P>, policies: set<int>, day: int) {
    v.policy in policies && EffectiveOn(v, day)
  }

  /** The effective version of each given (active) policy, or the conflict error. */
  method GetEffective<P>(versions: seq<Version<P>>, policies: set<int>, day: int)
    returns (r: Result<map<int, nat>, EffectiveError>)
    ensures r.Ok? <==> forall i, j | 0 <= i < j < |versions| && Selected(versions[i], policies, day)
                                     && Selected(versions[j], policies, day) :: versions[i].policy != versions[j].policy
    ensures r.Ok? ==> forall p :: p in r.value <==> p in policies && EffectiveRows(versions, p, day) != {}
    ensures r.Ok? ==> forall p | p in r.value :: EffectiveRows(versions, p, day) == {r.value[p]}
    ensures Timeline(versions) ==> r.Ok?
  {
    var found: map<int, nat> := map[];
    for n := 0 to |versions|
      invariant forall p | p in found ::
                  found[p] < n && versions[found[p]].policy == p && Selected(versions[found[p]], policies, day)
      invariant forall i | 0 <= i < n && Selected(versions[i], policies, day) ::
                  versions[i].policy in found && found[versions[i].policy] == i
    {
      var v := versions[n];
      if Selected(v, policies, day) {
        if v.policy in found {
          var i := found[v.policy];
          assert versions[i].policy == versions[n].policy;
          assert Timeline(versions) ==> Disjoint(versions[i], versions[n]);
          return Err(MultipleEffective(v.policy));
        }
        found := found[v.policy := n];
      }
    }
    forall p | p in found
      ensures EffectiveRows(versions, p, day) == {found[p]}
    {
      assert found[p] in EffectiveRows(versions, p, day);
    }
    forall p | p in policies && EffectiveRows(versions, p, day) != {}
      ensures p in found
    {
      var i :| i in EffectiveRows(versions, p, day);
      assert Selected(versions[i], policies, day);
    }
    return Ok(found);
  }

  class VersionTable<P> {
    var versions: seq<Version<P>>

    constructor ()
      ensures versions == []
    {
      versions := [];
    }

    /** Closes the prior open version in place, then inserts; an error rolls everything back. */
    method Create(d: Draft<P>) returns (r: Result<nat, VersionError>)
      modifies this
      ensures match WithVersion(old(versions), d)
              case Ok(after) => versions == after && r == Ok(|old(versions)|)
              case Err(e) => versions == old(versions) && r == Err(e)
    {
      if d.until.Some? && d.until.value < d.from {
        return Err(RangeReversed);
      }
      var saved := versions;
      var prior: Option<nat> := None;
      for i := 0 to |versions|
        invariant versions == saved
        invariant prior == PriorOpen(versions[..i], d.policy, d.from)
      {
        assert versions[..i + 1][..i] == versions[..i];
        if Closable(versions[i], d.policy, d.from) && (prior.None? || versions[prior.value].from < versions[i].from) {
          prior := Some(i);
        }
      }
      assert versions[..|versions|] == versions;
      if prior.Some? {
        versions := versions[prior.value := versions[prior.value].(until := Some(d.from - 1))];
      }
      var clash := FirstOverlap(versions, d);
      if clash.Some? {
        versions := saved;
        return Err(Overlap(clash.value));
      }
      var number := LastNumber(saved, d.policy) + 1;
      versions := versions + [Version(d.policy, number, d.priority, d.from, d.until, d.payload)];
      return Ok(|saved|);
    }
  }
}
