/**
 * Materialized assignments of one employee: half-open intervals [from, until) that
 * a reconciliation at an instant diffs against the desired assignments.
 */
module Reconciliation {
  import opened Common

  // ----- explanations and row identity

  datatype Json =
    | JNull
    | JBool(flag: bool)
    | JInt(number: int)
    | JStr(text: string)
    | JIds(ids: set<int>)  // a sorted list of identities
    | JStrs(texts: set<string>)  // a sorted list of values
    | JTable(rows: map<int, Json>)  // a list of records, one for each identity
    | JArr(items: seq<Json>)
    | JObj(members: map<string, Json>)

  const CLOCK_KEY := "evaluation_date"

  /** Removes every member that only records the clock. */
  function Stable(j: Json): Json {
    match j
    case JObj(members) => JObj(map k | k in members && k != CLOCK_KEY :: Stable(members[k]))
    case JArr(items) => JArr(seq(|items|, i requires 0 <= i < |items| => Stable(items[i])))
    case JTable(rows) => JTable(map k | k in rows :: Stable(rows[k]))
    case _ => j
  }

  /** Two documents that differ at most in members named `evaluation_date`. */
  ghost predicate SameButClock(a: Json, b: Json) {
    match (a, b)
    case (JObj(m), JObj(n)) =>
      && (forall k | k != CLOCK_KEY :: k in m <==> k in n)
      && forall k | k in m && k in n && k != CLOCK_KEY :: SameButClock(m[k], n[k])
    case (JArr(s), JArr(t)) => |s| == |t| && forall i | 0 <= i < |s| :: SameButClock(s[i], t[i])
    case (JTable(m), JTable(n)) => m.Keys == n.Keys && forall k | k in m && k in n :: SameButClock(m[k], n[k])
    case _ => a == b
  }

  lemma {:induction false} StableIgnoresOnlyTheClock(a: Json, b: Json)
    ensures Stable(a) == Stable(b) <==> SameButClock(a, b)
  {
    match (a, b)
    case (JObj(m), JObj(n)) =>
      forall k | k in m && k in n
        ensures Stable(m[k]) == Stable(n[k]) <==> SameButClock(m[k], n[k])
      {
        StableIgnoresOnlyTheClock(m[k], n[k]);
      }
      if Stable(a) == Stable(b) {
        var x, y := Stable(a).members, Stable(b).members;
        forall k | k != CLOCK_KEY
          ensures k in m <==> k in n
          ensures k in m && k in n ==> Stable(m[k]) == Stable(n[k])
        {
          assert k in m <==> k in x;
          assert k in n <==> k in y;
          if k in m && k in n {
            assert x[k] == Stable(m[k]) && y[k] == Stable(n[k]);
          }
        }
      }
      if SameButClock(a, b) {
        assert Stable(a).members == Stable(b).members;
      }
    case (JArr(s), JArr(t)) =>
      assert |Stable(a).items| == |s| && |Stable(b).items| == |t|;
      forall i | 0 <= i < |s| && i < |t|
        ensures Stable(a).items[i] == Stable(b).items[i] <==> SameButClock(s[i], t[i])
      {
        StableIgnoresOnlyTheClock(s[i], t[i]);
      }
      if SameButClock(a, b) {
        assert Stable(a).items == Stable(b).items;
      }
    case (JTable(m), JTable(n)) =>
      var x, y := Stable(a).rows, Stable(b).rows;
      assert x.Keys == m.Keys && y.Keys == n.Keys;
      forall k | k in m && k in n
        ensures x[k] == y[k] <==> SameButClock(m[k], n[k])
      {
        StableIgnoresOnlyTheClock(m[k], n[k]);
      }
      if SameButClock(a, b) {
        assert forall k | k in x :: k in m && k in n && x[k] == y[k];
        assert x == y;
      }
      if Stable(a) == Stable(b) {
        assert forall k | k in m && k in n :: x[k] == y[k];
      }
    case _ =>
  }

  datatype Source = FromVersion(versionId: int) | FromOverride(overrideId: int)

  datatype Assignment = Assignment(field: int, value: string, source: Source, explanation: Json)

  datatype Key = Key(field: int, value: string, source: Source, evidence: Json)

  function KeyOf(a: Assignment): Key {
    Key(a.field, a.value, a.source, Stable(a.explanation))
  }

  datatype Row = Row(assignment: Assignment, from: int, until: Option<int>)

  datatype Entry = Created(assignment: Assignment, at: int) | Ended(assignment: Assignment, at: int)

  datatype History = History(rows: seq<Row>, audit: seq<Entry>)

  datatype OrderError = OutOfOrder(requestedAt: int)

  // ----- the insertion-ordered dictionary of desired assignments

  /** The first position of a key stays, its last value wins. */
  function Put(dict: seq<Assignment>, a: Assignment): seq<Assignment> {
    if dict == [] then [a]
    else if KeyOf(dict[0]) == KeyOf(a) then [a] + dict[1..]
    else [dict[0]] + Put(dict[1..], a)
  }

  function Pop(dict: seq<Assignment>, key: Key): seq<Assignment> {
    if dict == [] then []
    else if KeyOf(dict[0]) == key then dict[1..]
    else [dict[0]] + Pop(dict[1..], key)
  }

  function ByKey(desired: seq<Assignment>): seq<Assignment> {
    if desired == [] then [] else Put(ByKey(desired[..|desired| - 1]), desired[|desired| - 1])
  }

  function Keys(list: seq<Assignment>): set<Key> {
    set a | a in list :: KeyOf(a)
  }

  /** No two entries share a key. */
  ghost predicate Distinct(dict: seq<Assignment>) {
    dict == [] || (KeyOf(dict[0]) !in Keys(dict[1..]) && Distinct(dict[1..]))
  }

  lemma ConsKeys(a: Assignment, rest: seq<Assignment>)
    ensures Keys([a] + rest) == {KeyOf(a)} + Keys(rest)
    ensures Distinct([a] + rest) <==> Distinct(rest) && KeyOf(a) !in Keys(rest)
  {
    assert ([a] + rest)[1..] == rest;
  }

  lemma {:induction false} PutKeys(dict: seq<Assignment>, a: Assignment)
    ensures Keys(Put(dict, a)) == Keys(dict) + {KeyOf(a)}
    ensures Distinct(dict) ==> Distinct(Put(dict, a))
  {
    if dict == [] {
      ConsKeys(a, []);
    } else {
      var first, rest := dict[0], dict[1..];
      assert dict == [first] + rest;
      ConsKeys(first, rest);
      if KeyOf(first) == KeyOf(a) {
        ConsKeys(a, rest);
      } else {
        PutKeys(rest, a);
        ConsKeys(first, Put(rest, a));
      }
    }
  }

  lemma {:induction false} PopKeys(dict: seq<Assignment>, key: Key)
    requires Distinct(dict)
    ensures Keys(Pop(dict, key)) == Keys(dict) - {key}
    ensures Distinct(Pop(dict, key))
  {
    if dict != [] {
      var first, rest := dict[0], dict[1..];
      assert dict == [first] + rest;
      ConsKeys(first, rest);
      if KeyOf(first) != key {
        PopKeys(rest, key);
        ConsKeys(first, Pop(rest, key));
      }
    }
  }

  lemma {:induction false} ByKeyKeys(desired: seq<Assignment>)
    ensures Keys(ByKey(desired)) == Keys(desired)
    ensures Distinct(ByKey(desired))
  {
    if desired != [] {
      var init, last := desired[..|desired| - 1], desired[|desired| - 1];
      assert desired == init + [last];
      ByKeyKeys(init);
      PutKeys(ByKey(init), last);
    }
  }

  // ----- one reconciliation

  datatype Swept = Swept(rows: seq<Row>, wanted: seq<Assignment>, audit: seq<Entry>)

  /**
   * The pass over the table: an open row whose key is wanted stays and uses the key
   * up; any other open row is deleted when it started at this very instant and is
   * closed otherwise.
   */
  function SweepRow(s: Swept, row: Row, at: int): Swept {
    if row.until.Some? then s.(rows := s.rows + [row])
    else if KeyOf(row.assignment) in Keys(s.wanted) then
      s.(rows := s.rows + [row], wanted := Pop(s.wanted, KeyOf(row.assignment)))
    else
      Swept(if row.from == at then s.rows else s.rows + [row.(until := Some(at))],
            s.wanted,
            s.audit + [Ended(row.assignment, at)])
  }

  function Sweep(rows: seq<Row>, wanted: seq<Assignment>, at: int): Swept {
    if rows == [] then Swept([], wanted, [])
    else SweepRow(Sweep(rows[..|rows| - 1], wanted, at), rows[|rows| - 1], at)
  }

  function Opened(wanted: seq<Assignment>, at: int): seq<Row> {
    seq(|wanted|, i requires 0 <= i < |wanted| => Row(wanted[i], at, None))
  }

  function OpenedAudit(wanted: seq<Assignment>, at: int): seq<Entry> {
    seq(|wanted|, i requires 0 <= i < |wanted| => Created(wanted[i], at))
  }

  /** The order check looks only at the starts of the existing rows. */
  predicate Accepts(rows: seq<Row>, at: int) {
    forall row | row in rows :: row.from <= at
  }

  function Diffed(rows: seq<Row>, at: int, desired: seq<Assignment>): seq<Row> {
    var s := Sweep(rows, ByKey(desired), at);
    s.rows + Opened(s.wanted, at)
  }

  function Reconcile(h: History, at: int, desired: seq<Assignment>): Result<History, OrderError> {
    if !Accepts(h.rows, at) then Err(OutOfOrder(at))
    else
      var s := Sweep(h.rows, ByKey(desired), at);
      Ok(History(s.rows + Opened(s.wanted, at), h.audit + s.audit + OpenedAudit(s.wanted, at)))
  }

  // ----- as-of queries

  predicate Live(row: Row, instant: int) {
    row.from <= instant && (row.until.None? || instant < row.until.value)
  }

  datatype Answer = Answer(assignment: Assignment, from: int)

  function AsOf(rows: seq<Row>, instant: int): seq<Answer> {
    if rows == [] then []
    else
      var row := rows[|rows| - 1];
      AsOf(rows[..|rows| - 1], instant) + (if Live(row, instant) then [Answer(row.assignment, row.from)] else [])
  }

  function LiveKeys(rows: seq<Row>, instant: int): set<Key> {
    set row | row in rows && Live(row, instant) :: KeyOf(row.assignment)
  }

  function OpenKeys(rows: seq<Row>): set<Key> {
    set row | row in rows && row.until.None? :: KeyOf(row.assignment)
  }

  /** The as-of answer lists the assignment and the start of exactly the rows live at the instant. */
  lemma {:induction false} AsOfMembers(rows: seq<Row>, instant: int, a: Answer)
    ensures a in AsOf(rows, instant) <==>
            exists row :: row in rows && Live(row, instant) && a == Answer(row.assignment, row.from)
  {
    if rows != [] {
      var init, row := rows[..|rows| - 1], rows[|rows| - 1];
      AsOfMembers(init, instant, a);
      assert rows == init + [row];
    }
  }

  lemma AsOfKeys(rows: seq<Row>, instant: int)
    ensures LiveKeys(rows, instant) == set a | a in AsOf(rows, instant) :: KeyOf(a.assignment)
  {
    forall k
      ensures k in LiveKeys(rows, instant) <==> exists a | a in AsOf(rows, instant) :: KeyOf(a.assignment) == k
    {
      if row :| row in rows && Live(row, instant) && KeyOf(row.assignment) == k {
        AsOfMembers(rows, instant, Answer(row.assignment, row.from));
      }
      if a :| a in AsOf(rows, instant) && KeyOf(a.assignment) == k {
        AsOfMembers(rows, instant, a);
      }
    }
  }

  lemma {:induction false} OpenedNotYetLive(rows: seq<Row>, wanted: seq<Assignment>, at: int, instant: int)
    requires instant < at
    ensures AsOf(rows + Opened(wanted, at), instant) == AsOf(rows, instant)
  {
    if wanted == [] {
      assert rows + Opened(wanted, at) == rows;
    } else {
      var init, last := wanted[..|wanted| - 1], Row(wanted[|wanted| - 1], at, None);
      OpenedNotYetLive(rows, init, at, instant);
      assert rows + Opened(wanted, at) == rows + Opened(init, at) + [last];
    }
  }

  lemma SweepRowKeepsThePast(s: Swept, row: Row, at: int, instant: int)
    requires instant < at
    ensures AsOf(SweepRow(s, row, at).rows, instant) == AsOf(s.rows + [row], instant)
  {
  }

  lemma {:induction false} SweepKeepsThePast(rows: seq<Row>, wanted: seq<Assignment>, at: int, instant: int)
    requires instant < at
    ensures AsOf(Sweep(rows, wanted, at).rows, instant) == AsOf(rows, instant)
  {
    if rows != [] {
      var init, row := rows[..|rows| - 1], rows[|rows| - 1];
      SweepKeepsThePast(init, wanted, at, instant);
      SweepRowKeepsThePast(Sweep(init, wanted, at), row, at, instant);
    }
  }

  /**
   * The past is never rewritten: a reconciliation leaves the as-of answer at every
   * earlier instant unchanged, whatever the clock did before.
   */
  lemma PastNeverRewritten(rows: seq<Row>, at: int, desired: seq<Assignment>, instant: int)
    requires instant < at
    ensures AsOf(Diffed(rows, at, desired), instant) == AsOf(rows, instant)
  {
    var s := Sweep(rows, ByKey(desired), at);
    SweepKeepsThePast(rows, ByKey(desired), at, instant);
    OpenedNotYetLive(s.rows, s.wanted, at, instant);
  }

  // ----- what a reconciliation opens, keeps and closes

  /** Open rows carry pairwise different keys. */
  ghost predicate OpenDistinct(rows: seq<Row>) {
    rows == []
    || (OpenDistinct(rows[..|rows| - 1])
        && (rows[|rows| - 1].until.Some? || KeyOf(rows[|rows| - 1].assignment) !in OpenKeys(rows[..|rows| - 1])))
  }

  /** After any part of the pass: each wanted key is either open once or still to be added. */
  ghost predicate Balanced(s: Swept, wanted: seq<Assignment>) {
    && Distinct(s.wanted)
    && OpenDistinct(s.rows)
    && OpenKeys(s.rows) !! Keys(s.wanted)
    && OpenKeys(s.rows) + Keys(s.wanted) == Keys(wanted)
  }

  lemma OpenKeysAppend(rows: seq<Row>, row: Row)
    ensures OpenKeys(rows + [row]) == OpenKeys(rows) + (if row.until.None? then {KeyOf(row.assignment)} else {})
    ensures OpenDistinct(rows) && (row.until.Some? || KeyOf(row.assignment) !in OpenKeys(rows))
            ==> OpenDistinct(rows + [row])
  {
    assert (rows + [row])[..|rows|] == rows;
  }

  lemma SweepRowBalanced(s: Swept, row: Row, at: int, wanted: seq<Assignment>)
    requires Balanced(s, wanted)
    ensures Balanced(SweepRow(s, row, at), wanted)
  {
    OpenKeysAppend(s.rows, row);
    OpenKeysAppend(s.rows, row.(until := Some(at)));
    PopKeys(s.wanted, KeyOf(row.assignment));
  }

  lemma {:induction false} SweepBalanced(rows: seq<Row>, wanted: seq<Assignment>, at: int)
    requires Distinct(wanted)
    ensures Balanced(Sweep(rows, wanted, at), wanted)
  {
    if rows != [] {
      var init := rows[..|rows| - 1];
      SweepBalanced(init, wanted, at);
      SweepRowBalanced(Sweep(init, wanted, at), rows[|rows| - 1], at, wanted);
    }
  }

  lemma OpenedCons(rows: seq<Row>, wanted: seq<Assignment>, at: int)
    requires wanted != []
    ensures rows + Opened(wanted, at) == rows + [Row(wanted[0], at, None)] + Opened(wanted[1..], at)
    ensures Keys(wanted) == {KeyOf(wanted[0])} + Keys(wanted[1..])
  {
    assert wanted == [wanted[0]] + wanted[1..];
    ConsKeys(wanted[0], wanted[1..]);
  }

  lemma {:induction false} OpeningAddsKeys(rows: seq<Row>, wanted: seq<Assignment>, at: int)
    requires OpenDistinct(rows) && Distinct(wanted) && OpenKeys(rows) !! Keys(wanted)
    ensures OpenKeys(rows + Opened(wanted, at)) == OpenKeys(rows) + Keys(wanted)
    ensures OpenDistinct(rows + Opened(wanted, at))
    decreases |wanted|
  {
    if wanted == [] {
      assert rows + Opened(wanted, at) == rows;
    } else {
      var first, rest := Row(wanted[0], at, None), wanted[1..];
      OpenedCons(rows, wanted, at);
      OpenKeysAppend(rows, first);
      OpeningAddsKeys(rows + [first], rest, at);
    }
  }

  /** After a reconciliation the open rows are exactly the desired keys, each open once. */
  lemma OpenRowsAreDesired(rows: seq<Row>, at: int, desired: seq<Assignment>)
    ensures OpenKeys(Diffed(rows, at, desired)) == Keys(desired)
    ensures OpenDistinct(Diffed(rows, at, desired))
  {
    ByKeyKeys(desired);
    SweepBalanced(rows, ByKey(desired), at);
    var s := Sweep(rows, ByKey(desired), at);
    OpeningAddsKeys(s.rows, s.wanted, at);
  }

  /** Each row of the pass is an old row, or an open one closed now that did not start now. */
  lemma {:induction false} SweepOrigins(rows: seq<Row>, wanted: seq<Assignment>, at: int, row: Row)
    requires row in Sweep(rows, wanted, at).rows
    ensures row in rows
            || exists old_ :: old_ in rows && old_.until.None? && old_.from != at && row == old_.(until := Some(at))
  {
    var init, last := rows[..|rows| - 1], rows[|rows| - 1];
    assert rows == init + [last];
    var s := Sweep(init, wanted, at);
    if row in s.rows {
      SweepOrigins(init, wanted, at, row);
    }
  }

  lemma {:induction false} PutMembers(dict: seq<Assignment>, a: Assignment, x: Assignment)
    requires Distinct(dict) && x in Put(dict, a)
    ensures x == a || (x in dict && KeyOf(x) != KeyOf(a))
  {
    if dict != [] && KeyOf(dict[0]) != KeyOf(a) && x in Put(dict[1..], a) {
      PutMembers(dict[1..], a, x);
    }
  }

  lemma {:induction false} SweepWants(rows: seq<Row>, wanted: seq<Assignment>, at: int, a: Assignment)
    requires a in Sweep(rows, wanted, at).wanted
    ensures a in wanted
  {
    if rows != [] {
      var s, row := Sweep(rows[..|rows| - 1], wanted, at), rows[|rows| - 1];
      if a !in s.wanted {
        PopMembers(s.wanted, KeyOf(row.assignment), a);
      }
      SweepWants(rows[..|rows| - 1], wanted, at, a);
    }
  }

  lemma {:induction false} PopMembers(dict: seq<Assignment>, key: Key, a: Assignment)
    requires a in Pop(dict, key)
    ensures a in dict
  {
    if dict != [] && KeyOf(dict[0]) != key && a in Pop(dict[1..], key) {
      PopMembers(dict[1..], key, a);
    }
  }

  /** The last of the desired assignments with its key. */
  ghost predicate LastOfKey(desired: seq<Assignment>, a: Assignment) {
    exists i :: 0 <= i < |desired| && desired[i] == a && forall j | i < j < |desired| :: KeyOf(desired[j]) != KeyOf(a)
  }

  lemma LastStays(desired: seq<Assignment>, next: Assignment, a: Assignment)
    requires LastOfKey(desired, a) && KeyOf(next) != KeyOf(a)
    ensures LastOfKey(desired + [next], a)
  {
    var i :| 0 <= i < |desired| && desired[i] == a && forall j | i < j < |desired| :: KeyOf(desired[j]) != KeyOf(a);
    assert (desired + [next])[i] == a;
  }

  lemma {:induction false} ByKeyIsLast(desired: seq<Assignment>, a: Assignment)
    requires a in ByKey(desired)
    ensures LastOfKey(desired, a)
  {
    var init, last := desired[..|desired| - 1], desired[|desired| - 1];
    ByKeyKeys(init);
    PutMembers(ByKey(init), last, a);
    if a == last {
      assert desired[|desired| - 1] == a;
    } else {
      ByKeyIsLast(init, a);
      LastStays(init, last, a);
      assert desired == init + [last];
    }
  }

  /** A row that is new carries a desired assignment, the last one of its key, and starts now. */
  lemma NewRowsAreDesired(rows: seq<Row>, at: int, desired: seq<Assignment>, row: Row)
    requires row in Diffed(rows, at, desired) && row !in rows && row.until.None?
    ensures row.from == at && LastOfKey(desired, row.assignment)
  {
    var s := Sweep(rows, ByKey(desired), at);
    if row in s.rows {
      SweepOrigins(rows, ByKey(desired), at, row);
      assert false;
    }
    var i :| 0 <= i < |Opened(s.wanted, at)| && Opened(s.wanted, at)[i] == row;
    SweepWants(rows, ByKey(desired), at, s.wanted[i]);
    ByKeyIsLast(desired, s.wanted[i]);
  }

  lemma {:induction false} ClosedRowsStay(rows: seq<Row>, wanted: seq<Assignment>, at: int, row: Row)
    requires row in rows && row.until.Some?
    ensures row in Sweep(rows, wanted, at).rows
  {
    var init, last := rows[..|rows| - 1], rows[|rows| - 1];
    assert rows == init + [last];
    if row in init {
      ClosedRowsStay(init, wanted, at, row);
    }
  }

  lemma DiffedOrigins(rows: seq<Row>, at: int, desired: seq<Assignment>, row: Row)
    requires row in Diffed(rows, at, desired)
    ensures row in rows
            || (exists old_ :: old_ in rows && old_.until.None? && old_.from != at && row == old_.(until := Some(at)))
            || (row.from == at && row.until.None?)
  {
    var s := Sweep(rows, ByKey(desired), at);
    if row in s.rows {
      SweepOrigins(rows, ByKey(desired), at, row);
    }
  }

  /**
   * Exactly when the rows answer every later instant with the desired keys: no row
   * that an earlier reconciliation closed later than now may carry another key.
   * A clock that never runs backwards leaves no such row at all.
   */
  lemma FutureIsDesiredExactly(rows: seq<Row>, at: int, desired: seq<Assignment>)
    requires Accepts(rows, at)
    ensures (forall instant | instant >= at :: LiveKeys(Diffed(rows, at, desired), instant) == Keys(desired))
            <==> (forall row | row in rows && row.until.Some? && row.until.value > at ::
                    KeyOf(row.assignment) in Keys(desired))
  {
    var after := Diffed(rows, at, desired);
    OpenRowsAreDesired(rows, at, desired);
    if forall instant | instant >= at :: LiveKeys(after, instant) == Keys(desired) {
      assert LiveKeys(after, at) == Keys(desired);
      forall row | row in rows && row.until.Some? && row.until.value > at
        ensures KeyOf(row.assignment) in Keys(desired)
      {
        ClosedRowsStay(rows, ByKey(desired), at, row);
        assert row in after && Live(row, at);
      }
    }
    if forall row | row in rows && row.until.Some? && row.until.value > at :: KeyOf(row.assignment) in Keys(desired) {
      forall instant | instant >= at
        ensures LiveKeys(after, instant) == Keys(desired)
      {
        forall row | row in after
          ensures row.from <= at && (Live(row, instant) ==> KeyOf(row.assignment) in Keys(desired))
        {
          DiffedOrigins(rows, at, desired, row);
          assert row.until.None? ==> KeyOf(row.assignment) in OpenKeys(after);
        }
        assert OpenKeys(after) <= LiveKeys(after, instant);
      }
    }
  }

  // ----- histories under a clock that never runs backwards

  /** No interval is empty, and nothing in the table is later than the clock. */
  ghost predicate Clocked(rows: seq<Row>, clock: int) {
    forall row | row in rows :: row.from <= clock && (row.until.Some? ==> row.from < row.until.value <= clock)
  }

  ghost predicate Apart(a: Row, b: Row) {
    KeyOf(a.assignment) == KeyOf(b.assignment) ==> forall instant :: !(Live(a, instant) && Live(b, instant))
  }

  /** At every instant each key has at most one live row. */
  ghost predicate NoOverlap(rows: seq<Row>) {
    rows == []
    || (NoOverlap(rows[..|rows| - 1]) && ApartFromAll(rows[..|rows| - 1], rows[|rows| - 1]))
  }

  ghost predicate ApartFromAll(rows: seq<Row>, row: Row) {
    forall other | other in rows :: Apart(other, row)
  }

  lemma {:induction false} SweepNoOverlap(rows: seq<Row>, wanted: seq<Assignment>, at: int)
    requires NoOverlap(rows) && Clocked(rows, at)
    ensures NoOverlap(Sweep(rows, wanted, at).rows)
  {
    if rows != [] {
      var init, row := rows[..|rows| - 1], rows[|rows| - 1];
      assert rows == init + [row];
      SweepNoOverlap(init, wanted, at);
      var s := Sweep(init, wanted, at);
      SweepStaysApart(init, wanted, at, row);
    }
  }

  lemma SweepStaysApart(rows: seq<Row>, wanted: seq<Assignment>, at: int, row: Row)
    requires ApartFromAll(rows, row)
    ensures ApartFromAll(Sweep(rows, wanted, at).rows, row)
  {
    forall other | other in Sweep(rows, wanted, at).rows
      ensures Apart(other, row)
    {
      SweepOrigins(rows, wanted, at, other);
      if other !in rows {
        var old_ :| old_ in rows && old_.until.None? && other == old_.(until := Some(at));
        assert Apart(old_, row);
        assert forall instant :: Live(other, instant) ==> Live(old_, instant);
      }
    }
  }

  lemma {:induction false} OpeningNoOverlap(rows: seq<Row>, wanted: seq<Assignment>, at: int)
    requires NoOverlap(rows) && Distinct(wanted) && OpenKeys(rows) !! Keys(wanted)
    requires forall row | row in rows && row.until.Some? :: row.until.value <= at
    ensures NoOverlap(rows + Opened(wanted, at))
    decreases |wanted|
  {
    if wanted == [] {
      assert rows + Opened(wanted, at) == rows;
    } else {
      var first, rest := Row(wanted[0], at, None), wanted[1..];
      OpenedCons(rows, wanted, at);
      forall other | other in rows
        ensures Apart(other, first)
      {
        assert other.until.None? ==> KeyOf(other.assignment) in OpenKeys(rows);
      }
      OpenKeysAppend(rows, first);
      OpeningNoOverlap(rows + [first], rest, at);
    }
  }

  lemma StepKeepsTableSound(rows: seq<Row>, at: int, desired: seq<Assignment>)
    requires NoOverlap(rows) && Clocked(rows, at)
    ensures NoOverlap(Diffed(rows, at, desired)) && Clocked(Diffed(rows, at, desired), at)
  {
    var wanted := ByKey(desired);
    var s := Sweep(rows, wanted, at);
    ByKeyKeys(desired);
    SweepBalanced(rows, wanted, at);
    SweepNoOverlap(rows, wanted, at);
    forall row | row in Diffed(rows, at, desired)
      ensures row.from <= at && (row.until.Some? ==> row.from < row.until.value <= at)
    {
      DiffedOrigins(rows, at, desired, row);
    }
    assert forall row | row in s.rows :: row in Diffed(rows, at, desired);
    OpeningNoOverlap(s.rows, s.wanted, at);
  }

  datatype Request = Request(at: int, desired: seq<Assignment>)

  ghost predicate NonDecreasing(requests: seq<Request>) {
    forall i, j | 0 <= i <= j < |requests| :: requests[i].at <= requests[j].at
  }

  /** Reconciling one request after the other, starting without rows. */
  function Run(requests: seq<Request>): Result<History, OrderError> {
    if requests == [] then Ok(History([], []))
    else
      var last := requests[|requests| - 1];
      match Run(requests[..|requests| - 1])
      case Ok(h) => Reconcile(h, last.at, last.desired)
      case Err(e) => Err(e)
  }

  /** The step function of time: the keys of the last request made at or before the instant. */
  function StepFunction(requests: seq<Request>, instant: int): set<Key> {
    if requests == [] then {}
    else
      var last := requests[|requests| - 1];
      if last.at <= instant then Keys(last.desired) else StepFunction(requests[..|requests| - 1], instant)
  }

  lemma RunLast(requests: seq<Request>)
    requires requests != [] && Run(requests[..|requests| - 1]).Ok?
    requires Accepts(Run(requests[..|requests| - 1]).value.rows, requests[|requests| - 1].at)
    ensures Run(requests).Ok?
    ensures var last := requests[|requests| - 1];
            Run(requests).value.rows == Diffed(Run(requests[..|requests| - 1]).value.rows, last.at, last.desired)
  {
  }

  lemma {:induction false} HistoryIsSound(requests: seq<Request>, clock: int)
    requires NonDecreasing(requests)
    requires requests != [] ==> requests[|requests| - 1].at <= clock
    ensures Run(requests).Ok?
    ensures NoOverlap(Run(requests).value.rows) && Clocked(Run(requests).value.rows, clock)
  {
    if requests != [] {
      var init, last := requests[..|requests| - 1], requests[|requests| - 1];
      assert init != [] ==> init[|init| - 1] == requests[|init| - 1];
      HistoryIsSound(init, last.at);
      RunLast(requests);
      StepKeepsTableSound(Run(init).value.rows, last.at, last.desired);
    }
  }

  /**
   * The history refines a step function: under a clock that never runs backwards, ties
   * included, no reconciliation is rejected, no interval is empty, intervals of one key
   * never overlap, and the as-of query at any instant returns exactly the stable keys
   * of the last request made at or before it.
   */
  lemma {:induction false} HistoryRefinesStepFunction(requests: seq<Request>, instant: int)
    requires NonDecreasing(requests)
    ensures Run(requests).Ok?
    ensures var rows := Run(requests).value.rows;
            && LiveKeys(rows, instant) == StepFunction(requests, instant)
            && NoOverlap(rows)
            && (requests != [] ==> Clocked(rows, requests[|requests| - 1].at))
  {
    HistoryIsSound(requests, if requests == [] then 0 else requests[|requests| - 1].at);
    if requests != [] {
      var init, last := requests[..|requests| - 1], requests[|requests| - 1];
      assert init != [] ==> init[|init| - 1] == requests[|init| - 1];
      HistoryIsSound(init, last.at);
      RunLast(requests);
      if instant < last.at {
        HistoryRefinesStepFunction(init, instant);
        PastKeysKept(Run(init).value.rows, last.at, last.desired, instant);
      } else {
        FutureIsDesiredExactly(Run(init).value.rows, last.at, last.desired);
      }
    }
  }

  lemma PastKeysKept(rows: seq<Row>, at: int, desired: seq<Assignment>, instant: int)
    requires instant < at
    ensures LiveKeys(Diffed(rows, at, desired), instant) == LiveKeys(rows, instant)
  {
    PastNeverRewritten(rows, at, desired, instant);
    AsOfKeys(rows, instant);
    AsOfKeys(Diffed(rows, at, desired), instant);
  }

  /** The premise is needed: the order check accepts this run, and instant 17 gets a wrong answer. */
  lemma ClockPremiseIsNeeded(a: Assignment)
    ensures var run := [Request(10, [a]), Request(20, []), Request(15, [])];
            && Run(run).Ok?
            && StepFunction(run, 17) == {}
            && LiveKeys(Run(run).value.rows, 17) == {KeyOf(a)}
  {
    var run := [Request(10, [a]), Request(20, []), Request(15, [])];
    var open, closed := Row(a, 10, None), Row(a, 10, Some(20));
    assert [a][..0] == [] && ByKey([a]) == [a];
    assert [open][..0] == [] && [closed][..0] == [];
    assert run[..0] == [] && run[..1][..0] == [] && run[..2][..1] == run[..1];
    RunLast(run[..1]);
    assert Run(run[..1]).value.rows == [open];
    RunLast(run[..2]);
    assert Sweep([open], [], 20).rows == [closed];
    assert Run(run[..2]).value.rows == [closed];
    RunLast(run);
    assert Sweep([closed], [], 15).rows == [closed];
    assert Run(run).value.rows == [closed];
    assert Live(closed, 17) && closed in [closed];
    assert StepFunction(run, 17) == Keys([]);
  }

  // ----- no churn, and the audit trail

  lemma {:induction false} SweepKeepsWanted(rows: seq<Row>, wanted: seq<Assignment>, at: int)
    requires OpenDistinct(rows) && OpenKeys(rows) <= Keys(wanted) && Distinct(wanted)
    ensures Sweep(rows, wanted, at).rows == rows && Sweep(rows, wanted, at).audit == []
    ensures Distinct(Sweep(rows, wanted, at).wanted)
    ensures Keys(Sweep(rows, wanted, at).wanted) == Keys(wanted) - OpenKeys(rows)
  {
    if rows != [] {
      var init, row := rows[..|rows| - 1], rows[|rows| - 1];
      assert rows == init + [row];
      OpenKeysAppend(init, row);
      SweepKeepsWanted(init, wanted, at);
      PopKeys(Sweep(init, wanted, at).wanted, KeyOf(row.assignment));
    }
  }

  lemma NoKeysNoEntries(list: seq<Assignment>)
    ensures Keys(list) == {} <==> list == []
  {
    if list != [] {
      assert KeyOf(list[0]) in Keys(list);
    }
  }

  /** Reconciling with the keys that are open already changes no row and audits nothing. */
  lemma NoChurn(h: History, at: int, desired: seq<Assignment>)
    requires Accepts(h.rows, at) && OpenDistinct(h.rows)
    requires Keys(desired) == OpenKeys(h.rows)
    ensures Reconcile(h, at, desired) == Ok(h)
  {
    ByKeyKeys(desired);
    SweepKeepsWanted(h.rows, ByKey(desired), at);
    var s := Sweep(h.rows, ByKey(desired), at);
    NoKeysNoEntries(s.wanted);
    assert h.rows + Opened([], at) == h.rows;
    assert h.audit + [] + OpenedAudit([], at) == h.audit;
  }

  ghost predicate SameButClocks(a: seq<Assignment>, b: seq<Assignment>) {
    |a| == |b|
    && forall i | 0 <= i < |a| ::
      a[i].field == b[i].field && a[i].value == b[i].value && a[i].source == b[i].source
      && SameButClock(a[i].explanation, b[i].explanation)
  }

  /** A later request that differs only in evaluation dates is such a request. */
  lemma NoChurnFromTheClock(h: History, first: int, desired: seq<Assignment>, second: int, later: seq<Assignment>)
    requires Accepts(h.rows, first) && first <= second && SameButClocks(desired, later)
    ensures Reconcile(Reconcile(h, first, desired).value, second, later) == Reconcile(h, first, desired)
  {
    var after := Reconcile(h, first, desired).value;
    OpenRowsAreDesired(h.rows, first, desired);
    assert after.rows == Diffed(h.rows, first, desired);
    forall row | row in after.rows
      ensures row.from <= second
    {
      DiffedOrigins(h.rows, first, desired, row);
    }
    forall i | 0 <= i < |desired|
      ensures KeyOf(desired[i]) == KeyOf(later[i]) && desired[i] in desired && later[i] in later
    {
      StableIgnoresOnlyTheClock(desired[i].explanation, later[i].explanation);
    }
    assert Keys(desired) == Keys(later);
    NoChurn(after, second, later);
  }

  /** Open rows whose assignment has a property. */
  function OpenCount(rows: seq<Row>, p: Assignment -> bool): int {
    if rows == [] then 0
    else
      var last := rows[|rows| - 1];
      OpenCount(rows[..|rows| - 1], p) + (if last.until.None? && p(last.assignment) then 1 else 0)
  }

  /** Created entries minus ended entries whose assignment has a property. */
  function NetCreated(audit: seq<Entry>, p: Assignment -> bool): int {
    if audit == [] then 0
    else
      var last := audit[|audit| - 1];
      NetCreated(audit[..|audit| - 1], p) + (if !p(last.assignment) then 0 else if last.Created? then 1 else -1)
  }

  lemma {:induction false} NetCreatedConcat(a: seq<Entry>, b: seq<Entry>, p: Assignment -> bool)
    ensures NetCreated(a + b, p) == NetCreated(a, p) + NetCreated(b, p)
  {
    if b == [] {
      assert a + b == a;
    } else {
      assert (a + b)[..|a + b| - 1] == a + b[..|b| - 1];
      NetCreatedConcat(a, b[..|b| - 1], p);
    }
  }

  lemma SweepRowAudits(s: Swept, row: Row, at: int, p: Assignment -> bool)
    ensures var after := SweepRow(s, row, at);
            OpenCount(after.rows, p) - NetCreated(after.audit, p) == OpenCount(s.rows + [row], p) - NetCreated(s.audit, p)
  {
    OpenCountAppend(s.rows, row, p);
    OpenCountAppend(s.rows, row.(until := Some(at)), p);
    assert (s.audit + [Ended(row.assignment, at)])[..|s.audit|] == s.audit;
  }

  lemma OpenCountAppend(rows: seq<Row>, row: Row, p: Assignment -> bool)
    ensures OpenCount(rows + [row], p) == OpenCount(rows, p) + (if row.until.None? && p(row.assignment) then 1 else 0)
  {
    assert (rows + [row])[..|rows|] == rows;
  }

  lemma {:induction false} SweepAudits(rows: seq<Row>, wanted: seq<Assignment>, at: int, p: Assignment -> bool)
    ensures OpenCount(Sweep(rows, wanted, at).rows, p) == OpenCount(rows, p) + NetCreated(Sweep(rows, wanted, at).audit, p)
  {
    if rows != [] {
      var init, row := rows[..|rows| - 1], rows[|rows| - 1];
      var s := Sweep(init, wanted, at);
      SweepAudits(init, wanted, at, p);
      SweepRowAudits(s, row, at, p);
      assert (s.rows + [row])[..|s.rows|] == s.rows;
    }
  }

  lemma {:induction false} OpeningAudits(rows: seq<Row>, wanted: seq<Assignment>, at: int, p: Assignment -> bool)
    ensures OpenCount(rows + Opened(wanted, at), p) == OpenCount(rows, p) + NetCreated(OpenedAudit(wanted, at), p)
  {
    if wanted == [] {
      assert rows + Opened(wanted, at) == rows;
    } else {
      var init, last := wanted[..|wanted| - 1], Row(wanted[|wanted| - 1], at, None);
      OpeningAudits(rows, init, at, p);
      assert rows + Opened(wanted, at) == rows + Opened(init, at) + [last];
      assert OpenedAudit(wanted, at)[..|wanted| - 1] == OpenedAudit(init, at);
    }
  }

  /**
   * One reconciliation moves the audit balance exactly as it moves the number of open
   * rows, for every property of assignments, and so for every key and every assignment.
   */
  lemma ReconcileAudits(h: History, at: int, desired: seq<Assignment>, p: Assignment -> bool)
    requires Reconcile(h, at, desired).Ok?
    ensures var after := Reconcile(h, at, desired).value;
            NetCreated(after.audit, p) - NetCreated(h.audit, p) == OpenCount(after.rows, p) - OpenCount(h.rows, p)
  {
    var wanted := ByKey(desired);
    var s := Sweep(h.rows, wanted, at);
    SweepAudits(h.rows, wanted, at, p);
    OpeningAudits(s.rows, s.wanted, at, p);
    NetCreatedConcat(h.audit, s.audit, p);
    NetCreatedConcat(h.audit + s.audit, OpenedAudit(s.wanted, at), p);
  }

  lemma {:induction false} SweepEntries(rows: seq<Row>, wanted: seq<Assignment>, at: int)
    ensures forall entry | entry in Sweep(rows, wanted, at).audit :: entry.at == at
  {
    if rows != [] {
      SweepEntries(rows[..|rows| - 1], wanted, at);
    }
  }

  /** The audit trail only grows, and each new entry carries the instant of its reconciliation. */
  lemma NewEntries(h: History, at: int, desired: seq<Assignment>)
    requires Reconcile(h, at, desired).Ok?
    ensures var audit := Reconcile(h, at, desired).value.audit;
            |h.audit| <= |audit| && audit[..|h.audit|] == h.audit && forall i | |h.audit| <= i < |audit| :: audit[i].at == at
  {
    SweepEntries(h.rows, ByKey(desired), at);
  }

  /** Over every run, and for every property, created minus ended audit entries equals the open rows. */
  lemma {:induction false} AuditConservation(requests: seq<Request>, p: Assignment -> bool)
    ensures Run(requests).Ok? ==> NetCreated(Run(requests).value.audit, p) == OpenCount(Run(requests).value.rows, p)
  {
    if requests != [] && Run(requests).Ok? {
      AuditConservation(requests[..|requests| - 1], p);
      var last := requests[|requests| - 1];
      ReconcileAudits(Run(requests[..|requests| - 1]).value, last.at, last.desired, p);
    }
  }

  lemma AcceptsAppend(rows: seq<Row>, row: Row)
    ensures forall at :: Accepts(rows + [row], at) <==> Accepts(rows, at) && row.from <= at
  {
    assert forall other :: other in rows + [row] <==> other in rows || other == row;
  }

  // ----- the table as the program updates it

  class AssignmentTable {
    var rows: seq<Row>
    var audit: seq<Entry>

    constructor ()
      ensures rows == [] && audit == []
    {
      rows, audit := [], [];
    }

    ghost function State(): History
      reads this
    {
      History(rows, audit)
    }

    method LatestStart() returns (latest: Option<int>)
      ensures forall at :: Accepts(rows, at) <==> latest.None? || latest.value <= at
    {
      latest := None;
      for i := 0 to |rows|
        invariant forall at :: Accepts(rows[..i], at) <==> latest.None? || latest.value <= at
      {
        AcceptsAppend(rows[..i], rows[i]);
        assert rows[..i + 1] == rows[..i] + [rows[i]];
        if latest.None? || latest.value < rows[i].from {
          latest := Some(rows[i].from);
        }
      }
      assert rows[..|rows|] == rows;
    }

    /** Closes, deletes and opens rows in place; a rejected call changes nothing. */
    method Refresh(at: int, desired: seq<Assignment>) returns (r: Result<(), OrderError>)
      modifies this
      ensures match Reconcile(old(State()), at, desired)
              case Ok(after) => r == Ok(()) && State() == after
              case Err(e) => r == Err(e) && State() == old(State())
      ensures r.Ok? ==> OpenKeys(rows) == Keys(desired)
      ensures r.Ok? ==> old(audit) <= audit && forall i | |old(audit)| <= i < |audit| :: audit[i].at == at
    {
      if Reconcile(State(), at, desired).Ok? {
        OpenRowsAreDesired(rows, at, desired);
        NewEntries(State(), at, desired);
      }
      var latest := LatestStart();
      if latest.Some? && at < latest.value {
        return Err(OutOfOrder(at));
      }
      var wanted := Dictionary(desired);
      var table, ended := [], [];
      for i := 0 to |rows|
        invariant Swept(table, wanted, ended) == Sweep(rows[..i], ByKey(desired), at)
        invariant rows == old(rows) && audit == old(audit)
      {
        assert rows[..i + 1][..i] == rows[..i];
        var row := rows[i];
        if row.until.Some? {
          table := table + [row];
        } else if KeyOf(row.assignment) in Keys(wanted) {
          wanted := Pop(wanted, KeyOf(row.assignment));
          table := table + [row];
        } else {
          if row.from != at {
            table := table + [row.(until := Some(at))];
          }
          ended := ended + [Ended(row.assignment, at)];
        }
      }
      assert rows[..|rows|] == rows;
      rows, audit := table, audit + ended;
      Open(wanted, at);
      return Ok(());
    }

    static method Dictionary(desired: seq<Assignment>) returns (dict: seq<Assignment>)
      ensures dict == ByKey(desired)
    {
      dict := [];
      for i := 0 to |desired|
        invariant dict == ByKey(desired[..i])
      {
        assert desired[..i + 1][..i] == desired[..i];
        dict := Put(dict, desired[i]);
      }
      assert desired[..|desired|] == desired;
    }

    method Open(wanted: seq<Assignment>, at: int)
      modifies this
      ensures rows == old(rows) + Opened(wanted, at)
      ensures audit == old(audit) + OpenedAudit(wanted, at)
    {
      for i := 0 to |wanted|
        invariant rows == old(rows) + Opened(wanted, at)[..i]
        invariant audit == old(audit) + OpenedAudit(wanted, at)[..i]
      {
        rows, audit := rows + [Row(wanted[i], at, None)], audit + [Created(wanted[i], at)];
      }
    }

    /** The as-of query, as a scan of the table. */
    method AssignmentsAsOf(instant: int) returns (answers: seq<Answer>)
      ensures answers == AsOf(rows, instant)
    {
      answers := [];
      for i := 0 to |rows|
        invariant answers == AsOf(rows[..i], instant)
      {
        assert rows[..i + 1][..i] == rows[..i];
        if Live(rows[i], instant) {
          answers := answers + [Answer(rows[i].assignment, rows[i].from)];
        }
      }
      assert rows[..|rows|] == rows;
    }
  }
}
