/**
 * The table of scheduled reconciliations: an event is pending until it is processed
 * or cancelled, its identity is (entity, id, trigger, instant), and its row number is
 * its position in the table.
 */
module Schedule {
  import opened Common
  import opened Calendar

  datatype Entity = PolicyVersionEntity | EmployeeEntity

  datatype Trigger = BecomesEffective | Expires | TenureThreshold

  datatype Status = Pending | Processed | Cancelled

  datatype EventKey = EventKey(entity: Entity, id: int, trigger: Trigger, at: int)

  datatype Event = Event(key: EventKey, status: Status, processedAt: Option<int>)

  datatype ScheduleError = InvalidEvent

  predicate Supported(key: EventKey) {
    key.id > 0
    && match key.entity
       case PolicyVersionEntity => key.trigger in {BecomesEffective, Expires}
       case EmployeeEntity => key.trigger == TenureThreshold
  }

  /** Identities are unique and `processedAt` is set exactly on processed events. */
  ghost predicate Sound(events: seq<Event>) {
    && (forall i, j | 0 <= i < j < |events| :: events[i].key != events[j].key)
    && (forall i | 0 <= i < |events| :: events[i].processedAt.Some? <==> events[i].status == Processed)
  }

  function KeysWith(events: seq<Event>, status: Status): set<EventKey> {
    set event | event in events && event.status == status :: event.key
  }

  function PendingKeys(events: seq<Event>): set<EventKey> {
    KeysWith(events, Pending)
  }

  function ProcessedKeys(events: seq<Event>): set<EventKey> {
    KeysWith(events, Processed)
  }

  /** The table only grows, identities stay in place and a processed event never changes. */
  ghost predicate Evolves(before: seq<Event>, after: seq<Event>) {
    forall i | 0 <= i < |before| ::
      i < |after| && after[i].key == before[i].key && (before[i].status == Processed ==> after[i] == before[i])
  }

  /** Nothing was processed, and what was processed before stays as it was. */
  ghost predicate KeepsProcessed(before: seq<Event>, after: seq<Event>) {
    Sound(after) && Evolves(before, after) && ProcessedKeys(after) == ProcessedKeys(before)
  }

  /** Every processed event was processed when it was due, and not after the clock. */
  ghost predicate Punctual(events: seq<Event>, clock: int) {
    forall i | 0 <= i < |events| && events[i].status == Processed ::
      events[i].processedAt.Some? && events[i].key.at <= events[i].processedAt.value <= clock
  }

  lemma StaysPunctual(before: seq<Event>, after: seq<Event>, clock: int)
    requires Sound(before) && Punctual(before, clock) && KeepsProcessed(before, after)
    ensures Punctual(after, clock)
  {
    forall i | 0 <= i < |after| && after[i].status == Processed
      ensures i < |before| && before[i] == after[i]
    {
      assert after[i].key in ProcessedKeys(before);
      var event :| event in before && event.status == Processed && event.key == after[i].key;
      var j :| 0 <= j < |before| && before[j] == event;
      assert after[j] == before[j];
    }
  }

  ghost predicate SameIdentities(before: seq<Event>, after: seq<Event>) {
    |before| == |after| && forall i | 0 <= i < |before| :: before[i].key == after[i].key
  }

  lemma SoundIdentities(before: seq<Event>, after: seq<Event>)
    requires Sound(before) && SameIdentities(before, after)
    requires forall i | 0 <= i < |after| :: after[i].processedAt.Some? <==> after[i].status == Processed
    ensures Sound(after)
  {
  }

  // ----- creating and cancelling events

  function Position(events: seq<Event>, key: EventKey): (r: Option<nat>)
    ensures r.Some? ==> r.value < |events| && events[r.value].key == key
    ensures r.None? ==> forall i | 0 <= i < |events| :: events[i].key != key
  {
    if events == [] then None
    else if events[|events| - 1].key == key then Some(|events| - 1)
    else Position(events[..|events| - 1], key)
  }

  /** Idempotent: a cancelled event is restored, a processed one stays processed. */
  function Scheduled(events: seq<Event>, key: EventKey): seq<Event> {
    match Position(events, key)
    case None => events + [Event(key, Pending, None)]
    case Some(i) => if events[i].status == Cancelled then events[i := events[i].(status := Pending)] else events
  }

  function CancelOne(event: Event, entity: Entity, ids: set<int>, keep: seq<EventKey>): Event {
    if event.key.entity == entity && event.key.id in ids && event.status == Pending && event.key !in keep
    then event.(status := Cancelled)
    else event
  }

  function CancelledExcept(events: seq<Event>, entity: Entity, ids: set<int>, keep: seq<EventKey>): seq<Event> {
    seq(|events|, i requires 0 <= i < |events| => CancelOne(events[i], entity, ids, keep))
  }

  function ScheduledAll(events: seq<Event>, keys: seq<EventKey>): seq<Event> {
    if keys == [] then events else Scheduled(ScheduledAll(events, keys[..|keys| - 1]), keys[|keys| - 1])
  }

  /** Cancels what is no longer desired, then creates or restores what is. */
  function Synced(events: seq<Event>, entity: Entity, ids: set<int>, desired: seq<EventKey>): seq<Event> {
    ScheduledAll(CancelledExcept(events, entity, ids, desired), desired)
  }

  lemma ScheduledAdds(events: seq<Event>, key: EventKey)
    requires Sound(events)
    ensures Sound(Scheduled(events, key)) && Evolves(events, Scheduled(events, key))
    ensures PendingKeys(Scheduled(events, key)) == PendingKeys(events) + ({key} - ProcessedKeys(events))
    ensures ProcessedKeys(Scheduled(events, key)) == ProcessedKeys(events)
  {
    var after := Scheduled(events, key);
    match Position(events, key) {
      case None =>
        assert after[|events|] in after;
        assert forall event :: event in after <==> event in events || event == Event(key, Pending, None);
        assert key !in ProcessedKeys(events);
      case Some(i) =>
        assert events[i] in events && after[i] in after;
        assert forall j | 0 <= j < |events| && j != i :: after[j] == events[j] && after[j].key != key;
        assert key in ProcessedKeys(events) <==> events[i].status == Processed;
        UpdatedKeys(events, i, after[i], Pending);
        UpdatedKeys(events, i, after[i], Processed);
    }
  }

  lemma UpdatedKeys(events: seq<Event>, i: nat, event: Event, status: Status)
    requires Sound(events) && i < |events| && event.key == events[i].key
    ensures KeysWith(events[i := event], status) ==
            (KeysWith(events, status) - {event.key}) + (if event.status == status then {event.key} else {})
  {
    var after := events[i := event];
    forall k
      ensures k in KeysWith(after, status) <==>
              (k in KeysWith(events, status) && k != event.key) || (event.status == status && k == event.key)
    {
      if k in KeysWith(after, status) {
        var j :| 0 <= j < |after| && after[j].status == status && after[j].key == k;
        assert j != i ==> events[j] in events;
      }
      if k in KeysWith(events, status) && k != event.key {
        var j :| 0 <= j < |events| && events[j].status == status && events[j].key == k;
        assert after[j] in after;
      }
      assert after[i] in after;
    }
  }

  lemma {:induction false} ScheduledAllAdds(events: seq<Event>, keys: seq<EventKey>)
    requires Sound(events)
    ensures Sound(ScheduledAll(events, keys)) && Evolves(events, ScheduledAll(events, keys))
    ensures PendingKeys(ScheduledAll(events, keys)) == PendingKeys(events) + ((set k | k in keys) - ProcessedKeys(events))
    ensures ProcessedKeys(ScheduledAll(events, keys)) == ProcessedKeys(events)
  {
    if keys != [] {
      var init, last := keys[..|keys| - 1], keys[|keys| - 1];
      assert keys == init + [last];
      ScheduledAllAdds(events, init);
      ScheduledAdds(ScheduledAll(events, init), last);
    }
  }

  lemma EvolvesTwice(a: seq<Event>, b: seq<Event>, c: seq<Event>)
    requires Evolves(a, b) && Evolves(b, c)
    ensures Evolves(a, c)
  {
    assert forall i | 0 <= i < |a| :: i < |b| && b[i].key == a[i].key;
  }

  /** A synchronization never changes an identity or a processed event. */
  lemma SyncedEvolves(events: seq<Event>, entity: Entity, ids: set<int>, desired: seq<EventKey>)
    ensures Evolves(events, Synced(events, entity, ids, desired))
  {
    var cancelled := CancelledExcept(events, entity, ids, desired);
    assert forall i | 0 <= i < |events| :: cancelled[i] == CancelOne(events[i], entity, ids, desired);
    ScheduledAllEvolves(cancelled, desired);
    EvolvesTwice(events, cancelled, ScheduledAll(cancelled, desired));
  }

  lemma {:induction false} ScheduledAllEvolves(events: seq<Event>, keys: seq<EventKey>)
    ensures Evolves(events, ScheduledAll(events, keys))
  {
    if keys != [] {
      var earlier := ScheduledAll(events, keys[..|keys| - 1]);
      ScheduledAllEvolves(events, keys[..|keys| - 1]);
      assert Evolves(earlier, Scheduled(earlier, keys[|keys| - 1]));
      EvolvesTwice(events, earlier, ScheduledAll(events, keys));
    }
  }

  lemma CancelledKeys(events: seq<Event>, entity: Entity, ids: set<int>, keep: seq<EventKey>)
    requires Sound(events)
    ensures var after := CancelledExcept(events, entity, ids, keep);
            && Sound(after) && Evolves(events, after)
            && PendingKeys(after) ==
               (set k | k in PendingKeys(events) && !(k.entity == entity && k.id in ids && k !in keep))
            && ProcessedKeys(after) == ProcessedKeys(events)
  {
    var after := CancelledExcept(events, entity, ids, keep);
    SoundIdentities(events, after);
    forall k
      ensures k in PendingKeys(after) <==>
              k in PendingKeys(events) && !(k.entity == entity && k.id in ids && k !in keep)
      ensures k in ProcessedKeys(after) <==> k in ProcessedKeys(events)
    {
    }
  }

  /**
   * A synchronization is exact. Among the synchronized entities the pending events
   * become the desired ones, except those that were processed already; every other
   * entity keeps its pending events; processed events are terminal.
   */
  lemma SyncIsExact(events: seq<Event>, entity: Entity, ids: set<int>, desired: seq<EventKey>)
    requires Sound(events)
    requires forall k | k in desired :: k.entity == entity && k.id in ids
    ensures var after := Synced(events, entity, ids, desired);
            && Sound(after) && Evolves(events, after)
            && ProcessedKeys(after) == ProcessedKeys(events)
            && PendingKeys(after) ==
               (set k | k in PendingKeys(events) && !(k.entity == entity && k.id in ids))
               + ((set k | k in desired) - ProcessedKeys(events))
  {
    CancelledKeys(events, entity, ids, desired);
    ScheduledAllAdds(CancelledExcept(events, entity, ids, desired), desired);
  }

  /** Everything processed so far was scheduled at or before the clock. */
  ghost predicate ProcessedBy(events: seq<Event>, clock: int) {
    forall k | k in ProcessedKeys(events) :: k.at <= clock
  }

  /** Under a clock that never runs backwards no future event was processed: the desired set exactly. */
  lemma SyncReachesDesired(events: seq<Event>, entity: Entity, ids: set<int>, desired: seq<EventKey>, now: int)
    requires Sound(events) && ProcessedBy(events, now)
    requires forall k | k in desired :: k.entity == entity && k.id in ids && k.at > now
    ensures (set k | k in PendingKeys(Synced(events, entity, ids, desired)) && k.entity == entity && k.id in ids)
            == (set k | k in desired)
  {
    SyncIsExact(events, entity, ids, desired);
  }

  // ----- which events are desired

  /** The inclusive date range of one policy version. */
  datatype Window = Window(id: int, from: int, until: Option<int>)

  predicate InWindow(w: Window, day: int) {
    w.from <= day && (w.until.None? || day <= w.until.value)
  }

  function Future(key: EventKey, now: int): seq<EventKey> {
    if key.at > now then [key] else []
  }

  function StartKey(w: Window): EventKey {
    EventKey(PolicyVersionEntity, w.id, BecomesEffective, Midnight(w.from))
  }

  function EndKey(w: Window): EventKey
    requires w.until.Some?
  {
    EventKey(PolicyVersionEntity, w.id, Expires, Midnight(w.until.value + 1))
  }

  function VersionEvents(windows: seq<Window>, now: int): seq<EventKey> {
    if windows == [] then []
    else
      var w := windows[|windows| - 1];
      VersionEvents(windows[..|windows| - 1], now)
      + Future(StartKey(w), now)
      + (if w.until.Some? && w.until.value < MAX_ORDINAL then Future(EndKey(w), now) else [])
  }

  lemma {:induction false} VersionEventsMembers(windows: seq<Window>, now: int, key: EventKey)
    ensures key in VersionEvents(windows, now) <==>
            key.at > now
            && exists w :: w in windows
                           && (key == StartKey(w) || (w.until.Some? && w.until.value < MAX_ORDINAL && key == EndKey(w)))
  {
    if windows != [] {
      var init, w := windows[..|windows| - 1], windows[|windows| - 1];
      assert windows == init + [w];
      VersionEventsMembers(init, now, key);
    }
  }

  /** One tenure condition of a policy version. */
  datatype TenureRule = TenureRule(op: Operator, years: int, window: Window)

  function ThresholdKey(employee: int, day: int): EventKey {
    EventKey(EmployeeEntity, employee, TenureThreshold, Midnight(day))
  }

  function Include(keys: seq<EventKey>, key: EventKey): seq<EventKey> {
    if key in keys then keys else keys + [key]
  }

  function ThresholdEvents(keys: seq<EventKey>, employee: int, days: seq<int>, window: Window, now: int): seq<EventKey> {
    if days == [] then keys
    else
      var earlier, day := ThresholdEvents(keys, employee, days[..|days| - 1], window, now), days[|days| - 1];
      if InWindow(window, day) && Midnight(day) > now then Include(earlier, ThresholdKey(employee, day)) else earlier
  }

  /** `None` when the anniversaries of some rule leave the calendar. */
  function TenureEvents(employee: int, start: Date, rules: seq<TenureRule>, now: int): Option<seq<EventKey>>
    requires Valid(start)
  {
    if rules == [] then Some([])
    else
      var rule := rules[|rules| - 1];
      match (TenureEvents(employee, start, rules[..|rules| - 1], now), TransitionDays(start, rule.op, rule.years))
      case (Some(keys), Some(days)) => Some(ThresholdEvents(keys, employee, days, rule.window, now))
      case _ => None
  }

  lemma {:induction false} ThresholdEventsMembers(keys: seq<EventKey>, employee: int, days: seq<int>, window: Window,
                                                  now: int, key: EventKey)
    ensures key in ThresholdEvents(keys, employee, days, window, now) <==>
            key in keys
            || (key.at > now && exists day :: day in days && InWindow(window, day) && key == ThresholdKey(employee, day))
  {
    if days != [] {
      var init, day := days[..|days| - 1], days[|days| - 1];
      assert days == init + [day];
      ThresholdEventsMembers(keys, employee, init, window, now, key);
    }
  }

  /** On `day` the rule may change its truth for an employee that started at `start`. */
  ghost predicate RuleFlips(rule: TenureRule, start: Date, day: int)
    requires Valid(start)
  {
    var days := TransitionDays(start, rule.op, rule.years);
    days.Some? && day in days.value && InWindow(rule.window, day)
  }

  lemma {:induction false} TenureEventsMembers(employee: int, start: Date, rules: seq<TenureRule>, now: int, key: EventKey)
    requires Valid(start) && TenureEvents(employee, start, rules, now).Some?
    ensures key in TenureEvents(employee, start, rules, now).value <==>
            key.at > now
            && exists rule, day :: rule in rules && RuleFlips(rule, start, day) && key == ThresholdKey(employee, day)
    ensures forall rule | rule in rules :: TransitionDays(start, rule.op, rule.years).Some?
  {
    if rules != [] {
      var init, rule := rules[..|rules| - 1], rules[|rules| - 1];
      assert rules == init + [rule];
      TenureEventsMembers(employee, start, init, now, key);
      var keys := TenureEvents(employee, start, init, now).value;
      var days := TransitionDays(start, rule.op, rule.years).value;
      ThresholdEventsMembers(keys, employee, days, rule.window, now, key);
      if key.at > now && exists day :: day in days && InWindow(rule.window, day) && key == ThresholdKey(employee, day) {
        var day :| day in days && InWindow(rule.window, day) && key == ThresholdKey(employee, day);
        assert RuleFlips(rule, start, day);
      }
    }
  }

  // ----- due events

  function At(events: seq<Event>, row: nat): int {
    if row < |events| then events[row].key.at else 0
  }

  /** The order (scheduled_at, id). */
  predicate Before(events: seq<Event>, i: nat, j: nat) {
    At(events, i) < At(events, j) || (At(events, i) == At(events, j) && i < j)
  }

  predicate IsDue(event: Event, now: int) {
    event.status == Pending && event.key.at <= now
  }

  function InsertByTime(events: seq<Event>, rows: seq<nat>, row: nat): (r: seq<nat>)
    ensures |r| == |rows| + 1 && forall i: nat :: i in r <==> i in rows || i == row
  {
    if rows == [] then [row]
    else if Before(events, row, rows[0]) then [row] + rows
    else
      var rest := InsertByTime(events, rows[1..], row);
      assert rows == [rows[0]] + rows[1..];
      [rows[0]] + rest
  }

  /** Positions of the due events among the first `n`, ordered by (scheduled_at, id). */
  function DueRows(events: seq<Event>, now: int, n: nat): (r: seq<nat>)
    requires n <= |events|
    ensures forall i | i in r :: i < n && IsDue(events[i], now)
  {
    if n == 0 then []
    else if IsDue(events[n - 1], now) then InsertByTime(events, DueRows(events, now, n - 1), n - 1)
    else DueRows(events, now, n - 1)
  }

  function Due(events: seq<Event>, now: int, limit: nat): seq<nat> {
    var all := DueRows(events, now, |events|);
    if |all| <= limit then all else all[..limit]
  }

  ghost predicate Ordered(events: seq<Event>, rows: seq<nat>) {
    forall i, j | 0 <= i < j < |rows| :: Before(events, rows[i], rows[j])
  }

  lemma {:induction false} InsertOrdered(events: seq<Event>, rows: seq<nat>, row: nat)
    requires Ordered(events, rows) && row !in rows
    ensures Ordered(events, InsertByTime(events, rows, row))
  {
    if rows != [] {
      var first, rest := rows[0], rows[1..];
      assert rows == [first] + rest;
      assert forall i | 0 <= i < |rest| :: rest[i] == rows[i + 1];
      if Before(events, row, first) {
        assert forall i | 0 <= i < |rest| :: Before(events, row, rest[i]);
      } else {
        InsertOrdered(events, rest, row);
        InsertAfter(events, first, rest, row);
      }
    }
  }

  lemma InsertAfter(events: seq<Event>, first: nat, rest: seq<nat>, row: nat)
    requires forall i | 0 <= i < |rest| :: Before(events, first, rest[i])
    requires Before(events, first, row)
    requires Ordered(events, InsertByTime(events, rest, row))
    ensures Ordered(events, [first] + InsertByTime(events, rest, row))
  {
    var r := InsertByTime(events, rest, row);
    forall i | 0 <= i < |r|
      ensures Before(events, first, r[i])
    {
      assert r[i] in r;
    }
  }

  lemma {:induction false} DueComplete(events: seq<Event>, now: int, n: nat, i: nat)
    requires i < n <= |events| && IsDue(events[i], now)
    ensures i in DueRows(events, now, n)
  {
    if i < n - 1 {
      DueComplete(events, now, n - 1, i);
    }
  }

  lemma {:induction false} DueOrdered(events: seq<Event>, now: int, n: nat)
    requires n <= |events|
    ensures Ordered(events, DueRows(events, now, n))
  {
    if n > 0 {
      DueOrdered(events, now, n - 1);
      InsertOrdered(events, DueRows(events, now, n - 1), n - 1);
    }
  }

  /**
   * A batch is the earliest part of what is due: in order, without repetition, and
   * everything due that is not in the batch comes after everything in it. A batch
   * below the limit leaves nothing due.
   */
  lemma BatchIsEarliest(events: seq<Event>, now: int, limit: nat)
    ensures var batch := Due(events, now, limit);
            && Ordered(events, batch) && |batch| <= limit
            && (forall i | i in batch :: i < |events| && IsDue(events[i], now))
            && (forall i, j | i in batch && 0 <= j < |events| && IsDue(events[j], now) && j !in batch ::
                  Before(events, i, j))
            && (|batch| < limit ==> forall j | 0 <= j < |events| && IsDue(events[j], now) :: j in batch)
  {
    var all := DueRows(events, now, |events|);
    var batch := Due(events, now, limit);
    DueOrdered(events, now, |events|);
    assert forall k | 0 <= k < |batch| :: batch[k] == all[k] && all[k] in batch && all[k] in all;
    forall j | 0 <= j < |events| && IsDue(events[j], now)
      ensures j in all
    {
      DueComplete(events, now, |events|, j);
    }
    forall i, j | i in batch && 0 <= j < |events| && IsDue(events[j], now) && j !in batch
      ensures Before(events, i, j)
    {
      var k :| 0 <= k < |batch| && batch[k] == i;
      var l :| 0 <= l < |all| && all[l] == j;
    }
  }

  /** A batch runs from the earliest instant to the latest, and the older row comes first at one instant. */
  lemma BatchRuns(events: seq<Event>, now: int, limit: nat, a: nat, b: nat)
    requires a < b < |Due(events, now, limit)|
    ensures var i, j := Due(events, now, limit)[a], Due(events, now, limit)[b];
            && i < |events| && j < |events| && events[i].key.at <= events[j].key.at <= now
            && (events[i].key.at == events[j].key.at ==> i < j)
  {
    var batch := Due(events, now, limit);
    BatchIsEarliest(events, now, limit);
    assert batch[a] in batch && batch[b] in batch && Before(events, batch[a], batch[b]);
  }

  function MarkOne(events: seq<Event>, batch: seq<nat>, now: int, i: nat): Event
    requires i < |events|
  {
    if i in batch then events[i].(status := Processed, processedAt := Some(now)) else events[i]
  }

  function Marked(events: seq<Event>, batch: seq<nat>, now: int): seq<Event> {
    seq(|events|, i requires 0 <= i < |events| => MarkOne(events, batch, now, i))
  }

  /** Processing a batch moves exactly its events from pending to processed. */
  lemma MarkedKeys(events: seq<Event>, batch: seq<nat>, now: int)
    requires Sound(events)
    requires forall i | i in batch :: i < |events| && events[i].status == Pending
    ensures var after := Marked(events, batch, now);
            var moved := set i | i in batch :: events[i].key;
            && Sound(after) && Evolves(events, after)
            && PendingKeys(after) == PendingKeys(events) - moved
            && ProcessedKeys(after) == ProcessedKeys(events) + moved
  {
    var after := Marked(events, batch, now);
    var moved := set i | i in batch :: events[i].key;
    SoundIdentities(events, after);
    forall k
      ensures k in PendingKeys(after) <==> k in PendingKeys(events) && k !in moved
      ensures k in ProcessedKeys(after) <==> k in ProcessedKeys(events) || k in moved
    {
      if i :| 0 <= i < |events| && events[i].key == k {
        assert k in moved <==> i in batch;
      }
    }
  }

  lemma MarkedIsPunctual(events: seq<Event>, clock: int, now: int, limit: nat)
    requires Punctual(events, clock) && clock <= now
    ensures Punctual(Marked(events, Due(events, now, limit), now), now)
  {
    BatchIsEarliest(events, now, limit);
  }

  lemma MarkedTogether(events: seq<Event>, batch: seq<nat>, now: int)
    requires batch != [] && forall i | i in batch :: i < |events| && events[i].status == Pending
    ensures PendingCount(Marked(events, batch, now)) < PendingCount(events)
  {
    var after := Marked(events, batch, now);
    assert batch[0] in batch;
    FewerPending(events, after, batch[0]);
  }

  function PendingCount(events: seq<Event>): nat {
    if events == [] then 0
    else PendingCount(events[..|events| - 1]) + (if events[|events| - 1].status == Pending then 1 else 0)
  }

  lemma {:induction false} NoMorePending(before: seq<Event>, after: seq<Event>)
    requires |before| == |after|
    requires forall i | 0 <= i < |after| :: after[i].status == Pending ==> before[i].status == Pending
    ensures PendingCount(after) <= PendingCount(before)
  {
    if before != [] {
      NoMorePending(before[..|before| - 1], after[..|after| - 1]);
    }
  }

  lemma {:induction false} FewerPending(before: seq<Event>, after: seq<Event>, row: nat)
    requires |before| == |after| && row < |before|
    requires before[row].status == Pending && after[row].status != Pending
    requires forall i | 0 <= i < |after| :: after[i].status == Pending ==> before[i].status == Pending
    ensures PendingCount(after) < PendingCount(before)
  {
    if row == |before| - 1 {
      NoMorePending(before[..|before| - 1], after[..|after| - 1]);
    } else {
      FewerPending(before[..|before| - 1], after[..|after| - 1], row);
    }
  }
}
