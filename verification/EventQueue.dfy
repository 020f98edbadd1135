/** The event table as the program updates it, and the worker that drains it. */
module EventQueue {
  import opened Common
  import opened Calendar
  import opened Schedule

  datatype WorkerResult = WorkerResult(drained: bool, processedEvents: nat, batches: nat)

  class EventTable {
    var events: seq<Event>

    constructor ()
      ensures events == []
    {
      events := [];
    }

    /** Creates an event idempotently, restoring a cancelled one; an unsupported event is an error. */
    method ScheduleReconciliation(key: EventKey) returns (r: Result<nat, ScheduleError>)
      modifies this
      ensures r.Ok? <==> Supported(key)
      ensures events == if Supported(key) then Scheduled(old(events), key) else old(events)
      ensures r.Ok? ==> r.value < |events| && events[r.value].key == key
    {
      if !Supported(key) {
        return Err(InvalidEvent);
      }
      match Position(events, key) {
        case None =>
          events := events + [Event(key, Pending, None)];
          return Ok(|events| - 1);
        case Some(row) =>
          if events[row].status == Cancelled {
            events := events[row := events[row].(status := Pending)];
          }
          return Ok(row);
      }
    }

    /** Cancels the pending events of the given entities, except those to keep. */
    method CancelPending(entity: Entity, ids: set<int>, keep: seq<EventKey>) returns (cancelled: seq<nat>)
      modifies this
      ensures events == CancelledExcept(old(events), entity, ids, keep)
      ensures forall row: nat :: row in cancelled <==> row < |events| && events[row] != old(events)[row]
    {
      cancelled := [];
      if ids == {} {
        return;
      }
      for row := 0 to |events|
        invariant |events| == |old(events)|
        invariant forall i | 0 <= i < |events| ::
                    events[i] == if i < row then CancelOne(old(events)[i], entity, ids, keep) else old(events)[i]
        invariant forall i: nat :: i in cancelled <==> i < row && events[i] != old(events)[i]
      {
        var event := events[row];
        if event.key.entity == entity && event.key.id in ids && event.status == Pending && event.key !in keep {
          events := events[row := event.(status := Cancelled)];
          cancelled := cancelled + [row];
        }
      }
    }

    method ScheduleAll(keys: seq<EventKey>)
      requires forall key | key in keys :: Supported(key)
      modifies this
      ensures events == ScheduledAll(old(events), keys)
    {
      for i := 0 to |keys|
        invariant events == ScheduledAll(old(events), keys[..i])
      {
        assert keys[..i + 1][..i] == keys[..i];
        var _ := ScheduleReconciliation(keys[i]);
      }
      assert keys[..|keys|] == keys;
    }

    /** Makes the future events of one policy match the date ranges of its versions. */
    method SyncPolicyVersions(active: bool, windows: seq<Window>, now: int)
      requires forall w | w in windows :: w.id > 0
      modifies this
      ensures events == Synced(old(events), PolicyVersionEntity, set w | w in windows :: w.id,
                               if active then VersionEvents(windows, now) else [])
    {
      var desired: seq<EventKey> := [];
      if active {
        for i := 0 to |windows|
          invariant desired == VersionEvents(windows[..i], now)
        {
          assert windows[..i + 1][..i] == windows[..i];
          var w := windows[i];
          if Midnight(w.from) > now {
            desired := desired + [StartKey(w)];
          }
          if w.until.Some? && w.until.value < MAX_ORDINAL {
            if Midnight(w.until.value + 1) > now {
              desired := desired + [EndKey(w)];
            }
          }
        }
        assert windows[..|windows|] == windows;
      }
      forall key | key in desired
        ensures Supported(key)
      {
        VersionEventsMembers(windows, now, key);
      }
      var _ := CancelPending(PolicyVersionEntity, set w | w in windows :: w.id, desired);
      ScheduleAll(desired);
    }

    /** Makes one employee's future tenure events match the rules; `false` is an escaped calendar error. */
    method SyncEmployeeTenure(employee: int, start: Date, rules: seq<TenureRule>, now: int) returns (ok: bool)
      requires employee > 0 && Valid(start)
      modifies this
      ensures ok == TenureEvents(employee, start, rules, now).Some?
      ensures events == if ok then Synced(old(events), EmployeeEntity, {employee}, TenureEvents(employee, start, rules, now).value)
                        else old(events)
    {
      var desired: seq<EventKey> := [];
      for i := 0 to |rules|
        invariant TenureEvents(employee, start, rules[..i], now) == Some(desired)
        invariant events == old(events)
      {
        assert rules[..i + 1][..i] == rules[..i];
        var rule := rules[i];
        var days := TransitionDays(start, rule.op, rule.years);
        if days.None? {
          NoneStays(employee, start, rules, now, i + 1);
          return false;
        }
        var keys := desired;
        for j := 0 to |days.value|
          invariant keys == ThresholdEvents(desired, employee, days.value[..j], rule.window, now)
        {
          assert days.value[..j + 1][..j] == days.value[..j];
          var day := days.value[j];
          if InWindow(rule.window, day) && Midnight(day) > now {
            keys := Include(keys, ThresholdKey(employee, day));
          }
        }
        assert days.value[..|days.value|] == days.value;
        desired := keys;
      }
      assert rules[..|rules|] == rules;
      forall key | key in desired
        ensures Supported(key)
      {
        TenureEventsMembers(employee, start, rules, now, key);
      }
      var _ := CancelPending(EmployeeEntity, {employee}, desired);
      ScheduleAll(desired);
      return true;
    }

    /** Marks one due batch as processed at `now`. */
    method ProcessDue(now: int, limit: nat) returns (batch: seq<nat>)
      modifies this
      ensures batch == Due(old(events), now, limit)
      ensures events == Marked(old(events), batch, now)
    {
      batch := Due(events, now, limit);
      BatchIsEarliest(events, now, limit);
      for i := 0 to |batch|
        invariant |events| == |old(events)|
        invariant forall row: nat | row < |events| :: events[row] == MarkOne(old(events), batch[..i], now, row)
      {
        assert batch[..i + 1] == batch[..i] + [batch[i]];
        assert batch[i] in batch;
        var row := batch[i];
        events := events[row := events[row].(status := Processed, processedAt := Some(now))];
      }
      assert batch[..|batch|] == batch;
    }

    /** Batch number `batches` of a draining worker. */
    method ProcessNext(ghost original: seq<Event>, ghost handled: seq<nat>, clock: nat -> int, batches: nat, size: nat)
      returns (batch: seq<nat>)
      requires size > 0 && Progress(original, events, handled, clock, batches)
      modifies this
      ensures Progress(original, events, handled + batch, clock, batches + 1)
      ensures batch == [] ==> events == old(events)
      ensures batch != [] ==> PendingCount(events) < PendingCount(old(events))
      ensures |batch| <= size
      ensures |batch| < size ==> forall row | 0 <= row < |events| :: !IsDue(events[row], clock(batches))
    {
      batch := ProcessDue(clock(batches), size);
      BatchIsEarliest(old(events), clock(batches), size);
      OneMoreBatch(original, old(events), handled, clock, batches, size);
      if batch != [] {
        MarkedTogether(old(events), batch, clock(batches));
      }
    }

    /**
     * Drains due batches. `clock(k)` and `elapsed(k)` are the readings before batch k;
     * nothing is assumed about either. Every batch is taken to succeed.
     */
    method Drain(batchSize: nat, maxRuntime: int, clock: nat -> int, elapsed: nat -> int)
      returns (result: WorkerResult, ghost handled: seq<nat>, lastAt: int)
      requires batchSize > 0
      modifies this
      ensures |events| == |old(events)|
      ensures forall row: nat | row < |events| ::
                if row in handled then HandledIn(old(events)[row], events[row], clock, result.batches)
                else events[row] == old(events)[row]
      ensures forall row | row in handled :: row < |events|
      ensures Ordered(old(events), handled)
      ensures forall i, j: nat | i in handled && j < |events| && events[j].status == Pending :: Before(old(events), i, j)
      ensures result.processedEvents == |handled|
      ensures (result.batches - 1) * batchSize < |handled| <= result.batches * batchSize || (handled == [] && result.batches == 0)
      ensures !result.drained ==> |handled| == result.batches * batchSize
      ensures result.drained ==>
                lastAt == clock(result.batches) || (result.batches > 0 && lastAt == clock(result.batches - 1))
      ensures result.drained ==> forall row | 0 <= row < |events| :: !IsDue(events[row], lastAt)
      ensures !result.drained ==> result.batches > 0 && elapsed(result.batches) >= maxRuntime
      ensures forall k | 0 < k < result.batches :: elapsed(k) < maxRuntime
    {
      var processed, batches := 0, 0;
      handled, lastAt := [], clock(0);
      while true
        invariant Progress(old(events), events, handled, clock, batches)
        invariant processed == |handled| == batches * batchSize
        invariant forall k | 0 < k < batches :: elapsed(k) < maxRuntime
        decreases PendingCount(events)
      {
        if batches > 0 && elapsed(batches) >= maxRuntime {
          return WorkerResult(false, processed, batches), handled, lastAt;
        }
        lastAt := clock(batches);
        var batch := ProcessNext(old(events), handled, clock, batches, batchSize);
        if batch == [] {
          return WorkerResult(true, processed, batches), handled, lastAt;
        }
        handled := handled + batch;
        assert (batches + 1) * batchSize == batches * batchSize + batchSize;
        batches, processed := batches + 1, processed + |batch|;
        if |batch| < batchSize {
          return WorkerResult(true, processed, batches), handled, lastAt;
        }
      }
    }
  }

  /** The event was pending, and one of the first `batches` batches processed it, at its reading and not before it was due. */
  ghost predicate HandledIn(before: Event, after: Event, clock: nat -> int, batches: nat) {
    && before.status == Pending && after.status == Processed && after.key == before.key
    && exists k: nat :: k < batches && after.processedAt == Some(clock(k)) && after.key.at <= clock(k)
  }

  /** What is handled so far, in order and before everything that is still pending. */
  ghost predicate Progress(before: seq<Event>, after: seq<Event>, handled: seq<nat>, clock: nat -> int, batches: nat) {
    && |after| == |before|
    && (forall row | row in handled :: row < |before|)
    && (forall row: nat | row < |before| ::
          if row in handled then HandledIn(before[row], after[row], clock, batches) else after[row] == before[row])
    && Ordered(before, handled)
    && forall i, j: nat | i in handled && j < |after| && after[j].status == Pending :: Before(before, i, j)
  }

  lemma OneMoreBatch(original: seq<Event>, events: seq<Event>, handled: seq<nat>, clock: nat -> int, batches: nat, size: nat)
    requires Progress(original, events, handled, clock, batches)
    ensures var batch := Due(events, clock(batches), size);
            var after := Marked(events, batch, clock(batches));
            && Progress(original, after, handled + batch, clock, batches + 1)
            && (batch == [] ==> handled + batch == handled && after == events)
  {
    var batch := Due(events, clock(batches), size);
    BatchIsEarliest(events, clock(batches), size);
    OrderedTogether(original, events, handled, batch);
    var after := Marked(events, batch, clock(batches));
    forall row: nat | row < |original|
      ensures if row in handled + batch then HandledIn(original[row], after[row], clock, batches + 1) else after[row] == original[row]
    {
      if row in batch {
        assert after[row].processedAt == Some(clock(batches));
      } else if row in handled {
        var k: nat :| k < batches && events[row].processedAt == Some(clock(k)) && events[row].key.at <= clock(k);
      }
    }
    StillBefore(original, events, handled, clock(batches), size);
  }

  /** What stays pending comes after what was handled before and after the batch. */
  lemma StillBefore(original: seq<Event>, events: seq<Event>, handled: seq<nat>, now: int, size: nat)
    requires |original| == |events| && forall i: nat | i < |events| :: At(events, i) == At(original, i)
    requires forall i, j: nat | i in handled && j < |events| && events[j].status == Pending :: Before(original, i, j)
    ensures var batch := Due(events, now, size);
            forall i, j: nat | i in handled + batch && j < |events| && Marked(events, batch, now)[j].status == Pending ::
              Before(original, i, j)
  {
    var batch := Due(events, now, size);
    BatchIsEarliest(events, now, size);
    forall i, j: nat | i in batch && j < |events| && Marked(events, batch, now)[j].status == Pending
      ensures Before(original, i, j)
    {
      assert j !in batch && events[j].status == Pending;
      assert Before(events, i, j);
    }
  }

  /** A calendar error of one rule is an error of the whole synchronization. */
  lemma {:induction false} NoneStays(employee: int, start: Date, rules: seq<TenureRule>, now: int, n: nat)
    requires Valid(start) && n <= |rules| && TenureEvents(employee, start, rules[..n], now).None?
    ensures TenureEvents(employee, start, rules, now).None?
  {
    if n == |rules| {
      assert rules[..n] == rules;
    } else {
      assert rules[..|rules| - 1][..n] == rules[..n];
      NoneStays(employee, start, rules[..|rules| - 1], now, n);
    }
  }

  lemma OrderedTogether(original: seq<Event>, events: seq<Event>, first: seq<nat>, second: seq<nat>)
    requires |original| == |events| && forall i: nat | i < |events| :: At(events, i) == At(original, i)
    requires Ordered(original, first) && Ordered(events, second)
    requires forall i | i in second :: i < |events| && events[i].status == Pending
    requires forall i, j: nat | i in first && j < |events| && events[j].status == Pending :: Before(original, i, j)
    ensures Ordered(original, first + second)
  {
    forall i, j | 0 <= i < j < |first + second|
      ensures Before(original, (first + second)[i], (first + second)[j])
    {
      if j >= |first| {
        assert second[j - |first|] in second;
        if i < |first| {
          assert first[i] in first;
        } else {
          assert second[i - |first|] in second && Before(events, second[i - |first|], second[j - |first|]);
        }
      }
    }
  }
}
