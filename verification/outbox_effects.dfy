/** What each statement of the outbox does to a row, and what that comes to over a run. */
module OutboxEffects {
  import opened Js
  import opened Outbox
  import opened OutboxRuns

  // ----- One statement ------------------------------------------------------

  predicate OthersStay(t: Table, after: Table, id: nat) {
    && after.next == t.next && after.rows.Keys == t.rows.Keys
    && forall other :: other in t.rows && other != id ==> after.rows[other] == t.rows[other]
  }

  /** Nothing but its state tells the row from before. */
  predicate IsSamePayload(before: Row, after: Row) {
    && after.kind == before.kind && after.createdAt == before.createdAt
    && after.stored == before.stored && after.hash == before.hash
  }

  predicate IsFree(r: Row) { r.lockedAt == None && r.lockOwner == None }

  /** A confirmation sends an event that is still active, and changes nothing else. */
  lemma ConfirmSends(t: Table, id: nat, now: int)
    ensures var after := MarkSent(t, id, now);
            if id in t.rows && IsActive(t.rows[id]) then
              && OthersStay(t, after, id) && IsSamePayload(t.rows[id], after.rows[id]) && IsFree(after.rows[id])
              && after.rows[id].status == Sent && after.rows[id].sentAt == Some(now) && after.rows[id].lastError == None
              && after.rows[id].attempts == t.rows[id].attempts
            else after == t
  {
  }

  /** What is kept of an error: its first 2000 units. */
  predicate IsKept(kept: Option<string>, error: string) {
    && kept.Some? && kept.value <= error && |kept.value| <= 2000
    && (|error| <= 2000 ==> kept.value == error) && (|error| > 2000 ==> |kept.value| == 2000)
  }

  /** A refusal fails an active event at once, without an attempt being counted. */
  lemma RefusalFails(t: Table, id: nat, error: string)
    ensures var after := MarkRejected(t, id, error);
            if id in t.rows && IsActive(t.rows[id]) then
              && OthersStay(t, after, id) && IsSamePayload(t.rows[id], after.rows[id]) && IsFree(after.rows[id])
              && after.rows[id].status == Failed && IsKept(after.rows[id].lastError, error)
              && after.rows[id].attempts == t.rows[id].attempts
            else after == t
  {
  }

  /** A failed attempt of an active event is counted; `RetryWaits` and `StrikeFails` say what comes of it. */
  lemma FailureCounts(t: Table, id: nat, error: string, now: int, jitter: nat)
    ensures var after := MarkFailed(t, id, error, now, jitter);
            if id in t.rows && IsActive(t.rows[id]) then
              && OthersStay(t, after, id) && IsSamePayload(t.rows[id], after.rows[id]) && IsFree(after.rows[id])
              && after.rows[id].attempts == t.rows[id].attempts + 1 && IsKept(after.rows[id].lastError, error)
            else after == t
  {
  }

  /** Recovery strikes the rows in flight for longer than the time to live, and no other. */
  lemma RecoveryIsExact(t: Table, ttlSeconds: int, now: int, jitters: nat -> nat, id: nat)
    requires TableOk(t) && id in t.rows
    ensures var r, after := t.rows[id], Recovered(t, ttlSeconds, now, jitters);
            && after.next == t.next && after.rows.Keys == t.rows.Keys
            && if r.status == InFlight && now - r.lockedAt.value > 1000 * ttlSeconds then
                 && IsSamePayload(r, after.rows[id]) && IsFree(after.rows[id])
                 && after.rows[id].attempts == r.attempts + 1
                 && (after.rows[id].status == Pending ==> after.rows[id].lastError == r.lastError)
                 && (after.rows[id].status == Failed ==> after.rows[id].lastError == Some(STALE_ERROR))
               else after.rows[id] == r
  {
    assert RowOk(t.rows[id]);
  }

  lemma LockExpires(t: Table, id: nat, at: int, owner: string, ttlSeconds: int, now: int, jitters: nat -> nat)
    requires id in t.rows && t.rows[id].status == InFlight
    requires t.rows[id].lockedAt == Some(at) && t.rows[id].lockOwner == Some(owner)
    ensures id in StruckIds(t, Recover(ttlSeconds, now, jitters)) <==> now - at > 1000 * ttlSeconds
  {
  }

  /** An event leased and not heard of again is struck from the end of its time to live on. */
  lemma LeaseExpires(t: Table, limit: int, owner: string, at: int, ttlSeconds: int, now: int, jitters: nat -> nat,
                     id: nat)
    requires TableOk(t) && id in LeaseReady(t, limit, owner, at).1
    ensures id in StruckIds(LeaseReady(t, limit, owner, at).0, Recover(ttlSeconds, now, jitters)) <==>
            now - at > 1000 * ttlSeconds
  {
    LeaseLocks(t, limit, owner, at);
    LeasedAreThere(t, limit, owner, at, id);
    LockExpires(LeaseReady(t, limit, owner, at).0, id, at, owner, ttlSeconds, now, jitters);
  }

  lemma LeasedAreThere(t: Table, limit: int, owner: string, at: int, id: nat)
    requires TableOk(t) && id in LeaseReady(t, limit, owner, at).1
    ensures id in t.rows
  {
    LeaseTakesLowest(t, limit, owner, at);
  }

  const DAY_MS: int := 24 * 3600 * 1000

  /** Cleaning up removes what was sent, or was created and failed, before the days of retention, and no other. */
  lemma CleaningIsExact(t: Table, days: int, now: int, id: nat)
    requires TableOk(t) && id in t.rows
    ensures var r, after := t.rows[id], CleanedUp(t, days, now);
            && after.next == t.next && (id in after.rows ==> after.rows[id] == r)
            && (id !in after.rows <==>
                  || (r.status == Sent && now - r.sentAt.value > days * DAY_MS)
                  || (r.status == Failed && now - r.createdAt > days * DAY_MS))
  {
    assert RowOk(t.rows[id]);
    Milliseconds(days);
  }

  lemma Milliseconds(days: int)
    ensures 1000 * 86400 * days == days * DAY_MS
  {
  }

  /**
   * Enqueueing refuses what is too large when stored. Anything else ends up under the
   * identifier returned, waiting or in flight: the active event of the same kind and
   * digest if there is one, or a new one, which is ready at once.
   */
  lemma EnqueueIsExact(c: Codec, t: Table, kind: string, json: string, now: int)
    requires TableOk(t)
    ensures var (after, r) := Enqueued(c, t, kind, json, now);
            && (r.None? <==> c.size(Stored(c, json)) > MAX_BYTES)
            && (r.None? ==> after == t)
            && (r.Some? ==>
                  && r.value in after.rows && IsSame(after.rows[r.value], kind, c.digest(json))
                  && (r.value in t.rows ==> after == t)
                  && (r.value !in t.rows ==>
                        && r.value == t.next && after == Table(t.rows[t.next := after.rows[t.next]], t.next + 1)
                        && IsReady(after.rows[t.next], now) && after.rows[t.next].attempts == 0
                        && after.rows[t.next].createdAt == now
                        && forall id :: id in t.rows ==> !IsSame(t.rows[id], kind, c.digest(json))))
  {
    assert t.next !in t.rows;
  }

  /** Small texts are stored as they are, the others compressed under a mark. */
  lemma StoredIsMarked(c: Codec, json: string)
    requires !(GZ <= json)
    ensures GZ <= Stored(c, json) <==> c.size(json) >= COMPRESS_THRESHOLD
    ensures c.gunzip(c.gzip(json)) == json ==> Restored(c, Stored(c, json)) == json
  {
    if c.size(json) >= COMPRESS_THRESHOLD {
      assert (GZ + c.gzip(json))[3..] == c.gzip(json);
    }
  }

  // ----- Runs ---------------------------------------------------------------

  lemma {:induction false} AfterAppend(c: Codec, r: OutboxRuns.Run, a: seq<Event>, b: seq<Event>)
    ensures After(c, r, a + b) == After(c, After(c, r, a), b)
    decreases |a|
  {
    if a == [] {
      assert a + b == b;
    } else {
      assert (a + b)[0] == a[0] && (a + b)[1..] == a[1..] + b;
      AfterAppend(c, Next(c, r, a[0]), a[1..], b);
    }
  }

  lemma {:induction false} FinishedStays(c: Codec, r: OutboxRuns.Run, evs: seq<Event>, id: nat)
    requires id in r.finished
    ensures id in After(c, r, evs).finished && After(c, r, evs).finished[id] == r.finished[id]
    decreases |evs|
  {
    if evs != [] { FinishedStays(c, Next(c, r, evs[0]), evs[1..], id); }
  }

  /** The run up to an event, that event, and what follows. */
  function Around(before: seq<Event>, ev: Event, later: seq<Event>): seq<Event> { before + [ev] + later }

  lemma AroundIs(c: Codec, before: seq<Event>, ev: Event, later: seq<Event>)
    ensures After(c, FRESH, Around(before, ev, later)) == After(c, Next(c, After(c, FRESH, before), ev), later)
  {
    AfterAppend(c, FRESH, before, [ev]);
    AfterAppend(c, FRESH, before + [ev], later);
    assert After(c, After(c, FRESH, before), [ev]) == Next(c, After(c, FRESH, before), ev);
  }

  /** A row that is finished stays as it is while it is there. */
  lemma FinalStays(c: Codec, r: OutboxRuns.Run, evs: seq<Event>, id: nat)
    requires Inv(r) && id in r.finished && id in r.t.rows
    ensures var all := After(c, r, evs);
            && id in all.finished && all.finished[id] == r.t.rows[id]
            && (id in all.t.rows ==> all.t.rows[id] == r.t.rows[id])
  {
    FinishedStays(c, r, evs, id);
    RunKept(c, r, evs);
  }

  lemma ReachedStays(c: Codec, before: seq<Event>, ev: Event, later: seq<Event>, id: nat)
    requires var after := NextTable(c, After(c, FRESH, before).t, ev);
             id in after.rows && !IsActive(after.rows[id])
    ensures var all := After(c, FRESH, Around(before, ev, later));
            var row := NextTable(c, After(c, FRESH, before).t, ev).rows[id];
            && id in all.finished && all.finished[id] == row
            && (id in all.t.rows ==> all.t.rows[id] == row)
  {
    var r := After(c, FRESH, before);
    RunKept(c, FRESH, before);
    StepKept(c, r, ev);
    AroundIs(c, before, ev, later);
    FinalStays(c, Next(c, r, ev), later, id);
  }

  /** In every run, what was confirmed while active is sent, and stays so with that date until it is cleaned up. */
  lemma ConfirmedStaysSent(c: Codec, before: seq<Event>, later: seq<Event>, id: nat, now: int)
    requires var t := After(c, FRESH, before).t; id in t.rows && IsActive(t.rows[id])
    ensures var was := After(c, FRESH, before).t.rows[id];
            var all := After(c, FRESH, Around(before, Confirm(id, now), later));
            && id in all.finished && all.finished[id].status == Sent && all.finished[id].sentAt == Some(now)
            && IsSamePayload(was, all.finished[id])
            && (id in all.t.rows ==> all.t.rows[id] == all.finished[id])
  {
    ConfirmSends(After(c, FRESH, before).t, id, now);
    ReachedStays(c, before, Confirm(id, now), later, id);
  }

  /** In every run, what was refused while active has failed for good. */
  lemma RefusedStaysFailed(c: Codec, before: seq<Event>, later: seq<Event>, id: nat, error: string)
    requires var t := After(c, FRESH, before).t; id in t.rows && IsActive(t.rows[id])
    ensures var was := After(c, FRESH, before).t.rows[id];
            var all := After(c, FRESH, Around(before, Refuse(id, error), later));
            && id in all.finished && all.finished[id].status == Failed && IsKept(all.finished[id].lastError, error)
            && IsSamePayload(was, all.finished[id])
            && (id in all.t.rows ==> all.t.rows[id] == all.finished[id])
  {
    RefusalFails(After(c, FRESH, before).t, id, error);
    ReachedStays(c, before, Refuse(id, error), later, id);
  }

  // ----- Why a row is sent --------------------------------------------------

  lemma SentByConfirm(c: Codec, t: Table, ev: Event, id: nat)
    requires TableOk(t) && id in NextTable(c, t, ev).rows && NextTable(c, t, ev).rows[id].status == Sent
    ensures (id in t.rows && t.rows[id] == NextTable(c, t, ev).rows[id])
            || (ev.Confirm? && ev.id == id && NextTable(c, t, ev).rows[id].sentAt == Some(ev.now))
  {
  }

  /** In every run, an event is sent only by a confirmation of its own, at the date recorded. */
  lemma {:induction false} SentWasConfirmed(c: Codec, evs: seq<Event>, id: nat) returns (k: nat)
    requires id in After(c, FRESH, evs).t.rows && After(c, FRESH, evs).t.rows[id].status == Sent
    ensures k < |evs| && evs[k].Confirm? && evs[k].id == id
    ensures After(c, FRESH, evs).t.rows[id].sentAt == Some(evs[k].now)
    decreases |evs|
  {
    var before, last := evs[..|evs| - 1], evs[|evs| - 1];
    assert evs == before + [last];
    AfterAppend(c, FRESH, before, [last]);
    var r := After(c, FRESH, before);
    assert After(c, r, [last]) == Next(c, r, last);
    RunKept(c, FRESH, before);
    SentByConfirm(c, r.t, last, id);
    if id in r.t.rows && r.t.rows[id] == After(c, FRESH, evs).t.rows[id] {
      k := SentWasConfirmed(c, before, id);
    } else {
      k := |before|;
    }
  }

  // ----- What a row carries -------------------------------------------------

  /** The row an event puts in, if it does. */
  function Inserted(c: Codec, t: Table, ev: Event): map<nat, Event> {
    if NextTable(c, t, ev).next != t.next then map[t.next := ev] else map[]
  }

  /** The events that put a row in, by its identifier. */
  function Origins(c: Codec, t: Table, evs: seq<Event>): map<nat, Event>
    decreases |evs|
  {
    if evs == [] then map[] else Inserted(c, t, evs[0]) + Origins(c, NextTable(c, t, evs[0]), evs[1..])
  }

  predicate IsFrom(c: Codec, ev: Event, r: Row) {
    && ev.Enqueue? && r.kind == ev.kind && r.createdAt == ev.now
    && r.hash == c.digest(ev.json) && r.stored == Stored(c, ev.json)
  }

  predicate AllFrom(c: Codec, origins: map<nat, Event>, t: Table) {
    forall id :: id in t.rows ==> id in origins && IsFrom(c, origins[id], t.rows[id])
  }

  lemma StepFrom(c: Codec, origins: map<nat, Event>, t: Table, ev: Event)
    requires TableOk(t) && AllFrom(c, origins, t)
    ensures AllFrom(c, origins + Inserted(c, t, ev), NextTable(c, t, ev))
  {
    var after := NextTable(c, t, ev);
    forall id | id in after.rows
      ensures id in t.rows ==> IsFrom(c, origins[id], after.rows[id]) && id != t.next
      ensures id !in t.rows ==> id == t.next != after.next && IsFrom(c, ev, after.rows[id])
    {
      if id in t.rows { RowsMove(c, t, ev, id); } else { RowsAppear(c, t, ev, id); }
    }
  }

  lemma {:induction false} RunFrom(c: Codec, origins: map<nat, Event>, r: OutboxRuns.Run, evs: seq<Event>)
    requires Inv(r) && AllFrom(c, origins, r.t)
    ensures AllFrom(c, origins + Origins(c, r.t, evs), After(c, r, evs).t)
    decreases |evs|
  {
    if evs == [] {
      assert origins + map[] == origins;
    } else {
      var more := Inserted(c, r.t, evs[0]);
      StepFrom(c, origins, r.t, evs[0]);
      StepKept(c, r, evs[0]);
      RunFrom(c, origins + more, Next(c, r, evs[0]), evs[1..]);
      OriginsJoin(origins, more, Origins(c, NextTable(c, r.t, evs[0]), evs[1..]));
    }
  }

  lemma OriginsJoin(a: map<nat, Event>, b: map<nat, Event>, c: map<nat, Event>)
    ensures (a + b) + c == a + (b + c)
  {
  }

  /**
   * In every run, whatever happened to a row since: its kind, its date and its digest are
   * those of the call that put it in, and what a lease makes of its payload is the text
   * enqueued, if compression can be undone and no text starts like a compressed one.
   */
  lemma LeasedIsEnqueued(c: Codec, evs: seq<Event>, id: nat)
    requires id in After(c, FRESH, evs).t.rows
    ensures var row, origins := After(c, FRESH, evs).t.rows[id], Origins(c, FRESH.t, evs);
            && id in origins && IsFrom(c, origins[id], row)
            && (c.gunzip(c.gzip(origins[id].json)) == origins[id].json && !(GZ <= origins[id].json) ==>
                  Restored(c, row.stored) == origins[id].json)
  {
    RunFrom(c, map[], FRESH, evs);
    var origins := Origins(c, FRESH.t, evs);
    assert map[] + origins == origins;
    if !(GZ <= origins[id].json) { StoredIsMarked(c, origins[id].json); }
  }
}
