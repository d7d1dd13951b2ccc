/**
 * The durable outbox of `src/queue/sqlite-outbox.ts`. The table is a map from ids to
 * rows, instants are milliseconds, and each statement acts on the whole table.
 */
module Outbox {
  import opened Js

  const MAX_ATTEMPTS: nat := 20
  const COMPRESS_THRESHOLD: nat := 50 * 1024
  const MAX_BYTES: nat := 2 * 1024 * 1024

  datatype Status = Pending | InFlight | Sent | Failed

  datatype Row = Row(
    kind: string, createdAt: int, stored: string, hash: string,
    status: Status, attempts: nat, nextAttemptAt: int,
    lockedAt: Option<int>, lockOwner: Option<string>, lastError: Option<string>, sentAt: Option<int>)

  /** Ids come from AUTOINCREMENT: `next` is above every id ever given. */
  datatype Table = Table(rows: map<nat, Row>, next: nat)

  /** Compression, size and digest are left open. */
  datatype Codec = Codec(
    gzip: string -> string, gunzip: string -> string, size: string -> nat, digest: string -> string)

  // ----- Payloads -----------------------------------------------------------

  const GZ: string := "gz:"

  function Stored(c: Codec, json: string): string {
    if c.size(json) < COMPRESS_THRESHOLD then json else GZ + c.gzip(json)
  }

  /** What a lease makes of it. */
  function Restored(c: Codec, stored: string): string {
    if GZ <= stored then c.gunzip(stored[3..]) else stored
  }

  // ----- Backoff ------------------------------------------------------------

  /** `jitter` stands for the random 0 to 9. */
  function BackoffSeconds(attempt: nat, jitter: nat): nat
    requires attempt >= 1
  {
    (if 30 * Pow2(attempt - 1) <= 3600 then 30 * Pow2(attempt - 1) else 3600) + jitter
  }

  // ----- The statements -----------------------------------------------------

  predicate IsActive(r: Row) { r.status == Pending || r.status == InFlight }

  predicate IsReady(r: Row, now: int) {
    IsWaiting(r) && r.nextAttemptAt <= now
  }

  predicate IsSame(r: Row, kind: string, hash: string) {
    IsActive(r) && r.kind == kind && r.hash == hash
  }

  /** `LIMIT 1` without an order; the invariant leaves one candidate at most. */
  function FindActive(t: Table, kind: string, hash: string, below: nat): (r: Option<nat>)
    ensures r.Some? ==> r.value in t.rows && r.value < below && IsSame(t.rows[r.value], kind, hash)
    ensures r.None? ==> forall id :: id in t.rows && id < below ==> !IsSame(t.rows[id], kind, hash)
  {
    if below == 0 then None
    else if below - 1 in t.rows && IsSame(t.rows[below - 1], kind, hash) then Some(below - 1)
    else FindActive(t, kind, hash, below - 1)
  }

  function NewRow(c: Codec, kind: string, json: string, now: int): Row {
    Row(kind, now, Stored(c, json), c.digest(json), Pending, 0, now, None, None, None, None)
  }

  /** None when the payload is too large. */
  function Enqueued(c: Codec, t: Table, kind: string, json: string, now: int): (Table, Option<nat>) {
    if c.size(Stored(c, json)) > MAX_BYTES then (t, None)
    else
      var existing := FindActive(t, kind, c.digest(json), t.next);
      if existing.Some? then (t, existing)
      else (Table(t.rows[t.next := NewRow(c, kind, json, now)], t.next + 1), Some(t.next))
  }

  /** `ORDER BY id ASC` of the ready rows. */
  function ReadyIds(rows: map<nat, Row>, now: int, below: nat): (r: seq<nat>)
    ensures forall id :: id in r <==> id in rows && id < below && IsReady(rows[id], now)
    ensures forall i, j :: 0 <= i < j < |r| ==> r[i] < r[j]
  {
    if below == 0 then []
    else
      var rest := ReadyIds(rows, now, below - 1);
      assert forall i :: 0 <= i < |rest| ==> rest[i] in rest;
      rest + (if below - 1 in rows && IsReady(rows[below - 1], now) then [below - 1] else [])
  }

  /** `LIMIT`: a negative one is no limit. */
  function Limited(ids: seq<nat>, limit: int): seq<nat> {
    if 0 <= limit < |ids| then ids[..limit] else ids
  }

  predicate Locks(r: Row) { r.status == Pending && r.lockOwner.None? }

  function Leased(t: Table, ids: seq<nat>, owner: string, now: int): Table {
    t.(rows := map id | id in t.rows ::
         if id in ids && Locks(t.rows[id])
         then t.rows[id].(status := InFlight, lockedAt := Some(now), lockOwner := Some(owner))
         else t.rows[id])
  }

  /** The rows read back after the update, in order. */
  function OwnedIds(t: Table, ids: seq<nat>, owner: string): seq<nat> {
    if ids == [] then []
    else
      var last := ids[|ids| - 1];
      OwnedIds(t, ids[..|ids| - 1], owner)
      + (if last in t.rows && t.rows[last].status == InFlight && t.rows[last].lockOwner == Some(owner)
         then [last] else [])
  }

  function LeaseReady(t: Table, limit: int, owner: string, now: int): (Table, seq<nat>) {
    var ids := Limited(ReadyIds(t.rows, now, t.next), limit);
    if forall id :: id in ids && id in t.rows ==> !Locks(t.rows[id]) then (t, [])
    else
      var after := Leased(t, ids, owner, now);
      (after, OwnedIds(after, ids, owner))
  }

  function MarkSent(t: Table, id: nat, now: int): Table {
    if id !in t.rows || !IsActive(t.rows[id]) then t
    else
      t.(rows := t.rows[id := t.rows[id].(status := Sent, sentAt := Some(now), lockedAt := None, lockOwner := None,
                                          lastError := None)])
  }

  function Clipped(s: string): string { if |s| > 2000 then s[..2000] else s }

  /** One more failed attempt: back to waiting, or failed for good at the twentieth. */
  function Struck(r: Row, now: int, jitter: nat, retryError: Option<string>, finalError: Option<string>): Row {
    var attempts := r.attempts + 1;
    if attempts >= MAX_ATTEMPTS then
      r.(status := Failed, attempts := attempts, lockedAt := None, lockOwner := None, lastError := finalError)
    else
      r.(status := Pending, attempts := attempts, nextAttemptAt := now + 1000 * BackoffSeconds(attempts, jitter),
         lockedAt := None, lockOwner := None, lastError := retryError)
  }

  function MarkFailed(t: Table, id: nat, error: string, now: int, jitter: nat): Table {
    if id !in t.rows || !IsActive(t.rows[id]) then t
    else
      var e := Some(Clipped(error));
      t.(rows := t.rows[id := Struck(t.rows[id], now, jitter, e, e)])
  }

  function MarkRejected(t: Table, id: nat, error: string): Table {
    if id !in t.rows || !IsActive(t.rows[id]) then t
    else
      t.(rows := t.rows[id := t.rows[id].(status := Failed, lockedAt := None, lockOwner := None,
                                          lastError := Some(Clipped(error)))])
  }

  predicate IsStale(r: Row, cutoff: int) {
    r.status == InFlight && r.lockedAt.Some? && r.lockedAt.value < cutoff && r.lockOwner.Some?
  }

  const STALE_ERROR: string := "stale inflight exceeded max attempts"

  function Recovered(t: Table, ttlSeconds: int, now: int, jitter: nat -> nat): Table {
    t.(rows := map id | id in t.rows ::
         if IsStale(t.rows[id], now - 1000 * ttlSeconds)
         then Struck(t.rows[id], now, jitter(id), t.rows[id].lastError, Some(STALE_ERROR))
         else t.rows[id])
  }

  predicate IsOld(r: Row, cutoff: int) {
    (r.status == Sent && r.sentAt.Some? && r.sentAt.value < cutoff) || (r.status == Failed && r.createdAt < cutoff)
  }

  function CleanedUp(t: Table, retentionDays: int, now: int): Table {
    t.(rows := map id | id in t.rows && !IsOld(t.rows[id], now - 1000 * 86400 * retentionDays) :: t.rows[id])
  }

  predicate IsWaiting(r: Row) { r.status == Pending && r.attempts < MAX_ATTEMPTS }

  /** The earliest retry among the rows still to be tried. */
  function Earliest(rows: map<nat, Row>, below: nat): Option<int>
  {
    if below == 0 then None
    else
      var rest := Earliest(rows, below - 1);
      if below - 1 in rows && IsWaiting(rows[below - 1])
         && (rest.None? || rows[below - 1].nextAttemptAt < rest.value) then Some(rows[below - 1].nextAttemptAt)
      else rest
  }

  function NextReadyDelay(t: Table, now: int): Option<int> {
    var first := Earliest(t.rows, t.next);
    if first.None? then None else Some(if first.value > now then first.value - now else 0)
  }

  // ----- The object ---------------------------------------------------------

  class SqliteOutbox {
    const codec: Codec
    const lockOwner: string
    var rows: map<nat, Row>
    var next: nat

    function State(): Table
      reads this
    {
      Table(rows, next)
    }

    constructor (codec: Codec, lockOwner: string)
      ensures this.codec == codec && this.lockOwner == lockOwner && State() == Table(map[], 1)
    {
      this.codec, this.lockOwner := codec, lockOwner;
      rows, next := map[], 1;
    }

    method Enqueue(kind: string, json: string, now: int) returns (id: Option<nat>)
      modifies this
      ensures (State(), id) == Enqueued(codec, old(State()), kind, json, now)
    {
      var stored := Stored(codec, json);
      if codec.size(stored) > MAX_BYTES { return None; }
      var existing := FindActive(State(), kind, codec.digest(json), next);
      if existing.Some? { return existing; }
      rows := rows[next := NewRow(codec, kind, json, now)];
      next := next + 1;
      return Some(next - 1);
    }

    method Lease(limit: int, now: int) returns (leased: seq<nat>)
      modifies this`rows
      ensures (State(), leased) == LeaseReady(old(State()), limit, lockOwner, now)
    {
      var ready := ReadyIds(rows, now, next);
      if ready == [] { return []; }
      var ids := Limited(ready, limit);
      var changes := set id | id in ids && id in rows && Locks(rows[id]);
      if changes == {} {
        assert forall id :: id in ids && id in rows && Locks(rows[id]) ==> id in changes;
        return [];
      }
      var some :| some in changes;
      rows := Leased(State(), ids, lockOwner, now).rows;
      return OwnedIds(State(), ids, lockOwner);
    }

    method Sent(id: nat, now: int)
      modifies this`rows
      ensures State() == MarkSent(old(State()), id, now)
    {
      if id in rows && IsActive(rows[id]) {
        rows := rows[id := rows[id].(status := Status.Sent, sentAt := Some(now), lockedAt := None, lockOwner := None,
                                     lastError := None)];
      }
    }

    method Fail(id: nat, error: string, now: int, jitter: nat)
      modifies this`rows
      ensures State() == MarkFailed(old(State()), id, error, now, jitter)
    {
      if id !in rows || !IsActive(rows[id]) { return; }
      var attempts := rows[id].attempts + 1;
      if attempts >= MAX_ATTEMPTS {
        rows := rows[id := rows[id].(status := Failed, attempts := attempts, lockedAt := None, lockOwner := None,
                                     lastError := Some(Clipped(error)))];
        return;
      }
      var at := now + 1000 * BackoffSeconds(attempts, jitter);
      rows := rows[id := rows[id].(status := Pending, attempts := attempts, nextAttemptAt := at,
                                   lockedAt := None, lockOwner := None, lastError := Some(Clipped(error)))];
    }

    method Reject(id: nat, error: string)
      modifies this`rows
      ensures State() == MarkRejected(old(State()), id, error)
    {
      if id in rows && IsActive(rows[id]) {
        rows := rows[id := rows[id].(status := Failed, lockedAt := None, lockOwner := None,
                                     lastError := Some(Clipped(error)))];
      }
    }

    /** The stale rows are selected once and then updated one by one. */
    method RecoverStaleInflight(ttlSeconds: int, now: int, jitter: nat -> nat)
      modifies this`rows
      ensures State() == Recovered(old(State()), ttlSeconds, now, jitter)
    {
      var cutoff := now - 1000 * ttlSeconds;
      var before := rows;
      var left := set id | id in rows && IsStale(rows[id], cutoff);
      while left != {}
        invariant rows.Keys == before.Keys && forall id :: id in left ==> id in before && IsStale(before[id], cutoff)
        invariant forall id :: id in before ==>
                    rows[id] == if IsStale(before[id], cutoff) && id !in left
                                then Struck(before[id], now, jitter(id), before[id].lastError, Some(STALE_ERROR))
                                else before[id]
        decreases left
      {
        var id :| id in left;
        left := left - {id};
        RecoverRow(id, now, jitter(id));
      }
    }

    method RecoverRow(id: nat, now: int, jitter: nat)
      requires id in rows
      modifies this`rows
      ensures rows == old(rows)[id := Struck(old(rows)[id], now, jitter, old(rows)[id].lastError, Some(STALE_ERROR))]
    {
      var r := rows[id];
      var attempts := r.attempts + 1;
      if attempts >= MAX_ATTEMPTS {
        rows := rows[id := r.(status := Failed, attempts := attempts, lockedAt := None, lockOwner := None,
                              lastError := Some(STALE_ERROR))];
        return;
      }
      var at := now + 1000 * BackoffSeconds(attempts, jitter);
      rows := rows[id := r.(status := Pending, attempts := attempts, nextAttemptAt := at,
                            lockedAt := None, lockOwner := None)];
    }

    method Cleanup(retentionDays: int, now: int)
      modifies this`rows
      ensures State() == CleanedUp(old(State()), retentionDays, now)
    {
      var cutoff := now - 1000 * 86400 * retentionDays;
      rows := map id | id in rows && !IsOld(rows[id], cutoff) :: rows[id];
    }
  }
}
