/** What every run of the outbox keeps, from a fresh schema. */
module OutboxRuns {
  import opened Js
  import opened Outbox

  datatype Event =
    | Enqueue(kind: string, json: string, now: int)
    | Lease(owner: string, limit: int, now: int)
    | Confirm(id: nat, now: int)
    | Retry(id: nat, error: string, now: int, jitter: nat)
    | Refuse(id: nat, error: string)
    | Recover(ttlSeconds: int, now: int, jitters: nat -> nat)
    | Clean(retentionDays: int, now: int)

  /**
   * The table with what an observer counts: the failed attempts of each id, the ids
   * refused by the backend, and the rows as they were when they reached SENT or FAILED.
   * Each lease names its owner, which changes when the agent starts again.
   */
  datatype Run = Run(t: Table, strikes: map<nat, nat>, refused: set<nat>, finished: map<nat, Row>)

  const FRESH: Run := Run(Table(map[], 1), map[], {}, map[])

  function NextTable(c: Codec, t: Table, ev: Event): Table {
    match ev
    case Enqueue(kind, json, now) => Enqueued(c, t, kind, json, now).0
    case Lease(owner, limit, now) => LeaseReady(t, limit, owner, now).0
    case Confirm(id, now) => MarkSent(t, id, now)
    case Retry(id, error, now, jitter) => MarkFailed(t, id, error, now, jitter)
    case Refuse(id, error) => MarkRejected(t, id, error)
    case Recover(ttl, now, jitter) => Recovered(t, ttl, now, jitter)
    case Clean(days, now) => CleanedUp(t, days, now)
  }

  /** The ids whose attempt an event declares failed. */
  function StruckIds(t: Table, ev: Event): set<nat> {
    match ev
    case Retry(id, _, _, _) => if id in t.rows && IsActive(t.rows[id]) then {id} else {}
    case Recover(ttl, now, _) => set id | id in t.rows && IsStale(t.rows[id], now - 1000 * ttl)
    case _ => {}
  }

  function RefusedIds(t: Table, ev: Event): set<nat> {
    if ev.Refuse? && ev.id in t.rows && IsActive(t.rows[ev.id]) then {ev.id} else {}
  }

  function Count(strikes: map<nat, nat>, id: nat): nat { if id in strikes then strikes[id] else 0 }

  /** What the observer has seen once the table has changed. */
  function Observed(r: Run, after: Table, struck: set<nat>, refused: set<nat>): Run {
    Run(after,
        map id | id in r.strikes.Keys + struck :: Count(r.strikes, id) + (if id in struck then 1 else 0),
        r.refused + refused,
        (map id | id in after.rows && !IsActive(after.rows[id]) :: after.rows[id]) + r.finished)
  }

  function Next(c: Codec, r: Run, ev: Event): Run {
    Observed(r, NextTable(c, r.t, ev), StruckIds(r.t, ev), RefusedIds(r.t, ev))
  }

  function After(c: Codec, r: Run, evs: seq<Event>): Run
    decreases |evs|
  {
    if evs == [] then r else After(c, Next(c, r, evs[0]), evs[1..])
  }

  // ----- The invariant ------------------------------------------------------

  /** Locked exactly while in flight, and active only below twenty attempts. */
  predicate RowOk(r: Row) {
    && (r.lockOwner.Some? <==> r.status == InFlight)
    && (r.lockedAt.Some? <==> r.status == InFlight)
    && (r.sentAt.Some? <==> r.status == Sent)
    && (IsActive(r) ==> r.attempts < MAX_ATTEMPTS)
    && r.attempts <= MAX_ATTEMPTS
  }

  predicate RowsOk(t: Table) { forall id :: id in t.rows ==> id < t.next && RowOk(t.rows[id]) }

  predicate TableOk(t: Table) {
    && RowsOk(t)
    && (forall a, b :: a in t.rows && b in t.rows && IsActive(t.rows[a]) && IsActive(t.rows[b]) && a != b ==>
          !(t.rows[a].kind == t.rows[b].kind && t.rows[a].hash == t.rows[b].hash))
  }

  predicate CountsOk(r: Run) {
    && (forall id :: id in r.t.rows ==> r.t.rows[id].attempts == Count(r.strikes, id))
    && (forall id :: id in r.t.rows && r.t.rows[id].status == Failed ==>
          Count(r.strikes, id) == MAX_ATTEMPTS || id in r.refused)
    && (forall id :: id in r.strikes ==> id < r.t.next)
    && (forall id :: id in r.refused ==> id < r.t.next)
  }

  /** What reached SENT or FAILED is as it was, if it is still there. */
  predicate FinalOk(r: Run) {
    && (forall id :: id in r.finished ==> id < r.t.next && !IsActive(r.finished[id]))
    && (forall id :: id in r.finished && id in r.t.rows ==> r.t.rows[id] == r.finished[id])
  }

  /** Every event is still active or has reached SENT or FAILED. */
  predicate AccountedOk(r: Run) {
    forall id :: 1 <= id < r.t.next ==> (id in r.t.rows && IsActive(r.t.rows[id])) || id in r.finished
  }

  predicate Inv(r: Run) { TableOk(r.t) && CountsOk(r) && FinalOk(r) && AccountedOk(r) && 1 <= r.t.next }

  // ----- One row, one event -------------------------------------------------

  /** The changes an event can make to a row that is there before and after. */
  predicate Moves(before: Row, after: Row, struck: bool, refused: bool) {
    && after.kind == before.kind && after.hash == before.hash && after.stored == before.stored
    && after.createdAt == before.createdAt
    && (!IsActive(before) ==> after == before && !struck && !refused)
    && after.attempts == before.attempts + (if struck then 1 else 0)
    && (after.status == Failed && IsActive(before) ==> refused || (struck && after.attempts >= MAX_ATTEMPTS))
    && (struck ==> after.status == if before.attempts + 1 >= MAX_ATTEMPTS then Failed else Pending)
    && (RowOk(before) ==> RowOk(after))
  }

  lemma RowsMove(c: Codec, t: Table, ev: Event, id: nat)
    requires id in t.rows && TableOk(t)
    ensures var after := NextTable(c, t, ev);
            && (id !in after.rows ==> ev.Clean? && !IsActive(t.rows[id]))
            && (id in after.rows ==> Moves(t.rows[id], after.rows[id], id in StruckIds(t, ev), id in RefusedIds(t, ev)))
  {
  }

  /** New rows appear under the next id only, waiting, and for a payload that no active row carries. */
  lemma RowsAppear(c: Codec, t: Table, ev: Event, id: nat)
    requires TableOk(t) && id !in t.rows && id in NextTable(c, t, ev).rows
    ensures ev.Enqueue? && id == t.next && NextTable(c, t, ev).next == t.next + 1
    ensures NextTable(c, t, ev).rows[id] == NewRow(c, ev.kind, ev.json, ev.now)
    ensures forall other :: other in t.rows ==> !IsSame(t.rows[other], ev.kind, c.digest(ev.json))
  {
  }

  lemma NextGrows(c: Codec, t: Table, ev: Event)
    ensures var after := NextTable(c, t, ev);
            after.next == t.next || (after.next == t.next + 1 && t.next in after.rows && IsActive(after.rows[t.next]))
  {
  }

  /** All the changes an event can make to the table. */
  predicate Evolves(t: Table, after: Table, struck: set<nat>, refused: set<nat>) {
    && (forall id :: id in t.rows && id in after.rows ==>
          Moves(t.rows[id], after.rows[id], id in struck, id in refused))
    && (forall id :: id in t.rows && id !in after.rows ==> !IsActive(t.rows[id]))
    && (forall id :: id in after.rows && id !in t.rows ==>
          id == t.next && after.next == t.next + 1 && IsNew(after.rows[id]))
    && (after.next == t.next || (after.next == t.next + 1 && t.next in after.rows))
    && struck <= t.rows.Keys && refused <= t.rows.Keys
  }

  predicate IsNew(row: Row) { row.status == Pending && row.attempts == 0 && RowOk(row) }

  /** A new row carries a payload that no active row carries. */
  predicate IsUnlikeActive(t: Table, after: Table) {
    t.next in after.rows && t.next !in t.rows ==>
      forall other :: other in t.rows ==> !IsSame(t.rows[other], after.rows[t.next].kind, after.rows[t.next].hash)
  }

  lemma EventEvolves(c: Codec, t: Table, ev: Event)
    requires TableOk(t)
    ensures Evolves(t, NextTable(c, t, ev), StruckIds(t, ev), RefusedIds(t, ev))
    ensures IsUnlikeActive(t, NextTable(c, t, ev))
  {
    var after := NextTable(c, t, ev);
    NextGrows(c, t, ev);
    forall id | id in t.rows
      ensures id !in after.rows ==> !IsActive(t.rows[id])
      ensures id in after.rows ==> Moves(t.rows[id], after.rows[id], id in StruckIds(t, ev), id in RefusedIds(t, ev))
    {
      RowsMove(c, t, ev, id);
    }
    forall id | id in after.rows && id !in t.rows
      ensures id == t.next && after.next == t.next + 1 && IsNew(after.rows[id])
    {
      RowsAppear(c, t, ev, id);
    }
    if t.next in after.rows && t.next !in t.rows { RowsAppear(c, t, ev, t.next); }
  }

  lemma TableKept(t: Table, after: Table, struck: set<nat>, refused: set<nat>)
    requires TableOk(t) && Evolves(t, after, struck, refused) && IsUnlikeActive(t, after)
    ensures TableOk(after)
  {
    forall id | id in after.rows ensures id < after.next && RowOk(after.rows[id]) {
      if id in t.rows { assert Moves(t.rows[id], after.rows[id], id in struck, id in refused); }
    }
    forall a, b | a in after.rows && b in after.rows && IsActive(after.rows[a]) && IsActive(after.rows[b]) && a != b
      ensures !(after.rows[a].kind == after.rows[b].kind && after.rows[a].hash == after.rows[b].hash)
    {
      if a in t.rows { assert Moves(t.rows[a], after.rows[a], a in struck, a in refused); }
      if b in t.rows { assert Moves(t.rows[b], after.rows[b], b in struck, b in refused); }
    }
  }

  lemma CountsKept(r: Run, after: Table, struck: set<nat>, refused: set<nat>)
    requires CountsOk(r) && RowsOk(r.t) && Evolves(r.t, after, struck, refused)
    ensures CountsOk(Observed(r, after, struck, refused))
  {
    var next := Observed(r, after, struck, refused);
    forall id | id in after.rows
      ensures after.rows[id].attempts == Count(next.strikes, id)
      ensures after.rows[id].status == Failed ==> Count(next.strikes, id) == MAX_ATTEMPTS || id in next.refused
    {
      if id in r.t.rows { assert Moves(r.t.rows[id], after.rows[id], id in struck, id in refused); }
    }
    assert forall id :: id in r.t.rows ==> id < r.t.next;
  }

  /** Rows that are not active stay as they are, and ids are not used again. */
  predicate LeavesFinal(t: Table, after: Table) {
    && t.next <= after.next
    && (forall id :: id in after.rows ==> id < after.next && (id in t.rows || id >= t.next))
    && (forall id :: id in t.rows && id in after.rows && !IsActive(t.rows[id]) ==> after.rows[id] == t.rows[id])
  }

  lemma EvolvesLeavesFinal(t: Table, after: Table, struck: set<nat>, refused: set<nat>)
    requires RowsOk(t) && Evolves(t, after, struck, refused)
    ensures LeavesFinal(t, after)
  {
  }

  lemma FinalKept(r: Run, after: Table, struck: set<nat>, refused: set<nat>)
    requires FinalOk(r) && LeavesFinal(r.t, after)
    ensures FinalOk(Observed(r, after, struck, refused))
  {
  }

  lemma AccountedKept(r: Run, after: Table, struck: set<nat>, refused: set<nat>)
    requires AccountedOk(r) && Evolves(r.t, after, struck, refused)
    ensures AccountedOk(Observed(r, after, struck, refused))
  {
  }

  lemma StepKept(c: Codec, r: Run, ev: Event)
    requires Inv(r)
    ensures Inv(Next(c, r, ev))
  {
    var after, struck, refused := NextTable(c, r.t, ev), StruckIds(r.t, ev), RefusedIds(r.t, ev);
    EventEvolves(c, r.t, ev);
    TableKept(r.t, after, struck, refused);
    CountsKept(r, after, struck, refused);
    EvolvesLeavesFinal(r.t, after, struck, refused);
    FinalKept(r, after, struck, refused);
    AccountedKept(r, after, struck, refused);
  }

  lemma {:induction false} RunKept(c: Codec, r: Run, evs: seq<Event>)
    requires Inv(r)
    ensures Inv(After(c, r, evs))
    decreases |evs|
  {
    if evs == [] {
    } else {
      StepKept(c, r, evs[0]);
      RunKept(c, Next(c, r, evs[0]), evs[1..]);
    }
  }

  // ----- What follows for every run -----------------------------------------

  /**
   * On a fresh schema, after any events of any number of agents started one after
   * another: a row has an owner exactly while in flight, active rows have fewer than
   * twenty attempts, no two of them carry the same payload, a row that was sent or given
   * up stays as it was until it is cleaned up, and every event enqueued is still active
   * or has been sent or given up: none is lost.
   */
  lemma EveryRun(c: Codec, evs: seq<Event>)
    ensures var r := After(c, FRESH, evs);
            && (forall id :: id in r.t.rows ==> (r.t.rows[id].lockOwner.Some? <==> r.t.rows[id].status == InFlight))
            && (forall id :: id in r.t.rows && IsActive(r.t.rows[id]) ==> r.t.rows[id].attempts < MAX_ATTEMPTS)
            && (forall a, b ::
                  a in r.t.rows && b in r.t.rows && IsActive(r.t.rows[a]) && IsActive(r.t.rows[b]) && a != b ==>
                  !(r.t.rows[a].kind == r.t.rows[b].kind && r.t.rows[a].hash == r.t.rows[b].hash))
            && (forall id :: id in r.finished ==> r.finished[id].status == Sent || r.finished[id].status == Failed)
            && (forall id :: id in r.finished && id in r.t.rows ==> r.t.rows[id] == r.finished[id])
            && (forall id :: 1 <= id < r.t.next ==> (id in r.t.rows && IsActive(r.t.rows[id])) || id in r.finished)
  {
    RunKept(c, FRESH, evs);
  }

  /** The count is of failed attempts, and only the twentieth, or a refusal, fails an event. */
  lemma TwentyStrikes(c: Codec, evs: seq<Event>, id: nat)
    requires id in After(c, FRESH, evs).t.rows
    ensures var r := After(c, FRESH, evs);
            && r.t.rows[id].attempts == Count(r.strikes, id) <= MAX_ATTEMPTS
            && (IsActive(r.t.rows[id]) ==> Count(r.strikes, id) < MAX_ATTEMPTS)
            && (r.t.rows[id].status == Failed && id !in r.refused ==> Count(r.strikes, id) == MAX_ATTEMPTS)
  {
    RunKept(c, FRESH, evs);
  }

  /** The twentieth failed attempt does fail it, wherever it happens. */
  lemma StrikeFails(c: Codec, evs: seq<Event>, ev: Event, id: nat)
    requires var t := After(c, FRESH, evs).t; id in t.rows && id in StruckIds(t, ev)
    ensures var r := After(c, FRESH, evs);
            var after := NextTable(c, r.t, ev);
            && id in after.rows
            && (after.rows[id].status == Failed <==> Count(r.strikes, id) == MAX_ATTEMPTS - 1)
            && (after.rows[id].status == Pending <==> Count(r.strikes, id) < MAX_ATTEMPTS - 1)
  {
    var r := After(c, FRESH, evs);
    RunKept(c, FRESH, evs);
    RowsMove(c, r.t, ev, id);
  }

  // ----- Leasing ------------------------------------------------------------

  lemma {:induction false} AllOwned(t: Table, ids: seq<nat>, owner: string)
    requires forall id :: id in ids ==>
               id in t.rows && t.rows[id].status == InFlight && t.rows[id].lockOwner == Some(owner)
    ensures OwnedIds(t, ids, owner) == ids
  {
    if ids != [] {
      assert ids[|ids| - 1] in ids;
      AllOwned(t, ids[..|ids| - 1], owner);
    }
  }

  /** The first ids of an ascending list. */
  lemma LimitedLowest(ready: seq<nat>, limit: int)
    requires forall i, j :: 0 <= i < j < |ready| ==> ready[i] < ready[j]
    ensures var ids := Limited(ready, limit);
            && (forall i, j :: 0 <= i < j < |ids| ==> ids[i] < ids[j])
            && (forall id :: id in ids ==> id in ready)
            && (0 <= limit ==> |ids| <= limit)
            && (limit != 0 && ready != [] ==> ids != [])
            && (forall id, l :: id in ready && id !in ids && l in ids ==> l < id)
            && (forall id :: id in ready && id !in ids ==> 0 <= limit == |ids|)
  {
    var ids := Limited(ready, limit);
    assert forall i :: 0 <= i < |ids| ==> ids[i] == ready[i];
  }

  lemma LeaseIs(t: Table, limit: int, owner: string, now: int, ids: seq<nat>)
    requires TableOk(t) && ids == Limited(ReadyIds(t.rows, now, t.next), limit)
    ensures LeaseReady(t, limit, owner, now) == if ids == [] then (t, []) else (Leased(t, ids, owner, now), ids)
  {
    LimitedLowest(ReadyIds(t.rows, now, t.next), limit);
    assert forall id :: id in ids ==> id in t.rows && Locks(t.rows[id]);
    if ids != [] {
      assert ids[0] in ids;
      AllOwned(Leased(t, ids, owner, now), ids, owner);
    }
  }

  /**
   * A lease takes the ready events with the lowest ids, up to the limit, and no other:
   * nothing already leased is given twice, and all that is left out comes later.
   */
  lemma LeaseTakesLowest(t: Table, limit: int, owner: string, now: int)
    requires TableOk(t)
    ensures var leased := LeaseReady(t, limit, owner, now).1;
            && (forall i, j :: 0 <= i < j < |leased| ==> leased[i] < leased[j])
            && (forall id :: id in leased ==> id in t.rows && IsReady(t.rows[id], now) && t.rows[id].lockOwner == None)
            && (0 <= limit ==> |leased| <= limit)
            && (forall id :: id in t.rows && IsReady(t.rows[id], now) && id !in leased ==>
                  0 <= limit == |leased| && forall l :: l in leased ==> l < id)
  {
    var ready := ReadyIds(t.rows, now, t.next);
    LimitedLowest(ready, limit);
    LeaseIs(t, limit, owner, now, Limited(ready, limit));
  }

  /** Leased rows are in flight under the owner, every other row is as it was. */
  lemma LeaseLocks(t: Table, limit: int, owner: string, now: int)
    requires TableOk(t)
    ensures var (after, leased) := LeaseReady(t, limit, owner, now);
            && after.next == t.next && after.rows.Keys == t.rows.Keys
            && (forall id :: id in t.rows ==>
                  after.rows[id] ==
                  if id in leased
                  then t.rows[id].(status := InFlight, lockedAt := Some(now), lockOwner := Some(owner))
                  else t.rows[id])
  {
    var ready := ReadyIds(t.rows, now, t.next);
    var ids := Limited(ready, limit);
    LimitedLowest(ready, limit);
    LeaseIs(t, limit, owner, now, ids);
    assert forall id :: id in ids ==> Locks(t.rows[id]);
  }

  /** The clock of the sender agrees with the lease: no wait exactly when a lease would give something. */
  lemma DelayAgrees(t: Table, limit: int, owner: string, now: int)
    requires TableOk(t) && limit >= 1
    ensures NextReadyDelay(t, now) == Some(0) <==> LeaseReady(t, limit, owner, now).1 != []
    ensures NextReadyDelay(t, now) == None <==> forall id :: id in t.rows ==> t.rows[id].status != Pending
  {
    var ready := ReadyIds(t.rows, now, t.next);
    LimitedLowest(ready, limit);
    LeaseIs(t, limit, owner, now, Limited(ready, limit));
    EarliestIsReady(t, now);
    EarliestIs(t.rows, t.next);
  }

  /** The earliest retry is a lower bound of the waiting rows, and one of them. */
  lemma {:induction false} EarliestIs(rows: map<nat, Row>, below: nat)
    ensures Earliest(rows, below).None? <==> forall id :: id in rows && id < below ==> !IsWaiting(rows[id])
    ensures Earliest(rows, below).Some? ==>
              (forall id :: id in rows && id < below && IsWaiting(rows[id]) ==>
                 Earliest(rows, below).value <= rows[id].nextAttemptAt)
              && (exists id ::
                    && id in rows && id < below && IsWaiting(rows[id])
                    && rows[id].nextAttemptAt == Earliest(rows, below).value)
  {
    if below > 0 { EarliestIs(rows, below - 1); }
  }

  lemma EarliestIsReady(t: Table, now: int)
    requires TableOk(t)
    ensures ReadyIds(t.rows, now, t.next) != [] <==>
            Earliest(t.rows, t.next).Some? && Earliest(t.rows, t.next).value <= now
  {
    var ready, first := ReadyIds(t.rows, now, t.next), Earliest(t.rows, t.next);
    EarliestIs(t.rows, t.next);
    if ready != [] {
      assert ready[0] in ready;
    }
    if first.Some? && first.value <= now {
      var id :| id in t.rows && id < t.next && IsWaiting(t.rows[id]) && t.rows[id].nextAttemptAt == first.value;
      assert id in ready;
    }
  }

  lemma AgreesAt(t: Table, limit: int, owner: string, at: int)
    requires TableOk(t) && limit >= 1
    ensures NextReadyDelay(t, at) == Some(0) <==> LeaseReady(t, limit, owner, at).1 != []
  {
    DelayAgrees(t, limit, owner, at);
  }

  lemma DelayShift(t: Table, now: int, at: int)
    requires now <= at && NextReadyDelay(t, now).Some?
    ensures NextReadyDelay(t, at) == Some(0) <==> at >= now + NextReadyDelay(t, now).value
  {
  }

  /** Waiting the announced delay is enough, and nothing is ready before. */
  lemma DelayIsExact(t: Table, now: int, at: int, limit: int, owner: string)
    requires TableOk(t) && limit >= 1 && now <= at && NextReadyDelay(t, now).Some?
    ensures LeaseReady(t, limit, owner, at).1 != [] <==> at >= now + NextReadyDelay(t, now).value
  {
    DelayShift(t, now, at);
    AgreesAt(t, limit, owner, at);
  }

  // ----- The retry series ---------------------------------------------------

  /** The instant at which an event strikes, and the random part of the wait it sets. */
  function Instant(ev: Event): int {
    match ev
    case Retry(_, _, now, _) => now
    case Recover(_, now, _) => now
    case _ => 0
  }

  function JitterOf(ev: Event, id: nat): nat {
    match ev
    case Retry(_, _, _, jitter) => jitter
    case Recover(_, _, jitters) => jitters(id)
    case _ => 0
  }

  /** Whichever change strikes a row, a retry that is granted waits exactly its backoff. */
  lemma RetryWaits(c: Codec, t: Table, ev: Event, id: nat)
    requires TableOk(t) && id in StruckIds(t, ev)
    ensures var k := t.rows[id].attempts + 1;
            && id in NextTable(c, t, ev).rows
            && var row := NextTable(c, t, ev).rows[id];
               if k == MAX_ATTEMPTS then row.status == Failed
               else && row.status == Pending && row.attempts == k
                    && row.nextAttemptAt - Instant(ev) == 1000 * (Wait(k) + JitterOf(ev, id))
  {
    var k := t.rows[id].attempts + 1;
    if k <= 7 {
      Doubling(k);
      assert Pow2(k) == 2 * Pow2(k - 1);
    } else {
      PowGrows(k - 1);
    }
  }

  /** The wait after strike `k` without its random part: doubling from 30 seconds, an hour from the eighth on. */
  function Wait(k: nat): nat
    requires k >= 1
  {
    if k <= 7 then 30 * Pow2(k - 1) else 3600
  }

  /** The waits after the attempts 1 to n, in seconds. */
  function Plain(n: nat): nat { if n == 0 then 0 else Plain(n - 1) + Wait(n) }

  lemma {:induction false} Doubling(n: nat)
    requires n <= 7
    ensures Plain(n) == 30 * (Pow2(n) - 1) && Pow2(n) <= 128
  {
    PowSmall(n);
    if n > 0 {
      Doubling(n - 1);
      assert Pow2(n) == 2 * Pow2(n - 1);
    }
  }

  lemma {:induction false} PowSmall(n: nat)
    requires n <= 7
    ensures Pow2(n) <= 128
    decreases 7 - n
  {
    if n < 7 { PowSmall(n + 1); } else { SeventhPower(); }
  }

  lemma SeventhPower()
    ensures Pow2(7) == 128
  {
    assert Pow2(4) == 2 * Pow2(3) == 4 * Pow2(2) == 8 * Pow2(1) == 16;
    assert Pow2(7) == 2 * Pow2(6) == 4 * Pow2(5) == 8 * Pow2(4);
  }

  lemma {:induction false} PowGrows(n: nat)
    requires n >= 7
    ensures Pow2(n) >= 128
  {
    if n > 7 { PowGrows(n - 1); } else { SeventhPower(); }
  }

  lemma {:induction false} Capped(n: nat)
    requires n >= 7
    ensures Plain(n) == 3810 + 3600 * (n - 7)
  {
    if n == 7 {
      Doubling(7);
      SeventhPower();
    } else {
      PowGrows(n - 1);
      Capped(n - 1);
    }
  }

  /** What an event makes `id` wait: from the instant of a strike to the next attempt. */
  function WaitSet(c: Codec, t: Table, ev: Event, id: nat): int {
    var after := NextTable(c, t, ev);
    if id in StruckIds(t, ev) && id in after.rows && after.rows[id].status == Pending
    then after.rows[id].nextAttemptAt - Instant(ev) else 0
  }

  /** The waits set for `id` over a run, in milliseconds. */
  function TotalWait(c: Codec, t: Table, evs: seq<Event>, id: nat): int
    decreases |evs|
  {
    if evs == [] then 0 else WaitSet(c, t, evs[0], id) + TotalWait(c, NextTable(c, t, evs[0]), evs[1..], id)
  }

  /** The random part of a wait is 0 to 9 seconds. */
  ghost predicate Random(evs: seq<Event>) {
    forall ev, id :: ev in evs ==> JitterOf(ev, id) <= 9
  }

  /** The retries granted after so many strikes: the twentieth grants none. */
  function Granted(strikes: nat): nat { if strikes < MAX_ATTEMPTS then strikes else MAX_ATTEMPTS - 1 }

  predicate InSeries(wait: int, from: nat, to: nat) {
    1000 * (Plain(to) - Plain(from)) <= wait <= 1000 * (Plain(to) - Plain(from) + 9 * (to - from))
  }

  lemma OneStrike(k: nat, wait: int, jitter: nat)
    requires 1 <= k < MAX_ATTEMPTS && jitter <= 9 && wait == 1000 * (Wait(k) + jitter)
    ensures InSeries(wait, k - 1, k)
  {
  }

  lemma Counted(r: Run, after: Table, struck: set<nat>, refused: set<nat>, id: nat)
    ensures Count(Observed(r, after, struck, refused).strikes, id) ==
            Count(r.strikes, id) + (if id in struck then 1 else 0)
  {
  }

  lemma WaitOfStrike(c: Codec, t: Table, ev: Event, id: nat)
    requires TableOk(t) && id in StruckIds(t, ev) && JitterOf(ev, id) <= 9
    requires t.rows[id].attempts < MAX_ATTEMPTS
    ensures var k := t.rows[id].attempts;
            InSeries(WaitSet(c, t, ev, id), Granted(k), Granted(k + 1))
  {
    var k := t.rows[id].attempts + 1;
    RetryWaits(c, t, ev, id);
    if k < MAX_ATTEMPTS { OneStrike(k, WaitSet(c, t, ev, id), JitterOf(ev, id)); }
  }

  lemma NotStruck(c: Codec, t: Table, ev: Event, id: nat, k: nat)
    requires id !in StruckIds(t, ev)
    ensures InSeries(WaitSet(c, t, ev, id), Granted(k), Granted(k))
  {
  }

  lemma StruckActive(r: Run, ev: Event, id: nat)
    requires TableOk(r.t) && CountsOk(r) && id in StruckIds(r.t, ev)
    ensures id in r.t.rows && Count(r.strikes, id) == r.t.rows[id].attempts < MAX_ATTEMPTS
  {
    assert RowOk(r.t.rows[id]) && IsActive(r.t.rows[id]);
  }

  lemma StrikeWaits(c: Codec, r: Run, ev: Event, id: nat)
    requires TableOk(r.t) && CountsOk(r) && JitterOf(ev, id) <= 9
    ensures var k := Count(r.strikes, id);
            InSeries(WaitSet(c, r.t, ev, id), Granted(k), Granted(k + (if id in StruckIds(r.t, ev) then 1 else 0)))
  {
    if id in StruckIds(r.t, ev) {
      StruckActive(r, ev, id);
      WaitOfStrike(c, r.t, ev, id);
    } else {
      NotStruck(c, r.t, ev, id, Count(r.strikes, id));
    }
  }

  lemma StepWaits(c: Codec, r: Run, ev: Event, id: nat)
    requires TableOk(r.t) && CountsOk(r) && JitterOf(ev, id) <= 9
    ensures InSeries(WaitSet(c, r.t, ev, id), Granted(Count(r.strikes, id)), Granted(Count(Next(c, r, ev).strikes, id)))
  {
    StrikeWaits(c, r, ev, id);
    Counted(r, NextTable(c, r.t, ev), StruckIds(r.t, ev), RefusedIds(r.t, ev), id);
  }

  lemma {:induction false} RunWaits(c: Codec, r: Run, evs: seq<Event>, id: nat)
    requires Inv(r) && Random(evs)
    ensures InSeries(TotalWait(c, r.t, evs, id),
                     Granted(Count(r.strikes, id)), Granted(Count(After(c, r, evs).strikes, id)))
    decreases |evs|
  {
    if evs == [] {
    } else {
      assert JitterOf(evs[0], id) <= 9;
      StepWaits(c, r, evs[0], id);
      StepKept(c, r, evs[0]);
      RandomLater(evs);
      RunWaits(c, Next(c, r, evs[0]), evs[1..], id);
    }
  }

  lemma RandomLater(evs: seq<Event>)
    requires evs != [] && Random(evs)
    ensures Random(evs[1..])
  {
    forall ev, id | ev in evs[1..] ensures JitterOf(ev, id) <= 9 {
      assert ev in evs;
    }
  }

  /**
   * In every run, whichever change strikes an event: its waits add up to the backoffs of
   * the strikes it has had, and over the nineteen of an event that fails at the twentieth
   * to a little over thirteen hours.
   */
  lemma WholeSeries(c: Codec, evs: seq<Event>, id: nat)
    requires Random(evs)
    ensures var r, wait := After(c, FRESH, evs), TotalWait(c, FRESH.t, evs, id);
            && (Count(r.strikes, id) < MAX_ATTEMPTS ==> InSeries(wait, 0, Count(r.strikes, id)))
            && (Count(r.strikes, id) == MAX_ATTEMPTS ==> 47_010_000 <= wait <= 47_181_000)
            && (id in r.t.rows && r.t.rows[id].status == Failed && id !in r.refused ==>
                  47_010_000 <= wait <= 47_181_000)
  {
    RunWaits(c, FRESH, evs, id);
    RunKept(c, FRESH, evs);
    Capped(19);
  }
}
