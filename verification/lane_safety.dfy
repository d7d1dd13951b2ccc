/** What every run of a lane keeps. */
module LaneSafety {
  import opened Js
  import opened LaneSteps

  // ----- The invariant ------------------------------------------------------

  function Total(q: seq<Queued>): nat {
    if q == [] then 0 else q[0].budget + Total(q[1..])
  }

  /** The sum of the budgets of the methods named. */
  function Budgets(env: Env, verbs: seq<string>): nat {
    if verbs == [] then 0 else env.budgetOf(verbs[0]) + Budgets(env, verbs[1..])
  }

  /** The latest moment at which an accepted call is dispatched. */
  function Limit(env: Env, e: Queued): int {
    e.queuedAt + Budgets(env, e.queuedBehind)
  }

  /** When the lane is certainly free again. */
  function FreeBy(l: Lane): int {
    if l.pending == [] then l.now else l.pending[0].deadline
  }

  predicate OnTime(env: Env, q: seq<Queued>, from: int) {
    q == [] || (from <= Limit(env, q[0]) && OnTime(env, q[1..], from + q[0].budget))
  }

  /** Everything accepted before this call has been settled. */
  function Head(l: Lane): int {
    l.next - |l.queue| - |l.pending|
  }

  /** One request at most is pending, and it is the one in flight. */
  predicate Slot(l: Lane) {
    && |l.pending| <= 1
    && (l.pending == [] <==> l.inFlight == None)
    && (l.pending != [] ==>
          var p := l.pending[0];
          && l.inFlight == Some(InFlight(p.entry.id, p.entry.verb, p.entry.budget, p.startedAt))
          && p.startedAt <= l.now <= p.deadline == p.startedAt + p.entry.budget)
  }

  predicate Numbered(env: Env, l: Lane) {
    && 0 <= Head(l)
    && (forall i :: 0 <= i < |l.queue| ==> l.queue[i].serial == Head(l) + |l.pending| + i)
    && (forall i :: 0 <= i < |l.queue| ==> WellMade(env, l.queue[i], l.now))
    && (l.pending != [] ==> l.pending[0].entry.serial == Head(l) && WellMade(env, l.pending[0].entry, l.now))
  }

  predicate WellMade(env: Env, e: Queued, now: int) {
    e.budget == env.budgetOf(e.verb) && e.queuedAt <= now
  }

  /** The promises settled are those below the head, each once. */
  predicate SettledOnce(done: seq<Settled>, head: int) {
    && (forall i :: 0 <= i < |done| ==> 0 <= done[i].entry.serial < head)
    && (forall i, j :: 0 <= i < j < |done| ==> done[i].entry.serial != done[j].entry.serial)
    && |done| == head
  }

  /** Dispatch order is the order of the calls. */
  predicate SentInOrder(sent: seq<Sent>, limit: int) {
    && (forall i :: 0 <= i < |sent| ==> sent[i].entry.serial < limit)
    && (forall i, j :: 0 <= i < j < |sent| ==> sent[i].entry.serial < sent[j].entry.serial)
  }

  /** Nobody waits longer than the budgets ahead of the call, nor is answered later than its own. */
  predicate SentInTime(env: Env, sent: seq<Sent>) {
    forall i :: 0 <= i < |sent| ==> sent[i].entry.queuedAt <= sent[i].at <= Limit(env, sent[i].entry)
  }

  predicate DoneInTime(env: Env, done: seq<Settled>) {
    forall i :: 0 <= i < |done| ==>
      var d := done[i];
      && d.entry.budget == env.budgetOf(d.entry.verb)
      && d.at <= Limit(env, d.entry) + d.entry.budget
      && match d.sentAt
         case None => d.at <= Limit(env, d.entry)
         case Some(t) => t <= Limit(env, d.entry) && t <= d.at <= t + d.entry.budget
  }

  /** All but "an idle lane has an empty queue", which holds between events only. */
  predicate Core(env: Env, l: Lane) {
    && Slot(l)
    && Numbered(env, l)
    && SettledOnce(l.done, Head(l))
    && SentInOrder(l.sent, l.next - |l.queue|)
    && SentInTime(env, l.sent)
    && DoneInTime(env, l.done)
    && OnTime(env, l.queue, FreeBy(l))
    && (l.pending != [] ==> l.pending[0].startedAt <= Limit(env, l.pending[0].entry))
  }

  predicate Inv(env: Env, l: Lane) {
    && Core(env, l)
    && (l.inFlight == None ==> l.queue == [])
    && |l.pending| + |l.queue| <= MAX_PENDING
  }

  // ----- Pumping ------------------------------------------------------------

  lemma {:induction false} Earlier(env: Env, q: seq<Queued>, from: int, to: int)
    requires OnTime(env, q, from) && to <= from
    ensures OnTime(env, q, to)
  {
    if q != [] { Earlier(env, q[1..], from + q[0].budget, to + q[0].budget); }
  }

  lemma HeadUnsettled(env: Env, l: Lane)
    requires Core(env, l) && l.queue != []
    ensures !IsSettled(l, l.queue[0])
  {
  }

  /** A request rejected without being written. */
  lemma SkipKeeps(env: Env, l: Lane, outcome: Outcome)
    requires Core(env, l) && l.pending == [] && l.queue != []
    ensures Core(env, Settle(l.(queue := l.queue[1..]), l.queue[0], None, outcome))
  {
    var e := l.queue[0];
    Earlier(env, l.queue[1..], l.now + e.budget, l.now);
  }

  lemma DispatchKeeps(env: Env, l: Lane)
    requires Core(env, l) && l.pending == [] && l.queue != []
    ensures Core(env, Dispatch(l.(queue := l.queue[1..]), l.queue[0]))
    ensures Dispatch(l.(queue := l.queue[1..]), l.queue[0]).pending ==
            [Pending(l.queue[0], l.now, l.now + l.queue[0].budget)]
  {
  }

  /** The pending request leaves the lane, whatever the reason. */
  lemma LeaveKeeps(env: Env, l: Lane, outcome: Outcome)
    requires Core(env, l) && l.pending != []
    ensures var p := l.pending[0];
            var gone := FreedSlot(Settle(l.(pending := []), p.entry, Some(p.startedAt), outcome), p.entry.id);
            Core(env, gone) && gone.pending == [] && gone.queue == l.queue && gone.socket == l.socket
  {
    Earlier(env, l.queue, l.pending[0].deadline, l.now);
  }

  lemma {:induction false} PumpKeeps(env: Env, l: Lane)
    requires Core(env, l) && |l.pending| + |l.queue| <= MAX_PENDING
    ensures Inv(env, Pump(env, l))
    ensures |Pump(env, l).pending| + |Pump(env, l).queue| <= |l.pending| + |l.queue|
    ensures Pump(env, l).next == l.next && Pump(env, l).socket == l.socket
    decreases |l.queue|
  {
    if l.inFlight == None && l.queue != [] {
      var e, rest := l.queue[0], l.(queue := l.queue[1..]);
      HeadUnsettled(env, l);
      if l.socket != Open {
        var skipped := Settle(rest, e, None, Unavailable);
        assert Pump(env, l) == Pump(env, skipped);
        SkipKeeps(env, l, Unavailable);
        PumpKeeps(env, skipped);
      } else if env.throws(e.serial) {
        var failed := Undispatch(Dispatch(rest, e), e);
        assert Pump(env, l) == Pump(env, failed);
        FailedKeeps(env, l);
        PumpKeeps(env, failed);
      } else {
        assert Pump(env, l) == Dispatch(rest, e);
        DispatchKeeps(env, l);
      }
    }
  }

  /** A dispatch whose write threw. */
  lemma FailedKeeps(env: Env, l: Lane)
    requires Core(env, l) && l.pending == [] && l.queue != []
    ensures var failed := Undispatch(Dispatch(l.(queue := l.queue[1..]), l.queue[0]), l.queue[0]);
            && Core(env, failed) && failed.pending == [] && failed.queue == l.queue[1..]
            && failed.next == l.next && failed.socket == l.socket
  {
    DispatchKeeps(env, l);
    LeaveKeeps(env, Dispatch(l.(queue := l.queue[1..]), l.queue[0]), WriteFailed);
  }

  // ----- Each event ---------------------------------------------------------

  lemma {:induction false} AppendOnTime(env: Env, q: seq<Queued>, e: Queued, from: int)
    requires OnTime(env, q, from) && from + Total(q) <= Limit(env, e)
    ensures OnTime(env, q + [e], from)
  {
    if q == [] {
      assert q + [e] == [e];
    } else {
      assert (q + [e])[0] == q[0] && (q + [e])[1..] == q[1..] + [e];
      AppendOnTime(env, q[1..], e, from + q[0].budget);
    }
  }

  lemma {:induction false} QueueBudgets(env: Env, q: seq<Queued>, now: int)
    requires forall i :: 0 <= i < |q| ==> WellMade(env, q[i], now)
    ensures Budgets(env, Verbs(q)) == Total(q)
  {
    if q != [] { QueueBudgets(env, q[1..], now); }
  }

  /** What is recorded in `queuedBehind` covers the whole lane at the moment of the call. */
  lemma AheadCovers(env: Env, l: Lane)
    requires Inv(env, l)
    ensures FreeBy(l) + Total(l.queue) <= l.now + Budgets(env, LaneAhead(l))
  {
    QueueBudgets(env, l.queue, l.now);
    if l.inFlight.Some? {
      assert LaneAhead(l)[1..] == Verbs(l.queue);
    }
  }

  lemma EnqueueKeeps(env: Env, l: Lane, id: string, verb: string)
    requires Inv(env, l) && |l.pending| + |l.queue| < MAX_PENDING
    ensures Core(env, Enqueued(env, l, id, verb))
    ensures |Enqueued(env, l, id, verb).pending| + |Enqueued(env, l, id, verb).queue| <= MAX_PENDING
  {
    var e := NewEntry(env, l, id, verb);
    AheadCovers(env, l);
    AppendOnTime(env, l.queue, e, FreeBy(l));
    EnqueueNumbers(env, l, e);
  }

  lemma EnqueueNumbers(env: Env, l: Lane, e: Queued)
    requires Slot(l) && Numbered(env, l) && e.serial == l.next && WellMade(env, e, l.now)
    ensures Numbered(env, l.(queue := l.queue + [e], next := l.next + 1))
  {
    var q := l.queue + [e];
    assert forall i :: 0 <= i < |q| ==> q[i] == if i < |l.queue| then l.queue[i] else e;
  }

  lemma CallKeeps(env: Env, l: Lane, id: string, verb: string)
    requires Inv(env, l)
    ensures Inv(env, Call(env, l, id, verb))
  {
    if |l.pending| + |l.queue| < MAX_PENDING {
      EnqueueKeeps(env, l, id, verb);
      PumpKeeps(env, Enqueued(env, l, id, verb));
    }
  }

  /** One round of rejecting or answering: the only pending request leaves, and the lane is pumped. */
  lemma FinishKeeps(env: Env, l: Lane, outcome: Outcome)
    requires Inv(env, l) && l.pending != []
    ensures Inv(env, Finish(env, l.(pending := []), l.pending[0], outcome))
    ensures Finish(env, l.(pending := []), l.pending[0], outcome).next == l.next
  {
    var p := l.pending[0];
    LeaveKeeps(env, l, outcome);
    PumpKeeps(env, FreedSlot(Settle(l.(pending := []), p.entry, Some(p.startedAt), outcome), p.entry.id));
  }

  lemma OnlyPending(l: Lane, id: string)
    requires |l.pending| <= 1
    ensures MapGet(l.pending, id).Some? ==> l.pending == [MapGet(l.pending, id).value] && MapDelete(l.pending, id) == []
  {
  }

  lemma {:induction false} RejectPendingKeeps(env: Env, l: Lane, outcome: Outcome)
    requires Inv(env, l)
    ensures Inv(env, RejectPending(env, l, outcome)) && RejectPending(env, l, outcome).pending == []
    ensures RejectPending(env, l, outcome).next == l.next
    decreases 2 * |l.queue| + |l.pending|
  {
    if l.pending != [] {
      var p, rest := l.pending[0], l.(pending := l.pending[1..]);
      assert rest.pending == [];
      FinishKeeps(env, l, outcome);
      PumpShrinks(env, FreedSlot(Settle(rest, p.entry, Some(p.startedAt), outcome), p.entry.id));
      RejectPendingKeeps(env, Finish(env, rest, p, outcome), outcome);
    }
  }

  lemma {:induction false} AllUnsettled(l: Lane, q: seq<Queued>)
    requires forall i :: 0 <= i < |q| ==> !IsSettled(l, q[i])
    ensures Unsettled(l, q) == q
  {
    if q != [] { AllUnsettled(l, q[1..]); }
  }

  lemma {:induction false} OnTimeAll(env: Env, q: seq<Queued>, from: int)
    requires OnTime(env, q, from)
    ensures forall i :: 0 <= i < |q| ==> from <= Limit(env, q[i])
  {
    if q != [] {
      OnTimeAll(env, q[1..], from + q[0].budget);
      assert forall i :: 1 <= i < |q| ==> q[i] == q[1..][i - 1];
    }
  }

  /** With nothing queued, rejecting the pending request settles it and no more. */
  lemma RejectLast(env: Env, l: Lane, outcome: Outcome)
    requires l.queue == [] && l.inFlight == None && |l.pending| == 1
    ensures RejectPending(env, l, outcome) ==
            Settle(l.(pending := []), l.pending[0].entry, Some(l.pending[0].startedAt), outcome)
  {
    var p := l.pending[0];
    var rest := l.(pending := l.pending[1..]);
    var gone := Settle(rest, p.entry, Some(p.startedAt), outcome);
    assert Finish(env, rest, p, outcome) == gone && gone.pending == [];
    assert RejectPending(env, gone, outcome) == gone;
  }

  /** Losing the socket settles the queue first and the pending request after it. */
  function Lost(l: Lane, outcome: Outcome): Lane {
    l.(queue := [], inFlight := None, pending := [],
       done := l.done + Rejections(l.queue, l.now, outcome)
               + (if l.pending == [] then []
                  else [Settled(l.pending[0].entry, Some(l.pending[0].startedAt), l.now, outcome)]))
  }

  lemma LossIs(env: Env, l: Lane, outcome: Outcome)
    requires Inv(env, l)
    ensures RejectPending(env, DrainQueue(l, outcome), outcome) == Lost(l, outcome)
  {
    AllUnsettled(l, l.queue);
    var drained := DrainQueue(l, outcome);
    if l.pending == [] {
      assert drained.done + [] == drained.done;
    } else {
      RejectLast(env, drained, outcome);
    }
  }

  lemma MoreSettled(done: seq<Settled>, more: seq<Settled>, head: int)
    requires SettledOnce(done, head)
    requires forall i :: 0 <= i < |more| ==> head <= more[i].entry.serial < head + |more|
    requires forall i, j :: 0 <= i < j < |more| ==> more[i].entry.serial != more[j].entry.serial
    ensures SettledOnce(done + more, head + |more|)
  {
  }

  lemma MoreInTime(env: Env, done: seq<Settled>, more: seq<Settled>)
    requires DoneInTime(env, done) && DoneInTime(env, more)
    ensures DoneInTime(env, done + more)
  {
  }

  lemma LossKeeps(env: Env, l: Lane, outcome: Outcome)
    requires Inv(env, l)
    ensures Inv(env, Lost(l, outcome))
  {
    var queued := Rejections(l.queue, l.now, outcome);
    var more := queued + (if l.pending == [] then []
                          else [Settled(l.pending[0].entry, Some(l.pending[0].startedAt), l.now, outcome)]);
    assert Lost(l, outcome).done == l.done + more;
    MoreSettled(l.done, more, Head(l));
    assert DoneInTime(env, more) by {
      Earlier(env, l.queue, FreeBy(l), l.now);
      OnTimeAll(env, l.queue, l.now);
    }
    MoreInTime(env, l.done, more);
    assert Head(Lost(l, outcome)) == Head(l) + |more|;
  }

  lemma ResponseKeeps(env: Env, l: Lane, id: string)
    requires Inv(env, l)
    ensures Inv(env, Response(env, l, id))
  {
    OnlyPending(l, id);
    if MapGet(l.pending, id).Some? { FinishKeeps(env, l, Answered); }
  }

  lemma TimeoutKeeps(env: Env, l: Lane)
    requires Inv(env, l) && l.pending != []
    ensures Inv(env, Timeout(env, l, l.pending[0]))
  {
    OnlyPending(l, l.pending[0].entry.id);
    FinishKeeps(env, l, TimedOut);
  }

  /** Both ways of losing the socket leave nothing behind. */
  lemma ErrorKeeps(env: Env, l: Lane)
    requires Inv(env, l)
    ensures Inv(env, OnSocketError(env, l)) && Empty(OnSocketError(env, l))
  {
    LossIs(env, l.(socket := NoSocket), SocketError);
    LossKeeps(env, l.(socket := NoSocket), SocketError);
  }

  lemma EndKeeps(env: Env, l: Lane)
    requires Inv(env, l)
    ensures Inv(env, OnSocketClose(env, l)) && Empty(OnSocketClose(env, l))
  {
    LossIs(env, l, SocketClosed);
    LossKeeps(env, l, SocketClosed);
  }

  lemma CloseKeeps(env: Env, l: Lane)
    requires Inv(env, l)
    ensures Inv(env, Close(env, l)) && Empty(Close(env, l)) && Close(env, l).next == l.next
  {
    RejectPendingKeeps(env, l.(closedByClient := true), ClientClosed);
  }

  predicate Empty(l: Lane) {
    l.pending == [] && l.queue == [] && l.inFlight == None && l.socket == NoSocket
  }

  lemma StepKeeps(env: Env, l: Lane, ev: Event)
    requires Inv(env, l) && Enabled(l, ev)
    ensures Inv(env, Step(env, l, ev))
  {
    match ev
    case Called(id, verb) => CallKeeps(env, l, id, verb);
    case Responded(id) => ResponseKeeps(env, l, id);
    case TimerFired => TimeoutKeeps(env, l);
    case SocketFailed => ErrorKeeps(env, l);
    case SocketEnded => EndKeeps(env, l);
    case ClosedByClient => CloseKeeps(env, l);
    case Tick(ms) => TickKeeps(env, l, ms);
    case Connected =>
    case Faulted =>
  }

  lemma TickKeeps(env: Env, l: Lane, ms: nat)
    requires Inv(env, l) && Enabled(l, Tick(ms))
    ensures Inv(env, l.(now := l.now + ms))
  {
    assert l.pending != [] ==> l.pending[0] in l.pending && FreeBy(l.(now := l.now + ms)) == FreeBy(l);
  }

  // ----- Every run ----------------------------------------------------------

  lemma {:induction false} RunKeeps(env: Env, l: Lane, evs: seq<Event>)
    requires Inv(env, l) && IsRun(env, l, evs)
    ensures Inv(env, After(env, l, evs))
    decreases |evs|
  {
    if evs != [] {
      StepKeeps(env, l, evs[0]);
      RunKeeps(env, Step(env, l, evs[0]), evs[1..]);
    }
  }

  /** n different values below n are all of them. */
  lemma {:induction false} Pigeonhole(s: seq<int>, n: nat)
    requires |s| == n && forall i :: 0 <= i < n ==> 0 <= s[i] < n
    requires forall i, j :: 0 <= i < j < n ==> s[i] != s[j]
    ensures forall v :: 0 <= v < n ==> v in s
    decreases n
  {
    if n > 0 {
      if k :| 0 <= k < n && s[k] == n - 1 {
        var t := s[..k] + s[k + 1..];
        Pigeonhole(t, n - 1);
        forall v | 0 <= v < n ensures v in s {
          if v < n - 1 { assert v in t; }
        }
      } else {
        var init := s[..n - 1];
        assert s[n - 1] !in init;
        Pigeonhole(init, n - 1);
      }
    }
  }

  /** The call is still waiting for its answer. */
  predicate Live(l: Lane, serial: nat) {
    (exists i :: 0 <= i < |l.pending| && l.pending[i].entry.serial == serial)
    || (exists i :: 0 <= i < |l.queue| && l.queue[i].serial == serial)
  }

  predicate SettledAt(l: Lane, serial: nat, i: nat) {
    i < |l.done| && l.done[i].entry.serial == serial
  }

  /** Every accepted call is either live or settled, never both, and settled once. */
  lemma AcceptedOnce(env: Env, l: Lane, serial: nat)
    requires Inv(env, l) && serial < l.next
    ensures Live(l, serial) <==> !exists i: nat :: SettledAt(l, serial, i)
    ensures forall i: nat, j: nat :: SettledAt(l, serial, i) && SettledAt(l, serial, j) ==> i == j
  {
    var serials := seq(|l.done|, i requires 0 <= i < |l.done| => l.done[i].entry.serial);
    Pigeonhole(serials, Head(l));
    if serial < Head(l) {
      assert serial in serials;
      var i :| 0 <= i < |serials| && serials[i] == serial;
      assert SettledAt(l, serial, i);
    } else if l.pending != [] && serial == Head(l) {
      assert l.pending[0].entry.serial == serial;
    } else {
      assert l.queue[serial - Head(l) - |l.pending|].serial == serial;
    }
  }

  /**
   * In every run, whatever the interleaving: one request at most is pending and it is
   * the one in flight, an idle lane has nothing queued, the cap holds, requests are
   * written in the order of the calls, and each call is settled once or still live.
   */
  lemma EveryRun(env: Env, evs: seq<Event>, serial: nat)
    requires IsRun(env, START, evs) && serial < After(env, START, evs).next
    ensures var l := After(env, START, evs);
            && |l.pending| <= 1 && (l.pending == [] <==> l.inFlight == None)
            && (l.pending != [] ==> l.inFlight.value.id == l.pending[0].entry.id)
            && (l.inFlight == None ==> l.queue == [])
            && |l.pending| + |l.queue| <= MAX_PENDING
            && (forall i, j :: 0 <= i < j < |l.sent| ==> l.sent[i].entry.serial < l.sent[j].entry.serial)
            && (Live(l, serial) <==> !exists i: nat :: SettledAt(l, serial, i))
            && (forall i: nat, j: nat :: SettledAt(l, serial, i) && SettledAt(l, serial, j) ==> i == j)
  {
    RunKeeps(env, START, evs);
    AcceptedOnce(env, After(env, START, evs), serial);
  }

  /**
   * The wait bounds itself: written no later than the budgets recorded ahead of it,
   * settled no later than its own budget after that.
   */
  lemma WaitIsBounded(env: Env, evs: seq<Event>)
    requires IsRun(env, START, evs)
    ensures SentInTime(env, After(env, START, evs).sent) && DoneInTime(env, After(env, START, evs).done)
    ensures var l := After(env, START, evs);
            forall i :: 0 <= i < |l.queue| ==> l.now <= Limit(env, l.queue[i])
  {
    RunKeeps(env, START, evs);
    var l := After(env, START, evs);
    Earlier(env, l.queue, FreeBy(l), l.now);
    OnTimeAll(env, l.queue, l.now);
  }

  lemma LeavesNothing(env: Env, l: Lane, last: Event)
    requires Inv(env, l) && last in {SocketFailed, SocketEnded, ClosedByClient}
    ensures Empty(Step(env, l, last))
  {
    match last
    case SocketFailed => ErrorKeeps(env, l);
    case SocketEnded => EndKeeps(env, l);
    case ClosedByClient => CloseKeeps(env, l);
  }

  /** Closing, or losing the socket, settles every accepted call. */
  lemma NothingLeft(env: Env, evs: seq<Event>, last: Event, serial: nat)
    requires IsRun(env, START, evs) && last in {SocketFailed, SocketEnded, ClosedByClient}
    requires serial < Step(env, After(env, START, evs), last).next
    ensures exists i: nat :: SettledAt(Step(env, After(env, START, evs), last), serial, i)
  {
    var l := After(env, START, evs);
    RunKeeps(env, START, evs);
    StepKeeps(env, l, last);
    LeavesNothing(env, l, last);
    AcceptedOnce(env, Step(env, l, last), serial);
  }

  // ----- Closing writes the queue -------------------------------------------

  function Writes(queue: seq<Queued>, at: int): seq<Sent> {
    if queue == [] then [] else [Sent(queue[0], at)] + Writes(queue[1..], at)
  }

  /** What has been handed to the pipe and, while the socket is open, what the queue still holds. */
  function Pledged(l: Lane): seq<Sent> {
    l.sent + (if l.socket == Open then Writes(l.queue, l.now) else [])
  }

  lemma PledgedNext(l: Lane, e: Queued, rest: Lane)
    requires l.queue != [] && e == l.queue[0] && rest == l.(queue := l.queue[1..])
    ensures l.socket != Open ==> Pledged(l) == l.sent
    ensures l.socket == Open ==> Pledged(l) == (l.sent + [Sent(e, l.now)]) + Writes(rest.queue, l.now)
  {
    Joined(l.sent, Sent(e, l.now), Writes(rest.queue, l.now));
  }

  lemma Joined(a: seq<Sent>, x: Sent, b: seq<Sent>)
    ensures (a + [x]) + b == a + ([x] + b)
  {
  }

  /** Pumping hands over nothing else, whether writes throw or not. */
  lemma {:induction false} PumpPledged(env: Env, l: Lane)
    requires Core(env, l)
    ensures Pledged(Pump(env, l)) == Pledged(l)
    decreases |l.queue|
  {
    if l.inFlight == None && l.queue != [] {
      var e, rest := l.queue[0], l.(queue := l.queue[1..]);
      HeadUnsettled(env, l);
      PledgedNext(l, e, rest);
      if l.socket != Open {
        var skipped := Settle(rest, e, None, Unavailable);
        assert Pump(env, l) == Pump(env, skipped);
        SkipKeeps(env, l, Unavailable);
        PumpPledged(env, skipped);
      } else if env.throws(e.serial) {
        var failed := Undispatch(Dispatch(rest, e), e);
        assert Pump(env, l) == Pump(env, failed);
        FailedKeeps(env, l);
        PumpPledged(env, failed);
      } else {
        assert Pump(env, l) == Dispatch(rest, e);
      }
    }
  }

  lemma {:induction false} RejectPledged(env: Env, l: Lane, outcome: Outcome)
    requires Inv(env, l)
    ensures Pledged(RejectPending(env, l, outcome)) == Pledged(l)
    decreases 2 * |l.queue| + |l.pending|
  {
    if l.pending != [] {
      var p, rest := l.pending[0], l.(pending := l.pending[1..]);
      assert rest.pending == [];
      var gone := FreedSlot(Settle(rest, p.entry, Some(p.startedAt), outcome), p.entry.id);
      LeaveKeeps(env, l, outcome);
      FinishKeeps(env, l, outcome);
      PumpShrinks(env, gone);
      PumpPledged(env, gone);
      RejectPledged(env, Finish(env, rest, p, outcome), outcome);
    }
  }

  /**
   * Unlike a socket error, `close` does not drain the queue first: while the socket is
   * open every queued request is still handed to the pipe, in order, before it is
   * rejected, and nothing is when it is not open.
   */
  lemma CloseWritesQueue(env: Env, l: Lane)
    requires Inv(env, l)
    ensures Close(env, l).sent == l.sent + (if l.socket == Open then Writes(l.queue, l.now) else [])
  {
    var closing := l.(closedByClient := true);
    RejectPledged(env, closing, ClientClosed);
    RejectPendingKeeps(env, closing, ClientClosed);
    assert Pledged(RejectPending(env, closing, ClientClosed)) == RejectPending(env, closing, ClientClosed).sent;
  }

  lemma ErrorWritesNothing(env: Env, l: Lane)
    requires Inv(env, l)
    ensures OnSocketError(env, l).sent == l.sent
  {
    LossIs(env, l.(socket := NoSocket), SocketError);
  }
}
