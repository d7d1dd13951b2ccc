/** Which promise each event of a lane settles, how, and why. */
module LaneOutcomes {
  import opened Js
  import opened LaneSteps
  import opened LaneSafety

  // ----- One event ----------------------------------------------------------

  /** Pumping settles without an answer: nothing is written without a socket, and a write may throw. */
  predicate PumpReason(env: Env, l: Lane, d: Settled) {
    d.at == l.now
    && if l.socket == Open then d.outcome == WriteFailed && d.sentAt == Some(l.now) && env.throws(d.entry.serial)
       else d.outcome == Unavailable && d.sentAt == None
  }

  predicate IsOfPending(l: Lane, d: Settled) {
    l.pending != [] && d.entry == l.pending[0].entry && d.sentAt == Some(l.pending[0].startedAt)
  }

  /** The events after which the lane may hand over what is queued. */
  predicate Pumps(ev: Event) { ev.Called? || ev.Responded? || ev.TimerFired? || ev.ClosedByClient? }

  /** What each outcome says of the event that brought it and of the lane before. */
  predicate Explains(env: Env, l: Lane, ev: Event, d: Settled) {
    && d.at == l.now
    && match d.outcome
       case Answered => ev == Responded(d.entry.id) && IsOfPending(l, d)
       case TimedOut => ev == TimerFired && IsOfPending(l, d) && d.at == d.sentAt.value + d.entry.budget
       case Unavailable => Pumps(ev) && PumpReason(env, l, d)
       case WriteFailed => Pumps(ev) && PumpReason(env, l, d)
       case SocketError => ev == SocketFailed
       case SocketClosed => ev == SocketEnded
       case ClientClosed => ev == ClosedByClient && d.sentAt.Some?
  }

  /** Between the two, promises have only been settled for a reason of the pump, or with `outcome` once written. */
  predicate Grows(env: Env, l: Lane, after: Lane, outcome: Outcome) {
    && l.done <= after.done && after.socket == l.socket && after.now == l.now
    && forall i :: |l.done| <= i < |after.done| ==>
         PumpReason(env, l, after.done[i])
         || (after.done[i].outcome == outcome && after.done[i].at == l.now && after.done[i].sentAt.Some?)
  }

  lemma GrowsOn(env: Env, l: Lane, mid: Lane, after: Lane, outcome: Outcome)
    requires Grows(env, l, mid, outcome) && Grows(env, mid, after, outcome)
    ensures Grows(env, l, after, outcome)
  {
    assert forall i :: |l.done| <= i < |mid.done| ==> after.done[i] == mid.done[i];
  }

  lemma SettleGrows(env: Env, l: Lane, after: Lane, d: Settled, outcome: Outcome)
    requires after.done == l.done + [d] && after.socket == l.socket && after.now == l.now
    requires PumpReason(env, l, d) || (d.outcome == outcome && d.at == l.now && d.sentAt.Some?)
    ensures Grows(env, l, after, outcome)
  {
  }

  lemma {:induction false} PumpGrows(env: Env, l: Lane, outcome: Outcome)
    requires Core(env, l)
    ensures Grows(env, l, Pump(env, l), outcome)
    decreases |l.queue|
  {
    if l.inFlight == None && l.queue != [] {
      var e, rest := l.queue[0], l.(queue := l.queue[1..]);
      HeadUnsettled(env, l);
      if l.socket != Open {
        var skipped := Settle(rest, e, None, Unavailable);
        SkipKeeps(env, l, Unavailable);
        SettleGrows(env, l, skipped, Settled(e, None, l.now, Unavailable), outcome);
        PumpGrows(env, skipped, outcome);
        GrowsOn(env, l, skipped, Pump(env, skipped), outcome);
      } else if env.throws(e.serial) {
        var failed := Undispatch(Dispatch(rest, e), e);
        FailedKeeps(env, l);
        SettleGrows(env, l, failed, Settled(e, Some(l.now), l.now, WriteFailed), outcome);
        PumpGrows(env, failed, outcome);
        GrowsOn(env, l, failed, Pump(env, failed), outcome);
      }
    }
  }

  /** A pump by itself settles for no other reason. */
  lemma PumpOnly(env: Env, l: Lane)
    requires Core(env, l)
    ensures l.done <= Pump(env, l).done
    ensures forall i :: |l.done| <= i < |Pump(env, l).done| ==> PumpReason(env, l, Pump(env, l).done[i])
  {
    PumpGrows(env, l, Answered);
    PumpGrows(env, l, TimedOut);
  }

  /** `d` is settled first, and after it the pump settles for its own reasons. */
  predicate SettlesFirst(env: Env, l: Lane, after: Lane, d: Settled) {
    && |after.done| > |l.done| && l.done <= after.done && after.done[|l.done|] == d
    && forall i :: |l.done| < i < |after.done| ==> PumpReason(env, l, after.done[i])
  }

  lemma FinishSettles(env: Env, l: Lane, outcome: Outcome)
    requires Inv(env, l) && l.pending != []
    ensures var p := l.pending[0];
            var after := Finish(env, l.(pending := []), p, outcome);
            && SettlesFirst(env, l, after, Settled(p.entry, Some(p.startedAt), l.now, outcome))
            && Grows(env, l, after, outcome)
  {
    var p := l.pending[0];
    var gone := FreedSlot(Settle(l.(pending := []), p.entry, Some(p.startedAt), outcome), p.entry.id);
    LeaveKeeps(env, l, outcome);
    PumpOnly(env, gone);
    PumpGrows(env, gone, outcome);
    SettleGrows(env, l, gone, Settled(p.entry, Some(p.startedAt), l.now, outcome), outcome);
    GrowsOn(env, l, gone, Pump(env, gone), outcome);
  }

  lemma {:induction false} RejectGrows(env: Env, l: Lane, outcome: Outcome)
    requires Inv(env, l)
    ensures Grows(env, l, RejectPending(env, l, outcome), outcome)
    decreases 2 * |l.queue| + |l.pending|
  {
    if l.pending != [] {
      var p, rest := l.pending[0], l.(pending := l.pending[1..]);
      assert rest.pending == [];
      FinishKeeps(env, l, outcome);
      FinishSettles(env, l, outcome);
      PumpShrinks(env, FreedSlot(Settle(rest, p.entry, Some(p.startedAt), outcome), p.entry.id));
      var next := Finish(env, rest, p, outcome);
      RejectGrows(env, next, outcome);
      GrowsOn(env, l, next, RejectPending(env, next, outcome), outcome);
    }
  }

  /** A reply whose identifier is not that of the request in the lane is an orphan and changes nothing. */
  lemma OrphanChangesNothing(env: Env, l: Lane, id: string)
    requires Inv(env, l) && (l.pending == [] || l.pending[0].entry.id != id)
    ensures Response(env, l, id) == l
  {
  }

  /** A reply to the request in the lane settles that request, as answered. */
  lemma ReplySettles(env: Env, l: Lane, id: string)
    requires Inv(env, l) && l.pending != [] && l.pending[0].entry.id == id
    ensures var p := l.pending[0];
            SettlesFirst(env, l, Response(env, l, id), Settled(p.entry, Some(p.startedAt), l.now, Answered))
  {
    OnlyPending(l, id);
    FinishSettles(env, l, Answered);
  }

  /** A timer that fires settles the request in the lane as timed out, just when its budget is over. */
  lemma TimerSettles(env: Env, l: Lane)
    requires Inv(env, l) && Enabled(l, TimerFired)
    ensures var p := l.pending[0];
            && SettlesFirst(env, l, Step(env, l, TimerFired), Settled(p.entry, Some(p.startedAt), l.now, TimedOut))
            && l.now == p.startedAt + p.entry.budget
  {
    OnlyPending(l, l.pending[0].entry.id);
    FinishSettles(env, l, TimedOut);
  }

  predicate AreExplained(env: Env, l: Lane, ev: Event, after: Lane) {
    l.done <= after.done && forall i :: |l.done| <= i < |after.done| ==> Explains(env, l, ev, after.done[i])
  }

  lemma CallExplained(env: Env, l: Lane, id: string, verb: string)
    requires Inv(env, l)
    ensures AreExplained(env, l, Called(id, verb), Call(env, l, id, verb))
  {
    if |l.pending| + |l.queue| < MAX_PENDING {
      EnqueueKeeps(env, l, id, verb);
      PumpOnly(env, Enqueued(env, l, id, verb));
    }
  }

  lemma ReplyExplained(env: Env, l: Lane, id: string)
    requires Inv(env, l)
    ensures AreExplained(env, l, Responded(id), Response(env, l, id))
  {
    if l.pending == [] || l.pending[0].entry.id != id {
      OrphanChangesNothing(env, l, id);
    } else {
      ReplySettles(env, l, id);
    }
  }

  lemma TimerExplained(env: Env, l: Lane)
    requires Inv(env, l) && Enabled(l, TimerFired)
    ensures AreExplained(env, l, TimerFired, Step(env, l, TimerFired))
  {
    TimerSettles(env, l);
  }

  lemma LossExplained(env: Env, l: Lane, ev: Event)
    requires Inv(env, l) && (ev == SocketFailed || ev == SocketEnded)
    ensures AreExplained(env, l, ev, Step(env, l, ev))
  {
    if ev == SocketFailed {
      LossIs(env, l.(socket := NoSocket), SocketError);
      LostIs(l.(socket := NoSocket), SocketError);
    } else {
      LossIs(env, l, SocketClosed);
      LostIs(l, SocketClosed);
    }
  }

  lemma LostIs(l: Lane, outcome: Outcome)
    ensures l.done <= Lost(l, outcome).done
    ensures forall i :: |l.done| <= i < |Lost(l, outcome).done| ==>
              Lost(l, outcome).done[i].outcome == outcome && Lost(l, outcome).done[i].at == l.now
  {
  }

  lemma CloseExplained(env: Env, l: Lane)
    requires Inv(env, l)
    ensures AreExplained(env, l, ClosedByClient, Close(env, l))
  {
    RejectGrows(env, l.(closedByClient := true), ClientClosed);
  }

  /** Every promise that an event settles, it settles for the reason its outcome tells. */
  lemma StepExplained(env: Env, l: Lane, ev: Event)
    requires Inv(env, l) && Enabled(l, ev)
    ensures AreExplained(env, l, ev, Step(env, l, ev))
  {
    match ev
    case Called(id, verb) => CallExplained(env, l, id, verb);
    case Responded(id) => ReplyExplained(env, l, id);
    case TimerFired => TimerExplained(env, l);
    case SocketFailed => LossExplained(env, l, ev);
    case SocketEnded => LossExplained(env, l, ev);
    case ClosedByClient => CloseExplained(env, l);
    case Connected =>
    case Faulted =>
    case Tick(_) =>
  }

  // ----- Every run ----------------------------------------------------------

  lemma {:induction false} DoneStays(env: Env, l: Lane, evs: seq<Event>)
    requires Inv(env, l) && IsRun(env, l, evs)
    ensures l.done <= After(env, l, evs).done
    decreases |evs|
  {
    if evs == [] {
    } else {
      StepKeeps(env, l, evs[0]);
      StepExplained(env, l, evs[0]);
      DoneStays(env, Step(env, l, evs[0]), evs[1..]);
    }
  }

  lemma {:induction false} RunExplained(env: Env, l: Lane, evs: seq<Event>, i: nat) returns (k: nat)
    requires Inv(env, l) && IsRun(env, l, evs) && |l.done| <= i < |After(env, l, evs).done|
    ensures k < |evs| && IsRun(env, l, evs[..k])
    ensures Explains(env, After(env, l, evs[..k]), evs[k], After(env, l, evs).done[i])
    decreases |evs|
  {
    var next := Step(env, l, evs[0]);
    StepKeeps(env, l, evs[0]);
    StepExplained(env, l, evs[0]);
    DoneStays(env, next, evs[1..]);
    if i < |next.done| {
      k := 0;
    } else {
      var j := RunExplained(env, next, evs[1..], i);
      k := j + 1;
      assert evs[..k][0] == evs[0] && evs[..k][1..] == evs[1..][..j];
    }
  }

  /**
   * In every run each promise settled has its event: answered only by a reply of its own
   * identifier while it is the one in the lane, timed out only by its timer and just when
   * its budget is over, unavailable only without an open socket and unwritten, failed
   * only by a write that threw, and otherwise by the loss or the closing its error names.
   */
  lemma EveryOutcome(env: Env, evs: seq<Event>, i: nat) returns (k: nat)
    requires IsRun(env, START, evs) && i < |After(env, START, evs).done|
    ensures k < |evs| && IsRun(env, START, evs[..k])
    ensures Explains(env, After(env, START, evs[..k]), evs[k], After(env, START, evs).done[i])
  {
    k := RunExplained(env, START, evs, i);
  }

  // ----- The calls of a run -------------------------------------------------

  /** The methods of the requests in the lane and in the queue. */
  function Ahead(l: Lane): seq<string> {
    seq(|l.pending| + |l.queue|, i requires 0 <= i < |l.pending| + |l.queue| =>
      if i < |l.pending| then l.pending[i].entry.verb else l.queue[i - |l.pending|].verb)
  }

  /** What an event asks of the lane: nothing, or a call that is not too many. */
  function Asked(env: Env, l: Lane, ev: Event): seq<Queued> {
    if ev.Called? && |l.pending| + |l.queue| < MAX_PENDING
    then [Queued(l.next, ev.id, ev.verb, env.budgetOf(ev.verb), l.now, Ahead(l))] else []
  }

  /** The calls accepted over a run, in order. */
  function Calls(env: Env, l: Lane, evs: seq<Event>): seq<Queued>
    requires IsRun(env, l, evs)
    decreases |evs|
  {
    if evs == [] then [] else Asked(env, l, evs[0]) + Calls(env, Step(env, l, evs[0]), evs[1..])
  }

  predicate Is(calls: seq<Queued>, e: Queued) { e.serial < |calls| && calls[e.serial] == e }

  /** A request written is the one in the lane, or it was settled as written. */
  predicate IsFollowed(l: Lane, s: Sent) {
    || (l.pending != [] && l.pending[0].entry == s.entry && l.pending[0].startedAt == s.at)
    || exists i :: 0 <= i < |l.done| && l.done[i].entry == s.entry && l.done[i].sentAt == Some(s.at)
  }

  /** A promise settled as written was, and as not written was not; only throwing writes fail. */
  predicate IsTrue(env: Env, l: Lane, d: Settled) {
    && (match d.sentAt
        case Some(t) => Sent(d.entry, t) in l.sent
        case None => forall j :: 0 <= j < |l.sent| ==> l.sent[j].entry.serial != d.entry.serial)
    && (d.outcome == WriteFailed <==> d.sentAt.Some? && env.throws(d.entry.serial))
  }

  predicate Told(env: Env, calls: seq<Queued>, l: Lane) {
    && |calls| == l.next
    && (forall i :: 0 <= i < |l.queue| ==> Is(calls, l.queue[i]))
    && (l.pending != [] ==>
          var p := l.pending[0];
          Is(calls, p.entry) && Sent(p.entry, p.startedAt) in l.sent && !env.throws(p.entry.serial))
    && (forall i :: 0 <= i < |l.sent| ==> Is(calls, l.sent[i].entry) && IsFollowed(l, l.sent[i]))
    && (forall i :: 0 <= i < |l.done| ==> Is(calls, l.done[i].entry) && IsTrue(env, l, l.done[i]))
  }

  lemma SkipTold(env: Env, calls: seq<Queued>, l: Lane, outcome: Outcome)
    requires Core(env, l) && Told(env, calls, l) && l.pending == [] && l.queue != [] && outcome != WriteFailed
    ensures Told(env, calls, Settle(l.(queue := l.queue[1..]), l.queue[0], None, outcome))
  {
    var after := Settle(l.(queue := l.queue[1..]), l.queue[0], None, outcome);
    assert forall i :: 0 <= i < |l.done| ==> after.done[i] == l.done[i];
    MoreDoneFollows(l, after);
  }

  lemma MoreDoneFollows(l: Lane, after: Lane)
    requires l.done <= after.done && l.pending == after.pending
    ensures forall s :: IsFollowed(l, s) ==> IsFollowed(after, s)
  {
    forall s | IsFollowed(l, s) ensures IsFollowed(after, s) {
      if i :| 0 <= i < |l.done| && l.done[i].entry == s.entry && l.done[i].sentAt == Some(s.at) {
        assert after.done[i] == l.done[i];
      }
    }
  }

  lemma DispatchTold(env: Env, calls: seq<Queued>, l: Lane)
    requires Core(env, l) && Told(env, calls, l) && l.pending == [] && l.queue != []
    requires !env.throws(l.queue[0].serial)
    ensures Told(env, calls, Dispatch(l.(queue := l.queue[1..]), l.queue[0]))
  {
    var e := l.queue[0];
    var after := Dispatch(l.(queue := l.queue[1..]), e);
    DispatchKeeps(env, l);
    WrittenTold(env, calls, l, after, e);
    forall i | 0 <= i < |after.sent| ensures IsFollowed(after, after.sent[i]) {
      if i < |l.sent| { LeftFollows(l, after, l.sent[i]); }
    }
  }

  /** What follows from one more request written, for the promises settled before. */
  lemma WrittenTold(env: Env, calls: seq<Queued>, l: Lane, after: Lane, e: Queued)
    requires Core(env, l) && Told(env, calls, l) && l.pending == [] && l.queue != [] && e == l.queue[0]
    requires after.sent == l.sent + [Sent(e, l.now)]
    ensures forall i :: 0 <= i < |l.done| ==> IsTrue(env, after, l.done[i])
    ensures forall i :: 0 <= i < |after.sent| ==> Is(calls, after.sent[i].entry)
    ensures Sent(e, l.now) in after.sent
  {
    assert after.sent[|l.sent|] == Sent(e, l.now);
    forall i | 0 <= i < |l.done| ensures IsTrue(env, after, l.done[i]) {
      assert IsTrue(env, l, l.done[i]) && l.done[i].entry.serial < e.serial;
      forall j | 0 <= j < |after.sent| && l.done[i].sentAt.None?
        ensures after.sent[j].entry.serial != l.done[i].entry.serial
      {
        if j < |l.sent| { assert after.sent[j] == l.sent[j]; }
      }
    }
  }

  lemma LeftFollows(l: Lane, after: Lane, s: Sent)
    requires IsFollowed(l, s) && l.pending == [] && l.done <= after.done
    ensures IsFollowed(after, s)
  {
    var i :| 0 <= i < |l.done| && l.done[i].entry == s.entry && l.done[i].sentAt == Some(s.at);
    assert after.done[i] == l.done[i];
  }

  lemma FailedTold(env: Env, calls: seq<Queued>, l: Lane)
    requires Core(env, l) && Told(env, calls, l) && l.pending == [] && l.queue != []
    requires env.throws(l.queue[0].serial)
    ensures Told(env, calls, Undispatch(Dispatch(l.(queue := l.queue[1..]), l.queue[0]), l.queue[0]))
  {
    var e := l.queue[0];
    var after := Undispatch(Dispatch(l.(queue := l.queue[1..]), e), e);
    FailedKeeps(env, l);
    WrittenTold(env, calls, l, after, e);
    assert after.done == l.done + [Settled(e, Some(l.now), l.now, WriteFailed)];
    assert after.done[|l.done|].entry == e;
    forall i | 0 <= i < |after.sent| ensures IsFollowed(after, after.sent[i]) {
      if i < |l.sent| { LeftFollows(l, after, l.sent[i]); }
    }
  }

  /** The request in the lane leaves it. */
  lemma LeaveTold(env: Env, calls: seq<Queued>, l: Lane, outcome: Outcome)
    requires Core(env, l) && Told(env, calls, l) && l.pending != [] && outcome != WriteFailed
    ensures var p := l.pending[0];
            Told(env, calls, FreedSlot(Settle(l.(pending := []), p.entry, Some(p.startedAt), outcome), p.entry.id))
  {
    var p := l.pending[0];
    var gone := FreedSlot(Settle(l.(pending := []), p.entry, Some(p.startedAt), outcome), p.entry.id);
    var d := Settled(p.entry, Some(p.startedAt), l.now, outcome);
    assert gone.done == l.done + [d] && gone.done[|l.done|] == d;
    forall i | 0 <= i < |gone.sent| ensures IsFollowed(gone, gone.sent[i]) {
      assert IsFollowed(l, l.sent[i]);
      if j :| 0 <= j < |l.done| && l.done[j].entry == l.sent[i].entry && l.done[j].sentAt == Some(l.sent[i].at) {
        assert gone.done[j] == l.done[j];
      }
    }
    forall i | 0 <= i < |gone.done| ensures IsTrue(env, gone, gone.done[i]) {
      if i < |l.done| { assert IsTrue(env, l, l.done[i]); }
    }
  }

  lemma {:induction false} PumpTold(env: Env, calls: seq<Queued>, l: Lane)
    requires Core(env, l) && Told(env, calls, l)
    ensures Told(env, calls, Pump(env, l))
    decreases |l.queue|
  {
    if l.inFlight == None && l.queue != [] {
      var e, rest := l.queue[0], l.(queue := l.queue[1..]);
      HeadUnsettled(env, l);
      if l.socket != Open {
        SkipKeeps(env, l, Unavailable);
        SkipTold(env, calls, l, Unavailable);
        PumpTold(env, calls, Settle(rest, e, None, Unavailable));
      } else if env.throws(e.serial) {
        FailedKeeps(env, l);
        FailedTold(env, calls, l);
        PumpTold(env, calls, Undispatch(Dispatch(rest, e), e));
      } else {
        DispatchTold(env, calls, l);
      }
    }
  }

  lemma FinishTold(env: Env, calls: seq<Queued>, l: Lane, outcome: Outcome)
    requires Inv(env, l) && Told(env, calls, l) && l.pending != [] && outcome != WriteFailed
    ensures Told(env, calls, Finish(env, l.(pending := []), l.pending[0], outcome))
  {
    var p := l.pending[0];
    LeaveKeeps(env, l, outcome);
    LeaveTold(env, calls, l, outcome);
    PumpTold(env, calls, FreedSlot(Settle(l.(pending := []), p.entry, Some(p.startedAt), outcome), p.entry.id));
  }

  lemma {:induction false} RejectTold(env: Env, calls: seq<Queued>, l: Lane, outcome: Outcome)
    requires Inv(env, l) && Told(env, calls, l) && outcome != WriteFailed
    ensures Told(env, calls, RejectPending(env, l, outcome))
    decreases 2 * |l.queue| + |l.pending|
  {
    if l.pending != [] {
      var p, rest := l.pending[0], l.(pending := l.pending[1..]);
      assert rest.pending == [];
      FinishKeeps(env, l, outcome);
      FinishTold(env, calls, l, outcome);
      PumpShrinks(env, FreedSlot(Settle(rest, p.entry, Some(p.startedAt), outcome), p.entry.id));
      RejectTold(env, calls, Finish(env, rest, p, outcome), outcome);
    }
  }

  /** Losing the socket: the queue was not written, the request in the lane was. */
  lemma LossTold(env: Env, calls: seq<Queued>, l: Lane, outcome: Outcome)
    requires Inv(env, l) && Told(env, calls, l) && outcome != WriteFailed
    ensures Told(env, calls, Lost(l, outcome))
  {
    var after := Lost(l, outcome);
    var queued := Rejections(l.queue, l.now, outcome);
    var last := if l.pending == [] then []
                else [Settled(l.pending[0].entry, Some(l.pending[0].startedAt), l.now, outcome)];
    assert after.done == l.done + queued + last;
    forall i | 0 <= i < |after.done| ensures Is(calls, after.done[i].entry) && IsTrue(env, after, after.done[i]) {
      if i < |l.done| {
        assert after.done[i] == l.done[i] && IsTrue(env, l, l.done[i]);
      } else if i < |l.done| + |queued| {
        assert after.done[i] == queued[i - |l.done|];
      } else {
        assert after.done[i] == last[i - |l.done| - |queued|];
      }
    }
    forall i | 0 <= i < |after.sent| ensures IsFollowed(after, after.sent[i]) {
      assert IsFollowed(l, l.sent[i]);
      if j :| 0 <= j < |l.done| && l.done[j].entry == l.sent[i].entry && l.done[j].sentAt == Some(l.sent[i].at) {
        assert after.done[j] == l.done[j];
      } else {
        assert after.done[|l.done| + |queued|] == last[0];
      }
    }
  }

  lemma {:induction false} VerbAt(q: seq<Queued>, i: nat)
    requires i < |q|
    ensures Verbs(q)[i] == q[i].verb
  {
    if i > 0 { VerbAt(q[1..], i - 1); }
  }

  lemma AheadIs(l: Lane)
    requires Slot(l)
    ensures LaneAhead(l) == Ahead(l)
  {
    forall i | 0 <= i < |l.queue| ensures Verbs(l.queue)[i] == l.queue[i].verb {
      VerbAt(l.queue, i);
    }
  }

  lemma EnqueueTold(env: Env, calls: seq<Queued>, l: Lane, id: string, verb: string)
    requires Inv(env, l) && Told(env, calls, l) && |l.pending| + |l.queue| < MAX_PENDING
    ensures Told(env, calls + Asked(env, l, Called(id, verb)), Enqueued(env, l, id, verb))
  {
    AheadIs(l);
    var e := NewEntry(env, l, id, verb);
    var more, after := calls + [e], Enqueued(env, l, id, verb);
    assert forall x: Queued :: Is(calls, x) ==> Is(more, x);
    assert forall i :: 0 <= i < |l.queue| ==> after.queue[i] == l.queue[i];
    forall i | 0 <= i < |after.sent| ensures IsFollowed(after, after.sent[i]) {
      assert IsFollowed(l, l.sent[i]);
    }
    forall i | 0 <= i < |after.done| ensures IsTrue(env, after, after.done[i]) {
      assert IsTrue(env, l, l.done[i]);
    }
  }

  lemma CallTold(env: Env, calls: seq<Queued>, l: Lane, id: string, verb: string)
    requires Inv(env, l) && Told(env, calls, l)
    ensures Told(env, calls + Asked(env, l, Called(id, verb)), Call(env, l, id, verb))
  {
    if |l.pending| + |l.queue| < MAX_PENDING {
      EnqueueKeeps(env, l, id, verb);
      EnqueueTold(env, calls, l, id, verb);
      PumpTold(env, calls + Asked(env, l, Called(id, verb)), Enqueued(env, l, id, verb));
    } else {
      assert calls + [] == calls;
    }
  }

  /** The lists are all that is told. */
  lemma SameTold(env: Env, calls: seq<Queued>, l: Lane, after: Lane)
    requires Told(env, calls, l) && after.next == l.next && after.queue == l.queue && after.pending == l.pending
    requires after.sent == l.sent && after.done == l.done
    ensures Told(env, calls, after)
  {
    forall i | 0 <= i < |after.sent| ensures IsFollowed(after, after.sent[i]) {
      assert IsFollowed(l, l.sent[i]);
    }
    forall i | 0 <= i < |after.done| ensures IsTrue(env, after, after.done[i]) {
      assert IsTrue(env, l, l.done[i]);
    }
  }

  lemma ReplyTold(env: Env, calls: seq<Queued>, l: Lane, id: string)
    requires Inv(env, l) && Told(env, calls, l)
    ensures Told(env, calls, Response(env, l, id))
  {
    OnlyPending(l, id);
    if MapGet(l.pending, id).Some? { FinishTold(env, calls, l, Answered); }
  }

  lemma TimerTold(env: Env, calls: seq<Queued>, l: Lane)
    requires Inv(env, l) && Told(env, calls, l) && l.pending != []
    ensures Told(env, calls, Timeout(env, l, l.pending[0]))
  {
    OnlyPending(l, l.pending[0].entry.id);
    FinishTold(env, calls, l, TimedOut);
  }

  lemma CloseTold(env: Env, calls: seq<Queued>, l: Lane)
    requires Inv(env, l) && Told(env, calls, l)
    ensures Told(env, calls, Close(env, l))
  {
    var closing := l.(closedByClient := true);
    SameTold(env, calls, l, closing);
    RejectTold(env, calls, closing, ClientClosed);
    SameTold(env, calls, RejectPending(env, closing, ClientClosed), Close(env, l));
  }

  lemma LostTold(env: Env, calls: seq<Queued>, l: Lane, ev: Event)
    requires Inv(env, l) && Told(env, calls, l) && (ev == SocketFailed || ev == SocketEnded)
    ensures Told(env, calls, Step(env, l, ev))
  {
    var before := if ev == SocketFailed then l.(socket := NoSocket) else l;
    var outcome := if ev == SocketFailed then SocketError else SocketClosed;
    SameTold(env, calls, l, before);
    LossIs(env, before, outcome);
    LossTold(env, calls, before, outcome);
    SameTold(env, calls, Lost(before, outcome), Step(env, l, ev));
  }

  lemma StepTold(env: Env, calls: seq<Queued>, l: Lane, ev: Event)
    requires Inv(env, l) && Told(env, calls, l) && Enabled(l, ev)
    ensures Told(env, calls + Asked(env, l, ev), Step(env, l, ev))
  {
    assert calls + [] == calls;
    match ev
    case Called(id, verb) => CallTold(env, calls, l, id, verb);
    case Responded(id) => ReplyTold(env, calls, l, id);
    case TimerFired => TimerTold(env, calls, l);
    case SocketFailed => LostTold(env, calls, l, ev);
    case SocketEnded => LostTold(env, calls, l, ev);
    case ClosedByClient => CloseTold(env, calls, l);
    case Connected => SameTold(env, calls, l, Step(env, l, ev));
    case Faulted => SameTold(env, calls, l, Step(env, l, ev));
    case Tick(_) => SameTold(env, calls, l, Step(env, l, ev));
  }

  lemma {:induction false} RunTold(env: Env, calls: seq<Queued>, l: Lane, evs: seq<Event>)
    requires Inv(env, l) && Told(env, calls, l) && IsRun(env, l, evs)
    ensures Told(env, calls + Calls(env, l, evs), After(env, l, evs))
    decreases |evs|
  {
    if evs == [] {
      assert calls + [] == calls;
    } else {
      var asked, next := Asked(env, l, evs[0]), Step(env, l, evs[0]);
      StepKeeps(env, l, evs[0]);
      StepTold(env, calls, l, evs[0]);
      RunTold(env, calls + asked, next, evs[1..]);
      CallsJoin(calls, asked, Calls(env, next, evs[1..]));
    }
  }

  lemma CallsJoin(a: seq<Queued>, b: seq<Queued>, c: seq<Queued>)
    ensures (a + b) + c == a + (b + c)
  {
  }

  /**
   * In every run the promises are those of the calls accepted, each with the identifier,
   * the method, the budget and the requests ahead that it had when it was made; what was
   * written is in the lane or was settled as written; and a write that throws is the
   * failure of the request written, and of no other.
   */
  lemma EveryCall(env: Env, evs: seq<Event>)
    requires IsRun(env, START, evs)
    ensures Told(env, Calls(env, START, evs), After(env, START, evs))
  {
    RunTold(env, [], START, evs);
    assert [] + Calls(env, START, evs) == Calls(env, START, evs);
  }

  // ----- The socket ---------------------------------------------------------

  /** Whether the last event that touches the socket opened it. */
  predicate IsOpenAfter(evs: seq<Event>) {
    evs != [] &&
    match evs[|evs| - 1]
    case Connected => true
    case Faulted => false
    case SocketFailed => false
    case SocketEnded => false
    case ClosedByClient => false
    case _ => IsOpenAfter(evs[..|evs| - 1])
  }

  /** The time that has passed. */
  function Elapsed(evs: seq<Event>): nat {
    if evs == [] then 0
    else Elapsed(evs[..|evs| - 1]) + (if evs[|evs| - 1].Tick? then evs[|evs| - 1].ms else 0)
  }

  lemma {:induction false} PumpLeavesSocket(env: Env, l: Lane)
    ensures Pump(env, l).socket == l.socket && Pump(env, l).now == l.now
    decreases |l.queue|
  {
    if l.inFlight.None? && l.queue != [] {
      var e, rest := l.queue[0], l.(queue := l.queue[1..]);
      if IsSettled(l, e) {
        PumpLeavesSocket(env, rest);
      } else if l.socket != Open {
        PumpLeavesSocket(env, Settle(rest, e, None, Unavailable));
      } else if env.throws(e.serial) {
        PumpLeavesSocket(env, Undispatch(Dispatch(rest, e), e));
      }
    }
  }

  lemma SettlingSocket(env: Env, l: Lane, ev: Event)
    requires Inv(env, l) && Enabled(l, ev) && (ev.Responded? || ev.TimerFired?)
    ensures Step(env, l, ev).socket == l.socket && Step(env, l, ev).now == l.now
  {
    if ev.TimerFired? {
      var p := l.pending[0];
      OnlyPending(l, p.entry.id);
      PumpLeavesSocket(env, FreedSlot(Settle(l.(pending := []), p.entry, Some(p.startedAt), TimedOut), p.entry.id));
    } else {
      OnlyPending(l, ev.id);
      if MapGet(l.pending, ev.id).Some? {
        var p := l.pending[0];
        PumpLeavesSocket(env, FreedSlot(Settle(l.(pending := []), p.entry, Some(p.startedAt), Answered), p.entry.id));
      }
    }
  }

  lemma StepSocket(env: Env, l: Lane, ev: Event)
    requires Inv(env, l) && Enabled(l, ev)
    ensures Step(env, l, ev).socket == Open <==>
              match ev
              case Connected => true
              case Faulted => false
              case SocketFailed => false
              case SocketEnded => false
              case ClosedByClient => false
              case _ => l.socket == Open
    ensures Step(env, l, ev).now == l.now + (if ev.Tick? then ev.ms else 0)
  {
    match ev
    case Called(id, verb) => PumpLeavesSocket(env, Enqueued(env, l, id, verb));
    case Responded(_) => SettlingSocket(env, l, ev);
    case TimerFired => SettlingSocket(env, l, ev);
    case SocketFailed => LossIs(env, l.(socket := NoSocket), SocketError);
    case SocketEnded => LossIs(env, l, SocketClosed);
    case ClosedByClient => RejectGrows(env, l.(closedByClient := true), ClientClosed);
    case Connected =>
    case Faulted =>
    case Tick(_) =>
  }

  lemma {:induction false} LastStep(env: Env, l: Lane, evs: seq<Event>)
    requires IsRun(env, l, evs) && evs != []
    ensures var before := evs[..|evs| - 1];
            && IsRun(env, l, before) && Enabled(After(env, l, before), evs[|evs| - 1])
            && After(env, l, evs) == Step(env, After(env, l, before), evs[|evs| - 1])
    decreases |evs|
  {
    if |evs| > 1 {
      LastStep(env, Step(env, l, evs[0]), evs[1..]);
      assert evs[..|evs| - 1][1..] == evs[1..][..|evs| - 2] && evs[..|evs| - 1][0] == evs[0];
    }
  }

  /** In every run the socket is open exactly while it was opened and not lost since, and the clock tells the ticks. */
  lemma {:induction false} SocketIs(env: Env, evs: seq<Event>)
    requires IsRun(env, START, evs)
    ensures After(env, START, evs).socket == Open <==> IsOpenAfter(evs)
    ensures After(env, START, evs).now == Elapsed(evs)
    decreases |evs|
  {
    if evs != [] {
      var before := evs[..|evs| - 1];
      LastStep(env, START, evs);
      RunKeeps(env, START, before);
      StepSocket(env, After(env, START, before), evs[|evs| - 1]);
      SocketIs(env, before);
    }
  }
}
