/**
 * The budgets of the methods and the two lanes they are routed to
 * (`src/priv/privsvc-client-windows.ts`).
 */
module PrivSvcClient {
  import opened Js
  import opened LaneSteps
  import opened LaneSafety

  const DEFAULT_TIMEOUT_MS: nat := 8000
  const SLOW_LANE_THRESHOLD_MS: nat := 60000

  function TimeoutForMethod(verb: string): nat {
    if verb in {"grpc.connect", "software.inventory", "sdp.verifySignature", "sdp.detect", "pmp.read_check_state",
                "cdp.certs.read", "cdp.certs.readUser", "crypto.csr.generate"} then 60000
    else if verb in {"grpc.facts.send", "grpc.facts.chunk", "grpc.ack", "grpc.close",
                     "grpc.send.remoteSessionAnswer", "grpc.send.remoteSessionIce", "grpc.send.remoteSessionClose",
                     "grpc.send.remoteSessionError", "grpc.send.remoteSessionTranscript",
                     "grpc.send.remoteFileTransferAudit", "grpc.send.remoteScreenAudit",
                     "cdp.anchor.distrust"} then 30000
    else if verb == "grpc.heartbeat" then 5000
    else if verb == "printer.inventory" then 25000
    else if verb in {"browser.policy_list.read", "browser.policy_list.write"} then 10000
    else if verb in {"rcp.consent.request", "amp.ad.printers", "amp.ad.computers"} then 150000
    else if verb == "security.compliance" then 270000
    else if verb == "asp.ad.collect" then 330 * 1000
    else if verb == "patch.install" then 95 * 60 * 1000
    else if verb in {"patch.scan", "crypto.cert.renew"} then 240 * 1000
    else if verb == "sdp.download" then 700 * 1000
    else if verb in {"sdp.install", "sdp.uninstall", "agent.install"} then 1800 * 1000
    else if verb == "sdp.dp.prefetch" then 900 * 1000
    else if verb in {"pmp.remediate", "pmp.revert"} then 180 * 1000
    else if verb in {"crypto.cert.install", "crypto.cert.stage"} then 120 * 1000
    else DEFAULT_TIMEOUT_MS
  }

  datatype IpcLane = Control | Slow

  function LaneForMethod(verb: string): IpcLane {
    if TimeoutForMethod(verb) > SLOW_LANE_THRESHOLD_MS then Slow else Control
  }

  /** The environment of a lane of the client: only the throwing writes are open. */
  function ClientEnv(throws: nat -> bool): Env { Env(TimeoutForMethod, throws) }

  /** What the client routes to a lane: calls of its own methods only. */
  predicate Routed(evs: seq<Event>, lane: IpcLane) {
    forall i :: 0 <= i < |evs| && evs[i].Called? ==> LaneForMethod(evs[i].verb) == lane
  }

  // ----- The control lane ---------------------------------------------------

  /** Every method the lane knows of, in the entries and recorded ahead of them, satisfies `ok`. */
  predicate AllOk(ok: string -> bool, verbs: seq<string>) {
    forall i :: 0 <= i < |verbs| ==> ok(verbs[i])
  }

  predicate EntryOk(ok: string -> bool, e: Queued) {
    ok(e.verb) && AllOk(ok, e.queuedBehind)
  }

  predicate LaneOk(ok: string -> bool, l: Lane) {
    && (forall i :: 0 <= i < |l.queue| ==> EntryOk(ok, l.queue[i]))
    && (forall i :: 0 <= i < |l.pending| ==> EntryOk(ok, l.pending[i].entry))
    && (forall i :: 0 <= i < |l.sent| ==> EntryOk(ok, l.sent[i].entry))
    && (forall i :: 0 <= i < |l.done| ==> EntryOk(ok, l.done[i].entry))
    && (l.inFlight.Some? ==> ok(l.inFlight.value.verb))
  }

  lemma {:induction false} SetKeeps(ok: string -> bool, m: seq<Pending>, p: Pending)
    requires EntryOk(ok, p.entry) && forall i :: 0 <= i < |m| ==> EntryOk(ok, m[i].entry)
    ensures forall i :: 0 <= i < |MapSet(m, p)| ==> EntryOk(ok, MapSet(m, p)[i].entry)
  {
    if m != [] && m[0].entry.id != p.entry.id { SetKeeps(ok, m[1..], p); }
  }

  lemma {:induction false} DeleteKeeps(ok: string -> bool, m: seq<Pending>, id: string)
    requires forall i :: 0 <= i < |m| ==> EntryOk(ok, m[i].entry)
    ensures forall i :: 0 <= i < |MapDelete(m, id)| ==> EntryOk(ok, MapDelete(m, id)[i].entry)
  {
    if m != [] && m[0].entry.id != id { DeleteKeeps(ok, m[1..], id); }
  }

  lemma {:induction false} PumpOk(ok: string -> bool, env: Env, l: Lane)
    requires LaneOk(ok, l)
    ensures LaneOk(ok, Pump(env, l))
    decreases |l.queue|
  {
    if l.inFlight == None && l.queue != [] {
      var e, rest := l.queue[0], l.(queue := l.queue[1..]);
      SetKeeps(ok, l.pending, Pending(e, l.now, l.now + e.budget));
      DeleteKeeps(ok, MapSet(l.pending, Pending(e, l.now, l.now + e.budget)), e.id);
      if IsSettled(l, e) { PumpOk(ok, env, rest); }
      else if l.socket != Open { PumpOk(ok, env, Settle(rest, e, None, Unavailable)); }
      else if env.throws(e.serial) { PumpOk(ok, env, Undispatch(Dispatch(rest, e), e)); }
    }
  }

  lemma FinishOk(ok: string -> bool, env: Env, l: Lane, p: Pending, outcome: Outcome)
    requires LaneOk(ok, l) && EntryOk(ok, p.entry)
    ensures LaneOk(ok, Finish(env, l, p, outcome))
  {
    PumpOk(ok, env, FreedSlot(Settle(l, p.entry, Some(p.startedAt), outcome), p.entry.id));
  }

  lemma {:induction false} RejectOk(ok: string -> bool, env: Env, l: Lane, outcome: Outcome)
    requires LaneOk(ok, l)
    ensures LaneOk(ok, RejectPending(env, l, outcome))
    decreases 2 * |l.queue| + |l.pending|
  {
    if l.pending != [] {
      var p, rest := l.pending[0], l.(pending := l.pending[1..]);
      FinishOk(ok, env, rest, p, outcome);
      PumpShrinks(env, FreedSlot(Settle(rest, p.entry, Some(p.startedAt), outcome), p.entry.id));
      RejectOk(ok, env, Finish(env, rest, p, outcome), outcome);
    }
  }

  lemma {:induction false} UnsettledOk(ok: string -> bool, l: Lane, q: seq<Queued>)
    requires forall i :: 0 <= i < |q| ==> EntryOk(ok, q[i])
    ensures forall i :: 0 <= i < |Unsettled(l, q)| ==> EntryOk(ok, Unsettled(l, q)[i])
  {
    if q != [] { UnsettledOk(ok, l, q[1..]); }
  }

  lemma DrainOk(ok: string -> bool, l: Lane, outcome: Outcome)
    requires LaneOk(ok, l)
    ensures LaneOk(ok, DrainQueue(l, outcome))
  {
    UnsettledOk(ok, l, l.queue);
  }

  lemma {:induction false} VerbsOk(ok: string -> bool, q: seq<Queued>)
    requires forall i :: 0 <= i < |q| ==> EntryOk(ok, q[i])
    ensures AllOk(ok, Verbs(q))
  {
    if q != [] { VerbsOk(ok, q[1..]); }
  }

  lemma CallOk(ok: string -> bool, env: Env, l: Lane, id: string, verb: string)
    requires LaneOk(ok, l) && ok(verb)
    ensures LaneOk(ok, Call(env, l, id, verb))
  {
    VerbsOk(ok, l.queue);
    assert EntryOk(ok, NewEntry(env, l, id, verb));
    PumpOk(ok, env, Enqueued(env, l, id, verb));
  }

  lemma LeavingOk(ok: string -> bool, env: Env, l: Lane, id: string)
    requires LaneOk(ok, l)
    ensures LaneOk(ok, Response(env, l, id))
    ensures l.pending != [] ==> LaneOk(ok, Timeout(env, l, l.pending[0]))
  {
    DeleteKeeps(ok, l.pending, id);
    var p := MapGet(l.pending, id);
    if p.Some? { FinishOk(ok, env, l.(pending := MapDelete(l.pending, id)), p.value, Answered); }
    if l.pending != [] {
      DeleteKeeps(ok, l.pending, l.pending[0].entry.id);
      FinishOk(ok, env, l.(pending := MapDelete(l.pending, l.pending[0].entry.id)), l.pending[0], TimedOut);
    }
  }

  lemma StepOk(ok: string -> bool, env: Env, l: Lane, ev: Event)
    requires LaneOk(ok, l) && Enabled(l, ev) && (ev.Called? ==> ok(ev.verb))
    ensures LaneOk(ok, Step(env, l, ev))
  {
    match ev
    case Called(id, verb) => CallOk(ok, env, l, id, verb);
    case Responded(id) => LeavingOk(ok, env, l, id);
    case TimerFired => LeavingOk(ok, env, l, "");
    case SocketFailed =>
      DrainOk(ok, l.(socket := NoSocket), SocketError);
      RejectOk(ok, env, DrainQueue(l.(socket := NoSocket), SocketError), SocketError);
    case SocketEnded =>
      DrainOk(ok, l, SocketClosed);
      RejectOk(ok, env, DrainQueue(l, SocketClosed), SocketClosed);
    case ClosedByClient => RejectOk(ok, env, l.(closedByClient := true), ClientClosed);
    case _ =>
  }

  lemma {:induction false} RunOk(ok: string -> bool, env: Env, l: Lane, evs: seq<Event>)
    requires LaneOk(ok, l) && IsRun(env, l, evs) && forall i :: 0 <= i < |evs| && evs[i].Called? ==> ok(evs[i].verb)
    ensures LaneOk(ok, After(env, l, evs))
    decreases |evs|
  {
    if evs != [] {
      StepOk(ok, env, l, evs[0]);
      RunOk(ok, env, Step(env, l, evs[0]), evs[1..]);
    }
  }

  function OnControl(): string -> bool { (verb: string) => LaneForMethod(verb) == Control }

  lemma {:induction false} ControlBudgets(env: Env, verbs: seq<string>)
    requires env.budgetOf == TimeoutForMethod && AllOk(OnControl(), verbs)
    ensures Budgets(env, verbs) <= SLOW_LANE_THRESHOLD_MS * |verbs|
  {
    if verbs != [] { ControlBudgets(env, verbs[1..]); }
  }

  /**
   * Because lanes are derived from budgets, nothing on the control lane waits more than
   * a minute for each request ahead of it, nor is answered more than a minute later.
   */
  lemma ControlWait(throws: nat -> bool, evs: seq<Event>)
    requires IsRun(ClientEnv(throws), START, evs) && Routed(evs, Control)
    ensures var l := After(ClientEnv(throws), START, evs);
            && (forall i :: 0 <= i < |l.sent| ==>
                  l.sent[i].at <= l.sent[i].entry.queuedAt + SLOW_LANE_THRESHOLD_MS * |l.sent[i].entry.queuedBehind|)
            && (forall i :: 0 <= i < |l.done| ==>
                  l.done[i].at <=
                  l.done[i].entry.queuedAt + SLOW_LANE_THRESHOLD_MS * (|l.done[i].entry.queuedBehind| + 1))
  {
    var env := ClientEnv(throws);
    var l := After(env, START, evs);
    RunOk(OnControl(), env, START, evs);
    RunKeeps(env, START, evs);
    WaitIsBounded(env, evs);
    forall i | 0 <= i < |l.sent|
      ensures l.sent[i].at <= l.sent[i].entry.queuedAt + SLOW_LANE_THRESHOLD_MS * |l.sent[i].entry.queuedBehind|
    {
      ControlBudgets(env, l.sent[i].entry.queuedBehind);
    }
    forall i | 0 <= i < |l.done|
      ensures l.done[i].at <= l.done[i].entry.queuedAt + SLOW_LANE_THRESHOLD_MS * (|l.done[i].entry.queuedBehind| + 1)
    {
      ControlBudgets(env, l.done[i].entry.queuedBehind);
    }
  }
}
