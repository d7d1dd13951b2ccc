/**
 * One serial lane of the Windows IPC client: `PipeLane` of
 * `src/priv/privsvc-client-windows.ts` as a state machine. Every event is one
 * atomic step, time is a discrete clock, and a timer fires when it is due.
 */
module LaneSteps {
  import opened Js

  const MAX_PENDING: nat := 500

  /** What the lane cannot decide: the budget of a method, and which writes throw. */
  datatype Env = Env(budgetOf: string -> nat, throws: nat -> bool)

  /** An accepted call. `serial` counts the calls of the lane and stands for the promise. */
  datatype Queued = Queued(
    serial: nat, id: string, verb: string, budget: nat, queuedAt: int, queuedBehind: seq<string>)

  datatype InFlight = InFlight(id: string, verb: string, budget: nat, startedAt: int)

  /** A value of the `pending` map, with the moment its timer is set for. */
  datatype Pending = Pending(entry: Queued, startedAt: int, deadline: int)

  datatype Socket = NoSocket | Open | Broken

  datatype Outcome = Answered | TimedOut | Unavailable | WriteFailed | SocketError | SocketClosed | ClientClosed

  /** A request handed to the pipe, whether that write throws or not, and a promise settled. */
  datatype Sent = Sent(entry: Queued, at: int)
  datatype Settled = Settled(entry: Queued, sentAt: Option<int>, at: int, outcome: Outcome)

  /** `pending` lists the map in insertion order; `sent` and `done` record the run. */
  datatype Lane = Lane(
    socket: Socket, closedByClient: bool,
    queue: seq<Queued>, inFlight: Option<InFlight>, pending: seq<Pending>,
    now: int, next: nat, sent: seq<Sent>, done: seq<Settled>)

  // ----- The steps ----------------------------------------------------------

  function Settle(l: Lane, e: Queued, sentAt: Option<int>, outcome: Outcome): Lane {
    l.(done := l.done + [Settled(e, sentAt, l.now, outcome)])
  }

  predicate IsSettled(l: Lane, e: Queued) {
    exists i :: 0 <= i < |l.done| && l.done[i].entry.serial == e.serial
  }

  function FreedSlot(l: Lane, id: string): Lane {
    if l.inFlight.Some? && l.inFlight.value.id == id then l.(inFlight := None) else l
  }

  /** `Map.set`: an existing key keeps its place. */
  function MapSet(m: seq<Pending>, p: Pending): seq<Pending> {
    if m == [] then [p]
    else if m[0].entry.id == p.entry.id then [p] + m[1..]
    else [m[0]] + MapSet(m[1..], p)
  }

  function MapDelete(m: seq<Pending>, id: string): seq<Pending> {
    if m == [] then []
    else if m[0].entry.id == id then m[1..] else [m[0]] + MapDelete(m[1..], id)
  }

  function MapGet(m: seq<Pending>, id: string): (r: Option<Pending>)
    ensures r.Some? ==> r.value in m && r.value.entry.id == id
  {
    if m == [] then None else if m[0].entry.id == id then Some(m[0]) else MapGet(m[1..], id)
  }

  /** The head of the queue enters the lane. */
  function Dispatch(l: Lane, e: Queued): Lane {
    l.(inFlight := Some(InFlight(e.id, e.verb, e.budget, l.now)),
       pending := MapSet(l.pending, Pending(e, l.now, l.now + e.budget)),
       sent := l.sent + [Sent(e, l.now)])
  }

  /** What is left of a dispatch whose write threw. */
  function Undispatch(l: Lane, e: Queued): Lane {
    FreedSlot(Settle(l.(pending := MapDelete(l.pending, e.id)), e, Some(l.now), WriteFailed), e.id)
  }

  function Pump(env: Env, l: Lane): Lane
    decreases |l.queue|
  {
    if l.inFlight.Some? || l.queue == [] then l
    else
      var e, rest := l.queue[0], l.(queue := l.queue[1..]);
      if IsSettled(l, e) then Pump(env, rest)
      else if l.socket != Open then Pump(env, Settle(rest, e, None, Unavailable))
      else if env.throws(e.serial) then Pump(env, Undispatch(Dispatch(rest, e), e))
      else Dispatch(rest, e)
  }

  /** The continuation of a pending request that leaves the lane. */
  function Finish(env: Env, l: Lane, p: Pending, outcome: Outcome): Lane {
    Pump(env, FreedSlot(Settle(l, p.entry, Some(p.startedAt), outcome), p.entry.id))
  }

  function LaneAhead(l: Lane): seq<string> {
    (if l.inFlight.Some? then [l.inFlight.value.verb] else []) + Verbs(l.queue)
  }

  function Verbs(q: seq<Queued>): (r: seq<string>)
    ensures |r| == |q|
  {
    if q == [] then [] else [q[0].verb] + Verbs(q[1..])
  }

  function NewEntry(env: Env, l: Lane, id: string, verb: string): Queued {
    Queued(l.next, id, verb, env.budgetOf(verb), l.now, LaneAhead(l))
  }

  function Enqueued(env: Env, l: Lane, id: string, verb: string): Lane {
    l.(queue := l.queue + [NewEntry(env, l, id, verb)], next := l.next + 1)
  }

  /** `call` once connected. The caller is told of an overflow and nothing is accepted. */
  function Call(env: Env, l: Lane, id: string, verb: string): Lane {
    if |l.pending| + |l.queue| >= MAX_PENDING then l
    else Pump(env, Enqueued(env, l, id, verb))
  }

  function Response(env: Env, l: Lane, id: string): Lane {
    var p := MapGet(l.pending, id);
    if p.None? then l else Finish(env, l.(pending := MapDelete(l.pending, id)), p.value, Answered)
  }

  function Timeout(env: Env, l: Lane, p: Pending): Lane {
    Finish(env, l.(pending := MapDelete(l.pending, p.entry.id)), p, TimedOut)
  }

  function Rejections(q: seq<Queued>, at: int, outcome: Outcome): (r: seq<Settled>)
    ensures |r| == |q| && forall i :: 0 <= i < |q| ==> r[i] == Settled(q[i], None, at, outcome)
  {
    if q == [] then [] else [Settled(q[0], None, at, outcome)] + Rejections(q[1..], at, outcome)
  }

  function Unsettled(l: Lane, q: seq<Queued>): seq<Queued> {
    if q == [] then [] else (if IsSettled(l, q[0]) then [] else [q[0]]) + Unsettled(l, q[1..])
  }

  function DrainQueue(l: Lane, outcome: Outcome): Lane {
    l.(queue := [], inFlight := None, done := l.done + Rejections(Unsettled(l, l.queue), l.now, outcome))
  }

  /**
   * `for (const [id, p] of this.pending.entries())`: every visited entry is deleted
   * and its rejection may pump a new one in, which the iteration visits in turn.
   */
  function RejectPending(env: Env, l: Lane, outcome: Outcome): Lane
    decreases 2 * |l.queue| + |l.pending|
  {
    if l.pending == [] then l
    else
      var p := l.pending[0];
      var rest := l.(pending := l.pending[1..]);
      var freed := FreedSlot(Settle(rest, p.entry, Some(p.startedAt), outcome), p.entry.id);
      PumpShrinks(env, freed);
      RejectPending(env, Finish(env, rest, p, outcome), outcome)
  }

  lemma {:induction false} MapSetLength(m: seq<Pending>, p: Pending)
    ensures |MapSet(m, p)| <= |m| + 1
  {
    if m != [] { MapSetLength(m[1..], p); }
  }

  lemma {:induction false} SetThenDelete(m: seq<Pending>, p: Pending)
    ensures |MapDelete(MapSet(m, p), p.entry.id)| <= |m|
  {
    if m != [] && m[0].entry.id != p.entry.id { SetThenDelete(m[1..], p); }
  }

  lemma {:induction false} PumpShrinks(env: Env, l: Lane)
    ensures 2 * |Pump(env, l).queue| + |Pump(env, l).pending| <= 2 * |l.queue| + |l.pending|
    decreases |l.queue|
  {
    if l.inFlight.None? && l.queue != [] {
      var e, rest := l.queue[0], l.(queue := l.queue[1..]);
      MapSetLength(l.pending, Pending(e, l.now, l.now + e.budget));
      SetThenDelete(l.pending, Pending(e, l.now, l.now + e.budget));
      if IsSettled(l, e) {
        PumpShrinks(env, rest);
      } else if l.socket != Open {
        PumpShrinks(env, Settle(rest, e, None, Unavailable));
      } else if env.throws(e.serial) {
        var undone := Undispatch(Dispatch(rest, e), e);
        assert |undone.queue| == |l.queue| - 1 && |undone.pending| <= |l.pending|;
        PumpShrinks(env, undone);
      } else {
        assert |Dispatch(rest, e).pending| <= |l.pending| + 1;
      }
    }
  }

  function OnSocketError(env: Env, l: Lane): Lane {
    RejectPending(env, DrainQueue(l.(socket := NoSocket), SocketError), SocketError)
  }

  function OnSocketClose(env: Env, l: Lane): Lane {
    RejectPending(env, DrainQueue(l, SocketClosed), SocketClosed).(socket := NoSocket)
  }

  /** The socket goes away only after the pending requests have been rejected. */
  function Close(env: Env, l: Lane): Lane {
    RejectPending(env, l.(closedByClient := true), ClientClosed).(socket := NoSocket)
  }

  datatype Event =
    | Connected
    | Faulted
    | Called(id: string, verb: string)
    | Responded(id: string)
    | TimerFired
    | SocketFailed
    | SocketEnded
    | ClosedByClient
    | Tick(ms: nat)

  /** A timer fires when it is due, so the clock does not move past a deadline. */
  predicate Enabled(l: Lane, ev: Event) {
    match ev
    case TimerFired => l.pending != [] && l.pending[0].deadline <= l.now
    case Tick(ms) => forall p :: p in l.pending ==> l.now + ms <= p.deadline
    case _ => true
  }

  function Step(env: Env, l: Lane, ev: Event): Lane
    requires Enabled(l, ev)
  {
    match ev
    case Connected => l.(socket := Open, closedByClient := false)
    case Faulted => if l.socket == Open then l.(socket := Broken) else l
    case Called(id, verb) => Call(env, l, id, verb)
    case Responded(id) => Response(env, l, id)
    case TimerFired => Timeout(env, l, l.pending[0])
    case SocketFailed => OnSocketError(env, l)
    case SocketEnded => OnSocketClose(env, l)
    case ClosedByClient => Close(env, l)
    case Tick(ms) => l.(now := l.now + ms)
  }

  const START: Lane := Lane(NoSocket, false, [], None, [], 0, 0, [], [])

  predicate IsRun(env: Env, l: Lane, evs: seq<Event>)
    decreases |evs|
  {
    evs == [] || (Enabled(l, evs[0]) && IsRun(env, Step(env, l, evs[0]), evs[1..]))
  }

  function After(env: Env, l: Lane, evs: seq<Event>): Lane
    requires IsRun(env, l, evs)
    decreases |evs|
  {
    if evs == [] then l else After(env, Step(env, l, evs[0]), evs[1..])
  }
}
