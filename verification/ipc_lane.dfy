/**
 * The lane as the object it is: fields updated in place by every event, with the
 * `pending` map as the entry list that JavaScript iterates. Each method is proved
 * against the step of the same name in `LaneSteps`.
 */
module IpcLane {
  import opened Js
  import opened LaneSteps
  import opened Framing

  // ----- A JavaScript Map ---------------------------------------------------

  /** The entry list of a `Map`: deleting leaves a hole, inserting a new key appends. */
  type Slots = seq<Option<Pending>>

  function Live(slots: Slots): (r: seq<Pending>)
    ensures |r| <= |slots|
  {
    if slots == [] then []
    else (if slots[0].Some? then [slots[0].value] else []) + Live(slots[1..])
  }

  function SetSlot(slots: Slots, p: Pending): (r: Slots)
    ensures |slots| <= |r| && HolesStay(slots, r)
    ensures Live(r) == MapSet(Live(slots), p)
  {
    if slots == [] then [Some(p)]
    else if slots[0].Some? && slots[0].value.entry.id == p.entry.id then [Some(p)] + slots[1..]
    else
      var rest := SetSlot(slots[1..], p);
      assert ([slots[0]] + rest)[1..] == rest;
      assert if slots[0].Some? then Live(slots)[1..] == Live(slots[1..]) else Live(slots) == Live(slots[1..]);
      [slots[0]] + rest
  }

  function DeleteSlot(slots: Slots, id: string): (r: Slots)
    ensures |slots| == |r| && HolesStay(slots, r)
    ensures Live(r) == MapDelete(Live(slots), id)
  {
    if slots == [] then []
    else if slots[0].Some? && slots[0].value.entry.id == id then [None] + slots[1..]
    else
      var rest := DeleteSlot(slots[1..], id);
      assert ([slots[0]] + rest)[1..] == rest;
      assert if slots[0].Some? then Live(slots)[1..] == Live(slots[1..]) else Live(slots) == Live(slots[1..]);
      [slots[0]] + rest
  }

  predicate HolesStay(before: Slots, after: Slots) {
    |before| <= |after| && forall i :: 0 <= i < |before| && before[i] == None ==> after[i] == None
  }

  lemma {:induction false} LiveFrom(slots: Slots, i: nat)
    requires i <= |slots| && forall j :: 0 <= j < i ==> slots[j] == None
    ensures Live(slots) == Live(slots[i..])
  {
    if i > 0 {
      assert slots[1..][i - 1..] == slots[i..];
      LiveFrom(slots[1..], i - 1);
    }
  }

  /** The first live entry becomes a hole. */
  lemma {:induction false} HoleAt(slots: Slots, i: nat)
    requires i < |slots| && slots[i].Some? && forall j :: 0 <= j < i ==> slots[j] == None
    ensures Live(slots) == [slots[i].value] + Live(slots[i := None])
  {
    LiveFrom(slots, i);
    LiveFrom(slots[i := None], i + 1);
    assert slots[i := None][i + 1..] == slots[i..][1..];
  }

  // ----- The object ---------------------------------------------------------

  /** What a line of JSON turns out to be. */
  datatype Message = Reply(id: string) | Push | Unknown

  function AfterMessage(env: Env, l: Lane, msg: Message): Lane {
    if msg.Reply? && msg.id != "" then Response(env, l, msg.id) else l
  }

  /** The lane after some messages. */
  function Handled(env: Env, l: Lane, msgs: seq<Message>): Lane
    decreases |msgs|
  {
    if msgs == [] then l else Handled(env, AfterMessage(env, l, msgs[0]), msgs[1..])
  }

  function Parsed(parse: Text -> Message, lines: seq<Text>): seq<Message> {
    if lines == [] then [] else [parse(lines[0])] + Parsed(parse, lines[1..])
  }

  /** The lane after everything that a text delivers. */
  function AfterText(env: Env, parse: Text -> Message, l: Lane, text: Text): Lane {
    Handled(env, l, Parsed(parse, Messages(text)))
  }

  class PipeLane {
    const env: Env
    const parse: Text -> Message
    var socket: Socket
    var buffer: Text
    var slots: Slots
    var closedByClient: bool
    var queue: seq<Queued>
    var inFlight: Option<InFlight>
    var now: int
    var next: nat
    var sent: seq<Sent>
    var done: seq<Settled>

    function View(): Lane
      reads this
    {
      Lane(socket, closedByClient, queue, inFlight, Live(slots), now, next, sent, done)
    }

    constructor (env: Env, parse: Text -> Message)
      ensures this.env == env && this.parse == parse
      ensures View() == START && buffer == [] && slots == []
    {
      this.env, this.parse := env, parse;
      socket, buffer, slots, closedByClient, queue, inFlight := NoSocket, [], [], false, [], None;
      now, next, sent, done := 0, 0, [], [];
    }

    method Settle(e: Queued, sentAt: Option<int>, outcome: Outcome)
      modifies this`done
      ensures View() == LaneSteps.Settle(old(View()), e, sentAt, outcome)
    {
      done := done + [Settled(e, sentAt, now, outcome)];
    }

    method FreeSlot(id: string)
      modifies this`inFlight
      ensures View() == FreedSlot(old(View()), id)
    {
      if inFlight.Some? && inFlight.value.id == id { inFlight := None; }
    }

    method Pump()
      modifies this`queue, this`inFlight, this`slots, this`sent, this`done
      ensures View() == LaneSteps.Pump(env, old(View()))
      ensures HolesStay(old(slots), slots)
      decreases |queue|
    {
      if inFlight.Some? || queue == [] { return; }
      var e := queue[0];
      queue := queue[1..];
      if IsSettled(View(), e) {
        Pump();
        return;
      }
      if socket != Open {
        Settle(e, None, Unavailable);
        Pump();
        return;
      }
      Dispatch(e);
      if env.throws(e.serial) {
        Undispatch(e);
        Pump();
      }
    }

    method Dispatch(e: Queued)
      modifies this`inFlight, this`slots, this`sent
      ensures View() == LaneSteps.Dispatch(old(View()), e)
      ensures HolesStay(old(slots), slots)
    {
      inFlight := Some(InFlight(e.id, e.verb, e.budget, now));
      slots := SetSlot(slots, Pending(e, now, now + e.budget));
      sent := sent + [Sent(e, now)];
    }

    /** The `catch` around the write. */
    method Undispatch(e: Queued)
      modifies this`inFlight, this`slots, this`done
      ensures View() == LaneSteps.Undispatch(old(View()), e)
      ensures HolesStay(old(slots), slots)
    {
      slots := DeleteSlot(slots, e.id);
      Settle(e, Some(now), WriteFailed);
      FreeSlot(e.id);
    }

    /** The `resolve` and `reject` of a pending request. */
    method Finish(p: Pending, outcome: Outcome)
      modifies this`queue, this`inFlight, this`slots, this`sent, this`done
      ensures View() == LaneSteps.Finish(env, old(View()), p, outcome)
      ensures HolesStay(old(slots), slots)
    {
      Settle(p.entry, Some(p.startedAt), outcome);
      FreeSlot(p.entry.id);
      Pump();
    }

    /** `false` when the caller is told of an overflow. */
    method Call(id: string, verb: string) returns (accepted: bool)
      modifies this`queue, this`inFlight, this`slots, this`sent, this`done, this`next
      ensures View() == LaneSteps.Call(env, old(View()), id, verb)
      ensures accepted <==> next == old(next) + 1
    {
      if |Live(slots)| + |queue| >= MAX_PENDING { return false; }
      queue := queue + [NewEntry(env, View(), id, verb)];
      next := next + 1;
      ghost var enqueued := View();
      Pump();
      PumpKeepsCount(env, enqueued);
      return true;
    }

    method OnResponse(id: string)
      modifies this`queue, this`inFlight, this`slots, this`sent, this`done
      ensures View() == Response(env, old(View()), id)
    {
      var p := MapGet(Live(slots), id);
      if p.Some? {
        slots := DeleteSlot(slots, id);
        Finish(p.value, Answered);
      }
    }

    method OnTimeout(p: Pending)
      modifies this`queue, this`inFlight, this`slots, this`sent, this`done
      ensures View() == Timeout(env, old(View()), p)
    {
      slots := DeleteSlot(slots, p.entry.id);
      Finish(p, TimedOut);
    }

    method DrainQueue(outcome: Outcome)
      modifies this`queue, this`inFlight, this`done
      ensures View() == LaneSteps.DrainQueue(old(View()), outcome)
    {
      var queued := queue;
      ghost var before := View();
      queue := [];
      var live := Unsettled(View(), queued);
      done := done + Rejections(live, now, outcome);
      inFlight := None;
      SameSettled(before, before.(queue := []), queued);
    }

    /** One round of the iteration: the first live entry goes and its rejection pumps. */
    method RejectAt(i: nat, outcome: Outcome)
      requires i < |slots| && slots[i].Some? && forall j :: 0 <= j < i ==> slots[j] == None
      modifies this`queue, this`inFlight, this`slots, this`sent, this`done
      ensures LaneSteps.RejectPending(env, View(), outcome) == old(LaneSteps.RejectPending(env, View(), outcome))
      ensures 2 * |queue| + |Live(slots)| < 2 * |old(queue)| + |Live(old(slots))|
      ensures i < |slots| && forall j :: 0 <= j <= i ==> slots[j] == None
    {
      var p := slots[i].value;
      HoleAt(slots, i);
      slots := slots[i := None];
      ghost var rest := View();
      PumpShrinks(env, FreedSlot(LaneSteps.Settle(rest, p.entry, Some(p.startedAt), outcome), p.entry.id));
      Finish(p, outcome);
    }

    /**
     * `for (const [id, p] of this.pending.entries())`: the index runs over the entry
     * list, which grows while it runs.
     */
    method RejectPending(outcome: Outcome)
      modifies this`queue, this`inFlight, this`slots, this`sent, this`done
      ensures View() == LaneSteps.RejectPending(env, old(View()), outcome)
    {
      var i := 0;
      while i < |slots|
        invariant i <= |slots| && forall j :: 0 <= j < i ==> slots[j] == None
        invariant LaneSteps.RejectPending(env, View(), outcome) == LaneSteps.RejectPending(env, old(View()), outcome)
        decreases 2 * |queue| + |Live(slots)|, |slots| - i
      {
        if slots[i].Some? { RejectAt(i, outcome); }
        i := i + 1;
      }
      LiveFrom(slots, |slots|);
    }

    method OnSocketError()
      modifies this`queue, this`inFlight, this`slots, this`sent, this`done, this`socket
      ensures View() == LaneSteps.OnSocketError(env, old(View()))
    {
      socket := NoSocket;
      DrainQueue(SocketError);
      RejectPending(SocketError);
    }

    method OnSocketClose()
      modifies this`queue, this`inFlight, this`slots, this`sent, this`done, this`socket, this`buffer
      ensures View() == LaneSteps.OnSocketClose(env, old(View())) && buffer == []
    {
      DrainQueue(SocketClosed);
      RejectPending(SocketClosed);
      buffer := [];
      socket := NoSocket;
    }

    method Close()
      modifies this`queue, this`inFlight, this`slots, this`sent, this`done
      modifies this`socket, this`buffer, this`closedByClient
      ensures View() == LaneSteps.Close(env, old(View())) && buffer == []
    {
      closedByClient := true;
      RejectPending(ClientClosed);
      socket := NoSocket;
      buffer := [];
    }

    /** One line, without its newline: blank ones and those that are not replies change nothing. */
    method OnLine(raw: Text)
      modifies this`queue, this`inFlight, this`slots, this`sent, this`done
      ensures View() == AfterLine(env, parse, old(View()), raw)
    {
      var txt := Clean(raw);
      if txt == [] { return; }
      var msg := parse(txt);
      if msg.Reply? && msg.id != "" { OnResponse(msg.id); }
    }

    /**
     * Appends a chunk and handles every line a newline completes. What is handled and
     * what stays in the buffer are what `Framing` says, so chunking is invisible here too.
     */
    method OnData(chunk: Text)
      modifies this`queue, this`inFlight, this`slots, this`sent, this`done, this`buffer
      ensures buffer == Leftover(old(buffer) + chunk)
      ensures View() == AfterText(env, parse, old(View()), old(buffer) + chunk)
    {
      buffer := buffer + chunk;
      ghost var text := buffer;
      var at := IndexOf(buffer, NEWLINE);
      while at >= 0
        invariant at == IndexOf(buffer, NEWLINE)
        invariant Leftover(text) == Leftover(buffer)
        invariant AfterText(env, parse, View(), buffer) == AfterText(env, parse, old(View()), text)
        decreases |buffer|
      {
        var raw := buffer[..at];
        LineIs(buffer, at);
        LineStep(env, parse, View(), raw, buffer[at + 1..], buffer);
        buffer := buffer[at + 1..];
        at := IndexOf(buffer, NEWLINE);
        OnLine(raw);
      }
      NothingDelivered(env, parse, View(), buffer);
    }
  }

  function AfterLine(env: Env, parse: Text -> Message, l: Lane, raw: Text): Lane {
    if Clean(raw) == [] then l else AfterMessage(env, l, parse(Clean(raw)))
  }

  lemma HandledFirst(env: Env, l: Lane, first: Message, rest: seq<Message>)
    ensures Handled(env, l, [first] + rest) == Handled(env, AfterMessage(env, l, first), rest)
  {
    assert ([first] + rest)[1..] == rest;
  }

  lemma ParsedFirst(parse: Text -> Message, line: Text, rest: seq<Text>)
    ensures Parsed(parse, [line] + rest) == [parse(line)] + Parsed(parse, rest)
  {
    assert ([line] + rest)[1..] == rest;
  }

  lemma LineStep(env: Env, parse: Text -> Message, l: Lane, raw: Text, more: Text, text: Text)
    requires Complete(text) == [raw] + Complete(more)
    ensures AfterText(env, parse, l, text) == AfterText(env, parse, AfterLine(env, parse, l, raw), more)
  {
    DeliveredFirst(raw, Complete(more));
    if Clean(raw) == [] {
      assert [] + Messages(more) == Messages(more);
    } else {
      ParsedFirst(parse, Clean(raw), Messages(more));
      HandledFirst(env, l, parse(Clean(raw)), Parsed(parse, Messages(more)));
    }
  }

  /**
   * What the first line of a text does to the lane: nothing if it is blank or is no reply
   * with an identifier, else what a reply of that identifier does.
   */
  lemma ReplyByLine(env: Env, parse: Text -> Message, l: Lane, line: Text, more: Text)
    requires NEWLINE !in line
    ensures AfterText(env, parse, l, line) == l
    ensures var msg := parse(Trim(line));
            var isReply := Trim(line) != [] && msg.Reply? && msg.id != "";
            AfterText(env, parse, l, line + [NEWLINE] + more) ==
            AfterText(env, parse, if isReply then Response(env, l, msg.id) else l, more)
  {
    FirstLine(line, more);
    ReturnIsTrimmed(line);
    LineStep(env, parse, l, line, more, line + [NEWLINE] + more);
    NothingDelivered(env, parse, l, line);
  }

  lemma LineIs(text: Text, at: nat)
    requires at < |text| && text[at] == NEWLINE && NEWLINE !in text[..at]
    ensures Complete(text) == [text[..at]] + Complete(text[at + 1..]) && Leftover(text) == Leftover(text[at + 1..])
  {
    assert text == text[..at] + [NEWLINE] + text[at + 1..];
    FirstLine(text[..at], text[at + 1..]);
  }

  lemma {:induction false} HandledAppend(env: Env, l: Lane, a: seq<Message>, b: seq<Message>)
    ensures Handled(env, l, a + b) == Handled(env, Handled(env, l, a), b)
    decreases |a|
  {
    if a == [] {
      assert a + b == b;
    } else {
      assert (a + b)[0] == a[0] && (a + b)[1..] == a[1..] + b;
      HandledAppend(env, AfterMessage(env, l, a[0]), a[1..], b);
    }
  }

  lemma {:induction false} ParsedAppend(parse: Text -> Message, a: seq<Text>, b: seq<Text>)
    ensures Parsed(parse, a + b) == Parsed(parse, a) + Parsed(parse, b)
  {
    if a == [] {
      assert a + b == b;
    } else {
      assert (a + b)[0] == a[0] && (a + b)[1..] == a[1..] + b;
      ParsedAppend(parse, a[1..], b);
    }
  }

  lemma TwoTexts(env: Env, parse: Text -> Message, l: Lane, a: Text, b: Text)
    ensures AfterText(env, parse, l, a + b) == AfterText(env, parse, AfterText(env, parse, l, a), Leftover(a) + b)
    ensures Leftover(a + b) == Leftover(Leftover(a) + b)
  {
    TwoChunks(a, b);
    ParsedAppend(parse, Messages(a), Messages(Leftover(a) + b));
    HandledAppend(env, l, Parsed(parse, Messages(a)), Parsed(parse, Messages(Leftover(a) + b)));
  }

  /** A run of `onData` over the chunks, from what is in the buffer. */
  function FedLane(env: Env, parse: Text -> Message, l: Lane, buffer: Text, chunks: seq<Text>): (Lane, Text)
    decreases |chunks|
  {
    if chunks == [] then (l, buffer)
    else
      var text := buffer + chunks[0];
      FedLane(env, parse, AfterText(env, parse, l, text), Leftover(text), chunks[1..])
  }

  /** However the replies are cut into chunks, the lane ends up in the same state with the same buffer. */
  lemma {:induction false} ChunkedReplies(env: Env, parse: Text -> Message, l: Lane, buffer: Text, chunks: seq<Text>)
    requires NEWLINE !in buffer
    ensures FedLane(env, parse, l, buffer, chunks) ==
            (AfterText(env, parse, l, buffer + Concat(chunks)), Leftover(buffer + Concat(chunks)))
    decreases |chunks|
  {
    if chunks == [] {
      NothingDelivered(env, parse, l, buffer);
      assert buffer + [] == buffer;
    } else {
      var text, more := buffer + chunks[0], Concat(chunks[1..]);
      LeftoverHasNone(text);
      ChunkedReplies(env, parse, AfterText(env, parse, l, text), Leftover(text), chunks[1..]);
      TwoTexts(env, parse, l, text, more);
      Framing.Associate(buffer, chunks[0], more);
    }
  }

  lemma NothingDelivered(env: Env, parse: Text -> Message, l: Lane, text: Text)
    requires NEWLINE !in text
    ensures AfterText(env, parse, l, text) == l && Leftover(text) == text
  {
    NoNewline(text);
  }

  lemma DeliveredFirst(line: Text, more: seq<Text>)
    ensures Delivered([line] + more) == (if Clean(line) == [] then [] else [Clean(line)]) + Delivered(more)
  {
    assert ([line] + more)[1..] == more;
  }

  lemma {:induction false} SameSettled(a: Lane, b: Lane, q: seq<Queued>)
    requires a.done == b.done
    ensures Unsettled(a, q) == Unsettled(b, q)
  {
    if q != [] { SameSettled(a, b, q[1..]); }
  }

  lemma {:induction false} PumpKeepsCount(env: Env, l: Lane)
    ensures LaneSteps.Pump(env, l).next == l.next
    decreases |l.queue|
  {
    if l.inFlight.None? && l.queue != [] {
      var e, rest := l.queue[0], l.(queue := l.queue[1..]);
      if IsSettled(l, e) { PumpKeepsCount(env, rest); }
      else if l.socket != Open { PumpKeepsCount(env, LaneSteps.Settle(rest, e, None, Unavailable)); }
      else if env.throws(e.serial) { PumpKeepsCount(env, Undispatch(Dispatch(rest, e), e)); }
    }
  }
}
