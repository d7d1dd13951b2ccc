/**
 * The line framing of the IPC clients, over text already decoded: the split/pop form
 * of `src/priv/privsvc-client-linux.ts` and what both clients deliver. The index
 * loop of the Windows client is `IpcLane.PipeLane.OnData`.
 */
module Framing {
  import opened Js

  const NEWLINE: Unit := 0x0a
  const RETURN: Unit := 0x0d

  /** `replace(/\r$/, "")` */
  function StripReturn(s: Text): Text {
    if s != [] && s[|s| - 1] == RETURN then s[..|s| - 1] else s
  }

  function Clean(line: Text): Text { Trim(StripReturn(line)) }

  /** The text after the last newline: it stays in the buffer. */
  function Leftover(s: Text): Text {
    if s == [] || s[|s| - 1] == NEWLINE then [] else Leftover(s[..|s| - 1]) + [s[|s| - 1]]
  }

  /** The lines that a newline has completed. */
  function Complete(s: Text): seq<Text> {
    if s == [] then []
    else
      var init := s[..|s| - 1];
      if s[|s| - 1] == NEWLINE then Complete(init) + [Leftover(init)] else Complete(init)
  }

  /** `split("\n")` */
  function Split(s: Text): seq<Text> { Complete(s) + [Leftover(s)] }

  /** The lines delivered: complete, cleaned and not blank. */
  function Delivered(lines: seq<Text>): seq<Text> {
    if lines == [] then []
    else (if Clean(lines[0]) == [] then [] else [Clean(lines[0])]) + Delivered(lines[1..])
  }

  /** What is delivered of a text. */
  function Messages(s: Text): seq<Text> { Delivered(Complete(s)) }

  // ----- The Linux client ---------------------------------------------------

  const MAX_BUFFER_CHARS: nat := 2 * 1024 * 1024

  lemma DeliveredFrom(lines: seq<Text>, i: nat, before: seq<Text>)
    requires i < |lines|
    ensures before + Delivered(lines[i..]) ==
            (if Clean(lines[i]) == [] then before else before + [Clean(lines[i])]) + Delivered(lines[i + 1..])
  {
    assert lines[i..][1..] == lines[i + 1..];
  }

  /** The loop over the lines. */
  method Deliver(lines: seq<Text>) returns (delivered: seq<Text>)
    ensures delivered == Delivered(lines)
  {
    delivered := [];
    for i := 0 to |lines|
      invariant Delivered(lines) == delivered + Delivered(lines[i..])
    {
      var txt := Clean(lines[i]);
      DeliveredFrom(lines, i, delivered);
      if txt == [] { continue; }
      delivered := delivered + [txt];
    }
  }

  method OnDataLinux(buffer: Text, chunk: Text) returns (delivered: seq<Text>, left: Text, overflow: bool)
    ensures overflow <==> |buffer + chunk| > MAX_BUFFER_CHARS
    ensures overflow ==> delivered == [] && left == []
    ensures !overflow ==> delivered == Messages(buffer + chunk) && left == Leftover(buffer + chunk)
  {
    var text := buffer + chunk;
    if |text| > MAX_BUFFER_CHARS { return [], [], true; }
    var lines := Split(text);
    left := lines[|lines| - 1];
    delivered := Deliver(lines[..|lines| - 1]);
    overflow := false;
  }

  // ----- Chunking -----------------------------------------------------------

  lemma {:induction false} DeliveredAppend(a: seq<Text>, b: seq<Text>)
    ensures Delivered(a + b) == Delivered(a) + Delivered(b)
  {
    if a == [] {
      assert a + b == b;
    } else {
      assert (a + b)[0] == a[0] && (a + b)[1..] == a[1..] + b;
      DeliveredAppend(a[1..], b);
    }
  }

  lemma {:induction false} NoNewline(s: Text)
    requires NEWLINE !in s
    ensures Complete(s) == [] && Leftover(s) == s
  {
    if s != [] { NoNewline(s[..|s| - 1]); }
  }

  lemma {:induction false} LeftoverHasNone(s: Text)
    ensures NEWLINE !in Leftover(s)
  {
    if s != [] { LeftoverHasNone(s[..|s| - 1]); }
  }

  /** Cutting a text anywhere cuts one of its lines in two. */
  lemma {:induction false} CutAnywhere(a: Text, b: Text)
    ensures Complete(a + b) == Complete(a) + Complete(Leftover(a) + b)
    ensures Leftover(a + b) == Leftover(Leftover(a) + b)
    decreases |b|
  {
    if b == [] {
      assert a + b == a && Leftover(a) + b == Leftover(a);
      LeftoverHasNone(a);
      NoNewline(Leftover(a));
    } else {
      var init, last := b[..|b| - 1], b[|b| - 1];
      CutAnywhere(a, init);
      Regroup(a, init, last, b);
      Regroup(Leftover(a), init, last, b);
      CutOneLater(Complete(a), a + init, Leftover(a) + init, last, a + b, Leftover(a) + b);
    }
  }

  lemma Regroup(a: Text, init: Text, last: Unit, b: Text)
    requires b == init + [last]
    ensures a + b == (a + init) + [last]
  {
  }

  lemma CutOneLater(lines: seq<Text>, whole: Text, cut: Text, last: Unit, wholeMore: Text, cutMore: Text)
    requires wholeMore == whole + [last] && cutMore == cut + [last]
    requires Complete(whole) == lines + Complete(cut) && Leftover(whole) == Leftover(cut)
    ensures Complete(wholeMore) == lines + Complete(cutMore) && Leftover(wholeMore) == Leftover(cutMore)
  {
    OneMore(whole, last, wholeMore);
    OneMore(cut, last, cutMore);
    LineLater(lines, Complete(cut), Leftover(cut));
  }

  lemma LineLater(a: seq<Text>, b: seq<Text>, line: Text)
    ensures (a + b) + [line] == a + (b + [line])
  {
  }

  lemma OneMore(s: Text, c: Unit, all: Text)
    requires all == s + [c]
    ensures Complete(all) == if c == NEWLINE then Complete(s) + [Leftover(s)] else Complete(s)
    ensures Leftover(all) == if c == NEWLINE then [] else Leftover(s) + [c]
  {
    assert all[..|all| - 1] == s && all[|all| - 1] == c;
  }

  /** Two chunks deliver what their concatenation delivers, and leave the same. */
  lemma TwoChunks(a: Text, b: Text)
    ensures Messages(a + b) == Messages(a) + Messages(Leftover(a) + b)
    ensures Leftover(a + b) == Leftover(Leftover(a) + b)
  {
    CutAnywhere(a, b);
    DeliveredAppend(Complete(a), Complete(Leftover(a) + b));
  }

  /** A complete line at the front of a text. */
  lemma FirstLine(line: Text, more: Text)
    requires NEWLINE !in line
    ensures Complete(line + [NEWLINE] + more) == [line] + Complete(more)
    ensures Leftover(line + [NEWLINE] + more) == Leftover(more)
  {
    var first := line + [NEWLINE];
    assert first[..|first| - 1] == line;
    NoNewline(line);
    CutAnywhere(first, more);
    assert Leftover(first) + more == more;
  }

  /** A text without a newline delivers nothing; the first line of any other is delivered trimmed, unless blank. */
  lemma MessagesByLine(line: Text, more: Text)
    requires NEWLINE !in line
    ensures Messages(line) == [] && Leftover(line) == line
    ensures Messages(line + [NEWLINE] + more) == (if Trim(line) == [] then [] else [Trim(line)]) + Messages(more)
    ensures Leftover(line + [NEWLINE] + more) == Leftover(more)
  {
    NoNewline(line);
    FirstLine(line, more);
    ReturnIsTrimmed(line);
    assert ([line] + Complete(more))[1..] == Complete(more);
  }

  /** A run of `onData` over the chunks, from what is in the buffer. */
  function Fed(buffer: Text, chunks: seq<Text>): (seq<Text>, Text)
    decreases |chunks|
  {
    if chunks == [] then ([], buffer)
    else
      var text := buffer + chunks[0];
      var rest := Fed(Leftover(text), chunks[1..]);
      (Messages(text) + rest.0, rest.1)
  }

  /** What is delivered and what is left depend on the concatenated text alone. */
  lemma {:induction false} ChunkingIsInvisible(buffer: Text, chunks: seq<Text>)
    requires NEWLINE !in buffer
    ensures Fed(buffer, chunks) == (Messages(buffer + Concat(chunks)), Leftover(buffer + Concat(chunks)))
    decreases |chunks|
  {
    if chunks == [] {
      NoNewline(buffer);
      assert buffer + [] == buffer;
    } else {
      var text := buffer + chunks[0];
      LeftoverHasNone(text);
      ChunkingIsInvisible(Leftover(text), chunks[1..]);
      FedStep(buffer, chunks[0], Concat(chunks[1..]));
    }
  }

  lemma Associate(a: Text, b: Text, c: Text)
    ensures a + (b + c) == (a + b) + c
  {
  }

  lemma FedStep(buffer: Text, chunk: Text, more: Text)
    ensures Messages(buffer + (chunk + more)) == Messages(buffer + chunk) + Messages(Leftover(buffer + chunk) + more)
    ensures Leftover(buffer + (chunk + more)) == Leftover(Leftover(buffer + chunk) + more)
  {
    TwoChunks(buffer + chunk, more);
    Associate(buffer, chunk, more);
  }

  lemma SameDeliveries(a: seq<Text>, b: seq<Text>)
    requires Concat(a) == Concat(b)
    ensures Fed([], a) == Fed([], b)
  {
    ChunkingIsInvisible([], a);
    ChunkingIsInvisible([], b);
  }

  // ----- The limit of the Linux client --------------------------------------

  /**
   * A connection of the Linux client: what it delivers, what it leaves, and how many
   * chunks it takes in. The first chunk that overflows destroys the socket.
   */
  function FedLinux(buffer: Text, chunks: seq<Text>): (r: (seq<Text>, Text, nat))
    ensures r.2 <= |chunks|
    decreases |chunks|
  {
    if chunks == [] then ([], buffer, 0)
    else
      var text := buffer + chunks[0];
      if |text| > MAX_BUFFER_CHARS then ([], [], 0)
      else
        var rest := FedLinux(Leftover(text), chunks[1..]);
        (Messages(text) + rest.0, rest.1, rest.2 + 1)
  }

  /** What waits in the buffer when chunk `k` arrives. */
  function Waiting(buffer: Text, chunks: seq<Text>, k: nat): Text
    requires k <= |chunks|
  {
    Leftover(buffer + Concat(chunks[..k]))
  }

  /** The chunks before `taken` fit in the buffer, the next one does not. */
  predicate StopsAt(buffer: Text, chunks: seq<Text>, taken: nat)
    requires taken <= |chunks|
  {
    && (forall k :: 0 <= k < taken ==> |Waiting(buffer, chunks, k) + chunks[k]| <= MAX_BUFFER_CHARS)
    && (taken < |chunks| ==> |Waiting(buffer, chunks, taken) + chunks[taken]| > MAX_BUFFER_CHARS)
  }

  lemma WaitingLater(buffer: Text, chunks: seq<Text>, k: nat)
    requires 0 < k <= |chunks|
    ensures Waiting(buffer, chunks, k) == Waiting(Leftover(buffer + chunks[0]), chunks[1..], k - 1)
  {
    assert chunks[..k][0] == chunks[0] && chunks[..k][1..] == chunks[1..][..k - 1];
    FedStep(buffer, chunks[0], Concat(chunks[1..][..k - 1]));
  }

  lemma StopsLater(buffer: Text, chunks: seq<Text>, taken: nat)
    requires 0 < taken <= |chunks| && NEWLINE !in buffer
    requires |buffer + chunks[0]| <= MAX_BUFFER_CHARS
    requires StopsAt(Leftover(buffer + chunks[0]), chunks[1..], taken - 1)
    ensures StopsAt(buffer, chunks, taken)
  {
    forall k | 0 <= k < taken ensures |Waiting(buffer, chunks, k) + chunks[k]| <= MAX_BUFFER_CHARS {
      if k == 0 { WaitingFirst(buffer, chunks); } else { WaitingLater(buffer, chunks, k); }
    }
    if taken < |chunks| { WaitingLater(buffer, chunks, taken); }
  }

  lemma WaitingFirst(buffer: Text, chunks: seq<Text>)
    requires NEWLINE !in buffer
    ensures Waiting(buffer, chunks, 0) == buffer
  {
    NoNewline(buffer);
    assert chunks[..0] == [] && buffer + [] == buffer;
  }

  lemma FedPrefix(buffer: Text, chunks: seq<Text>, k: nat)
    requires 0 < k <= |chunks|
    ensures var text := buffer + chunks[0];
            && Fed(buffer, chunks[..k]).0 == Messages(text) + Fed(Leftover(text), chunks[1..][..k - 1]).0
            && Fed(buffer, chunks).1 == Fed(Leftover(text), chunks[1..]).1
  {
    assert chunks[..k][0] == chunks[0] && chunks[..k][1..] == chunks[1..][..k - 1];
  }

  /** The run of the Linux client is that of the chunks before the first that does not fit. */
  lemma {:induction false} LinuxTakesPrefix(buffer: Text, chunks: seq<Text>)
    requires NEWLINE !in buffer
    ensures var (delivered, left, taken) := FedLinux(buffer, chunks);
            && StopsAt(buffer, chunks, taken) && delivered == Fed(buffer, chunks[..taken]).0
            && left == if taken < |chunks| then [] else Fed(buffer, chunks).1
    decreases |chunks|
  {
    if chunks == [] || |buffer + chunks[0]| > MAX_BUFFER_CHARS {
      WaitingFirst(buffer, chunks);
    } else {
      var text, taken := buffer + chunks[0], FedLinux(buffer, chunks).2;
      LeftoverHasNone(text);
      LinuxTakesPrefix(Leftover(text), chunks[1..]);
      StopsLater(buffer, chunks, taken);
      FedPrefix(buffer, chunks, taken);
    }
  }

  lemma ConcatSplit(chunks: seq<Text>, k: nat)
    requires k <= |chunks|
    ensures Concat(chunks) == Concat(chunks[..k]) + Concat(chunks[k..])
  {
    assert chunks[..k] + chunks[k..] == chunks;
    ConcatAppend(chunks[..k], chunks[k..]);
  }

  /** A run in two parts. */
  lemma FedInTwo(buffer: Text, chunks: seq<Text>, k: nat)
    requires NEWLINE !in buffer && k <= |chunks|
    ensures Fed(buffer, chunks).0 ==
            Fed(buffer, chunks[..k]).0 + Messages(Waiting(buffer, chunks, k) + Concat(chunks[k..]))
  {
    ChunkingIsInvisible(buffer, chunks);
    ChunkingIsInvisible(buffer, chunks[..k]);
    ConcatSplit(chunks, k);
    TwoChunks(buffer + Concat(chunks[..k]), Concat(chunks[k..]));
    Associate(buffer, Concat(chunks[..k]), Concat(chunks[k..]));
  }

  /**
   * Over any chunks, the Linux client delivers a prefix of what the Windows client
   * delivers, and the same if and only if every chunk fits in the buffer or nothing was
   * left to deliver from the first that does not.
   */
  lemma LinuxAgrees(buffer: Text, chunks: seq<Text>)
    requires NEWLINE !in buffer
    ensures var (delivered, left, taken) := FedLinux(buffer, chunks);
            && StopsAt(buffer, chunks, taken) && delivered <= Fed(buffer, chunks).0
            && (delivered == Fed(buffer, chunks).0 <==>
                  taken == |chunks| || Messages(Waiting(buffer, chunks, taken) + Concat(chunks[taken..])) == [])
            && left == if taken < |chunks| then [] else Fed(buffer, chunks).1
  {
    var taken := FedLinux(buffer, chunks).2;
    LinuxTakesPrefix(buffer, chunks);
    FedInTwo(buffer, chunks, taken);
    if taken == |chunks| { assert chunks[..taken] == chunks; }
  }

  // ----- Trimming -----------------------------------------------------------

  lemma {:induction false} TrimStartDrops(s: Text)
    requires s != [] && IsSpace(s[|s| - 1])
    ensures TrimEnd(TrimStart(s[..|s| - 1])) == TrimEnd(TrimStart(s))
  {
    var init := s[..|s| - 1];
    if init == [] {
      assert s[1..] == [];
      assert TrimStart(s) == TrimStart([]);
    } else if IsSpace(s[0]) {
      assert init[0] == s[0] && init[1..] == s[1..][..|s[1..]| - 1];
      TrimStartDrops(s[1..]);
    } else {
      assert TrimStart(init) == init && TrimStart(s) == s;
    }
  }

  /** Stripping the carriage return first makes no difference: `trim` removes it too. */
  lemma ReturnIsTrimmed(line: Text)
    ensures Clean(line) == Trim(line)
  {
    if line != [] && line[|line| - 1] == RETURN { TrimStartDrops(line); }
  }
}
