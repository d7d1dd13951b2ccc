/**
 * What the texts and lists of a probe range are read as, stated without the loops that
 * read them (`src/domain/probe-range.ts`, `src/core/policy-runtime.ts`).
 */
module ProbeExact {
  import opened Js
  import opened Ipv4Text
  import opened ProbeRange
  import opened ProbeStorage

  // ----- Addresses ----------------------------------------------------------

  function Joined(parts: seq<Text>, c: Unit): Text
    requires parts != []
  {
    if |parts| == 1 then parts[0] else parts[0] + ([c] + Joined(parts[1..], c))
  }

  lemma {:induction false} SplitJoins(s: Text, c: Unit)
    ensures Joined(SplitOn(s, c), c) == s
  {
    if s == [] {
    } else {
      var rest := SplitOn(s[1..], c);
      SplitJoins(s[1..], c);
      if s[0] == c {
        assert ([[]] + rest)[1..] == rest;
        assert Joined([[]] + rest, c) == [] + ([c] + Joined(rest, c));
      } else {
        JoinedLonger(s[0], rest, c);
      }
      assert s == [s[0]] + s[1..];
    }
  }

  lemma JoinedLonger(first: Unit, parts: seq<Text>, c: Unit)
    requires parts != []
    ensures Joined([[first] + parts[0]] + parts[1..], c) == [first] + Joined(parts, c)
  {
    var longer := [[first] + parts[0]] + parts[1..];
    assert longer[1..] == parts[1..];
  }

  /** Four octets of one to three digits, 255 at most, between points. */
  predicate IsQuad(s: Text, a: Text, b: Text, c: Text, d: Text) {
    s == Dotted(a, b, c, d) && IsSmallOctet(a) && IsSmallOctet(b) && IsSmallOctet(c) && IsSmallOctet(d)
  }

  lemma FourJoined(parts: seq<Text>)
    requires |parts| == 4
    ensures Joined(parts, DOT) == Dotted(parts[0], parts[1], parts[2], parts[3])
  {
    var p1, p2, p3 := parts[1..], parts[2..], parts[3..];
    assert p1[1..] == p2 && p2[1..] == p3 && |p3| == 1;
    assert Joined(p2, DOT) == parts[2] + ([DOT] + parts[3]);
    assert Joined(p1, DOT) == parts[1] + ([DOT] + Joined(p2, DOT));
  }

  lemma LargeOctetFails(parts: seq<Text>, i: nat)
    requires AreOctets(parts) && i < |parts| && IsOctetText(parts[i]) && Value(parts[i]) > 255
    ensures Octets(parts).None?
  {
    OctetsAppend(parts[..i], parts[i]);
    assert parts[..i] + [parts[i]] == parts[..i + 1];
    OctetsFail(parts, i + 1);
  }

  lemma SmallOctets(parts: seq<Text>, i: nat)
    requires AreOctets(parts) && Octets(parts).Some? && i < |parts|
    ensures IsSmallOctet(parts[i])
  {
    assert IsOctetText(parts[i]);
    if Value(parts[i]) > 255 { LargeOctetFails(parts, i); }
  }

  /** A text is an address exactly when, trimmed, it is four such octets, and its number is theirs in base 256. */
  lemma Ipv4Exactly(s: Text, n: nat)
    ensures Ipv4ToInt(s) == Some(n) <==>
              exists a, b, c, d ::
                IsQuad(Trim(s), a, b, c, d) && n == FromOctets(Value(a), Value(b), Value(c), Value(d))
  {
    if Ipv4ToInt(s) == Some(n) {
      var parts := SplitOn(Trim(s), DOT);
      SplitJoins(Trim(s), DOT);
      FourJoined(parts);
      forall i | 0 <= i < 4 ensures IsSmallOctet(parts[i]) {
        SmallOctets(parts, i);
      }
      QuadIs(parts[0], parts[1], parts[2], parts[3]);
      assert parts == [parts[0], parts[1], parts[2], parts[3]];
      assert IsQuad(Trim(s), parts[0], parts[1], parts[2], parts[3]);
    }
    forall a, b, c, d | IsQuad(Trim(s), a, b, c, d)
      ensures Ipv4ToInt(s) == Some(FromOctets(Value(a), Value(b), Value(c), Value(d)))
    {
      DottedSplits(a, b, c, d);
      QuadIs(a, b, c, d);
    }
  }

  lemma QuadIs(a: Text, b: Text, c: Text, d: Text)
    requires IsSmallOctet(a) && IsSmallOctet(b) && IsSmallOctet(c) && IsSmallOctet(d)
    ensures Quad([a, b, c, d]) == Some(FromOctets(Value(a), Value(b), Value(c), Value(d)))
  {
    FourOctets(a, b, c, d);
    FourTurns(Value(a), Value(b), Value(c), Value(d));
  }

  // ----- Names --------------------------------------------------------------

  predicate AreLabels(labels: seq<Text>) { forall i :: 0 <= i < |labels| ==> IsLabel(labels[i]) }

  lemma {:induction false} JoinSplits(labels: seq<Text>)
    requires labels != [] && AreLabels(labels)
    ensures SplitOn(Joined(labels, DOT), DOT) == labels
  {
    assert IsLabel(labels[0]);
    assert DOT !in labels[0];
    if |labels| == 1 {
      SplitNone(labels[0], DOT);
    } else {
      JoinSplits(labels[1..]);
      SplitField(labels[0], DOT, Joined(labels[1..], DOT), Joined(labels, DOT));
      assert labels == [labels[0]] + labels[1..];
    }
  }

  /**
   * A name is taken exactly when, trimmed and in lower case, it is two labels or more of
   * letters, digits and inner hyphens between points, and 253 units at most.
   */
  lemma SniExactly(lower: Text -> Text, raw: Text, name: Text)
    ensures ParseSni(lower, raw) == Some(name) <==>
              && raw != [] && name == lower(Trim(raw)) && |name| <= 253
              && exists labels :: |labels| >= 2 && AreLabels(labels) && name == Joined(labels, DOT)
  {
    var s := lower(Trim(raw));
    if IsSni(s) { SplitJoins(s, DOT); }
    forall labels | |labels| >= 2 && AreLabels(labels) && s == Joined(labels, DOT) ensures IsSni(s) {
      JoinSplits(labels);
    }
  }

  /** An entry is a range exactly when its text and its ports are; a name that cannot be taken is dropped. */
  lemma RangeIsRead(lower: Text -> Text, e: RawEntry, r: Range)
    ensures ParseProbeRange(lower, e) == Some(r) <==>
              && e.RawEntry? && e.range.Some? && r.raw == Trim(e.range.value)
              && ParseRangeBounds(e.range.value) == Some(Bounds(r.start, r.end))
              && PortsOf(e.ports) == Some(r.ports) && r.sni == ParseSni(lower, e.sni)
  {
    if e.RawEntry? && e.range.Some? {
      TrimTwice(e.range.value);
      if ParseRangeBounds(e.range.value).Some? { BoundsAreSmall(e.range.value); }
    }
  }

  // ----- Ports --------------------------------------------------------------

  /** The numbers asked for. */
  function Asked(raw: seq<Option<int>>): set<int> {
    set i | 0 <= i < |raw| && raw[i].Some? :: raw[i].value
  }

  function SetOf(ports: seq<nat>): set<int> { set i | 0 <= i < |ports| :: ports[i] }

  lemma {:induction false} DistinctCount(ports: seq<nat>)
    requires Distinct(ports)
    ensures |SetOf(ports)| == |ports|
  {
    if ports == [] {
      assert SetOf(ports) == {};
    } else {
      var init, last := ports[..|ports| - 1], ports[|ports| - 1];
      DistinctCount(init);
      SetMore(init, last, ports);
      assert last !in SetOf(init);
    }
  }

  lemma SetMore(init: seq<nat>, last: nat, all: seq<nat>)
    requires all == init + [last]
    ensures SetOf(all) == SetOf(init) + {last}
  {
    assert all[|init|] == last;
    forall v | v in SetOf(init) ensures v in SetOf(all) {
      var i :| 0 <= i < |init| && init[i] == v;
      assert all[i] == v;
    }
  }

  lemma AskedFirst(raw: seq<Option<int>>)
    requires raw != []
    ensures Asked(raw) == Asked(raw[1..]) + (if raw[0].Some? then {raw[0].value} else {})
  {
    forall v | v in Asked(raw[1..]) ensures v in Asked(raw) {
      var i :| 0 <= i < |raw[1..]| && raw[1..][i].Some? && raw[1..][i].value == v;
      assert raw[i + 1] == raw[1..][i];
    }
    forall v | v in Asked(raw) && !(raw[0].Some? && v == raw[0].value) ensures v in Asked(raw[1..]) {
      var i :| 0 <= i < |raw| && raw[i].Some? && raw[i].value == v;
      assert raw[1..][i - 1] == raw[i];
    }
  }

  predicate AllPorts(raw: seq<Option<int>>) { forall i :: 0 <= i < |raw| ==> IsPort(raw[i]) }

  /** The numbers to keep, with the first one taken or held already. */
  lemma FirstAsked(raw: seq<Option<int>>, out: seq<nat>, v: nat)
    requires raw != [] && raw[0] == Some(v)
    ensures SetOf(out) + Asked(raw) == SetOf(out + [v]) + Asked(raw[1..])
    ensures v in out ==> SetOf(out) + Asked(raw) == SetOf(out) + Asked(raw[1..])
  {
    AskedFirst(raw);
    SetMore(out, v, out + [v]);
  }

  lemma TooMany(raw: seq<Option<int>>, out: seq<nat>, v: nat)
    requires raw != [] && raw[0] == Some(v) && Distinct(out) && v !in out && |out| >= MAX_PORTS
    ensures |SetOf(out) + Asked(raw)| > MAX_PORTS
  {
    FirstAsked(raw, out, v);
    DistinctCount(out + [v]);
    Larger(SetOf(out + [v]), SetOf(out) + Asked(raw));
  }

  lemma {:induction false} PortsFromIs(raw: seq<Option<int>>, out: seq<nat>)
    requires Distinct(out) && |out| <= MAX_PORTS
    ensures PortsFrom(raw, out).Some? <==> AllPorts(raw) && |SetOf(out) + Asked(raw)| <= MAX_PORTS
    ensures PortsFrom(raw, out).Some? ==>
              var r := PortsFrom(raw, out).value;
              out <= r && Distinct(r) && SetOf(r) == SetOf(out) + Asked(raw)
    decreases |raw|
  {
    if raw == [] {
      DistinctCount(out);
      assert SetOf(out) + Asked(raw) == SetOf(out);
    } else {
      AllFirst(raw);
      if IsPort(raw[0]) {
        var v: nat := raw[0].value;
        FirstAsked(raw, out, v);
        if v in out {
          PortsFromIs(raw[1..], out);
        } else if |out| < MAX_PORTS {
          PortsFromIs(raw[1..], out + [v]);
        } else {
          TooMany(raw, out, v);
        }
      }
    }
  }

  lemma Larger(a: set<int>, b: set<int>)
    requires a <= b
    ensures |a| <= |b|
  {
    assert b == a + (b - a);
  }

  lemma AllFirst(raw: seq<Option<int>>)
    requires raw != []
    ensures AllPorts(raw) <==> IsPort(raw[0]) && AllPorts(raw[1..])
  {
    assert raw == [raw[0]] + raw[1..];
  }

  /**
   * A list of ports is accepted exactly when it is not empty, all its entries are ports
   * and they are eight at most once repeats are dropped; each of them is kept once.
   */
  lemma PortsAreExact(raw: seq<Option<int>>)
    ensures PortsOf(Some(raw)).Some? <==> raw != [] && AllPorts(raw) && |Asked(raw)| <= MAX_PORTS
    ensures PortsOf(Some(raw)).Some? ==>
              var r := PortsOf(Some(raw)).value;
              r != [] && Distinct(r) && SetOf(r) == Asked(raw)
  {
    PortsFromIs(raw, []);
    assert SetOf([]) + Asked(raw) == Asked(raw);
    if raw != [] && AllPorts(raw) { assert raw[0].value in Asked(raw); }
  }

  // ----- Keys ---------------------------------------------------------------

  /** Digits up to something that is no digit are read off in one way. */
  lemma {:induction false} DigitsRead(a: Text, c: Unit, x: Text, b: Text, d: Unit, y: Text)
    requires AllDigits(a) && AllDigits(b) && !IsDigit(c) && !IsDigit(d) && a + ([c] + x) == b + ([d] + y)
    ensures a == b && c == d && x == y
  {
    var s := a + ([c] + x);
    assert s[|a|] == c && s[|b|] == d;
    assert forall i :: 0 <= i < |a| ==> s[i] == a[i];
    assert forall i :: 0 <= i < |b| ==> s[i] == b[i];
    assert |a| == |b|;
    assert a == s[..|a|] == b && x == s[|a| + 1..] == y;
  }

  lemma DecimalRead(m: nat, c: Unit, x: Text, n: nat, d: Unit, y: Text)
    requires !IsDigit(c) && !IsDigit(d) && Decimal(m) + ([c] + x) == Decimal(n) + ([d] + y)
    ensures m == n && c == d && x == y
  {
    DigitsRead(Decimal(m), c, x, Decimal(n), d, y);
    DecimalValue(m);
    DecimalValue(n);
  }

  lemma {:induction false} PortsRead(p: seq<nat>, x: Text, q: seq<nat>, y: Text)
    requires p != [] && q != [] && JoinPorts(p) + ([BAR] + x) == JoinPorts(q) + ([BAR] + y)
    ensures p == q && x == y
  {
    var moreP := if |p| == 1 then [BAR] + x else [COMMA] + (JoinPorts(p[1..]) + ([BAR] + x));
    var moreQ := if |q| == 1 then [BAR] + y else [COMMA] + (JoinPorts(q[1..]) + ([BAR] + y));
    FirstPort(p, x);
    FirstPort(q, y);
    DecimalRead(p[0], moreP[0], moreP[1..], q[0], moreQ[0], moreQ[1..]);
    assert p == [p[0]] + p[1..] && q == [q[0]] + q[1..];
    if |p| > 1 { PortsRead(p[1..], x, q[1..], y); }
  }

  lemma FirstPort(p: seq<nat>, x: Text)
    requires p != []
    ensures |p| == 1 ==> JoinPorts(p) + ([BAR] + x) == Decimal(p[0]) + ([BAR] + x)
    ensures |p| > 1 ==>
              JoinPorts(p) + ([BAR] + x) == Decimal(p[0]) + ([COMMA] + (JoinPorts(p[1..]) + ([BAR] + x)))
  {
    if |p| > 1 { Regrouped(Decimal(p[0]), [COMMA], JoinPorts(p[1..]), [BAR] + x); }
  }

  lemma Regrouped(a: Text, b: Text, c: Text, d: Text)
    ensures (a + b + c) + d == a + (b + (c + d))
  {
  }

  predicate IsSame(r: Range, q: Range) {
    r.start == q.start && r.end == q.end && r.ports == q.ports && r.sni == q.sni
  }

  function SniText(r: Range): Text { if r.sni.Some? then r.sni.value else [] }

  lemma KeyParts(r: Range)
    ensures Key(r) == Decimal(r.start)
                      + ([DASH] + (Decimal(r.end) + ([BAR] + (JoinPorts(r.ports) + ([BAR] + SniText(r))))))
  {
  }

  /** Two ranges have one key exactly when they sweep the same addresses and ports under the same name. */
  lemma KeyIsExact(r: Range, q: Range)
    requires r.ports != [] && q.ports != [] && r.sni != Some([]) && q.sni != Some([])
    ensures Key(r) == Key(q) <==> IsSame(r, q)
  {
    KeyParts(r);
    KeyParts(q);
    if Key(r) == Key(q) {
      DecimalRead(r.start, DASH, Decimal(r.end) + ([BAR] + (JoinPorts(r.ports) + ([BAR] + SniText(r)))),
                  q.start, DASH, Decimal(q.end) + ([BAR] + (JoinPorts(q.ports) + ([BAR] + SniText(q)))));
      DecimalRead(r.end, BAR, JoinPorts(r.ports) + ([BAR] + SniText(r)),
                  q.end, BAR, JoinPorts(q.ports) + ([BAR] + SniText(q)));
      PortsRead(r.ports, SniText(r), q.ports, SniText(q));
    }
  }

  // ----- What is stored -----------------------------------------------------

  lemma ParsedHasParts(lower: Text -> Text, e: RawEntry)
    requires ParseProbeRange(lower, e).Some?
    ensures var r := ParseProbeRange(lower, e).value; r.ports != [] && r.sni != Some([])
  {
    ParsedRange(lower, e);
    if ParseSni(lower, e.sni).Some? { SniEnds(ParseSni(lower, e.sni).value); }
  }

  predicate Holds(rs: seq<Range>, r: Range) { exists i :: 0 <= i < |rs| && IsSame(rs[i], r) }

  predicate GivesParts(parse: Parser, e: RawEntry) {
    parse(e).Some? ==> parse(e).value.ports != [] && parse(e).value.sni != Some([])
  }

  ghost predicate AlwaysGivesParts(parse: Parser) { forall e :: GivesParts(parse, e) }

  predicate ComesFrom(parse: Parser, input: seq<RawEntry>, r: Range) {
    exists i :: 0 <= i < |input| && parse(input[i]) == Some(r)
  }

  /** Everything of the input that parses is held, for what it sweeps. */
  predicate Covers(parse: Parser, input: seq<RawEntry>, all: seq<Range>) {
    forall i :: 0 <= i < |input| && parse(input[i]).Some? ==>
      Holds(all, parse(input[i]).value)
  }

  predicate AllFrom(parse: Parser, input: seq<RawEntry>, all: seq<Range>, from: nat) {
    forall i :: from <= i < |all| ==> ComesFrom(parse, input, all[i])
  }

  predicate AreParsed(rs: seq<Range>) { forall i :: 0 <= i < |rs| ==> rs[i].ports != [] && rs[i].sni != Some([]) }

  lemma TakeTurn(parse: Parser, input: seq<RawEntry>, rs: seq<Range>, r: Range)
    requires input != [] && |rs| < MAX_RANGES && parse(input[0]) == Some(r) && Key(r) !in Keys(rs)
    ensures SanitizedFrom(parse, input, Entries(rs), Keys(rs)) ==
            SanitizedFrom(parse, input[1..], Entries(rs + [r]), Keys(rs + [r]))
  {
    EntriesAppend(rs, r);
    KeysAppend(rs, r);
  }

  lemma SkipTurn(parse: Parser, input: seq<RawEntry>, rs: seq<Range>)
    requires input != [] && |rs| < MAX_RANGES
    requires parse(input[0]).Some? ==> Key(parse(input[0]).value) in Keys(rs)
    ensures SanitizedFrom(parse, input, Entries(rs), Keys(rs)) ==
            SanitizedFrom(parse, input[1..], Entries(rs), Keys(rs))
  {
  }

  /** One turn of the loop: the entry is stored, or it is not there or held already. */
  lemma TakenOrSkipped(parse: Parser, input: seq<RawEntry>, rs: seq<Range>) returns (more: seq<Range>)
    requires AlwaysGivesParts(parse) && input != [] && |rs| < MAX_RANGES && AreParsed(rs)
    ensures SanitizedFrom(parse, input, Entries(rs), Keys(rs)) ==
            SanitizedFrom(parse, input[1..], Entries(more), Keys(more))
    ensures IsTurn(parse(input[0]), rs, more)
  {
    more := rs;
    var parsed := parse(input[0]);
    if parsed.Some? { assert GivesParts(parse, input[0]); }
    if parsed.Some? && Key(parsed.value) !in Keys(rs) {
      TakeTurn(parse, input, rs, parsed.value);
      more := rs + [parsed.value];
      TurnTaken(rs, parsed.value);
    } else {
      SkipTurn(parse, input, rs);
      if parsed.Some? { HeldByKey(parsed.value, rs); }
    }
  }

  predicate IsTurn(parsed: Option<Range>, rs: seq<Range>, more: seq<Range>) {
    && AreParsed(more) && rs <= more && |more| <= |rs| + 1
    && (|more| > |rs| ==> parsed == Some(more[|rs|]))
    && (parsed.Some? ==> Holds(more, parsed.value))
  }

  lemma TurnTaken(rs: seq<Range>, r: Range)
    requires AreParsed(rs) && r.ports != [] && r.sni != Some([])
    ensures IsTurn(Some(r), rs, rs + [r])
  {
    assert IsSame((rs + [r])[|rs|], r);
  }

  lemma HeldByKey(r: Range, rs: seq<Range>)
    requires Key(r) in Keys(rs) && AreParsed(rs) && r.ports != [] && r.sni != Some([])
    ensures Holds(rs, r)
  {
    var i :| 0 <= i < |rs| && Key(rs[i]) == Key(r);
    KeyIsExact(rs[i], r);
  }

  lemma HoldsMore(rs: seq<Range>, all: seq<Range>, r: Range)
    requires rs <= all && Holds(rs, r)
    ensures Holds(all, r)
  {
    var i :| 0 <= i < |rs| && IsSame(rs[i], r);
    assert all[i] == rs[i];
  }

  lemma {:induction false} StoredFrom(parse: Parser, input: seq<RawEntry>, rs: seq<Range>)
    returns (all: seq<Range>)
    requires AlwaysGivesParts(parse) && |rs| <= MAX_RANGES && AreParsed(rs)
    ensures SanitizedFrom(parse, input, Entries(rs), Keys(rs)) == Entries(all)
    ensures rs <= all && |all| <= MAX_RANGES && AllFrom(parse, input, all, |rs|)
    ensures |all| < MAX_RANGES ==> Covers(parse, input, all)
    decreases |input|
  {
    all := rs;
    if input != [] && |rs| < MAX_RANGES {
      var more := TakenOrSkipped(parse, input, rs);
      all := StoredFrom(parse, input[1..], more);
      StoredMore(parse, input, rs, more, all);
    }
  }

  lemma StoredMore(parse: Parser, input: seq<RawEntry>, rs: seq<Range>, more: seq<Range>, all: seq<Range>)
    requires input != [] && IsTurn(parse(input[0]), rs, more) && more <= all
    requires AllFrom(parse, input[1..], all, |more|) && (|all| < MAX_RANGES ==> Covers(parse, input[1..], all))
    ensures rs <= all && AllFrom(parse, input, all, |rs|) && (|all| < MAX_RANGES ==> Covers(parse, input, all))
  {
    var parsed := parse(input[0]);
    if parsed.Some? { HoldsMore(more, all, parsed.value); }
    assert |more| > |rs| ==> all[|rs|] == more[|rs|];
    FromMore(parse, input, all, |rs|);
    CoversMore(parse, input, all);
  }

  lemma CoversMore(parse: Parser, input: seq<RawEntry>, all: seq<Range>)
    requires input != []
    ensures Covers(parse, input[1..], all)
            && (parse(input[0]).Some? ==> Holds(all, parse(input[0]).value)) ==>
              Covers(parse, input, all)
  {
    assert forall i :: 1 <= i < |input| ==> input[i] == input[1..][i - 1];
  }

  lemma FromMore(parse: Parser, input: seq<RawEntry>, all: seq<Range>, from: nat)
    requires input != []
    requires forall i :: from <= i < |all| ==>
               ComesFrom(parse, input[1..], all[i]) || parse(input[0]) == Some(all[i])
    ensures AllFrom(parse, input, all, from)
  {
    forall i | from <= i < |all| ensures ComesFrom(parse, input, all[i]) {
      if ComesFrom(parse, input[1..], all[i]) {
        var j :| 0 <= j < |input[1..]| && parse(input[1..][j]) == Some(all[i]);
        assert input[j + 1] == input[1..][j];
      } else {
        assert parse(input[0]) == Some(all[i]);
      }
    }
  }

  /**
   * What is stored are entries that parse, sixteen at most; and unless there are sixteen,
   * every entry that parses is among them, for what it sweeps.
   */
  lemma StoredIsExact(lower: Text -> Text, input: seq<RawEntry>) returns (all: seq<Range>)
    ensures Sanitized(lower, Some(input)) == Entries(all) && |all| <= MAX_RANGES
    ensures AllFrom(ParserFor(lower), input, all, 0)
    ensures |all| < MAX_RANGES ==> Covers(ParserFor(lower), input, all)
  {
    forall e ensures GivesParts(ParserFor(lower), e) {
      if ParseProbeRange(lower, e).Some? { ParsedHasParts(lower, e); }
    }
    assert Keys([]) == {};
    all := StoredFrom(ParserFor(lower), input, []);
  }
}
