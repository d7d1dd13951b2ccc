/**
 * How the policy stores the ranges to sweep: `sanitizeProbeRanges` and
 * `getCdpProbeRanges` of `src/core/policy-runtime.ts`.
 */
module ProbeStorage {
  import opened Js
  import opened Ipv4Text
  import opened ProbeRange

  const MAX_RANGES: nat := 16

  type Parser = RawEntry -> Option<Range>

  function ParserFor(lower: Text -> Text): Parser { e => ParseProbeRange(lower, e) }

  /** The loop of `sanitizeProbeRanges`, from what has been stored and seen. */
  function SanitizedFrom(parse: Parser, input: seq<RawEntry>, out: seq<RawEntry>, seen: set<Text>): seq<RawEntry>
    decreases |input|
  {
    if input == [] || |out| >= MAX_RANGES then out
    else
      var r := parse(input[0]);
      if r.None? || Key(r.value) in seen then SanitizedFrom(parse, input[1..], out, seen)
      else SanitizedFrom(parse, input[1..], out + [Entry(r.value)], seen + {Key(r.value)})
  }

  /** None is an input that is not an array. */
  function Sanitized(lower: Text -> Text, input: Option<seq<RawEntry>>): seq<RawEntry> {
    if input.None? then [] else SanitizedFrom(ParserFor(lower), input.value, [], {})
  }

  method SanitizeProbeRanges(lower: Text -> Text, input: Option<seq<RawEntry>>) returns (out: seq<RawEntry>)
    ensures out == Sanitized(lower, input)
  {
    if input.None? { return []; }
    var entries := input.value;
    ghost var parse := ParserFor(lower);
    var seen: set<Text> := {};
    out := [];
    for i := 0 to |entries|
      invariant SanitizedFrom(parse, entries, [], {}) == SanitizedFrom(parse, entries[i..], out, seen)
    {
      assert entries[i..][1..] == entries[i + 1..];
      if |out| >= MAX_RANGES { return; }
      var r := ParseProbeRange(lower, entries[i]);
      assert r == parse(entries[i]);
      if r.None? { continue; }
      var key := Key(r.value);
      if key in seen { continue; }
      seen := seen + {key};
      out := out + [Entry(r.value)];
    }
  }

  /** `getCdpProbeRanges`: the ranges of the stored entries. */
  function StoredRanges(parse: Parser, stored: seq<RawEntry>): seq<Range> {
    if stored == [] then []
    else
      var r := parse(stored[0]);
      (if r.Some? then [r.value] else []) + StoredRanges(parse, stored[1..])
  }

  // ----- A stored entry parses again ----------------------------------------

  /** `toLowerCase` leaves what it has lowered as it is. */
  ghost predicate Idempotent(lower: Text -> Text) {
    forall s: Text :: lower(lower(s)) == lower(s)
  }

  predicate IsPortNumber(p: nat) { 1 <= p <= 65535 }

  predicate ArePorts(ports: seq<nat>) {
    Distinct(ports) && |ports| <= MAX_PORTS && forall i :: 0 <= i < |ports| ==> IsPortNumber(ports[i])
  }

  lemma {:induction false} PortsKept(raw: seq<Option<int>>, out: seq<nat>)
    requires PortsFrom(raw, out).Some? && ArePorts(out)
    ensures var r := PortsFrom(raw, out).value;
            ArePorts(r) && |out| <= |r| && (raw != [] ==> r != [])
    decreases |raw|
  {
    if raw != [] {
      if raw[0].value in out {
        PortsKept(raw[1..], out);
      } else {
        PortsKept(raw[1..], out + [raw[0].value]);
      }
    }
  }

  lemma {:induction false} PortsAgain(ports: seq<nat>, k: nat)
    requires ArePorts(ports) && k <= |ports|
    ensures PortsFrom(Somes(ports)[k..], ports[..k]) == Some(ports)
    decreases |ports| - k
  {
    if k < |ports| {
      PortsAgain(ports, k + 1);
      assert Somes(ports)[k..][1..] == Somes(ports)[k + 1..];
      assert ports[..k] + [ports[k]] == ports[..k + 1];
      assert IsPortNumber(ports[k]) && ports[k] !in ports[..k];
    } else {
      assert ports[..k] == ports;
    }
  }

  lemma {:induction false} TrimStartEnds(s: Text)
    ensures TrimStart(s) == [] || !IsSpace(TrimStart(s)[0])
  {
    if s != [] { TrimStartEnds(s[1..]); }
  }

  lemma {:induction false} TrimEndEnds(s: Text)
    ensures TrimEnd(s) == [] || (!IsSpace(TrimEnd(s)[|TrimEnd(s)| - 1]) && TrimEnd(s)[0] == s[0])
  {
    if s != [] { TrimEndEnds(s[..|s| - 1]); }
  }

  lemma TrimTwice(s: Text)
    ensures Trim(Trim(s)) == Trim(s)
  {
    TrimStartEnds(s);
    TrimEndEnds(TrimStart(s));
    TrimNothing(Trim(s));
  }

  lemma {:induction false} SplitEnds(s: Text, c: Unit)
    ensures SplitOn(s, c) != [[]] ==> s != []
    ensures s != [] && SplitOn(s, c)[0] != [] ==> s[0] == SplitOn(s, c)[0][0]
    ensures var last := SplitOn(s, c)[|SplitOn(s, c)| - 1];
            s != [] && last != [] ==> s[|s| - 1] == last[|last| - 1]
  {
    if s != [] { SplitEnds(s[1..], c); }
  }

  lemma SniEnds(s: Text)
    requires IsSni(s)
    ensures s != [] && Trim(s) == s
  {
    var labels := SplitOn(s, DOT);
    SplitEnds(s, DOT);
    assert IsLabel(labels[0]) && IsLabel(labels[|labels| - 1]);
    TrimNothing(s);
  }

  lemma SniAgain(lower: Text -> Text, raw: Text)
    requires Idempotent(lower) && ParseSni(lower, raw).Some?
    ensures ParseSni(lower, ParseSni(lower, raw).value) == ParseSni(lower, raw)
  {
    var s := lower(Trim(raw));
    SniEnds(s);
    assert lower(s) == s;
  }

  /** What `parseProbeRange` establishes of a range. */
  lemma ParsedRange(lower: Text -> Text, e: RawEntry)
    requires ParseProbeRange(lower, e).Some?
    ensures var r := ParseProbeRange(lower, e).value;
            && ParseRangeBounds(r.raw) == Some(Bounds(r.start, r.end)) && ArePorts(r.ports) && r.ports != []
            && r.sni == ParseSni(lower, e.sni) && Trim(r.raw) == r.raw
  {
    PortsKept(e.ports.value, []);
    if e.range.Some? { TrimTwice(e.range.value); }
  }

  lemma ParsesTo(lower: Text -> Text, r: Range)
    requires Trim(r.raw) == r.raw && ParseRangeBounds(r.raw) == Some(Bounds(r.start, r.end))
    requires ArePorts(r.ports) && r.ports != []
    requires ParseSni(lower, Entry(r).sni) == r.sni
    ensures ParseProbeRange(lower, Entry(r)) == Some(r)
  {
    PortsAgain(r.ports, 0);
    assert Somes(r.ports)[0..] == Somes(r.ports) && r.ports[..0] == [];
    BoundsAreSmall(r.raw);
  }

  /** Every stored entry parses again to the very range it was stored from. */
  lemma EntryReparses(lower: Text -> Text, e: RawEntry)
    requires Idempotent(lower) && ParseProbeRange(lower, e).Some?
    ensures var r := ParseProbeRange(lower, e).value; ParseProbeRange(lower, Entry(r)) == Some(r)
  {
    ParsedRange(lower, e);
    if ParseSni(lower, e.sni).Some? { SniAgain(lower, e.sni); }
    ParsesTo(lower, ParseProbeRange(lower, e).value);
  }

  // ----- Stored lists -------------------------------------------------------

  ghost predicate Reparses(parse: Parser) {
    forall e :: parse(e).Some? ==> parse(Entry(parse(e).value)) == parse(e)
  }

  /** Ranges whose entries parse again, with different keys, within the cap. */
  predicate IsStored(parse: Parser, rs: seq<Range>) {
    && |rs| <= MAX_RANGES
    && (forall i :: 0 <= i < |rs| ==> parse(Entry(rs[i])) == Some(rs[i]))
    && (forall i, j :: 0 <= i < j < |rs| ==> Key(rs[i]) != Key(rs[j]))
  }

  function Entries(rs: seq<Range>): (r: seq<RawEntry>)
    ensures |r| == |rs| && forall i :: 0 <= i < |rs| ==> r[i] == Entry(rs[i])
  {
    if rs == [] then [] else [Entry(rs[0])] + Entries(rs[1..])
  }

  function Keys(rs: seq<Range>): (r: set<Text>)
    ensures forall k :: k in r <==> exists i :: 0 <= i < |rs| && Key(rs[i]) == k
  {
    set i | 0 <= i < |rs| :: Key(rs[i])
  }

  lemma EntriesAppend(rs: seq<Range>, r: Range)
    ensures Entries(rs + [r]) == Entries(rs) + [Entry(r)]
  {
  }

  lemma KeysAppend(rs: seq<Range>, r: Range)
    ensures Keys(rs + [r]) == Keys(rs) + {Key(r)}
  {
    var all := rs + [r];
    assert all[|rs|] == r;
    forall k ensures k in Keys(all) <==> k in Keys(rs) + {Key(r)} {
      if k in Keys(rs) {
        var i :| 0 <= i < |rs| && Key(rs[i]) == k;
        assert all[i] == rs[i];
      }
    }
  }

  lemma StoredAppend(parse: Parser, rs: seq<Range>, r: Range)
    requires IsStored(parse, rs) && |rs| < MAX_RANGES && parse(Entry(r)) == Some(r) && Key(r) !in Keys(rs)
    ensures IsStored(parse, rs + [r])
  {
  }

  /** What is stored is the entries of a stored list, from whatever was stored before. */
  lemma {:induction false} SanitizedIsStored(parse: Parser, input: seq<RawEntry>, rs: seq<Range>)
    returns (all: seq<Range>)
    requires Reparses(parse) && IsStored(parse, rs)
    ensures IsStored(parse, all) && SanitizedFrom(parse, input, Entries(rs), Keys(rs)) == Entries(all)
    decreases |input|
  {
    all := rs;
    if input != [] && |rs| < MAX_RANGES {
      var r := parse(input[0]);
      if r.None? || Key(r.value) in Keys(rs) {
        all := SanitizedIsStored(parse, input[1..], rs);
      } else {
        StoredAppend(parse, rs, r.value);
        EntriesAppend(rs, r.value);
        KeysAppend(rs, r.value);
        all := SanitizedIsStored(parse, input[1..], rs + [r.value]);
      }
    }
  }

  lemma {:induction false} StoredAgain(parse: Parser, rs: seq<Range>, k: nat)
    requires IsStored(parse, rs) && k <= |rs|
    ensures SanitizedFrom(parse, Entries(rs[k..]), Entries(rs[..k]), Keys(rs[..k])) == Entries(rs)
    decreases |rs| - k
  {
    if k == |rs| {
      assert rs[k..] == [] && rs[..k] == rs;
    } else {
      var before, r := rs[..k], rs[k];
      assert rs[k..][0] == r && rs[k..][1..] == rs[k + 1..] && before + [r] == rs[..k + 1];
      assert Key(r) !in Keys(before);
      EntriesAppend(before, r);
      KeysAppend(before, r);
      StoredAgain(parse, rs, k + 1);
      Turn(parse, r, Entries(rs[k + 1..]), Entries(before), Keys(before));
    }
  }

  lemma Turn(parse: Parser, r: Range, rest: seq<RawEntry>, out: seq<RawEntry>, seen: set<Text>)
    requires parse(Entry(r)) == Some(r) && Key(r) !in seen && |out| < MAX_RANGES
    ensures SanitizedFrom(parse, [Entry(r)] + rest, out, seen) ==
            SanitizedFrom(parse, rest, out + [Entry(r)], seen + {Key(r)})
  {
    assert ([Entry(r)] + rest)[1..] == rest;
  }

  lemma {:induction false} AllStored(parse: Parser, rs: seq<Range>)
    requires forall i :: 0 <= i < |rs| ==> parse(Entry(rs[i])) == Some(rs[i])
    ensures StoredRanges(parse, Entries(rs)) == rs
  {
    if rs != [] {
      assert Entries(rs)[1..] == Entries(rs[1..]);
      AllStored(parse, rs[1..]);
    }
  }

  /**
   * What the policy stores is stable: sanitising it again changes nothing, and reading
   * it back gives one range for each entry, with different keys, sixteen at most.
   */
  lemma StorageIsStable(lower: Text -> Text, input: Option<seq<RawEntry>>)
    requires Idempotent(lower)
    ensures var stored, parse := Sanitized(lower, input), ParserFor(lower);
            && Sanitized(lower, Some(stored)) == stored && |stored| <= MAX_RANGES
            && IsStored(parse, StoredRanges(parse, stored)) && Entries(StoredRanges(parse, stored)) == stored
  {
    var parse := ParserFor(lower);
    forall e | parse(e).Some? ensures parse(Entry(parse(e).value)) == parse(e) {
      EntryReparses(lower, e);
    }
    var entries := if input.Some? then input.value else [];
    assert Keys([]) == {};
    var rs := SanitizedIsStored(parse, entries, []);
    StoredAgain(parse, rs, 0);
    assert rs[0..] == rs && rs[..0] == [];
    AllStored(parse, rs);
  }
}
