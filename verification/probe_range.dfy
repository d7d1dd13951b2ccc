/** The IPv4 ranges a probe sweeps (`src/domain/probe-range.ts`). */
module ProbeRange {
  import opened Js
  import opened Bits
  import opened Ipv4Text

  const MAX_PREFIX: nat := 22
  const MAX_ADDRESSES: nat := 1024
  const MAX_PORTS: nat := 8
  const SLASH: Unit := 0x2f
  const DASH: Unit := 0x2d
  const COMMA: Unit := 0x2c
  const BAR: Unit := 0x7c

  // ----- Bounds -------------------------------------------------------------

  datatype Bounds = Bounds(start: nat, end: nat)

  /** `(0xffffffff << bits) >>> 0` */
  function Mask(bits: nat): nat { ToUint32(ToInt32(0xffff_ffff * Pow2(bits))) }

  function CidrBounds(base: nat, prefix: nat): Bounds
    requires prefix <= 32
  {
    var start: nat := ToUint32(BitAnd(base, Mask(32 - prefix)));
    Bounds(start, ToUint32(start + Pow2(32 - prefix) - 1))
  }

  function CidrRange(base: Option<nat>, prefixText: Text): Option<Bounds> {
    if base.None? || !(1 <= |prefixText| <= 2 && AllDigits(prefixText)) then None
    else
      var prefix := Value(prefixText);
      if prefix < MAX_PREFIX || prefix > 32 then None else Some(CidrBounds(base.value, prefix))
  }

  function DashRange(start: Option<nat>, end: Option<nat>): Option<Bounds> {
    if start.None? || end.None? then None
    else if end.value < start.value || end.value - start.value + 1 > MAX_ADDRESSES then None
    else Some(Bounds(start.value, end.value))
  }

  function ParseRangeBounds(raw: Text): Option<Bounds> {
    var s := Trim(raw);
    if s == [] || |s| > 64 then None
    else
      var slash := IndexOf(s, SLASH);
      if slash > 0 then CidrRange(Ipv4ToInt(s[..slash]), s[slash + 1..])
      else
        var dash := IndexOf(s, DASH);
        if dash > 0 then DashRange(Ipv4ToInt(s[..dash]), Ipv4ToInt(s[dash + 1..])) else None
  }

  // ----- The sweep ----------------------------------------------------------

  /** Loopback, link-local, multicast and the rest that is never swept. */
  predicate IsSkippable(n: nat) {
    var a, b := n / 0x100_0000 % 256, n / 0x1_0000 % 256;
    a == 0 || a == 127 || (a == 169 && b == 254) || a >= 224
  }

  /** Never swept: 0.0.0.0/8, 127.0.0.0/8, 169.254.0.0/16 and everything from 224.0.0.0 on. */
  lemma SkippedAre(n: nat)
    requires n < TWO_32
    ensures IsSkippable(n) <==>
              n < 0x100_0000 || 0x7f00_0000 <= n < 0x8000_0000 || 0xa9fe_0000 <= n < 0xa9ff_0000 || 0xe000_0000 <= n
  {
  }

  /** What one turn of the loop yields. */
  function Yielded(n: nat): seq<Text> { if IsSkippable(n) then [] else [IntToIpv4(n)] }

  function Addresses(start: nat, end: int): seq<Text>
    requires end >= -1
    decreases end - start
  {
    if end < start then []
    else Addresses(start, end - 1) + Yielded(end)
  }

  lemma YieldedLast(out: seq<Text>, start: nat, n: nat)
    requires start <= n && out == Addresses(start, n - 1)
    ensures Addresses(start, n) == if IsSkippable(n) then out else out + [IntToIpv4(n)]
  {
  }

  method RangeAddresses(start: nat, end: nat) returns (out: seq<Text>)
    ensures out == Addresses(start, end)
  {
    out := [];
    var n := start;
    while n <= end
      invariant start <= n && (n <= end + 1 || n == start) && out == Addresses(start, n - 1)
    {
      YieldedLast(out, start, n);
      if !IsSkippable(n) { out := out + [IntToIpv4(n)]; }
      n := n + 1;
    }
  }

  // ----- Policy entries -----------------------------------------------------

  /**
   * An entry as it comes. A port is what `Number` makes of it, None when that is not an
   * integer; `sni` is the text of whatever is there, empty when nothing is.
   */
  datatype RawEntry = NotAnObject | RawEntry(range: Option<Text>, ports: Option<seq<Option<int>>>, sni: Text)

  datatype Range = Range(raw: Text, start: nat, end: nat, ports: seq<nat>, sni: Option<Text>)

  predicate IsPort(p: Option<int>) { p.Some? && 1 <= p.value <= 65535 }

  /** The loop of `parsePorts`, from the ports already taken. */
  function PortsFrom(raw: seq<Option<int>>, out: seq<nat>): Option<seq<nat>>
    decreases |raw|
  {
    if raw == [] then Some(out)
    else if !IsPort(raw[0]) then None
    else if raw[0].value in out then PortsFrom(raw[1..], out)
    else if |out| >= MAX_PORTS then None
    else PortsFrom(raw[1..], out + [raw[0].value])
  }

  function PortsOf(raw: Option<seq<Option<int>>>): Option<seq<nat>> {
    if raw.None? || raw.value == [] then None else PortsFrom(raw.value, [])
  }

  method ParsePorts(raw: Option<seq<Option<int>>>) returns (r: Option<seq<nat>>)
    ensures r == PortsOf(raw)
  {
    if raw.None? || raw.value == [] { return None; }
    var out: seq<nat> := [];
    var ports := raw.value;
    for i := 0 to |ports|
      invariant PortsFrom(ports, []) == PortsFrom(ports[i..], out)
      invariant i > 0 ==> out != []
    {
      assert ports[i..][1..] == ports[i + 1..];
      if !IsPort(ports[i]) { return None; }
      if ports[i].value in out { continue; }
      if |out| >= MAX_PORTS { return None; }
      out := out + [ports[i].value];
    }
    return if |out| > 0 then Some(out) else None;
  }

  predicate IsAlnum(c: Unit) { IsDigit(c) || 0x61 <= c <= 0x7a || 0x41 <= c <= 0x5a }

  predicate IsLabel(s: Text) {
    && 1 <= |s| <= 64 && IsAlnum(s[0]) && IsAlnum(s[|s| - 1])
    && forall i :: 0 <= i < |s| ==> IsAlnum(s[i]) || s[i] == DASH
  }

  /** A DNS name of two labels or more. */
  predicate IsSni(s: Text) {
    |SplitOn(s, DOT)| >= 2 && forall i :: 0 <= i < |SplitOn(s, DOT)| ==> IsLabel(SplitOn(s, DOT)[i])
  }

  /** `lower` stands for `toLowerCase`. */
  function ParseSni(lower: Text -> Text, raw: Text): Option<Text> {
    if raw == [] then None
    else
      var s := lower(Trim(raw));
      if |s| > 253 || !IsSni(s) then None else Some(s)
  }

  function ParseProbeRange(lower: Text -> Text, e: RawEntry): Option<Range> {
    if e.NotAnObject? then None
    else
      var text := if e.range.Some? then Trim(e.range.value) else [];
      var bounds :- ParseRangeBounds(text);
      if bounds.end - bounds.start + 1 > MAX_ADDRESSES then None
      else
        var ports :- PortsOf(e.ports);
        Some(Range(text, bounds.start, bounds.end, ports, ParseSni(lower, e.sni)))
  }

  function Somes(ports: seq<nat>): (r: seq<Option<int>>)
    ensures |r| == |ports| && forall i :: 0 <= i < |ports| ==> r[i] == Some(ports[i])
  {
    if ports == [] then [] else [Some(ports[0])] + Somes(ports[1..])
  }

  /** The form in which a range is stored. */
  function Entry(r: Range): RawEntry {
    RawEntry(Some(r.raw), Some(Somes(r.ports)), if r.sni.Some? then r.sni.value else [])
  }

  function JoinPorts(ports: seq<nat>): Text {
    if ports == [] then []
    else if |ports| == 1 then Decimal(ports[0]) else Decimal(ports[0]) + [COMMA] + JoinPorts(ports[1..])
  }

  function Key(r: Range): Text {
    Decimal(r.start) + [DASH] + Decimal(r.end) + [BAR] + JoinPorts(r.ports) + [BAR]
      + (if r.sni.Some? then r.sni.value else [])
  }

  // ----- CIDR masking -------------------------------------------------------

  lemma MaskIs(bits: nat)
    requires bits <= 10
    ensures Mask(bits) == Pow2(32) - Pow2(bits)
  {
    var size := Pow2(bits);
    PowersUsed();
    PowAtMost(bits, 10);
    assert 1 <= size <= 1024;
    var n := 0xffff_ffff * size;
    assert n == TWO_32 * (size - 1) + (TWO_32 - size);
    ModuloIs(n, TWO_32, size - 1, TWO_32 - size);
    var m := ToInt32(n);
    assert m + size == 0;
    assert ToUint32(m) == TWO_32 - size;
  }

  /** Masking gives the aligned block of 2^(32 - prefix) addresses that holds the base. */
  lemma CidrBlock(base: nat, prefix: nat)
    requires base < TWO_32 && MAX_PREFIX <= prefix <= 32
    ensures var b, size := CidrBounds(base, prefix), Pow2(32 - prefix);
            && b.start == base - base % size && b.end == b.start + size - 1
            && b.start <= base <= b.end < TWO_32 && b.start % size == 0
            && 1 <= size <= MAX_ADDRESSES
  {
    var bits := 32 - prefix;
    var size := Pow2(bits);
    PowersUsed();
    PowAtMost(bits, 10);
    MaskIs(bits);
    AndHigh(base, Mask(bits), 32, bits);
    PowSplit(bits, prefix);
    BlockInSpace(base, size, Pow2(prefix));
  }

  /** Whatever the text, a range that parses has at most 1024 addresses. */
  lemma BoundsAreSmall(raw: Text)
    requires ParseRangeBounds(raw).Some?
    ensures var b := ParseRangeBounds(raw).value;
            b.start <= b.end < TWO_32 && b.end - b.start + 1 <= MAX_ADDRESSES
  {
    var s := Trim(raw);
    var slash := IndexOf(s, SLASH);
    if slash > 0 { CidrIsSmall(Ipv4ToInt(s[..slash]), s[slash + 1..]); }
  }

  lemma CidrIsSmall(base: Option<nat>, prefixText: Text)
    requires CidrRange(base, prefixText).Some? && base.value < TWO_32
    ensures var b := CidrRange(base, prefixText).value;
            b.start <= b.end < TWO_32 && b.end - b.start + 1 <= MAX_ADDRESSES
  {
    CidrBlock(base.value, Value(prefixText));
  }

  // ----- Texts of ranges ----------------------------------------------------

  lemma {:induction false} IndexAfter(a: Text, c: Unit, b: Text, s: Text)
    requires c !in a && s == a + ([c] + b)
    ensures IndexOf(s, c) == |a|
  {
    if a != [] {
      assert s[0] == a[0] && s[1..] == a[1..] + ([c] + b);
      IndexAfter(a[1..], c, b, s[1..]);
    }
  }

  /** An address, a separator and a text that ends in a digit are found again. */
  lemma Separated(head: Text, sep: Unit, tail: Text, s: Text)
    requires IsAddressText(head) && !IsDigit(sep) && sep != DOT && s == head + ([sep] + tail)
    requires tail != [] && |tail| <= 15 && IsDigit(tail[|tail| - 1])
    ensures Trim(s) == s && 1 <= |s| <= 64 && IndexOf(s, sep) == |head| > 0
    ensures s[..|head|] == head && s[|head| + 1..] == tail
  {
    assert s[0] == head[0] && s[|s| - 1] == tail[|tail| - 1];
    TrimNothing(s);
    assert sep !in head;
    IndexAfter(head, sep, tail, s);
  }

  /** A CIDR text parses to its block, exactly when the prefix is 22 to 32. */
  lemma CidrText(n: nat, prefix: nat)
    requires n < TWO_32 && prefix < 100
    ensures ParseRangeBounds(IntToIpv4(n) + ([SLASH] + Decimal(prefix))) ==
            if MAX_PREFIX <= prefix <= 32 then Some(CidrBounds(n, prefix)) else None
  {
    var head, tail := IntToIpv4(n), Decimal(prefix);
    DecimalValue(prefix);
    ShortDecimal(prefix);
    Ipv4RoundTrip(n);
    var s := head + ([SLASH] + tail);
    Separated(head, SLASH, tail, s);
    ParsesAsCidr(head, tail, s);
  }

  lemma ParsesAsCidr(head: Text, tail: Text, s: Text)
    requires Trim(s) == s && 1 <= |s| <= 64 && IndexOf(s, SLASH) == |head| > 0
    requires s[..|head|] == head && s[|head| + 1..] == tail
    ensures ParseRangeBounds(s) == CidrRange(Ipv4ToInt(head), tail)
  {
  }

  /** A text of two addresses parses exactly when they are in order and span at most 1024. */
  lemma DashText(a: nat, b: nat)
    requires a < TWO_32 && b < TWO_32
    ensures ParseRangeBounds(IntToIpv4(a) + ([DASH] + IntToIpv4(b))) ==
            if a <= b && b - a + 1 <= MAX_ADDRESSES then Some(Bounds(a, b)) else None
  {
    var head, tail := IntToIpv4(a), IntToIpv4(b);
    Ipv4RoundTrip(a);
    Ipv4RoundTrip(b);
    var s := head + ([DASH] + tail);
    Separated(head, DASH, tail, s);
    NoSlash(head, tail, s);
    ParsesAsDash(head, tail, s);
  }

  /** A single address is no range. */
  lemma BareAddress(n: nat)
    requires n < TWO_32
    ensures ParseRangeBounds(IntToIpv4(n)) == None
  {
    var s := IntToIpv4(n);
    Ipv4RoundTrip(n);
    assert SLASH !in s && DASH !in s;
    TrimNothing(s);
  }

  lemma ParsesAsDash(head: Text, tail: Text, s: Text)
    requires Trim(s) == s && 1 <= |s| <= 64 && IndexOf(s, SLASH) < 0 && IndexOf(s, DASH) == |head| > 0
    requires s[..|head|] == head && s[|head| + 1..] == tail
    ensures ParseRangeBounds(s) == DashRange(Ipv4ToInt(head), Ipv4ToInt(tail))
  {
  }

  lemma NoSlash(a: Text, b: Text, s: Text)
    requires IsAddressText(a) && IsAddressText(b) && s == a + ([DASH] + b)
    ensures IndexOf(s, SLASH) == -1
  {
    assert forall i :: 0 <= i < |s| ==> s[i] != SLASH;
    assert SLASH !in s;
  }

  // ----- The sweep ----------------------------------------------------------

  /** The numbers of a range that are not excluded. */
  ghost function Swept(start: nat, end: int): seq<nat>
    requires end >= -1
    decreases end - start
  {
    if end < start then [] else Swept(start, end - 1) + (if IsSkippable(end) then [] else [end])
  }

  lemma {:induction false} SweptIsExact(start: nat, end: int)
    requires end >= -1
    ensures forall i, j :: 0 <= i < j < |Swept(start, end)| ==> Swept(start, end)[i] < Swept(start, end)[j]
    ensures forall n: nat :: n in Swept(start, end) <==> start <= n <= end && !IsSkippable(n)
    decreases end - start
  {
    if start <= end {
      SweptIsExact(start, end - 1);
      var before, ns := Swept(start, end - 1), Swept(start, end);
      forall n: nat ensures n in ns <==> start <= n <= end && !IsSkippable(n) {
        assert n in ns <==> n in before || (!IsSkippable(end) && n == end);
      }
      assert forall i :: 0 <= i < |before| ==> before[i] in before;
    }
  }

  lemma {:induction false} AddressesAre(start: nat, end: int)
    requires end >= -1
    ensures |Addresses(start, end)| == |Swept(start, end)|
    ensures forall i :: 0 <= i < |Swept(start, end)| ==> Addresses(start, end)[i] == IntToIpv4(Swept(start, end)[i])
    decreases end - start
  {
    if start <= end { AddressesAre(start, end - 1); }
  }

  predicate Denotes(text: Text, n: nat) { Ipv4ToInt(text) == Some(n) }

  /**
   * The sweep gives each address that is not excluded once, in increasing order, and
   * no other: its texts denote exactly those numbers.
   */
  lemma SweepIsExact(start: nat, end: nat) returns (ns: seq<nat>)
    requires end < TWO_32
    ensures |ns| == |Addresses(start, end)|
    ensures forall i :: 0 <= i < |ns| ==> Denotes(Addresses(start, end)[i], ns[i])
    ensures forall i, j :: 0 <= i < j < |ns| ==> ns[i] < ns[j]
    ensures forall n: nat :: n in ns <==> start <= n <= end && !IsSkippable(n)
  {
    ns := Swept(start, end);
    SweptIsExact(start, end);
    AddressesAre(start, end);
    forall i | 0 <= i < |ns| ensures Denotes(Addresses(start, end)[i], ns[i]) {
      assert ns[i] in ns;
      Ipv4RoundTrip(ns[i]);
    }
  }
}
