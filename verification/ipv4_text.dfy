/** Dotted IPv4 addresses and the numbers they stand for (`src/domain/probe-range.ts`). */
module Ipv4Text {
  import opened Js

  const DOT: Unit := 0x2e

  predicate IsDigit(c: Unit) { 0x30 <= c <= 0x39 }

  predicate AllDigits(s: Text) { forall i :: 0 <= i < |s| ==> IsDigit(s[i]) }

  function Value(digits: Text): nat
    requires AllDigits(digits)
  {
    if digits == [] then 0 else Value(digits[..|digits| - 1]) * 10 + (digits[|digits| - 1] - 0x30)
  }

  /** The decimal text of a number. */
  function Decimal(n: nat): (r: Text)
    ensures r != [] && AllDigits(r)
  {
    if n < 10 then [0x30 + n] else Decimal(n / 10) + [0x30 + n % 10]
  }

  /** The parts of a text between separators. */
  function SplitOn(s: Text, c: Unit): (r: seq<Text>)
    ensures r != []
  {
    if s == [] then [[]]
    else
      var rest := SplitOn(s[1..], c);
      if s[0] == c then [[]] + rest else [[s[0]] + rest[0]] + rest[1..]
  }

  /** One to three digits. */
  predicate IsOctetText(s: Text) { 1 <= |s| <= 3 && AllDigits(s) }

  predicate AreOctets(parts: seq<Text>) { forall i :: 0 <= i < |parts| ==> IsOctetText(parts[i]) }

  /** One turn of the loop over the octets. */
  function WithOctet(high: Option<nat>, o: nat): Option<nat> {
    if high.None? || o > 255 then None else Some(high.value * 256 + o)
  }

  function Octets(parts: seq<Text>): Option<nat>
    requires AreOctets(parts)
  {
    if parts == [] then Some(0)
    else
      var last := parts[|parts| - 1];
      assert IsOctetText(last);
      WithOctet(Octets(parts[..|parts| - 1]), Value(last))
  }

  function Quad(parts: seq<Text>): Option<nat> {
    if |parts| != 4 || !AreOctets(parts) then None
    else
      var n :- Octets(parts);
      Some(ToUint32(n))
  }

  function Ipv4ToInt(s: Text): (r: Option<nat>)
    ensures r.Some? ==> r.value < TWO_32
  {
    Quad(SplitOn(Trim(s), DOT))
  }

  method ParseIpv4(s: Text) returns (r: Option<nat>)
    ensures r == Ipv4ToInt(s)
  {
    var parts := SplitOn(Trim(s), DOT);
    if |parts| != 4 || !AreOctets(parts) { return None; }
    var out: nat := 0;
    for i := 0 to 4
      invariant Octets(parts[..i]) == Some(out)
    {
      assert IsOctetText(parts[i]);
      OctetsAppend(parts[..i], parts[i]);
      assert parts[..i] + [parts[i]] == parts[..i + 1];
      var o := Value(parts[i]);
      if o > 255 {
        OctetsFail(parts, i + 1);
        return None;
      }
      out := out * 256 + o;
    }
    assert parts[..4] == parts;
    return Some(ToUint32(out));
  }

  function IntToIpv4(n: int): Text {
    var v := ToUint32(n);
    Dotted(Decimal(v / 0x100_0000 % 256), Decimal(v / 0x1_0000 % 256), Decimal(v / 0x100 % 256), Decimal(v % 256))
  }

  function Dotted(a: Text, b: Text, c: Text, d: Text): Text {
    a + ([DOT] + (b + ([DOT] + (c + ([DOT] + d)))))
  }

  // ----- Octets -------------------------------------------------------------

  lemma OctetsAppend(parts: seq<Text>, last: Text)
    requires AreOctets(parts) && IsOctetText(last)
    ensures AreOctets(parts + [last])
    ensures Octets(parts + [last]) == WithOctet(Octets(parts), Value(last))
  {
    var all := parts + [last];
    assert AreOctets(all) && all != [];
    assert all[..|all| - 1] == parts;
    assert all[|all| - 1] == last;
  }

  /** Once an octet is too large the whole is refused. */
  lemma {:induction false} OctetsFail(parts: seq<Text>, i: nat)
    requires AreOctets(parts) && i <= |parts| && AreOctets(parts[..i]) && Octets(parts[..i]).None?
    ensures Octets(parts).None?
    decreases |parts| - i
  {
    if i == |parts| {
      assert parts[..i] == parts;
    } else {
      assert IsOctetText(parts[i]);
      OctetsAppend(parts[..i], parts[i]);
      assert parts[..i] + [parts[i]] == parts[..i + 1];
      OctetsFail(parts, i + 1);
    }
  }

  predicate IsSmallOctet(s: Text) { IsOctetText(s) && Value(s) <= 255 }

  function FromOctets(a: nat, b: nat, c: nat, d: nat): nat { ((a * 256 + b) * 256 + c) * 256 + d }

  lemma FourTurns(a: nat, b: nat, c: nat, d: nat)
    requires a < 256 && b < 256 && c < 256 && d < 256
    ensures WithOctet(WithOctet(WithOctet(WithOctet(Some(0), a), b), c), d) == Some(FromOctets(a, b, c, d))
    ensures FromOctets(a, b, c, d) < TWO_32
  {
  }

  lemma FourOctets(a: Text, b: Text, c: Text, d: Text)
    requires IsSmallOctet(a) && IsSmallOctet(b) && IsSmallOctet(c) && IsSmallOctet(d)
    ensures AreOctets([a, b, c, d])
    ensures Octets([a, b, c, d]) == Some(FromOctets(Value(a), Value(b), Value(c), Value(d)))
  {
    var one, two, three := [a], [a, b], [a, b, c];
    assert one == [] + [a] && two == one + [b] && three == two + [c] && [a, b, c, d] == three + [d];
    OctetsAppend([], a);
    OctetsAppend(one, b);
    OctetsAppend(two, c);
    OctetsAppend(three, d);
    FourTurns(Value(a), Value(b), Value(c), Value(d));
  }

  // ----- Decimal texts ------------------------------------------------------

  lemma ValueAppend(s: Text, c: Unit)
    requires AllDigits(s) && IsDigit(c)
    ensures AllDigits(s + [c]) && Value(s + [c]) == Value(s) * 10 + (c - 0x30)
  {
    var all := s + [c];
    assert all[..|all| - 1] == s && all[|all| - 1] == c;
  }

  lemma {:induction false} DecimalValue(n: nat)
    ensures Value(Decimal(n)) == n
  {
    if n >= 10 {
      DecimalValue(n / 10);
      ValueAppend(Decimal(n / 10), 0x30 + n % 10);
    } else {
      ValueAppend([], 0x30 + n);
      assert [] + [0x30 + n] == Decimal(n);
    }
  }

  lemma ShortDecimal(n: nat)
    ensures n < 100 ==> |Decimal(n)| <= 2
    ensures n < 1000 ==> |Decimal(n)| <= 3
  {
    if n >= 10 { assert n < 100 ==> n / 10 < 10; }
    if n >= 100 { assert n < 1000 ==> n / 10 / 10 < 10; }
  }

  lemma OctetDecimal(n: nat)
    requires n < 256
    ensures IsSmallOctet(Decimal(n)) && Value(Decimal(n)) == n
  {
    DecimalValue(n);
    ShortDecimal(n);
  }

  // ----- Dotted texts -------------------------------------------------------

  lemma {:induction false} SplitNone(s: Text, c: Unit)
    requires c !in s
    ensures SplitOn(s, c) == [s]
  {
    if s != [] {
      SplitNone(s[1..], c);
      assert [s[0]] + s[1..] == s;
    }
  }

  lemma {:induction false} SplitField(field: Text, c: Unit, rest: Text, s: Text)
    requires c !in field && s == field + ([c] + rest)
    ensures SplitOn(s, c) == [field] + SplitOn(rest, c)
  {
    if field == [] {
      assert s == [c] + rest && s[1..] == rest;
    } else {
      assert s[0] == field[0] && s[1..] == field[1..] + ([c] + rest);
      SplitField(field[1..], c, rest, s[1..]);
      var parts := SplitOn(rest, c);
      assert [field[0]] + field[1..] == field;
      assert ([field[1..]] + parts)[1..] == parts;
    }
  }

  predicate IsAddressText(s: Text) {
    && 1 <= |s| <= 15 && IsDigit(s[0]) && IsDigit(s[|s| - 1])
    && forall i :: 0 <= i < |s| ==> IsDigit(s[i]) || s[i] == DOT
  }

  lemma DottedIsAddress(a: Text, b: Text, c: Text, d: Text)
    requires IsOctetText(a) && IsOctetText(b) && IsOctetText(c) && IsOctetText(d)
    ensures IsAddressText(Dotted(a, b, c, d))
  {
    var s := Dotted(a, b, c, d);
    assert s[0] == a[0] && s[|s| - 1] == d[|d| - 1];
  }

  lemma DottedSplits(a: Text, b: Text, c: Text, d: Text)
    requires IsOctetText(a) && IsOctetText(b) && IsOctetText(c) && IsOctetText(d)
    ensures SplitOn(Dotted(a, b, c, d), DOT) == [a, b, c, d]
  {
    var s3 := c + ([DOT] + d);
    var s2 := b + ([DOT] + s3);
    SplitNone(d, DOT);
    SplitField(c, DOT, d, s3);
    SplitField(b, DOT, s3, s2);
    SplitField(a, DOT, s2, Dotted(a, b, c, d));
    Listed(a, b, c, d);
  }

  lemma Listed(a: Text, b: Text, c: Text, d: Text)
    ensures [a] + ([b] + ([c] + [d])) == [a, b, c, d]
  {
  }

  lemma TrimNothing(s: Text)
    requires s == [] || (!IsSpace(s[0]) && !IsSpace(s[|s| - 1]))
    ensures Trim(s) == s
  {
  }

  lemma QuadValue(v: nat)
    requires v < TWO_32
    ensures FromOctets(v / 0x100_0000 % 256, v / 0x1_0000 % 256, v / 0x100 % 256, v % 256) == v
  {
    assert v / 0x1_0000 == v / 0x100 / 256 && v / 0x100_0000 == v / 0x1_0000 / 256;
    assert v / 0x100_0000 < 256;
  }

  /** The address text of four octets is read as their number. */
  lemma DottedReads(a: Text, b: Text, c: Text, d: Text, s: Text)
    requires IsSmallOctet(a) && IsSmallOctet(b) && IsSmallOctet(c) && IsSmallOctet(d)
    requires s == Dotted(a, b, c, d)
    ensures IsAddressText(s)
    ensures Ipv4ToInt(s) == Some(FromOctets(Value(a), Value(b), Value(c), Value(d)))
  {
    DottedIsAddress(a, b, c, d);
    DottedSplits(a, b, c, d);
    FourOctets(a, b, c, d);
    TrimNothing(s);
  }

  /** Every number comes back from its text, brought to 32 bits. */
  lemma Ipv4RoundTrip(n: int)
    ensures IsAddressText(IntToIpv4(n))
    ensures Ipv4ToInt(IntToIpv4(n)) == Some(ToUint32(n))
  {
    var v := ToUint32(n);
    var a, b, c, d := v / 0x100_0000 % 256, v / 0x1_0000 % 256, v / 0x100 % 256, v % 256;
    OctetDecimal(a);
    OctetDecimal(b);
    OctetDecimal(c);
    OctetDecimal(d);
    DottedReads(Decimal(a), Decimal(b), Decimal(c), Decimal(d), IntToIpv4(n));
    QuadValue(v);
  }
}
