/** What the DER reader recovers of what was written, inside any surrounding bytes. */
module DerRoundTrip {
  import opened Js
  import opened Der

  // ----- Lengths ------------------------------------------------------------

  /** The signed fold of the reader undoes the unsigned loop of the writer up to the sign of bit 31. */
  lemma {:induction false} LengthOctetsReadBack(n: nat)
    ensures DeclaredLength(LengthOctets(n)) == ToInt32(n)
    decreases n
  {
    if n > 0 {
      var high := ToUint32(n) / 256;
      LengthOctetsReadBack(high);
      JoinedReadBack(n, high, LengthOctets(high), LengthOctets(n));
    }
  }

  lemma JoinedReadBack(n: nat, high: nat, octets: Bytes, all: Bytes)
    requires high == ToUint32(n) / 256 && all == octets + [n % 256] && DeclaredLength(octets) == ToInt32(high)
    ensures DeclaredLength(all) == ToInt32(n)
  {
    OneMoreOctet(octets, n % 256, all);
    LowOctet(n, high);
  }

  lemma OneMoreOctet(octets: Bytes, low: Byte, all: Bytes)
    requires all == octets + [low]
    ensures DeclaredLength(all) == ToInt32(DeclaredLength(octets) * 256 + low)
  {
    assert all[..|all| - 1] == octets && all[|all| - 1] == low;
  }

  lemma LowOctet(n: nat, high: nat)
    requires high == ToUint32(n) / 256
    ensures ToInt32(ToInt32(high) * 256 + n % 256) == ToInt32(n)
  {
    assert high < TWO_31 && ToInt32(high) == high;
    assert high * 256 + n % 256 == ToUint32(n);
    assert ToUint32(n) % TWO_32 == n % TWO_32;
  }

  // ----- One TLV in a buffer ------------------------------------------------

  /** `b` is one TLV and nothing else. Its length field need not be minimal. */
  predicate IsTlv(b: Bytes) {
    var t := TlvAt(b, 0);
    t.Some? && t.value.end == |b|
  }

  function Content(b: Bytes): Bytes
    requires IsTlv(b)
  {
    b[TlvAt(b, 0).value.start..]
  }

  predicate Embeds(buf: Bytes, at: int, b: Bytes) {
    0 <= at && at + |b| <= |buf| && buf[at..at + |b|] == b
  }

  /** `t` is what reading `b` at its place in `buf` gives. */
  predicate Reads(buf: Bytes, t: Item, b: Bytes) {
    IsTlv(b) && Embeds(buf, t.offset, b) && t == Shifted(TlvAt(b, 0).value, t.offset)
  }

  function Shifted(t: Item, n: int): Item {
    t.(offset := t.offset + n, start := t.start + n, end := t.end + n)
  }

  lemma EmbedsPart(buf: Bytes, at: int, pre: Bytes, b: Bytes, post: Bytes)
    requires Embeds(buf, at, pre + b + post)
    ensures Embeds(buf, at + |pre|, b)
  {
    var whole := pre + b + post;
    forall i | 0 <= i < |b| ensures buf[at + |pre| + i] == b[i] {
      assert buf[at..at + |whole|][|pre| + i] == whole[|pre| + i];
    }
    assert buf[at + |pre|..at + |pre| + |b|] == b;
  }

  lemma TlvInside(buf: Bytes, at: int, b: Bytes)
    requires IsTlv(b) && Embeds(buf, at, b)
    ensures TlvAt(buf, at) == Some(Shifted(TlvAt(b, 0).value, at))
    ensures Reads(buf, TlvAt(buf, at).value, b)
  {
    assert forall i :: 0 <= i < |b| ==> b[i] == buf[at..at + |b|][i] == buf[at + i];
    var first := b[1];
    if first >= 0x80 {
      var n := first - 0x80;
      assert b[2..2 + n] == buf[at + 2..at + 2 + n];
    }
  }

  lemma RawAndContent(buf: Bytes, t: Item, b: Bytes)
    requires Reads(buf, t, b)
    ensures RawOf(buf, t) == b && ContentOf(buf, t) == Content(b) && t.tag == b[0]
    ensures Embeds(buf, t.start, Content(b)) && t.end == t.start + |Content(b)|
    ensures 0 <= t.offset < t.start <= t.end <= |buf|
  {
    var inner := TlvAt(b, 0).value;
    assert buf[t.offset..t.end] == b;
    assert b[..inner.start] + Content(b) + [] == b;
    EmbedsPart(buf, t.offset, b[..inner.start], Content(b), []);
  }

  /** What the reader makes of a written header: the length up to the sign of bit 31. */
  lemma HeaderRead(tag: Byte, content: Bytes)
    requires tag % 32 != 31
    ensures var start := 1 + |LengthField(|content|)|;
            TlvAt(Tlv(tag, content), 0) == Bounded(Tlv(tag, content), tag, 0, start, ToInt32(|content|))
  {
    var b := Tlv(tag, content);
    assert b[0] == tag && |b| >= 2;
    if |content| < 0x80 {
      assert b[1] == |content| == ToInt32(|content|);
    } else {
      LongHeaderRead(b, tag, LengthOctets(|content|), content);
      LengthOctetsReadBack(|content|);
    }
  }

  lemma LongHeaderRead(b: Bytes, tag: Byte, octets: Bytes, content: Bytes)
    requires tag % 32 != 31 && 1 <= |octets| <= 4 && b == [tag] + ([0x80 + |octets|] + octets) + content
    ensures TlvAt(b, 0) == Bounded(b, tag, 0, 2 + |octets|, DeclaredLength(octets))
  {
    HeaderParts(b, tag, octets, content);
  }

  lemma HeaderParts(b: Bytes, tag: Byte, octets: Bytes, content: Bytes)
    requires |octets| <= 4 && b == [tag] + ([0x80 + |octets|] + octets) + content
    ensures |b| >= 2 + |octets| && b[0] == tag && b[1] == 0x80 + |octets| && Octets(b, 2, |octets|) == octets
  {
    assert b == [tag, 0x80 + |octets|] + (octets + content);
  }

  /** The writer and the reader agree exactly on single-byte tags and contents below 2^31 octets. */
  lemma WrittenIsTlv(tag: Byte, content: Bytes)
    ensures IsTlv(Tlv(tag, content)) <==> tag % 32 != 31 && |content| < TWO_31
    ensures IsTlv(Tlv(tag, content)) ==> Content(Tlv(tag, content)) == content && Tlv(tag, content)[0] == tag
  {
    if tag % 32 != 31 {
      var b, start := Tlv(tag, content), 1 + |LengthField(|content|)|;
      HeaderRead(tag, content);
      assert |b| == start + |content| && b[start..] == content;
      assert |content| >= TWO_31 ==> ToInt32(|content|) != |content|;
    }
  }

  // ----- A list of TLVs -----------------------------------------------------

  predicate AllTlv(parts: seq<Bytes>) {
    forall i :: 0 <= i < |parts| ==> IsTlv(parts[i])
  }

  /** The children of a constructed TLV, when they start at `at`. */
  function Located(parts: seq<Bytes>, at: int): (r: seq<Item>)
    requires AllTlv(parts)
    ensures |r| == |parts|
  {
    if parts == [] then []
    else [Shifted(TlvAt(parts[0], 0).value, at)] + Located(parts[1..], at + |parts[0]|)
  }

  /** The first part of an embedded list, and where the others begin. */
  lemma HeadInside(buf: Bytes, parts: seq<Bytes>, at: int)
    requires parts != [] && IsTlv(parts[0]) && Embeds(buf, at, Concat(parts))
    ensures TlvAt(buf, at) == Some(Shifted(TlvAt(parts[0], 0).value, at))
    ensures TlvAt(buf, at).value.end == at + |parts[0]| && 0 <= at < at + |parts[0]|
    ensures Reads(buf, TlvAt(buf, at).value, parts[0])
    ensures Embeds(buf, at + |parts[0]|, Concat(parts[1..]))
  {
    assert Concat(parts) == [] + parts[0] + Concat(parts[1..]);
    EmbedsPart(buf, at, [], parts[0], Concat(parts[1..]));
    TlvInside(buf, at, parts[0]);
    assert Concat(parts) == parts[0] + Concat(parts[1..]) + [];
    EmbedsPart(buf, at, parts[0], Concat(parts[1..]), []);
  }

  lemma {:induction false} LocatedReads(buf: Bytes, parts: seq<Bytes>, at: int)
    requires AllTlv(parts) && Embeds(buf, at, Concat(parts))
    ensures forall i :: 0 <= i < |parts| ==> Reads(buf, Located(parts, at)[i], parts[i])
  {
    if parts != [] {
      HeadInside(buf, parts, at);
      LocatedReads(buf, parts[1..], at + |parts[0]|);
    }
  }

  lemma {:induction false} LocatedOffset(parts: seq<Bytes>, at: int, k: nat)
    requires AllTlv(parts) && k < |parts|
    ensures Located(parts, at)[k].offset == at + |Concat(parts[..k])|
  {
    if k > 0 {
      assert parts[..k][0] == parts[0] && parts[..k][1..] == parts[1..][..k - 1];
      LocatedOffset(parts[1..], at + |parts[0]|, k - 1);
    }
  }

  lemma WalkStep(buf: Bytes, p: int, next: int, end: int, visited: set<int>, t: Item, rest: seq<Item>)
    requires p < next <= end && p !in visited && TlvAt(buf, p) == Some(t) && t.end == next
    requires Walk(buf, next, end, visited + {p}) == Done(rest)
    ensures Walk(buf, p, end, visited) == Done([t] + rest)
  {
  }

  /** The first part of an embedded list as one step of the loop. */
  lemma HeadStep(buf: Bytes, parts: seq<Bytes>, at: int) returns (t: Item, rest: seq<Bytes>, next: int)
    requires parts != [] && AllTlv(parts) && Embeds(buf, at, Concat(parts))
    ensures TlvAt(buf, at) == Some(t) && t == Shifted(TlvAt(parts[0], 0).value, at) && at < next == t.end
    ensures rest == parts[1..] && next == at + |parts[0]| && next + |Concat(rest)| == at + |Concat(parts)|
    ensures AllTlv(rest) && Embeds(buf, next, Concat(rest))
  {
    HeadInside(buf, parts, at);
    t, rest, next := TlvAt(buf, at).value, parts[1..], at + |parts[0]|;
  }

  lemma {:induction false} WalkLocated(buf: Bytes, parts: seq<Bytes>, at: int, end: int, visited: set<int>)
    requires AllTlv(parts) && Embeds(buf, at, Concat(parts)) && end == at + |Concat(parts)|
    requires forall v :: v in visited ==> v < at
    ensures Walk(buf, at, end, visited) == Done(Located(parts, at))
    decreases |parts|
  {
    if parts == [] {
    } else {
      var t, rest, next := HeadStep(buf, parts, at);
      WalkLocated(buf, rest, next, end, visited + {at});
      WalkStep(buf, at, next, end, visited, t, Located(rest, next));
    }
  }

  /** `children` of a TLV whose content is a list of TLVs recovers exactly that list. */
  lemma ChildrenRecovered(buf: Bytes, t: Item, b: Bytes, parts: seq<Bytes>) returns (kids: seq<Item>)
    requires Reads(buf, t, b) && AllTlv(parts) && Content(b) == Concat(parts)
    ensures ChildrenOf(buf, t) == Done(kids) && |kids| == |parts|
    ensures forall i :: 0 <= i < |kids| ==> Reads(buf, kids[i], parts[i])
    ensures forall i :: 0 <= i < |kids| ==> kids[i].offset == t.start + |Concat(parts[..i])|
  {
    RawAndContent(buf, t, b);
    WalkLocated(buf, parts, t.start, t.end, {});
    LocatedReads(buf, parts, t.start);
    kids := Located(parts, t.start);
    forall i | 0 <= i < |kids| ensures kids[i].offset == t.start + |Concat(parts[..i])| {
      LocatedOffset(parts, t.start, i);
    }
  }

  // ----- Any nesting --------------------------------------------------------

  datatype Node = Primitive(tag: Byte, content: Bytes) | Constructed(tag: Byte, kids: seq<Node>)

  function Encode(n: Node): Bytes {
    match n
    case Primitive(tag, content) => Tlv(tag, content)
    case Constructed(tag, kids) => Tlv(tag, Concat(EncodeAll(kids)))
  }

  function EncodeAll(ns: seq<Node>): (r: seq<Bytes>)
    ensures |r| == |ns| && forall i :: 0 <= i < |ns| ==> r[i] == Encode(ns[i])
  {
    if ns == [] then [] else [Encode(ns[0])] + EncodeAll(ns[1..])
  }

  predicate Readable(n: Node) {
    && IsTlv(Encode(n))
    && (n.Constructed? ==> forall k :: k in n.kids ==> Readable(k))
  }

  /** Reading at `t` gives back the tag, the bytes and, below, every child of `n`. */
  predicate Recovers(buf: Bytes, t: Item, n: Node)
    decreases n
  {
    && t.tag == n.tag
    && RawOf(buf, t) == Encode(n)
    && match n
       case Primitive(_, content) => ContentOf(buf, t) == content
       case Constructed(_, kids) =>
         && ChildrenOf(buf, t).Done?
         && |ChildrenOf(buf, t).value| == |kids|
         && forall i :: 0 <= i < |kids| ==> Recovers(buf, ChildrenOf(buf, t).value[i], kids[i])
  }

  lemma {:induction false} NestingRecovered(buf: Bytes, t: Item, n: Node)
    requires Readable(n) && Reads(buf, t, Encode(n))
    ensures Recovers(buf, t, n)
    decreases n
  {
    RawAndContent(buf, t, Encode(n));
    match n
    case Primitive(tag, content) => WrittenIsTlv(tag, content);
    case Constructed(tag, kids) =>
      var parts := EncodeAll(kids);
      WrittenIsTlv(tag, Concat(parts));
      forall i | 0 <= i < |parts| ensures IsTlv(parts[i]) {
        assert kids[i] in kids;
      }
      var found := ChildrenRecovered(buf, t, Encode(n), parts);
      forall i | 0 <= i < |kids| ensures Recovers(buf, found[i], kids[i]) {
        assert kids[i] in kids;
        NestingRecovered(buf, found[i], kids[i]);
      }
  }

  /** Any nesting of `tlv`, `seq` and `set`, read at its place among any other bytes. */
  lemma RoundTrip(pre: Bytes, n: Node, post: Bytes)
    requires Readable(n)
    ensures TlvAt(pre + Encode(n) + post, |pre|).Some?
    ensures Recovers(pre + Encode(n) + post, TlvAt(pre + Encode(n) + post, |pre|).value, n)
  {
    var buf := pre + Encode(n) + post;
    assert buf[0..|buf|] == buf;
    EmbedsPart(buf, 0, pre, Encode(n), post);
    TlvInside(buf, |pre|, Encode(n));
    NestingRecovered(buf, TlvAt(buf, |pre|).value, n);
  }

  /** `Readable` asks no more than single-byte tags and lengths below 2^31, level by level. */
  lemma ReadableExactly(n: Node)
    ensures Readable(n) <==>
              && n.tag % 32 != 31
              && (n.Primitive? ==> |n.content| < TWO_31)
              && (n.Constructed? ==> |Concat(EncodeAll(n.kids))| < TWO_31 && forall k :: k in n.kids ==> Readable(k))
  {
    match n
    case Primitive(tag, content) => WrittenIsTlv(tag, content);
    case Constructed(tag, kids) => WrittenIsTlv(tag, Concat(EncodeAll(kids)));
  }

  // ----- Arbitrary bytes ----------------------------------------------------

  /** The unsigned number that octets stand for, the first one highest. */
  function BigEndian(octets: Bytes): nat {
    if octets == [] then 0 else BigEndian(octets[..|octets| - 1]) * 256 + octets[|octets| - 1]
  }

  /** A declared length is that number as a signed 32-bit integer. */
  lemma {:induction false} DeclaredIsSigned(octets: Bytes)
    ensures DeclaredLength(octets) == ToInt32(BigEndian(octets))
  {
    if octets == [] {
    } else {
      var init, last := octets[..|octets| - 1], octets[|octets| - 1];
      DeclaredIsSigned(init);
      SignedFold(BigEndian(init), last);
    }
  }

  lemma SignedFold(n: nat, low: Byte)
    ensures ToInt32(ToInt32(n) * 256 + low) == ToInt32(n * 256 + low)
  {
    var k := n / TWO_32;
    assert n == TWO_32 * k + n % TWO_32;
    SameModulo(n * 256 + low, ToInt32(n) * 256 + low, if n % TWO_32 < TWO_31 then 256 * k else 256 * (k + 1));
  }

  lemma SameModulo(a: int, b: int, k: int)
    requires a == b + TWO_32 * k
    ensures ToInt32(a) == ToInt32(b)
  {
    assert a % TWO_32 == b % TWO_32;
  }

  /** A length is written in as few octets as hold it. */
  lemma {:induction false} WrittenIsMinimal(n: nat)
    requires n < TWO_32
    ensures BigEndian(LengthOctets(n)) == n && (n > 0 ==> LengthOctets(n)[0] != 0)
    decreases n
  {
    if n > 0 {
      var octets, high := LengthOctets(n), LengthOctets(n / 256);
      WrittenIsMinimal(n / 256);
      assert octets == high + [n % 256];
      assert octets[..|octets| - 1] == high;
    }
  }

  /** A length in one octet below 128, or the count of one to four octets that hold it. */
  predicate IsLengthField(field: Bytes, length: int) {
    && field != []
    && if field[0] < 0x80 then |field| == 1 && length == field[0]
       else 1 <= |field| - 1 <= 4 && field[0] == 0x80 + |field| - 1 && length == ToInt32(BigEndian(field[1..]))
  }

  /** `t` begins at `offset` with a tag of one octet and a length field, and the buffer holds what it declares. */
  predicate IsAt(buf: Bytes, offset: int, t: Item, field: Bytes) {
    && t.offset == offset && 0 <= offset < |buf| && t.tag == buf[offset] && t.tag % 32 != 31
    && Embeds(buf, offset + 1, field) && IsLengthField(field, t.length)
    && t.start == offset + 1 + |field| && t.end == t.start + t.length <= |buf|
  }

  lemma ReadIsAt(buf: Bytes, offset: int) returns (field: Bytes)
    requires TlvAt(buf, offset).Some?
    ensures IsAt(buf, offset, TlvAt(buf, offset).value, field)
  {
    var first := buf[offset + 1];
    var n := if first < 0x80 then 0 else first - 0x80;
    field := buf[offset + 1..offset + 2 + n];
    assert field[1..] == Octets(buf, offset + 2, n);
    DeclaredIsSigned(Octets(buf, offset + 2, n));
  }

  lemma AtIsRead(buf: Bytes, offset: int, t: Item, field: Bytes)
    requires IsAt(buf, offset, t, field)
    ensures TlvAt(buf, offset) == Some(t)
  {
    assert buf[offset + 1] == field[0];
    if field[0] >= 0x80 {
      assert field[1..] == Octets(buf, offset + 2, |field| - 1);
      DeclaredIsSigned(field[1..]);
    }
  }

  /**
   * What is read at any offset of any bytes: exactly the TLVs with a single-octet tag and
   * a definite length of at most four octets, taken as a signed number.
   */
  lemma ReadExactly(buf: Bytes, offset: int, t: Item)
    ensures TlvAt(buf, offset) == Some(t) <==> exists field :: IsAt(buf, offset, t, field)
  {
    if TlvAt(buf, offset) == Some(t) { var field := ReadIsAt(buf, offset); }
    if field :| IsAt(buf, offset, t, field) { AtIsRead(buf, offset, t, field); }
  }

  /** Every TLV met from `p` on, up to the first that cannot be read, ends after it starts. */
  predicate MetPlain(buf: Bytes, p: int, end: int)
    decreases |buf| - p
  {
    || p >= end || TlvAt(buf, p).None?
    || (TlvAt(buf, p).value.end > p && MetPlain(buf, TlvAt(buf, p).value.end, end))
  }

  /** One after another from `from` on, without gaps, none going back. */
  predicate Advances(ts: seq<Item>, from: int, limit: int) {
    && (ts != [] ==> ts[0].offset == from)
    && (forall i :: 0 <= i < |ts| ==> ts[i].offset < ts[i].end <= limit)
    && (forall i :: 0 < i < |ts| ==> ts[i].offset == ts[i - 1].end)
  }

  lemma AdvancesFirst(t: Item, rest: seq<Item>, limit: int)
    ensures Advances([t] + rest, t.offset, limit) <==> t.offset < t.end <= limit && Advances(rest, t.end, limit)
  {
    var ts := [t] + rest;
    if Advances(ts, t.offset, limit) {
      assert ts[0] == t && (rest != [] ==> ts[1] == rest[0]);
      forall i | 0 <= i < |rest| ensures rest[i].offset < rest[i].end <= limit {
        assert ts[i + 1] == rest[i];
      }
      forall i | 0 < i < |rest| ensures rest[i].offset == rest[i - 1].end {
        assert ts[i + 1] == rest[i] && ts[i] == rest[i - 1];
      }
    }
  }

  lemma {:induction false} WalkAdvances(buf: Bytes, p: int, end: int, visited: set<int>)
    requires forall v :: v in visited ==> v < p
    ensures MetPlain(buf, p, end) <==>
            Walk(buf, p, end, visited).Done? && Advances(Walk(buf, p, end, visited).value, p, |buf|)
    decreases |buf| - p
  {
    if p < end && TlvAt(buf, p).Some? {
      var t := TlvAt(buf, p).value;
      if t.end > p {
        WalkAdvances(buf, t.end, end, visited + {p});
        if Walk(buf, t.end, end, visited + {p}).Done? {
          AdvancesFirst(t, Walk(buf, t.end, end, visited + {p}).value, |buf|);
        }
      } else if Walk(buf, t.end, end, visited + {p}).Done? {
        AdvancesFirst(t, Walk(buf, t.end, end, visited + {p}).value, |buf|);
      }
    }
  }

  /**
   * On arbitrary bytes the loop of `children` ends with each TLV starting where the one
   * before ended if and only if none of those it meets declares a length that wraps.
   */
  lemma ChildrenAdvance(buf: Bytes, parent: Item)
    ensures MetPlain(buf, parent.start, parent.end) <==>
            ChildrenOf(buf, parent).Done? && Advances(ChildrenOf(buf, parent).value, parent.start, |buf|)
  {
    WalkAdvances(buf, parent.start, parent.end, {});
  }

  /** The loop of `children` makes `n` turns from `p`. */
  predicate Turns(buf: Bytes, p: int, end: int, n: nat)
    decreases n
  {
    n == 0 || (p < end && TlvAt(buf, p).Some? && Turns(buf, TlvAt(buf, p).value.end, end, n - 1))
  }

  function After(buf: Bytes, p: int, end: int, n: nat): int
    requires Turns(buf, p, end, n)
    decreases n
  {
    if n == 0 then p else After(buf, TlvAt(buf, p).value.end, end, n - 1)
  }

  ghost predicate Returns(buf: Bytes, from: int, to: int, end: int) {
    exists n: nat :: n > 0 && Turns(buf, from, end, n) && After(buf, from, end, n) == to
  }

  lemma {:induction false} TurnsJoin(buf: Bytes, p: int, end: int, n: nat, m: nat)
    requires Turns(buf, p, end, n)
    ensures Turns(buf, p, end, n + m) <==> Turns(buf, After(buf, p, end, n), end, m)
    ensures Turns(buf, p, end, n + m) ==> After(buf, p, end, n + m) == After(buf, After(buf, p, end, n), end, m)
    decreases n
  {
    if n > 0 { TurnsJoin(buf, TlvAt(buf, p).value.end, end, n - 1, m); }
  }

  lemma {:induction false} TurnsFewer(buf: Bytes, p: int, end: int, n: nat, m: nat)
    requires Turns(buf, p, end, n) && m <= n
    ensures Turns(buf, p, end, m)
    decreases m
  {
    if m > 0 { TurnsFewer(buf, TlvAt(buf, p).value.end, end, n - 1, m - 1); }
  }

  lemma {:induction false} CycleTurns(buf: Bytes, p: int, end: int, n: nat, m: nat)
    requires n > 0 && Turns(buf, p, end, n) && After(buf, p, end, n) == p
    ensures Turns(buf, p, end, m)
    decreases m
  {
    if m <= n {
      TurnsFewer(buf, p, end, n, m);
    } else {
      CycleTurns(buf, p, end, n, m - n);
      TurnsJoin(buf, p, end, n, m - n);
    }
  }

  lemma OneMoreTurn(buf: Bytes, from: int, p: int, end: int)
    requires p < end && TlvAt(buf, p).Some? && (from == p || Returns(buf, from, p, end))
    ensures Returns(buf, from, TlvAt(buf, p).value.end, end)
  {
    var next := TlvAt(buf, p).value.end;
    assert Turns(buf, next, end, 0);
    assert Turns(buf, p, end, 1) && After(buf, p, end, 1) == next;
    if from != p {
      var n: nat :| n > 0 && Turns(buf, from, end, n) && After(buf, from, end, n) == p;
      TurnsJoin(buf, from, end, n, 1);
      assert Turns(buf, from, end, n + 1) && After(buf, from, end, n + 1) == next;
    }
  }

  lemma {:induction false} HangingTurns(buf: Bytes, p: int, end: int, visited: set<int>, m: nat)
    requires Walk(buf, p, end, visited) == Hangs
    requires forall v :: v in visited ==> Returns(buf, v, p, end)
    ensures Turns(buf, p, end, m)
    decreases Below(|buf|) - visited
  {
    if p in visited {
      var n: nat :| n > 0 && Turns(buf, p, end, n) && After(buf, p, end, n) == p;
      CycleTurns(buf, p, end, n, m);
    } else if m > 0 {
      var next := TlvAt(buf, p).value.end;
      assert p in Below(|buf|) - visited;
      forall v | v in visited + {p} ensures Returns(buf, v, next, end) {
        OneMoreTurn(buf, v, p, end);
      }
      HangingTurns(buf, next, end, visited + {p}, m - 1);
    }
  }

  lemma {:induction false} EndingTurns(buf: Bytes, p: int, end: int, visited: set<int>) returns (n: nat)
    requires Walk(buf, p, end, visited).Done?
    ensures !Turns(buf, p, end, n)
    decreases Below(|buf|) - visited
  {
    n := 1;
    if p < end && TlvAt(buf, p).Some? {
      assert p in Below(|buf|) - visited;
      var m := EndingTurns(buf, TlvAt(buf, p).value.end, end, visited + {p});
      n := m + 1;
    }
  }

  /** The model says that `children` hangs exactly when its loop makes any number of turns. */
  lemma HangsExactly(buf: Bytes, parent: Item)
    ensures ChildrenOf(buf, parent) == Hangs <==> forall n: nat :: Turns(buf, parent.start, parent.end, n)
  {
    if ChildrenOf(buf, parent) == Hangs {
      forall n: nat ensures Turns(buf, parent.start, parent.end, n) {
        HangingTurns(buf, parent.start, parent.end, {}, n);
      }
    } else {
      var n := EndingTurns(buf, parent.start, parent.end, {});
    }
  }

  /** Lists that were written meet the condition, whatever lengths their contents seem to hold. */
  lemma {:induction false} WrittenAreMetPlain(buf: Bytes, parts: seq<Bytes>, at: int, end: int)
    requires AllTlv(parts) && Embeds(buf, at, Concat(parts)) && end == at + |Concat(parts)|
    ensures MetPlain(buf, at, end)
    decreases |parts|
  {
    if parts == [] {
    } else {
      var t, rest, next := HeadStep(buf, parts, at);
      WrittenAreMetPlain(buf, rest, next, end);
      MetOneMore(buf, at, next, end, t);
    }
  }

  lemma MetOneMore(buf: Bytes, p: int, next: int, end: int, t: Item)
    requires TlvAt(buf, p) == Some(t) && p < next == t.end && MetPlain(buf, next, end)
    ensures MetPlain(buf, p, end)
  {
  }

  const WRAPPED_LENGTH: Bytes := [0x30, 0x06, 0x30, 0x84, 0xff, 0xff, 0xff, 0xfa]

  /**
   * A sequence for which the condition fails: inside it a length of 2^32 - 6 is read as
   * -6 and leads back to where it was read.
   */
  lemma WrappedLengthNeverEnds()
    ensures TlvAt(WRAPPED_LENGTH, 0) == Some(Item(0x30, 0, 2, 6, 8))
    ensures !MetPlain(WRAPPED_LENGTH, 2, 8)
    ensures ChildrenOf(WRAPPED_LENGTH, Item(0x30, 0, 2, 6, 8)) == Hangs
  {
    var buf := WRAPPED_LENGTH;
    var octets := buf[4..8];
    assert octets[..3][..2] == octets[..2] && octets[..2][..1] == octets[..1] && octets[..1][..0] == [];
    assert DeclaredLength(octets[..1]) == 255;
    assert DeclaredLength(octets[..2]) == 65535;
    assert DeclaredLength(octets[..3]) == 0xffffff;
    assert DeclaredLength(octets) == -6;
    assert TlvAt(buf, 2) == Some(Item(0x30, 2, 8, -6, 2));
    assert Walk(buf, 2, 8, {} + {2}) == Hangs;
  }
}
