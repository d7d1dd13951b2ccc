/** The hand-written DER writer and reader of `privsvc/shared/der.ts`. */
module Der {
  import opened Js

  const SEQUENCE: Byte := 0x30
  const SET: Byte := 0x31
  const OCTET_STRING: Byte := 0x04
  const BIT_STRING: Byte := 0x03
  const INTEGER: Byte := 0x02
  const OID: Byte := 0x06
  const BOOLEAN: Byte := 0x01

  // ----- Writing ------------------------------------------------------------

  datatype LengthError = Negative | Implausible

  /** The octets left by the `unshift(v & 0xff)`, `v >>>= 8` loop, started at `v`. */
  function LengthOctets(v: int): (r: Bytes)
    ensures (r == []) == (v <= 0)
    ensures v < 0x100 ==> |r| <= 1
    ensures v < 0x1_0000 ==> |r| <= 2
    ensures v < 0x100_0000 ==> |r| <= 3
    ensures |r| <= 4
    decreases if v <= 0 then 0 else v
  {
    if v <= 0 then [] else LengthOctets(ToUint32(v) / 256) + [v % 256]
  }

  /** The length octets of X.690 section 8.1.3: short form, or long form from 128 on. */
  function LengthField(n: nat): (r: Bytes)
    ensures 1 <= |r| <= 5
  {
    if n < 0x80 then [n] else [0x80 + |LengthOctets(n)|] + LengthOctets(n)
  }

  /**
   * The error for an implausible length is never raised: `>>>` brings any number
   * below 2^32, so the loop leaves at most four octets.
   */
  method EncodeLength(n: int) returns (r: Result<Bytes, LengthError>)
    ensures r == if n < 0 then Err(Negative) else Ok(LengthField(n))
  {
    if n < 0 { return Err(Negative); }
    if n < 0x80 { return Ok([n]); }
    var bytes: Bytes, v := [], n;
    while v > 0
      invariant v >= 0
      invariant LengthOctets(v) + bytes == LengthOctets(n)
      decreases v
    {
      ghost var before := bytes;
      bytes := [v % 256] + bytes;
      assert LengthOctets(v) + before == LengthOctets(ToUint32(v) / 256) + bytes;
      v := ToUint32(v) / 256;
    }
    assert bytes == LengthOctets(n);
    if |bytes| > 4 { return Err(Implausible); }
    return Ok([0x80 + |bytes|] + bytes);
  }

  function Tlv(tag: Byte, content: Bytes): Bytes {
    [tag] + LengthField(|content|) + content
  }

  function Seq(parts: seq<Bytes>): Bytes { Tlv(SEQUENCE, Concat(parts)) }

  function Set(parts: seq<Bytes>): Bytes { Tlv(SET, Concat(parts)) }

  function Oid(body: Bytes): Bytes { Tlv(OID, body) }

  function BitString(content: Bytes): Bytes { Tlv(BIT_STRING, [0x00] + content) }

  function OctetString(content: Bytes): Bytes { Tlv(OCTET_STRING, content) }

  // ----- Reading ------------------------------------------------------------

  /** Where a TLV lies in a buffer. `length` can be negative, see `DeclaredLength`. */
  datatype Item = Item(tag: Byte, offset: int, start: int, length: int, end: int)

  /** `(length << 8) | octet`, folded from the left in signed 32-bit arithmetic. */
  function DeclaredLength(octets: Bytes): (r: int)
    ensures -TWO_31 <= r < TWO_31
  {
    if octets == [] then 0
    else Joined(DeclaredLength(octets[..|octets| - 1]), octets[|octets| - 1])
  }

  /** `(length << 8) | octet` */
  function Joined(length: int, octet: Byte): (r: int)
    ensures -TWO_31 <= r < TWO_31
  {
    ToInt32(length * 256 + octet)
  }

  /** The first `n` of the octets from `from` on. */
  function Octets(buf: Bytes, from: nat, n: nat): Bytes
    requires from + n <= |buf|
  {
    buf[from..from + n]
  }

  lemma DeclaredStep(buf: Bytes, from: nat, n: nat)
    requires from + n < |buf|
    ensures DeclaredLength(Octets(buf, from, n + 1)) == Joined(DeclaredLength(Octets(buf, from, n)), buf[from + n])
  {
    assert Octets(buf, from, n + 1)[..n] == Octets(buf, from, n);
  }

  /** What `readTlv` returns; the method below computes it as the source does. */
  function TlvAt(buf: Bytes, offset: int): (r: Option<Item>)
    ensures r.Some? ==> 0 <= offset && offset + 2 <= r.value.start <= |buf|
    ensures r.Some? ==> r.value.offset == offset && r.value.end == r.value.start + r.value.length <= |buf|
  {
    if offset < 0 || offset + 2 > |buf| then None
    else if buf[offset] % 32 == 31 then None
    else
      var first := buf[offset + 1];
      if first < 0x80 then Bounded(buf, buf[offset], offset, offset + 2, first)
      else
        var n := first - 0x80;
        if n == 0 || n > 4 || offset + 2 + n > |buf| then None
        else Bounded(buf, buf[offset], offset, offset + 2 + n, DeclaredLength(Octets(buf, offset + 2, n)))
  }

  function Bounded(buf: Bytes, tag: Byte, offset: int, start: int, length: int): Option<Item> {
    if start + length > |buf| then None else Some(Item(tag, offset, start, length, start + length))
  }

  method ReadTlv(buf: Bytes, offset: int) returns (r: Option<Item>)
    ensures r == TlvAt(buf, offset)
  {
    if offset < 0 || offset + 2 > |buf| { return None; }
    var tag := buf[offset];
    if tag % 32 == 31 { return None; }
    var first := buf[offset + 1];
    var length: int, start: int;
    if first < 0x80 {
      length, start := first, offset + 2;
    } else {
      var n := first - 0x80;
      if n == 0 || n > 4 { return None; }
      if offset + 2 + n > |buf| { return None; }
      length := 0;
      for i := 0 to n
        invariant length == DeclaredLength(Octets(buf, offset + 2, i))
      {
        DeclaredStep(buf, offset + 2, i);
        length := Joined(length, buf[offset + 2 + i]);
      }
      start := offset + 2 + n;
    }
    var end := start + length;
    if end > |buf| { return None; }
    return Some(Item(tag, offset, start, length, end));
  }

  function Below(n: nat): (r: set<int>)
    ensures forall i :: i in r <==> 0 <= i < n
  {
    if n == 0 then {} else Below(n - 1) + {n - 1}
  }

  /**
   * The TLVs met from `p` on. The reader is a function of the position alone, so
   * a position met twice means that the loop of the source never ends.
   */
  function Walk(buf: Bytes, p: int, end: int, visited: set<int>): Run<seq<Item>>
    decreases Below(|buf|) - visited
  {
    if p >= end then Done([])
    else
      var t := TlvAt(buf, p);
      if t.None? then Done([])
      else if p in visited then Hangs
      else
        assert p in Below(|buf|) - visited;
        var rest :- Walk(buf, t.value.end, end, visited + {p});
        Done([t.value] + rest)
  }

  /** What `children` returns. */
  function ChildrenOf(buf: Bytes, parent: Item): Run<seq<Item>> {
    Walk(buf, parent.start, parent.end, {})
  }

  method Children(buf: Bytes, parent: Item) returns (out: seq<Item>)
    requires ChildrenOf(buf, parent).Done?
    ensures Done(out) == ChildrenOf(buf, parent)
  {
    out := [];
    var p := parent.start;
    ghost var visited: set<int> := {};
    while p < parent.end
      invariant Walk(buf, p, parent.end, visited).Done?
      invariant ChildrenOf(buf, parent).value == out + Walk(buf, p, parent.end, visited).value
      decreases Below(|buf|) - visited
    {
      var t := ReadTlv(buf, p);
      if t.None? { break; }
      assert p in Below(|buf|) - visited;
      out := out + [t.value];
      visited := visited + {p};
      p := t.value.end;
    }
    assert out + [] == out;
  }

  function ContentOf(buf: Bytes, t: Item): Bytes { Subarray(buf, t.start, t.end) }

  function RawOf(buf: Bytes, t: Item): Bytes { Subarray(buf, t.offset, t.end) }
}
