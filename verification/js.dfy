/** The few pieces of the JavaScript platform that several components rely on. */
module Js {

  datatype Option<+T> = None | Some(value: T) {
    predicate IsFailure() { None? }

    function PropagateFailure<U>(): Option<U>
      requires None?
    {
      None
    }

    function Extract(): T
      requires Some?
    {
      value
    }
  }

  datatype Result<+T, +E> = Ok(value: T) | Err(error: E)

  /** How a call that contains a loop ends: with a value, or never. */
  datatype Run<+T> = Done(value: T) | Hangs {
    predicate IsFailure() { Hangs? }

    function PropagateFailure<U>(): Run<U>
      requires Hangs?
    {
      Hangs
    }

    function Extract(): T
      requires Done?
    {
      value
    }
  }

  /** An octet of a `Buffer`. */
  type Byte = x: int | 0 <= x < 256
  type Bytes = seq<Byte>

  const TWO_31: int := 0x8000_0000
  const TWO_32: int := 0x1_0000_0000

  /** The abstract operation behind `>>> 0`. */
  function ToUint32(n: int): (r: int)
    ensures 0 <= r < TWO_32
    ensures 0 <= n < TWO_32 ==> r == n
  {
    n % TWO_32
  }

  /** The abstract operation behind `<<` and `|`: a signed 32-bit integer. */
  function ToInt32(n: int): (r: int)
    ensures -TWO_31 <= r < TWO_31
    ensures 0 <= n < TWO_31 ==> r == n
    ensures TWO_31 <= n < TWO_32 ==> r == n - TWO_32
  {
    var m := n % TWO_32;
    if m < TWO_31 then m else m - TWO_32
  }

  /** A `subarray` argument: negative counts from the end, and both ends are clamped. */
  function Clamp(i: int, len: nat): (r: nat)
    ensures r <= len
    ensures 0 <= i <= len ==> r == i
  {
    if i < 0 then (if i + len < 0 then 0 else i + len)
    else if i > len then len else i
  }

  /** `Buffer.subarray(begin, end)`. */
  function Subarray(b: Bytes, begin: int, end: int): (r: Bytes)
    ensures 0 <= begin <= end <= |b| ==> r == b[begin..end]
  {
    var lo, hi := Clamp(begin, |b|), Clamp(end, |b|);
    if lo <= hi then b[lo..hi] else []
  }

  /** `Buffer.concat` / `join("")`. */
  function Concat<T>(parts: seq<seq<T>>): seq<T> {
    if parts == [] then [] else parts[0] + Concat(parts[1..])
  }

  lemma {:induction false} ConcatAppend<T>(a: seq<seq<T>>, b: seq<seq<T>>)
    ensures Concat(a + b) == Concat(a) + Concat(b)
  {
    if a == [] {
      assert a + b == b;
    } else {
      assert (a + b)[0] == a[0] && (a + b)[1..] == a[1..] + b;
      ConcatAppend(a[1..], b);
    }
  }

  lemma ConcatTwo<T>(a: seq<T>, b: seq<T>)
    ensures Concat([a]) == a && Concat([a, b]) == a + b
  {
    assert [a][1..] == [] && [b][1..] == [] && [a, b][1..] == [b];
    assert Concat([a]) == a + [] && Concat([b]) == b + [];
  }

  lemma ConcatThree<T>(a: seq<T>, b: seq<T>, c: seq<T>)
    ensures Concat([a, b, c]) == a + b + c
  {
    assert [a, b, c][1..] == [b, c];
    ConcatTwo(b, c);
  }

  function Pow2(n: nat): (r: nat)
    ensures r >= 1
  {
    if n == 0 then 1 else 2 * Pow2(n - 1)
  }

  // ----- Strings ------------------------------------------------------------

  /** A UTF-16 code unit, and a string of them. */
  type Unit = x: int | 0 <= x < 0x1_0000
  type Text = seq<Unit>

  /** `String.prototype.trim` strips white space and line terminators. */
  predicate IsSpace(c: Unit) {
    || 0x09 <= c <= 0x0d || c == 0x20 || c == 0xa0 || c == 0x1680 || 0x2000 <= c <= 0x200a
    || c == 0x2028 || c == 0x2029 || c == 0x202f || c == 0x205f || c == 0x3000 || c == 0xfeff
  }

  function TrimStart(s: Text): Text {
    if s != [] && IsSpace(s[0]) then TrimStart(s[1..]) else s
  }

  function TrimEnd(s: Text): Text {
    if s != [] && IsSpace(s[|s| - 1]) then TrimEnd(s[..|s| - 1]) else s
  }

  function Trim(s: Text): Text { TrimEnd(TrimStart(s)) }

  lemma {:induction false} TrimStartIs(s: Text) returns (before: Text)
    ensures s == before + TrimStart(s) && forall i :: 0 <= i < |before| ==> IsSpace(before[i])
    ensures TrimStart(s) != [] ==> !IsSpace(TrimStart(s)[0])
  {
    before := [];
    if s != [] && IsSpace(s[0]) {
      var rest := TrimStartIs(s[1..]);
      before := [s[0]] + rest;
      assert s == [s[0]] + s[1..];
    }
  }

  lemma {:induction false} TrimEndIs(s: Text) returns (after: Text)
    ensures s == TrimEnd(s) + after && forall i :: 0 <= i < |after| ==> IsSpace(after[i])
    ensures TrimEnd(s) != [] ==> !IsSpace(TrimEnd(s)[|TrimEnd(s)| - 1])
  {
    after := [];
    if s != [] && IsSpace(s[|s| - 1]) {
      var rest := TrimEndIs(s[..|s| - 1]);
      after := rest + [s[|s| - 1]];
      assert s == s[..|s| - 1] + [s[|s| - 1]];
    }
  }

  /** Trimming takes spaces off both ends until none is left there, and nothing else. */
  lemma TrimIs(s: Text) returns (before: Text, after: Text)
    ensures s == before + Trim(s) + after
    ensures forall i :: 0 <= i < |before| ==> IsSpace(before[i])
    ensures forall i :: 0 <= i < |after| ==> IsSpace(after[i])
    ensures Trim(s) != [] ==> !IsSpace(Trim(s)[0]) && !IsSpace(Trim(s)[|Trim(s)| - 1])
  {
    before := TrimStartIs(s);
    after := TrimEndIs(TrimStart(s));
    if Trim(s) != [] { assert Trim(s)[0] == TrimStart(s)[0]; }
  }

  /** `indexOf` of one unit. */
  function IndexOf(s: Text, c: Unit): (i: int)
    ensures -1 <= i < |s|
    ensures i < 0 ==> c !in s
    ensures i >= 0 ==> s[i] == c && c !in s[..i]
  {
    if s == [] then -1
    else if s[0] == c then 0
    else
      var i := IndexOf(s[1..], c);
      assert i >= 0 ==> s[..i + 1] == [s[0]] + s[1..][..i];
      if i < 0 then -1 else i + 1
  }

  /** `a < b` on strings: by code units, a proper prefix first. */
  predicate Less(a: Text, b: Text) {
    b != [] && (a == [] || a[0] < b[0] || (a[0] == b[0] && Less(a[1..], b[1..])))
  }

  lemma {:induction false} LessTotal(a: Text, b: Text)
    ensures !(Less(a, b) && Less(b, a)) && !Less(a, a)
    ensures a == b || Less(a, b) || Less(b, a)
  {
    if a != [] && b != [] {
      LessTotal(a[1..], b[1..]);
      LessTotal(a[1..], a[1..]);
      if a[0] == b[0] && a[1..] == b[1..] { assert a == [a[0]] + a[1..] == b; }
    } else if a != [] {
      LessTotal(a[1..], a[1..]);
    }
  }

  lemma {:induction false} LessTransitive(a: Text, b: Text, c: Text)
    requires Less(a, b) && Less(b, c)
    ensures Less(a, c)
  {
    if a != [] && a[0] == b[0] == c[0] { LessTransitive(a[1..], b[1..], c[1..]); }
  }

  /** The two agree before `k`, where `a` ends or has the smaller code unit. */
  predicate IsLessAt(a: Text, b: Text, k: nat) {
    k <= |a| && k < |b| && a[..k] == b[..k] && (k == |a| || a[k] < b[k])
  }

  lemma LessAtStart(a: Text, b: Text)
    ensures forall k: nat :: IsLessAt(a, b, k) && k > 0 ==> a != [] && b != [] && a[0] == b[0]
  {
    forall k: nat | IsLessAt(a, b, k) && k > 0 ensures a != [] && b != [] && a[0] == b[0] {
      assert a[0] == a[..k][0] == b[..k][0];
    }
  }

  /** Strings are compared by their first difference in code units, a proper prefix first. */
  lemma {:induction false} LessIs(a: Text, b: Text)
    ensures Less(a, b) <==> exists k: nat :: IsLessAt(a, b, k)
  {
    LessAtStart(a, b);
    if b == [] || a == [] || a[0] != b[0] {
      assert b != [] && (a == [] || a[0] < b[0]) ==> IsLessAt(a, b, 0);
    } else {
      LessIs(a[1..], b[1..]);
      if k: nat :| IsLessAt(a[1..], b[1..], k) {
        assert a[..k + 1] == [a[0]] + a[1..][..k] && b[..k + 1] == [b[0]] + b[1..][..k];
        assert IsLessAt(a, b, k + 1);
      }
      if k: nat :| IsLessAt(a, b, k) {
        assert k > 0;
        assert a[1..][..k - 1] == a[..k][1..] && b[1..][..k - 1] == b[..k][1..];
        assert IsLessAt(a[1..], b[1..], k - 1);
      }
    }
  }

  predicate Ascending(keys: seq<Text>) {
    forall i, j :: 0 <= i < j < |keys| ==> Less(keys[i], keys[j])
  }

  predicate Distinct<T(==)>(s: seq<T>) {
    forall i, j :: 0 <= i < j < |s| ==> s[i] != s[j]
  }

  function Insert(k: Text, keys: seq<Text>): (r: seq<Text>)
    requires Ascending(keys) && k !in keys
    ensures Ascending(r) && |r| == |keys| + 1 && forall x :: x in r <==> x == k || x in keys
  {
    if keys == [] then [k]
    else if Less(k, keys[0]) then
      assert Ascending([k] + keys) by {
        forall j | 0 <= j < |keys| ensures Less(k, keys[j]) {
          if j > 0 { LessTransitive(k, keys[0], keys[j]); }
        }
      }
      [k] + keys
    else
      assert Less(keys[0], k) by { LessTotal(k, keys[0]); }
      assert forall x :: x in keys[1..] ==> Less(keys[0], x);
      [keys[0]] + Insert(k, keys[1..])
  }

  /** `sort()` of distinct strings. */
  function Sorted(keys: seq<Text>): (r: seq<Text>)
    requires Distinct(keys)
    ensures Ascending(r) && |r| == |keys| && forall x :: x in r <==> x in keys
  {
    if keys == [] then []
    else
      assert keys[0] !in keys[1..];
      Insert(keys[0], Sorted(keys[1..]))
  }

  /** An ascending list is determined by its elements. */
  lemma {:induction false} AscendingUnique(a: seq<Text>, b: seq<Text>)
    requires Ascending(a) && Ascending(b) && forall x :: x in a <==> x in b
    ensures a == b
  {
    assert (forall i :: 0 <= i < |a| ==> a[i] in b) && (forall i :: 0 <= i < |b| ==> b[i] in a);
    if a != [] && b != [] {
      if a[0] != b[0] {
        assert a[0] in b && b[0] in a;
        var i :| 0 <= i < |b| && b[i] == a[0];
        var j :| 0 <= j < |a| && a[j] == b[0];
        LessTotal(a[0], b[0]);
        assert false;
      }
      forall x ensures x in a[1..] <==> x in b[1..] {
        LessTotal(a[0], x);
        if x in a[1..] { assert x in b && x != b[0]; }
        if x in b[1..] { assert x in a && x != a[0]; }
      }
      AscendingUnique(a[1..], b[1..]);
    }
  }
}
