/** The canonical policy text that `PolicyStore.computeHash` hashes (`src/core/policy-store.ts`). */
module PolicyStore {
  import opened Js

  // ----- Policies -----------------------------------------------------------

  /**
   * A policy tree. `Other` is what JSON cannot carry: undefined, functions,
   * symbols, big integers and the numbers that are not finite. `Num` holds the text
   * JavaScript gives a finite number. Members keep their insertion order.
   */
  datatype Json =
    | Null
    | Other
    | Bool(b: bool)
    | Num(token: Text)
    | Str(s: Text)
    | Arr(items: seq<Json>)
    | Obj(members: seq<Member>)

  datatype Member = Member(key: Text, value: Json)

  /** What a policy says: an object is a map, and `Other` says no more than `Null`. */
  datatype Value =
    | VNull
    | VBool(b: bool)
    | VNum(token: Text)
    | VStr(s: Text)
    | VArr(items: seq<Value>)
    | VObj(members: map<Text, Value>)

  function Keys(members: seq<Member>): (r: seq<Text>)
    ensures |r| == |members| && forall i :: 0 <= i < |members| ==> r[i] == members[i].key
  {
    if members == [] then [] else [members[0].key] + Keys(members[1..])
  }

  /** `value[k]`: the place of the member. */
  function IndexOf(members: seq<Member>, key: Text): (i: nat)
    requires key in Keys(members)
    ensures i < |members| && members[i].key == key
  {
    if members[0].key == key then 0 else
      assert Keys(members)[1..] == Keys(members[1..]);
      1 + IndexOf(members[1..], key)
  }

  function Meaning(j: Json): Value
    decreases j, 0
  {
    match j
    case Null => VNull
    case Other => VNull
    case Bool(b) => VBool(b)
    case Num(token) => VNum(token)
    case Str(s) => VStr(s)
    case Arr(items) => VArr(Meanings(items))
    case Obj(members) => VObj(map k | k in Keys(members) :: Meaning(members[IndexOf(members, k)].value))
  }

  function Meanings(items: seq<Json>): (r: seq<Value>)
    ensures |r| == |items|
    decreases items, 1
  {
    if items == [] then [] else [Meaning(items[0])] + Meanings(items[1..])
  }

  const QUOTE: Unit := 0x22
  const BACKSLASH: Unit := 0x5c
  const COMMA: Unit := 0x2c
  const COLON: Unit := 0x3a
  const OPEN_BRACKET: Unit := 0x5b
  const CLOSE_BRACKET: Unit := 0x5d
  const OPEN_BRACE: Unit := 0x7b
  const CLOSE_BRACE: Unit := 0x7d
  const NULL: Text := [0x6e, 0x75, 0x6c, 0x6c]
  const TRUE: Text := [0x74, 0x72, 0x75, 0x65]
  const FALSE: Text := [0x66, 0x61, 0x6c, 0x73, 0x65]

  /** Digits, sign, point and exponent: the units number texts are made of. */
  predicate IsNumberUnit(c: Unit) {
    0x30 <= c <= 0x39 || c == 0x2d || c == 0x2b || c == 0x2e || c == 0x65 || c == 0x45
  }

  predicate IsNumberToken(token: Text) {
    && token != [] && (0x30 <= token[0] <= 0x39 || token[0] == 0x2d)
    && forall i :: 0 <= i < |token| ==> IsNumberUnit(token[i])
  }

  /** What every JavaScript value satisfies: an object holds a key once. */
  predicate WellFormed(j: Json)
    decreases j
  {
    match j
    case Num(token) => IsNumberToken(token)
    case Arr(items) => forall i :: 0 <= i < |items| ==> WellFormed(items[i])
    case Obj(members) =>
      Distinct(Keys(members)) && forall i :: 0 <= i < |members| ==> WellFormed(members[i].value)
    case _ => true
  }

  // ----- The code -----------------------------------------------------------

  function Hex(n: int): Unit
    requires 0 <= n < 16
  {
    if n < 10 then 0x30 + n else 0x61 + n - 10
  }

  /** The escapes of section 7 of RFC 8259 as `JSON.stringify` chooses them. */
  function EscapeUnit(c: Unit): (r: Text)
    ensures r != []
  {
    if c == QUOTE || c == BACKSLASH then [BACKSLASH, c]
    else if c == 0x08 then [BACKSLASH, 0x62]
    else if c == 0x0c then [BACKSLASH, 0x66]
    else if c == 0x0a then [BACKSLASH, 0x6e]
    else if c == 0x0d then [BACKSLASH, 0x72]
    else if c == 0x09 then [BACKSLASH, 0x74]
    else if c < 0x20 || 0xd800 <= c <= 0xdfff then
      [BACKSLASH, 0x75, Hex(c / 0x1000), Hex(c / 0x100 % 16), Hex(c / 16 % 16), Hex(c % 16)]
    else [c]
  }

  /** Surrogates are escaped only when they do not form a pair. */
  function Escaped(s: Text): Text {
    if s == [] then []
    else if |s| >= 2 && 0xd800 <= s[0] <= 0xdbff && 0xdc00 <= s[1] <= 0xdfff then [s[0], s[1]] + Escaped(s[2..])
    else EscapeUnit(s[0]) + Escaped(s[1..])
  }

  function Quoted(s: Text): Text { [QUOTE] + Escaped(s) + [QUOTE] }

  /** `stableStringify`; no text starts with a closing bracket. */
  function Canonical(j: Json): (r: Text)
    requires WellFormed(j)
    ensures r != [] && r[0] != CLOSE_BRACKET
    decreases j, 0
  {
    match j
    case Null => NULL
    case Other => NULL
    case Bool(b) => if b then TRUE else FALSE
    case Num(token) => token
    case Str(s) => Quoted(s)
    case Arr(items) => [OPEN_BRACKET] + ItemsText(items) + [CLOSE_BRACKET]
    case Obj(members) => [OPEN_BRACE] + MembersText(members, Sorted(Keys(members))) + [CLOSE_BRACE]
  }

  /** `value.map(stableStringify).join(",")` */
  function ItemsText(items: seq<Json>): (r: Text)
    requires forall i :: 0 <= i < |items| ==> WellFormed(items[i])
    ensures items != [] ==> r != [] && r[0] != CLOSE_BRACKET
    decreases items, 1
  {
    if items == [] then []
    else if |items| == 1 then Canonical(items[0])
    else Canonical(items[0]) + [COMMA] + ItemsText(items[1..])
  }

  /** The members named by `keys`, joined by commas. */
  function MembersText(members: seq<Member>, keys: seq<Text>): Text
    requires forall i :: 0 <= i < |members| ==> WellFormed(members[i].value)
    requires forall k :: k in keys ==> k in Keys(members)
    decreases members, |keys|
  {
    if keys == [] then []
    else
      var part := Quoted(keys[0]) + [COLON] + Canonical(members[IndexOf(members, keys[0])].value);
      if |keys| == 1 then part else part + [COMMA] + MembersText(members, keys[1..])
  }

  // ----- Reading the text back ----------------------------------------------

  function Unhex(c: Unit): (r: Option<int>)
    ensures r.Some? ==> 0 <= r.value < 16
  {
    if 0x30 <= c <= 0x39 then Some(c - 0x30) else if 0x61 <= c <= 0x66 then Some(c - 0x61 + 10) else None
  }

  /** One unit of a string, and what follows it. */
  function ReadUnit(x: Text): (r: Option<(Unit, Text)>)
    ensures r.Some? ==> |r.value.1| < |x|
  {
    if x == [] || x[0] == QUOTE then None
    else if x[0] != BACKSLASH then Some((x[0], x[1..]))
    else if |x| < 2 then None
    else if x[1] == QUOTE || x[1] == BACKSLASH then Some((x[1], x[2..]))
    else if x[1] == 0x62 then Some((0x08, x[2..]))
    else if x[1] == 0x66 then Some((0x0c, x[2..]))
    else if x[1] == 0x6e then Some((0x0a, x[2..]))
    else if x[1] == 0x72 then Some((0x0d, x[2..]))
    else if x[1] == 0x74 then Some((0x09, x[2..]))
    else if x[1] != 0x75 || |x| < 6 then None
    else
      var a :- Unhex(x[2]);
      var b :- Unhex(x[3]);
      var c :- Unhex(x[4]);
      var d :- Unhex(x[5]);
      Some((a * 0x1000 + b * 0x100 + c * 16 + d, x[6..]))
  }

  /** A string up to its closing quote, and what follows it. */
  function ReadString(x: Text): (r: Option<(Text, Text)>)
    ensures r.Some? ==> |r.value.1| < |x|
    decreases |x|
  {
    if x == [] then None
    else if x[0] == QUOTE then Some(([], x[1..]))
    else
      var u :- ReadUnit(x);
      var rest :- ReadString(u.1);
      Some(([u.0] + rest.0, rest.1))
  }

  function ReadNumber(x: Text): (r: (Text, Text))
    ensures |r.0| + |r.1| == |x|
  {
    if x == [] || !IsNumberUnit(x[0]) then ([], x)
    else
      var rest := ReadNumber(x[1..]);
      ([x[0]] + rest.0, rest.1)
  }

  /** A value at the start of `x`, and what follows it. */
  function Read(x: Text): (r: Option<(Value, Text)>)
    ensures r.Some? ==> |r.value.1| < |x|
    decreases |x|, 0
  {
    if NULL <= x then Some((VNull, x[4..]))
    else if TRUE <= x then Some((VBool(true), x[4..]))
    else if FALSE <= x then Some((VBool(false), x[5..]))
    else if x == [] then None
    else if x[0] == QUOTE then
      var s :- ReadString(x[1..]);
      Some((VStr(s.0), s.1))
    else if x[0] == OPEN_BRACKET then
      if |x| >= 2 && x[1] == CLOSE_BRACKET then Some((VArr([]), x[2..]))
      else
        var items :- ReadItems(x[1..]);
        Some((VArr(items.0), items.1))
    else if x[0] == OPEN_BRACE then
      if |x| >= 2 && x[1] == CLOSE_BRACE then Some((VObj(map[]), x[2..]))
      else
        var members :- ReadMembers(x[1..]);
        Some((VObj(members.0), members.1))
    else if IsNumberUnit(x[0]) then
      var n := ReadNumber(x);
      Some((VNum(n.0), n.1))
    else None
  }

  /** At least one value, up to the closing bracket. */
  function ReadItems(x: Text): (r: Option<(seq<Value>, Text)>)
    ensures r.Some? ==> |r.value.1| < |x|
    decreases |x|, 1
  {
    var v :- Read(x);
    if v.1 == [] then None
    else if v.1[0] == CLOSE_BRACKET then Some(([v.0], v.1[1..]))
    else if v.1[0] != COMMA then None
    else
      var rest :- ReadItems(v.1[1..]);
      Some(([v.0] + rest.0, rest.1))
  }

  /** At least one member, up to the closing brace. */
  function ReadMembers(x: Text): (r: Option<(map<Text, Value>, Text)>)
    ensures r.Some? ==> |r.value.1| < |x|
    decreases |x|, 1
  {
    if x == [] || x[0] != QUOTE then None
    else
      var k :- ReadString(x[1..]);
      if k.1 == [] || k.1[0] != COLON then None
      else
        var v :- Read(k.1[1..]);
        if v.1 == [] then None
        else if v.1[0] == CLOSE_BRACE then Some((map[k.0 := v.0], v.1[1..]))
        else if v.1[0] != COMMA then None
        else
          var rest :- ReadMembers(v.1[1..]);
          Some((rest.0[k.0 := v.0], rest.1))
  }

  // ----- The text is read back as what it means -----------------------------

  lemma UnhexHex(n: int)
    requires 0 <= n < 16
    ensures Unhex(Hex(n)) == Some(n)
  {
  }

  /** Four hexadecimal digits give back the number. */
  lemma HexReadBack(c: Unit, a: int, b: int, d: int, e: int, rest: Text)
    requires 0 <= a < 16 && 0 <= b < 16 && 0 <= d < 16 && 0 <= e < 16
    requires c == a * 0x1000 + b * 0x100 + d * 16 + e
    ensures ReadUnit([BACKSLASH, 0x75, Hex(a), Hex(b), Hex(d), Hex(e)] + rest) == Some((c, rest))
  {
    UnhexHex(a);
    UnhexHex(b);
    UnhexHex(d);
    UnhexHex(e);
    assert ([BACKSLASH, 0x75, Hex(a), Hex(b), Hex(d), Hex(e)] + rest)[6..] == rest;
  }

  lemma HexDigits(c: Unit)
    ensures 0 <= c / 0x1000 < 16 && c == c / 0x1000 * 0x1000 + c / 0x100 % 16 * 0x100 + c / 16 % 16 * 16 + c % 16
  {
    var q, r := c / 16, c / 0x100;
    assert q / 16 == r && r / 16 == c / 0x1000;
    assert q == 16 * r + q % 16 && r == 16 * (c / 0x1000) + r % 16;
  }

  lemma UnitReadBack(c: Unit, rest: Text)
    ensures ReadUnit(EscapeUnit(c) + rest) == Some((c, rest))
  {
    var e := EscapeUnit(c);
    if |e| == 6 {
      HexDigits(c);
      HexReadBack(c, c / 0x1000, c / 0x100 % 16, c / 16 % 16, c % 16, rest);
    } else {
      assert (e + rest)[|e|..] == rest;
    }
  }

  lemma Associate(a: Text, b: Text, c: Text)
    ensures (a + b) + c == a + (b + c)
  {
  }

  lemma Behind(c: Unit, more: Text)
    ensures ([c] + more)[1..] == more
  {
  }

  lemma RawStep(c: Unit, more: Text, t: Text, rest: Text)
    requires c != QUOTE && c != BACKSLASH && ReadString(more) == Some((t, rest))
    ensures ReadString([c] + more) == Some(([c] + t, rest))
  {
    assert ([c] + more)[1..] == more;
  }

  lemma PairStep(c: Unit, d: Unit, more: Text, t: Text, rest: Text)
    requires c >= 0xd800 && d >= 0xd800 && ReadString(more) == Some((t, rest))
    ensures ReadString([c, d] + more) == Some(([c, d] + t, rest))
  {
    RawStep(d, more, t, rest);
    RawStep(c, [d] + more, [d] + t, rest);
    assert [c, d] + more == [c] + ([d] + more);
    assert [c, d] + t == [c] + ([d] + t);
  }

  lemma UnitStep(c: Unit, more: Text, t: Text, rest: Text)
    requires ReadString(more) == Some((t, rest))
    ensures ReadString(EscapeUnit(c) + more) == Some(([c] + t, rest))
  {
    UnitReadBack(c, more);
    assert EscapeUnit(c)[0] != QUOTE;
  }

  lemma {:induction false} StringReadBack(s: Text, rest: Text)
    ensures ReadString(Escaped(s) + ([QUOTE] + rest)) == Some((s, rest))
    decreases |s|
  {
    var tail := [QUOTE] + rest;
    if s == [] {
      assert Escaped(s) + tail == tail && tail[1..] == rest;
    } else if |s| >= 2 && 0xd800 <= s[0] <= 0xdbff && 0xdc00 <= s[1] <= 0xdfff {
      var more := Escaped(s[2..]) + tail;
      StringReadBack(s[2..], rest);
      PairStep(s[0], s[1], more, s[2..], rest);
      Associate([s[0], s[1]], Escaped(s[2..]), tail);
      assert [s[0], s[1]] + s[2..] == s;
    } else {
      var more := Escaped(s[1..]) + tail;
      StringReadBack(s[1..], rest);
      UnitStep(s[0], more, s[1..], rest);
      Associate(EscapeUnit(s[0]), Escaped(s[1..]), tail);
      assert [s[0]] + s[1..] == s;
    }
  }

  lemma QuotedReadBack(s: Text, rest: Text)
    ensures Quoted(s) + rest == [QUOTE] + (Escaped(s) + ([QUOTE] + rest))
    ensures ReadString((Quoted(s) + rest)[1..]) == Some((s, rest))
  {
    var body, tail := Escaped(s), [QUOTE] + rest;
    StringReadBack(s, rest);
    Associate([QUOTE] + body, [QUOTE], rest);
    Associate([QUOTE], body, tail);
    Behind(QUOTE, body + tail);
  }

  /** Nothing that could continue a number follows. */
  predicate Delimited(rest: Text) {
    rest == [] || !IsNumberUnit(rest[0])
  }

  lemma {:induction false} NumberReadBack(token: Text, rest: Text)
    requires (forall i :: 0 <= i < |token| ==> IsNumberUnit(token[i])) && Delimited(rest)
    ensures ReadNumber(token + rest) == (token, rest)
  {
    if token == [] {
      assert token + rest == rest;
    } else {
      assert (token + rest)[1..] == token[1..] + rest;
      NumberReadBack(token[1..], rest);
      assert [token[0]] + token[1..] == token;
    }
  }

  lemma ListStep(inner: Text, items: seq<Value>, rest: Text)
    requires inner != [] && inner[0] != CLOSE_BRACKET && ReadItems(inner) == Some((items, rest))
    ensures Read([OPEN_BRACKET] + inner) == Some((VArr(items), rest))
  {
    assert ([OPEN_BRACKET] + inner)[1..] == inner;
  }

  lemma ObjectStep(inner: Text, members: map<Text, Value>, rest: Text)
    requires inner != [] && inner[0] != CLOSE_BRACE && ReadMembers(inner) == Some((members, rest))
    ensures Read([OPEN_BRACE] + inner) == Some((VObj(members), rest))
  {
    assert ([OPEN_BRACE] + inner)[1..] == inner;
  }

  /** The theorem: whatever delimiter and text follow, reading gives the meaning and stops at the end. */
  lemma {:induction false} ReadBack(j: Json, rest: Text)
    requires WellFormed(j) && Delimited(rest)
    ensures Read(Canonical(j) + rest) == Some((Meaning(j), rest))
    decreases j, 0
  {
    var x := Canonical(j) + rest;
    match j
    case Null => assert x[4..] == rest;
    case Other => assert x[4..] == rest;
    case Bool(b) =>
      assert NULL[0] == 0x6e && TRUE[0] == 0x74 && x[0] == if b then 0x74 else 0x66;
      assert if b then x[4..] == rest else x[5..] == rest;
    case Num(token) => NumberReadBack(token, rest);
    case Str(s) => QuotedReadBack(s, rest);
    case Arr(items) => ArrayReadBack(items, rest);
    case Obj(members) => ObjectReadBack(members, rest);
  }

  lemma {:induction false} ArrayReadBack(items: seq<Json>, rest: Text)
    requires WellFormed(Arr(items))
    ensures Read(Canonical(Arr(items)) + rest) == Some((VArr(Meanings(items)), rest))
    decreases items, 2
  {
    var body, tail := ItemsText(items), [CLOSE_BRACKET] + rest;
    if items == [] {
      EmptyArray(rest);
      assert [OPEN_BRACKET] + [] + [CLOSE_BRACKET] == [OPEN_BRACKET, CLOSE_BRACKET];
    } else {
      ItemsReadBack(items, rest);
      ListStep(body + tail, Meanings(items), rest);
      Associate([OPEN_BRACKET] + body, [CLOSE_BRACKET], rest);
      Associate([OPEN_BRACKET], body, tail);
    }
  }

  lemma EmptyArray(rest: Text)
    ensures Read([OPEN_BRACKET, CLOSE_BRACKET] + rest) == Some((VArr([]), rest))
  {
    var x := [OPEN_BRACKET, CLOSE_BRACKET] + rest;
    assert x[0] != NULL[0] && x[0] != TRUE[0] && x[0] != FALSE[0];
    assert x[2..] == rest;
  }

  lemma {:induction false} ObjectReadBack(members: seq<Member>, rest: Text)
    requires WellFormed(Obj(members))
    ensures Read(Canonical(Obj(members)) + rest) == Some((Meaning(Obj(members)), rest))
    decreases members, |members| + 1
  {
    var tail, keys := [CLOSE_BRACE] + rest, Sorted(Keys(members));
    ObjectMeaning(members);
    if keys == [] {
      EmptyObject(rest);
      assert Canonical(Obj(members)) == [OPEN_BRACE, CLOSE_BRACE] && MeaningOf(members, keys) == map[];
    } else {
      MembersReadBack(members, keys, rest);
      ObjectStep(MembersText(members, keys) + tail, MeaningOf(members, keys), rest);
      Associate([OPEN_BRACE] + MembersText(members, keys), [CLOSE_BRACE], rest);
      Associate([OPEN_BRACE], MembersText(members, keys), tail);
    }
  }

  lemma EmptyObject(rest: Text)
    ensures Read([OPEN_BRACE, CLOSE_BRACE] + rest) == Some((VObj(map[]), rest))
  {
    var x := [OPEN_BRACE, CLOSE_BRACE] + rest;
    assert x[0] != NULL[0] && x[0] != TRUE[0] && x[0] != FALSE[0];
    assert x[2..] == rest;
  }

  lemma ObjectMeaning(members: seq<Member>)
    requires Distinct(Keys(members))
    ensures Meaning(Obj(members)) == VObj(MeaningOf(members, Sorted(Keys(members))))
  {
    var keys := Sorted(Keys(members));
    var m := MeaningOf(members, Keys(members));
    assert Meaning(Obj(members)).members == m;
    assert m.Keys == MeaningOf(members, keys).Keys;
  }

  lemma MeaningOfSplit(members: seq<Member>, keys: seq<Text>)
    requires keys != [] && forall k :: k in keys ==> k in Keys(members)
    ensures MeaningOf(members, keys) ==
            MeaningOf(members, keys[1..])[keys[0] := Meaning(members[IndexOf(members, keys[0])].value)]
    ensures |keys| == 1 ==> MeaningOf(members, keys[1..]) == map[]
  {
    FirstKey(keys);
    MeaningOfFirst(members, keys);
  }

  lemma MeaningOfFirst(members: seq<Member>, keys: seq<Text>)
    requires keys != [] && forall k :: k in keys ==> k in Keys(members)
    requires forall k :: k in keys <==> k == keys[0] || k in keys[1..]
    ensures MeaningOf(members, keys) ==
            MeaningOf(members, keys[1..])[keys[0] := Meaning(members[IndexOf(members, keys[0])].value)]
  {
    assert MeaningOf(members, keys).Keys == MeaningOf(members, keys[1..]).Keys + {keys[0]};
  }

  lemma FirstKey(keys: seq<Text>)
    requires keys != []
    ensures forall k :: k in keys <==> k == keys[0] || k in keys[1..]
    ensures |keys| == 1 ==> keys[1..] == []
  {
  }

  lemma LastItem(first: Text, v: Value, rest: Text)
    requires Read(first + ([CLOSE_BRACKET] + rest)) == Some((v, [CLOSE_BRACKET] + rest))
    ensures ReadItems(first + ([CLOSE_BRACKET] + rest)) == Some(([v], rest))
  {
    assert ([CLOSE_BRACKET] + rest)[1..] == rest;
  }

  lemma NextItem(first: Text, v: Value, more: Text, items: seq<Value>, rest: Text)
    requires Read(first + ([COMMA] + more)) == Some((v, [COMMA] + more)) && ReadItems(more) == Some((items, rest))
    ensures ReadItems(first + ([COMMA] + more)) == Some(([v] + items, rest))
  {
    assert ([COMMA] + more)[1..] == more;
  }

  lemma {:induction false} ItemsReadBack(items: seq<Json>, rest: Text)
    requires items != [] && forall i :: 0 <= i < |items| ==> WellFormed(items[i])
    ensures ReadItems(ItemsText(items) + ([CLOSE_BRACKET] + rest)) == Some((Meanings(items), rest))
    decreases items, 1
  {
    var first, v, tail := Canonical(items[0]), Meaning(items[0]), [CLOSE_BRACKET] + rest;
    if |items| == 1 {
      ReadBack(items[0], tail);
      LastItem(first, v, rest);
      assert items[1..] == [] && Meanings(items) == [v];
    } else {
      var more := ItemsText(items[1..]) + tail;
      ReadBack(items[0], [COMMA] + more);
      ItemsReadBack(items[1..], rest);
      NextItem(first, v, more, Meanings(items[1..]), rest);
      Associate(first + [COMMA], ItemsText(items[1..]), tail);
      Associate(first, [COMMA], more);
    }
  }

  function MeaningOf(members: seq<Member>, keys: seq<Text>): map<Text, Value>
    requires forall k :: k in keys ==> k in Keys(members)
  {
    map k | k in keys :: Meaning(members[IndexOf(members, k)].value)
  }

  lemma LastMember(k: Text, value: Text, v: Value, rest: Text)
    requires Read(value + ([CLOSE_BRACE] + rest)) == Some((v, [CLOSE_BRACE] + rest))
    ensures ReadMembers(Quoted(k) + ([COLON] + (value + ([CLOSE_BRACE] + rest)))) == Some((map[k := v], rest))
  {
    var after := value + ([CLOSE_BRACE] + rest);
    QuotedReadBack(k, [COLON] + after);
    assert ([COLON] + after)[1..] == after && ([CLOSE_BRACE] + rest)[1..] == rest;
  }

  lemma NextMember(k: Text, value: Text, v: Value, more: Text, members: map<Text, Value>, rest: Text)
    requires Read(value + ([COMMA] + more)) == Some((v, [COMMA] + more)) && ReadMembers(more) == Some((members, rest))
    ensures ReadMembers(Quoted(k) + ([COLON] + (value + ([COMMA] + more)))) == Some((members[k := v], rest))
  {
    var after := value + ([COMMA] + more);
    QuotedReadBack(k, [COLON] + after);
    assert ([COLON] + after)[1..] == after && ([COMMA] + more)[1..] == more;
  }

  lemma Regroup(a: Text, b: Text, c: Text, d: Text, e: Text, f: Text)
    ensures ((a + b + c) + d + e) + f == a + (b + (c + (d + (e + f))))
  {
  }

  lemma {:induction false} MembersReadBack(members: seq<Member>, keys: seq<Text>, rest: Text)
    requires forall i :: 0 <= i < |members| ==> WellFormed(members[i].value)
    requires keys != [] && forall k :: k in keys ==> k in Keys(members)
    ensures ReadMembers(MembersText(members, keys) + ([CLOSE_BRACE] + rest)) == Some((MeaningOf(members, keys), rest))
    decreases members, |keys|
  {
    var k, tail := keys[0], [CLOSE_BRACE] + rest;
    var j := members[IndexOf(members, k)].value;
    var value, v := Canonical(j), Meaning(j);
    if |keys| == 1 {
      ReadBack(j, tail);
      LastMember(k, value, v, rest);
      Regroup(Quoted(k), [COLON], value, [], [], tail);
      assert [] + ([] + tail) == tail && Quoted(k) + [COLON] + value + [] + [] == MembersText(members, keys);
      MeaningOfSplit(members, keys);
    } else {
      var more := MembersText(members, keys[1..]) + tail;
      ReadBack(j, [COMMA] + more);
      MembersReadBack(members, keys[1..], rest);
      NextMember(k, value, v, more, MeaningOf(members, keys[1..]), rest);
      Regroup(Quoted(k), [COLON], value, [COMMA], MembersText(members, keys[1..]), tail);
      MeaningOfSplit(members, keys);
    }
  }

  // ----- Equal meanings have equal texts ------------------------------------

  lemma {:induction false} SameText(a: Json, b: Json)
    requires WellFormed(a) && WellFormed(b) && Meaning(a) == Meaning(b)
    ensures Canonical(a) == Canonical(b)
    decreases a, 0
  {
    match a
    case Arr(items) => SameItems(items, b.items);
    case Obj(members) =>
      var m := Meaning(a).members;
      assert m == Meaning(b).members;
      assert forall k :: k in Keys(members) <==> k in m;
      assert forall k :: k in Keys(b.members) <==> k in m;
      AscendingUnique(Sorted(Keys(members)), Sorted(Keys(b.members)));
      SameMembers(members, b.members, Sorted(Keys(members)), m);
    case _ =>
  }

  lemma {:induction false} SameItems(a: seq<Json>, b: seq<Json>)
    requires forall i :: 0 <= i < |a| ==> WellFormed(a[i])
    requires forall i :: 0 <= i < |b| ==> WellFormed(b[i])
    requires Meanings(a) == Meanings(b)
    ensures ItemsText(a) == ItemsText(b)
    decreases a, 1
  {
    assert |a| == |Meanings(a)| == |b|;
    if a != [] {
      assert Meanings(a)[0] == Meanings(b)[0] && Meanings(a)[1..] == Meanings(b)[1..];
      SameText(a[0], b[0]);
      SameItems(a[1..], b[1..]);
    }
  }

  lemma {:induction false} SameMembers(a: seq<Member>, b: seq<Member>, keys: seq<Text>, m: map<Text, Value>)
    requires forall i :: 0 <= i < |a| ==> WellFormed(a[i].value)
    requires forall i :: 0 <= i < |b| ==> WellFormed(b[i].value)
    requires forall k :: k in keys ==> k in Keys(a) && k in Keys(b) && k in m
    requires forall k :: k in keys ==> Meaning(a[IndexOf(a, k)].value) == m[k] == Meaning(b[IndexOf(b, k)].value)
    ensures MembersText(a, keys) == MembersText(b, keys)
    decreases a, |keys|
  {
    if keys != [] {
      SameText(a[IndexOf(a, keys[0])].value, b[IndexOf(b, keys[0])].value);
      SameMembers(a, b, keys[1..], m);
    }
  }

  /**
   * The canonical text is injective and blind to the order of members: two policies
   * have the same text exactly when they say the same, at every depth.
   */
  lemma CanonicalIff(a: Json, b: Json)
    requires WellFormed(a) && WellFormed(b)
    ensures Canonical(a) == Canonical(b) <==> Meaning(a) == Meaning(b)
  {
    ReadBack(a, []);
    ReadBack(b, []);
    assert Canonical(a) + [] == Canonical(a) && Canonical(b) + [] == Canonical(b);
    if Meaning(a) == Meaning(b) { SameText(a, b); }
  }

  // ----- Meaning, said without values ---------------------------------------

  predicate IsNullish(j: Json) { j.Null? || j.Other? }

  /** Two policies say the same: the same scalar, the same items in order, or the same members under the same keys. */
  ghost predicate SaysSame(a: Json, b: Json)
    decreases a
  {
    match a
    case Null => IsNullish(b)
    case Other => IsNullish(b)
    case Bool(x) => b.Bool? && b.b == x
    case Num(token) => b.Num? && b.token == token
    case Str(s) => b.Str? && b.s == s
    case Arr(items) =>
      b.Arr? && |b.items| == |items| && forall i :: 0 <= i < |items| ==> SaysSame(items[i], b.items[i])
    case Obj(members) =>
      && b.Obj? && (forall k :: k in Keys(members) <==> k in Keys(b.members))
      && forall k :: k in Keys(members) ==>
           SaysSame(members[IndexOf(members, k)].value, b.members[IndexOf(b.members, k)].value)
  }

  lemma {:induction false} MeaningsAt(items: seq<Json>, i: nat)
    requires i < |items|
    ensures Meanings(items)[i] == Meaning(items[i])
  {
    if i > 0 { MeaningsAt(items[1..], i - 1); }
  }

  lemma {:induction false} SameIsMeaning(a: Json, b: Json)
    ensures SaysSame(a, b) <==> Meaning(a) == Meaning(b)
    decreases a
  {
    if a.Arr? && b.Arr? && |a.items| == |b.items| {
      forall i | 0 <= i < |a.items|
        ensures SaysSame(a.items[i], b.items[i]) <==> Meanings(a.items)[i] == Meanings(b.items)[i]
      {
        MeaningsAt(a.items, i);
        MeaningsAt(b.items, i);
        SameIsMeaning(a.items[i], b.items[i]);
      }
    } else if a.Obj? && b.Obj? {
      var m, n := a.members, b.members;
      forall k | k in Keys(m) && k in Keys(n)
        ensures SaysSame(m[IndexOf(m, k)].value, n[IndexOf(n, k)].value) <==> ValueOf(m, k) == ValueOf(n, k)
      {
        SameIsMeaning(m[IndexOf(m, k)].value, n[IndexOf(n, k)].value);
      }
      MembersSame(m, n);
      MembersMean(m);
      MembersMean(n);
      if SameValues(m, n) { SameMaps(m, n); }
      if MapOf(m) == MapOf(n) { MapsSame(m, n); }
    }
  }

  function ValueOf(members: seq<Member>, k: Text): Value
    requires k in Keys(members)
  {
    Meaning(members[IndexOf(members, k)].value)
  }

  ghost predicate SameValues(m: seq<Member>, n: seq<Member>) {
    && (forall k :: k in Keys(m) <==> k in Keys(n))
    && (forall k :: k in Keys(m) && k in Keys(n) ==> ValueOf(m, k) == ValueOf(n, k))
  }

  lemma MembersMean(members: seq<Member>)
    ensures Meaning(Obj(members)).members == MapOf(members)
  {
  }

  function MapOf(members: seq<Member>): map<Text, Value> { map k | k in Keys(members) :: ValueOf(members, k) }

  lemma SameMaps(m: seq<Member>, n: seq<Member>)
    requires SameValues(m, n)
    ensures MapOf(m) == MapOf(n)
  {
    assert MapOf(m).Keys == MapOf(n).Keys;
  }

  lemma MapsSame(m: seq<Member>, n: seq<Member>)
    requires MapOf(m) == MapOf(n)
    ensures SameValues(m, n)
  {
    forall k ensures k in Keys(m) <==> k in Keys(n) {
      assert k in Keys(m) <==> k in MapOf(m);
    }
    forall k | k in Keys(m) && k in Keys(n) ensures ValueOf(m, k) == ValueOf(n, k) {
      assert MapOf(m)[k] == ValueOf(m, k) && MapOf(n)[k] == ValueOf(n, k);
    }
  }

  lemma MembersSame(m: seq<Member>, n: seq<Member>)
    requires forall k :: k in Keys(m) && k in Keys(n) ==>
               (SaysSame(m[IndexOf(m, k)].value, n[IndexOf(n, k)].value) <==> ValueOf(m, k) == ValueOf(n, k))
    ensures SaysSame(Obj(m), Obj(n)) <==> SameValues(m, n)
  {
  }

  /** So the text identifies a policy exactly up to what it says. */
  lemma TextIsWhatIsSaid(a: Json, b: Json)
    requires WellFormed(a) && WellFormed(b)
    ensures Canonical(a) == Canonical(b) <==> SaysSame(a, b)
  {
    CanonicalIff(a, b);
    SameIsMeaning(a, b);
  }
}
