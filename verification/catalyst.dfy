/**
 * Reading and verifying the alternative half of a certificate
 * (`privsvc/shared/catalyst.ts`).
 */
module Catalyst {
  import opened Js
  import opened Der
  import opened DerRoundTrip
  import MlDsa

  const ALT_SPKI: Bytes := [0x55, 0x1d, 0x48]
  const ALT_SIG_VALUE: Bytes := [0x55, 0x1d, 0x4a]
  const EXTENSIONS: Byte := 0xa3

  datatype Verdict = Absent | Valid | Invalid | Unverifiable

  // ----- The code -----------------------------------------------------------

  function FindTag(ts: seq<Item>, tag: Byte): Option<Item> {
    if ts == [] then None else if ts[0].tag == tag then Some(ts[0]) else FindTag(ts[1..], tag)
  }

  /** The TBS and the SEQUENCE of its extensions, as both readers locate them. */
  function Locate(cert: Bytes, root: Item): Run<Option<(Item, Item, Item)>> {
    var top :- ChildrenOf(cert, root);
    if top == [] then Done(None)
    else
      var fields :- ChildrenOf(cert, top[0]);
      var wrapper := FindTag(fields, EXTENSIONS);
      if wrapper.None? then Done(None)
      else
        var list := TlvAt(cert, wrapper.value.start);
        if list.None? || list.value.tag != SEQUENCE then Done(None)
        else Done(Some((top[0], wrapper.value, list.value)))
  }

  predicate StartsWithOid(cert: Bytes, kids: seq<Item>, oid: Bytes) {
    kids != [] && ContentOf(cert, kids[0]) == oid
  }

  function FirstValue(cert: Bytes, exts: seq<Item>, oid: Bytes): Run<Option<Bytes>> {
    if exts == [] then Done(None)
    else
      var kids :- ChildrenOf(cert, exts[0]);
      if StartsWithOid(cert, kids, oid) then Done(Some(ContentOf(cert, kids[|kids| - 1])))
      else FirstValue(cert, exts[1..], oid)
  }

  /** `extensionsOf` followed by the search of `extensionValue`. */
  function ExtensionValueOf(cert: Bytes, oid: Bytes): Run<Option<Bytes>> {
    var root := TlvAt(cert, 0);
    if root.None? || root.value.tag != SEQUENCE then Done(None)
    else
      var place :- Locate(cert, root.value);
      if place.None? then Done(None)
      else
        var exts :- ChildrenOf(cert, place.value.2);
        FirstValue(cert, exts, oid)
  }

  method ExtensionValue(cert: Bytes, oid: Bytes) returns (r: Option<Bytes>)
    requires ExtensionValueOf(cert, oid).Done?
    ensures Done(r) == ExtensionValueOf(cert, oid)
  {
    var root := ReadTlv(cert, 0);
    if root.None? || root.value.tag != SEQUENCE { return None; }
    var place := Locate(cert, root.value).value;
    if place.None? { return None; }
    var exts := Children(cert, place.value.2);
    for i := 0 to |exts|
      invariant FirstValue(cert, exts, oid) == FirstValue(cert, exts[i..], oid)
    {
      var kids := Children(cert, exts[i]);
      if StartsWithOid(cert, kids, oid) { return Some(ContentOf(cert, kids[|kids| - 1])); }
      assert exts[i..][1..] == exts[i + 1..];
    }
    return None;
  }

  function SubjectAltSpkiOf(cert: Bytes): Run<Option<Bytes>> {
    ExtensionValueOf(cert, ALT_SPKI)
  }

  function SignatureBits(v: Bytes): Option<Bytes> {
    var bits := TlvAt(v, 0);
    if bits.None? || bits.value.tag != BIT_STRING || bits.value.length < 2 then None
    else Some(Subarray(v, bits.value.start + 1, bits.value.end))
  }

  function AltSignatureValueOf(cert: Bytes): Run<Option<Bytes>> {
    var v :- ExtensionValueOf(cert, ALT_SIG_VALUE);
    Done(if v.None? then None else SignatureBits(v.value))
  }

  /** The raw bytes of every extension but those with the identifier `oid`, and whether there was one. */
  function Kept(cert: Bytes, exts: seq<Item>, oid: Bytes): Run<(seq<Bytes>, bool)> {
    if exts == [] then Done(([], false))
    else
      var kids :- ChildrenOf(cert, exts[0]);
      var rest :- Kept(cert, exts[1..], oid);
      if StartsWithOid(cert, kids, oid) then Done((rest.0, true))
      else Done(([RawOf(cert, exts[0])] + rest.0, rest.1))
  }

  function StrippedBody(cert: Bytes): Run<Option<Bytes>> {
    var root := TlvAt(cert, 0);
    if root.None? then Done(None)
    else
      var place :- Locate(cert, root.value);
      if place.None? then Done(None)
      else
        var exts :- ChildrenOf(cert, place.value.2);
        var kept :- Kept(cert, exts, ALT_SIG_VALUE);
        if !kept.1 then Done(None)
        else
          var before := Subarray(cert, place.value.0.start, place.value.1.offset);
          Done(Some(Seq([before, Tlv(EXTENSIONS, Seq(kept.0))])))
  }

  method KeepOthers(cert: Bytes, exts: seq<Item>, oid: Bytes) returns (kept: seq<Bytes>, had: bool)
    requires Kept(cert, exts, oid).Done?
    ensures Kept(cert, exts, oid) == Done((kept, had))
  {
    kept, had := [], false;
    assert exts[0..] == exts;
    for i := 0 to |exts|
      invariant Kept(cert, exts[i..], oid).Done?
      invariant Kept(cert, exts, oid).value.0 == kept + Kept(cert, exts[i..], oid).value.0
      invariant Kept(cert, exts, oid).value.1 == (had || Kept(cert, exts[i..], oid).value.1)
    {
      assert exts[i..][0] == exts[i] && exts[i..][1..] == exts[i + 1..];
      var kids := Children(cert, exts[i]);
      if StartsWithOid(cert, kids, oid) {
        had := true;
        continue;
      }
      kept := kept + [RawOf(cert, exts[i])];
    }
    assert exts[|exts|..] == [] && kept + [] == kept;
  }

  method TbsWithoutAltSignatureValue(cert: Bytes) returns (r: Option<Bytes>)
    requires StrippedBody(cert).Done?
    ensures Done(r) == StrippedBody(cert)
  {
    var root := ReadTlv(cert, 0);
    if root.None? { return None; }
    var place := Locate(cert, root.value).value;
    if place.None? { return None; }
    var exts := Children(cert, place.value.2);
    var kept, had74 := KeepOthers(cert, exts, ALT_SIG_VALUE);
    if !had74 { return None; }
    var before := Subarray(cert, place.value.0.start, place.value.1.offset);
    return Some(Seq([before, Tlv(EXTENSIONS, Seq(kept))]));
  }

  function Classify(p: MlDsa.Primitive, cert: Bytes, issuerAltSpki: Option<Bytes>): Run<Verdict> {
    var alt :- SubjectAltSpkiOf(cert);
    if alt.None? then Done(Absent)
    else if issuerAltSpki.None? then Done(Unverifiable)
    else
      var body :- StrippedBody(cert);
      var signature :- AltSignatureValueOf(cert);
      if body.None? || signature.None? then Done(Invalid)
      else if MlDsa.Verify(p, signature.value, body.value, issuerAltSpki.value) then Done(Valid)
      else Done(Invalid)
  }

  // ----- When a classification ends -----------------------------------------

  /** The lists that locating the extensions goes through, below the TBS. */
  function BelowBody(cert: Bytes, tbs: Item): seq<Item> {
    var fields := ChildrenOf(cert, tbs);
    if fields.Hangs? then []
    else
      var wrapper := FindTag(fields.value, EXTENSIONS);
      if wrapper.None? then []
      else
        var list := TlvAt(cert, wrapper.value.start);
        if list.None? || list.value.tag != SEQUENCE then []
        else [list.value] + (if ChildrenOf(cert, list.value).Done? then ChildrenOf(cert, list.value).value else [])
  }

  /** The lists in arbitrary bytes that a classification can walk: down to the extensions, then each of them. */
  function Walked(cert: Bytes): seq<Item> {
    var root := TlvAt(cert, 0);
    if root.None? || root.value.tag != SEQUENCE then []
    else
      var top := ChildrenOf(cert, root.value);
      [root.value] + (if top.Hangs? || top.value == [] then [] else [top.value[0]] + BelowBody(cert, top.value[0]))
  }

  /** The loop of `children` makes only so many turns. */
  ghost predicate Ends(buf: Bytes, list: Item) {
    exists n: nat :: !Turns(buf, list.start, list.end, n)
  }

  predicate AllDone(buf: Bytes, lists: seq<Item>) {
    forall list :: list in lists ==> ChildrenOf(buf, list).Done?
  }

  ghost predicate AllEnd(buf: Bytes, lists: seq<Item>) {
    forall list :: list in lists ==> Ends(buf, list)
  }

  predicate AllPlain(buf: Bytes, lists: seq<Item>) {
    forall list :: list in lists ==> MetPlain(buf, list.start, list.end)
  }

  lemma EndsExactly(buf: Bytes, list: Item)
    ensures ChildrenOf(buf, list).Done? <==> Ends(buf, list)
  {
    if ChildrenOf(buf, list).Done? {
      var n := EndingTurns(buf, list.start, list.end, {});
    } else if Ends(buf, list) {
      var n: nat :| !Turns(buf, list.start, list.end, n);
      HangingTurns(buf, list.start, list.end, {}, n);
    }
  }

  lemma DoneIsEnding(buf: Bytes, lists: seq<Item>)
    ensures AllDone(buf, lists) <==> AllEnd(buf, lists)
    ensures AllPlain(buf, lists) ==> AllDone(buf, lists)
  {
    forall list | list in lists
      ensures ChildrenOf(buf, list).Done? <==> Ends(buf, list)
      ensures MetPlain(buf, list.start, list.end) ==> ChildrenOf(buf, list).Done?
    {
      EndsExactly(buf, list);
      ChildrenAdvance(buf, list);
    }
  }

  lemma {:induction false} SearchEnds(cert: Bytes, exts: seq<Item>, oid: Bytes)
    ensures AllDone(cert, exts) ==> FirstValue(cert, exts, oid).Done?
    ensures FirstValue(cert, exts, oid) == Done(None) ==> AllDone(cert, exts)
  {
    if exts == [] {
    } else {
      SearchEnds(cert, exts[1..], oid);
      DoneFirst(cert, exts);
    }
  }

  lemma DoneFirst(cert: Bytes, exts: seq<Item>)
    requires exts != []
    ensures AllDone(cert, exts) <==> ChildrenOf(cert, exts[0]).Done? && AllDone(cert, exts[1..])
  {
    assert exts == [exts[0]] + exts[1..];
  }

  lemma {:induction false} KeptEnds(cert: Bytes, exts: seq<Item>, oid: Bytes)
    ensures Kept(cert, exts, oid).Done? <==> AllDone(cert, exts)
  {
    if exts == [] {
    } else {
      KeptEnds(cert, exts[1..], oid);
      DoneFirst(cert, exts);
    }
  }

  /** Once the extensions are located, only their own lists are left to walk. */
  lemma WalkedIs(cert: Bytes, root: Item)
    requires TlvAt(cert, 0) == Some(root) && root.tag == SEQUENCE
    ensures AllDone(cert, Walked(cert)) ==> Locate(cert, root).Done?
    ensures Locate(cert, root) == Done(None) ==> AllDone(cert, Walked(cert))
    ensures Locate(cert, root).Done? && Locate(cert, root).value.Some? ==>
              var exts := ChildrenOf(cert, Locate(cert, root).value.value.2);
              AllDone(cert, Walked(cert)) <==> exts.Done? && AllDone(cert, exts.value)
  {
    var lists, top := Walked(cert), ChildrenOf(cert, root);
    assert lists[0] == root;
    if top.Done? && top.value != [] {
      var tbs := top.value[0];
      assert lists == [root, tbs] + BelowBody(cert, tbs) && lists[1] == tbs;
      if Locate(cert, root).Done? && Locate(cert, root).value.Some? {
        var list := Locate(cert, root).value.value.2;
        assert BelowBody(cert, tbs)[0] == list && lists[2] == list;
      }
    }
  }

  /** Looking an extension up ends if all lists do, and if it finds nothing they did. */
  lemma LookupEnds(cert: Bytes, oid: Bytes)
    ensures AllDone(cert, Walked(cert)) ==> ExtensionValueOf(cert, oid).Done?
    ensures ExtensionValueOf(cert, oid) == Done(None) ==> AllDone(cert, Walked(cert))
  {
    var root := TlvAt(cert, 0);
    if root.Some? && root.value.tag == SEQUENCE {
      WalkedIs(cert, root.value);
      var place := Locate(cert, root.value);
      if place.Done? && place.value.Some? && ChildrenOf(cert, place.value.value.2).Done? {
        SearchEnds(cert, ChildrenOf(cert, place.value.value.2).value, oid);
      }
    }
  }

  /** Rebuilding the body of a certificate with a key ends exactly when all lists do. */
  lemma StrippingEnds(cert: Bytes)
    ensures SubjectAltSpkiOf(cert).Done? && SubjectAltSpkiOf(cert).value.Some? ==>
              (StrippedBody(cert).Done? <==> AllDone(cert, Walked(cert)))
  {
    var root := TlvAt(cert, 0);
    if root.Some? && root.value.tag == SEQUENCE {
      WalkedIs(cert, root.value);
      var place := Locate(cert, root.value);
      if place.Done? && place.value.Some? && ChildrenOf(cert, place.value.value.2).Done? {
        KeptEnds(cert, ChildrenOf(cert, place.value.value.2).value, ALT_SIG_VALUE);
      }
    }
  }

  /** What a classification waits for: the key, and with an issuer the stripped body and the signature. */
  lemma ClassifyWaits(p: MlDsa.Primitive, cert: Bytes, issuer: Option<Bytes>)
    ensures Classify(p, cert, issuer).Done? <==>
              && SubjectAltSpkiOf(cert).Done?
              && (SubjectAltSpkiOf(cert).value.Some? && issuer.Some? ==>
                    StrippedBody(cert).Done? && ExtensionValueOf(cert, ALT_SIG_VALUE).Done?)
  {
  }

  /**
   * On arbitrary bytes, with an issuer to verify under, a classification ends if and only
   * if every list it can walk does; without one it may end earlier, never later.
   */
  lemma ClassifiedExactly(p: MlDsa.Primitive, cert: Bytes, issuer: Option<Bytes>)
    ensures AllEnd(cert, Walked(cert)) ==> Classify(p, cert, issuer).Done?
    ensures issuer.Some? && Classify(p, cert, issuer).Done? ==> AllEnd(cert, Walked(cert))
  {
    DoneIsEnding(cert, Walked(cert));
    ClassifyWaits(p, cert, issuer);
    LookupEnds(cert, ALT_SPKI);
    LookupEnds(cert, ALT_SIG_VALUE);
    StrippingEnds(cert);
  }

  /** If none of the lists a classification can walk meets a length that wraps, it ends. */
  lemma PlainIsClassified(p: MlDsa.Primitive, cert: Bytes, issuer: Option<Bytes>)
    requires AllPlain(cert, Walked(cert))
    ensures Classify(p, cert, issuer).Done? && SubjectAltSpkiOf(cert).Done?
  {
    DoneIsEnding(cert, Walked(cert));
    ClassifiedExactly(p, cert, issuer);
    LookupEnds(cert, ALT_SPKI);
  }

  /** A reader that never ends is a classification that never ends, on eight bytes already. */
  lemma WrappedLengthNeverClassified(p: MlDsa.Primitive, issuer: Option<Bytes>)
    ensures Classify(p, WRAPPED_LENGTH, issuer) == Hangs
  {
    WrappedLengthNeverEnds();
  }

  // ----- What an issuer writes ----------------------------------------------

  /** One extension with the TLVs it is made of: identifier, optional `critical`, value. */
  datatype Extension = Extension(raw: Bytes, parts: seq<Bytes>) {
    predicate WellFormed() {
      IsTlv(raw) && AllTlv(parts) && Content(raw) == Concat(parts)
    }

    predicate Has(oid: Bytes)
      requires WellFormed()
    {
      parts != [] && Content(parts[0]) == oid
    }
  }

  predicate AllWellFormed(exts: seq<Extension>) {
    forall i :: 0 <= i < |exts| ==> exts[i].WellFormed()
  }

  function Raws(exts: seq<Extension>): (r: seq<Bytes>)
    ensures |r| == |exts| && forall i :: 0 <= i < |exts| ==> r[i] == exts[i].raw
  {
    if exts == [] then [] else [exts[0].raw] + Raws(exts[1..])
  }

  function Without(exts: seq<Extension>, oid: Bytes): seq<Extension>
    requires AllWellFormed(exts)
  {
    if exts == [] then []
    else if exts[0].Has(oid) then Without(exts[1..], oid) else [exts[0]] + Without(exts[1..], oid)
  }

  predicate Mentions(exts: seq<Extension>, oid: Bytes)
    requires AllWellFormed(exts)
  {
    exists i :: 0 <= i < |exts| && exts[i].Has(oid)
  }

  /** TBSCertificate of RFC 5280 section 4.1: the fields before [3], then the extensions. */
  function Body(fields: seq<Bytes>, exts: seq<Extension>): Bytes {
    Seq([Concat(fields), Tlv(EXTENSIONS, Seq(Raws(exts)))])
  }

  /** The certificate: the body, then the signature algorithm and the classic signature. */
  function Certificate(fields: seq<Bytes>, exts: seq<Extension>, tail: seq<Bytes>): Bytes {
    Seq([Body(fields, exts)] + tail)
  }

  /** No field before the extensions is tagged [3]. */
  predicate PlainFields(fields: seq<Bytes>) {
    AllTlv(fields) && forall i :: 0 <= i < |fields| ==> fields[i][0] != EXTENSIONS
  }

  predicate Issued(fields: seq<Bytes>, exts: seq<Extension>, tail: seq<Bytes>) {
    PlainFields(fields) && AllWellFormed(exts) && AllTlv(tail) && |Certificate(fields, exts, tail)| < TWO_31
  }

  /** An extension as the agent writes it: OID, `critical` only when true, OCTET STRING. */
  function NewExtension(oid: Bytes, critical: bool, value: Bytes): Extension {
    var flag := if critical then [Tlv(BOOLEAN, [0xff])] else [];
    var parts := [Oid(oid)] + flag + [OctetString(value)];
    Extension(Seq(parts), parts)
  }

  /** Extension 2.5.29.74 carrying `signature`. */
  function AltSignatureExtension(critical: bool, signature: Bytes): Extension {
    NewExtension(ALT_SIG_VALUE, critical, BitString(signature))
  }

  // ----- What the verifier finds there --------------------------------------

  lemma {:induction false} FindLast(ts: seq<Item>, tag: Byte)
    requires ts != [] && ts[|ts| - 1].tag == tag
    requires forall i :: 0 <= i < |ts| - 1 ==> ts[i].tag != tag
    ensures FindTag(ts, tag) == Some(ts[|ts| - 1])
  {
    if |ts| > 1 { FindLast(ts[1..], tag); }
  }

  /** The list of the extensions, inside the field tagged [3]. */
  lemma ListInside(cert: Bytes, wrapper: Item, exts: seq<Extension>) returns (list: Item, items: seq<Item>)
    requires AllWellFormed(exts) && |Seq(Raws(exts))| < TWO_31
    requires Reads(cert, wrapper, Tlv(EXTENSIONS, Seq(Raws(exts))))
    ensures TlvAt(cert, wrapper.start) == Some(list) && list.tag == SEQUENCE
    ensures ChildrenOf(cert, list) == Done(items) && |items| == |exts|
    ensures forall i :: 0 <= i < |exts| ==> Reads(cert, items[i], exts[i].raw)
  {
    var b := Seq(Raws(exts));
    WrittenIsTlv(EXTENSIONS, b);
    WrittenIsTlv(SEQUENCE, Concat(Raws(exts)));
    RawAndContent(cert, wrapper, Tlv(EXTENSIONS, b));
    TlvInside(cert, wrapper.start, b);
    list := TlvAt(cert, wrapper.start).value;
    RawAndContent(cert, list, b);
    items := ChildrenRecovered(cert, list, b, Raws(exts));
  }

  lemma BodyFits(fields: seq<Bytes>, exts: seq<Extension>, tail: seq<Bytes>)
    requires Issued(fields, exts, tail)
    ensures |Body(fields, exts)| < TWO_31
  {
    assert ([Body(fields, exts)] + tail)[1..] == tail;
    assert |Concat([Body(fields, exts)] + tail)| >= |Body(fields, exts)|;
  }

  lemma BodyFields(fields: seq<Bytes>, exts: seq<Extension>)
    requires PlainFields(fields) && AllWellFormed(exts) && |Body(fields, exts)| < TWO_31
    ensures var wrapped := Tlv(EXTENSIONS, Seq(Raws(exts)));
            && IsTlv(Body(fields, exts)) && IsTlv(wrapped) && wrapped[0] == EXTENSIONS
            && Content(Body(fields, exts)) == Concat(fields + [wrapped]) == Concat(fields) + wrapped
            && |Seq(Raws(exts))| < TWO_31
  {
    var list, start := Seq(Raws(exts)), Concat(fields);
    var wrapped := Tlv(EXTENSIONS, list);
    ConcatTwo(start, wrapped);
    SplitBody(start, list, wrapped);
    ConcatAppend(fields, [wrapped]);
  }

  lemma SplitBody(start: Bytes, list: Bytes, wrapped: Bytes)
    requires wrapped == Tlv(EXTENSIONS, list) && |Tlv(SEQUENCE, start + wrapped)| < TWO_31
    ensures IsTlv(Tlv(SEQUENCE, start + wrapped)) && Content(Tlv(SEQUENCE, start + wrapped)) == start + wrapped
    ensures IsTlv(wrapped) && wrapped[0] == EXTENSIONS && |list| < TWO_31
  {
    WrittenIsTlv(SEQUENCE, start + wrapped);
    WrittenIsTlv(EXTENSIONS, list);
  }

  lemma TagsRead(cert: Bytes, found: seq<Item>, parts: seq<Bytes>)
    requires |found| == |parts| && forall i :: 0 <= i < |parts| ==> Reads(cert, found[i], parts[i])
    ensures forall i :: 0 <= i < |parts| ==> parts[i] != [] && found[i].tag == parts[i][0]
  {
    forall i | 0 <= i < |parts| ensures parts[i] != [] && found[i].tag == parts[i][0] {
      RawAndContent(cert, found[i], parts[i]);
    }
  }

  lemma PrefixRead(cert: Bytes, t: Item, b: Bytes, pre: Bytes, post: Bytes)
    requires Reads(cert, t, b) && Content(b) == pre + post
    ensures Subarray(cert, t.start, t.start + |pre|) == pre
  {
    RawAndContent(cert, t, b);
    assert [] + pre + post == Content(b);
    EmbedsPart(cert, t.start, [], pre, post);
  }

  /** The field tagged [3] is the one found, and everything before it is `fields`. */
  lemma WrapperFound(cert: Bytes, tbs: Item, body: Bytes, fields: seq<Bytes>, wrapped: Bytes)
    returns (found: seq<Item>, wrapper: Item)
    requires PlainFields(fields) && IsTlv(wrapped) && wrapped[0] == EXTENSIONS
    requires Reads(cert, tbs, body) && Content(body) == Concat(fields + [wrapped]) == Concat(fields) + wrapped
    ensures ChildrenOf(cert, tbs) == Done(found) && FindTag(found, EXTENSIONS) == Some(wrapper)
    ensures Reads(cert, wrapper, wrapped)
    ensures Subarray(cert, tbs.start, wrapper.offset) == Concat(fields)
  {
    var parts := fields + [wrapped];
    WrappedParts(fields, wrapped, parts);
    found := ChildrenRecovered(cert, tbs, body, parts);
    TagFound(cert, found, parts);
    wrapper := found[|fields|];
    assert wrapper.offset == tbs.start + |Concat(fields)|;
    PrefixRead(cert, tbs, body, Concat(fields), wrapped);
  }

  lemma WrappedParts(fields: seq<Bytes>, wrapped: Bytes, parts: seq<Bytes>)
    requires PlainFields(fields) && IsTlv(wrapped) && wrapped[0] == EXTENSIONS && parts == fields + [wrapped]
    ensures AllTlv(parts) && parts[|fields|] == wrapped && Concat(parts[..|fields|]) == Concat(fields)
    ensures forall i :: 0 <= i < |fields| ==> parts[i] != [] && parts[i][0] != EXTENSIONS
  {
    assert parts[..|fields|] == fields;
    assert forall i :: 0 <= i < |fields| ==> parts[i] == fields[i];
  }

  lemma TagFound(cert: Bytes, found: seq<Item>, parts: seq<Bytes>)
    requires |found| == |parts| > 0 && forall i :: 0 <= i < |parts| ==> Reads(cert, found[i], parts[i])
    requires forall i :: 0 <= i < |parts| - 1 ==> parts[i] != [] && parts[i][0] != EXTENSIONS
    requires parts[|parts| - 1] != [] && parts[|parts| - 1][0] == EXTENSIONS
    ensures FindTag(found, EXTENSIONS) == Some(found[|parts| - 1])
  {
    TagsRead(cert, found, parts);
    FindLast(found, EXTENSIONS);
  }

  lemma TopRead(fields: seq<Bytes>, exts: seq<Extension>, tail: seq<Bytes>) returns (root: Item, top: seq<Item>)
    requires Issued(fields, exts, tail) && IsTlv(Body(fields, exts))
    ensures var cert := Certificate(fields, exts, tail);
            && TlvAt(cert, 0) == Some(root) && root.tag == SEQUENCE
            && ChildrenOf(cert, root) == Done(top) && top != [] && Reads(cert, top[0], Body(fields, exts))
  {
    var cert, parts := Certificate(fields, exts, tail), [Body(fields, exts)] + tail;
    WrittenIsTlv(SEQUENCE, Concat(parts));
    TlvInside(cert, 0, cert);
    root := TlvAt(cert, 0).value;
    RawAndContent(cert, root, cert);
    top := ChildrenRecovered(cert, root, cert, parts);
  }

  lemma CertificateRead(fields: seq<Bytes>, exts: seq<Extension>, tail: seq<Bytes>)
    returns (root: Item, place: (Item, Item, Item), items: seq<Item>)
    requires Issued(fields, exts, tail)
    ensures var cert := Certificate(fields, exts, tail);
            && TlvAt(cert, 0) == Some(root) && root.tag == SEQUENCE
            && Locate(cert, root) == Done(Some(place))
            && ChildrenOf(cert, place.2) == Done(items) && |items| == |exts|
            && (forall i :: 0 <= i < |exts| ==> Reads(cert, items[i], exts[i].raw))
            && Subarray(cert, place.0.start, place.1.offset) == Concat(fields)
  {
    var cert, body := Certificate(fields, exts, tail), Body(fields, exts);
    BodyFits(fields, exts, tail);
    BodyFields(fields, exts);
    var r, top := TopRead(fields, exts, tail);
    var found, wrapper := WrapperFound(cert, top[0], body, fields, Tlv(EXTENSIONS, Seq(Raws(exts))));
    var list, listed := ListInside(cert, wrapper, exts);
    root, place, items := r, (top[0], wrapper, list), listed;
  }

  lemma IdentifierRead(cert: Bytes, t: Item, ext: Extension, oid: Bytes) returns (kids: seq<Item>)
    requires ext.WellFormed() && Reads(cert, t, ext.raw)
    ensures ChildrenOf(cert, t) == Done(kids) && |kids| == |ext.parts|
    ensures forall i :: 0 <= i < |kids| ==> Reads(cert, kids[i], ext.parts[i])
    ensures StartsWithOid(cert, kids, oid) <==> ext.Has(oid)
    ensures RawOf(cert, t) == ext.raw
  {
    kids := ChildrenRecovered(cert, t, ext.raw, ext.parts);
    RawAndContent(cert, t, ext.raw);
    if kids != [] { RawAndContent(cert, kids[0], ext.parts[0]); }
  }

  lemma {:induction false} KeptAre(cert: Bytes, items: seq<Item>, exts: seq<Extension>, oid: Bytes)
    requires AllWellFormed(exts) && |items| == |exts|
    requires forall i :: 0 <= i < |exts| ==> Reads(cert, items[i], exts[i].raw)
    ensures Kept(cert, items, oid) == Done((Raws(Without(exts, oid)), Mentions(exts, oid)))
  {
    if exts != [] {
      var kids := IdentifierRead(cert, items[0], exts[0], oid);
      KeptAre(cert, items[1..], exts[1..], oid);
      assert Mentions(exts, oid) <==> exts[0].Has(oid) || Mentions(exts[1..], oid) by {
        if exts[0].Has(oid) { assert exts[0].Has(oid); }
        if Mentions(exts[1..], oid) {
          var i :| 0 <= i < |exts[1..]| && exts[1..][i].Has(oid);
          assert exts[i + 1].Has(oid);
        }
        if Mentions(exts, oid) {
          var i :| 0 <= i < |exts| && exts[i].Has(oid);
          if i > 0 { assert exts[1..][i - 1].Has(oid); }
        }
      }
    }
  }

  /**
   * Whatever the certificate, the verifier rebuilds the body with every extension
   * 2.5.29.74 taken out and all the other bytes as they were; without one it gives up.
   */
  lemma StrippedBodyIs(fields: seq<Bytes>, exts: seq<Extension>, tail: seq<Bytes>)
    requires Issued(fields, exts, tail)
    ensures StrippedBody(Certificate(fields, exts, tail)) ==
            Done(if Mentions(exts, ALT_SIG_VALUE) then Some(Body(fields, Without(exts, ALT_SIG_VALUE))) else None)
  {
    var root, place, items := CertificateRead(fields, exts, tail);
    KeptAre(Certificate(fields, exts, tail), items, exts, ALT_SIG_VALUE);
  }

  function FirstValueIn(exts: seq<Extension>, oid: Bytes): Option<Bytes>
    requires AllWellFormed(exts)
  {
    if exts == [] then None
    else if exts[0].Has(oid) then Some(Content(exts[0].parts[|exts[0].parts| - 1]))
    else FirstValueIn(exts[1..], oid)
  }

  lemma {:induction false} FirstValueRead(cert: Bytes, items: seq<Item>, exts: seq<Extension>, oid: Bytes)
    requires AllWellFormed(exts) && |items| == |exts|
    requires forall i :: 0 <= i < |exts| ==> Reads(cert, items[i], exts[i].raw)
    ensures FirstValue(cert, items, oid) == Done(FirstValueIn(exts, oid))
  {
    if exts != [] {
      var kids := IdentifierRead(cert, items[0], exts[0], oid);
      if kids != [] {
        RawAndContent(cert, kids[|kids| - 1], exts[0].parts[|kids| - 1]);
      }
      FirstValueRead(cert, items[1..], exts[1..], oid);
    }
  }

  /** The last part of the first extension with an identifier is what `extensionValue` returns. */
  lemma ExtensionValueIs(fields: seq<Bytes>, exts: seq<Extension>, tail: seq<Bytes>, oid: Bytes)
    requires Issued(fields, exts, tail)
    ensures ExtensionValueOf(Certificate(fields, exts, tail), oid) == Done(FirstValueIn(exts, oid))
  {
    var root, place, items := CertificateRead(fields, exts, tail);
    FirstValueRead(Certificate(fields, exts, tail), items, exts, oid);
  }

  // ----- The catalyst order -------------------------------------------------

  function Inserted(exts: seq<Extension>, k: nat, e: Extension): seq<Extension>
    requires k <= |exts|
  {
    exts[..k] + [e] + exts[k..]
  }

  lemma NotMentionedLater(exts: seq<Extension>, oid: Bytes)
    requires exts != [] && AllWellFormed(exts) && !Mentions(exts, oid)
    ensures !exts[0].Has(oid) && !Mentions(exts[1..], oid)
  {
    forall i | 0 <= i < |exts[1..]| ensures !exts[1..][i].Has(oid) {
      assert exts[1..][i] == exts[i + 1];
    }
  }

  lemma InsertedFormed(exts: seq<Extension>, k: nat, e: Extension)
    requires k <= |exts| && AllWellFormed(exts) && e.WellFormed()
    ensures AllWellFormed(Inserted(exts, k, e)) && Inserted(exts, k, e)[k] == e
  {
    var all := Inserted(exts, k, e);
    forall i | 0 <= i < |all| ensures all[i].WellFormed() {
      assert all[i] == if i < k then exts[i] else if i == k then e else exts[i - 1];
    }
  }

  lemma InsertedHead(exts: seq<Extension>, k: nat, e: Extension)
    requires k <= |exts|
    ensures k == 0 ==> Inserted(exts, k, e)[0] == e && Inserted(exts, k, e)[1..] == exts
    ensures k > 0 ==> Inserted(exts, k, e)[0] == exts[0] && Inserted(exts, k, e)[1..] == Inserted(exts[1..], k - 1, e)
  {
  }

  lemma {:induction false} InsertedIsRemoved(exts: seq<Extension>, k: nat, e: Extension, oid: Bytes,
                                             all: seq<Extension>)
    requires k <= |exts| && AllWellFormed(exts) && !Mentions(exts, oid) && e.WellFormed() && e.Has(oid)
    requires all == Inserted(exts, k, e) && AllWellFormed(all)
    ensures Without(all, oid) == exts
    decreases |exts|
  {
    InsertedHead(exts, k, e);
    if k == 0 {
      NothingToRemove(exts, oid);
    } else {
      NotMentionedLater(exts, oid);
      InsertedIsRemoved(exts[1..], k - 1, e, oid, all[1..]);
    }
  }

  lemma {:induction false} InsertedIsFirst(exts: seq<Extension>, k: nat, e: Extension, oid: Bytes, all: seq<Extension>)
    requires k <= |exts| && AllWellFormed(exts) && !Mentions(exts, oid) && e.WellFormed() && e.Has(oid)
    requires all == Inserted(exts, k, e) && AllWellFormed(all)
    ensures FirstValueIn(all, oid) == Some(Content(e.parts[|e.parts| - 1]))
    decreases |exts|
  {
    InsertedHead(exts, k, e);
    if k > 0 {
      NotMentionedLater(exts, oid);
      InsertedIsFirst(exts[1..], k - 1, e, oid, all[1..]);
    }
  }

  lemma InsertedIsFound(exts: seq<Extension>, k: nat, e: Extension, oid: Bytes)
    requires k <= |exts| && AllWellFormed(exts) && !Mentions(exts, oid) && e.WellFormed() && e.Has(oid)
    ensures AllWellFormed(Inserted(exts, k, e)) && Mentions(Inserted(exts, k, e), oid)
    ensures Without(Inserted(exts, k, e), oid) == exts
    ensures FirstValueIn(Inserted(exts, k, e), oid) == Some(Content(e.parts[|e.parts| - 1]))
  {
    var all := Inserted(exts, k, e);
    InsertedFormed(exts, k, e);
    assert all[k].Has(oid);
    InsertedIsRemoved(exts, k, e, oid, all);
    InsertedIsFirst(exts, k, e, oid, all);
  }

  lemma {:induction false} NothingToRemove(exts: seq<Extension>, oid: Bytes)
    requires AllWellFormed(exts) && !Mentions(exts, oid)
    ensures Without(exts, oid) == exts
  {
    if exts != [] {
      NotMentionedLater(exts, oid);
      NothingToRemove(exts[1..], oid);
    }
  }

  /** Other identifiers do not notice an insertion. */
  lemma {:induction false} InsertedElsewhere(exts: seq<Extension>, k: nat, e: Extension, oid: Bytes)
    requires k <= |exts| && AllWellFormed(exts) && e.WellFormed() && !e.Has(oid)
    ensures AllWellFormed(Inserted(exts, k, e))
    ensures FirstValueIn(Inserted(exts, k, e), oid) == FirstValueIn(exts, oid)
    decreases |exts|
  {
    var all := Inserted(exts, k, e);
    if k == 0 {
      assert all[0] == e && all[1..] == exts;
    } else {
      assert all[0] == exts[0] && all[1..] == Inserted(exts[1..], k - 1, e);
      InsertedElsewhere(exts[1..], k - 1, e, oid);
    }
  }

  /** The octet of unused bits is written and skipped; an empty signature is not accepted. */
  lemma SignatureBitsRead(signature: Bytes)
    requires |signature| + 1 < TWO_31
    ensures SignatureBits(BitString(signature)) == if signature == [] then None else Some(signature)
  {
    var b := BitString(signature);
    WrittenIsTlv(BIT_STRING, [0x00] + signature);
    assert Content(b) == [0x00] + signature;
    var t := TlvAt(b, 0).value;
    assert t.tag == BIT_STRING && t.length == |signature| + 1;
    assert Subarray(b, t.start + 1, t.end) == b[t.start..][1..] == signature;
  }

  lemma NewExtensionFormed(oid: Bytes, critical: bool, value: Bytes)
    requires |NewExtension(oid, critical, value).raw| < TWO_31
    ensures var e := NewExtension(oid, critical, value);
            && e.WellFormed() && e.parts != [] && Content(e.parts[0]) == oid
            && Content(e.parts[|e.parts| - 1]) == value
            && |value| < |e.raw|
  {
    var e := NewExtension(oid, critical, value);
    var id, flag, octets := Oid(oid), Tlv(BOOLEAN, [0xff]), OctetString(value);
    ConcatThree(id, flag, octets);
    ConcatTwo(id, octets);
    assert [id] + [flag] + [octets] == [id, flag, octets] && [id] + [] + [octets] == [id, octets];
    WrittenIsTlv(OID, oid);
    WrittenIsTlv(BOOLEAN, [0xff]);
    WrittenIsTlv(OCTET_STRING, value);
    WrittenIsTlv(SEQUENCE, Concat(e.parts));
  }

  lemma {:induction false} RawFits(exts: seq<Extension>, i: nat)
    requires i < |exts|
    ensures |exts[i].raw| <= |Concat(Raws(exts))|
  {
    if i > 0 { RawFits(exts[1..], i - 1); }
  }

  lemma CertificateFits(fields: seq<Bytes>, exts: seq<Extension>, tail: seq<Bytes>, i: nat)
    requires i < |exts|
    ensures |exts[i].raw| < |Certificate(fields, exts, tail)|
  {
    RawFits(exts, i);
    ConcatTwo(Concat(fields), Tlv(EXTENSIONS, Seq(Raws(exts))));
    assert ([Body(fields, exts)] + tail)[1..] == tail;
  }

  /** A certificate issued in the catalyst order: the body is signed, then 2.5.29.74 goes in anywhere. */
  function Catalyst(fields: seq<Bytes>, exts: seq<Extension>, tail: seq<Bytes>, k: nat, critical: bool,
                    signature: Bytes): Bytes
    requires k <= |exts|
  {
    Certificate(fields, Inserted(exts, k, AltSignatureExtension(critical, signature)), tail)
  }

  /**
   * From the certificate the verifier gets back exactly the bytes that were signed
   * and exactly the signature.
   */
  lemma CatalystRoundTrip(fields: seq<Bytes>, exts: seq<Extension>, tail: seq<Bytes>, k: nat, critical: bool,
                          signature: Bytes)
    requires PlainFields(fields) && AllWellFormed(exts) && AllTlv(tail) && k <= |exts|
    requires !Mentions(exts, ALT_SIG_VALUE)
    requires |Catalyst(fields, exts, tail, k, critical, signature)| < TWO_31
    ensures var cert := Catalyst(fields, exts, tail, k, critical, signature);
            && StrippedBody(cert) == Done(Some(Body(fields, exts)))
            && AltSignatureValueOf(cert) == Done(if signature == [] then None else Some(signature))
            && SubjectAltSpkiOf(cert) == Done(FirstValueIn(exts, ALT_SPKI))
  {
    var e := AltSignatureExtension(critical, signature);
    var all := Inserted(exts, k, e);
    CertificateFits(fields, all, tail, k);
    NewExtensionFormed(ALT_SIG_VALUE, critical, BitString(signature));
    assert ALT_SPKI[2] != ALT_SIG_VALUE[2];
    InsertedIsFound(exts, k, e, ALT_SIG_VALUE);
    InsertedElsewhere(exts, k, e, ALT_SPKI);
    StrippedBodyIs(fields, all, tail);
    ExtensionValueIs(fields, all, tail, ALT_SIG_VALUE);
    ExtensionValueIs(fields, all, tail, ALT_SPKI);
    SignatureBitsRead(signature);
  }

  /** The verdict on such a certificate hangs on the signature over the original body, and on nothing else. */
  lemma VerdictIs(p: MlDsa.Primitive, fields: seq<Bytes>, exts: seq<Extension>, tail: seq<Bytes>, k: nat,
                  critical: bool, signature: Bytes, issuer: Option<Bytes>)
    requires PlainFields(fields) && AllWellFormed(exts) && AllTlv(tail) && k <= |exts|
    requires !Mentions(exts, ALT_SIG_VALUE)
    requires |Catalyst(fields, exts, tail, k, critical, signature)| < TWO_31
    ensures Classify(p, Catalyst(fields, exts, tail, k, critical, signature), issuer) ==
            Done(if FirstValueIn(exts, ALT_SPKI).None? then Absent
                 else if issuer.None? then Unverifiable
                 else if signature != [] && MlDsa.Verify(p, signature, Body(fields, exts), issuer.value) then Valid
                 else Invalid)
  {
    CatalystRoundTrip(fields, exts, tail, k, critical, signature);
  }

  // ----- Any certificate ----------------------------------------------------

  lemma {:induction false} FirstIsMentioned(exts: seq<Extension>, oid: Bytes)
    requires AllWellFormed(exts)
    ensures FirstValueIn(exts, oid).Some? <==> Mentions(exts, oid)
  {
    if exts == [] {
    } else {
      FirstIsMentioned(exts[1..], oid);
      if Mentions(exts, oid) && !exts[0].Has(oid) {
        var i :| 0 <= i < |exts| && exts[i].Has(oid);
        assert exts[1..][i - 1].Has(oid);
      }
      if Mentions(exts[1..], oid) {
        var i :| 0 <= i < |exts[1..]| && exts[1..][i].Has(oid);
        assert exts[i + 1].Has(oid);
      }
    }
  }

  /** A value holds a signature exactly when it is a BIT STRING with something after the octet of unused bits. */
  lemma SignatureBitsAre(v: Bytes)
    requires IsTlv(v)
    ensures SignatureBits(v) == if v[0] == BIT_STRING && |Content(v)| >= 2 then Some(Content(v)[1..]) else None
  {
    var t := TlvAt(v, 0).value;
    assert t.tag == v[0] && t.length == |Content(v)|;
    if t.length >= 2 { assert Subarray(v, t.start + 1, t.end) == v[t.start..][1..]; }
  }

  /** The signature that a list of extensions carries. */
  function SignatureIn(exts: seq<Extension>): Option<Bytes>
    requires AllWellFormed(exts)
  {
    var v := FirstValueIn(exts, ALT_SIG_VALUE);
    if v.None? then None else SignatureBits(v.value)
  }

  /**
   * The verdict on any certificate: valid if and only if it declares an alternative key,
   * there is one to verify under, and the signature in its first 2.5.29.74 verifies over
   * the body without that extension. Without 2.5.29.74, or with a signature that cannot
   * be read or does not verify, it is invalid.
   */
  lemma VerdictOnIssued(p: MlDsa.Primitive, fields: seq<Bytes>, exts: seq<Extension>, tail: seq<Bytes>,
                        issuer: Option<Bytes>)
    requires Issued(fields, exts, tail)
    ensures var v := Classify(p, Certificate(fields, exts, tail), issuer);
            && v.Done?
            && (v.value == Absent <==> !Mentions(exts, ALT_SPKI))
            && (v.value == Unverifiable <==> Mentions(exts, ALT_SPKI) && issuer.None?)
            && (v.value == Valid <==>
                  && Mentions(exts, ALT_SPKI) && issuer.Some? && Mentions(exts, ALT_SIG_VALUE)
                  && SignatureIn(exts).Some?
                  && MlDsa.Verify(p, SignatureIn(exts).value, Body(fields, Without(exts, ALT_SIG_VALUE)), issuer.value))
  {
    StrippedBodyIs(fields, exts, tail);
    ExtensionValueIs(fields, exts, tail, ALT_SIG_VALUE);
    ExtensionValueIs(fields, exts, tail, ALT_SPKI);
    FirstIsMentioned(exts, ALT_SIG_VALUE);
    FirstIsMentioned(exts, ALT_SPKI);
  }

  /** Taking the alternative signature out does not authenticate a certificate. */
  lemma StrippedIsInvalid(p: MlDsa.Primitive, fields: seq<Bytes>, exts: seq<Extension>, tail: seq<Bytes>, issuer: Bytes)
    requires Issued(fields, exts, tail) && !Mentions(exts, ALT_SIG_VALUE) && Mentions(exts, ALT_SPKI)
    ensures Classify(p, Certificate(fields, exts, tail), Some(issuer)) == Done(Invalid)
  {
    VerdictOnIssued(p, fields, exts, tail, Some(issuer));
  }

  /** A certificate without extensions has no alternative half. */
  lemma BareIsAbsent(p: MlDsa.Primitive, fields: seq<Bytes>, tail: seq<Bytes>, issuer: Option<Bytes>)
    requires PlainFields(fields) && AllTlv(tail) && |Seq([Seq(fields)] + tail)| < TWO_31
    ensures Classify(p, Seq([Seq(fields)] + tail), issuer) == Done(Absent)
  {
    var body := Seq(fields);
    var cert, parts := Seq([body] + tail), [body] + tail;
    assert parts[1..] == tail;
    assert |body| <= |Concat(parts)|;
    WrittenIsTlv(SEQUENCE, Concat(fields));
    WrittenIsTlv(SEQUENCE, Concat(parts));
    TlvInside(cert, 0, cert);
    var root := TlvAt(cert, 0).value;
    RawAndContent(cert, root, cert);
    var top := ChildrenRecovered(cert, root, cert, parts);
    var found := ChildrenRecovered(cert, top[0], body, fields);
    TagsRead(cert, found, fields);
    NotFound(found, EXTENSIONS);
  }

  lemma {:induction false} NotFound(ts: seq<Item>, tag: Byte)
    requires forall i :: 0 <= i < |ts| ==> ts[i].tag != tag
    ensures FindTag(ts, tag) == None
  {
    if ts != [] { NotFound(ts[1..], tag); }
  }

  /** Issued with a stored key, it classifies as valid under the SPKI derived from that key. */
  lemma IssuedIsValid(p: MlDsa.Primitive, fields: seq<Bytes>, exts: seq<Extension>, tail: seq<Bytes>, k: nat,
                      critical: bool, seed: Bytes, secretKey: Bytes)
    requires PlainFields(fields) && AllWellFormed(exts) && AllTlv(tail) && k <= |exts|
    requires !Mentions(exts, ALT_SIG_VALUE) && FirstValueIn(exts, ALT_SPKI).Some?
    requires p.Correct() && |seed| == MlDsa.SEED_BYTES
    requires |MlDsa.Pkcs8FromSeed(seed, secretKey)| < TWO_31
    ensures var pkcs8 := MlDsa.Pkcs8FromSeed(seed, secretKey);
            var signed := MlDsa.Sign(p, Body(fields, exts), pkcs8);
            var spki := MlDsa.SpkiFromPkcs8(p, pkcs8);
            && signed.Done? && signed.value.Ok? && spki.Done? && spki.value.Ok?
            && var cert := Catalyst(fields, exts, tail, k, critical, signed.value.value);
               |cert| < TWO_31 ==> Classify(p, cert, Some(spki.value.value)) == Done(Valid)
  {
    MlDsa.StoredKeyVerifies(p, seed, secretKey, Body(fields, exts));
    MlDsa.SeedRoundTrip(seed, secretKey);
    var signature := MlDsa.Sign(p, Body(fields, exts), MlDsa.Pkcs8FromSeed(seed, secretKey)).value.value;
    var spki := MlDsa.SpkiFromPkcs8(p, MlDsa.Pkcs8FromSeed(seed, secretKey)).value.value;
    if |Catalyst(fields, exts, tail, k, critical, signature)| < TWO_31 {
      VerdictIs(p, fields, exts, tail, k, critical, signature, Some(spki));
    }
  }

  // ----- Chains -------------------------------------------------------------

  /** The verdict on a certificate under the next one of its chain. */
  function LinkVerdict(p: MlDsa.Primitive, cert: Bytes, issuerCert: Bytes): Run<Verdict> {
    var issuer :- SubjectAltSpkiOf(issuerCert);
    Classify(p, cert, issuer)
  }

  function LinksOf(p: MlDsa.Primitive): (Bytes, Bytes) -> Run<Verdict> {
    (cert, issuerCert) => LinkVerdict(p, cert, issuerCert)
  }

  /** One verdict per link, from the leaf up. */
  function Verdicts(link: (Bytes, Bytes) -> Run<Verdict>, chain: seq<Bytes>): Run<seq<Verdict>> {
    if |chain| < 2 then Done([])
    else
      var v :- link(chain[0], chain[1]);
      var rest :- Verdicts(link, chain[1..]);
      Done([v] + rest)
  }

  /** A certificate as its issuer wrote it. */
  datatype Written = Written(fields: seq<Bytes>, exts: seq<Extension>, tail: seq<Bytes>) {
    predicate IsIssued() { Issued(fields, exts, tail) }

    function Der(): Bytes { Certificate(fields, exts, tail) }

    /** The alternative key it declares. */
    function AltKey(): Option<Bytes>
      requires IsIssued()
    {
      FirstValueIn(exts, ALT_SPKI)
    }
  }

  predicate AreIssued(certs: seq<Written>) { forall i :: 0 <= i < |certs| ==> certs[i].IsIssued() }

  function Ders(certs: seq<Written>): (r: seq<Bytes>)
    ensures |r| == |certs| && forall i :: 0 <= i < |certs| ==> r[i] == certs[i].Der()
  {
    seq(|certs|, i requires 0 <= i < |certs| => certs[i].Der())
  }

  /** One verdict for each certificate but the last, under the one after it. */
  lemma {:induction false} VerdictsAre(link: (Bytes, Bytes) -> Run<Verdict>, chain: seq<Bytes>)
    requires forall i :: 0 <= i < |chain| - 1 ==> link(chain[i], chain[i + 1]).Done?
    ensures var vs := Verdicts(link, chain);
            && vs.Done? && |vs.value| == (if chain == [] then 0 else |chain| - 1)
            && forall i :: 0 <= i < |vs.value| ==> Done(vs.value[i]) == link(chain[i], chain[i + 1])
  {
    if |chain| < 2 {
    } else {
      var rest := chain[1..];
      assert link(chain[0], chain[1]).Done?;
      forall i | 0 <= i < |rest| - 1 ensures link(rest[i], rest[i + 1]).Done? {
        assert rest[i] == chain[i + 1] && rest[i + 1] == chain[i + 2];
      }
      VerdictsAre(link, rest);
      var vs := Verdicts(link, chain).value;
      forall i | 0 <= i < |vs| ensures Done(vs[i]) == link(chain[i], chain[i + 1]) {
        if i > 0 { assert vs[i] == Verdicts(link, rest).value[i - 1]; }
      }
    }
  }

  lemma LinkOfIssued(p: MlDsa.Primitive, cert: Written, issuer: Written)
    requires cert.IsIssued() && issuer.IsIssued()
    ensures LinkVerdict(p, cert.Der(), issuer.Der()).Done?
    ensures LinkVerdict(p, cert.Der(), issuer.Der()) == Classify(p, cert.Der(), issuer.AltKey())
  {
    ExtensionValueIs(issuer.fields, issuer.exts, issuer.tail, ALT_SPKI);
    VerdictOnIssued(p, cert.fields, cert.exts, cert.tail, issuer.AltKey());
  }

  /**
   * In a chain of any length each certificate is classified under the alternative key
   * that the next one declares, which is its issuer.
   */
  lemma ChainVerdicts(p: MlDsa.Primitive, certs: seq<Written>)
    requires AreIssued(certs)
    ensures var vs := Verdicts(LinksOf(p), Ders(certs));
            && vs.Done? && |vs.value| == (if certs == [] then 0 else |certs| - 1)
            && forall i :: 0 <= i < |vs.value| ==>
                 Done(vs.value[i]) == Classify(p, certs[i].Der(), certs[i + 1].AltKey())
  {
    var chain := Ders(certs);
    forall i | 0 <= i < |certs| - 1
      ensures LinksOf(p)(chain[i], chain[i + 1]).Done?
      ensures LinksOf(p)(chain[i], chain[i + 1]) ==
              Classify(p, certs[i].Der(), certs[i + 1].AltKey())
    {
      assert certs[i].IsIssued() && certs[i + 1].IsIssued();
      LinkOfIssued(p, certs[i], certs[i + 1]);
    }
    VerdictsAre(LinksOf(p), chain);
  }

  /** A chain of certificates whose lists are all plain is classified to its end. */
  lemma {:induction false} PlainChainIsClassified(p: MlDsa.Primitive, chain: seq<Bytes>)
    requires forall cert :: cert in chain ==> AllPlain(cert, Walked(cert))
    ensures Verdicts(LinksOf(p), chain).Done?
  {
    if |chain| < 2 {
    } else {
      PlainIsClassified(p, chain[1], None);
      PlainIsClassified(p, chain[0], SubjectAltSpkiOf(chain[1]).value);
      PlainChainIsClassified(p, chain[1..]);
    }
  }

  lemma VerdictsStep(link: (Bytes, Bytes) -> Run<Verdict>, chain: seq<Bytes>, before: seq<Verdict>)
    requires |chain| >= 2 && Verdicts(link, chain).Done?
    ensures link(chain[0], chain[1]).Done? && Verdicts(link, chain[1..]).Done?
    ensures before + Verdicts(link, chain).value ==
            (before + [link(chain[0], chain[1]).value]) + Verdicts(link, chain[1..]).value
  {
    OneEarlier(before, link(chain[0], chain[1]).value, Verdicts(link, chain[1..]).value);
  }

  lemma OneEarlier(before: seq<Verdict>, v: Verdict, rest: seq<Verdict>)
    ensures before + ([v] + rest) == (before + [v]) + rest
  {
  }

  /** How many links from the leaf up are valid before the first that is not. */
  function Leading(verdicts: seq<Verdict>): (n: nat)
    ensures n <= |verdicts| && (forall i :: 0 <= i < n ==> verdicts[i] == Valid)
    ensures n < |verdicts| ==> verdicts[n] != Valid
  {
    if verdicts == [] then 0
    else
      var before := Leading(verdicts[..|verdicts| - 1]);
      if before == |verdicts| - 1 && verdicts[before] == Valid then before + 1 else before
  }

  lemma LeadingStep(before: seq<Verdict>, v: Verdict)
    ensures Leading(before + [v]) == if Leading(before) == |before| && v == Valid then |before| + 1 else Leading(before)
  {
    var all := before + [v];
    assert all[..|all| - 1] == before && all[|all| - 1] == v;
  }

  method ClassifyLinks(link: (Bytes, Bytes) -> Run<Verdict>, chain: seq<Bytes>)
    returns (verdicts: seq<Verdict>, depth: nat, anyInvalid: bool)
    requires Verdicts(link, chain).Done?
    ensures Done(verdicts) == Verdicts(link, chain)
    ensures depth == Leading(verdicts) && (anyInvalid <==> Invalid in verdicts)
  {
    verdicts, depth, anyInvalid := [], 0, false;
    var unbroken := true;
    var n := if chain == [] then 0 else |chain| - 1;
    ghost var left := chain;
    for i := 0 to n
      invariant left == chain[i..] && Verdicts(link, left).Done?
      invariant Verdicts(link, chain).value == verdicts + Verdicts(link, left).value
      invariant |verdicts| == i && depth == Leading(verdicts) && (unbroken <==> depth == i)
      invariant anyInvalid <==> Invalid in verdicts
    {
      assert left[0] == chain[i] && left[1] == chain[i + 1] && left[1..] == chain[i + 1..];
      VerdictsStep(link, left, verdicts);
      left := left[1..];
      var v := link(chain[i], chain[i + 1]).value;
      LeadingStep(verdicts, v);
      if v == Invalid { anyInvalid := true; }
      if unbroken && v == Valid { depth := depth + 1; } else { unbroken := false; }
      verdicts := verdicts + [v];
    }
    assert verdicts + [] == verdicts;
  }

  method ClassifyChain(p: MlDsa.Primitive, chain: seq<Bytes>)
    returns (verdicts: seq<Verdict>, depth: nat, anyInvalid: bool)
    requires Verdicts(LinksOf(p), chain).Done?
    ensures Done(verdicts) == Verdicts(LinksOf(p), chain)
    ensures depth == Leading(verdicts) && (anyInvalid <==> Invalid in verdicts)
  {
    verdicts, depth, anyInvalid := ClassifyLinks(LinksOf(p), chain);
  }
}
