/** The hybrid certification request of `privsvc/shared/pkcs10.ts`. */
module Pkcs10 {
  import opened Js
  import opened Der
  import opened DerRoundTrip
  import opened Catalyst
  import MlDsa

  const EXTENSION_REQUEST: Bytes := [0x2a, 0x86, 0x48, 0x86, 0xf7, 0x0d, 0x01, 0x09, 0x0e]
  const KEY_USAGE: Bytes := [0x55, 0x1d, 0x0f]
  const EXT_KEY_USAGE: Bytes := [0x55, 0x1d, 0x25]
  const SUBJECT_ALT_NAME: Bytes := [0x55, 0x1d, 0x11]
  const ALT_SIG_ALG: Bytes := [0x55, 0x1d, 0x49]
  const CLIENT_AUTH: Bytes := [0x2b, 0x06, 0x01, 0x05, 0x05, 0x07, 0x03, 0x02]
  const COMMON_NAME: Bytes := [0x55, 0x04, 0x03]
  const SHA256_RSA: Bytes := [0x2a, 0x86, 0x48, 0x86, 0xf7, 0x0d, 0x01, 0x01, 0x0b]
  const ECDSA_SHA384: Bytes := [0x2a, 0x86, 0x48, 0xce, 0x3d, 0x04, 0x03, 0x03]
  const UTF8_STRING: Byte := 0x0c
  const ATTRIBUTES: Byte := 0xa0

  datatype ClassicAlgorithm = Rsa2048 | EcP384

  /** Texts are already in their UTF-8 or ASCII octets; `uri` is the whole tenant/device URI. */
  datatype Options = Options(
    classicAlgorithm: ClassicAlgorithm,
    commonName: Bytes,
    uri: Bytes,
    dnsName: Bytes,
    altPrivateKey: Option<Bytes>,
    altPublicKey: Option<Bytes>)

  datatype CsrError = IncompleteAltKey | AltKey(why: MlDsa.KeyError)

  datatype BuiltCsr = BuiltCsr(der: Bytes, hybrid: bool)

  // ----- The code -----------------------------------------------------------

  function NameWithCommonName(cn: Bytes): Bytes {
    Seq([Set([Seq([Oid(COMMON_NAME), Tlv(UTF8_STRING, cn)])])])
  }

  function SignatureAlgorithm(alg: ClassicAlgorithm): Bytes {
    match alg
    case Rsa2048 => Seq([Oid(SHA256_RSA), [0x05, 0x00]])
    case EcP384 => Seq([Oid(ECDSA_SHA384)])
  }

  function ClassicExtensions(opts: Options): seq<Extension> {
    var dns := if opts.dnsName == [] then [] else [Tlv(0x82, opts.dnsName)];
    [ NewExtension(KEY_USAGE, true, Tlv(BIT_STRING, [0x07, 0x80])),
      NewExtension(EXT_KEY_USAGE, false, Seq([Oid(CLIENT_AUTH)])),
      NewExtension(SUBJECT_ALT_NAME, false, Seq(dns + [Tlv(0x86, opts.uri)])) ]
  }

  function RequestedExtensions(opts: Options, altSpki: Option<Bytes>, alt74: Option<Bytes>): seq<Extension> {
    ClassicExtensions(opts)
    + (if altSpki.None? then []
       else [ NewExtension(ALT_SPKI, false, altSpki.value),
              NewExtension(ALT_SIG_ALG, false, MlDsa.AlgorithmIdentifier()) ])
    + (if alt74.None? then [] else [NewExtension(ALT_SIG_VALUE, false, alt74.value)])
  }

  lemma SecondPass(opts: Options, altSpki: Option<Bytes>, alt74: Bytes)
    ensures RequestedExtensions(opts, altSpki, Some(alt74)) ==
            RequestedExtensions(opts, altSpki, None) + [NewExtension(ALT_SIG_VALUE, false, alt74)]
  {
    var alt := if altSpki.None? then []
               else [ NewExtension(ALT_SPKI, false, altSpki.value),
                      NewExtension(ALT_SIG_ALG, false, MlDsa.AlgorithmIdentifier()) ];
    var exts := ClassicExtensions(opts) + alt;
    assert RequestedExtensions(opts, altSpki, None) == exts + [] == exts;
  }

  function Attributes(exts: seq<Extension>): Bytes {
    Tlv(ATTRIBUTES, Seq([Oid(EXTENSION_REQUEST), Set([Seq(Raws(exts))])]))
  }

  /** CertificationRequestInfo of RFC 2986 section 4. */
  function RequestInfo(opts: Options, spki: Bytes, exts: seq<Extension>): Bytes {
    Seq([Tlv(INTEGER, [0x00]), NameWithCommonName(opts.commonName), spki, Attributes(exts)])
  }

  function Csr(opts: Options, info: Bytes, classicSignature: Bytes): Bytes {
    Seq([info, SignatureAlgorithm(opts.classicAlgorithm), BitString(classicSignature)])
  }

  /** The body of the first pass, which the alternative key signs. */
  function FirstInfo(opts: Options, spki: Bytes): Bytes {
    RequestInfo(opts, spki, RequestedExtensions(opts, opts.altPublicKey, None))
  }

  /** `classicSign` is the classic signature, which covers the definitive body. */
  method BuildCsr(p: MlDsa.Primitive, opts: Options, spki: Bytes, classicSign: Bytes -> Bytes)
    returns (r: Result<BuiltCsr, CsrError>)
    requires opts.altPrivateKey.Some? ==> MlDsa.Sign(p, FirstInfo(opts, spki), opts.altPrivateKey.value).Done?
    ensures r == Built(p, opts, spki, classicSign)
  {
    if opts.altPrivateKey.Some? != opts.altPublicKey.Some? { return Err(IncompleteAltKey); }
    var exts := RequestedExtensions(opts, opts.altPublicKey, None);
    var info := RequestInfo(opts, spki, exts);
    if opts.altPrivateKey.Some? && opts.altPublicKey.Some? {
      var altSig := MlDsa.Sign(p, info, opts.altPrivateKey.value).value;
      if altSig.Err? { return Err(AltKey(altSig.error)); }
      SecondPass(opts, opts.altPublicKey, BitString(altSig.value));
      exts := RequestedExtensions(opts, opts.altPublicKey, Some(BitString(altSig.value)));
      info := RequestInfo(opts, spki, exts);
    }
    var classicSig := classicSign(info);
    return Ok(BuiltCsr(Csr(opts, info, classicSig), opts.altPrivateKey.Some? && opts.altPublicKey.Some?));
  }

  /** What is built: one body without an alternative key, and with it the first body plus 2.5.29.74. */
  function Built(p: MlDsa.Primitive, opts: Options, spki: Bytes, classicSign: Bytes -> Bytes)
    : Result<BuiltCsr, CsrError>
    requires opts.altPrivateKey.Some? ==> MlDsa.Sign(p, FirstInfo(opts, spki), opts.altPrivateKey.value).Done?
  {
    var first := RequestedExtensions(opts, opts.altPublicKey, None);
    if opts.altPrivateKey.Some? != opts.altPublicKey.Some? then Err(IncompleteAltKey)
    else if opts.altPrivateKey.None? then
      var info := RequestInfo(opts, spki, first);
      Ok(BuiltCsr(Csr(opts, info, classicSign(info)), false))
    else
      var altSig := MlDsa.Sign(p, FirstInfo(opts, spki), opts.altPrivateKey.value).value;
      if altSig.Err? then Err(AltKey(altSig.error))
      else
        var info := RequestInfo(opts, spki, first + [AltSignatureExtension(false, altSig.value)]);
        Ok(BuiltCsr(Csr(opts, info, classicSign(info)), true))
  }

  // ----- The verifier, as the tests redo it ---------------------------------

  /** Where a request keeps its fields, the identifier of its attribute and its extensions. */
  datatype Place = Place(fields: seq<Item>, id: Item, exts: seq<Item>)

  function FindAttribute(csr: Bytes, ts: seq<Item>): Run<Option<Item>> {
    if ts == [] then Done(None)
    else
      var kids :- ChildrenOf(csr, ts[0]);
      if StartsWithOid(csr, kids, EXTENSION_REQUEST) then Done(Some(ts[0])) else FindAttribute(csr, ts[1..])
  }

  /** From the attributes of the request down to the list of requested extensions. */
  function LocateExtensions(csr: Bytes, fields: seq<Item>): Run<Option<Place>> {
    var attrs := FindTag(fields, ATTRIBUTES);
    if attrs.None? then Done(None)
    else
      var all :- ChildrenOf(csr, attrs.value);
      var request :- FindAttribute(csr, all);
      if request.None? then Done(None)
      else
        var pair :- ChildrenOf(csr, request.value);
        if |pair| < 2 then Done(None)
        else
          var values :- ChildrenOf(csr, pair[1]);
          if values == [] then Done(None)
          else
            var exts :- ChildrenOf(csr, values[0]);
            Done(Some(Place(fields, pair[0], exts)))
  }

  function LocateRequest(csr: Bytes): Run<Option<Place>> {
    var root := TlvAt(csr, 0);
    if root.None? then Done(None)
    else
      var top :- ChildrenOf(csr, root.value);
      if top == [] then Done(None)
      else
        var fields :- ChildrenOf(csr, top[0]);
        if |fields| < 3 then Done(None) else LocateExtensions(csr, fields)
  }

  /** The request body with 2.5.29.74 taken out and the structure encoded again. */
  function InfoWithoutAltSignature(csr: Bytes): Run<Option<Bytes>> {
    var place :- LocateRequest(csr);
    if place.None? then Done(None)
    else
      var kept :- Kept(csr, place.value.exts, ALT_SIG_VALUE);
      if !kept.1 then Done(None)
      else
        var fields := place.value.fields;
        Done(Some(Seq([RawOf(csr, fields[0]), RawOf(csr, fields[1]), RawOf(csr, fields[2]),
                       Tlv(ATTRIBUTES, Seq([RawOf(csr, place.value.id), Set([Seq(kept.0)])]))])))
  }

  /** The value of a requested extension. */
  function RequestedValue(csr: Bytes, oid: Bytes): Run<Option<Bytes>> {
    var place :- LocateRequest(csr);
    if place.None? then Done(None) else FirstValue(csr, place.value.exts, oid)
  }

  // ----- Reading a request --------------------------------------------------

  /** The lengths of what a request holds, and where each level keeps its children. */
  lemma OneChild(buf: Bytes, t: Item, b: Bytes, inner: Bytes) returns (kid: Item)
    requires Reads(buf, t, b) && IsTlv(inner) && Content(b) == inner
    ensures ChildrenOf(buf, t) == Done([kid]) && Reads(buf, kid, inner)
  {
    ConcatTwo(inner, []);
    var kids := ChildrenRecovered(buf, t, b, [inner]);
    kid := kids[0];
    assert kids == [kid];
  }

  lemma TwoChildren(buf: Bytes, t: Item, b: Bytes, x: Bytes, y: Bytes) returns (kids: seq<Item>)
    requires Reads(buf, t, b) && IsTlv(x) && IsTlv(y) && Content(b) == x + y
    ensures ChildrenOf(buf, t) == Done(kids) && |kids| == 2 && Reads(buf, kids[0], x) && Reads(buf, kids[1], y)
  {
    ConcatTwo(x, y);
    kids := ChildrenRecovered(buf, t, b, [x, y]);
  }

  /** Each level of the attribute is shorter than the one around it, so all of them can be read. */
  lemma AttributeLevels(exts: seq<Extension>)
    requires |Attributes(exts)| < TWO_31
    ensures var list := Seq(Raws(exts));
            var id, values := Oid(EXTENSION_REQUEST), Set([list]);
            var pair := Seq([id, values]);
            && IsTlv(list) && Content(list) == Concat(Raws(exts))
            && IsTlv(id) && Content(id) == EXTENSION_REQUEST
            && IsTlv(values) && Content(values) == list
            && IsTlv(pair) && Content(pair) == id + values
            && IsTlv(Attributes(exts)) && Content(Attributes(exts)) == pair && Attributes(exts)[0] == ATTRIBUTES
  {
    var list := Seq(Raws(exts));
    var id, values := Oid(EXTENSION_REQUEST), Set([list]);
    ConcatTwo(id, values);
    WrittenIsTlv(OID, EXTENSION_REQUEST);
    WrittenIsTlv(SEQUENCE, id + values);
    WrittenIsTlv(ATTRIBUTES, Seq([id, values]));
    ValueLevels(exts);
  }

  lemma ValueLevels(exts: seq<Extension>)
    requires |Set([Seq(Raws(exts))])| < TWO_31
    ensures var list := Seq(Raws(exts));
            && IsTlv(list) && Content(list) == Concat(Raws(exts))
            && IsTlv(Set([list])) && Content(Set([list])) == list
  {
    var list := Seq(Raws(exts));
    ConcatTwo(list, []);
    WrittenIsTlv(SEQUENCE, Concat(Raws(exts)));
    WrittenIsTlv(SET, list);
  }

  lemma AttributeFound(csr: Bytes, t: Item, pair: seq<Item>)
    requires ChildrenOf(csr, t) == Done(pair) && StartsWithOid(csr, pair, EXTENSION_REQUEST)
    ensures FindAttribute(csr, [t]) == Done(Some(t))
  {
  }

  lemma ExtensionsRead(csr: Bytes, fields: seq<Item>, attrs: Item, exts: seq<Extension>) returns (place: Place)
    requires AllWellFormed(exts) && |Attributes(exts)| < TWO_31
    requires FindTag(fields, ATTRIBUTES) == Some(attrs) && Reads(csr, attrs, Attributes(exts))
    ensures LocateExtensions(csr, fields) == Done(Some(place)) && place.fields == fields
    ensures RawOf(csr, place.id) == Oid(EXTENSION_REQUEST)
    ensures |place.exts| == |exts| && forall i :: 0 <= i < |exts| ==> Reads(csr, place.exts[i], exts[i].raw)
  {
    var list := Seq(Raws(exts));
    var id, values := Oid(EXTENSION_REQUEST), Set([list]);
    AttributeLevels(exts);
    var request := OneChild(csr, attrs, Attributes(exts), Seq([id, values]));
    var pair := TwoChildren(csr, request, Seq([id, values]), id, values);
    RawAndContent(csr, pair[0], id);
    AttributeFound(csr, request, pair);
    var value := OneChild(csr, pair[1], values, list);
    var items := ChildrenRecovered(csr, value, list, Raws(exts));
    place := Place(fields, pair[0], items);
  }

  /** The key of the subject is any TLV but one tagged like the attributes. */
  predicate IsSpki(spki: Bytes) {
    IsTlv(spki) && spki[0] != ATTRIBUTES
  }

  lemma FieldLevels(opts: Options, spki: Bytes, exts: seq<Extension>)
    requires IsSpki(spki) && |RequestInfo(opts, spki, exts)| < TWO_31
    ensures var fields := [Tlv(INTEGER, [0x00]), NameWithCommonName(opts.commonName), spki, Attributes(exts)];
            && AllTlv(fields) && |Attributes(exts)| < TWO_31
            && fields[0][0] != ATTRIBUTES && fields[1][0] != ATTRIBUTES && fields[3][0] == ATTRIBUTES
            && IsTlv(RequestInfo(opts, spki, exts)) && Content(RequestInfo(opts, spki, exts)) == Concat(fields)
  {
    var version, name, attrs := Tlv(INTEGER, [0x00]), NameWithCommonName(opts.commonName), Attributes(exts);
    var rdn := Seq([Oid(COMMON_NAME), Tlv(UTF8_STRING, opts.commonName)]);
    var fields := [version, name, spki, attrs];
    assert fields[1..] == [name, spki, attrs];
    ConcatThree(name, spki, attrs);
    assert Concat(fields) == version + (name + spki + attrs);
    WrittenIsTlv(INTEGER, [0x00]);
    ConcatTwo(Set([rdn]), []);
    WrittenIsTlv(SEQUENCE, Set([rdn]));
    WrittenIsTlv(ATTRIBUTES, Seq([Oid(EXTENSION_REQUEST), Set([Seq(Raws(exts))])]));
    WrittenIsTlv(SEQUENCE, Concat(fields));
  }

  lemma FourthIsTagged(fields: seq<Item>, tag: Byte)
    requires |fields| == 4 && fields[3].tag == tag
    requires fields[0].tag != tag && fields[1].tag != tag && fields[2].tag != tag
    ensures FindTag(fields, tag) == Some(fields[3])
  {
    FindLast(fields, tag);
  }

  lemma FieldsRead(csr: Bytes, info: Item, opts: Options, spki: Bytes, exts: seq<Extension>) returns (place: Place)
    requires IsSpki(spki) && AllWellFormed(exts) && |RequestInfo(opts, spki, exts)| < TWO_31
    requires Reads(csr, info, RequestInfo(opts, spki, exts))
    ensures ChildrenOf(csr, info) == Done(place.fields) && |place.fields| == 4
    ensures LocateExtensions(csr, place.fields) == Done(Some(place))
    ensures RawOf(csr, place.fields[0]) == Tlv(INTEGER, [0x00])
    ensures RawOf(csr, place.fields[1]) == NameWithCommonName(opts.commonName)
    ensures RawOf(csr, place.fields[2]) == spki
    ensures RawOf(csr, place.id) == Oid(EXTENSION_REQUEST)
    ensures |place.exts| == |exts| && forall i :: 0 <= i < |exts| ==> Reads(csr, place.exts[i], exts[i].raw)
  {
    var parts := [Tlv(INTEGER, [0x00]), NameWithCommonName(opts.commonName), spki, Attributes(exts)];
    FieldLevels(opts, spki, exts);
    var fields := ChildrenRecovered(csr, info, RequestInfo(opts, spki, exts), parts);
    RawAndContent(csr, fields[0], parts[0]);
    RawAndContent(csr, fields[1], parts[1]);
    RawAndContent(csr, fields[2], parts[2]);
    RawAndContent(csr, fields[3], parts[3]);
    FourthIsTagged(fields, ATTRIBUTES);
    place := ExtensionsRead(csr, fields, fields[3], exts);
  }

  /** A request: the body, then the algorithm and the classic signature. */
  predicate RequestFits(opts: Options, spki: Bytes, exts: seq<Extension>, classicSignature: Bytes) {
    && IsSpki(spki) && AllWellFormed(exts)
    && |Csr(opts, RequestInfo(opts, spki, exts), classicSignature)| < TWO_31
  }

  lemma AlgorithmIsTlv(alg: ClassicAlgorithm)
    ensures IsTlv(SignatureAlgorithm(alg))
  {
    ConcatTwo(Oid(SHA256_RSA), [0x05, 0x00]);
    ConcatTwo(Oid(ECDSA_SHA384), []);
    WrittenIsTlv(SEQUENCE, Oid(SHA256_RSA) + [0x05, 0x00]);
    WrittenIsTlv(SEQUENCE, Oid(ECDSA_SHA384));
  }

  lemma InfoRead(opts: Options, info: Bytes, classicSignature: Bytes) returns (root: Item, top: seq<Item>)
    requires IsTlv(info) && |Csr(opts, info, classicSignature)| < TWO_31
    ensures var csr := Csr(opts, info, classicSignature);
            && TlvAt(csr, 0) == Some(root) && ChildrenOf(csr, root) == Done(top)
            && top != [] && Reads(csr, top[0], info) && |info| < TWO_31
  {
    var csr, alg := Csr(opts, info, classicSignature), SignatureAlgorithm(opts.classicAlgorithm);
    var bits := BitString(classicSignature);
    AlgorithmIsTlv(opts.classicAlgorithm);
    ConcatThree(info, alg, bits);
    assert |bits| < |csr|;
    WrittenIsTlv(BIT_STRING, [0x00] + classicSignature);
    WrittenIsTlv(SEQUENCE, info + alg + bits);
    TlvInside(csr, 0, csr);
    root := TlvAt(csr, 0).value;
    top := ChildrenRecovered(csr, root, csr, [info, alg, bits]);
  }

  lemma InfoFits(opts: Options, spki: Bytes, exts: seq<Extension>, classicSignature: Bytes)
    ensures |RequestInfo(opts, spki, exts)| < |Csr(opts, RequestInfo(opts, spki, exts), classicSignature)|
  {
    ConcatThree(RequestInfo(opts, spki, exts), SignatureAlgorithm(opts.classicAlgorithm), BitString(classicSignature));
  }

  /** Reading the finished request finds the list of extensions it was built with, byte for byte. */
  lemma RequestRead(opts: Options, spki: Bytes, exts: seq<Extension>, classicSignature: Bytes) returns (place: Place)
    requires RequestFits(opts, spki, exts, classicSignature)
    ensures var csr := Csr(opts, RequestInfo(opts, spki, exts), classicSignature);
            && LocateRequest(csr) == Done(Some(place)) && |place.fields| == 4
            && RawOf(csr, place.fields[0]) == Tlv(INTEGER, [0x00])
            && RawOf(csr, place.fields[1]) == NameWithCommonName(opts.commonName)
            && RawOf(csr, place.fields[2]) == spki
            && RawOf(csr, place.id) == Oid(EXTENSION_REQUEST)
            && |place.exts| == |exts|
            && forall i :: 0 <= i < |exts| ==>
                 RawOf(csr, place.exts[i]) == exts[i].raw && Reads(csr, place.exts[i], exts[i].raw)
  {
    var info := RequestInfo(opts, spki, exts);
    var csr := Csr(opts, info, classicSignature);
    InfoFits(opts, spki, exts, classicSignature);
    FieldLevels(opts, spki, exts);
    var root, top := InfoRead(opts, info, classicSignature);
    place := FieldsRead(csr, top[0], opts, spki, exts);
    forall i | 0 <= i < |exts| ensures RawOf(csr, place.exts[i]) == exts[i].raw {
      RawAndContent(csr, place.exts[i], exts[i].raw);
    }
  }

  /** Taking 2.5.29.74 out and encoding again gives the body built without it. */
  lemma StrippedRequest(opts: Options, spki: Bytes, exts: seq<Extension>, classicSignature: Bytes)
    requires RequestFits(opts, spki, exts, classicSignature)
    ensures InfoWithoutAltSignature(Csr(opts, RequestInfo(opts, spki, exts), classicSignature)) ==
            Done(if Mentions(exts, ALT_SIG_VALUE)
                 then Some(RequestInfo(opts, spki, Without(exts, ALT_SIG_VALUE))) else None)
  {
    var csr := Csr(opts, RequestInfo(opts, spki, exts), classicSignature);
    var place := RequestRead(opts, spki, exts, classicSignature);
    KeptAre(csr, place.exts, exts, ALT_SIG_VALUE);
  }

  lemma RequestedValueIs(opts: Options, spki: Bytes, exts: seq<Extension>, classicSignature: Bytes, oid: Bytes)
    requires RequestFits(opts, spki, exts, classicSignature)
    ensures RequestedValue(Csr(opts, RequestInfo(opts, spki, exts), classicSignature), oid) ==
            Done(FirstValueIn(exts, oid))
  {
    var csr := Csr(opts, RequestInfo(opts, spki, exts), classicSignature);
    var place := RequestRead(opts, spki, exts, classicSignature);
    FirstValueRead(csr, place.exts, exts, oid);
  }

  /** A list that ends in 2.5.29.74 is read as it was before, plus that extension. */
  lemma AppendedRequest(opts: Options, spki: Bytes, first: seq<Extension>, e: Extension, classicSignature: Bytes)
    returns (place: Place)
    requires RequestFits(opts, spki, first + [e], classicSignature)
    requires AllWellFormed(first) && !Mentions(first, ALT_SIG_VALUE) && e.WellFormed() && e.Has(ALT_SIG_VALUE)
    ensures var csr := Csr(opts, RequestInfo(opts, spki, first + [e]), classicSignature);
            && InfoWithoutAltSignature(csr) == Done(Some(RequestInfo(opts, spki, first)))
            && RequestedValue(csr, ALT_SIG_VALUE) == Done(Some(Content(e.parts[|e.parts| - 1])))
            && LocateRequest(csr) == Done(Some(place)) && |place.exts| == |first| + 1
            && (forall i :: 0 <= i < |first| ==> RawOf(csr, place.exts[i]) == first[i].raw)
            && RawOf(csr, place.exts[|first|]) == e.raw
  {
    var all := first + [e];
    LastIsFound(first, e, all);
    StrippedRequest(opts, spki, all, classicSignature);
    RequestedValueIs(opts, spki, all, classicSignature, ALT_SIG_VALUE);
    place := RequestRead(opts, spki, all, classicSignature);
  }

  lemma LastIsFound(first: seq<Extension>, e: Extension, all: seq<Extension>)
    requires AllWellFormed(first) && !Mentions(first, ALT_SIG_VALUE) && e.WellFormed() && e.Has(ALT_SIG_VALUE)
    requires all == first + [e]
    ensures AllWellFormed(all) && Mentions(all, ALT_SIG_VALUE) && Without(all, ALT_SIG_VALUE) == first
    ensures FirstValueIn(all, ALT_SIG_VALUE) == Some(Content(e.parts[|e.parts| - 1]))
    ensures (forall i :: 0 <= i < |first| ==> all[i] == first[i]) && all[|first|] == e
  {
    InsertedIsFound(first, |first|, e, ALT_SIG_VALUE);
    assert Inserted(first, |first|, e) == all;
  }

  // ----- What the agent asks for --------------------------------------------

  /** The identifiers requested, in order. */
  function RequestedIds(alt: bool, alt74: bool): seq<Bytes> {
    [KEY_USAGE, EXT_KEY_USAGE, SUBJECT_ALT_NAME]
    + (if alt then [ALT_SPKI, ALT_SIG_ALG] else [])
    + (if alt74 then [ALT_SIG_VALUE] else [])
  }

  lemma RequestedFormed(opts: Options, altSpki: Option<Bytes>, alt74: Option<Bytes>, i: nat)
    requires i < |RequestedExtensions(opts, altSpki, alt74)|
    requires |RequestedExtensions(opts, altSpki, alt74)[i].raw| < TWO_31
    ensures |RequestedIds(altSpki.Some?, alt74.Some?)| == |RequestedExtensions(opts, altSpki, alt74)|
    ensures var e := RequestedExtensions(opts, altSpki, alt74)[i];
            e.WellFormed() && forall oid :: e.Has(oid) <==> oid == RequestedIds(altSpki.Some?, alt74.Some?)[i]
  {
    RequestedIs(opts, altSpki, alt74, i);
    NewExtensionFormed(RequestedIds(altSpki.Some?, alt74.Some?)[i], i == 0, RequestedValueAt(opts, altSpki, alt74, i));
  }

  lemma ThreeParts<T>(a: seq<T>, b: seq<T>, c: seq<T>, i: nat)
    requires i < |a + b + c|
    ensures (a + b + c)[i] ==
            if i < |a| then a[i] else if i < |a| + |b| then b[i - |a|] else c[i - |a| - |b|]
  {
  }

  lemma RequestedIs(opts: Options, altSpki: Option<Bytes>, alt74: Option<Bytes>, i: nat)
    requires i < |RequestedExtensions(opts, altSpki, alt74)|
    ensures |RequestedIds(altSpki.Some?, alt74.Some?)| == |RequestedExtensions(opts, altSpki, alt74)|
    ensures RequestedExtensions(opts, altSpki, alt74)[i] ==
            NewExtension(RequestedIds(altSpki.Some?, alt74.Some?)[i], i == 0, RequestedValueAt(opts, altSpki, alt74, i))
  {
    var alt := if altSpki.None? then []
               else [ NewExtension(ALT_SPKI, false, altSpki.value),
                      NewExtension(ALT_SIG_ALG, false, MlDsa.AlgorithmIdentifier()) ];
    var last := if alt74.None? then [] else [NewExtension(ALT_SIG_VALUE, false, alt74.value)];
    ThreeParts(ClassicExtensions(opts), alt, last, i);
    ThreeParts([KEY_USAGE, EXT_KEY_USAGE, SUBJECT_ALT_NAME], if altSpki.Some? then [ALT_SPKI, ALT_SIG_ALG] else [],
               if alt74.Some? then [ALT_SIG_VALUE] else [], i);
  }

  function RequestedValueAt(opts: Options, altSpki: Option<Bytes>, alt74: Option<Bytes>, i: nat): Bytes
    requires i < |RequestedExtensions(opts, altSpki, alt74)|
  {
    var dns := if opts.dnsName == [] then [] else [Tlv(0x82, opts.dnsName)];
    if i == 0 then Tlv(BIT_STRING, [0x07, 0x80])
    else if i == 1 then Seq([Oid(CLIENT_AUTH)])
    else if i == 2 then Seq(dns + [Tlv(0x86, opts.uri)])
    else if altSpki.None? then alt74.value
    else if i == 3 then altSpki.value
    else if i == 4 then MlDsa.AlgorithmIdentifier()
    else alt74.value
  }

  lemma RawFitsRequest(opts: Options, spki: Bytes, exts: seq<Extension>, i: nat)
    requires i < |exts|
    ensures |exts[i].raw| < |RequestInfo(opts, spki, exts)|
  {
    RawFits(exts, i);
    var list := Seq(Raws(exts));
    ConcatTwo(list, []);
    ConcatTwo(Oid(EXTENSION_REQUEST), Set([list]));
    var name := NameWithCommonName(opts.commonName);
    assert [Tlv(INTEGER, [0x00]), name, spki, Attributes(exts)][1..] == [name, spki, Attributes(exts)];
    ConcatThree(name, spki, Attributes(exts));
  }

  /** Everything the agent requests is well formed, under exactly the identifiers listed. */
  lemma RequestedAre(opts: Options, spki: Bytes, altSpki: Option<Bytes>, alt74: Option<Bytes>)
    requires |RequestInfo(opts, spki, RequestedExtensions(opts, altSpki, alt74))| < TWO_31
    ensures AllWellFormed(RequestedExtensions(opts, altSpki, alt74))
    ensures forall oid :: Mentions(RequestedExtensions(opts, altSpki, alt74), oid) <==>
                          oid in RequestedIds(altSpki.Some?, alt74.Some?)
  {
    var exts, ids := RequestedExtensions(opts, altSpki, alt74), RequestedIds(altSpki.Some?, alt74.Some?);
    forall i | 0 <= i < |exts| ensures exts[i].WellFormed() && |ids| == |exts|
      ensures forall oid :: exts[i].Has(oid) <==> oid == ids[i]
    {
      RawFitsRequest(opts, spki, exts, i);
      RequestedFormed(opts, altSpki, alt74, i);
    }
    assert |ids| == |exts| by { assert exts[0].WellFormed(); }
    forall oid ensures Mentions(exts, oid) <==> oid in ids {
      if oid in ids {
        var i :| 0 <= i < |ids| && ids[i] == oid;
        assert exts[i].Has(oid);
      }
    }
  }

  /** Without an alternative key none of the three catalyst extensions can be read from the request. */
  lemma ClassicRequest(p: MlDsa.Primitive, opts: Options, spki: Bytes, classicSign: Bytes -> Bytes, oid: Bytes)
    requires opts.altPrivateKey.None? && opts.altPublicKey.None? && IsSpki(spki)
    requires |Built(p, opts, spki, classicSign).value.der| < TWO_31
    requires oid in [ALT_SPKI, ALT_SIG_ALG, ALT_SIG_VALUE]
    ensures RequestedValue(Built(p, opts, spki, classicSign).value.der, oid) == Done(None)
    ensures InfoWithoutAltSignature(Built(p, opts, spki, classicSign).value.der) == Done(None)
  {
    var exts := RequestedExtensions(opts, None, None);
    assert exts == RequestedExtensions(opts, opts.altPublicKey, None);
    ClassicList(opts, spki, exts, classicSign(RequestInfo(opts, spki, exts)), oid);
  }

  lemma ClassicList(opts: Options, spki: Bytes, exts: seq<Extension>, classicSignature: Bytes, oid: Bytes)
    requires exts == RequestedExtensions(opts, None, None) && IsSpki(spki)
    requires |Csr(opts, RequestInfo(opts, spki, exts), classicSignature)| < TWO_31
    requires oid in [ALT_SPKI, ALT_SIG_ALG, ALT_SIG_VALUE]
    ensures RequestedValue(Csr(opts, RequestInfo(opts, spki, exts), classicSignature), oid) == Done(None)
    ensures InfoWithoutAltSignature(Csr(opts, RequestInfo(opts, spki, exts), classicSignature)) == Done(None)
  {
    InfoFits(opts, spki, exts, classicSignature);
    RequestedAre(opts, spki, None, None);
    assert !Mentions(exts, oid) && !Mentions(exts, ALT_SIG_VALUE) by { ClassicIds(oid); }
    RequestedValueIs(opts, spki, exts, classicSignature, oid);
    NoValue(exts, oid);
    StrippedRequest(opts, spki, exts, classicSignature);
  }

  lemma ClassicIds(oid: Bytes)
    requires oid in [ALT_SPKI, ALT_SIG_ALG, ALT_SIG_VALUE]
    ensures oid !in RequestedIds(false, false) && ALT_SIG_VALUE !in RequestedIds(false, false)
  {
    assert RequestedIds(false, false) == [KEY_USAGE, EXT_KEY_USAGE, SUBJECT_ALT_NAME];
    assert oid[2] >= 0x48;
  }

  lemma {:induction false} NoValue(exts: seq<Extension>, oid: Bytes)
    requires AllWellFormed(exts) && !Mentions(exts, oid)
    ensures FirstValueIn(exts, oid) == None
  {
    if exts != [] {
      NotMentionedLater(exts, oid);
      NoValue(exts[1..], oid);
    }
  }

  lemma {:induction false} FirstHolder(exts: seq<Extension>, oid: Bytes, k: nat)
    requires AllWellFormed(exts) && k < |exts| && exts[k].Has(oid)
    requires forall i :: 0 <= i < k ==> !exts[i].Has(oid)
    ensures FirstValueIn(exts, oid) == Some(Content(exts[k].parts[|exts[k].parts| - 1]))
    decreases k
  {
    if k > 0 { FirstHolder(exts[1..], oid, k - 1); }
  }

  /** The second list is the first one, which has no 2.5.29.74, and that extension. */
  lemma SecondList(opts: Options, spki: Bytes, first: seq<Extension>, e: Extension, altSig: Bytes)
    requires opts.altPublicKey.Some?
    requires first == RequestedExtensions(opts, opts.altPublicKey, None) && e == AltSignatureExtension(false, altSig)
    requires |RequestInfo(opts, spki, first + [e])| < TWO_31
    ensures first + [e] == RequestedExtensions(opts, opts.altPublicKey, Some(BitString(altSig)))
    ensures AllWellFormed(first + [e]) && AllWellFormed(first) && e.WellFormed()
    ensures !Mentions(first, ALT_SIG_VALUE) && e.Has(ALT_SIG_VALUE)
    ensures Content(e.parts[|e.parts| - 1]) == BitString(altSig)
    ensures FirstValueIn(first + [e], ALT_SPKI) == opts.altPublicKey
  {
    var all := first + [e];
    SecondFormed(opts, spki, first, e, altSig);
    HybridIds();
    SplitFormed(first, e, RequestedIds(true, true));
    assert all[3] == first[3] && all[5] == e;
    ValueWritten(opts, spki, all, 5, ALT_SIG_VALUE, BitString(altSig));
    ValueWritten(opts, spki, all, 3, ALT_SPKI, opts.altPublicKey.value);
  }

  lemma ValueWritten(opts: Options, spki: Bytes, exts: seq<Extension>, i: nat, oid: Bytes, value: Bytes)
    requires i < |exts| && exts[i] == NewExtension(oid, false, value) && |RequestInfo(opts, spki, exts)| < TWO_31
    ensures exts[i].WellFormed() && exts[i].parts != []
    ensures Content(exts[i].parts[|exts[i].parts| - 1]) == value
  {
    RawFitsRequest(opts, spki, exts, i);
    NewExtensionFormed(oid, false, value);
  }

  /** A list under the identifiers `ids`, of which the last alone is 2.5.29.74 and the fourth the first 2.5.29.72. */
  lemma SplitFormed(first: seq<Extension>, e: Extension, ids: seq<Bytes>)
    requires |first| == 5 && |ids| == 6 && ids[3] == ALT_SPKI && ids[5] == ALT_SIG_VALUE
    requires forall i :: 0 <= i < 5 ==> ids[i] != ALT_SIG_VALUE
    requires forall i :: 0 <= i < 3 ==> ids[i] != ALT_SPKI
    requires forall i :: 0 <= i < 6 ==>
               (first + [e])[i].WellFormed() && forall oid :: (first + [e])[i].Has(oid) <==> oid == ids[i]
    ensures AllWellFormed(first + [e]) && AllWellFormed(first) && e.WellFormed()
    ensures !Mentions(first, ALT_SIG_VALUE) && e.Has(ALT_SIG_VALUE)
    ensures var value := (first + [e])[3];
            && value.WellFormed() && value.parts != []
            && FirstValueIn(first + [e], ALT_SPKI) == Some(Content(value.parts[|value.parts| - 1]))
  {
    var all := first + [e];
    assert all[5] == e;
    FirstHolder(all, ALT_SPKI, 3);
    forall i | 0 <= i < 5 ensures first[i].WellFormed() && !first[i].Has(ALT_SIG_VALUE) {
      assert all[i] == first[i];
    }
  }

  /** The six extensions of the second list, each under its identifier. */
  lemma SecondFormed(opts: Options, spki: Bytes, first: seq<Extension>, e: Extension, altSig: Bytes)
    requires opts.altPublicKey.Some?
    requires first == RequestedExtensions(opts, opts.altPublicKey, None) && e == AltSignatureExtension(false, altSig)
    requires |RequestInfo(opts, spki, first + [e])| < TWO_31
    ensures first + [e] == RequestedExtensions(opts, opts.altPublicKey, Some(BitString(altSig)))
    ensures |first| == 5 && first[3] == NewExtension(ALT_SPKI, false, opts.altPublicKey.value)
    ensures |RequestedIds(true, true)| == 6
    ensures forall i :: 0 <= i < 6 ==>
              && (first + [e])[i].WellFormed()
              && forall oid :: (first + [e])[i].Has(oid) <==> oid == RequestedIds(true, true)[i]
  {
    var alt74, all, ids := Some(BitString(altSig)), first + [e], RequestedIds(true, true);
    SecondPass(opts, opts.altPublicKey, BitString(altSig));
    forall i | 0 <= i < 6 ensures all[i].WellFormed() && forall oid :: all[i].Has(oid) <==> oid == ids[i] {
      RawFitsRequest(opts, spki, all, i);
      RequestedFormed(opts, opts.altPublicKey, alt74, i);
    }
  }

  lemma HybridIds()
    ensures var ids := RequestedIds(true, true);
            && |ids| == 6 && ids[3] == ALT_SPKI && ids[5] == ALT_SIG_VALUE
            && (forall i :: 0 <= i < 5 ==> ids[i] != ALT_SIG_VALUE)
            && (forall i :: 0 <= i < 3 ==> ids[i] != ALT_SPKI)
  {
    var ids := RequestedIds(true, true);
    assert ids == [KEY_USAGE, EXT_KEY_USAGE, SUBJECT_ALT_NAME, ALT_SPKI, ALT_SIG_ALG, ALT_SIG_VALUE];
    assert forall i :: 0 <= i < 5 ==> ids[i][2] != 0x4a;
    assert forall i :: 0 <= i < 3 ==> ids[i][2] != 0x48;
  }

  /** The request built with an alternative key: what was signed with it, and the signature. */
  predicate Hybrid(p: MlDsa.Primitive, opts: Options, spki: Bytes, altSig: Bytes) {
    && opts.altPrivateKey.Some? && opts.altPublicKey.Some? && IsSpki(spki)
    && MlDsa.Sign(p, FirstInfo(opts, spki), opts.altPrivateKey.value) == Done(Ok(altSig))
  }

  /**
   * The alternative signature covers exactly the finished body with 2.5.29.74 taken
   * out and encoded again, the classic one covers all of it, and the finished list
   * reads as the first list followed by that one extension.
   */
  lemma HybridRequest(p: MlDsa.Primitive, opts: Options, spki: Bytes, classicSign: Bytes -> Bytes, altSig: Bytes)
    returns (place: Place)
    requires Hybrid(p, opts, spki, altSig)
    requires |Built(p, opts, spki, classicSign).value.der| < TWO_31
    ensures var first := RequestedExtensions(opts, opts.altPublicKey, None);
            var der := Built(p, opts, spki, classicSign).value.der;
            var full := RequestInfo(opts, spki, first + [AltSignatureExtension(false, altSig)]);
            && der == Csr(opts, full, classicSign(full))
            && InfoWithoutAltSignature(der) == Done(Some(FirstInfo(opts, spki)))
            && RequestedValue(der, ALT_SIG_VALUE) == Done(Some(BitString(altSig)))
            && RequestedValue(der, ALT_SPKI) == Done(opts.altPublicKey)
            && LocateRequest(der) == Done(Some(place)) && |place.exts| == |first| + 1
            && (forall i :: 0 <= i < |first| ==> RawOf(der, place.exts[i]) == first[i].raw)
            && RawOf(der, place.exts[|first|]) == AltSignatureExtension(false, altSig).raw
  {
    var first, e := RequestedExtensions(opts, opts.altPublicKey, None), AltSignatureExtension(false, altSig);
    var full := RequestInfo(opts, spki, first + [e]);
    assert Built(p, opts, spki, classicSign).value.der == Csr(opts, full, classicSign(full));
    InfoFits(opts, spki, first + [e], classicSign(full));
    SecondList(opts, spki, first, e, altSig);
    place := AppendedRequest(opts, spki, first, e, classicSign(full));
    RequestedValueIs(opts, spki, first + [e], classicSign(full), ALT_SPKI);
  }

  /** The signature in a finished request verifies over the stripped body, under the key the request declares. */
  lemma PossessionVerifies(p: MlDsa.Primitive, opts: Options, spki: Bytes, classicSign: Bytes -> Bytes, altSig: Bytes,
                           seed: Bytes, secretKey: Bytes)
    requires p.Correct() && |seed| == MlDsa.SEED_BYTES && |MlDsa.Pkcs8FromSeed(seed, secretKey)| < TWO_31
    requires Hybrid(p, opts, spki, altSig) && opts.altPrivateKey == Some(MlDsa.Pkcs8FromSeed(seed, secretKey))
    requires MlDsa.SpkiFromPkcs8(p, opts.altPrivateKey.value) == Done(Ok(opts.altPublicKey.value))
    requires |Built(p, opts, spki, classicSign).value.der| < TWO_31
    ensures var der := Built(p, opts, spki, classicSign).value.der;
            var body := InfoWithoutAltSignature(der);
            var bits, key := RequestedValue(der, ALT_SIG_VALUE), RequestedValue(der, ALT_SPKI);
            && body.Done? && body.value.Some? && bits.Done? && bits.value.Some? && key.Done? && key.value.Some?
            && SignatureBits(bits.value.value).Some?
            && MlDsa.Verify(p, SignatureBits(bits.value.value).value, body.value.value, key.value.value)
  {
    var place := HybridRequest(p, opts, spki, classicSign, altSig);
    MlDsa.SeedRoundTrip(seed, secretKey);
    MlDsa.StoredKeyVerifies(p, seed, secretKey, FirstInfo(opts, spki));
    SignatureBitsRead(altSig);
  }
}
