/**
 * What a request says to whoever reads it, as trees of TLVs rather than as the calls
 * that write them (`privsvc/shared/pkcs10.ts`).
 */
module Pkcs10Content {
  import opened Js
  import opened Der
  import opened DerRoundTrip
  import opened Catalyst
  import opened Pkcs10
  import MlDsa

  // ----- Trees --------------------------------------------------------------

  const DNS_NAME: Byte := 0x82
  const URI: Byte := 0x86

  lemma EncodedAll(ns: seq<Node>, parts: seq<Bytes>)
    requires |ns| == |parts| && forall i :: 0 <= i < |ns| ==> Encode(ns[i]) == parts[i]
    ensures EncodeAll(ns) == parts
  {
  }

  /** The bits set in a BIT STRING, the first one being 0 (section 8.6.2 of ITU-T X.690). */
  function NamedBits(content: Bytes): set<nat>
    requires content != [] && content[0] <= 7
  {
    set i: nat | i < 8 * (|content| - 1) - content[0] && IsSet(content[1 + i / 8], i % 8) :: i
  }

  predicate IsSet(octet: Byte, i: nat)
    requires i < 8
  {
    octet / Pow2(7 - i) % 2 == 1
  }

  /** `digitalSignature` is bit 0 of `KeyUsage` (section 4.2.1.3 of RFC 5280). */
  const DIGITAL_SIGNATURE: nat := 0

  /** Seven bits are unused, and the one left is set. */
  lemma UsageIsSignature()
    ensures NamedBits([0x07, 0x80]) == {DIGITAL_SIGNATURE}
  {
    assert Pow2(7) == 2 * Pow2(6) == 4 * Pow2(5) == 8 * Pow2(4);
    assert Pow2(4) == 2 * Pow2(3) == 4 * Pow2(2) == 8 * Pow2(1) == 16;
    assert IsSet(0x80, 0);
    var content: Bytes := [0x07, 0x80];
    assert content[1 + 0 / 8] == 0x80;
    assert 0 in NamedBits(content);
    assert forall i :: i in NamedBits(content) ==> i == 0;
  }

  function UsageNode(): Node { Primitive(BIT_STRING, [0x07, 0x80]) }

  function PurposeNode(): Node { Constructed(SEQUENCE, [Primitive(OID, CLIENT_AUTH)]) }

  /** `GeneralNames`: the DNS name if there is one, then the URI. */
  function NamesNode(opts: Options): Node {
    Constructed(SEQUENCE, (if opts.dnsName == [] then [] else [Primitive(DNS_NAME, opts.dnsName)])
                          + [Primitive(URI, opts.uri)])
  }

  function AlgorithmNode(): Node { Constructed(SEQUENCE, [Primitive(OID, MlDsa.ML_DSA_65)]) }

  /** A distinguished name of one attribute, the common name in UTF-8. */
  function SubjectNode(commonName: Bytes): Node {
    Constructed(SEQUENCE, [Constructed(SET, [Constructed(SEQUENCE, [
      Primitive(OID, COMMON_NAME), Primitive(UTF8_STRING, commonName)])])])
  }

  /** RSA has NULL parameters, ECDSA none. */
  function SignatureNode(alg: ClassicAlgorithm): Node {
    match alg
    case Rsa2048 => Constructed(SEQUENCE, [Primitive(OID, SHA256_RSA), Primitive(0x05, [])])
    case EcP384 => Constructed(SEQUENCE, [Primitive(OID, ECDSA_SHA384)])
  }

  lemma SubjectIs(commonName: Bytes)
    ensures NameWithCommonName(commonName) == Encode(SubjectNode(commonName))
  {
    var id, text := Primitive(OID, COMMON_NAME), Primitive(UTF8_STRING, commonName);
    var pair := Constructed(SEQUENCE, [id, text]);
    var rdn := Constructed(SET, [pair]);
    EncodedAll([id, text], [Encode(id), Encode(text)]);
    EncodedAll([pair], [Encode(pair)]);
    EncodedAll([rdn], [Encode(rdn)]);
  }

  lemma SignatureIs(alg: ClassicAlgorithm)
    ensures SignatureAlgorithm(alg) == Encode(SignatureNode(alg))
  {
    var rsa, none, ec := Primitive(OID, SHA256_RSA), Primitive(0x05, []), Primitive(OID, ECDSA_SHA384);
    assert Encode(none) == [0x05, 0x00];
    EncodedAll([rsa, none], [Encode(rsa), Encode(none)]);
    EncodedAll([ec], [Encode(ec)]);
  }

  // ----- What is requested --------------------------------------------------

  /** The value under each identifier, None where there is none. */
  function Says(opts: Options, altSpki: Option<Bytes>, alt74: Option<Bytes>, oid: Bytes): Option<Bytes> {
    if oid == KEY_USAGE then Some(Encode(UsageNode()))
    else if oid == EXT_KEY_USAGE then Some(Encode(PurposeNode()))
    else if oid == SUBJECT_ALT_NAME then Some(Encode(NamesNode(opts)))
    else if oid == ALT_SPKI then altSpki
    else if oid == ALT_SIG_ALG then (if altSpki.Some? then Some(Encode(AlgorithmNode())) else None)
    else if oid == ALT_SIG_VALUE then alt74
    else None
  }

  lemma PurposeIs()
    ensures Encode(PurposeNode()) == Seq([Oid(CLIENT_AUTH)])
    ensures Encode(AlgorithmNode()) == MlDsa.AlgorithmIdentifier()
  {
    var purpose, algorithm := Primitive(OID, CLIENT_AUTH), Primitive(OID, MlDsa.ML_DSA_65);
    EncodedAll([purpose], [Encode(purpose)]);
    EncodedAll([algorithm], [Encode(algorithm)]);
  }

  lemma NamesAre(opts: Options)
    ensures Encode(NamesNode(opts)) ==
            Seq((if opts.dnsName == [] then [] else [Tlv(DNS_NAME, opts.dnsName)]) + [Tlv(URI, opts.uri)])
  {
    var dns := if opts.dnsName == [] then [] else [Primitive(DNS_NAME, opts.dnsName)];
    var written := if opts.dnsName == [] then [] else [Tlv(DNS_NAME, opts.dnsName)];
    EncodedAll(dns + [Primitive(URI, opts.uri)], written + [Tlv(URI, opts.uri)]);
  }

  lemma ValuesAre(opts: Options, altSpki: Option<Bytes>, alt74: Option<Bytes>, k: nat)
    requires k < |RequestedExtensions(opts, altSpki, alt74)|
    requires |RequestedIds(altSpki.Some?, alt74.Some?)| == |RequestedExtensions(opts, altSpki, alt74)|
    ensures Says(opts, altSpki, alt74, RequestedIds(altSpki.Some?, alt74.Some?)[k]) ==
            Some(RequestedValueAt(opts, altSpki, alt74, k))
  {
    PurposeIs();
    NamesAre(opts);
    IdAt(altSpki.Some?, alt74.Some?, k);
  }

  /** The identifiers by their last octet. */
  lemma IdAt(alt: bool, alt74: bool, k: nat)
    requires k < |RequestedIds(alt, alt74)|
    ensures RequestedIds(alt, alt74)[k] ==
            if k == 0 then KEY_USAGE else if k == 1 then EXT_KEY_USAGE else if k == 2 then SUBJECT_ALT_NAME
            else if !alt then ALT_SIG_VALUE
            else if k == 3 then ALT_SPKI else if k == 4 then ALT_SIG_ALG else ALT_SIG_VALUE
    ensures RequestedIds(alt, alt74)[k][2] ==
            if k == 0 then 0x0f else if k == 1 then 0x25 else if k == 2 then 0x11
            else if !alt then 0x4a else if k == 3 then 0x48 else if k == 4 then 0x49 else 0x4a
  {
    ThreeParts([KEY_USAGE, EXT_KEY_USAGE, SUBJECT_ALT_NAME], if alt then [ALT_SPKI, ALT_SIG_ALG] else [],
               if alt74 then [ALT_SIG_VALUE] else [], k);
  }

  lemma IdsDiffer(alt: bool, alt74: bool, i: nat, k: nat)
    requires i < k < |RequestedIds(alt, alt74)|
    ensures RequestedIds(alt, alt74)[i] != RequestedIds(alt, alt74)[k]
  {
    IdAt(alt, alt74, i);
    IdAt(alt, alt74, k);
  }

  lemma FormedAt(opts: Options, spki: Bytes, altSpki: Option<Bytes>, alt74: Option<Bytes>, i: nat)
    requires i < |RequestedExtensions(opts, altSpki, alt74)|
    requires |RequestInfo(opts, spki, RequestedExtensions(opts, altSpki, alt74))| < TWO_31
    ensures |RequestedIds(altSpki.Some?, alt74.Some?)| == |RequestedExtensions(opts, altSpki, alt74)|
    ensures var e, id := RequestedExtensions(opts, altSpki, alt74)[i], RequestedIds(altSpki.Some?, alt74.Some?)[i];
            && e == NewExtension(id, i == 0, RequestedValueAt(opts, altSpki, alt74, i))
            && e.WellFormed() && e.parts != [] && Content(e.parts[0]) == id
            && Content(e.parts[|e.parts| - 1]) == RequestedValueAt(opts, altSpki, alt74, i)
  {
    var exts := RequestedExtensions(opts, altSpki, alt74);
    RawFitsRequest(opts, spki, exts, i);
    RequestedIs(opts, altSpki, alt74, i);
    NewExtensionFormed(RequestedIds(altSpki.Some?, alt74.Some?)[i], i == 0, RequestedValueAt(opts, altSpki, alt74, i));
  }

  lemma HeldAt(opts: Options, spki: Bytes, altSpki: Option<Bytes>, alt74: Option<Bytes>, k: nat)
    requires k < |RequestedExtensions(opts, altSpki, alt74)|
    requires AllWellFormed(RequestedExtensions(opts, altSpki, alt74))
    requires |RequestInfo(opts, spki, RequestedExtensions(opts, altSpki, alt74))| < TWO_31
    ensures |RequestedIds(altSpki.Some?, alt74.Some?)| == |RequestedExtensions(opts, altSpki, alt74)|
    ensures FirstValueIn(RequestedExtensions(opts, altSpki, alt74), RequestedIds(altSpki.Some?, alt74.Some?)[k]) ==
            Some(RequestedValueAt(opts, altSpki, alt74, k))
  {
    var exts := RequestedExtensions(opts, altSpki, alt74);
    FormedAt(opts, spki, altSpki, alt74, k);
    var ids := RequestedIds(altSpki.Some?, alt74.Some?);
    forall i | 0 <= i < k ensures !exts[i].Has(ids[k]) {
      FormedAt(opts, spki, altSpki, alt74, i);
      IdsDiffer(altSpki.Some?, alt74.Some?, i, k);
    }
    FirstHolder(exts, ids[k], k);
  }

  /**
   * Whatever the options, a reader of the request finds under each identifier exactly
   * this: digital signature alone, client authentication alone, the DNS name and the URI,
   * and the alternative key, algorithm and signature where there are any.
   */
  lemma RequestSays(opts: Options, spki: Bytes, altSpki: Option<Bytes>, alt74: Option<Bytes>,
                    classicSignature: Bytes, oid: Bytes)
    requires var exts := RequestedExtensions(opts, altSpki, alt74);
             RequestFits(opts, spki, exts, classicSignature) && |RequestInfo(opts, spki, exts)| < TWO_31
    ensures var info := RequestInfo(opts, spki, RequestedExtensions(opts, altSpki, alt74));
            RequestedValue(Csr(opts, info, classicSignature), oid) == Done(Says(opts, altSpki, alt74, oid))
  {
    var exts, ids := RequestedExtensions(opts, altSpki, alt74), RequestedIds(altSpki.Some?, alt74.Some?);
    RequestedValueIs(opts, spki, exts, classicSignature, oid);
    RequestedAre(opts, spki, altSpki, alt74);
    FormedAt(opts, spki, altSpki, alt74, 0);
    if oid in ids {
      var k :| 0 <= k < |ids| && ids[k] == oid;
      HeldAt(opts, spki, altSpki, alt74, k);
      ValuesAre(opts, altSpki, alt74, k);
    } else {
      FirstIsMentioned(exts, oid);
      SaysNothing(opts, altSpki, alt74, oid);
    }
  }

  lemma SaysNothing(opts: Options, altSpki: Option<Bytes>, alt74: Option<Bytes>, oid: Bytes)
    requires oid !in RequestedIds(altSpki.Some?, alt74.Some?)
    ensures Says(opts, altSpki, alt74, oid) == None
  {
    var first := [KEY_USAGE, EXT_KEY_USAGE, SUBJECT_ALT_NAME];
    assert first[0] == KEY_USAGE && first[1] == EXT_KEY_USAGE && first[2] == SUBJECT_ALT_NAME;
    if altSpki.Some? { assert [ALT_SPKI, ALT_SIG_ALG][0] == ALT_SPKI && [ALT_SPKI, ALT_SIG_ALG][1] == ALT_SIG_ALG; }
  }

  /** Marked critical: a BOOLEAN that is true between the identifier and the value. */
  predicate IsCritical(e: Extension) { |e.parts| == 3 && e.parts[1] == [BOOLEAN, 0x01, 0xff] }

  /** The usage of the key is critical and nothing else is. */
  lemma OnlyUsageIsCritical(opts: Options, altSpki: Option<Bytes>, alt74: Option<Bytes>, i: nat)
    requires i < |RequestedExtensions(opts, altSpki, alt74)|
    ensures var e := RequestedExtensions(opts, altSpki, alt74)[i];
            (IsCritical(e) <==> i == 0) && (i > 0 ==> |e.parts| == 2)
  {
    RequestedIs(opts, altSpki, alt74, i);
  }

  /**
   * A request is refused exactly when only half of an alternative key pair is given, or
   * the private half cannot be read; it is hybrid exactly when both halves are given.
   */
  lemma RefusedExactly(p: MlDsa.Primitive, opts: Options, spki: Bytes, classicSign: Bytes -> Bytes)
    requires opts.altPrivateKey.Some? ==> MlDsa.Sign(p, FirstInfo(opts, spki), opts.altPrivateKey.value).Done?
    ensures var r, both := Built(p, opts, spki, classicSign), opts.altPrivateKey.Some? && opts.altPublicKey.Some?;
            && (r == Err(IncompleteAltKey) <==> opts.altPrivateKey.Some? != opts.altPublicKey.Some?)
            && (r.Err? && r != Err(IncompleteAltKey) <==>
                  both && MlDsa.SeedFromPkcs8(opts.altPrivateKey.value).value.Err?)
            && (r.Err? && both ==> r == Err(AltKey(MlDsa.SeedFromPkcs8(opts.altPrivateKey.value).value.error)))
            && (r.Ok? ==> (r.value.hybrid <==> both))
  {
  }
}
