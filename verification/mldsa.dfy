/** The key containers and the in-process provider of `privsvc/shared/mldsa.ts`. */
module MlDsa {
  import opened Js
  import opened Der
  import opened DerRoundTrip

  const PUBLIC_KEY_BYTES: nat := 1952
  const SIGNATURE_BYTES: nat := 3309
  const SEED_BYTES: nat := 32

  /** The body of the OBJECT IDENTIFIER id-ml-dsa-65. */
  const ML_DSA_65: Bytes := [0x60, 0x86, 0x48, 0x01, 0x65, 0x03, 0x04, 0x03, 0x12]

  datatype KeyError =
    | NotMlDsa | NotSequence | MissingFields | NoVersion | NoAlgorithm | NoPrivateKey | NoInnerSequence | NoSeed
    | TooShort | WrongPublicKeySize

  function AlgorithmIdentifier(): Bytes { Seq([Oid(ML_DSA_65)]) }

  function SpkiFromRawPublicKey(publicKey: Bytes): Result<Bytes, KeyError> {
    if |publicKey| != PUBLIC_KEY_BYTES then Err(WrongPublicKeySize)
    else Ok(Seq([AlgorithmIdentifier(), BitString(publicKey)]))
  }

  /** `Buffer.includes`. */
  predicate Includes(b: Bytes, part: Bytes) {
    exists i :: 0 <= i <= |b| - |part| && Embeds(b, i, part)
  }

  function RawPublicKeyFromSpki(spki: Bytes): Result<Bytes, KeyError> {
    if !Includes(spki, ML_DSA_65) then Err(NotMlDsa)
    else if |spki| < PUBLIC_KEY_BYTES then Err(TooShort)
    else Ok(spki[|spki| - PUBLIC_KEY_BYTES..])
  }

  function Pkcs8FromSeed(seed: Bytes, secretKey: Bytes): Bytes {
    Seq([Tlv(INTEGER, [0x00]), AlgorithmIdentifier(), OctetString(Seq([OctetString(seed), OctetString(secretKey)]))])
  }

  /** `.find((p) => p.tag === DER_OCTET_STRING && p.length === 32)` */
  function FirstSeed(ts: seq<Item>): Option<Item> {
    if ts == [] then None
    else if ts[0].tag == OCTET_STRING && ts[0].length == SEED_BYTES then Some(ts[0])
    else FirstSeed(ts[1..])
  }

  /** The last steps of `seedFromPkcs8`, inside the OCTET STRING of the private key. */
  function SeedWithin(pkcs8: Bytes, privateKey: Item): Run<Result<Bytes, KeyError>> {
    var inner := TlvAt(pkcs8, privateKey.start);
    if inner.None? || inner.value.tag != SEQUENCE then Done(Err(NoInnerSequence))
    else
      var parts :- ChildrenOf(pkcs8, inner.value);
      var seed := FirstSeed(parts);
      if seed.None? then Done(Err(NoSeed)) else Done(Ok(ContentOf(pkcs8, seed.value)))
  }

  function SeedFromPkcs8(pkcs8: Bytes): Run<Result<Bytes, KeyError>> {
    if !Includes(pkcs8, ML_DSA_65) then Done(Err(NotMlDsa))
    else
      var root := TlvAt(pkcs8, 0);
      if root.None? || root.value.tag != SEQUENCE then Done(Err(NotSequence))
      else
        var fields :- ChildrenOf(pkcs8, root.value);
        if |fields| < 3 then Done(Err(MissingFields))
        else if fields[0].tag != INTEGER then Done(Err(NoVersion))
        else if fields[1].tag != SEQUENCE then Done(Err(NoAlgorithm))
        else if fields[2].tag != OCTET_STRING then Done(Err(NoPrivateKey))
        else SeedWithin(pkcs8, fields[2])
  }

  // ----- The provider -------------------------------------------------------

  datatype KeyPair = KeyPair(publicKey: Bytes, secretKey: Bytes)

  /** The ML-DSA-65 primitives, left abstract. */
  datatype Primitive = Primitive(
    keygen: Bytes -> KeyPair,
    sign: (Bytes, Bytes) -> Bytes,
    verify: (Bytes, Bytes, Bytes) -> bool)
  {
    /** What is assumed of the algorithm. */
    ghost predicate Correct() {
      && (forall seed: Bytes :: |keygen(seed).publicKey| == PUBLIC_KEY_BYTES)
      && (forall secretKey: Bytes, m: Bytes :: |sign(m, secretKey)| == SIGNATURE_BYTES)
      && (forall seed: Bytes, m: Bytes :: verify(sign(m, keygen(seed).secretKey), m, keygen(seed).publicKey))
    }
  }

  /** `nobleProvider.sign`: the key is rebuilt from the seed. */
  function Sign(p: Primitive, message: Bytes, pkcs8: Bytes): Run<Result<Bytes, KeyError>> {
    var seed :- SeedFromPkcs8(pkcs8);
    if seed.Err? then Done(seed) else Done(Ok(p.sign(message, p.keygen(seed.value).secretKey)))
  }

  /** `nobleProvider.verify`: an unreadable key does not verify. */
  predicate Verify(p: Primitive, signature: Bytes, message: Bytes, spki: Bytes) {
    var raw := RawPublicKeyFromSpki(spki);
    raw.Ok? && p.verify(signature, message, raw.value)
  }

  function SpkiFromPkcs8(p: Primitive, pkcs8: Bytes): Run<Result<Bytes, KeyError>> {
    var seed :- SeedFromPkcs8(pkcs8);
    if seed.Err? then Done(seed) else Done(SpkiFromRawPublicKey(p.keygen(seed.value).publicKey))
  }

  // ----- Round trips --------------------------------------------------------

  lemma IncludesPart(pre: Bytes, part: Bytes, post: Bytes)
    ensures Includes(pre + part + post, part)
  {
    assert Embeds(pre + part + post, |pre|, part);
  }

  lemma AlgorithmInside(pre: Bytes, post: Bytes)
    ensures Includes(pre + AlgorithmIdentifier() + post, ML_DSA_65)
    ensures IsTlv(AlgorithmIdentifier()) && AlgorithmIdentifier()[0] == SEQUENCE
  {
    WrittenIsTlv(SEQUENCE, Oid(ML_DSA_65));
    var head: Bytes := [0x30, 11, 0x06, 9];
    ConcatTwo(Oid(ML_DSA_65), []);
    assert Oid(ML_DSA_65) == [0x06, 9] + ML_DSA_65;
    assert AlgorithmIdentifier() == head + ML_DSA_65;
    assert pre + AlgorithmIdentifier() + post == (pre + head) + ML_DSA_65 + post;
    IncludesPart(pre + head, ML_DSA_65, post);
  }

  lemma Pkcs8Leaves(buf: Bytes, t: Item, seed: Bytes, secretKey: Bytes) returns (parts: seq<Item>)
    requires Reads(buf, t, Seq([OctetString(seed), OctetString(secretKey)]))
    ensures ChildrenOf(buf, t) == Done(parts) && |parts| == 2
    ensures parts[0].tag == parts[1].tag == OCTET_STRING
    ensures parts[0].length == |seed| && ContentOf(buf, parts[0]) == seed
    ensures parts[1].length == |secretKey| && ContentOf(buf, parts[1]) == secretKey
  {
    var leaves := [OctetString(seed), OctetString(secretKey)];
    ConcatTwo(leaves[0], leaves[1]);
    WrittenIsTlv(SEQUENCE, Concat(leaves));
    assert |Concat(leaves)| > |seed| + |secretKey|;
    WrittenIsTlv(OCTET_STRING, seed);
    WrittenIsTlv(OCTET_STRING, secretKey);
    parts := ChildrenRecovered(buf, t, Seq(leaves), leaves);
    RawAndContent(buf, parts[0], leaves[0]);
    RawAndContent(buf, parts[1], leaves[1]);
  }

  function SeedOrKey(seed: Bytes, secretKey: Bytes): Result<Bytes, KeyError> {
    if |seed| == SEED_BYTES then Ok(seed) else if |secretKey| == SEED_BYTES then Ok(secretKey) else Err(NoSeed)
  }

  lemma SeedInInner(buf: Bytes, key: Item, seed: Bytes, secretKey: Bytes)
    requires IsTlv(Seq([OctetString(seed), OctetString(secretKey)]))
    requires Embeds(buf, key.start, Seq([OctetString(seed), OctetString(secretKey)]))
    ensures SeedWithin(buf, key) == Done(SeedOrKey(seed, secretKey))
  {
    var inner := Seq([OctetString(seed), OctetString(secretKey)]);
    TlvInside(buf, key.start, inner);
    var t := TlvAt(buf, key.start).value;
    RawAndContent(buf, t, inner);
    assert t.tag == SEQUENCE;
    var parts := Pkcs8Leaves(buf, t, seed, secretKey);
    assert parts[1..][1..] == [];
    assert FirstSeed(parts[1..]) == if |secretKey| == SEED_BYTES then Some(parts[1]) else None;
  }

  /** A written SEQUENCE, read from its start. */
  lemma Outermost(content: Bytes) returns (t: Item)
    requires |Tlv(SEQUENCE, content)| < TWO_31
    ensures var b := Tlv(SEQUENCE, content);
            TlvAt(b, 0) == Some(t) && t.tag == SEQUENCE && Reads(b, t, b)
  {
    var b := Tlv(SEQUENCE, content);
    WrittenIsTlv(SEQUENCE, content);
    TlvInside(b, 0, b);
    t := TlvAt(b, 0).value;
    RawAndContent(b, t, b);
  }

  lemma Pkcs8Fields(seed: Bytes, secretKey: Bytes) returns (fields: seq<Item>)
    requires |Pkcs8FromSeed(seed, secretKey)| < TWO_31
    ensures var buf := Pkcs8FromSeed(seed, secretKey);
            && Includes(buf, ML_DSA_65)
            && TlvAt(buf, 0).Some? && TlvAt(buf, 0).value.tag == SEQUENCE
            && ChildrenOf(buf, TlvAt(buf, 0).value) == Done(fields) && |fields| == 3
            && fields[0].tag == INTEGER && fields[1].tag == SEQUENCE && fields[2].tag == OCTET_STRING
            && SeedWithin(buf, fields[2]) == Done(SeedOrKey(seed, secretKey))
  {
    var buf, inner := Pkcs8FromSeed(seed, secretKey), Seq([OctetString(seed), OctetString(secretKey)]);
    var version, alg, key := Tlv(INTEGER, [0x00]), AlgorithmIdentifier(), OctetString(inner);
    ConcatThree(version, alg, key);
    WrittenIsTlv(INTEGER, [0x00]);
    WrittenIsTlv(OCTET_STRING, inner);
    WrittenIsTlv(SEQUENCE, Concat([OctetString(seed), OctetString(secretKey)]));
    WrittenIsTlv(SEQUENCE, version + alg + key);
    var head := [SEQUENCE] + LengthField(|version + alg + key|);
    assert buf == (head + version) + alg + key;
    AlgorithmInside(head + version, key);
    var t := Outermost(version + alg + key);
    fields := ChildrenRecovered(buf, t, buf, [version, alg, key]);
    RawAndContent(buf, fields[0], version);
    RawAndContent(buf, fields[1], alg);
    RawAndContent(buf, fields[2], key);
    SeedInInner(buf, fields[2], seed, secretKey);
  }

  /**
   * The seed is found by position. A container written with a seed of another size
   * gives the key back in its place if that has 32 octets, and is refused otherwise.
   */
  lemma SeedRoundTrip(seed: Bytes, secretKey: Bytes)
    requires |Pkcs8FromSeed(seed, secretKey)| < TWO_31
    ensures SeedFromPkcs8(Pkcs8FromSeed(seed, secretKey)) ==
            Done(SeedOrKey(seed, secretKey))
  {
    var fields := Pkcs8Fields(seed, secretKey);
  }

  lemma PublicKeyRoundTrip(publicKey: Bytes)
    requires |publicKey| == PUBLIC_KEY_BYTES
    ensures SpkiFromRawPublicKey(publicKey).Ok?
    ensures RawPublicKeyFromSpki(SpkiFromRawPublicKey(publicKey).value) == Ok(publicKey)
  {
    var alg, bits := AlgorithmIdentifier(), BitString(publicKey);
    var spki := SpkiFromRawPublicKey(publicKey).value;
    ConcatTwo(alg, bits);
    var head := [SEQUENCE] + LengthField(|alg + bits|);
    assert spki == head + alg + bits;
    AlgorithmInside(head, bits);
    assert spki[|spki| - PUBLIC_KEY_BYTES..] == publicKey;
  }

  /** A key stored as PKCS#8 signs what the SPKI derived from that same file verifies. */
  lemma StoredKeyVerifies(p: Primitive, seed: Bytes, secretKey: Bytes, message: Bytes)
    requires p.Correct() && |seed| == SEED_BYTES && |Pkcs8FromSeed(seed, secretKey)| < TWO_31
    ensures Sign(p, message, Pkcs8FromSeed(seed, secretKey)).Done?
    ensures Sign(p, message, Pkcs8FromSeed(seed, secretKey)).value.Ok?
    ensures SpkiFromPkcs8(p, Pkcs8FromSeed(seed, secretKey)) == Done(SpkiFromRawPublicKey(p.keygen(seed).publicKey))
    ensures SpkiFromRawPublicKey(p.keygen(seed).publicKey).Ok?
    ensures Verify(p, Sign(p, message, Pkcs8FromSeed(seed, secretKey)).value.value, message,
                   SpkiFromRawPublicKey(p.keygen(seed).publicKey).value)
  {
    SeedRoundTrip(seed, secretKey);
    PublicKeyRoundTrip(p.keygen(seed).publicKey);
  }

  // ----- Any containers -----------------------------------------------------

  /** A key verifies only if it declares the algorithm, is long enough, and its last octets do. */
  lemma VerifiesExactly(p: Primitive, signature: Bytes, message: Bytes, spki: Bytes)
    ensures Verify(p, signature, message, spki) <==>
              exists head, publicKey ::
                && spki == head + publicKey && |publicKey| == PUBLIC_KEY_BYTES && Includes(spki, ML_DSA_65)
                && p.verify(signature, message, publicKey)
  {
    if Verify(p, signature, message, spki) {
      var head, publicKey := spki[..|spki| - PUBLIC_KEY_BYTES], spki[|spki| - PUBLIC_KEY_BYTES..];
      assert spki == head + publicKey;
    }
    forall head, publicKey: Bytes | spki == head + publicKey && |publicKey| == PUBLIC_KEY_BYTES
      ensures spki[|spki| - PUBLIC_KEY_BYTES..] == publicKey
    {
    }
  }

  /** The content of the first OCTET STRING of the size of a seed. */
  function SeedAmong(parts: seq<Bytes>): Option<Bytes>
    requires AllTlv(parts)
  {
    if parts == [] then None
    else if parts[0][0] == OCTET_STRING && |Content(parts[0])| == SEED_BYTES then Some(Content(parts[0]))
    else SeedAmong(parts[1..])
  }

  lemma {:induction false} SeedFound(buf: Bytes, found: seq<Item>, parts: seq<Bytes>)
    requires AllTlv(parts) && |found| == |parts| && forall i :: 0 <= i < |parts| ==> Reads(buf, found[i], parts[i])
    ensures FirstSeed(found).Some? <==> SeedAmong(parts).Some?
    ensures FirstSeed(found).Some? ==> SeedAmong(parts) == Some(ContentOf(buf, FirstSeed(found).value))
  {
    if parts == [] {
    } else {
      RawAndContent(buf, found[0], parts[0]);
      SeedFound(buf, found[1..], parts[1..]);
    }
  }

  /** A stored key as a list of fields, whatever they are. */
  predicate IsStored(fields: seq<Bytes>) {
    AllTlv(fields) && |fields| >= 3 && |Seq(fields)| < TWO_31 && Includes(Seq(fields), ML_DSA_65)
  }

  lemma FieldsRead(fields: seq<Bytes>) returns (found: seq<Item>)
    requires IsStored(fields)
    ensures var pkcs8 := Seq(fields);
            && TlvAt(pkcs8, 0).Some? && TlvAt(pkcs8, 0).value.tag == SEQUENCE
            && ChildrenOf(pkcs8, TlvAt(pkcs8, 0).value) == Done(found) && |found| == |fields|
            && forall i :: 0 <= i < |fields| ==> Reads(pkcs8, found[i], fields[i]) && found[i].tag == fields[i][0]
  {
    var t := Outermost(Concat(fields));
    WrittenIsTlv(SEQUENCE, Concat(fields));
    found := ChildrenRecovered(Seq(fields), t, Seq(fields), fields);
    forall i | 0 <= i < |fields| ensures found[i].tag == fields[i][0] {
      RawAndContent(Seq(fields), found[i], fields[i]);
    }
  }

  /**
   * Fields are taken by position: a seed planted where the version, the algorithm or
   * the private key belongs is refused, whatever else the key holds.
   */
  lemma PlantedIsRefused(fields: seq<Bytes>)
    requires IsStored(fields)
    ensures fields[0][0] != INTEGER ==> SeedFromPkcs8(Seq(fields)) == Done(Err(NoVersion))
    ensures fields[0][0] == INTEGER && fields[1][0] != SEQUENCE ==> SeedFromPkcs8(Seq(fields)) == Done(Err(NoAlgorithm))
    ensures fields[0][0] == INTEGER && fields[1][0] == SEQUENCE && fields[2][0] != OCTET_STRING ==>
              SeedFromPkcs8(Seq(fields)) == Done(Err(NoPrivateKey))
  {
    var found := FieldsRead(fields);
  }

  function SeedOf(parts: seq<Bytes>): Result<Bytes, KeyError>
    requires AllTlv(parts)
  {
    if SeedAmong(parts).Some? then Ok(SeedAmong(parts).value) else Err(NoSeed)
  }

  lemma SeedWithinIs(buf: Bytes, key: Item, parts: seq<Bytes>)
    requires AllTlv(parts) && IsTlv(Seq(parts)) && Content(Seq(parts)) == Concat(parts)
    requires Embeds(buf, key.start, Seq(parts))
    ensures SeedWithin(buf, key) == Done(SeedOf(parts))
  {
    TlvInside(buf, key.start, Seq(parts));
    var t := TlvAt(buf, key.start).value;
    RawAndContent(buf, t, Seq(parts));
    var leaves := ChildrenRecovered(buf, t, Seq(parts), parts);
    SeedFound(buf, leaves, parts);
  }

  /** And the seed is the first OCTET STRING of 32 bytes inside the private key, which nothing outside it changes. */
  lemma SeedIsInside(fields: seq<Bytes>, parts: seq<Bytes>)
    requires IsStored(fields) && fields[0][0] == INTEGER && fields[1][0] == SEQUENCE
    requires AllTlv(parts) && fields[2] == OctetString(Seq(parts))
    ensures SeedFromPkcs8(Seq(fields)) == Done(SeedOf(parts))
  {
    var found := FieldsRead(fields);
    InnerFits(fields, parts);
    RawAndContent(Seq(fields), found[2], fields[2]);
    SeedWithinIs(Seq(fields), found[2], parts);
  }

  lemma InnerFits(fields: seq<Bytes>, parts: seq<Bytes>)
    requires IsStored(fields) && fields[2] == OctetString(Seq(parts))
    ensures IsTlv(Seq(parts)) && Content(Seq(parts)) == Concat(parts) && Seq(parts)[0] == SEQUENCE
    ensures Content(fields[2]) == Seq(parts) && fields[2][0] == OCTET_STRING
  {
    assert fields == [fields[0], fields[1]] + ([fields[2]] + fields[3..]);
    ConcatAppend([fields[0], fields[1]], [fields[2]] + fields[3..]);
    assert ([fields[2]] + fields[3..])[1..] == fields[3..];
    assert |fields[2]| <= |Concat(fields)|;
    WrittenIsTlv(OCTET_STRING, Seq(parts));
    WrittenIsTlv(SEQUENCE, Concat(parts));
  }

  /** A stored key that is refused neither signs nor yields a public key, and both say why. */
  lemma RefusedKeySignsNothing(p: Primitive, message: Bytes, pkcs8: Bytes, why: KeyError)
    requires SeedFromPkcs8(pkcs8) == Done(Err(why))
    ensures Sign(p, message, pkcs8) == Done(Err(why)) && SpkiFromPkcs8(p, pkcs8) == Done(Err(why))
  {
  }
}
