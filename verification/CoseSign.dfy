/** Record signatures end to end: what is signed, how it is built or split off-host, and what verifies. */
module CoseSign {
  import opened Common
  import opened Cbor
  import opened CborProofs
  import opened KeyOrder
  import opened Cose
  import Utf8

  // ---------------------------------------------------------------------------
  // The codec round trips
  // ---------------------------------------------------------------------------

  lemma FourItems(a: Value, b: Value, c: Value, d: Value)
    requires Fits(Array([a, b, c, d])) && Encode(Array([a, b, c, d])).Ok?
    ensures Fits(a) && Fits(b) && Fits(c) && Fits(d)
    ensures Encode(a).Ok? && Encode(b).Ok? && Encode(c).Ok? && Encode(d).Ok?
    ensures Canon(Array([a, b, c, d])) == Array([Canon(a), Canon(b), Canon(c), Canon(d)])
  {
    hide TypeAndArgument;
    var items := [a, b, c, d];
    FitsAt(items, 0);
    FitsAt(items, 1);
    FitsAt(items, 2);
    FitsAt(items, 3);
    assert CanonAll(items) == [Canon(a), Canon(b), Canon(c), Canon(d)];
  }

  /** A header value after the wire is the canonical form of the value it had. */
  lemma GetDecoded(h: Header, l: Label)
    requires Encodable(h)
    ensures match Get(h, l)
            case None => Get(CanonHeader(h), l) == None
            case Some(v) => Fits(v) && Encode(v).Ok? && Get(CanonHeader(h), l) == Some(Canon(v))
  {
    hide Canon;
    hide Encode;
    hide SortedOrder;
    hide EncodeKeys;
    hide Get;
    EncodableDistinct(h);
    EncodableKeys(h);
    var keys := EncodeKeys(HeaderPairs(h)).value;
    var order := SortedOrder(keys);
    OrderIsPermutation(keys);
    var r := CanonHeader(h);
    assert DistinctLabels(r);
    GetFrom(h, l);
    GetFrom(r, l);
    if Get(h, l).Some? {
      var k :| 0 <= k < |h| && h[k] == (l, Get(h, l).value);
      PairsAt(HeaderPairs(h), k);
      assert k in order;
      var i :| 0 <= i < |order| && order[i] == k;
      assert r[i] == (l, Canon(h[k].1));
      GetAt(r, i);
    } else if HasLabel(r, l) {
      LabelArranged(h, l);
    }
  }

  lemma LabelArranged(h: Header, l: Label)
    requires Encodable(h) && HasLabel(CanonHeader(h), l)
    ensures HasLabel(h, l)
  {
    hide Canon;
    hide Encode;
    hide SortedOrder;
    hide EncodeKeys;
    EncodableKeys(h);
    var i :| 0 <= i < |h| && CanonHeader(h)[i].0 == l;
    assert h[SortedOrder(EncodeKeys(HeaderPairs(h)).value)[i]].0 == l;
  }

  /** Nothing verification looks up is changed by the wire. */
  lemma FieldsDecoded(h: Header)
    requires Encodable(h)
    ensures Alg(CanonHeader(h)) == Alg(h) && Kid(CanonHeader(h)) == Kid(h) && IsHashed(CanonHeader(h)) == IsHashed(h)
  {
    hide CanonHeader;
    hide Get;
    hide TypeAndArgument;
    GetDecoded(h, ALG);
    GetDecoded(h, KID);
    GetDecoded(h, HASHED);
  }

  lemma EmptyHeader()
    ensures Encodable([]) && CanonHeader([]) == []
  {
    assert HeaderPairs([]) == [];
  }

  /** Decoding what the encoder wrote gives the headers in canonical form and everything else as it was. */
  lemma EncodeDecode(p: Header, u: Header, payload: Option<Bytes>, signature: Bytes)
    requires EncodeSign1(p, u, payload, signature).Ok? && |signature| == SIGNATURE_LENGTH
    requires LabelsInRange(p) && LabelsInRange(u)
    ensures Encodable(p) && Encodable(u)
    ensures DecodeSign1(EncodeSign1(p, u, payload, signature).value)
         == Ok(Sign1(CanonHeader(p), EncodeProtected(p).value, CanonHeader(u), payload, signature))
  {
    hide Encode;
    hide Decode;
    hide CanonHeader;
    hide HeaderFromCbor;
    var protectedBytes := EncodeProtected(p).value;
    var v := Sign1Value(protectedBytes, u, payload, signature);
    FourItems(ByteString(protectedBytes), HeaderToCbor(u), PayloadValue(payload), ByteString(signature));
    HeaderDecoded(u);
    DecodeEncode(v);
    ProtectedDecoded(p);
  }

  lemma ProtectedDecoded(p: Header)
    requires EncodeProtected(p).Ok? && LabelsInRange(p)
    ensures Encodable(p) && DecodeProtected(EncodeProtected(p).value) == Ok(CanonHeader(p))
  {
    hide Decode;
    hide CanonHeader;
    hide HeaderFromCbor;
    if p == [] {
      EmptyHeader();
    } else {
      HeaderDecoded(p);
      DecodeEncode(HeaderToCbor(p));
    }
  }

  /** An accepted message is exactly what the encoder writes for what it decodes to. */
  lemma DecodeEncodeSign1(bytes: Bytes)
    requires DecodeSign1(bytes).Ok?
    ensures var d := DecodeSign1(bytes).value;
      && EncodeProtected(d.protectedHeader) == Ok(d.protectedBytes)
      && EncodeSign1(d.protectedHeader, d.unprotected, d.payload, d.signature) == Ok(bytes)
      && |d.protectedBytes| <= MAX_U64
  {
    hide Encode;
    hide Decode;
    var d := DecodeSign1(bytes).value;
    var items := Decode(bytes).value.items;
    DecodeIsEncoding(bytes);
    PairsRoundTrip(items[1].pairs);
    ProtectedIsEncoding(d.protectedBytes);
    assert items == [items[0], items[1], items[2], items[3]];
    FitsAt(items, 0);
    assert Sign1Value(d.protectedBytes, d.unprotected, d.payload, d.signature) == Array(items);
  }

  lemma ProtectedIsEncoding(bytes: Bytes)
    requires DecodeProtected(bytes).Ok?
    ensures EncodeProtected(DecodeProtected(bytes).value) == Ok(bytes)
  {
    hide Encode;
    hide Decode;
    if bytes != [] {
      DecodeIsEncoding(bytes);
      PairsRoundTrip(Decode(bytes).value.pairs);
    }
  }

  // ---------------------------------------------------------------------------
  // What is signed
  // ---------------------------------------------------------------------------

  /** No byte string in memory is longer. */
  const MAX_LENGTH: int := 0x7fff_ffff_ffff_ffff

  function Ascii(s: string): (b: Bytes)
    requires forall i :: 0 <= i < |s| ==> s[i] < 128 as char
    ensures |b| == |s|
  {
    seq(|s|, i requires 0 <= i < |s| => s[i] as int)
  }

  const DOMAIN_PREFIX: string := "cardano-poe-record-sig-v1"

  function SigStructure(protectedBytes: Bytes, aad: Bytes, payload: Bytes): Value {
    Array([Text("Signature1"), ByteString(protectedBytes), ByteString(aad), ByteString(payload)])
  }

  lemma SigStructureEncodes(protectedBytes: Bytes, aad: Bytes, payload: Bytes)
    requires |protectedBytes| <= MAX_U64 && |aad| <= MAX_U64 && |payload| <= MAX_U64
    ensures Fits(SigStructure(protectedBytes, aad, payload)) && Encode(SigStructure(protectedBytes, aad, payload)).Ok?
  {
    hide TypeAndArgument;
    hide FitsAll;
    hide EncodeAll;
    hide Utf8.Encode;
    ContextFits();
    ItemsEncode(SigStructure(protectedBytes, aad, payload).items);
  }

  lemma {:induction false} ItemsEncode(items: seq<Value>)
    requires forall i :: 0 <= i < |items| ==> Fits(items[i]) && Encode(items[i]).Ok?
    ensures FitsAll(items) && EncodeAll(items).Ok?
  {
    if items != [] {
      ItemsEncode(items[1..]);
    }
  }

  lemma {:induction false} EncodedLength(s: string)
    ensures |Utf8.Encode(s)| <= 4 * |s|
  {
    if s != [] {
      EncodedLength(s[1..]);
    }
  }

  lemma ContextFits()
    ensures Fits(Text("Signature1")) && Encode(Text("Signature1")).Ok?
  {
    EncodedLength("Signature1");
  }

  function BuildSigStructure(protectedBytes: Bytes, aad: Bytes, payload: Bytes): Bytes
    requires |protectedBytes| <= MAX_U64 && |aad| <= MAX_U64 && |payload| <= MAX_U64
  {
    SigStructureEncodes(protectedBytes, aad, payload);
    Encode(SigStructure(protectedBytes, aad, payload)).value
  }

  function ToSign(body: Bytes): Bytes {
    Ascii(DOMAIN_PREFIX) + body
  }

  function BuildLabel309(protectedBytes: Bytes, body: Bytes): Bytes
    requires |protectedBytes| <= MAX_U64 && |body| <= MAX_LENGTH
  {
    BuildSigStructure(protectedBytes, [], ToSign(body))
  }

  /** The signed bytes determine every part they were made of. */
  lemma SigStructureInjective(p: Bytes, a: Bytes, x: Bytes, q: Bytes, b: Bytes, y: Bytes)
    requires |p| <= MAX_U64 && |a| <= MAX_U64 && |x| <= MAX_U64
    requires |q| <= MAX_U64 && |b| <= MAX_U64 && |y| <= MAX_U64
    requires BuildSigStructure(p, a, x) == BuildSigStructure(q, b, y)
    ensures p == q && a == b && x == y
  {
    hide Encode;
    hide Canon;
    SigStructureCanon(p, a, x);
    SigStructureCanon(q, b, y);
    DecodeEncode(SigStructure(p, a, x));
    DecodeEncode(SigStructure(q, b, y));
  }

  lemma SigStructureCanon(p: Bytes, a: Bytes, x: Bytes)
    requires |p| <= MAX_U64 && |a| <= MAX_U64 && |x| <= MAX_U64
    ensures Fits(SigStructure(p, a, x)) && Encode(SigStructure(p, a, x)).Ok?
    ensures Canon(SigStructure(p, a, x)) == SigStructure(p, a, x)
  {
    hide Encode;
    SigStructureEncodes(p, a, x);
    FourItems(Text("Signature1"), ByteString(p), ByteString(a), ByteString(x));
  }

  /** One protected header and one body per signed byte string. */
  lemma Label309Injective(p: Bytes, body: Bytes, q: Bytes, other: Bytes)
    requires |p| <= MAX_U64 && |q| <= MAX_U64 && |body| <= MAX_LENGTH && |other| <= MAX_LENGTH
    requires BuildLabel309(p, body) == BuildLabel309(q, other)
    ensures p == q && body == other
  {
    hide BuildSigStructure;
    SigStructureInjective(p, [], ToSign(body), q, [], ToSign(other));
    assert body == ToSign(body)[|DOMAIN_PREFIX|..] && other == ToSign(other)[|DOMAIN_PREFIX|..];
  }

  // ---------------------------------------------------------------------------
  // Building, in process and off-host
  // ---------------------------------------------------------------------------

  /** Signing, key derivation and strict verification, as functions of bytes. */
  datatype Ed25519 = Ed25519(
    publicKey: Bytes -> Bytes,
    sign: (Bytes, Bytes) -> Bytes,
    verify: (Bytes, Bytes, Bytes) -> bool)

  /** What is asked of the primitive: keys and signatures have their sizes, and a signature verifies under its key. */
  ghost predicate Correct(ed: Ed25519) {
    && (forall seed: Bytes :: |ed.publicKey(seed)| == KEY_LENGTH)
    && (forall seed: Bytes, message: Bytes ::
          |ed.sign(seed, message)| == SIGNATURE_LENGTH && ed.verify(ed.publicKey(seed), message, ed.sign(seed, message)))
  }

  lemma CorrectConsistent()
    ensures exists ed :: Correct(ed)
  {
    var zeros := seq(64, _ => 0);
    var ed := Ed25519((_: Bytes) => zeros[..32], (_: Bytes, _: Bytes) => zeros, (_: Bytes, _: Bytes, _: Bytes) => true);
    assert Correct(ed);
  }

  datatype Signer = Seed(seed: Bytes) | Closure(f: Bytes -> Bytes)

  datatype BuildError = SignerNotProvided

  /** A protected header whose encoding fits in memory, if it has one. */
  predicate Addressable(p: Header) {
    EncodeProtected(p).Ok? ==> |EncodeProtected(p).value| <= MAX_LENGTH
  }

  function Finish(p: Header, u: Header, signature: Bytes): Result<Bytes, BuildError> {
    if |signature| != SIGNATURE_LENGTH then Err(SignerNotProvided)
    else
      match EncodeSign1(p, u, None, signature)
      case Err(_) => Err(SignerNotProvided)
      case Ok(message) => Ok(message)
  }

  function Build(ed: Ed25519, p: Header, u: Header, body: Bytes, signer: Signer): Result<Bytes, BuildError>
    requires Addressable(p) && |body| <= MAX_LENGTH
  {
    match EncodeProtected(p)
    case Err(_) => Err(SignerNotProvided)
    case Ok(protectedBytes) =>
      var toSign := BuildLabel309(protectedBytes, body);
      match signer
      case Seed(seed) =>
        (match EncodeSign1(p, u, None, ed.sign(seed, toSign))
         case Err(_) => Err(SignerNotProvided)
         case Ok(message) => Ok(message))
      case Closure(f) => Finish(p, u, f(toSign))
  }

  /** The message's array encodes exactly when its unprotected header does. */
  lemma Sign1Encodes(protectedBytes: Bytes, u: Header, payload: Option<Bytes>, signature: Bytes)
    requires |protectedBytes| <= MAX_U64 && |signature| <= MAX_U64 && (payload.Some? ==> |payload.value| <= MAX_U64)
    ensures TryEncode(Sign1Value(protectedBytes, u, payload, signature)).Ok? <==> Encodable(u)
  {
    hide TypeAndArgument;
    hide HeaderToCbor;
    var v := Sign1Value(protectedBytes, u, payload, signature);
    if Encodable(u) {
      ItemsEncode(v.items);
    } else if TryEncode(v).Ok? {
      FourItems(ByteString(protectedBytes), HeaderToCbor(u), PayloadValue(payload), ByteString(signature));
    }
  }

  lemma ProtectedEncodes(p: Header)
    ensures EncodeProtected(p).Ok? <==> Encodable(p)
  {
    hide Encode;
    if p == [] {
      EmptyHeader();
    }
  }

  /** Building succeeds exactly when both headers encode and a signing closure returns 64 bytes. */
  lemma BuildExactly(ed: Ed25519, p: Header, u: Header, body: Bytes, signer: Signer)
    requires Correct(ed) && Addressable(p) && |body| <= MAX_LENGTH
    ensures EncodeProtected(p).Ok? <==> Encodable(p)
    ensures Build(ed, p, u, body, signer).Ok? <==>
      && Encodable(p) && Encodable(u)
      && (signer.Closure? ==> |signer.f(BuildLabel309(EncodeProtected(p).value, body))| == SIGNATURE_LENGTH)
  {
    hide Encode;
    hide EncodeProtected;
    hide BuildLabel309;
    hide Sign1Value;
    hide TryEncode;
    hide Encodable;
    ProtectedEncodes(p);
    if Encodable(p) {
      var protectedBytes := EncodeProtected(p).value;
      var toSign := BuildLabel309(protectedBytes, body);
      var signature := match signer case Seed(seed) => ed.sign(seed, toSign) case Closure(f) => f(toSign);
      if |signature| == SIGNATURE_LENGTH {
        Sign1Encodes(protectedBytes, u, None, signature);
      }
    }
  }

  datatype Prepared = Prepared(sigStructure: Bytes, protectedHeader: Header, unprotected: Header)

  function Prepare(p: Header, u: Header, body: Bytes): Result<Prepared, Cbor.Error>
    requires Addressable(p) && |body| <= MAX_LENGTH
  {
    var protectedBytes :- EncodeProtected(p);
    Ok(Prepared(BuildLabel309(protectedBytes, body), p, u))
  }

  function Assemble(prepared: Prepared, signature: Bytes): Result<Bytes, BuildError> {
    Finish(prepared.protectedHeader, prepared.unprotected, signature)
  }

  /** Preparing, signing elsewhere and assembling gives byte for byte what building in process gives. */
  lemma SplitEqualsBuild(ed: Ed25519, p: Header, u: Header, body: Bytes, signer: Signer)
    requires Correct(ed) && Addressable(p) && |body| <= MAX_LENGTH
    ensures Build(ed, p, u, body, signer) ==
      match Prepare(p, u, body)
      case Err(_) => Err(SignerNotProvided)
      case Ok(prepared) =>
        Assemble(prepared, match signer
                           case Seed(seed) => ed.sign(seed, prepared.sigStructure)
                           case Closure(f) => f(prepared.sigStructure))
  {
  }

  // ---------------------------------------------------------------------------
  // Verifying
  // ---------------------------------------------------------------------------

  datatype VerifyError =
    | MalformedSigCose
    | MalformedSigCoseSign1
    | UnsupportedSigAlg
    | KidUnresolved
    | SignatureInvalid

  datatype Verification = Verified(signerKey: Bytes, alg: int) | Refused(error: VerifyError)

  type Digest28 = d: Bytes | |d| == 28 witness seq(28, _ => 0)

  /** The signer key: the key id and the expected key, of which at least one is there and both agree. */
  function ResolveKey(kid: Option<Bytes>, expected: Option<Bytes>): Option<Bytes> {
    var usable := if expected.Some? && |expected.value| == KEY_LENGTH then expected else None;
    if kid.Some? && usable.Some? && kid != usable then None
    else if kid.Some? then kid
    else usable
  }

  /** The bytes the verifier checks the signature over. */
  function SignedBytes(blake: Bytes -> Digest28, protectedBytes: Bytes, hashed: bool, body: Bytes): Bytes
    requires |protectedBytes| <= MAX_U64 && |body| <= MAX_LENGTH
  {
    if hashed then BuildSigStructure(protectedBytes, [], blake(ToSign(body))) else BuildLabel309(protectedBytes, body)
  }

  function Verdict(ed: Ed25519, blake: Bytes -> Digest28, p: Header, protectedBytes: Bytes, hashed: bool, signature: Bytes,
                   body: Bytes, expected: Option<Bytes>): Verification
    requires |protectedBytes| <= MAX_U64 && |body| <= MAX_LENGTH
  {
    if Alg(p) != Some(EDDSA) then Refused(UnsupportedSigAlg)
    else
      match ResolveKey(Kid(p), expected)
      case None => Refused(KidUnresolved)
      case Some(key) =>
        if ed.verify(key, SignedBytes(blake, protectedBytes, hashed, body), signature) then Verified(key, EDDSA)
        else Refused(SignatureInvalid)
  }

  function Verify(ed: Ed25519, blake: Bytes -> Digest28, message: Bytes, body: Bytes, expected: Option<Bytes>): Verification
    requires |body| <= MAX_LENGTH
  {
    match DecodeSign1(message)
    case Err(_) => Refused(MalformedSigCose)
    case Ok(d) =>
      DecodeEncodeSign1(message);
      if d.payload.Some? then Refused(MalformedSigCoseSign1)
      else Verdict(ed, blake, d.protectedHeader, d.protectedBytes, IsHashed(d.unprotected), d.signature, body, expected)
  }

  /**
    What a built message verifies as, in terms of the headers and signature it was built from, and
    with no reference to the wire.
  */
  lemma BuiltVerification(ed: Ed25519, blake: Bytes -> Digest28, p: Header, u: Header, signature: Bytes, body: Bytes,
                          expected: Option<Bytes>)
    requires |signature| == SIGNATURE_LENGTH && LabelsInRange(p) && LabelsInRange(u) && |body| <= MAX_LENGTH
    requires EncodeSign1(p, u, None, signature).Ok? && Addressable(p)
    ensures Verify(ed, blake, EncodeSign1(p, u, None, signature).value, body, expected)
         == Verdict(ed, blake, p, EncodeProtected(p).value, IsHashed(u), signature, body, expected)
  {
    hide DecodeSign1;
    hide CanonHeader;
    hide SignedBytes;
    hide Kid;
    hide Alg;
    hide IsHashed;
    EncodeDecode(p, u, None, signature);
    FieldsDecoded(p);
    FieldsDecoded(u);
  }

  /**
    Sign, then verify: with EdDSA in the protected header, the signer's key named by it or expected
    by the caller, and no hashed mode, a message over any two headers that encode is built, and
    verifies under that key.
  */
  lemma SignThenVerify(ed: Ed25519, blake: Bytes -> Digest28, p: Header, u: Header, seed: Bytes, body: Bytes,
                       expected: Option<Bytes>)
    requires Correct(ed) && Addressable(p) && |body| <= MAX_LENGTH && LabelsInRange(p) && LabelsInRange(u)
    requires Alg(p) == Some(EDDSA) && ResolveKey(Kid(p), expected) == Some(ed.publicKey(seed)) && !IsHashed(u)
    requires Encodable(p) && Encodable(u)
    ensures Build(ed, p, u, body, Seed(seed)).Ok?
    ensures Verify(ed, blake, Build(ed, p, u, body, Seed(seed)).value, body, expected) == Verified(ed.publicKey(seed), EDDSA)
  {
    hide Verify;
    hide EncodeSign1;
    hide EncodeProtected;
    hide BuildLabel309;
    hide Encodable;
    BuildExactly(ed, p, u, body, Seed(seed));
    var protectedBytes := EncodeProtected(p).value;
    BuiltVerification(ed, blake, p, u, ed.sign(seed, BuildLabel309(protectedBytes, body)), body, expected);
  }

  // ---------------------------------------------------------------------------
  // What verification answers, condition by condition
  // ---------------------------------------------------------------------------

  /** The 32-byte key `key` is named by the protected header's key id or expected by the caller. */
  predicate Named(p: Header, expected: Option<Bytes>, key: Bytes) {
    |key| == 32 && (Get(p, IntLabel(4)) == Some(ByteString(key)) || expected == Some(key))
  }

  /** `key` is the one key named. */
  ghost predicate SignerIs(p: Header, expected: Option<Bytes>, key: Bytes) {
    Named(p, expected, key) && forall other :: Named(p, expected, other) ==> other == key
  }

  /** The structure a record signature is over; in hashed mode the domain-separated body is replaced by its digest. */
  function RecordStructure(blake: Bytes -> Digest28, protectedBytes: Bytes, u: Header, body: Bytes): Value {
    var separated := Utf8.Encode("cardano-poe-record-sig-v1") + body;
    Array([
      Text("Signature1"),
      ByteString(protectedBytes),
      ByteString([]),
      ByteString(if Get(u, TextLabel("hashed")) == Some(Bool(true)) then blake(separated) else separated)])
  }

  /** The signature verifies under `key` over the encoding of that structure. */
  predicate SignatureHolds(ed: Ed25519, blake: Bytes -> Digest28, d: Sign1, body: Bytes, key: Bytes) {
    var m := TryEncode(RecordStructure(blake, d.protectedBytes, d.unprotected, body));
    m.Ok? && ed.verify(key, m.value, d.signature)
  }

  lemma {:induction false} AsciiEncodes(s: string)
    requires forall i :: 0 <= i < |s| ==> s[i] < 128 as char
    ensures Utf8.Encode(s) == Ascii(s)
  {
    if s != [] {
      AsciiEncodes(s[1..]);
      assert Ascii(s) == [s[0] as int] + Ascii(s[1..]);
    }
  }

  lemma SignedBytesAre(blake: Bytes -> Digest28, protectedBytes: Bytes, u: Header, body: Bytes)
    requires |protectedBytes| <= MAX_U64 && |body| <= MAX_LENGTH
    ensures TryEncode(RecordStructure(blake, protectedBytes, u, body)) == Ok(SignedBytes(blake, protectedBytes, IsHashed(u), body))
  {
    hide Encode;
    hide Fits;
    hide Get;
    hide Ascii;
    hide Utf8.Encode;
    AsciiEncodes(DOMAIN_PREFIX);
    SigStructureEncodes(protectedBytes, [], if IsHashed(u) then blake(ToSign(body)) else ToSign(body));
  }

  lemma SignerResolved(p: Header, expected: Option<Bytes>)
    ensures forall key :: SignerIs(p, expected, key) <==> ResolveKey(Kid(p), expected) == Some(key)
  {
    hide Get;
    var kid := Kid(p);
    forall key
      ensures Named(p, expected, key) <==> |key| == 32 && (kid == Some(key) || expected == Some(key))
    {
    }
    if kid.Some? {
      assert Named(p, expected, kid.value);
    }
    if expected.Some? && |expected.value| == 32 {
      assert Named(p, expected, expected.value);
    }
  }

  lemma AlgIs(p: Header)
    ensures Alg(p) == Some(EDDSA) <==> Get(p, IntLabel(1)) == Some(Negative(7))
  {
    hide Get;
  }

  /**
    Verification, answer by answer: a message verifies exactly when it decodes with no payload under
    EdDSA, one signer key is named, and the signature holds under that key; and each refusal comes
    exactly when its own condition is the first that fails.
  */
  lemma VerifyExactly(ed: Ed25519, blake: Bytes -> Digest28, message: Bytes, body: Bytes, expected: Option<Bytes>)
    requires |body| <= MAX_LENGTH
    ensures var r, d := Verify(ed, blake, message, body, expected), DecodeSign1(message);
      var detached := d.Ok? && d.value.payload.None?;
      var eddsa := detached && Get(d.value.protectedHeader, IntLabel(1)) == Some(Negative(7));
      && (r == Refused(MalformedSigCose) <==> d.Err?)
      && (r == Refused(MalformedSigCoseSign1) <==> d.Ok? && d.value.payload.Some?)
      && (r == Refused(UnsupportedSigAlg) <==> detached && Get(d.value.protectedHeader, IntLabel(1)) != Some(Negative(7)))
      && (r == Refused(KidUnresolved) <==> eddsa && !exists key :: SignerIs(d.value.protectedHeader, expected, key))
      && (r == Refused(SignatureInvalid) <==>
            eddsa && exists key :: SignerIs(d.value.protectedHeader, expected, key) && !SignatureHolds(ed, blake, d.value, body, key))
      && (forall key, alg :: r == Verified(key, alg) <==>
            alg == -8 && eddsa && SignerIs(d.value.protectedHeader, expected, key) && SignatureHolds(ed, blake, d.value, body, key))
  {
    hide DecodeSign1;
    hide SignerIs;
    hide SignatureHolds;
    hide ResolveKey;
    hide SignedBytes;
    hide IsHashed;
    hide Get;
    hide Alg;
    hide Kid;
    hide EncodeProtected;
    hide EncodeSign1;
    var d := DecodeSign1(message);
    if d.Ok? {
      DecodeEncodeSign1(message);
      var p := d.value.protectedHeader;
      AlgIs(p);
      SignerResolved(p, expected);
      forall key
        ensures SignatureHolds(ed, blake, d.value, body, key) <==>
          ed.verify(key, SignedBytes(blake, d.value.protectedBytes, IsHashed(d.value.unprotected), body), d.value.signature)
      {
        HoldsOver(ed, blake, d.value, body, key);
      }
    }
  }

  lemma HoldsOver(ed: Ed25519, blake: Bytes -> Digest28, d: Sign1, body: Bytes, key: Bytes)
    requires |d.protectedBytes| <= MAX_U64 && |body| <= MAX_LENGTH
    ensures SignatureHolds(ed, blake, d, body, key) <==>
      ed.verify(key, SignedBytes(blake, d.protectedBytes, IsHashed(d.unprotected), body), d.signature)
  {
    hide SignedBytes;
    hide IsHashed;
    hide RecordStructure;
    hide TryEncode;
    SignedBytesAre(blake, d.protectedBytes, d.unprotected, body);
  }

  /** The four parts of a message, and nothing else, decode to it. */
  lemma DecodesExactly(bytes: Bytes, d: Sign1)
    ensures DecodeSign1(bytes) == Ok(d) <==>
      && Decode(bytes) == Ok(Array([
           ByteString(d.protectedBytes), HeaderToCbor(d.unprotected),
           match d.payload case None => Null case Some(b) => ByteString(b),
           ByteString(d.signature)]))
      && |d.signature| == 64 && LabelsInRange(d.unprotected) && LabelsInRange(d.protectedHeader)
      && (if d.protectedHeader == [] then d.protectedBytes == []
          else d.protectedBytes != [] && Decode(d.protectedBytes) == Ok(HeaderToCbor(d.protectedHeader)))
  {
    hide Decode;
    var v := Decode(bytes);
    if v.Ok? && v.value.Array? && |v.value.items| == 4 {
      var items := v.value.items;
      assert items == [items[0], items[1], items[2], items[3]];
      HeaderRead(items[1], d.unprotected);
      if items[0].ByteString? && items[0].bytes != [] && Decode(items[0].bytes).Ok? {
        HeaderRead(Decode(items[0].bytes).value, d.protectedHeader);
      }
    }
    if d.protectedBytes != [] && Decode(d.protectedBytes).Ok? {
      HeaderRead(Decode(d.protectedBytes).value, d.protectedHeader);
    }
  }

  lemma HeaderRead(v: Value, h: Header)
    ensures HeaderFromCbor(v) == Some(h) <==> v == HeaderToCbor(h) && LabelsInRange(h)
  {
    hide HeaderFromPairs;
    hide HeaderPairs;
    if HeaderFromCbor(v).Some? {
      PairsRoundTrip(v.pairs);
    }
    if v == HeaderToCbor(h) && LabelsInRange(h) {
      HeaderRoundTrip(h);
    }
  }

  /** What is built: the four-part array over the header bytes, with the signature over the structure of the plain body. */
  lemma BuiltMessage(ed: Ed25519, blake: Bytes -> Digest28, p: Header, u: Header, body: Bytes, signer: Signer)
    requires Correct(ed) && Addressable(p) && |body| <= MAX_LENGTH && Build(ed, p, u, body, signer).Ok?
    ensures var header := if p == [] then Ok([]) else TryEncode(HeaderToCbor(p));
      && header.Ok?
      && var toSign := TryEncode(RecordStructure(blake, header.value, [], body));
         && toSign.Ok?
         && var signature := match signer case Seed(seed) => ed.sign(seed, toSign.value) case Closure(f) => f(toSign.value);
            && |signature| == 64
            && TryEncode(Array([ByteString(header.value), HeaderToCbor(u), Null, ByteString(signature)])) == Ok(Build(ed, p, u, body, signer).value)
  {
    hide TryEncode;
    hide RecordStructure;
    hide BuildLabel309;
    hide HeaderToCbor;
    var protectedBytes := EncodeProtected(p).value;
    SignedBytesAre(blake, protectedBytes, [], body);
    assert !IsHashed([]);
  }
}
