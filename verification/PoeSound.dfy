/** An accepted record is sound, and what the strict role accepts the public role accepts too. */
module PoeSound {
  import opened Common
  import opened Cbor
  import opened PoeRecord
  import opened PoeIssues
  import opened PoeValidator
  import opened PoeShape
  import opened PoeReencode
  import opened PoeSpec

  // ---------------------------------------------------------------------------
  // Typed envelopes
  // ---------------------------------------------------------------------------

  function FieldOf(v: Value, field: string): Option<Bytes> {
    if v.Map? then AsBytes(Get(v.pairs, field)) else None
  }

  /** Clean slots repeat no material, nor any seen before them. */
  lemma {:induction false} SlotsFresh(slots: seq<Value>, shape: SlotShape, j: nat, seen: set<Bytes>, path: Path)
    requires j <= |slots| && Clean(CheckSlots(slots, shape, j, seen, path))
    requires forall k :: j <= k < |slots| ==> FieldOf(slots[k], shape.field).Some?
    ensures forall k :: j <= k < |slots| ==> FieldOf(slots[k], shape.field).value !in seen
    ensures forall k, l :: j <= k < l < |slots| ==> FieldOf(slots[k], shape.field) != FieldOf(slots[l], shape.field)
    decreases |slots| - j
  {
    hide HasError;
    hide Get;
    hide CheckSlotShape;
    if j < |slots| {
      var slotPath := path + [Index(j)];
      var material := FieldOf(slots[j], shape.field);
      var a := CheckSlotShape(slots[j].pairs, shape, slotPath);
      var b := When(material.Some? && material.value in seen, EncSlotsDuplicateKemMaterial, slotPath + [Key(shape.field)]);
      CleanParts(a + b, CheckSlots(slots, shape, j + 1, seen + {material.value}, path));
      CleanParts(a, b);
      CleanWhen(material.Some? && material.value in seen, EncSlotsDuplicateKemMaterial, slotPath + [Key(shape.field)]);
      SlotsFresh(slots, shape, j + 1, seen + {material.value}, path);
    }
  }

  lemma SlotSound(slot: Value, shape: SlotShape, path: Path)
    requires slot.Map? && TextKeyed(slot.pairs) && (shape.field == "epk" || shape.field == "kem_ct")
    requires Clean(CheckSlotShape(slot.pairs, shape, path))
    ensures SlotFromCbor(slot).Some? && SoundSlot(SlotFromCbor(slot).value, shape)
    ensures Material(SlotFromCbor(slot).value) == FieldOf(slot, shape.field)
  {
    hide Get;
    hide HasError;
    hide CheckSlotShape;
    SlotFacts(slot.pairs, shape, path);
  }

  /** One slot of a typed envelope. */
  lemma SlotAt(p: seq<(Value, Value)>, options: Options, path: Path, k: nat)
    requires TypedShape(p, options, path) && Has(p, "slots") && Has(p, "kem") && Get(p, "slots").value.Array?
    requires k < |Get(p, "slots").value.items|
    ensures var slot := Get(p, "slots").value.items[k];
      var shape := ShapeFor(Get(p, "kem").value.text).value;
      && SlotFromCbor(slot).Some? && SoundSlot(SlotFromCbor(slot).value, shape)
      && Material(SlotFromCbor(slot).value) == FieldOf(slot, shape.field) && FieldOf(slot, shape.field).Some?
  {
    hide Get;
    hide HasError;
    hide SchemaEnvelope;
    hide CheckScheme1;
    hide InteriorKeys;
    hide CheckSlots;
    hide SoundSlot;
    hide Material;
    hide SlotFromCbor;
    SchemaParts(p, path);
    Scheme1Parts(options, p, path);
    var slots := Get(p, "slots").value.items;
    var kem := Get(p, "kem").value.text;
    var shape := ShapeFor(kem).value;
    ShapeFields(kem);
    AllSlotsClean(options, p, path + [Key("slots")]);
    SlotIsMap(slots, path, k);
    SlotIsTextKeyed(p, slots, path, k);
    SlotsClean(slots, shape, 0, {}, path + [Key("slots")], k);
    SlotSound(slots[k], shape, path + [Key("slots")] + [Index(k)]);
    SoundHasMaterial(SlotFromCbor(slots[k]).value, shape);
  }

  lemma SlotsSound(p: seq<(Value, Value)>, options: Options, path: Path)
    requires WellFormed(Map(p)) && TypedShape(p, options, path) && Has(p, "slots")
    ensures Scheme1FromCbor(p).Some?
    ensures var enc := Scheme1FromCbor(p).value;
      enc.slots.Some? && enc.kem.Some? && enc.slotsMac.Some? && SoundSlots(enc, options)
  {
    hide Get;
    hide WellFormed;
    hide HasError;
    hide SchemaEnvelope;
    hide CheckScheme1;
    hide CheckKeyPath;
    hide InteriorKeys;
    hide CheckSlots;
    hide SoundSlot;
    hide Material;
    hide SlotFromCbor;
    hide FieldOf;
    hide SoundSlots;
    SchemaParts(p, path);
    Scheme1Parts(options, p, path);
    KeyPathFacts(p, path);
    TypedCarried(p, options, path);
    var slots := Get(p, "slots").value.items;
    var kem := Get(p, "kem").value.text;
    var shape := ShapeFor(kem).value;
    AllSlotsClean(options, p, path + [Key("slots")]);
    var read := Collect(SlotFromCbor, slots).value;
    forall k | 0 <= k < |slots|
      ensures SoundSlot(read[k], shape) && Material(read[k]) == FieldOf(slots[k], shape.field)
      ensures FieldOf(slots[k], shape.field).Some?
    {
      SlotAt(p, options, path, k);
      assert SlotFromCbor(slots[k]) == Some(read[k]);
    }
    SlotsFresh(slots, shape, 0, {}, path + [Key("slots")]);
    SlotsTogether(Scheme1FromCbor(p).value, options);
  }

  lemma SlotsTogether(enc: Scheme1, options: Options)
    requires enc.slots.Some? && enc.kem.Some? && enc.slotsMac.Some? && |enc.slotsMac.value| == 32
    requires 0 < |enc.slots.value| <= options.maxSlots && ShapeFor(enc.kem.value).Some?
    requires forall i :: 0 <= i < |enc.slots.value| ==> SoundSlot(enc.slots.value[i], ShapeFor(enc.kem.value).value)
    requires MaterialDistinct(enc.slots.value)
    ensures SoundSlots(enc, options)
  {
  }

  lemma SoundHasMaterial(slot: Slot, shape: SlotShape)
    requires SoundSlot(slot, shape)
    ensures Material(slot).Some?
  {
  }

  lemma {:induction false} ParamsRead(pairs: seq<(Value, Value)>, i: nat)
    requires ParamsFromCbor(pairs).Some? && i < |pairs|
    ensures pairs[i].0.Text? && pairs[i].1.Unsigned?
    ensures ParamsFromCbor(pairs).value[i] == (pairs[i].0.text, pairs[i].1.n)
  {
    if i > 0 {
      ParamsRead(pairs[1..], i - 1);
    }
  }

  lemma ParamSound(pairs: seq<(Value, Value)>, name: string, floor: nat, ceiling: Option<nat>, base: Path)
    requires ParamsFromCbor(pairs).Some? && Clean(CheckParam(pairs, name, floor, ceiling, base))
    ensures SoundParam(ParamsFromCbor(pairs).value, name, floor, ceiling)
  {
    hide ParamsFromCbor;
    hide CheckParam;
    ParamUnsigned(pairs, name, floor, ceiling, base);
    var i := Find(pairs, name);
    ParamsRead(pairs, i);
  }

  lemma ParamsSound(c: Option<Ceiling>, params: seq<(Value, Value)>, base: Path)
    requires TextKeyed(params) && ParamsFromCbor(params).Some?
    requires Clean(CheckParams(c, params, base))
    ensures var read := ParamsFromCbor(params).value;
      && SoundParam(read, "m", 65_536, if c.Some? then Some(c.value.m) else None)
      && SoundParam(read, "t", 3, if c.Some? then Some(c.value.t) else None)
      && SoundParam(read, "p", 1, if c.Some? then Some(c.value.p) else None)
      && (forall i :: 0 <= i < |read| ==> read[i].0 in ["m", "t", "p"])
  {
    hide HasError;
    hide CheckParam;
    hide SoundParam;
    hide ParamsFromCbor;
    hide CheckParams;
    ParamsClean(c, params, base);
    ParamSound(params, "m", 65_536, if c.Some? then Some(c.value.m) else None, base);
    ParamSound(params, "t", 3, if c.Some? then Some(c.value.t) else None, base);
    ParamSound(params, "p", 1, if c.Some? then Some(c.value.p) else None, base);
    forall i | 0 <= i < |params|
      ensures ParamsFromCbor(params).value[i].0 in ["m", "t", "p"]
    {
      ParamsRead(params, i);
    }
  }

  lemma PassphraseSound(options: Options, p: seq<(Value, Value)>, schemaPath: Path, path: Path)
    requires WellFormed(Map(p)) && TextKeyed(p) && !NonTextKeyMap(Get(p, "params"))
    requires SchemaPassphrase(Some(Map(p)), schemaPath) == [] && Clean(CheckPassphrase(options, p, path))
    ensures PassphraseFromCbor(Map(p)).Some? && SoundPassphrase(PassphraseFromCbor(Map(p)).value, options.ceiling)
  {
    hide Get;
    hide HasError;
    hide WellFormed;
    hide CheckParam;
    hide SoundParam;
    hide ParamsFromCbor;
    hide CheckParams;
    PassphraseFacts(options, p, schemaPath, path);
    CleanRaise(EncPassphraseAlgUnsupported, path + [Key("alg")]);
    var params := Get(p, "params").value.pairs;
    ParamsExact(params);
    ParamsSound(options.ceiling, params, path + [Key("params")]);
  }

  lemma BlockSound(p: seq<(Value, Value)>, options: Options, path: Path)
    requires WellFormed(Map(p)) && TypedShape(p, options, path) && Has(p, "passphrase")
    ensures PassphraseFromCbor(Get(p, "passphrase").value).Some?
    ensures SoundPassphrase(PassphraseFromCbor(Get(p, "passphrase").value).value, options.ceiling)
  {
    hide Get;
    hide WellFormed;
    hide HasError;
    hide SchemaEnvelope;
    hide CheckScheme1;
    hide PassphraseFromCbor;
    hide SoundPassphrase;
    SchemaParts(p, path);
    Scheme1Parts(options, p, path);
    FieldWellFormed(p, "passphrase");
    var pp := Get(p, "passphrase").value;
    BlockKeys(p, path);
    PassphraseSound(options, pp.pairs, path + [Key("passphrase")], path + [Key("passphrase")]);
  }

  lemma NonceSound(p: seq<(Value, Value)>, path: Path)
    requires Clean(CheckNonce(p, path)) && AsText(Get(p, "aead")).Some? && AsBytes(Get(p, "nonce")).Some?
    requires NonceLength(AsText(Get(p, "aead")).value).Some?
    ensures NonceLength(AsText(Get(p, "aead")).value) == Some(|AsBytes(Get(p, "nonce")).value|)
  {
    hide Get;
    hide HasError;
    var n := NonceLength(AsText(Get(p, "aead")).value).value;
    CleanWhen(|AsBytes(Get(p, "nonce")).value| != n, NonceLengthMismatch, path + [Key("nonce")]);
  }

  lemma TypedSound(p: seq<(Value, Value)>, options: Options, path: Path)
    requires WellFormed(Map(p)) && TypedShape(p, options, path)
    ensures Scheme1FromCbor(p).Some? && SoundScheme1(Scheme1FromCbor(p).value, options)
  {
    hide Get;
    hide WellFormed;
    hide HasError;
    hide SchemaEnvelope;
    hide CheckScheme1;
    hide CheckKeyPath;
    hide CheckNonce;
    hide CheckAllSlots;
    hide InteriorKeys;
    hide SoundSlots;
    hide SoundPassphrase;
    hide PassphraseFromCbor;
    SchemaParts(p, path);
    Scheme1Parts(options, p, path);
    KeyPathFacts(p, path);
    TypedCarried(p, options, path);
    NonceSound(p, path);
    if Has(p, "slots") {
      SlotsSound(p, options, path);
    } else {
      BlockSound(p, options, path);
    }
  }

  // ---------------------------------------------------------------------------
  // Accepted envelopes
  // ---------------------------------------------------------------------------

  /** What a clean envelope that is not typed is. */
  lemma OpaqueDispatch(profile: Profile, options: Options, enc: seq<(Value, Value)>, path: Path)
    requires TextKeyed(enc) && !IsTyped(enc) && Clean(CheckEnvelope(profile, options, enc, path))
    ensures SoundOpaque(profile, options, Map(enc))
  {
    hide Get;
    hide HasError;
    hide InteriorKeys;
    hide SchemaEnvelope;
    hide CheckScheme1;
    hide NamesUnsupported;
    hide UnsupportedIdentifiers;
    CleanRaise(SchemaMissingRequired, path + [Key("scheme")]);
    CleanRaise(SchemaTypeMismatch, path + [Key("scheme")]);
    CleanRaise(UnauthenticatedCipherForbidden, path + [Key("aead")]);
    InteriorErrors(enc, path);
    SchemaErrors(enc, path);
    var scheme := Get(enc, "scheme").value.n;
    var unsupported := UnsupportedIdentifiers(scheme, Get(enc, "kem"), Get(enc, "aead"), path);
    StrictRaises(path, unsupported);
    UnsupportedExactly(enc, path);
    if unsupported == [] {
      ShapeNotTyped(enc, path);
    }
  }

  lemma UnsupportedExactly(enc: seq<(Value, Value)>, path: Path)
    requires Has(enc, "scheme") && Get(enc, "scheme").value.Unsigned?
    ensures UnsupportedIdentifiers(Get(enc, "scheme").value.n, Get(enc, "kem"), Get(enc, "aead"), path) == [] <==> !NamesUnsupported(enc)
  {
    hide Get;
  }

  lemma StrictRaises(path: Path, unsupported: seq<Issue>)
    ensures !Clean([Issue(path, EncUnsupported, ErrorSeverity)] + unsupported)
  {
    assert ([Issue(path, EncUnsupported, ErrorSeverity)] + unsupported)[0].severity == ErrorSeverity;
  }

  /** With every named identifier supported, only a missing or mistyped one keeps an envelope from being typed. */
  lemma ShapeNotTyped(enc: seq<(Value, Value)>, path: Path)
    requires !IsTyped(enc) && Get(enc, "scheme").Some? && Get(enc, "scheme").value.Unsigned?
    requires UnsupportedIdentifiers(Get(enc, "scheme").value.n, Get(enc, "kem"), Get(enc, "aead"), path) == []
    ensures SchemaEnvelope(enc, path) != []
  {
    hide Get;
    hide WalkArray;
    hide SchemaSlotsMac;
    hide SchemaPassphrase;
    hide UnknownKeys;
    var kem, aead := Get(enc, "kem"), Get(enc, "aead");
    assert RequiredField(enc, "aead", IsText, SchemaMissingRequired, SchemaTypeMismatch, path) != []
        || OptionalField(enc, "kem", IsText, SchemaTypeMismatch, path) != [];
  }

  /** An envelope that reaches the identifier checks names no forbidden cipher. */
  lemma CipherAllowed(profile: Profile, options: Options, enc: seq<(Value, Value)>, path: Path)
    requires Clean(CheckEnvelope(profile, options, enc, path)) && AsText(Get(enc, "aead")).Some?
    ensures !profile.forbiddenCipher(AsText(Get(enc, "aead")).value)
  {
    hide Get;
    hide HasError;
    hide InteriorKeys;
    hide SchemaEnvelope;
    hide CheckScheme1;
    hide UnsupportedIdentifiers;
    CleanRaise(SchemaMissingRequired, path + [Key("scheme")]);
    CleanRaise(SchemaTypeMismatch, path + [Key("scheme")]);
    CleanRaise(UnauthenticatedCipherForbidden, path + [Key("aead")]);
  }

  lemma SizeSame(a: Value, b: Value)
    requires Same(a, b)
    ensures EnvelopeSize(a) == EnvelopeSize(b)
  {
    hide Encode;
  }

  lemma TypedEnvelopeSound(profile: Profile, options: Options, p: seq<(Value, Value)>, path: Path)
    requires WellFormed(Map(p)) && TextKeyed(p) && IsTyped(p) && Clean(CheckEnvelope(profile, options, p, path))
    ensures EnvelopeFromCbor(Map(p)).Some? && SoundEnvelope(profile, options, EnvelopeFromCbor(Map(p)).value)
  {
    hide Get;
    hide WellFormed;
    hide HasError;
    hide CheckEnvelope;
    hide SoundScheme1;
    hide IsTyped;
    TypedDispatch(profile, options, p, path);
    TypedSound(p, options, path);
    TypedCipher(p);
    CipherAllowed(profile, options, p, path);
  }

  lemma TypedCipher(p: seq<(Value, Value)>)
    requires Scheme1FromCbor(p).Some?
    ensures AsText(Get(p, "aead")) == Some(Scheme1FromCbor(p).value.aead)
  {
    hide Get;
  }

  lemma OpaqueEnvelopeSound(profile: Profile, options: Options, p: seq<(Value, Value)>, path: Path)
    requires TextKeyed(p) && !IsTyped(p) && Clean(CheckEnvelope(profile, options, p, path))
    ensures EnvelopeFromCbor(Map(p)).Some? && SoundEnvelope(profile, options, EnvelopeFromCbor(Map(p)).value)
  {
    hide Get;
    hide HasError;
    hide CheckEnvelope;
    hide SoundOpaque;
    hide IsTyped;
    OpaqueDispatch(profile, options, p, path);
  }

  lemma EnvelopeSound(profile: Profile, options: Options, item: seq<(Value, Value)>, enc: Value, path: Path)
    requires WellFormed(enc) && !NonTextKeyMap(Some(enc)) && Clean(CheckEnc(profile, options, item, enc, path))
    ensures EnvelopeFromCbor(enc).Some? && SoundEnvelope(profile, options, EnvelopeFromCbor(enc).value)
    ensures EnvelopeSize(EnvelopeToCbor(EnvelopeFromCbor(enc).value)) <= options.maxEnvelopeBytes
  {
    hide WellFormed;
    hide HasError;
    hide CheckEnc;
    hide CheckEnvelope;
    hide EnvelopeSize;
    hide EnvelopeToCbor;
    hide EnvelopeFromCbor;
    hide SoundEnvelope;
    hide IsTyped;
    hide Same;
    EncParts(profile, options, item, enc, path);
    EnvelopeSame(profile, options, item, enc, path);
    SizeSame(enc, EnvelopeToCbor(EnvelopeFromCbor(enc).value));
    if IsTyped(enc.pairs) {
      TypedEnvelopeSound(profile, options, enc.pairs, path);
    } else {
      OpaqueEnvelopeSound(profile, options, enc.pairs, path);
    }
  }

  // ---------------------------------------------------------------------------
  // Accepted items, commitments and signatures
  // ---------------------------------------------------------------------------

  lemma UrisSound(profile: Profile, raw: Option<Value>, base: Path)
    requires Elements(raw, IsText, base) == [] && Clean(CheckUris(profile, raw, base))
    ensures ListFromCbor(TextFromCbor, raw).Some? && SoundUris(profile, ListFromCbor(TextFromCbor, raw).value)
  {
    hide HasError;
    hide Walk;
    TextsExact(raw, base);
    CleanRaise(SchemaTypeMismatch, base);
    if raw.Some? {
      var uris := raw.value.items;
      var texts := Collect(TextFromCbor, uris).value;
      forall k | 0 <= k < |uris|
        ensures profile.acceptableUri(texts[k])
      {
        WalkClean(UriCheck(profile, base), uris, 0, k);
        assert TextFromCbor(uris[k]) == Some(texts[k]);
        assert UriCheck(profile, base)(uris[k], k) == When(!profile.acceptableUri(texts[k]), InvalidUri, base + [Index(k)]);
        CleanWhen(!profile.acceptableUri(texts[k]), InvalidUri, base + [Index(k)]);
      }
    }
  }

  lemma {:induction false} DigestsSound(pairs: seq<(Value, Value)>, base: Path, k: nat)
    requires k < |pairs| && pairs[k].0.Text? && pairs[k].1.ByteString? && Clean(CheckDigests(pairs, base))
    ensures HashLength(pairs[k].0.text) == Some(|pairs[k].1.bytes|)
  {
    hide HasError;
    var first := match pairs[0]
      case (Text(alg), ByteString(digest)) =>
        (match HashLength(alg)
         case None => [Raise(UnsupportedHashAlg, base + [Key(alg)])]
         case Some(n) => When(|digest| != n, HashDigestLengthMismatch, base + [Key(alg)]))
      case _ => [];
    CleanParts(first, CheckDigests(pairs[1..], base));
    if k == 0 {
      var alg := pairs[0].0.text;
      CleanRaise(UnsupportedHashAlg, base + [Key(alg)]);
      if HashLength(alg).Some? {
        CleanWhen(|pairs[0].1.bytes| != HashLength(alg).value, HashDigestLengthMismatch, base + [Key(alg)]);
      }
    } else {
      DigestsSound(pairs[1..], base, k - 1);
    }
  }

  lemma HashesSound(pairs: seq<(Value, Value)>, base: Path)
    requires TextKeyed(pairs) && SchemaDigests(pairs, base) == [] && Clean(CheckHashes(Some(Map(pairs)), base))
    ensures HashesFromCbor(pairs).Some? && SoundHashes(HashesFromCbor(pairs).value)
  {
    hide HasError;
    hide HashesFromCbor;
    hide CheckDigests;
    hide HashLength;
    HashesExact(pairs, base);
    CleanRaise(SchemaTypeMismatch, base);
    var hashes := HashesFromCbor(pairs).value;
    forall k | 0 <= k < |hashes|
      ensures HashLength(hashes[k].0) == Some(|hashes[k].1|)
    {
      assert pairs[k] == (Text(hashes[k].0), ByteString(hashes[k].1));
      DigestsSound(pairs, base, k);
    }
  }

  lemma ItemSound(profile: Profile, options: Options, v: Value, i: nat)
    requires WellFormed(v) && GuardEntry("items", v, i) == [] && SchemaItem(v, i) == [] && Clean(CheckItem(profile, options, v, i))
    ensures ItemFromCbor(v).Some? && SoundItem(profile, options, ItemFromCbor(v).value)
  {
    hide Get;
    hide WellFormed;
    hide HasError;
    hide EnvelopeFromCbor;
    hide EnvelopeSize;
    hide EnvelopeToCbor;
    hide SoundEnvelope;
    hide SoundHashes;
    hide SoundUris;
    hide CheckItem;
    hide GuardEntry;
    hide ListFromCbor;
    hide HashesFromCbor;
    ItemCarried(profile, options, v, i);
    ItemParts(profile, options, v.pairs, i);
    HashesSound(Get(v.pairs, "hashes").value.pairs, [Key("items"), Index(i), Key("hashes")]);
    UrisSound(profile, Get(v.pairs, "uris"), [Key("items"), Index(i), Key("uris")]);
    if Has(v.pairs, "enc") {
      FieldWellFormed(v.pairs, "enc");
      EnvelopeSound(profile, options, v.pairs, Get(v.pairs, "enc").value, [Key("items"), Index(i), Key("enc")]);
    }
  }

  lemma CommitSound(profile: Profile, v: Value, i: nat)
    requires WellFormed(v) && GuardEntry("merkle", v, i) == [] && SchemaMerkle(v, i) == [] && Clean(CheckMerkle(profile, v, i))
    ensures MerkleFromCbor(v).Some? && SoundCommit(profile, MerkleFromCbor(v).value)
  {
    hide Get;
    hide WellFormed;
    hide HasError;
    hide SoundUris;
    hide CheckMerkle;
    hide GuardEntry;
    hide ListFromCbor;
    hide MerkleRootLength;
    MerkleCarried(profile, v, i);
    MerkleParts(profile, v.pairs, i);
    UrisSound(profile, Get(v.pairs, "uris"), [Key("merkle"), Index(i), Key("uris")]);
  }

  /** The validator's reading of a signature entry finds it sound exactly when it is. */
  lemma SigReading(entry: SigEntry)
    ensures SoundSig(entry) <==>
      && (entry.coseKey.Some? ==> InspectKey(entry.coseKey.value).None?)
      && SignatureStructure(entry.coseSign1).Some? && !SignatureStructure(entry.coseSign1).value.1
      && (entry.coseKey.Some? ==> !OfLength(IntKeyed(SignatureStructure(entry.coseSign1).value.0, 4), 32))
  {
    hide Decode;
    hide IntKeyed;
    hide Labelled;
    if SignatureStructure(entry.coseSign1).Some? {
      LabelsRead(SignatureStructure(entry.coseSign1).value.0);
      NothingLabelled();
    }
    if entry.coseKey.Some? {
      KeyReading(entry.coseKey.value);
    }
  }

  /** The validator's lookup by integer label finds the CBOR key of that label. */
  lemma {:induction false} LabelsRead(m: seq<(Value, Value)>)
    ensures IntKeyed(m, 1) == Labelled(m, Unsigned(1)) && IntKeyed(m, 4) == Labelled(m, Unsigned(4))
    ensures IntKeyed(m, -1) == Labelled(m, Negative(0)) && IntKeyed(m, -2) == Labelled(m, Negative(1))
    ensures IntKeyed(m, -4) == Labelled(m, Negative(3))
  {
    if m != [] {
      LabelsRead(m[1..]);
    }
  }

  lemma NothingLabelled()
    ensures Labelled([], Unsigned(4)).None?
  {
  }

  lemma KeyReading(key: Bytes)
    ensures InspectKey(key).None? <==> PublicKey(key)
    ensures InspectKey(key) == Some(SigPrivateKeyLeaked) <==>
      Decode(key).Ok? && Decode(key).value.Map? && Labelled(Decode(key).value.pairs, Negative(3)).Some?
    ensures InspectKey(key) in {None, Some(SigPrivateKeyLeaked), Some(MalformedSigCoseSign1)}
  {
    hide Decode;
    hide IntKeyed;
    hide Labelled;
    LabelsRead(if Decode(key).Ok? && Decode(key).value.Map? then Decode(key).value.pairs else []);
    NoLabels();
  }

  lemma NoLabels()
    ensures forall key :: IntKeyed([], key).None?
  {
  }

  lemma SigSound(v: Value, i: nat)
    requires v.Map? && SigFromCbor(v).Some? && SchemaSig(v, i) == [] && Clean(CheckSig(v, i))
    ensures SoundSig(SigFromCbor(v).value)
  {
    hide Get;
    hide HasError;
    hide InspectKey;
    hide SignatureStructure;
    hide IntKeyed;
    hide IntValue;
    hide SoundSig;
    SigReading(SigFromCbor(v).value);
    var base := [Key("sigs"), Index(i)];
    var key, data := AsBytes(Get(v.pairs, "cose_key")), AsBytes(Get(v.pairs, "cose_sign1"));
    CleanRaise(MalformedSigCoseSign1, base);
    if key.Some? && InspectKey(key.value).Some? {
      LeakIsError(key.value);
      CleanRaise(InspectKey(key.value).value, base + [Key("cose_key")]);
    } else if SignatureStructure(data.value).Some? {
      var (header, payload) := SignatureStructure(data.value).value;
      var alg, kid := IntKeyed(header, 1), IntKeyed(header, 4);
      var a := When(alg.None? || IntValue(alg.value) !in {Some(-8), Some(-19)}, SignatureUnsupported, base);
      var conflict := kid.Some? && kid.value.ByteString? && |kid.value.bytes| == 32 && key.Some?;
      CleanParts(a, When(conflict, SigEntryKidCoseKeyConflict, base));
      CleanWhen(conflict, SigEntryKidCoseKeyConflict, base);
    }
  }

  lemma LeakIsError(key: Bytes)
    ensures InspectKey(key).Some? ==> SeverityOf(InspectKey(key).value) == ErrorSeverity
  {
    hide Decode;
    hide IntKeyed;
  }

  /** What the passes say about the entries of a map that passes. */
  lemma PassedItem(profile: Profile, options: Options, m: seq<(Value, Value)>, k: nat)
    requires Passes(profile, options, m) && Has(m, "items") && Get(m, "items").value.Array? && k < |Get(m, "items").value.items|
    ensures var item := Get(m, "items").value.items[k];
      WellFormed(item) && GuardEntry("items", item, k) == [] && SchemaItem(item, k) == [] && Clean(CheckItem(profile, options, item, k))
  {
    hide Get;
    hide WellFormed;
    hide HasError;
    hide GuardIssues;
    hide SchemaIssues;
    hide DomainIssues;
    hide SchemaItem;
    hide GuardEntry;
    hide CheckItem;
    hide Walk;
    GuardParts(m);
    SchemaFacts(m);
    DomainParts(profile, options, m);
    var items := Get(m, "items").value.items;
    FieldWellFormed(m, "items");
    ArrayParts(items);
    WalkEmpty(GuardField("items"), items, 0, k);
    WalkEmpty(SchemaItem, items, 0, k);
    WalkClean(CheckItems(profile, options), items, 0, k);
    assert GuardField("items")(items[k], k) == GuardEntry("items", items[k], k);
    assert CheckItems(profile, options)(items[k], k) == CheckItem(profile, options, items[k], k);
  }

  lemma PassedCommit(profile: Profile, options: Options, m: seq<(Value, Value)>, k: nat)
    requires Passes(profile, options, m) && Has(m, "merkle") && Get(m, "merkle").value.Array? && k < |Get(m, "merkle").value.items|
    ensures var commit := Get(m, "merkle").value.items[k];
      WellFormed(commit) && GuardEntry("merkle", commit, k) == [] && SchemaMerkle(commit, k) == [] && Clean(CheckMerkle(profile, commit, k))
  {
    hide Get;
    hide WellFormed;
    hide HasError;
    hide GuardIssues;
    hide SchemaIssues;
    hide DomainIssues;
    hide SchemaMerkle;
    hide GuardEntry;
    hide CheckMerkle;
    hide Walk;
    GuardParts(m);
    SchemaFacts(m);
    DomainParts(profile, options, m);
    var commits := Get(m, "merkle").value.items;
    FieldWellFormed(m, "merkle");
    ArrayParts(commits);
    WalkEmpty(GuardField("merkle"), commits, 0, k);
    WalkEmpty(SchemaMerkle, commits, 0, k);
    WalkClean(CheckCommits(profile), commits, 0, k);
    assert GuardField("merkle")(commits[k], k) == GuardEntry("merkle", commits[k], k);
    assert CheckCommits(profile)(commits[k], k) == CheckMerkle(profile, commits[k], k);
  }

  lemma PassedSig(profile: Profile, options: Options, m: seq<(Value, Value)>, k: nat)
    requires Passes(profile, options, m) && Has(m, "sigs") && Get(m, "sigs").value.Array? && k < |Get(m, "sigs").value.items|
    ensures SchemaSig(Get(m, "sigs").value.items[k], k) == [] && Clean(CheckSig(Get(m, "sigs").value.items[k], k))
  {
    hide Get;
    hide WellFormed;
    hide HasError;
    hide GuardIssues;
    hide SchemaIssues;
    hide DomainIssues;
    hide SchemaSig;
    hide CheckSig;
    hide Walk;
    SchemaFacts(m);
    DomainParts(profile, options, m);
    var sigs := Get(m, "sigs").value.items;
    WalkEmpty(SchemaSig, sigs, 0, k);
    WalkClean(CheckSig, sigs, 0, k);
  }

  // ---------------------------------------------------------------------------
  // Accepted records
  // ---------------------------------------------------------------------------

  /** Clean critical names are new, and each names a supported extension that is present. */
  lemma {:induction false} CritClean(m: seq<(Value, Value)>, profile: Profile, options: Options, crit: seq<Value>, i: nat, seen: set<string>)
    requires i <= |crit| && Clean(CheckCritNames(m, profile, options, crit, i, seen))
    requires forall k :: 0 <= k < |crit| ==> crit[k].Text?
    ensures forall k :: i <= k < |crit| ==> CriticalName(m, profile, options, crit[k].text) && crit[k].text !in seen
    ensures forall k, l :: i <= k < l < |crit| ==> crit[k].text != crit[l].text
    decreases |crit| - i
  {
    hide HasError;
    hide CheckCritName;
    hide CriticalName;
    if i < |crit| {
      var name := crit[i].text;
      CleanParts(CheckCritName(m, profile, options, name, i, seen), CheckCritNames(m, profile, options, crit, i + 1, seen + {name}));
      CritNameClean(m, profile, options, name, i, seen);
      CritClean(m, profile, options, crit, i + 1, seen + {name});
    }
  }

  ghost predicate CriticalName(m: seq<(Value, Value)>, profile: Profile, options: Options, name: string) {
    name !in BASE_KEYS && profile.extensionKey(name) && Has(m, name) && name in options.supportedCritical
  }

  lemma CritNameClean(m: seq<(Value, Value)>, profile: Profile, options: Options, name: string, i: nat, seen: set<string>)
    ensures Clean(CheckCritName(m, profile, options, name, i, seen)) <==> CriticalName(m, profile, options, name) && name !in seen
  {
    hide HasError;
    hide Has;
    var path := [Key("crit"), Index(i)];
    CleanRaise(CritShapeInvalid, path);
    CleanWhen(name !in options.supportedCritical, ExtensionUnsupportedCritical, path);
  }

  lemma {:induction false} TopLevelClean(profile: Profile, keys: seq<string>, key: string)
    requires Clean(CheckTopLevel(profile, keys)) && key in keys
    ensures key in BASE_KEYS || profile.extensionKey(key)
  {
    hide HasError;
    CleanParts(When(keys[0] !in BASE_KEYS && !profile.extensionKey(keys[0]), SchemaUnknownField, [Key(keys[0])]), CheckTopLevel(profile, keys[1..]));
    CleanWhen(keys[0] !in BASE_KEYS && !profile.extensionKey(keys[0]), SchemaUnknownField, [Key(keys[0])]);
    if key != keys[0] {
      TopLevelClean(profile, keys[1..], key);
    }
  }

  lemma PresenceClean(m: seq<(Value, Value)>)
    ensures Clean(CheckPresence(m)) <==>
      (NonEmptyArray(Get(m, "items")) || NonEmptyArray(Get(m, "merkle"))) && !IsEmptyArray(Get(m, "items")) && !IsEmptyArray(Get(m, "merkle"))
  {
    hide Get;
    hide HasError;
    CleanRaise(SchemaEmptyRecord, []);
    var a := When(IsEmptyArray(Get(m, "items")), SchemaTypeMismatch, [Key("items")]);
    var b := When(IsEmptyArray(Get(m, "merkle")), SchemaTypeMismatch, [Key("merkle")]);
    CleanParts(a, b);
    CleanWhen(IsEmptyArray(Get(m, "items")), SchemaTypeMismatch, [Key("items")]);
    CleanWhen(IsEmptyArray(Get(m, "merkle")), SchemaTypeMismatch, [Key("merkle")]);
  }

  lemma ExtensionPresent(m: seq<(Value, Value)>, i: nat)
    requires TextKeyed(m) && KeysDistinct(m) && i < |ExtensionsFromCbor(m)|
    ensures ExtensionsFromCbor(m)[i].0 !in BASE_KEYS && Has(m, ExtensionsFromCbor(m)[i].0)
  {
    hide Get;
    hide ExtensionsFromCbor;
    ExtensionsListed(m);
  }

  lemma ExtensionsSound(profile: Profile, m: seq<(Value, Value)>)
    requires TextKeyed(m) && KeysDistinct(m) && Clean(CheckTopLevel(profile, TextKeys(m)))
    ensures SoundExtensions(profile, ExtensionsFromCbor(m))
  {
    hide Get;
    hide HasError;
    hide ExtensionsFromCbor;
    var e := ExtensionsFromCbor(m);
    forall i | 0 <= i < |e|
      ensures e[i].0 !in BASE_KEYS && profile.extensionKey(e[i].0)
    {
      ExtensionPresent(m, i);
      var k := Find(m, e[i].0);
      TextKeyAt(m, k);
      TopLevelClean(profile, TextKeys(m), e[i].0);
    }
  }

  lemma PresentExtends(m: seq<(Value, Value)>, record: Record, name: string)
    requires TextKeyed(m) && KeysDistinct(m) && record.extensions == ExtensionsFromCbor(m)
    requires Has(m, name) && name !in BASE_KEYS
    ensures Extends(record, name)
  {
    hide Get;
    ExtensionsListed(m);
    var k := Find(m, name);
    var e := ExtensionFields(record.extensions);
    var i :| 0 <= i < |e| && e[i].0 == name;
    assert record.extensions[i].0 == name;
  }

  lemma CritSound(profile: Profile, options: Options, m: seq<(Value, Value)>, record: Record)
    requires TextKeyed(m) && KeysDistinct(m) && record.extensions == ExtensionsFromCbor(m)
    requires Elements(Get(m, "crit"), IsText, [Key("crit")]) == [] && ListFromCbor(TextFromCbor, Get(m, "crit")) == Some(record.crit)
    requires Clean(CheckCrit(m, profile, options))
    ensures SoundCrit(profile, options, record)
  {
    hide Get;
    hide Has;
    hide HasError;
    hide Collect;
    hide CheckCritNames;
    hide ExtensionsFromCbor;
    hide Extends;
    CleanRaise(SchemaTypeMismatch, [Key("crit")]);
    TextsExact(Get(m, "crit"), [Key("crit")]);
    if record.crit.Some? {
      var crit, names := Get(m, "crit").value.items, record.crit.value;
      assert crit == Each(TextToCbor, names);
      assert forall k :: 0 <= k < |crit| ==> crit[k] == Text(names[k]);
      CritClean(m, profile, options, crit, 0, {});
      forall k | 0 <= k < |names|
        ensures CriticalName(m, profile, options, names[k]) && Extends(record, names[k])
      {
        assert crit[k].text == names[k];
        PresentExtends(m, record, names[k]);
      }
      forall k, l | 0 <= k < l < |names|
        ensures names[k] != names[l]
      {
        assert crit[k].text != crit[l].text;
      }
    }
  }

  lemma PassedItems(profile: Profile, options: Options, m: seq<(Value, Value)>, read: Option<seq<ItemEntry>>)
    requires Passes(profile, options, m) && ListFromCbor(ItemFromCbor, Get(m, "items")) == Some(read) && !IsEmptyArray(Get(m, "items"))
    ensures SoundItems(profile, options, read)
  {
    hide Get;
    hide Passes;
    hide ItemFromCbor;
    hide SoundItem;
    hide GuardEntry;
    hide SchemaItem;
    hide CheckItem;
    if read.Some? {
      forall k | 0 <= k < |read.value|
        ensures SoundItem(profile, options, read.value[k])
      {
        var v := Get(m, "items").value.items[k];
        PassedItem(profile, options, m, k);
        ItemSound(profile, options, v, k);
      }
    }
  }

  lemma PassedCommits(profile: Profile, options: Options, m: seq<(Value, Value)>, read: Option<seq<MerkleCommit>>)
    requires Passes(profile, options, m) && ListFromCbor(MerkleFromCbor, Get(m, "merkle")) == Some(read) && !IsEmptyArray(Get(m, "merkle"))
    ensures SoundCommits(profile, read)
  {
    hide Get;
    hide Passes;
    hide MerkleFromCbor;
    hide SoundCommit;
    hide GuardEntry;
    hide SchemaMerkle;
    hide CheckMerkle;
    if read.Some? {
      forall k | 0 <= k < |read.value|
        ensures SoundCommit(profile, read.value[k])
      {
        var v := Get(m, "merkle").value.items[k];
        PassedCommit(profile, options, m, k);
        CommitSound(profile, v, k);
      }
    }
  }

  lemma PassedSigs(profile: Profile, options: Options, m: seq<(Value, Value)>, read: Option<seq<SigEntry>>)
    requires Passes(profile, options, m) && ListFromCbor(SigFromCbor, Get(m, "sigs")) == Some(read) && !IsEmptyArray(Get(m, "sigs"))
    ensures SoundSigs(read)
  {
    hide Get;
    hide Passes;
    hide SigFromCbor;
    hide SoundSig;
    hide GuardEntry;
    hide SchemaSig;
    hide CheckSig;
    if read.Some? {
      forall k | 0 <= k < |read.value|
        ensures SoundSig(read.value[k])
      {
        var v := Get(m, "sigs").value.items[k];
        PassedSig(profile, options, m, k);
        SigReads(v, k, read.value[k]);
      }
    }
  }

  /** The record read from a map that passes is sound. */
  lemma PassedSound(profile: Profile, options: Options, m: seq<(Value, Value)>, record: Record)
    requires Passes(profile, options, m) && RecordFromCbor(Map(m)) == Some(record)
    ensures SoundRecord(profile, options, record)
  {
    hide Get;
    hide WellFormed;
    hide HasError;
    hide GuardIssues;
    hide SchemaIssues;
    hide DomainIssues;
    hide ExtensionsFromCbor;
    hide Collect;
    hide SoundItems;
    hide SoundCommits;
    hide SoundSigs;
    hide SoundCrit;
    hide SoundExtensions;
    hide CheckPresence;
    GuardParts(m);
    MapParts(m);
    SchemaFacts(m);
    DomainParts(profile, options, m);
    PresenceClean(m);
    ExtensionsSound(profile, m);
    CritSound(profile, options, m, record);
    PassedItems(profile, options, m, record.items);
    PassedCommits(profile, options, m, record.merkle);
    PassedSigs(profile, options, m, record.sigs);
  }

  lemma SigReads(v: Value, i: nat, entry: SigEntry)
    requires SchemaSig(v, i) == [] && Clean(CheckSig(v, i)) && SigFromCbor(v) == Some(entry)
    ensures SoundSig(entry)
  {
    hide Get;
    hide HasError;
    hide CheckSig;
    hide SoundSig;
    SigSound(v, i);
  }

  /** Soundness: whatever is accepted is a sound record. */
  lemma AcceptedSound(profile: Profile, options: Options, bytes: Bytes)
    requires Validate(profile, options, bytes).Accepted?
    ensures SoundRecord(profile, options, Validate(profile, options, bytes).record)
  {
    hide Validate;
    hide Passes;
    hide Decode;
    hide SoundRecord;
    hide RecordFromCbor;
    AcceptedPasses(profile, options, bytes);
    PassedSound(profile, options, Decode(bytes).value.pairs, Validate(profile, options, bytes).record);
  }

  // ---------------------------------------------------------------------------
  // The strict role accepts less
  // ---------------------------------------------------------------------------

  lemma {:induction false} WalkAgrees(f: (Value, nat) -> seq<Issue>, g: (Value, nat) -> seq<Issue>, entries: seq<Value>, i: nat)
    requires i <= |entries| && forall k :: i <= k < |entries| ==> f(entries[k], k) == g(entries[k], k)
    ensures Walk(f, entries, i) == Walk(g, entries, i)
    decreases |entries| - i
  {
    if i < |entries| {
      WalkAgrees(f, g, entries, i + 1);
    }
  }

  function InPublic(options: Options): Options {
    options.(role := Public)
  }

  lemma EnvelopeAgrees(profile: Profile, options: Options, enc: seq<(Value, Value)>, path: Path)
    requires options.role == RecipientOrStrict && Clean(CheckEnvelope(profile, options, enc, path))
    ensures CheckEnvelope(profile, InPublic(options), enc, path) == CheckEnvelope(profile, options, enc, path)
  {
    hide Get;
    hide HasError;
    hide InteriorKeys;
    hide SchemaEnvelope;
    hide CheckScheme1;
    hide UnsupportedIdentifiers;
    hide Clean;
    Scheme1Agrees(options, enc, path);
    if Get(enc, "scheme").Some? && Get(enc, "scheme").value.Unsigned? {
      var unsupported := UnsupportedIdentifiers(Get(enc, "scheme").value.n, Get(enc, "kem"), Get(enc, "aead"), path);
      StrictRaises(path, unsupported);
    }
  }

  lemma Scheme1Agrees(options: Options, enc: seq<(Value, Value)>, path: Path)
    ensures CheckScheme1(InPublic(options), enc, path) == CheckScheme1(options, enc, path)
  {
    hide Get;
    hide CheckNonce;
    hide CheckKeyPath;
    hide CheckSlots;
    hide CheckParam;
    hide UnknownKeys;
  }

  lemma EncAgrees(profile: Profile, options: Options, item: seq<(Value, Value)>, enc: Value, path: Path)
    requires options.role == RecipientOrStrict && Clean(CheckEnc(profile, options, item, enc, path))
    ensures CheckEnc(profile, InPublic(options), item, enc, path) == CheckEnc(profile, options, item, enc, path)
  {
    hide HasError;
    hide HasContentHash;
    hide CheckEnvelope;
    hide EnvelopeSize;
    if enc.Map? {
      var a := When(!HasContentHash(Get(item, "hashes")), EncRequiresContentHash, path);
      var b := When(EnvelopeSize(enc) > options.maxEnvelopeBytes, EncEnvelopeTooLarge, path);
      CleanParts(a, b + CheckEnvelope(profile, options, enc.pairs, path));
      CleanParts(b, CheckEnvelope(profile, options, enc.pairs, path));
      EnvelopeAgrees(profile, options, enc.pairs, path);
    }
  }

  lemma ItemAgrees(profile: Profile, options: Options, item: Value, i: nat)
    requires options.role == RecipientOrStrict && Clean(CheckItem(profile, options, item, i))
    ensures CheckItem(profile, InPublic(options), item, i) == CheckItem(profile, options, item, i)
  {
    hide Get;
    hide HasError;
    hide CheckEnc;
    hide CheckHashes;
    hide CheckUris;
    if item.Map? && Has(item.pairs, "enc") {
      var base := [Key("items"), Index(i)];
      var a := CheckHashes(Get(item.pairs, "hashes"), base + [Key("hashes")]);
      var b := CheckUris(profile, Get(item.pairs, "uris"), base + [Key("uris")]);
      CleanParts(a + b, CheckEnc(profile, options, item.pairs, Get(item.pairs, "enc").value, base + [Key("enc")]));
      EncAgrees(profile, options, item.pairs, Get(item.pairs, "enc").value, base + [Key("enc")]);
    }
  }

  lemma CritNameAgrees(m: seq<(Value, Value)>, profile: Profile, options: Options, name: string, i: nat, seen: set<string>)
    ensures CheckCritName(m, profile, InPublic(options), name, i, seen) == CheckCritName(m, profile, options, name, i, seen)
  {
    hide Has;
    hide Get;
  }

  lemma {:induction false} CritAgrees(m: seq<(Value, Value)>, profile: Profile, options: Options, crit: seq<Value>, i: nat, seen: set<string>)
    requires i <= |crit|
    ensures CheckCritNames(m, profile, InPublic(options), crit, i, seen) == CheckCritNames(m, profile, options, crit, i, seen)
    decreases |crit| - i
  {
    hide CheckCritName;
    if i < |crit| {
      if crit[i].Text? {
        CritNameAgrees(m, profile, options, crit[i].text, i, seen);
      }
      CritAgrees(m, profile, options, crit, i + 1, if crit[i].Text? then seen + {crit[i].text} else seen);
    }
  }

  lemma DomainAgrees(profile: Profile, options: Options, m: seq<(Value, Value)>)
    requires options.role == RecipientOrStrict && Clean(DomainIssues(profile, options, m))
    ensures DomainIssues(profile, InPublic(options), m) == DomainIssues(profile, options, m)
  {
    hide Get;
    hide HasError;
    hide CheckPresence;
    hide CheckTopLevel;
    hide CheckCritNames;
    hide CheckItem;
    hide Walk;
    DomainParts(profile, options, m);
    var crit, items := Get(m, "crit"), Get(m, "items");
    if crit.Some? && crit.value.Array? {
      CritAgrees(m, profile, options, crit.value.items, 0, {});
    }
    if items.Some? && items.value.Array? {
      var entries := items.value.items;
      forall k | 0 <= k < |entries|
        ensures CheckItems(profile, InPublic(options))(entries[k], k) == CheckItems(profile, options)(entries[k], k)
      {
        WalkClean(CheckItems(profile, options), entries, 0, k);
        assert CheckItems(profile, options)(entries[k], k) == CheckItem(profile, options, entries[k], k);
        ItemAgrees(profile, options, entries[k], k);
      }
      WalkAgrees(CheckItems(profile, InPublic(options)), CheckItems(profile, options), entries, 0);
    }
  }

  /** Whatever the strict role accepts, the public role accepts with the same verdict. */
  lemma StrictImpliesPublic(profile: Profile, options: Options, bytes: Bytes)
    requires options.role == RecipientOrStrict && Validate(profile, options, bytes).Accepted?
    ensures Validate(profile, InPublic(options), bytes) == Validate(profile, options, bytes)
  {
    hide Decode;
    hide GuardIssues;
    hide SchemaIssues;
    hide DomainIssues;
    hide RecordFromCbor;
    AcceptedPasses(profile, options, bytes);
    DomainAgrees(profile, options, Decode(bytes).value.pairs);
  }
}
