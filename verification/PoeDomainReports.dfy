/**
  The domain pass reports exactly the rules of a well-shaped record, so that the validator's answer, on
  every input, lists the issues the rules name and nothing else.
*/
module PoeDomainReports {
  import opened Common
  import opened Cbor
  import opened CborProofs
  import opened PoeRecord
  import opened PoeIssues
  import opened PoeValidator
  import opened PoeShape
  import opened PoeReencode
  import opened PoeSpec
  import opened PoeSound
  import opened PoeRules
  import opened PoeReports

  // ---------------------------------------------------------------------------
  // The inside of an envelope: keys and shape
  // ---------------------------------------------------------------------------

  lemma InnerKeysReport(enc: seq<(Value, Value)>, path: Path, x: Issue)
    ensures x in WalkArray(SlotKeyGuard(path), Get(enc, "slots")) <==>
      Marks(x, SchemaTypeMismatch, path, Rest(x.path, path))
      && |Rest(x.path, path)| == 2 && InList(enc, "slots", Rest(x.path, path)) && NonText(EntryAt(enc, "slots", Rest(x.path, path)))
  {
    hide Get;
    hide Under;
    hide Rest;
    hide WalkArray;
    hide NonText;
    hide NonTextKeyMap;
    hide Raise;
    var f := SlotKeyGuard(path);
    if Lists(enc, "slots") {
      var slots := Get(enc, "slots").value.items;
      forall j | 0 <= j < |slots|
        ensures x in f(slots[j], j) <==> NonText(slots[j]) && Marks(x, SchemaTypeMismatch, path + [Key("slots")] + [Index(j)], [])
      {
        assert path + [Key("slots"), Index(j)] == path + [Key("slots")] + [Index(j)];
        NonTextMap(slots[j]);
        MarkedHere(x, SchemaTypeMismatch, path + [Key("slots")] + [Index(j)]);
      }
    }
    InEntries(f, enc, "slots", path, x);
    if InList(enc, "slots", Rest(x.path, path)) {
      IntoEntry(enc, "slots", x.path, path, Rest(x.path, path)[1].index);
    }
  }

  lemma InteriorReports(enc: seq<(Value, Value)>, path: Path, x: Issue)
    ensures x in InteriorKeys(enc, path) <==>
      Marks(x, SchemaTypeMismatch, path, Rest(x.path, path)) && NonTextInside(enc, Rest(x.path, path))
  {
    hide Get;
    hide Under;
    hide Rest;
    hide WalkArray;
    hide NonText;
    hide NonTextKeyMap;
    hide Raise;
    InnerKeysReport(enc, path, x);
    if Has(enc, "passphrase") {
      var pp := Get(enc, "passphrase").value;
      NonTextMap(pp);
      Marked(x, SchemaTypeMismatch, path, [Key("passphrase")]);
      Marked(x, SchemaTypeMismatch, path, [Key("passphrase"), Key("params")]);
      if pp.Map? {
        NonTextField(pp.pairs, "params");
      }
    }
  }

  lemma InteriorPasses(enc: seq<(Value, Value)>, path: Path)
    ensures InteriorKeys(enc, path) == [] <==> !exists p :: NonTextInside(enc, p)
  {
    hide InteriorKeys;
    hide NonTextInside;
    if InteriorKeys(enc, path) != [] {
      InteriorReports(enc, path, InteriorKeys(enc, path)[0]);
    }
    if p :| NonTextInside(enc, p) {
      InteriorReports(enc, path, Raise(SchemaTypeMismatch, path + p));
      Marked(Raise(SchemaTypeMismatch, path + p), SchemaTypeMismatch, path, p);
    }
  }

  lemma SlotShapeReports(slot: Value, path: Path, base: Path, j: nat, x: Issue)
    requires base == path + [Key("slots")]
    ensures x in SchemaSlot(base)(slot, j) <==>
      Marks(x, EncSlotInvalidShape, base + [Index(j)], Rest(x.path, base + [Index(j)])) && SlotMisshapen(slot, Rest(x.path, base + [Index(j)]))
  {
    hide Get;
    hide Under;
    hide Rest;
    hide Raise;
    hide OptionalField;
    hide Is;
    hide Checks;
    var here := base + [Index(j)];
    InRaise(x, EncSlotInvalidShape, here);
    if slot.Map? {
      KindsChecked();
      InOptional(slot.pairs, "epk", IsBytes, BytesKind, EncSlotInvalidShape, here, x);
      InOptional(slot.pairs, "kem_ct", IsBytes, BytesKind, EncSlotInvalidShape, here, x);
      InOptional(slot.pairs, "wrap", IsBytes, BytesKind, EncSlotInvalidShape, here, x);
    }
  }

  lemma SlotShapesReport(enc: seq<(Value, Value)>, path: Path, x: Issue)
    ensures x in WalkArray(SchemaSlot(path + [Key("slots")]), Get(enc, "slots")) <==>
      Marks(x, EncSlotInvalidShape, path, Rest(x.path, path))
      && InList(enc, "slots", Rest(x.path, path)) && SlotMisshapen(EntryAt(enc, "slots", Rest(x.path, path)), Rest(x.path, path)[2..])
  {
    hide Get;
    hide Under;
    hide Rest;
    hide WalkArray;
    hide SlotMisshapen;
    hide SchemaSlot;
    var base := path + [Key("slots")];
    var f := SchemaSlot(base);
    if Lists(enc, "slots") {
      var slots := Get(enc, "slots").value.items;
      forall j | 0 <= j < |slots|
        ensures x in f(slots[j], j) ==> Under(x.path, path + [Key("slots")] + [Index(j)])
      {
        SlotShapeReports(slots[j], path, base, j, x);
      }
    }
    InEntries(f, enc, "slots", path, x);
    if InList(enc, "slots", Rest(x.path, path)) {
      var j := Rest(x.path, path)[1].index;
      IntoEntry(enc, "slots", x.path, path, j);
      SlotShapeReports(EntryAt(enc, "slots", Rest(x.path, path)), path, base, j, x);
    }
  }

  lemma MacReports(enc: seq<(Value, Value)>, path: Path, x: Issue)
    ensures x in SchemaSlotsMac(Get(enc, "slots_mac"), path + [Key("slots_mac")]) <==>
      || (Marks(x, SchemaTypeMismatch, path, [Key("slots_mac")]) && Wrong(enc, "slots_mac", BytesKind))
      || (Marks(x, EncSlotsMacInvalidLength, path, [Key("slots_mac")]) && Has(enc, "slots_mac")
          && Get(enc, "slots_mac").value.ByteString? && |Get(enc, "slots_mac").value.bytes| != 32)
  {
    hide Get;
    hide Marks;
    Marked(x, SchemaTypeMismatch, path, [Key("slots_mac")]);
    Marked(x, EncSlotsMacInvalidLength, path, [Key("slots_mac")]);
  }

  lemma SaltReports(pp: seq<(Value, Value)>, base: Path, x: Issue)
    ensures x in SchemaSalt(Get(pp, "salt"), base + [Key("salt")]) <==> SaltMark(pp, base, x)
  {
    hide Get;
    hide Marks;
    Marked(x, SchemaTypeMismatch, base, [Key("salt")]);
    Marked(x, EncPassphraseSaltTooShort, base, [Key("salt")]);
    Marked(x, EncPassphraseSaltTooLong, base, [Key("salt")]);
  }

  lemma BlockShapeReports(pp: Value, base: Path, x: Issue)
    ensures x in SchemaPassphrase(Some(pp), base) <==>
      Under(x.path, base) && x.severity == ErrorSeverity && BlockMisshapen(pp, x.code, Rest(x.path, base))
  {
    hide Under;
    hide Rest;
    hide Raise;
    hide BlockMisshapen;
    InRaise(x, SchemaTypeMismatch, base);
    if pp.Map? {
      BlockMarks(pp.pairs, base, x);
      BlockRule(pp.pairs, base, x);
    } else {
      BlockRuleShape(pp, x.code, Rest(x.path, base));
    }
  }

  lemma BlockRuleShape(pp: Value, code: Code, rel: Path)
    requires !pp.Map?
    ensures BlockMisshapen(pp, code, rel) <==> code == SchemaTypeMismatch && rel == []
  {
  }

  /** What the shape of a passphrase block can be marked with. */
  predicate BlockMark(pp: seq<(Value, Value)>, base: Path, x: Issue) {
    || (Marks(x, SchemaMissingRequired, base, [Key("alg")]) && !Has(pp, "alg"))
    || (Marks(x, SchemaTypeMismatch, base, [Key("alg")]) && Wrong(pp, "alg", TextKind))
    || (Marks(x, SchemaMissingRequired, base, [Key("params")]) && !Has(pp, "params"))
    || (Marks(x, SchemaTypeMismatch, base, [Key("params")]) && Wrong(pp, "params", MapKind))
    || SaltMark(pp, base, x)
    || (Marks(x, SchemaUnknownField, base, Rest(x.path, base)) && AtKey(pp, Rest(x.path, base))
        && Rest(x.path, base)[0].key !in ["alg", "salt", "params"])
  }

  predicate SaltMark(pp: seq<(Value, Value)>, base: Path, x: Issue) {
    || (Marks(x, SchemaTypeMismatch, base, [Key("salt")]) && (!Has(pp, "salt") || Wrong(pp, "salt", BytesKind)))
    || (Marks(x, EncPassphraseSaltTooShort, base, [Key("salt")]) && Has(pp, "salt")
        && Get(pp, "salt").value.ByteString? && |Get(pp, "salt").value.bytes| < 16)
    || (Marks(x, EncPassphraseSaltTooLong, base, [Key("salt")]) && Has(pp, "salt")
        && Get(pp, "salt").value.ByteString? && |Get(pp, "salt").value.bytes| > 64)
  }

  lemma BlockMarks(pp: seq<(Value, Value)>, base: Path, x: Issue)
    ensures x in SchemaPassphrase(Some(Map(pp)), base) <==> BlockMark(pp, base, x)
  {
    hide Get;
    hide Has;
    hide Under;
    hide Rest;
    hide Marks;
    hide Wrong;
    hide AtKey;
    hide SaltMark;
    hide RequiredField;
    hide SchemaSalt;
    hide UnknownKeys;
    hide Checks;
    KindsChecked();
    InRequired(pp, "alg", IsText, TextKind, SchemaMissingRequired, SchemaTypeMismatch, base, x);
    SaltReports(pp, base, x);
    InRequired(pp, "params", IsMap, MapKind, SchemaMissingRequired, SchemaTypeMismatch, base, x);
    InClosed(pp, ["alg", "salt", "params"], SchemaUnknownField, base, x);
  }

  lemma BlockRule(pp: seq<(Value, Value)>, base: Path, x: Issue)
    ensures BlockMark(pp, base, x) <==>
      Under(x.path, base) && x.severity == ErrorSeverity && BlockMisshapen(Map(pp), x.code, Rest(x.path, base))
  {
    hide Get;
    hide Has;
    hide Under;
    hide Rest;
    hide Wrong;
    hide AtKey;
  }

  lemma BlockReports(enc: seq<(Value, Value)>, path: Path, x: Issue)
    ensures x in SchemaPassphrase(Get(enc, "passphrase"), path + [Key("passphrase")]) <==>
      Under(x.path, path) && x.severity == ErrorSeverity && InField(enc, "passphrase", Rest(x.path, path))
      && BlockMisshapen(Get(enc, "passphrase").value, x.code, Rest(x.path, path)[1..])
  {
    hide Get;
    hide Under;
    hide Rest;
    hide BlockMisshapen;
    Steps(x.path, path, Key("passphrase"));
    if Has(enc, "passphrase") {
      BlockShapeReports(Get(enc, "passphrase").value, path + [Key("passphrase")], x);
    }
  }

  /** What the shape of an envelope can be marked with. */
  predicate EnvelopeMark(enc: seq<(Value, Value)>, path: Path, x: Issue) {
    || (Marks(x, SchemaMissingRequired, path, [Key("aead")]) && !Has(enc, "aead"))
    || (Marks(x, SchemaTypeMismatch, path, [Key("aead")]) && Wrong(enc, "aead", TextKind))
    || (Marks(x, SchemaTypeMismatch, path, [Key("kem")]) && Wrong(enc, "kem", TextKind))
    || (Marks(x, SchemaMissingRequired, path, [Key("nonce")]) && !Has(enc, "nonce"))
    || (Marks(x, SchemaTypeMismatch, path, [Key("nonce")]) && Wrong(enc, "nonce", BytesKind))
    || (Marks(x, SchemaTypeMismatch, path, [Key("slots")]) && Wrong(enc, "slots", ArrayKind))
    || (Marks(x, EncSlotInvalidShape, path, Rest(x.path, path)) && InList(enc, "slots", Rest(x.path, path))
        && SlotMisshapen(EntryAt(enc, "slots", Rest(x.path, path)), Rest(x.path, path)[2..]))
    || (Marks(x, SchemaTypeMismatch, path, [Key("slots_mac")]) && Wrong(enc, "slots_mac", BytesKind))
    || (Marks(x, EncSlotsMacInvalidLength, path, [Key("slots_mac")]) && Has(enc, "slots_mac")
        && Get(enc, "slots_mac").value.ByteString? && |Get(enc, "slots_mac").value.bytes| != 32)
    || (Under(x.path, path) && x.severity == ErrorSeverity && InField(enc, "passphrase", Rest(x.path, path))
        && BlockMisshapen(Get(enc, "passphrase").value, x.code, Rest(x.path, path)[1..]))
    || (Marks(x, SchemaUnknownField, path, Rest(x.path, path)) && AtKey(enc, Rest(x.path, path))
        && Rest(x.path, path)[0].key !in ["scheme", "aead", "kem", "nonce", "slots", "slots_mac", "passphrase"])
  }

  lemma EnvelopeShapeReports(enc: seq<(Value, Value)>, path: Path, x: Issue)
    ensures x in SchemaEnvelope(enc, path) <==>
      Under(x.path, path) && x.severity == ErrorSeverity && EnvelopeMisshapen(enc, x.code, Rest(x.path, path))
  {
    hide SchemaEnvelope;
    hide EnvelopeMark;
    hide EnvelopeMisshapen;
    hide Under;
    hide Rest;
    EnvelopeMarks(enc, path, x);
    EnvelopeRule(enc, path, x);
  }

  lemma EnvelopeRule(enc: seq<(Value, Value)>, path: Path, x: Issue)
    ensures EnvelopeMark(enc, path, x) <==>
      Under(x.path, path) && x.severity == ErrorSeverity && EnvelopeMisshapen(enc, x.code, Rest(x.path, path))
  {
    hide Get;
    hide Has;
    hide Under;
    hide Rest;
    hide Wrong;
    hide AtKey;
    hide InList;
    hide BlockMisshapen;
    hide SlotMisshapen;
  }

  lemma EnvelopeMarks(enc: seq<(Value, Value)>, path: Path, x: Issue)
    ensures x in SchemaEnvelope(enc, path) <==> EnvelopeMark(enc, path, x)
  {
    hide Get;
    hide Has;
    hide Under;
    hide Rest;
    hide Marks;
    hide Wrong;
    hide AtKey;
    hide InList;
    hide RequiredField;
    hide OptionalField;
    hide WalkArray;
    hide SchemaSlotsMac;
    hide SchemaPassphrase;
    hide UnknownKeys;
    hide Checks;
    hide BlockMisshapen;
    hide SlotMisshapen;
    KindsChecked();
    InRequired(enc, "aead", IsText, TextKind, SchemaMissingRequired, SchemaTypeMismatch, path, x);
    InOptional(enc, "kem", IsText, TextKind, SchemaTypeMismatch, path, x);
    InRequired(enc, "nonce", IsBytes, BytesKind, SchemaMissingRequired, SchemaTypeMismatch, path, x);
    InOptional(enc, "slots", IsArray, ArrayKind, SchemaTypeMismatch, path, x);
    SlotShapesReport(enc, path, x);
    MacReports(enc, path, x);
    BlockReports(enc, path, x);
    InClosed(enc, ENC_KEYS, SchemaUnknownField, path, x);
  }

  lemma EnvelopeShapePasses(enc: seq<(Value, Value)>, path: Path)
    ensures SchemaEnvelope(enc, path) == [] <==> !exists c, p :: EnvelopeMisshapen(enc, c, p)
  {
    hide SchemaEnvelope;
    hide EnvelopeMisshapen;
    if SchemaEnvelope(enc, path) != [] {
      EnvelopeShapeReports(enc, path, SchemaEnvelope(enc, path)[0]);
    }
    if c, p :| EnvelopeMisshapen(enc, c, p) {
      EnvelopeShapeReports(enc, path, Issue(path + p, c, ErrorSeverity));
      Ends(path + p, path, p);
    }
  }

  // ---------------------------------------------------------------------------
  // Slots
  // ---------------------------------------------------------------------------

  /** What one slot of a supported KEM can be marked with, repetitions aside. */
  predicate SlotMark(slots: seq<Value>, k: nat, kem: string, path: Path, x: Issue)
    requires k < |slots| && slots[k].Map?
  {
    var m, field, rel := slots[k].pairs, OwnField(kem), Rest(x.path, path);
    var own, wrap := SlotBytes(slots, k, field), SlotBytes(slots, k, "wrap");
    || (Marks(x, EncSlotInvalidShape, path, rel) && AtKey(m, rel) && rel[0].key != field && rel[0].key != "wrap")
    || (Marks(x, EncSlotInvalidShape, path, [Key(field)]) && own.None?)
    || (Marks(x, if kem == "x25519" then KemEpkLengthMismatch else KemCtLengthMismatch, path, [Key(field)])
        && own.Some? && |own.value| != if kem == "x25519" then 32 else 1120)
    || (Marks(x, EncSlotInvalidShape, path, [Key("wrap")]) && wrap.None?)
    || (Marks(x, WrapLengthMismatch, path, [Key("wrap")]) && wrap.Some? && |wrap.value| != 48)
  }

  /** A key of the other KEM, or of none. */
  lemma ForeignKeys(m: seq<(Value, Value)>, shape: SlotShape, path: Path, x: Issue)
    requires shape.field == "epk" || shape.field == "kem_ct"
    ensures var foreign, rel := if shape.field == "epk" then "kem_ct" else "epk", Rest(x.path, path);
      (x in When(Has(m, foreign), EncSlotInvalidShape, path + [Key(foreign)])
       || x in UnknownKeys(TextKeys(m), ["epk", "kem_ct", "wrap"], EncSlotInvalidShape, path))
      <==> Marks(x, EncSlotInvalidShape, path, rel) && AtKey(m, rel) && rel[0].key != shape.field && rel[0].key != "wrap"
  {
    hide Get;
    hide Under;
    hide Rest;
    hide UnknownKeys;
    hide TextKeys;
    hide When;
    var foreign := if shape.field == "epk" then "kem_ct" else "epk";
    InWhen(x, Has(m, foreign), EncSlotInvalidShape, path, [Key(foreign)]);
    InClosed(m, ["epk", "kem_ct", "wrap"], EncSlotInvalidShape, path, x);
  }

  lemma SlotMarks(slots: seq<Value>, k: nat, kem: string, path: Path, x: Issue)
    requires k < |slots| && slots[k].Map? && ShapeFor(kem).Some?
    ensures x in CheckSlotShape(slots[k].pairs, ShapeFor(kem).value, path) <==> SlotMark(slots, k, kem, path, x)
  {
    hide Get;
    hide Has;
    hide AtKey;
    hide Under;
    hide Rest;
    hide Marks;
    hide UnknownKeys;
    hide TextKeys;
    var m, shape, own := slots[k].pairs, ShapeFor(kem).value, OwnField(kem);
    ForeignKeys(m, shape, path, x);
    Marked(x, EncSlotInvalidShape, path, [Key(own)]);
    Marked(x, FieldLengthCode(shape), path, [Key(own)]);
    Marked(x, EncSlotInvalidShape, path, [Key("wrap")]);
    Marked(x, WrapLengthMismatch, path, [Key("wrap")]);
  }

  /** One slot against its KEM. */
  lemma SlotReports(slots: seq<Value>, k: nat, kem: string, path: Path, x: Issue)
    requires k < |slots| && slots[k].Map? && ShapeFor(kem).Some?
    ensures x in CheckSlotShape(slots[k].pairs, ShapeFor(kem).value, path) <==>
      Marks(x, x.code, path, Rest(x.path, path)) && x.code != EncSlotsDuplicateKemMaterial && SlotFault(slots, k, kem, x.code, Rest(x.path, path))
  {
    hide Under;
    hide Rest;
    hide AtKey;
    hide SlotBytes;
    hide CheckSlotShape;
    SlotMarks(slots, k, kem, path, x);
  }

  /** The material seen before slot `j`. */
  ghost predicate SeenBefore(slots: seq<Value>, field: string, j: nat, seen: set<Bytes>)
    requires j <= |slots|
  {
    forall b :: b in seen <==> exists i :: 0 <= i < j && SlotBytes(slots, i, field) == Some(b)
  }

  lemma SeenNext(slots: seq<Value>, field: string, j: nat, seen: set<Bytes>)
    requires j < |slots| && SeenBefore(slots, field, j, seen)
    ensures SeenBefore(slots, field, j + 1, if SlotBytes(slots, j, field).Some? then seen + {SlotBytes(slots, j, field).value} else seen)
  {
    hide SlotBytes;
  }

  lemma {:induction false} InSlots(slots: seq<Value>, kem: string, j: nat, seen: set<Bytes>, path: Path, x: Issue)
    requires j <= |slots| && ShapeFor(kem).Some? && SeenBefore(slots, OwnField(kem), j, seen)
    ensures x in CheckSlots(slots, ShapeFor(kem).value, j, seen, path) <==>
      exists k :: j <= k < |slots| && Marks(x, x.code, path + [Index(k)], Rest(x.path, path + [Index(k)]))
        && SlotFault(slots, k, kem, x.code, Rest(x.path, path + [Index(k)]))
    decreases |slots| - j
  {
    hide Get;
    hide Under;
    hide Rest;
    hide CheckSlotShape;
    hide SeenBefore;
    if j < |slots| {
      var field := OwnField(kem);
      var material := SlotBytes(slots, j, field);
      var next := if material.Some? then seen + {material.value} else seen;
      SeenNext(slots, field, j, seen);
      InSlots(slots, kem, j + 1, next, path, x);
      if slots[j].Map? {
        SlotAtReports(slots, kem, j, seen, path, x);
      }
    }
  }

  lemma SlotAtReports(slots: seq<Value>, kem: string, j: nat, seen: set<Bytes>, path: Path, x: Issue)
    requires j < |slots| && slots[j].Map? && ShapeFor(kem).Some? && SeenBefore(slots, OwnField(kem), j, seen)
    ensures var material := SlotBytes(slots, j, OwnField(kem));
      (x in CheckSlotShape(slots[j].pairs, ShapeFor(kem).value, path + [Index(j)])
       || x in When(material.Some? && material.value in seen, EncSlotsDuplicateKemMaterial, path + [Index(j)] + [Key(OwnField(kem))]))
      <==> Marks(x, x.code, path + [Index(j)], Rest(x.path, path + [Index(j)])) && SlotFault(slots, j, kem, x.code, Rest(x.path, path + [Index(j)]))
  {
    hide Get;
    hide Under;
    hide Rest;
    hide CheckSlotShape;
    hide When;
    hide SlotBytes;
    var material := SlotBytes(slots, j, OwnField(kem));
    SlotReports(slots, j, kem, path + [Index(j)], x);
    InWhen(x, material.Some? && material.value in seen, EncSlotsDuplicateKemMaterial, path + [Index(j)], [Key(OwnField(kem))]);
  }

  lemma SlotFaultIsError(slots: seq<Value>, j: nat, kem: string, code: Code, rel: Path)
    requires j < |slots| && SlotFault(slots, j, kem, code, rel)
    ensures SeverityOf(code) == ErrorSeverity
  {
    hide SlotBytes;
    hide AtKey;
  }

  lemma SlotsReport(slots: seq<Value>, enc: seq<(Value, Value)>, kem: string, path: Path, x: Issue)
    requires Get(enc, "slots") == Some(Array(slots)) && ShapeFor(kem).Some?
    ensures x in CheckSlots(slots, ShapeFor(kem).value, 0, {}, path + [Key("slots")]) <==>
      Under(x.path, path) && x.severity == ErrorSeverity && InList(enc, "slots", Rest(x.path, path))
      && SlotFault(slots, Rest(x.path, path)[1].index, kem, x.code, Rest(x.path, path)[2..])
  {
    hide Get;
    hide Under;
    hide Rest;
    hide ShapeFor;
    hide SlotFault;
    hide CheckSlots;
    hide OwnField;
    var base, rel := path + [Key("slots")], Rest(x.path, path);
    InSlots(slots, kem, 0, {}, base, x);
    forall k | 0 <= k < |slots|
      ensures Under(x.path, base + [Index(k)]) <==> Under(x.path, path) && InList(enc, "slots", rel) && rel[1].index == k
      ensures Under(x.path, base + [Index(k)]) ==> Rest(x.path, base + [Index(k)]) == rel[2..]
      ensures SlotFault(slots, k, kem, x.code, Rest(x.path, base + [Index(k)])) ==> SeverityOf(x.code) == ErrorSeverity
    {
      IntoEntry(enc, "slots", x.path, path, k);
      if SlotFault(slots, k, kem, x.code, Rest(x.path, base + [Index(k)])) {
        SlotFaultIsError(slots, k, kem, x.code, Rest(x.path, base + [Index(k)]));
      }
    }
  }

  lemma AllSlotsReport(options: Options, enc: seq<(Value, Value)>, path: Path, x: Issue)
    ensures x in CheckAllSlots(options, enc, path + [Key("slots")]) <==>
      Under(x.path, path) && x.severity == ErrorSeverity && SlotsFault(options, enc, x.code, Rest(x.path, path))
  {
    hide Get;
    hide Under;
    hide Rest;
    hide SlotFault;
    hide CheckSlots;
    hide InList;
    Marked(x, EncSlotsEmpty, path, [Key("slots")]);
    Marked(x, EncSlotsTooMany, path, [Key("slots")]);
    if Lists(enc, "slots") && AsText(Get(enc, "kem")).Some? && ShapeFor(AsText(Get(enc, "kem")).value).Some? {
      SlotsReport(Get(enc, "slots").value.items, enc, AsText(Get(enc, "kem")).value, path, x);
    }
  }

  // ---------------------------------------------------------------------------
  // Passphrase blocks
  // ---------------------------------------------------------------------------

  lemma ParamReports(params: seq<(Value, Value)>, name: string, floor: nat, ceiling: Option<nat>, base: Path, x: Issue)
    requires floor <= 0xffff_ffff
    ensures x in CheckParam(params, name, floor, ceiling, base) <==>
      Marks(x, x.code, base, [Key(name)]) && ParamFault(params, name, floor, ceiling, x.code)
  {
    hide Get;
    hide Under;
    hide Rest;
    Marked(x, x.code, base, [Key(name)]);
  }

  /** The cost parameters, seen from the block that holds them. */
  lemma ParamsReport(pp: seq<(Value, Value)>, c: Option<Ceiling>, base: Path, x: Issue)
    requires Has(pp, "params") && Get(pp, "params").value.Map?
    ensures x in CheckParams(c, Get(pp, "params").value.pairs, base + [Key("params")]) <==>
      && Under(x.path, base) && x.severity == ErrorSeverity && InField(pp, "params", Rest(x.path, base))
      && ParamsFault(Get(pp, "params").value.pairs, c, x.code, Rest(x.path, base)[1..])
  {
    hide Get;
    hide Under;
    hide Rest;
    hide AtKey;
    hide CheckParam;
    hide ParamFault;
    hide UnknownKeys;
    hide TextKeys;
    var params, inner := Get(pp, "params").value.pairs, base + [Key("params")];
    var cm, ct, cp := if c.Some? then Some(c.value.m) else None, if c.Some? then Some(c.value.t) else None, if c.Some? then Some(c.value.p) else None;
    Steps(x.path, base, Key("params"));
    InClosed(params, ["m", "t", "p"], SchemaUnknownField, inner, x);
    ParamReports(params, "m", 65_536, cm, inner, x);
    ParamReports(params, "t", 3, ct, inner, x);
    ParamReports(params, "p", 1, cp, inner, x);
    ParamErrors(params, cm, ct, cp, x.code);
  }

  lemma ParamErrors(params: seq<(Value, Value)>, m: Option<nat>, t: Option<nat>, p: Option<nat>, code: Code)
    ensures ParamFault(params, "m", 65_536, m, code) || ParamFault(params, "t", 3, t, code) || ParamFault(params, "p", 1, p, code)
      ==> SeverityOf(code) == ErrorSeverity
  {
    hide Get;
  }

  lemma BlockFaultReports(options: Options, pp: seq<(Value, Value)>, base: Path, x: Issue)
    ensures x in CheckPassphrase(options, pp, base) <==>
      Under(x.path, base) && x.severity == ErrorSeverity && BlockFault(options, pp, x.code, Rest(x.path, base))
  {
    hide Get;
    hide Under;
    hide Rest;
    hide CheckParams;
    hide ParamsFault;
    hide Raise;
    Marked(x, EncPassphraseAlgUnsupported, base, [Key("alg")]);
    if Has(pp, "params") && Get(pp, "params").value.Map? {
      ParamsReport(pp, options.ceiling, base, x);
    }
  }

  // ---------------------------------------------------------------------------
  // Typed envelopes
  // ---------------------------------------------------------------------------

  lemma NonceReports(enc: seq<(Value, Value)>, path: Path, x: Issue)
    ensures x in CheckNonce(enc, path) <==>
      Marks(x, NonceLengthMismatch, path, [Key("nonce")]) && AsText(Get(enc, "aead")).Some? && AsBytes(Get(enc, "nonce")).Some?
      && KnownAead(AsText(Get(enc, "aead")).value) && |AsBytes(Get(enc, "nonce")).value| != 24
  {
    hide Get;
    hide Marks;
    Marked(x, NonceLengthMismatch, path, [Key("nonce")]);
  }

  lemma KeyPathMarks(enc: seq<(Value, Value)>, path: Path, x: Issue)
    ensures var slots, mac, passphrase, kem := Has(enc, "slots"), Has(enc, "slots_mac"), Has(enc, "passphrase"), Has(enc, "kem");
      x in CheckKeyPath(enc, path) <==>
        || (Marks(x, EncExclusivityViolation, path, []) && passphrase && (slots || mac || kem))
        || (Marks(x, EncSlotsMacRequired, path, []) && slots && !mac)
        || (Marks(x, EncSlotsRequired, path, []) && mac && !slots)
        || (Marks(x, EncKemRequired, path, []) && slots && !kem)
        || (Marks(x, EncNoKeyPath, path, []) && !slots && !passphrase)
  {
    hide Has;
    hide Marks;
    hide When;
    var slots, mac, passphrase, kem := Has(enc, "slots"), Has(enc, "slots_mac"), Has(enc, "passphrase"), Has(enc, "kem");
    InWhenHere(x, passphrase && (slots || mac || kem), EncExclusivityViolation, path);
    InWhenHere(x, slots && !mac, EncSlotsMacRequired, path);
    InWhenHere(x, mac && !slots, EncSlotsRequired, path);
    InWhenHere(x, slots && !kem, EncKemRequired, path);
    InWhenHere(x, !slots && !passphrase, EncNoKeyPath, path);
  }

  lemma KeyPathReports(enc: seq<(Value, Value)>, path: Path, x: Issue)
    ensures x in CheckKeyPath(enc, path) <==>
      Under(x.path, path) && Rest(x.path, path) == [] && x.severity == ErrorSeverity &&
      (|| (x.code == EncExclusivityViolation && Has(enc, "passphrase") && (Has(enc, "slots") || Has(enc, "slots_mac") || Has(enc, "kem")))
       || (x.code == EncSlotsMacRequired && Has(enc, "slots") && !Has(enc, "slots_mac"))
       || (x.code == EncSlotsRequired && Has(enc, "slots_mac") && !Has(enc, "slots"))
       || (x.code == EncKemRequired && Has(enc, "slots") && !Has(enc, "kem"))
       || (x.code == EncNoKeyPath && !Has(enc, "slots") && !Has(enc, "passphrase")))
  {
    hide Has;
    hide Under;
    hide Rest;
    hide CheckKeyPath;
    KeyPathMarks(enc, path, x);
  }

  lemma TypedReports(options: Options, enc: seq<(Value, Value)>, path: Path, x: Issue)
    ensures x in CheckScheme1(options, enc, path) <==>
      Under(x.path, path) && x.severity == ErrorSeverity && TypedFault(options, enc, x.code, Rest(x.path, path))
  {
    hide Get;
    hide Under;
    hide Rest;
    hide CheckNonce;
    hide CheckKeyPath;
    hide CheckAllSlots;
    hide CheckPassphrase;
    hide SlotsFault;
    hide BlockFault;
    NonceReports(enc, path, x);
    KeyPathReports(enc, path, x);
    AllSlotsReport(options, enc, path, x);
    Steps(x.path, path, Key("passphrase"));
    if Has(enc, "passphrase") && Get(enc, "passphrase").value.Map? {
      BlockFaultReports(options, Get(enc, "passphrase").value.pairs, path + [Key("passphrase")], x);
    }
  }

  // ---------------------------------------------------------------------------
  // Envelopes
  // ---------------------------------------------------------------------------

  lemma UnknownTexts(enc: seq<(Value, Value)>)
    ensures AsText(Get(enc, "kem")).Some? && ShapeFor(AsText(Get(enc, "kem")).value).None? <==> UnknownText(enc, "kem", KnownKem)
    ensures AsText(Get(enc, "aead")).Some? && NonceLength(AsText(Get(enc, "aead")).value).None? <==> UnknownText(enc, "aead", KnownAead)
  {
    hide Get;
  }

  lemma UnknownEmpty(enc: seq<(Value, Value)>, path: Path)
    requires Has(enc, "scheme") && Get(enc, "scheme").value.Unsigned?
    ensures UnsupportedIdentifiers(Get(enc, "scheme").value.n, Get(enc, "kem"), Get(enc, "aead"), path) == [] <==> !NamesUnknown(enc)
  {
    hide Get;
  }

  lemma UnknownReports(enc: seq<(Value, Value)>, path: Path, x: Issue)
    requires Has(enc, "scheme") && Get(enc, "scheme").value.Unsigned?
    ensures var unsupported := UnsupportedIdentifiers(Get(enc, "scheme").value.n, Get(enc, "kem"), Get(enc, "aead"), path);
      && (x in unsupported <==>
            (|| (Marks(x, UnsupportedEnvelopeScheme, path, [Key("scheme")]) && Get(enc, "scheme").value != Unsigned(1))
             || (Marks(x, UnsupportedKemAlg, path, [Key("kem")]) && UnknownText(enc, "kem", KnownKem))
             || (Marks(x, UnsupportedAeadAlg, path, [Key("aead")]) && UnknownText(enc, "aead", KnownAead))))
      && (unsupported == [] <==> !NamesUnknown(enc))
  {
    hide Get;
    hide Marks;
    var kem, aead := Get(enc, "kem"), Get(enc, "aead");
    UnknownTexts(enc);
    UnknownEmpty(enc, path);
    hide When;
    hide UnknownText;
    hide ShapeFor;
    hide NonceLength;
    hide NamesUnknown;
    InWhen(x, Get(enc, "scheme").value.n != 1, UnsupportedEnvelopeScheme, path, [Key("scheme")]);
    InWhen(x, AsText(kem).Some? && ShapeFor(AsText(kem).value).None?, UnsupportedKemAlg, path, [Key("kem")]);
    InWhen(x, AsText(aead).Some? && NonceLength(AsText(aead).value).None?, UnsupportedAeadAlg, path, [Key("aead")]);
  }

  lemma UnknownEnvelopeReports(profile: Profile, options: Options, enc: seq<(Value, Value)>, path: Path, x: Issue)
    requires Has(enc, "scheme") && Get(enc, "scheme").value.Unsigned? && !NamesForbidden(profile, enc) && NamesUnknown(enc)
    ensures x in CheckEnvelope(profile, options, enc, path) <==>
      Under(x.path, path) && x.severity == Severe(options, x.code) && UnknownFault(options, enc, x.code, Rest(x.path, path))
  {
    hide Get;
    hide Under;
    hide Rest;
    hide InteriorKeys;
    hide SchemaEnvelope;
    hide CheckScheme1;
    hide UnsupportedIdentifiers;
    hide UnknownText;
    hide NamesUnknown;
    UnknownReports(enc, path, x);
    Ends(x.path, path, []);
    assert path + [] == path;
  }

  lemma EnvelopeReports(profile: Profile, options: Options, enc: seq<(Value, Value)>, path: Path, x: Issue)
    ensures x in CheckEnvelope(profile, options, enc, path) <==>
      Under(x.path, path) && x.severity == Severe(options, x.code) && EnvelopeFault(profile, options, enc, x.code, Rest(x.path, path))
  {
    hide Get;
    hide Under;
    hide Rest;
    hide InteriorKeys;
    hide SchemaEnvelope;
    hide CheckScheme1;
    hide UnsupportedIdentifiers;
    hide UnknownText;
    hide NamesUnknown;
    hide NonTextInside;
    hide EnvelopeMisshapen;
    hide TypedFault;
    hide CheckEnvelope;
    if Has(enc, "scheme") && Get(enc, "scheme").value.Unsigned? && !NamesForbidden(profile, enc) {
      if NamesUnknown(enc) {
        UnknownEnvelopeReports(profile, options, enc, path, x);
      } else {
        KnownEnvelopeReports(profile, options, enc, path, x);
        KnownIsError(options, enc, x.code, Rest(x.path, path));
      }
    } else {
      BadEnvelopeReports(profile, options, enc, path, x);
    }
  }

  lemma KnownIsError(options: Options, enc: seq<(Value, Value)>, code: Code, rel: Path)
    ensures EnvelopeMisshapen(enc, code, rel) || TypedFault(options, enc, code, rel) ==> Severe(options, code) == ErrorSeverity
  {
    hide Get;
    hide Is;
    hide AtKey;
    hide SlotMisshapen;
    hide SlotBytes;
    hide KnownHash;
  }

  lemma BadEnvelopeReports(profile: Profile, options: Options, enc: seq<(Value, Value)>, path: Path, x: Issue)
    requires Has(enc, "scheme") && Get(enc, "scheme").value.Unsigned? ==> NamesForbidden(profile, enc)
    ensures x in CheckEnvelope(profile, options, enc, path) <==>
      Under(x.path, path) && x.severity == ErrorSeverity &&
      if !Has(enc, "scheme") then x.code == SchemaMissingRequired && Rest(x.path, path) == [Key("scheme")]
      else if !Get(enc, "scheme").value.Unsigned? then x.code == SchemaTypeMismatch && Rest(x.path, path) == [Key("scheme")]
      else x.code == UnauthenticatedCipherForbidden && Rest(x.path, path) == [Key("aead")]
  {
    hide Get;
    hide Under;
    hide Rest;
    hide InteriorKeys;
    hide SchemaEnvelope;
    hide CheckScheme1;
    hide UnsupportedIdentifiers;
    Marked(x, SchemaMissingRequired, path, [Key("scheme")]);
    Marked(x, SchemaTypeMismatch, path, [Key("scheme")]);
    Marked(x, UnauthenticatedCipherForbidden, path, [Key("aead")]);
  }

  lemma KnownEnvelopeReports(profile: Profile, options: Options, enc: seq<(Value, Value)>, path: Path, x: Issue)
    requires Has(enc, "scheme") && Get(enc, "scheme").value.Unsigned? && !NamesForbidden(profile, enc) && !NamesUnknown(enc)
    ensures x in CheckEnvelope(profile, options, enc, path) <==>
      Under(x.path, path) && x.severity == ErrorSeverity &&
      if exists p :: NonTextInside(enc, p) then x.code == SchemaTypeMismatch && NonTextInside(enc, Rest(x.path, path))
      else if exists c, p :: EnvelopeMisshapen(enc, c, p) then EnvelopeMisshapen(enc, x.code, Rest(x.path, path))
      else TypedFault(options, enc, x.code, Rest(x.path, path))
  {
    hide Get;
    hide Under;
    hide Rest;
    hide InteriorKeys;
    hide SchemaEnvelope;
    hide CheckScheme1;
    hide UnsupportedIdentifiers;
    hide UnknownText;
    hide NamesUnknown;
    hide NonTextInside;
    hide EnvelopeMisshapen;
    hide TypedFault;
    UnknownReports(enc, path, x);
    InteriorReports(enc, path, x);
    InteriorPasses(enc, path);
    EnvelopeShapeReports(enc, path, x);
    EnvelopeShapePasses(enc, path);
    TypedReports(options, enc, path, x);
  }

  // ---------------------------------------------------------------------------
  // Items
  // ---------------------------------------------------------------------------

  function DigestIssues(alg: string, digest: Bytes, base: Path): seq<Issue> {
    match HashLength(alg)
    case None => [Raise(UnsupportedHashAlg, base + [Key(alg)])]
    case Some(n) => When(|digest| != n, HashDigestLengthMismatch, base + [Key(alg)])
  }

  lemma InDigest(alg: string, digest: Bytes, base: Path, x: Issue)
    ensures x in DigestIssues(alg, digest, base) <==>
      || (Marks(x, HashDigestLengthMismatch, base, [Key(alg)]) && KnownHash(alg) && |digest| != 32)
      || (Marks(x, UnsupportedHashAlg, base, [Key(alg)]) && !KnownHash(alg))
  {
    hide Marks;
    Marked(x, HashDigestLengthMismatch, base, [Key(alg)]);
    Marked(x, UnsupportedHashAlg, base, [Key(alg)]);
  }

  lemma {:induction false} InDigests(hashes: seq<(Value, Value)>, base: Path, x: Issue)
    requires KeysDistinct(hashes)
    ensures x in CheckDigests(hashes, base) <==> Marks(x, x.code, base, Rest(x.path, base)) && HashFault(hashes, x.code, Rest(x.path, base))
  {
    hide Under;
    hide Rest;
    hide Raise;
    hide KnownHash;
    hide HashLength;
    hide KeysDistinct;
    if hashes != [] {
      TailDistinct(hashes);
      InDigests(hashes[1..], base, x);
      if hashes[0].0.Text? {
        HeadOnly(hashes);
        if hashes[0].1.ByteString? {
          InDigest(hashes[0].0.text, hashes[0].1.bytes, base, x);
        }
      }
    }
  }

  lemma HashesReport(m: seq<(Value, Value)>, base: Path, x: Issue)
    requires Has(m, "hashes") && Get(m, "hashes").value.Map? ==> KeysDistinct(Get(m, "hashes").value.pairs)
    ensures x in CheckHashes(Get(m, "hashes"), base + [Key("hashes")]) <==>
      Under(x.path, base) && x.severity == ErrorSeverity && DigestFault(m, x.code, Rest(x.path, base))
  {
    hide Get;
    hide Under;
    hide Rest;
    hide KeysDistinct;
    hide KnownHash;
    Steps(x.path, base, Key("hashes"));
    InRaise(x, SchemaTypeMismatch, base + [Key("hashes")]);
    if Has(m, "hashes") && Get(m, "hashes").value.Map? {
      InDigests(Get(m, "hashes").value.pairs, base + [Key("hashes")], x);
    }
  }

  lemma UrisReport(profile: Profile, m: seq<(Value, Value)>, base: Path, x: Issue)
    ensures x in CheckUris(profile, Get(m, "uris"), base + [Key("uris")]) <==>
      Under(x.path, base) && x.severity == ErrorSeverity && UrisFault(profile, m, x.code, Rest(x.path, base))
  {
    hide Get;
    hide Under;
    hide Rest;
    hide Walk;
    hide Raise;
    var f := UriCheck(profile, base + [Key("uris")]);
    Marked(x, SchemaTypeMismatch, base, [Key("uris")]);
    if Lists(m, "uris") {
      var uris := Get(m, "uris").value.items;
      forall j | 0 <= j < |uris|
        ensures x in f(uris[j], j) <==>
          uris[j].Text? && !profile.acceptableUri(uris[j].text) && Marks(x, InvalidUri, base + [Key("uris")] + [Index(j)], [])
      {
        var wrong := uris[j].Text? && !profile.acceptableUri(uris[j].text);
        assert f(uris[j], j) == When(wrong, InvalidUri, base + [Key("uris")] + [Index(j)]);
        InWhenHere(x, wrong, InvalidUri, base + [Key("uris")] + [Index(j)]);
      }
      InEntries(f, m, "uris", base, x);
      if InList(m, "uris", Rest(x.path, base)) {
        IntoEntry(m, "uris", x.path, base, Rest(x.path, base)[1].index);
      }
    }
  }

  lemma ContentHash(m: seq<(Value, Value)>)
    ensures HasContentHash(Get(m, "hashes")) <==> HasSupportedHash(m)
  {
    hide Get;
  }

  lemma EncReports(profile: Profile, options: Options, m: seq<(Value, Value)>, base: Path, x: Issue)
    requires Has(m, "enc")
    ensures var enc, rel := Get(m, "enc").value, Rest(x.path, base);
      x in CheckEnc(profile, options, m, enc, base + [Key("enc")]) <==>
        Under(x.path, base) && x.severity == Severe(options, x.code) &&
        (|| (x.code == EncRequiresContentHash && rel == [Key("enc")] && !HasSupportedHash(m))
         || (x.code == SchemaTypeMismatch && rel == [Key("enc")] && !enc.Map?)
         || (x.code == EncEnvelopeTooLarge && rel == [Key("enc")] && enc.Map? && TryEncode(enc).Ok? && |TryEncode(enc).value| > options.maxEnvelopeBytes)
         || (enc.Map? && InField(m, "enc", rel) && EnvelopeFault(profile, options, enc.pairs, x.code, rel[1..])))
  {
    hide Get;
    hide Under;
    hide Rest;
    hide CheckEnvelope;
    hide EnvelopeFault;
    hide HasContentHash;
    hide HasSupportedHash;
    hide TryEncode;
    hide When;
    var enc, path := Get(m, "enc").value, base + [Key("enc")];
    ContentHash(m);
    InWhen(x, !HasContentHash(Get(m, "hashes")), EncRequiresContentHash, base, [Key("enc")]);
    Marked(x, SchemaTypeMismatch, base, [Key("enc")]);
    InWhen(x, EnvelopeSize(enc) > options.maxEnvelopeBytes, EncEnvelopeTooLarge, base, [Key("enc")]);
    Steps(x.path, base, Key("enc"));
    if enc.Map? {
      EnvelopeReports(profile, options, enc.pairs, path, x);
    }
  }

  lemma ItemFaultReports(profile: Profile, options: Options, item: Value, i: nat, x: Issue)
    requires HashKeysDistinct(item)
    ensures x in CheckItem(profile, options, item, i) <==>
      Under(x.path, [Key("items"), Index(i)]) && x.severity == Severe(options, x.code)
      && ItemFault(profile, options, item, x.code, Rest(x.path, [Key("items"), Index(i)]))
  {
    hide Get;
    hide Under;
    hide Rest;
    hide CheckHashes;
    hide CheckUris;
    hide CheckEnc;
    hide EnvelopeFault;
    hide HasSupportedHash;
    hide TryEncode;
    hide DigestFault;
    hide UrisFault;
    if item.Map? {
      var base := [Key("items"), Index(i)];
      HashesReport(item.pairs, base, x);
      UrisReport(profile, item.pairs, base, x);
      PartsAreErrors(profile, options, item.pairs, x.code, Rest(x.path, base));
      if Has(item.pairs, "enc") {
        EncReports(profile, options, item.pairs, base, x);
      }
    }
  }

  lemma PartsAreErrors(profile: Profile, options: Options, m: seq<(Value, Value)>, code: Code, rel: Path)
    ensures DigestFault(m, code, rel) || UrisFault(profile, m, code, rel) ==> Severe(options, code) == ErrorSeverity
  {
    hide Get;
    hide AtKey;
    hide KnownHash;
  }

  // ---------------------------------------------------------------------------
  // Commitments
  // ---------------------------------------------------------------------------

  lemma RootReports(m: seq<(Value, Value)>, base: Path, x: Issue)
    ensures var known := AsText(Get(m, "alg")) == Some("rfc9162-sha256");
      x in (match MerkleRootLength(AsText(Get(m, "alg")).GetOr(""))
            case None => [Raise(UnsupportedMerkleCommitAlg, base + [Key("alg")])]
            case Some(n) =>
              var root := AsBytes(Get(m, "root"));
              When(root.Some? && |root.value| != n, HashDigestLengthMismatch, base + [Key("root")])) <==>
        || (Marks(x, UnsupportedMerkleCommitAlg, base, [Key("alg")]) && !known)
        || (Marks(x, HashDigestLengthMismatch, base, [Key("root")]) && known && AsBytes(Get(m, "root")).Some? && |AsBytes(Get(m, "root")).value| != 32)
  {
    hide Get;
    hide Marks;
    Marked(x, UnsupportedMerkleCommitAlg, base, [Key("alg")]);
    Marked(x, HashDigestLengthMismatch, base, [Key("root")]);
  }

  lemma LeafCountReports(m: seq<(Value, Value)>, base: Path, x: Issue)
    ensures
      x in (match Get(m, "leaf_count")
            case Some(Unsigned(n)) => When(!(1 <= n <= MAX_U32), SchemaMerkleLeafCountInvalid, base + [Key("leaf_count")])
            case Some(Negative(_)) => [Raise(SchemaTypeMismatch, base + [Key("leaf_count")])]
            case _ => []) <==>
        || (Marks(x, SchemaMerkleLeafCountInvalid, base, [Key("leaf_count")]) && Has(m, "leaf_count")
            && Get(m, "leaf_count").value.Unsigned? && !(1 <= Get(m, "leaf_count").value.n <= 0xffff_ffff))
        || (Marks(x, SchemaTypeMismatch, base, [Key("leaf_count")]) && Has(m, "leaf_count") && Get(m, "leaf_count").value.Negative?)
  {
    hide Get;
    hide Marks;
    Marked(x, SchemaMerkleLeafCountInvalid, base, [Key("leaf_count")]);
    Marked(x, SchemaTypeMismatch, base, [Key("leaf_count")]);
  }

  lemma CommitFaultReports(profile: Profile, commit: Value, i: nat, x: Issue)
    ensures x in CheckMerkle(profile, commit, i) <==>
      Under(x.path, [Key("merkle"), Index(i)]) && x.severity == ErrorSeverity && CommitFault(profile, commit, x.code, Rest(x.path, [Key("merkle"), Index(i)]))
  {
    hide Get;
    hide Under;
    hide Rest;
    hide CheckUris;
    hide UrisFault;
    hide Raise;
    if commit.Map? {
      var base := [Key("merkle"), Index(i)];
      RootReports(commit.pairs, base, x);
      LeafCountReports(commit.pairs, base, x);
      UrisReport(profile, commit.pairs, base, x);
    }
  }

  // ---------------------------------------------------------------------------
  // Signatures
  // ---------------------------------------------------------------------------

  /** The two algorithm identifiers as CBOR numbers. */
  lemma AlgValue(v: Value)
    ensures IntValue(v) in {Some(-8), Some(-19)} <==> v in {Negative(7), Negative(18)}
  {
  }

  /** How the validator reads a detached signature. */
  lemma DetachedReading(message: Bytes)
    ensures Detached(message) <==> SignatureStructure(message).Some? && !SignatureStructure(message).value.1
    ensures Detached(message) ==>
      var header := SignatureStructure(message).value.0;
      && (NamesSigner(message) <==> OfLength(IntKeyed(header, 4), 32))
      && (SupportedAlg(message) <==> IntKeyed(header, 1).Some? && IntValue(IntKeyed(header, 1).value) in {Some(-8), Some(-19)})
  {
    hide Decode;
    hide IntKeyed;
    hide IntValue;
    hide Labelled;
    NoLabels();
    if SignatureStructure(message).Some? {
      var header := SignatureStructure(message).value.0;
      LabelsRead(header);
      if IntKeyed(header, 1).Some? {
        AlgValue(IntKeyed(header, 1).value);
      }
    }
  }

  /** With no inline key, or a public one, the message speaks. */
  lemma MessageReports(entry: Value, i: nat, x: Issue)
    requires entry.Map?
    requires var key := AsBytes(Get(entry.pairs, "cose_key")); key.Some? ==> InspectKey(key.value).None?
    ensures var key, message := AsBytes(Get(entry.pairs, "cose_key")), AsBytes(Get(entry.pairs, "cose_sign1"));
      x in CheckSig(entry, i) <==>
        message.Some? &&
        if !Detached(message.value) then Marks(x, MalformedSigCoseSign1, [Key("sigs"), Index(i)], [])
        else
          || (Marks(x, SignatureUnsupported, [Key("sigs"), Index(i)], []) && !SupportedAlg(message.value))
          || (Marks(x, SigEntryKidCoseKeyConflict, [Key("sigs"), Index(i)], []) && key.Some? && NamesSigner(message.value))
  {
    hide Get;
    hide Marks;
    hide InspectKey;
    hide SignatureStructure;
    hide IntKeyed;
    hide IntValue;
    hide Detached;
    hide NamesSigner;
    hide SupportedAlg;
    hide Raise;
    var base, message := [Key("sigs"), Index(i)], AsBytes(Get(entry.pairs, "cose_sign1"));
    if message.Some? {
      DetachedReading(message.value);
      MarkedHere(x, MalformedSigCoseSign1, base);
      MarkedHere(x, SignatureUnsupported, base);
      MarkedHere(x, SigEntryKidCoseKeyConflict, base);
    }
  }

  lemma SigFaultReports(entry: Value, i: nat, x: Issue)
    ensures x in CheckSig(entry, i) <==>
      Under(x.path, [Key("sigs"), Index(i)]) && x.severity == SeverityOf(x.code) && SigFault(entry, x.code, Rest(x.path, [Key("sigs"), Index(i)]))
  {
    hide Get;
    hide Under;
    hide Rest;
    hide InspectKey;
    hide PublicKey;
    hide Detached;
    hide NamesSigner;
    hide SupportedAlg;
    hide LeaksPrivate;
    hide Raise;
    hide CheckSig;
    if entry.Map? {
      var key := AsBytes(Get(entry.pairs, "cose_key"));
      if key.Some? {
        KeyCode(key.value);
      }
      if key.Some? && InspectKey(key.value).Some? {
        LeakReports(entry, i, x);
      } else {
        MessageReports(entry, i, x);
      }
    } else {
      NoMapNoIssue(entry, i);
    }
  }

  lemma NoMapNoIssue(entry: Value, i: nat)
    requires !entry.Map?
    ensures CheckSig(entry, i) == []
  {
  }

  lemma LeakReports(entry: Value, i: nat, x: Issue)
    requires entry.Map?
    requires var key := AsBytes(Get(entry.pairs, "cose_key")); key.Some? && InspectKey(key.value).Some?
    ensures x in CheckSig(entry, i) <==>
      Marks(x, InspectKey(AsBytes(Get(entry.pairs, "cose_key")).value).value, [Key("sigs"), Index(i)], [Key("cose_key")])
  {
    hide Get;
    hide Marks;
    hide InspectKey;
    Marked(x, InspectKey(AsBytes(Get(entry.pairs, "cose_key")).value).value, [Key("sigs"), Index(i)], [Key("cose_key")]);
  }

  /** What the inspection of an inline key answers. */
  lemma KeyCode(key: Bytes)
    ensures InspectKey(key) ==
      if PublicKey(key) then None else if LeaksPrivate(key) then Some(SigPrivateKeyLeaked) else Some(MalformedSigCoseSign1)
  {
    hide InspectKey;
    hide PublicKey;
    hide Decode;
    hide Labelled;
    KeyReading(key);
  }

  // ---------------------------------------------------------------------------
  // Critical names and keys of the record
  // ---------------------------------------------------------------------------

  /** The names before index `i`. */
  ghost predicate NamedBefore(crit: seq<Value>, i: nat, seen: set<string>)
    requires i <= |crit|
  {
    forall name :: name in seen <==> exists j :: 0 <= j < i && crit[j] == Text(name)
  }

  /** A name at fault. */
  predicate NameFault(profile: Profile, options: Options, m: seq<(Value, Value)>, crit: seq<Value>, i: nat, code: Code)
    requires i < |crit| && crit[i].Text?
  {
    if !CritName(profile, m, crit, i) then code == CritShapeInvalid
    else code == ExtensionUnsupportedCritical && crit[i].text !in options.supportedCritical
  }

  lemma NameReports(profile: Profile, options: Options, m: seq<(Value, Value)>, crit: seq<Value>, i: nat, seen: set<string>, x: Issue)
    requires i < |crit| && crit[i].Text? && NamedBefore(crit, i, seen)
    ensures x in CheckCritName(m, profile, options, crit[i].text, i, seen) <==>
      x == Raise(x.code, [Key("crit"), Index(i)]) && NameFault(profile, options, m, crit, i, x.code)
  {
    hide Has;
    assert crit[i].text in seen <==> exists j :: 0 <= j < i && crit[j] == Text(crit[i].text);
  }

  lemma {:induction false} InCritNames(profile: Profile, options: Options, m: seq<(Value, Value)>, crit: seq<Value>, i: nat, seen: set<string>, x: Issue)
    requires i <= |crit| && NamedBefore(crit, i, seen)
    ensures x in CheckCritNames(m, profile, options, crit, i, seen) <==>
      exists k :: i <= k < |crit| && crit[k].Text? && x == Raise(x.code, [Key("crit"), Index(k)]) && NameFault(profile, options, m, crit, k, x.code)
    decreases |crit| - i
  {
    hide Raise;
    hide NameFault;
    hide CheckCritName;
    hide NamedBefore;
    if i < |crit| {
      var next := if crit[i].Text? then seen + {crit[i].text} else seen;
      NamedNext(crit, i, seen);
      InCritNames(profile, options, m, crit, i + 1, next, x);
      if crit[i].Text? {
        NameReports(profile, options, m, crit, i, seen, x);
      }
    }
  }

  lemma NamedNext(crit: seq<Value>, i: nat, seen: set<string>)
    requires i < |crit| && NamedBefore(crit, i, seen)
    ensures NamedBefore(crit, i + 1, if crit[i].Text? then seen + {crit[i].text} else seen)
  {
  }

  lemma CritFaultReports(profile: Profile, options: Options, m: seq<(Value, Value)>, x: Issue)
    ensures x in CheckCrit(m, profile, options) <==>
      x.severity == ErrorSeverity &&
      ((x.code == SchemaTypeMismatch && x.path == [Key("crit")] && EmptyList(m, "crit")) || CritFault(profile, options, m, x.code, x.path))
  {
    hide Get;
    hide CheckCritNames;
    hide CritName;
    if Lists(m, "crit") {
      var crit := Get(m, "crit").value.items;
      InCritNames(profile, options, m, crit, 0, {}, x);
      if |x.path| == 2 && x.path[0] == Key("crit") && x.path[1].Index? {
        assert x.path == [Key("crit"), Index(x.path[1].index)];
      }
    }
  }

  lemma {:induction false} InTopLevel(profile: Profile, keys: seq<string>, x: Issue)
    ensures x in CheckTopLevel(profile, keys) <==>
      x.code == SchemaUnknownField && x.severity == ErrorSeverity && |x.path| == 1 && x.path[0].Key? && x.path[0].key in keys
      && x.path[0].key !in ["v", "items", "merkle", "supersedes", "sigs", "crit"] && !profile.extensionKey(x.path[0].key)
  {
    if |x.path| == 1 {
      assert x.path == [x.path[0]];
    }
    if keys != [] {
      InTopLevel(profile, keys[1..], x);
    }
  }

  lemma KeysReport(profile: Profile, m: seq<(Value, Value)>, x: Issue)
    ensures x in CheckTopLevel(profile, TextKeys(m)) <==>
      x.code == SchemaUnknownField && x.severity == ErrorSeverity && AtKey(m, x.path)
      && x.path[0].key !in ["v", "items", "merkle", "supersedes", "sigs", "crit"] && !profile.extensionKey(x.path[0].key)
  {
    hide Get;
    hide CheckTopLevel;
    InTopLevel(profile, TextKeys(m), x);
    if |x.path| == 1 && x.path[0].Key? {
      HasKey(m, x.path[0].key);
    }
  }

  // ---------------------------------------------------------------------------
  // The whole pass
  // ---------------------------------------------------------------------------

  lemma ItemFaultsReport(profile: Profile, options: Options, m: seq<(Value, Value)>, x: Issue)
    requires Lists(m, "items") ==> forall j :: 0 <= j < |Get(m, "items").value.items| ==> HashKeysDistinct(Get(m, "items").value.items[j])
    ensures x in WalkArray(CheckItems(profile, options), Get(m, "items")) <==>
      InList(m, "items", x.path) && x.severity == Severe(options, x.code) && ItemFault(profile, options, EntryAt(m, "items", x.path), x.code, x.path[2..])
  {
    hide Get;
    hide Under;
    hide Rest;
    hide WalkArray;
    hide CheckItem;
    hide ItemFault;
    hide HashKeysDistinct;
    if Lists(m, "items") {
      var entries := Get(m, "items").value.items;
      forall j | 0 <= j < |entries|
        ensures x in CheckItems(profile, options)(entries[j], j) ==> Under(x.path, [Key("items"), Index(j)])
      {
        assert CheckItems(profile, options)(entries[j], j) == CheckItem(profile, options, entries[j], j);
        ItemFaultReports(profile, options, entries[j], j, x);
      }
    }
    TopEntries(CheckItems(profile, options), m, "items", x);
    if InList(m, "items", x.path) {
      var entry, j := EntryAt(m, "items", x.path), x.path[1].index;
      assert CheckItems(profile, options)(entry, j) == CheckItem(profile, options, entry, j);
      TopEntry(x.path, "items", j);
      ItemFaultReports(profile, options, entry, j, x);
    }
  }

  lemma CommitFaultsReport(profile: Profile, m: seq<(Value, Value)>, x: Issue)
    ensures x in WalkArray(CheckCommits(profile), Get(m, "merkle")) <==>
      InList(m, "merkle", x.path) && x.severity == ErrorSeverity && CommitFault(profile, EntryAt(m, "merkle", x.path), x.code, x.path[2..])
  {
    hide Get;
    hide Under;
    hide Rest;
    hide WalkArray;
    hide CheckMerkle;
    hide CommitFault;
    if Lists(m, "merkle") {
      var entries := Get(m, "merkle").value.items;
      forall j | 0 <= j < |entries|
        ensures x in CheckCommits(profile)(entries[j], j) ==> Under(x.path, [Key("merkle"), Index(j)])
      {
        assert CheckCommits(profile)(entries[j], j) == CheckMerkle(profile, entries[j], j);
        CommitFaultReports(profile, entries[j], j, x);
      }
    }
    TopEntries(CheckCommits(profile), m, "merkle", x);
    if InList(m, "merkle", x.path) {
      var entry, j := EntryAt(m, "merkle", x.path), x.path[1].index;
      assert CheckCommits(profile)(entry, j) == CheckMerkle(profile, entry, j);
      TopEntry(x.path, "merkle", j);
      CommitFaultReports(profile, entry, j, x);
    }
  }

  lemma SigFaultsReport(m: seq<(Value, Value)>, x: Issue)
    ensures x in WalkArray(CheckSig, Get(m, "sigs")) <==>
      InList(m, "sigs", x.path) && x.severity == SeverityOf(x.code) && SigFault(EntryAt(m, "sigs", x.path), x.code, x.path[2..])
  {
    hide Get;
    hide Under;
    hide Rest;
    hide WalkArray;
    hide CheckSig;
    hide SigFault;
    if Lists(m, "sigs") {
      var entries := Get(m, "sigs").value.items;
      forall j | 0 <= j < |entries|
        ensures x in CheckSig(entries[j], j) ==> Under(x.path, [Key("sigs"), Index(j)])
      {
        SigFaultReports(entries[j], j, x);
      }
    }
    TopEntries(CheckSig, m, "sigs", x);
    if InList(m, "sigs", x.path) {
      TopEntry(x.path, "sigs", x.path[1].index);
      SigFaultReports(EntryAt(m, "sigs", x.path), x.path[1].index, x);
    }
  }

  lemma PresenceReports(m: seq<(Value, Value)>, x: Issue)
    ensures var bare := !NonEmptyList(m, "items") && !NonEmptyList(m, "merkle");
      x in CheckPresence(m) <==>
        x.severity == ErrorSeverity &&
        (|| (x.code == SchemaEmptyRecord && x.path == [] && bare)
         || (x.code == SchemaTypeMismatch && x.path == [Key("items")] && !bare && EmptyList(m, "items"))
         || (x.code == SchemaTypeMismatch && x.path == [Key("merkle")] && !bare && EmptyList(m, "merkle")))
  {
    hide Get;
  }

  lemma EmptySigsReport(m: seq<(Value, Value)>, x: Issue)
    ensures x in When(IsEmptyArray(Get(m, "sigs")), SchemaTypeMismatch, [Key("sigs")]) <==>
      x.severity == ErrorSeverity && x.code == SchemaTypeMismatch && x.path == [Key("sigs")] && EmptyList(m, "sigs")
  {
    hide Get;
  }

  /** Severities, part by part. */
  lemma CommitIsError(profile: Profile, options: Options, entry: Value, code: Code, rel: Path)
    ensures CommitFault(profile, entry, code, rel) ==> Severe(options, code) == ErrorSeverity
  {
    hide Get;
  }

  lemma SigSeverity(options: Options, entry: Value, code: Code, rel: Path)
    ensures SigFault(entry, code, rel) ==> Severe(options, code) == SeverityOf(code)
  {
    hide Get;
    hide PublicKey;
    hide Detached;
    hide SupportedAlg;
    hide NamesSigner;
    hide LeaksPrivate;
  }

  lemma CritIsError(profile: Profile, options: Options, m: seq<(Value, Value)>, code: Code, path: Path)
    ensures CritFault(profile, options, m, code, path) ==> Severe(options, code) == ErrorSeverity
  {
    hide Get;
    hide CritName;
  }

  /** The domain pass reports what is at fault, and nothing else. */
  lemma DomainReports(profile: Profile, options: Options, m: seq<(Value, Value)>, x: Issue)
    requires WellFormed(Map(m))
    ensures x in DomainIssues(profile, options, m) <==> x.severity == Severe(options, x.code) && Fault(profile, options, m, x.code, x.path)
  {
    hide Get;
    hide WellFormed;
    hide WalkArray;
    hide CheckPresence;
    hide CheckCrit;
    hide CheckTopLevel;
    hide TextKeys;
    hide When;
    hide CritFault;
    hide ItemFault;
    hide CommitFault;
    hide SigFault;
    hide NonEmptyList;
    hide EmptyList;
    hide HashKeysDistinct;
    hide AtKey;
    if Lists(m, "items") {
      ItemKeysDistinct(m);
    }
    PresenceReports(m, x);
    CritFaultReports(profile, options, m, x);
    CritIsError(profile, options, m, x.code, x.path);
    KeysReport(profile, m, x);
    ItemFaultsReport(profile, options, m, x);
    CommitFaultsReport(profile, m, x);
    if InList(m, "merkle", x.path) {
      CommitIsError(profile, options, EntryAt(m, "merkle", x.path), x.code, x.path[2..]);
    }
    EmptySigsReport(m, x);
    SigFaultsReport(m, x);
    if InList(m, "sigs", x.path) {
      SigSeverity(options, EntryAt(m, "sigs", x.path), x.code, x.path[2..]);
    }
  }

  // ---------------------------------------------------------------------------
  // The answer
  // ---------------------------------------------------------------------------

  lemma {:induction false} InOfSeverity(issues: seq<Issue>, severity: Severity, x: Issue)
    ensures x in OfSeverity(issues, severity) <==> x in issues && x.severity == severity
  {
    if issues != [] {
      InOfSeverity(issues[1..], severity, x);
    }
  }

  lemma InSorted(issues: seq<Issue>, x: Issue)
    ensures x in SortIssues(issues) <==> x in issues
  {
    assert x in SortIssues(issues) <==> x in multiset(SortIssues(issues));
    assert x in issues <==> x in multiset(issues);
  }

  lemma {:induction false} OfSeverityInOrder(issues: seq<Issue>, severity: Severity)
    requires InOrder(issues)
    ensures InOrder(OfSeverity(issues, severity))
  {
    hide IssueLess;
    if issues != [] {
      assert forall i, j :: 0 <= i < j < |issues[1..]| ==> issues[1..][i] == issues[i + 1] && issues[1..][j] == issues[j + 1];
      OfSeverityInOrder(issues[1..], severity);
      var rest := OfSeverity(issues[1..], severity);
      forall j | 0 <= j < |rest|
        ensures !IssueLess(rest[j], issues[0])
      {
        InOfSeverity(issues[1..], severity, rest[j]);
        var k :| 0 <= k < |issues[1..]| && issues[1..][k] == rest[j];
        assert issues[k + 1] == rest[j];
      }
    }
  }

  /** The issues in the order they are raised; each stage forecloses the next. */
  function RaisedIssues(profile: Profile, options: Options, bytes: Bytes): seq<Issue> {
    match Decode(bytes)
    case Err(_) => [Raise(MalformedCbor, [])]
    case Ok(v) =>
      if GuardIssues(v) != [] then GuardIssues(v)
      else if !v.Map? then [Raise(SchemaTypeMismatch, [])]
      else if SchemaIssues(v.pairs) != [] then SchemaIssues(v.pairs)
      else DomainIssues(profile, options, v.pairs)
  }

  lemma RaisedExactly(profile: Profile, options: Options, bytes: Bytes, x: Issue)
    ensures x in RaisedIssues(profile, options, bytes) <==> HasIssue(profile, options, bytes, x)
  {
    hide Decode;
    hide Encode;
    hide GuardIssues;
    hide SchemaIssues;
    hide DomainIssues;
    hide NonTextAt;
    hide Misshapen;
    hide Fault;
    if Decode(bytes).Ok? {
      DecodeIsEncoding(bytes);
      var v := Decode(bytes).value;
      GuardPasses(v);
      GuardReports(v, x);
      if v.Map? {
        SchemaPasses(v.pairs);
        SchemaReports(v.pairs, x);
        DomainReports(profile, options, v.pairs, x);
      }
    }
  }

  lemma SortOne(x: Issue)
    ensures SortIssues([x]) == [x]
  {
    assert [x][..0] == [];
  }

  lemma SomeError(issues: seq<Issue>, x: Issue)
    requires x in issues && x.severity == ErrorSeverity
    ensures HasError(issues)
  {
  }

  /** The validator rejects what raises an error and accepts the rest, whatever the stage. */
  lemma Answers(profile: Profile, options: Options, bytes: Bytes)
    ensures var raised, r := RaisedIssues(profile, options, bytes), Validate(profile, options, bytes);
      if HasError(raised) then r == Rejected(SortIssues(raised))
      else r.Accepted? && r.warnings == OfSeverity(SortIssues(raised), WarningSeverity) && r.info == OfSeverity(SortIssues(raised), InfoSeverity)
  {
    hide Decode;
    hide GuardIssues;
    hide SchemaIssues;
    hide DomainIssues;
    hide RecordFromCbor;
    hide OfSeverity;
    hide SortIssues;
    hide HasError;
    SortOne(Raise(MalformedCbor, []));
    SortOne(Raise(SchemaTypeMismatch, []));
    var raised := RaisedIssues(profile, options, bytes);
    if Decode(bytes).Ok? && GuardIssues(Decode(bytes).value) == [] && Decode(bytes).value.Map? && SchemaIssues(Decode(bytes).value.pairs) == [] {
      CleanSort(raised);
      ReconstructionTotal(profile, options, bytes);
    } else {
      StageErrors(profile, options, bytes);
      SomeError(raised, raised[0]);
    }
  }

  /** Up to the schema pass every issue is an error. */
  lemma StageErrors(profile: Profile, options: Options, bytes: Bytes)
    requires Decode(bytes).Ok? && GuardIssues(Decode(bytes).value) == [] && Decode(bytes).value.Map? ==> SchemaIssues(Decode(bytes).value.pairs) != []
    ensures var raised := RaisedIssues(profile, options, bytes);
      raised != [] && raised[0].severity == ErrorSeverity
  {
    hide Decode;
    hide Encode;
    hide GuardIssues;
    hide SchemaIssues;
    hide DomainIssues;
    hide NonTextAt;
    hide Misshapen;
    var raised := RaisedIssues(profile, options, bytes);
    if Decode(bytes).Ok? {
      DecodeIsEncoding(bytes);
      GuardReports(Decode(bytes).value, raised[0]);
      if Decode(bytes).value.Map? {
        SchemaReports(Decode(bytes).value.pairs, raised[0]);
      }
    }
  }

  /** What the validator reports: all issues of a rejection, the warnings and notes of an acceptance. */
  function Reported(r: Outcome): seq<Issue> {
    match r
    case Rejected(issues) => issues
    case Accepted(_, warnings, info) => warnings + info
  }

  lemma IssueSeverity(profile: Profile, options: Options, bytes: Bytes, x: Issue)
    requires HasIssue(profile, options, bytes, x)
    ensures x.severity == ErrorSeverity || x.severity == InfoSeverity
  {
    hide Decode;
    hide NonTextAt;
    hide Misshapen;
    hide Fault;
  }

  /** Nothing is ever only a warning. */
  lemma NoWarning(profile: Profile, options: Options, bytes: Bytes)
    ensures Validate(profile, options, bytes).Accepted? ==> Validate(profile, options, bytes).warnings == []
    ensures OfSeverity(SortIssues(RaisedIssues(profile, options, bytes)), WarningSeverity) == []
  {
    hide Validate;
    hide RaisedIssues;
    hide SortIssues;
    hide HasIssue;
    hide OfSeverity;
    Answers(profile, options, bytes);
    var raised := RaisedIssues(profile, options, bytes);
    var warnings := OfSeverity(SortIssues(raised), WarningSeverity);
    if warnings != [] {
      var x := warnings[0];
      InOfSeverity(SortIssues(raised), WarningSeverity, x);
      InSorted(raised, x);
      RaisedExactly(profile, options, bytes, x);
      if HasIssue(profile, options, bytes, x) {
        IssueSeverity(profile, options, bytes, x);
      }
    }
  }

  lemma ReportedAt(profile: Profile, options: Options, bytes: Bytes, x: Issue)
    ensures x in Reported(Validate(profile, options, bytes)) <==> HasIssue(profile, options, bytes, x)
  {
    hide Validate;
    hide RaisedIssues;
    hide SortIssues;
    hide HasIssue;
    hide OfSeverity;
    var raised := RaisedIssues(profile, options, bytes);
    Answers(profile, options, bytes);
    NoWarning(profile, options, bytes);
    InOfSeverity(SortIssues(raised), InfoSeverity, x);
    InSorted(raised, x);
    RaisedExactly(profile, options, bytes, x);
    if HasIssue(profile, options, bytes, x) {
      IssueSeverity(profile, options, bytes, x);
    }
  }

  /** Rejection, decided by the rules alone. */
  lemma RejectedExactly(profile: Profile, options: Options, bytes: Bytes)
    ensures Validate(profile, options, bytes).Rejected? <==> exists y :: HasIssue(profile, options, bytes, y) && y.severity == ErrorSeverity
  {
    hide Validate;
    hide RaisedIssues;
    hide SortIssues;
    hide HasIssue;
    hide OfSeverity;
    var raised := RaisedIssues(profile, options, bytes);
    Answers(profile, options, bytes);
    if HasError(raised) {
      var i :| 0 <= i < |raised| && raised[i].severity == ErrorSeverity;
      RaisedExactly(profile, options, bytes, raised[i]);
    }
    if y :| HasIssue(profile, options, bytes, y) && y.severity == ErrorSeverity {
      RaisedExactly(profile, options, bytes, y);
    }
  }

  /**
    The validator's report, for every input: an issue is in it exactly when the rules name it. The report
    is in order, and the answer is a rejection exactly when one of these issues is an error.
  */
  lemma ReportsExactly(profile: Profile, options: Options, bytes: Bytes)
    ensures forall x :: x in Reported(Validate(profile, options, bytes)) <==> HasIssue(profile, options, bytes, x)
    ensures InOrder(Reported(Validate(profile, options, bytes)))
    ensures Validate(profile, options, bytes).Rejected? <==> exists x :: HasIssue(profile, options, bytes, x) && x.severity == ErrorSeverity
  {
    hide Validate;
    hide RaisedIssues;
    hide SortIssues;
    hide HasIssue;
    hide OfSeverity;
    hide InOrder;
    hide HasError;
    var raised, r := RaisedIssues(profile, options, bytes), Validate(profile, options, bytes);
    Answers(profile, options, bytes);
    NoWarning(profile, options, bytes);
    SortedInOrder(raised);
    OfSeverityInOrder(SortIssues(raised), InfoSeverity);
    assert r.Accepted? ==> Reported(r) == r.info;
    RejectedExactly(profile, options, bytes);
    forall x: Issue
      ensures x in Reported(r) <==> HasIssue(profile, options, bytes, x)
    {
      ReportedAt(profile, options, bytes, x);
    }
  }
}
