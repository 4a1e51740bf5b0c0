/** The encoding of a sound record is accepted: with soundness, acceptance is exactly soundness. */
module PoeComplete {
  import opened Common
  import opened Cbor
  import opened CborProofs
  import opened PoeRecord
  import opened PoeIssues
  import opened PoeValidator
  import opened PoeShape
  import opened PoeReencode
  import opened PoeSpec
  import opened PoeSound

  // ---------------------------------------------------------------------------
  // Where there is nothing to report
  // ---------------------------------------------------------------------------

  lemma {:induction false} WalkNothing(f: (Value, nat) -> seq<Issue>, entries: seq<Value>, i: nat)
    requires i <= |entries| && forall k :: i <= k < |entries| ==> f(entries[k], k) == []
    ensures Walk(f, entries, i) == []
    decreases |entries| - i
  {
    if i < |entries| {
      WalkNothing(f, entries, i + 1);
    }
  }

  lemma {:induction false} WalkAllClean(f: (Value, nat) -> seq<Issue>, entries: seq<Value>, i: nat)
    requires i <= |entries| && forall k :: i <= k < |entries| ==> Clean(f(entries[k], k))
    ensures Clean(Walk(f, entries, i))
    decreases |entries| - i
  {
    hide HasError;
    if i < |entries| {
      WalkAllClean(f, entries, i + 1);
      CleanParts(f(entries[i], i), Walk(f, entries, i + 1));
    } else {
      CleanEmpty();
    }
  }

  lemma {:induction false} KeyListed(pairs: seq<(Value, Value)>, key: string)
    requires key in TextKeys(pairs)
    ensures exists i :: 0 <= i < |pairs| && pairs[i].0 == Text(key)
  {
    if pairs[0].0 == Text(key) {
    } else {
      KeyListed(pairs[1..], key);
      var i :| 0 <= i < |pairs[1..]| && pairs[1..][i].0 == Text(key);
      assert pairs[i + 1].0 == Text(key);
    }
  }

  lemma {:induction false} AllKnown(keys: seq<string>, known: seq<string>, code: Code, base: Path)
    requires forall key :: key in keys ==> key in known
    ensures UnknownKeys(keys, known, code, base) == []
  {
    if keys != [] {
      AllKnown(keys[1..], known, code, base);
    }
  }

  /** A map filled in by a table has no key outside the table's names. */
  lemma FilledClosed(p: seq<(Value, Value)>, table: seq<Field>, names: seq<string>, known: seq<string>, code: Code, base: Path)
    requires Fills(p, table) && HasNames(table, names) && forall key :: key in names ==> key in known
    ensures TextKeyed(p) && UnknownKeys(TextKeys(p), known, code, base) == []
  {
    forall key | key in TextKeys(p)
      ensures key in known
    {
      KeyListed(p, key);
      var k :| 0 <= k < |p| && p[k].0 == Text(key);
      var i :| 0 <= i < |table| && table[i].0 == key;
      assert names[i] == key;
    }
    AllKnown(TextKeys(p), known, code, base);
  }

  /** A field whose value is a leaf, or that is absent, reads as it was written. */
  lemma LeafRead(p: seq<(Value, Value)>, table: seq<Field>, i: nat)
    requires Fills(p, table) && i < |table|
    requires table[i].1.Some? ==> !table[i].1.value.Array? && !table[i].1.value.Map?
    ensures Get(p, table[i].0) == table[i].1
  {
    hide Get;
    hide Same;
    if table[i].1.Some? {
      SameKind(Get(p, table[i].0).value, table[i].1.value);
    }
  }

  /** A field whose value is an array reads as an array, element for element. */
  lemma ListRead<A>(write: A -> Value, raw: Option<Value>, xs: Option<seq<A>>)
    requires SameIfAny(raw, ArrayOf(write, xs))
    ensures raw.Some? <==> xs.Some?
    ensures raw.Some? ==> raw.value.Array? && |raw.value.items| == |xs.value|
    ensures raw.Some? ==> forall k :: 0 <= k < |xs.value| ==> Same(raw.value.items[k], write(xs.value[k]))
  {
    hide Same;
    if xs.Some? {
      SameKind(raw.value, Array(Each(write, xs.value)));
      SameElements(raw.value.items, Each(write, xs.value));
    }
  }

  // ---------------------------------------------------------------------------
  // Slots
  // ---------------------------------------------------------------------------

  lemma SlotFilled(slot: Value, s: Slot, shape: SlotShape)
    requires Same(slot, SlotToCbor(s)) && SoundSlot(s, shape) && (shape.field == "epk" || shape.field == "kem_ct")
    ensures slot.Map? && Fills(slot.pairs, [(shape.field, BytesOf(Material(s))), ("wrap", BytesOf(s.wrap))])
  {
    hide Same;
    hide Fills;
    hide Fields;
    var table := [(shape.field, BytesOf(Material(s))), ("wrap", BytesOf(s.wrap))];
    assert SlotToCbor(s) == Map(Fields(table));
    SameKind(slot, Map(Fields(table)));
    assert table[0].0 == shape.field && table[1].0 == "wrap";
    FieldsFilled(slot.pairs, table);
  }

  lemma SlotAccepted(slot: Value, s: Slot, shape: SlotShape, base: Path, j: nat)
    requires Same(slot, SlotToCbor(s)) && SoundSlot(s, shape) && (shape.field == "epk" || shape.field == "kem_ct")
    ensures slot.Map? && TextKeyed(slot.pairs) && SchemaSlot(base)(slot, j) == []
    ensures CheckSlotShape(slot.pairs, shape, base + [Index(j)]) == []
    ensures AsBytes(Get(slot.pairs, shape.field)) == Material(s)
  {
    hide Get;
    hide Same;
    hide Fills;
    hide SlotToCbor;
    hide UnknownKeys;
    SlotFilled(slot, s, shape);
    var p := slot.pairs;
    var foreign := if shape.field == "epk" then "kem_ct" else "epk";
    var table := [(shape.field, BytesOf(Material(s))), ("wrap", BytesOf(s.wrap))];
    assert table[0].0 == shape.field && table[1].0 == "wrap";
    FilledClosed(p, table, [shape.field, "wrap"], ["epk", "kem_ct", "wrap"], EncSlotInvalidShape, base + [Index(j)]);
    LeafRead(p, table, 0);
    LeafRead(p, table, 1);
    FilledAbsent(p, table, foreign);
  }

  /** What a table does not name is absent. */
  lemma FilledAbsent(p: seq<(Value, Value)>, table: seq<Field>, key: string)
    requires Fills(p, table) && !Named(table, key)
    ensures !Has(p, key)
  {
    hide Get;
    if Has(p, key) {
      var i := Find(p, key);
    }
  }

  lemma {:induction false} SlotsAccepted(slots: seq<Value>, read: seq<Slot>, shape: SlotShape, j: nat, seen: set<Bytes>, path: Path)
    requires j <= |slots| == |read| && MaterialDistinct(read)
    requires forall k :: j <= k < |slots| ==> slots[k].Map? && CheckSlotShape(slots[k].pairs, shape, path + [Index(k)]) == []
    requires forall k :: j <= k < |slots| ==> Material(read[k]).Some? && AsBytes(Get(slots[k].pairs, shape.field)) == Material(read[k])
    requires forall k :: j <= k < |slots| ==> Material(read[k]).value !in seen
    ensures CheckSlots(slots, shape, j, seen, path) == []
    decreases |slots| - j
  {
    hide Get;
    hide CheckSlotShape;
    hide Material;
    if j < |slots| {
      SlotsAccepted(slots, read, shape, j + 1, seen + {Material(read[j]).value}, path);
    }
  }

  // ---------------------------------------------------------------------------
  // Passphrases
  // ---------------------------------------------------------------------------

  /** A sound parameter reads back between its floor and its ceiling. */
  lemma ParamAccepted(q: seq<(Value, Value)>, params: seq<(string, U64)>, name: string, floor: nat, ceiling: Option<nat>, base: Path)
    requires Same(Map(q), Map(ParamPairs(params))) && SoundParam(params, name, floor, ceiling)
    ensures CheckParam(q, name, floor, ceiling, base) == []
  {
    hide Get;
    hide Same;
    var i :| 0 <= i < |params| && params[i].0 == name && floor <= params[i].1 <= MAX_U32
      && (ceiling.Some? ==> params[i].1 <= ceiling.value);
    var pairs := ParamPairs(params);
    SameDistinct(q, pairs);
    SameGet(q, pairs, name);
    GetAt(pairs, i, name);
    SameKind(Get(q, name).value, Unsigned(params[i].1));
  }

  lemma ParamKey(q: seq<(Value, Value)>, params: seq<(string, U64)>, k: nat)
    requires Same(Map(q), Map(ParamPairs(params))) && k < |q|
    ensures exists i :: 0 <= i < |params| && q[k].0 == Text(params[i].0)
  {
    hide Same;
    var there, back := SamePairs(q, ParamPairs(params));
    assert q[k].0 == ParamPairs(params)[there[k]].0;
  }

  lemma ParamKeys(q: seq<(Value, Value)>, params: seq<(string, U64)>, base: Path)
    requires Same(Map(q), Map(ParamPairs(params))) && forall i :: 0 <= i < |params| ==> params[i].0 in ["m", "t", "p"]
    ensures TextKeyed(q) && UnknownKeys(TextKeys(q), ["m", "t", "p"], SchemaUnknownField, base) == []
  {
    hide Same;
    hide UnknownKeys;
    hide TextKeys;
    forall k | 0 <= k < |q|
      ensures q[k].0.Text? && q[k].0.text in ["m", "t", "p"]
    {
      ParamKey(q, params, k);
    }
    forall key | key in TextKeys(q)
      ensures key in ["m", "t", "p"]
    {
      KeyListed(q, key);
      var k :| 0 <= k < |q| && q[k].0 == Text(key);
      assert q[k].0.text == key;
    }
    AllKnown(TextKeys(q), ["m", "t", "p"], SchemaUnknownField, base);
  }

  function PassphraseTable(pp: Passphrase): seq<Field> {
    [("alg", Some(Text(pp.alg))), ("salt", Some(ByteString(pp.salt))), ("params", Some(Map(ParamPairs(pp.params))))]
  }

  lemma PassphraseRead(v: Value, pp: Passphrase, path: Path)
    requires Same(v, PassphraseToCbor(pp))
    ensures v.Map? && TextKeyed(v.pairs) && UnknownKeys(TextKeys(v.pairs), ["alg", "salt", "params"], SchemaUnknownField, path) == []
    ensures Get(v.pairs, "alg") == Some(Text(pp.alg)) && Get(v.pairs, "salt") == Some(ByteString(pp.salt))
    ensures Get(v.pairs, "params").Some? && Get(v.pairs, "params").value.Map?
    ensures Same(Get(v.pairs, "params").value, Map(ParamPairs(pp.params)))
  {
    hide Get;
    hide Same;
    hide Fields;
    hide UnknownKeys;
    var table := PassphraseTable(pp);
    assert PassphraseToCbor(pp) == Map(Fields(table));
    SameKind(v, Map(Fields(table)));
    assert table[0].0 == "alg" && table[1].0 == "salt" && table[2].0 == "params";
    FieldsFilled(v.pairs, table);
    FilledClosed(v.pairs, table, ["alg", "salt", "params"], ["alg", "salt", "params"], SchemaUnknownField, path);
    LeafRead(v.pairs, table, 0);
    LeafRead(v.pairs, table, 1);
    SameKind(Get(v.pairs, "params").value, Map(ParamPairs(pp.params)));
  }

  lemma PassphraseAccepted(v: Value, pp: Passphrase, options: Options, path: Path)
    requires Same(v, PassphraseToCbor(pp)) && SoundPassphrase(pp, options.ceiling)
    ensures v.Map? && TextKeyed(v.pairs) && !NonTextKeyMap(Get(v.pairs, "params"))
    ensures SchemaPassphrase(Some(v), path) == [] && CheckPassphrase(options, v.pairs, path) == []
  {
    hide Get;
    hide Same;
    hide UnknownKeys;
    hide SoundParam;
    hide CheckParam;
    hide PassphraseToCbor;
    PassphraseRead(v, pp, path);
    var q := Get(v.pairs, "params").value.pairs;
    var base := path + [Key("params")];
    var c := options.ceiling;
    ParamKeys(q, pp.params, base);
    ParamAccepted(q, pp.params, "m", 65_536, if c.Some? then Some(c.value.m) else None, base);
    ParamAccepted(q, pp.params, "t", 3, if c.Some? then Some(c.value.t) else None, base);
    ParamAccepted(q, pp.params, "p", 1, if c.Some? then Some(c.value.p) else None, base);
  }

  // ---------------------------------------------------------------------------
  // Envelopes
  // ---------------------------------------------------------------------------

  /** What the map of a typed envelope reads as. */
  lemma Scheme1Read(v: Value, enc: Scheme1, path: Path)
    requires Same(v, Scheme1ToCbor(enc))
    ensures v.Map? && TextKeyed(v.pairs) && UnknownKeys(TextKeys(v.pairs), ENC_KEYS, SchemaUnknownField, path) == []
    ensures Get(v.pairs, "scheme") == Some(Unsigned(enc.scheme)) && Get(v.pairs, "aead") == Some(Text(enc.aead))
    ensures Get(v.pairs, "nonce") == Some(ByteString(enc.nonce))
    ensures Get(v.pairs, "kem") == match enc.kem case None => None case Some(kem) => Some(Text(kem))
    ensures SameIfAny(Get(v.pairs, "slots"), ArrayOf(SlotToCbor, enc.slots))
    ensures Get(v.pairs, "slots_mac") == BytesOf(enc.slotsMac)
    ensures SameIfAny(Get(v.pairs, "passphrase"), match enc.passphrase case None => None case Some(pp) => Some(PassphraseToCbor(pp)))
  {
    hide Get;
    hide Same;
    hide Fields;
    hide UnknownKeys;
    hide ArrayOf;
    hide PassphraseToCbor;
    var table := EnvelopeTable(enc);
    SameKind(v, Map(Fields(table)));
    EnvelopeNames(enc);
    FieldsFilled(v.pairs, table);
    FilledClosed(v.pairs, table, ENC_NAMES, ENC_KEYS, SchemaUnknownField, path);
    assert table[0].0 == "scheme" && table[1].0 == "aead" && table[2].0 == "nonce" && table[3].0 == "kem";
    assert table[4].0 == "slots" && table[5].0 == "slots_mac" && table[6].0 == "passphrase";
    LeafRead(v.pairs, table, 0);
    LeafRead(v.pairs, table, 1);
    LeafRead(v.pairs, table, 2);
    LeafRead(v.pairs, table, 3);
    LeafRead(v.pairs, table, 5);
  }

  /** The slots of a sound envelope raise nothing, in any of the three passes over them. */
  lemma SlotsPass(p: seq<(Value, Value)>, enc: Scheme1, options: Options, path: Path)
    requires SameIfAny(Get(p, "slots"), ArrayOf(SlotToCbor, enc.slots)) && SoundScheme1(enc, options)
    requires Get(p, "kem") == match enc.kem case None => None case Some(kem) => Some(Text(kem))
    ensures WalkArray(SlotKeyGuard(path), Get(p, "slots")) == []
    ensures OptionalField(p, "slots", IsArray, SchemaTypeMismatch, path) == []
    ensures WalkArray(SchemaSlot(path + [Key("slots")]), Get(p, "slots")) == []
    ensures CheckAllSlots(options, p, path + [Key("slots")]) == []
    ensures Has(p, "slots") <==> enc.slots.Some?
  {
    hide Get;
    hide Same;
    hide ArrayOf;
    hide SoundSlot;
    hide SlotToCbor;
    hide CheckSlotShape;
    hide SoundPassphrase;
    hide CheckSlots;
    hide SchemaSlot;
    ListRead(SlotToCbor, Get(p, "slots"), enc.slots);
    if enc.slots.Some? {
      var slots, read := Get(p, "slots").value.items, enc.slots.value;
      var kem := enc.kem.value;
      var shape := ShapeFor(kem).value;
      ShapeFields(kem);
      var base := path + [Key("slots")];
      forall k | 0 <= k < |slots|
        ensures slots[k].Map? && TextKeyed(slots[k].pairs) && SchemaSlot(base)(slots[k], k) == []
        ensures CheckSlotShape(slots[k].pairs, shape, base + [Index(k)]) == []
        ensures Material(read[k]).Some? && AsBytes(Get(slots[k].pairs, shape.field)) == Material(read[k])
        ensures SlotKeyGuard(path)(slots[k], k) == []
      {
        SlotAccepted(slots[k], read[k], shape, base, k);
        SoundHasMaterial(read[k], shape);
      }
      WalkNothing(SlotKeyGuard(path), slots, 0);
      WalkNothing(SchemaSlot(base), slots, 0);
      SlotsAccepted(slots, read, shape, 0, {}, base);
    }
  }

  lemma Scheme1Accepted(v: Value, enc: Scheme1, options: Options, path: Path)
    requires Same(v, Scheme1ToCbor(enc)) && SoundScheme1(enc, options)
    ensures v.Map? && TextKeyed(v.pairs) && IsTyped(v.pairs)
    ensures InteriorKeys(v.pairs, path) == [] && SchemaEnvelope(v.pairs, path) == [] && CheckScheme1(options, v.pairs, path) == []
  {
    hide Get;
    hide Same;
    hide UnknownKeys;
    hide ArrayOf;
    hide Scheme1ToCbor;
    hide PassphraseToCbor;
    hide SoundPassphrase;
    hide CheckPassphrase;
    hide CheckAllSlots;
    hide WalkArray;
    hide SoundSlot;
    Scheme1Read(v, enc, path);
    SlotsPass(v.pairs, enc, options, path);
    var p := v.pairs;
    if enc.passphrase.Some? {
      PassphraseAccepted(Get(p, "passphrase").value, enc.passphrase.value, options, path + [Key("passphrase")]);
    }
  }

  lemma TypedAccepted(profile: Profile, options: Options, v: Value, enc: Scheme1, path: Path)
    requires Same(v, Scheme1ToCbor(enc)) && SoundEnvelope(profile, options, Typed(enc))
    ensures v.Map? && TextKeyed(v.pairs) && CheckEnvelope(profile, options, v.pairs, path) == []
  {
    hide Get;
    hide Same;
    hide UnknownKeys;
    hide ArrayOf;
    hide Scheme1ToCbor;
    hide SoundScheme1;
    hide InteriorKeys;
    hide SchemaEnvelope;
    hide CheckScheme1;
    Scheme1Read(v, enc, path);
    Scheme1Accepted(v, enc, options, path);
    assert UnsupportedIdentifiers(1, Get(v.pairs, "kem"), Get(v.pairs, "aead"), path) == [];
  }

  /** Maps that encode alike name the same scheme, KEM and cipher. */
  lemma OpaqueRead(profile: Profile, options: Options, v: Value, value: Value)
    requires Same(v, value) && SoundOpaque(profile, options, value)
    ensures SoundOpaque(profile, options, v)
  {
    hide Get;
    hide Same;
    SameKind(v, value);
    SameTextKeyed(v.pairs, value.pairs);
    SameField(v.pairs, value.pairs, "scheme");
    SameField(v.pairs, value.pairs, "kem");
    SameField(v.pairs, value.pairs, "aead");
  }

  /** A field read through its type is the same in maps that encode alike. */
  lemma SameField(p: seq<(Value, Value)>, q: seq<(Value, Value)>, key: string)
    requires Same(Map(p), Map(q)) && TextKeyed(q)
    ensures Has(p, key) <==> Has(q, key)
    ensures AsText(Get(p, key)) == AsText(Get(q, key))
    ensures Has(q, key) && !Get(q, key).value.Array? && !Get(q, key).value.Map? ==> Get(p, key) == Get(q, key)
  {
    hide Get;
    hide Same;
    SameGet(p, q, key);
    if Has(q, key) {
      SameKind(Get(p, key).value, Get(q, key).value);
    }
  }

  lemma OpaqueAccepted(profile: Profile, options: Options, v: Value, value: Value, path: Path)
    requires Same(v, value) && SoundEnvelope(profile, options, Opaque(value))
    ensures v.Map? && TextKeyed(v.pairs) && Clean(CheckEnvelope(profile, options, v.pairs, path))
  {
    hide Get;
    hide Same;
    hide InteriorKeys;
    hide SchemaEnvelope;
    hide CheckScheme1;
    hide UnsupportedIdentifiers;
    hide NamesUnsupported;
    OpaqueRead(profile, options, v, value);
    UnsupportedExactly(v.pairs, path);
  }

  lemma EnvelopeAccepted(profile: Profile, options: Options, item: seq<(Value, Value)>, v: Value, enc: Envelope, path: Path)
    requires Same(v, EnvelopeToCbor(enc)) && SoundEnvelope(profile, options, enc) && HasContentHash(Get(item, "hashes"))
    requires EnvelopeSize(EnvelopeToCbor(enc)) <= options.maxEnvelopeBytes
    ensures !NonTextKeyMap(Some(v)) && Clean(CheckEnc(profile, options, item, v, path))
  {
    hide HasError;
    hide Same;
    hide EnvelopeSize;
    hide CheckEnvelope;
    hide HasContentHash;
    hide SoundEnvelope;
    hide Scheme1ToCbor;
    SizeSame(v, EnvelopeToCbor(enc));
    match enc {
      case Typed(typed) => TypedAccepted(profile, options, v, typed, path);
      case Opaque(value) => OpaqueAccepted(profile, options, v, value, path);
    }
    CleanEmpty();
    assert CheckEnc(profile, options, item, v, path) == CheckEnvelope(profile, options, v.pairs, path);
  }

  // ---------------------------------------------------------------------------
  // Items, commitments and signatures
  // ---------------------------------------------------------------------------

  lemma UrisAccepted(profile: Profile, raw: Option<Value>, uris: Option<seq<string>>, base: Path)
    requires SameIfAny(raw, ArrayOf(TextToCbor, uris)) && SoundUris(profile, uris)
    ensures Elements(raw, IsText, base) == [] && CheckUris(profile, raw, base) == []
  {
    hide Same;
    hide ArrayOf;
    ListRead(TextToCbor, raw, uris);
    if uris.Some? {
      var items := raw.value.items;
      forall k | 0 <= k < |items|
        ensures ElementCheck(IsText, base)(items[k], k) == [] && UriCheck(profile, base)(items[k], k) == []
      {
        SameKind(items[k], Text(uris.value[k]));
        assert IsText(items[k]);
        ElementChecked(IsText, base, items[k], k);
      }
      WalkNothing(ElementCheck(IsText, base), items, 0);
      WalkNothing(UriCheck(profile, base), items, 0);
    }
  }

  lemma {:induction false} DigestsAccepted(pairs: seq<(Value, Value)>, base: Path)
    requires forall k :: 0 <= k < |pairs| ==>
      pairs[k].0.Text? && pairs[k].1.ByteString? && HashLength(pairs[k].0.text) == Some(|pairs[k].1.bytes|)
    ensures SchemaDigests(pairs, base) == [] && CheckDigests(pairs, base) == []
  {
    hide HashLength;
    if pairs != [] {
      DigestsAccepted(pairs[1..], base);
    }
  }

  lemma DigestsRead(p: seq<(Value, Value)>, hashes: seq<(string, Bytes)>)
    requires Same(Map(p), Map(HashPairs(hashes))) && SoundHashes(hashes)
    ensures p != []
    ensures forall k :: 0 <= k < |p| ==> p[k].0.Text? && p[k].1.ByteString? && HashLength(p[k].0.text) == Some(|p[k].1.bytes|)
  {
    hide Same;
    hide HashLength;
    var q := HashPairs(hashes);
    var there, back := SamePairs(p, q);
    forall k | 0 <= k < |p|
      ensures p[k].0.Text? && p[k].1.ByteString? && HashLength(p[k].0.text) == Some(|p[k].1.bytes|)
    {
      assert q[there[k]] == (Text(hashes[there[k]].0), ByteString(hashes[there[k]].1));
      SameKind(p[k].1, q[there[k]].1);
    }
  }

  lemma HashesAccepted(v: Value, hashes: seq<(string, Bytes)>, base: Path)
    requires Same(v, Map(HashPairs(hashes))) && SoundHashes(hashes)
    ensures v.Map? && !NonTextKeyMap(Some(v)) && HasContentHash(Some(v))
    ensures SchemaHashes(Some(v), base) == [] && CheckHashes(Some(v), base) == []
  {
    hide Same;
    hide HashLength;
    hide SchemaDigests;
    hide CheckDigests;
    SameKind(v, Map(HashPairs(hashes)));
    DigestsRead(v.pairs, hashes);
    DigestsAccepted(v.pairs, base);
    assert v.pairs[0].0.Text? && HashLength(v.pairs[0].0.text).Some?;
  }

  lemma ItemRead(v: Value, item: ItemEntry, i: nat)
    requires Same(v, ItemToCbor(item))
    ensures v.Map? && TextKeyed(v.pairs)
    ensures UnknownKeys(TextKeys(v.pairs), ["hashes", "uris", "enc"], SchemaUnknownField, [Key("items"), Index(i)]) == []
    ensures Has(v.pairs, "hashes") && Same(Get(v.pairs, "hashes").value, Map(HashPairs(item.hashes)))
    ensures SameIfAny(Get(v.pairs, "uris"), ArrayOf(TextToCbor, item.uris))
    ensures SameIfAny(Get(v.pairs, "enc"), match item.enc case None => None case Some(enc) => Some(EnvelopeToCbor(enc)))
  {
    hide Get;
    hide Same;
    hide Fields;
    hide UnknownKeys;
    hide ArrayOf;
    hide EnvelopeToCbor;
    hide HashPairs;
    var table := ItemTable(item);
    SameKind(v, Map(Fields(table)));
    ItemNames(item);
    FieldsFilled(v.pairs, table);
    FilledClosed(v.pairs, table, ["hashes", "uris", "enc"], ["hashes", "uris", "enc"], SchemaUnknownField, [Key("items"), Index(i)]);
    assert table[0].0 == "hashes" && table[1].0 == "uris" && table[2].0 == "enc";
  }

  lemma ItemAccepted(profile: Profile, options: Options, v: Value, item: ItemEntry, i: nat)
    requires Same(v, ItemToCbor(item)) && SoundItem(profile, options, item)
    ensures GuardEntry("items", v, i) == [] && SchemaItem(v, i) == [] && Clean(CheckItem(profile, options, v, i))
  {
    hide Get;
    hide Same;
    hide HasError;
    hide UnknownKeys;
    hide ArrayOf;
    hide ItemToCbor;
    hide EnvelopeToCbor;
    hide EnvelopeSize;
    hide SoundEnvelope;
    hide SoundHashes;
    hide SoundUris;
    hide SchemaHashes;
    hide CheckHashes;
    hide CheckUris;
    hide CheckEnc;
    hide Elements;
    hide HasContentHash;
    ItemRead(v, item, i);
    var base := [Key("items"), Index(i)];
    HashesAccepted(Get(v.pairs, "hashes").value, item.hashes, base + [Key("hashes")]);
    UrisAccepted(profile, Get(v.pairs, "uris"), item.uris, base + [Key("uris")]);
    CleanEmpty();
    if item.enc.Some? {
      EnvelopeAccepted(profile, options, v.pairs, Get(v.pairs, "enc").value, item.enc.value, base + [Key("enc")]);
      assert CheckItem(profile, options, v, i) == CheckEnc(profile, options, v.pairs, Get(v.pairs, "enc").value, base + [Key("enc")]);
    } else {
      assert CheckItem(profile, options, v, i) == [];
    }
  }

  lemma CommitRead(v: Value, commit: MerkleCommit, i: nat)
    requires Same(v, MerkleToCbor(commit))
    ensures v.Map? && TextKeyed(v.pairs)
    ensures UnknownKeys(TextKeys(v.pairs), ["alg", "root", "leaf_count", "uris"], SchemaUnknownField, [Key("merkle"), Index(i)]) == []
    ensures Get(v.pairs, "alg") == Some(Text(commit.alg)) && Get(v.pairs, "root") == Some(ByteString(commit.root))
    ensures Get(v.pairs, "leaf_count") == Some(Unsigned(commit.leafCount))
    ensures SameIfAny(Get(v.pairs, "uris"), ArrayOf(TextToCbor, commit.uris))
  {
    hide Get;
    hide Same;
    hide Fields;
    hide UnknownKeys;
    hide ArrayOf;
    var table := MerkleTable(commit);
    SameKind(v, Map(Fields(table)));
    MerkleNames(commit);
    FieldsFilled(v.pairs, table);
    FilledClosed(v.pairs, table, MERKLE_NAMES, ["alg", "root", "leaf_count", "uris"], SchemaUnknownField, [Key("merkle"), Index(i)]);
    assert table[0].0 == "alg" && table[1].0 == "root" && table[2].0 == "leaf_count" && table[3].0 == "uris";
    LeafRead(v.pairs, table, 0);
    LeafRead(v.pairs, table, 1);
    LeafRead(v.pairs, table, 2);
  }

  lemma CommitAccepted(profile: Profile, v: Value, commit: MerkleCommit, i: nat)
    requires Same(v, MerkleToCbor(commit)) && SoundCommit(profile, commit)
    ensures GuardEntry("merkle", v, i) == [] && SchemaMerkle(v, i) == [] && CheckMerkle(profile, v, i) == []
  {
    hide Get;
    hide Same;
    hide UnknownKeys;
    hide ArrayOf;
    hide MerkleToCbor;
    hide SoundUris;
    hide CheckUris;
    hide Elements;
    hide MerkleRootLength;
    CommitRead(v, commit, i);
    UrisAccepted(profile, Get(v.pairs, "uris"), commit.uris, [Key("merkle"), Index(i)] + [Key("uris")]);
  }

  lemma SigRead(v: Value, entry: SigEntry, i: nat)
    requires Same(v, SigToCbor(entry))
    ensures v.Map? && TextKeyed(v.pairs)
    ensures UnknownKeys(TextKeys(v.pairs), ["cose_sign1", "cose_key"], SigEntryInvalidShape, [Key("sigs"), Index(i)]) == []
    ensures Get(v.pairs, "cose_sign1") == Some(ByteString(entry.coseSign1)) && Get(v.pairs, "cose_key") == BytesOf(entry.coseKey)
  {
    hide Get;
    hide Same;
    hide Fields;
    hide UnknownKeys;
    var table := SigTable(entry);
    SameKind(v, Map(Fields(table)));
    var names := ["cose_sign1", "cose_key"];
    assert table[0].0 == "cose_sign1" && table[1].0 == "cose_key";
    FieldsFilled(v.pairs, table);
    FilledClosed(v.pairs, table, names, names, SigEntryInvalidShape, [Key("sigs"), Index(i)]);
    LeafRead(v.pairs, table, 0);
    LeafRead(v.pairs, table, 1);
  }

  lemma SigAccepted(v: Value, entry: SigEntry, i: nat)
    requires Same(v, SigToCbor(entry)) && SoundSig(entry)
    ensures GuardEntry("sigs", v, i) == [] && SchemaSig(v, i) == [] && Clean(CheckSig(v, i))
  {
    hide Get;
    hide Same;
    hide HasError;
    hide UnknownKeys;
    hide SigToCbor;
    hide InspectKey;
    hide SignatureStructure;
    hide IntKeyed;
    hide IntValue;
    hide SoundSig;
    SigReading(entry);
    SigRead(v, entry, i);
    var base := [Key("sigs"), Index(i)];
    var (header, payload) := SignatureStructure(entry.coseSign1).value;
    var alg := IntKeyed(header, 1);
    var unsupported := alg.None? || IntValue(alg.value) !in {Some(-8), Some(-19)};
    CleanWhen(unsupported, SignatureUnsupported, base);
    assert CheckSig(v, i) == When(unsupported, SignatureUnsupported, base);
  }

  // ---------------------------------------------------------------------------
  // Records
  // ---------------------------------------------------------------------------

  /** The three passes over the items of a sound record raise no error. */
  lemma ItemsAccepted(profile: Profile, options: Options, raw: Option<Value>, items: Option<seq<ItemEntry>>)
    requires SameIfAny(raw, ArrayOf(ItemToCbor, items)) && SoundItems(profile, options, items)
    ensures if items.Some? then NonEmptyArray(raw) else raw.None?
    ensures WalkArray(GuardField("items"), raw) == [] && WalkArray(SchemaItem, raw) == []
    ensures Clean(WalkArray(CheckItems(profile, options), raw))
  {
    hide Same;
    hide HasError;
    hide ArrayOf;
    hide ItemToCbor;
    hide SoundItem;
    hide GuardEntry;
    hide SchemaItem;
    hide CheckItem;
    ListRead(ItemToCbor, raw, items);
    CleanEmpty();
    if items.Some? {
      var entries := raw.value.items;
      forall k | 0 <= k < |entries|
        ensures GuardField("items")(entries[k], k) == [] && SchemaItem(entries[k], k) == []
        ensures Clean(CheckItems(profile, options)(entries[k], k))
      {
        ItemAccepted(profile, options, entries[k], items.value[k], k);
      }
      WalkNothing(GuardField("items"), entries, 0);
      WalkNothing(SchemaItem, entries, 0);
      WalkAllClean(CheckItems(profile, options), entries, 0);
    }
  }

  lemma CommitsAccepted(profile: Profile, raw: Option<Value>, commits: Option<seq<MerkleCommit>>)
    requires SameIfAny(raw, ArrayOf(MerkleToCbor, commits)) && SoundCommits(profile, commits)
    ensures if commits.Some? then NonEmptyArray(raw) else raw.None?
    ensures WalkArray(GuardField("merkle"), raw) == [] && WalkArray(SchemaMerkle, raw) == []
    ensures WalkArray(CheckCommits(profile), raw) == []
  {
    hide Same;
    hide ArrayOf;
    hide MerkleToCbor;
    hide SoundCommit;
    hide GuardEntry;
    hide SchemaMerkle;
    hide CheckMerkle;
    ListRead(MerkleToCbor, raw, commits);
    if commits.Some? {
      var entries := raw.value.items;
      forall k | 0 <= k < |entries|
        ensures GuardField("merkle")(entries[k], k) == [] && SchemaMerkle(entries[k], k) == []
        ensures CheckCommits(profile)(entries[k], k) == []
      {
        CommitAccepted(profile, entries[k], commits.value[k], k);
      }
      WalkNothing(GuardField("merkle"), entries, 0);
      WalkNothing(SchemaMerkle, entries, 0);
      WalkNothing(CheckCommits(profile), entries, 0);
    }
  }

  lemma SigsAccepted(raw: Option<Value>, sigs: Option<seq<SigEntry>>)
    requires SameIfAny(raw, ArrayOf(SigToCbor, sigs)) && SoundSigs(sigs)
    ensures if sigs.Some? then NonEmptyArray(raw) else raw.None?
    ensures WalkArray(GuardField("sigs"), raw) == [] && WalkArray(SchemaSig, raw) == []
    ensures Clean(WalkArray(CheckSig, raw))
  {
    hide Same;
    hide HasError;
    hide ArrayOf;
    hide SigToCbor;
    hide SoundSig;
    hide GuardEntry;
    hide SchemaSig;
    hide CheckSig;
    ListRead(SigToCbor, raw, sigs);
    CleanEmpty();
    if sigs.Some? {
      var entries := raw.value.items;
      forall k | 0 <= k < |entries|
        ensures GuardField("sigs")(entries[k], k) == [] && SchemaSig(entries[k], k) == []
        ensures Clean(CheckSig(entries[k], k))
      {
        SigAccepted(entries[k], sigs.value[k], k);
      }
      WalkNothing(GuardField("sigs"), entries, 0);
      WalkNothing(SchemaSig, entries, 0);
      WalkAllClean(CheckSig, entries, 0);
    }
  }

  lemma {:induction false} CritNamesAccepted(m: seq<(Value, Value)>, profile: Profile, options: Options, crit: seq<Value>, i: nat, seen: set<string>)
    requires i <= |crit|
    requires forall k :: i <= k < |crit| ==> crit[k].Text? && CriticalName(m, profile, options, crit[k].text) && crit[k].text !in seen
    requires forall k, l :: i <= k < l < |crit| ==> crit[k] != crit[l]
    ensures Clean(CheckCritNames(m, profile, options, crit, i, seen))
    decreases |crit| - i
  {
    hide HasError;
    hide CheckCritName;
    hide CriticalName;
    if i < |crit| {
      var name := crit[i].text;
      CritNameClean(m, profile, options, name, i, seen);
      forall k | i < k < |crit|
        ensures crit[k].text !in seen + {name}
      {
        assert crit[i] != crit[k];
      }
      CritNamesAccepted(m, profile, options, crit, i + 1, seen + {name});
      CleanParts(CheckCritName(m, profile, options, name, i, seen), CheckCritNames(m, profile, options, crit, i + 1, seen + {name}));
    } else {
      CleanEmpty();
    }
  }

  lemma CritAccepted(m: seq<(Value, Value)>, profile: Profile, options: Options, record: Record)
    requires SameIfAny(Get(m, "crit"), ArrayOf(TextToCbor, record.crit)) && SoundCrit(profile, options, record)
    requires forall name :: Extends(record, name) ==> Has(m, name)
    ensures Elements(Get(m, "crit"), IsText, [Key("crit")]) == [] && Clean(CheckCrit(m, profile, options))
  {
    hide Get;
    hide Has;
    hide Same;
    hide HasError;
    hide ArrayOf;
    hide Extends;
    hide CheckCritNames;
    ListRead(TextToCbor, Get(m, "crit"), record.crit);
    CleanEmpty();
    if record.crit.Some? {
      var crit, names := Get(m, "crit").value.items, record.crit.value;
      forall k | 0 <= k < |crit|
        ensures crit[k] == Text(names[k]) && ElementCheck(IsText, [Key("crit")])(crit[k], k) == []
        ensures CriticalName(m, profile, options, names[k])
      {
        SameKind(crit[k], Text(names[k]));
        assert IsText(crit[k]);
        ElementChecked(IsText, [Key("crit")], crit[k], k);
        assert Extends(record, names[k]);
      }
      WalkNothing(ElementCheck(IsText, [Key("crit")]), crit, 0);
      CritNamesAccepted(m, profile, options, crit, 0, {});
    }
  }

  lemma {:induction false} TopLevelAccepted(profile: Profile, keys: seq<string>)
    requires forall key :: key in keys ==> key in BASE_KEYS || profile.extensionKey(key)
    ensures CheckTopLevel(profile, keys) == []
  {
    if keys != [] {
      TopLevelAccepted(profile, keys[1..]);
    }
  }

  lemma {:induction false} FieldsAppend(a: seq<Field>, b: seq<Field>)
    ensures Fields(a + b) == Fields(a) + Fields(b)
  {
    if a == [] {
      assert a + b == b && Fields(a) + Fields(b) == Fields(b);
    } else {
      FieldsAppend(a[1..], b);
      var head := if a[0].1.Some? then [(Text(a[0].0), a[0].1.value)] else [];
      assert (a + b)[0] == a[0] && (a + b)[1..] == a[1..] + b;
      assert Fields(a + b) == head + Fields(a[1..] + b);
      AppendAssociative(head, Fields(a[1..]), Fields(b));
    }
  }

  lemma {:induction false} AllPresent(table: seq<Field>)
    requires forall i :: 0 <= i < |table| ==> table[i].1.Some?
    ensures |Fields(table)| == |table| && forall i :: 0 <= i < |table| ==> Fields(table)[i].0 == Text(table[i].0)
  {
    if table != [] {
      AllPresent(table[1..]);
    }
  }

  /** An encodable record has extensions of distinct names. */
  lemma ExtensionNames(record: Record, includeSigs: bool)
    requires WellFormed(RecordToCbor(record, includeSigs))
    ensures NamesDistinct(ExtensionFields(record.extensions))
  {
    hide WellFormed;
    hide Fields;
    hide BaseFields;
    var base, ext := BaseFields(record, includeSigs), ExtensionFields(record.extensions);
    MapParts(Fields(base + ext));
    FieldsAppend(base, ext);
    AllPresent(ext);
    forall i, j | 0 <= i < j < |ext|
      ensures ext[i].0 != ext[j].0
    {
      var n := |Fields(base)|;
      assert Fields(base + ext)[n + i] == Fields(ext)[i] && Fields(base + ext)[n + j] == Fields(ext)[j];
    }
  }

  /** The map of a record is filled in by its base fields and its extensions. */
  lemma RecordFilled(m: seq<(Value, Value)>, record: Record, profile: Profile)
    requires Same(Map(m), RecordToCbor(record, true)) && SoundExtensions(profile, record.extensions)
    ensures Fills(m, BaseFields(record, true) + ExtensionFields(record.extensions))
  {
    hide Get;
    hide Same;
    hide Fills;
    hide Fields;
    hide BaseFields;
    hide NamesDistinct;
    hide WellFormed;
    SameWellFormed(Map(m), RecordToCbor(record, true));
    ExtensionNames(record, true);
    BaseNames(record, true);
    JoinedNames(BaseFields(record, true), ExtensionFields(record.extensions), BASE_KEYS);
    FieldsFilled(m, BaseFields(record, true) + ExtensionFields(record.extensions));
  }

  /** Every key of the map is a base field or an extension. */
  lemma KeysAllowed(m: seq<(Value, Value)>, base: seq<Field>, extensions: seq<(string, Value)>, profile: Profile)
    requires Fills(m, base + ExtensionFields(extensions)) && HasNames(base, BASE_KEYS) && SoundExtensions(profile, extensions)
    ensures TextKeyed(m) && forall k :: 0 <= k < |m| ==> m[k].0.text in BASE_KEYS || profile.extensionKey(m[k].0.text)
  {
    hide Get;
    hide Same;
    var table := base + ExtensionFields(extensions);
    forall k | 0 <= k < |m|
      ensures m[k].0.text in BASE_KEYS || profile.extensionKey(m[k].0.text)
    {
      var i :| 0 <= i < |table| && table[i].0 == m[k].0.text;
      assert i < |base| ==> base[i].0 == BASE_KEYS[i];
      assert i >= |base| ==> table[i] == ExtensionFields(extensions)[i - |base|];
    }
  }

  lemma BaseFilled(m: seq<(Value, Value)>, base: seq<Field>, ext: seq<Field>, i: nat)
    requires Fills(m, base + ext) && HasNames(base, BASE_KEYS) && i < |BASE_KEYS|
    ensures SameIfAny(Get(m, BASE_KEYS[i]), base[i].1)
  {
    hide Get;
    hide SameIfAny;
    hide Named;
    assert (base + ext)[i] == base[i] && base[i].0 == BASE_KEYS[i];
  }

  lemma ExtensionFilled(m: seq<(Value, Value)>, base: seq<Field>, record: Record, name: string)
    requires Fills(m, base + ExtensionFields(record.extensions)) && Extends(record, name)
    ensures Has(m, name)
  {
    hide Get;
    hide Same;
    hide Named;
    var k :| 0 <= k < |record.extensions| && record.extensions[k].0 == name;
    var table := base + ExtensionFields(record.extensions);
    assert table[|base| + k] == (name, Some(record.extensions[k].1));
  }

  lemma SameWellFormed(a: Value, b: Value)
    requires Same(a, b)
    ensures WellFormed(b)
  {
    hide Encode;
  }

  /** The base fields one by one. */
  lemma RecordRead(m: seq<(Value, Value)>, record: Record, profile: Profile)
    requires Same(Map(m), RecordToCbor(record, true)) && SoundExtensions(profile, record.extensions)
    ensures Get(m, "v") == Some(Unsigned(record.v)) && Get(m, "supersedes") == BytesOf(record.supersedes)
    ensures SameIfAny(Get(m, "items"), ArrayOf(ItemToCbor, record.items))
    ensures SameIfAny(Get(m, "merkle"), ArrayOf(MerkleToCbor, record.merkle))
    ensures SameIfAny(Get(m, "sigs"), ArrayOf(SigToCbor, record.sigs))
    ensures SameIfAny(Get(m, "crit"), ArrayOf(TextToCbor, record.crit))
  {
    hide Get;
    hide Same;
    hide RecordToCbor;
    hide ArrayOf;
    hide Fills;
    RecordFilled(m, record, profile);
    BaseNames(record, true);
    forall i | 0 <= i < 6
      ensures SameIfAny(Get(m, BASE_KEYS[i]), BaseFields(record, true)[i].1)
    {
      BaseFilled(m, BaseFields(record, true), ExtensionFields(record.extensions), i);
    }
    assert BASE_KEYS[0] == "v" && BASE_KEYS[1] == "items" && BASE_KEYS[2] == "merkle";
    assert BASE_KEYS[3] == "supersedes" && BASE_KEYS[4] == "sigs" && BASE_KEYS[5] == "crit";
    SameKind(Get(m, "v").value, Unsigned(record.v));
    if record.supersedes.Some? {
      SameKind(Get(m, "supersedes").value, ByteString(record.supersedes.value));
    }
  }

  /** The map of a sound record raises no error in any pass. */
  lemma RecordAccepted(profile: Profile, options: Options, m: seq<(Value, Value)>, record: Record)
    requires Same(Map(m), RecordToCbor(record, true)) && SoundRecord(profile, options, record)
    ensures GuardIssues(Map(m)) == [] && SchemaIssues(m) == [] && Clean(DomainIssues(profile, options, m))
  {
    hide Get;
    hide Same;
    hide HasError;
    hide RecordToCbor;
    hide ArrayOf;
    hide WalkArray;
    hide Elements;
    hide SoundItems;
    hide SoundCommits;
    hide SoundSigs;
    hide SoundCrit;
    hide CheckPresence;
    hide CheckTopLevel;
    hide CheckCrit;
    hide Fills;
    hide BaseFields;
    hide Extends;
    RecordFilled(m, record, profile);
    BaseNames(record, true);
    KeysAllowed(m, BaseFields(record, true), record.extensions, profile);
    forall name | Extends(record, name)
      ensures Has(m, name)
    {
      ExtensionFilled(m, BaseFields(record, true), record, name);
    }
    RecordRead(m, record, profile);
    ItemsAccepted(profile, options, Get(m, "items"), record.items);
    CommitsAccepted(profile, Get(m, "merkle"), record.merkle);
    SigsAccepted(Get(m, "sigs"), record.sigs);
    CritAccepted(m, profile, options, record);
    PresenceClean(m);
    TopLevelRead(profile, m);
    DomainJoined(profile, options, m);
  }

  lemma TopLevelRead(profile: Profile, m: seq<(Value, Value)>)
    requires TextKeyed(m) && forall k :: 0 <= k < |m| ==> m[k].0.text in BASE_KEYS || profile.extensionKey(m[k].0.text)
    ensures CheckTopLevel(profile, TextKeys(m)) == []
  {
    forall key | key in TextKeys(m)
      ensures key in BASE_KEYS || profile.extensionKey(key)
    {
      KeyListed(m, key);
      var k :| 0 <= k < |m| && m[k].0 == Text(key);
      assert m[k].0.text == key;
    }
    TopLevelAccepted(profile, TextKeys(m));
  }

  lemma DomainJoined(profile: Profile, options: Options, m: seq<(Value, Value)>)
    requires Clean(CheckPresence(m)) && Clean(CheckCrit(m, profile, options)) && CheckTopLevel(profile, TextKeys(m)) == []
    requires Clean(WalkArray(CheckItems(profile, options), Get(m, "items"))) && WalkArray(CheckCommits(profile), Get(m, "merkle")) == []
    requires !IsEmptyArray(Get(m, "sigs")) && Clean(WalkArray(CheckSig, Get(m, "sigs")))
    ensures Clean(DomainIssues(profile, options, m))
  {
    hide Get;
    hide HasError;
    hide WalkArray;
    hide CheckPresence;
    hide CheckCrit;
    hide CheckTopLevel;
    var a, b, c := CheckPresence(m), CheckCrit(m, profile, options), CheckTopLevel(profile, TextKeys(m));
    var d, e := WalkArray(CheckItems(profile, options), Get(m, "items")), WalkArray(CheckCommits(profile), Get(m, "merkle"));
    var f := When(IsEmptyArray(Get(m, "sigs")), SchemaTypeMismatch, [Key("sigs")]);
    CleanEmpty();
    CleanParts(a + b + c + d + e + f, WalkArray(CheckSig, Get(m, "sigs")));
    CleanParts(a + b + c + d + e, f);
    CleanParts(a + b + c + d, e);
    CleanParts(a + b + c, d);
    CleanParts(a + b, c);
    CleanParts(a, b);
  }

  /** Completeness: the encoding of a sound record is accepted. */
  lemma SoundAccepted(profile: Profile, options: Options, record: Record, bytes: Bytes)
    requires SoundRecord(profile, options, record) && EncodeRecord(record) == Ok(bytes)
    ensures Validate(profile, options, bytes).Accepted?
  {
    hide Validate;
    hide SoundRecord;
    hide GuardIssues;
    hide SchemaIssues;
    hide DomainIssues;
    hide Encode;
    hide Decode;
    var w := RecordToCbor(record, true);
    DecodeEncode(w);
    CanonStable(w);
    var m := Canon(w).pairs;
    assert Same(Map(m), w);
    RecordAccepted(profile, options, m, record);
    ReconstructionTotal(profile, options, bytes);
  }

  /**
    The validator decides soundness: the bytes it accepts are exactly the encodings of sound records,
    whatever the bytes, the options and the profile.
  */
  lemma AcceptedExactly(profile: Profile, options: Options, bytes: Bytes)
    ensures Validate(profile, options, bytes).Accepted? <==>
      exists record :: SoundRecord(profile, options, record) && EncodeRecord(record) == Ok(bytes)
  {
    hide Validate;
    hide SoundRecord;
    hide EncodeRecord;
    if Validate(profile, options, bytes).Accepted? {
      AcceptedSound(profile, options, bytes);
      AcceptedReencodes(profile, options, bytes);
    }
    forall record | SoundRecord(profile, options, record) && EncodeRecord(record) == Ok(bytes)
      ensures Validate(profile, options, bytes).Accepted?
    {
      SoundAccepted(profile, options, record, bytes);
    }
  }
}
