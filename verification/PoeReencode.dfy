/** An accepted record encodes back to the very bytes it was read from. */
module PoeReencode {
  import opened Common
  import opened Cbor
  import opened CborProofs
  import CborReorder
  import opened KeyOrder
  import opened PoeRecord
  import opened PoeIssues
  import opened PoeValidator
  import opened PoeShape

  // ---------------------------------------------------------------------------
  // What an absence of issues says
  // ---------------------------------------------------------------------------

  predicate Clean(issues: seq<Issue>) {
    !HasError(issues)
  }

  lemma CleanParts(a: seq<Issue>, b: seq<Issue>)
    ensures Clean(a + b) <==> Clean(a) && Clean(b)
  {
    if !Clean(a) {
      var i :| 0 <= i < |a| && a[i].severity == ErrorSeverity;
      assert (a + b)[i] == a[i];
    }
    if !Clean(b) {
      var i :| 0 <= i < |b| && b[i].severity == ErrorSeverity;
      assert (a + b)[|a| + i] == b[i];
    }
  }

  lemma CleanSort(issues: seq<Issue>)
    ensures Clean(SortIssues(issues)) <==> Clean(issues)
  {
    var sorted := SortIssues(issues);
    if !Clean(issues) {
      var i :| 0 <= i < |issues| && issues[i].severity == ErrorSeverity;
      assert issues[i] in multiset(sorted);
    }
    if !Clean(sorted) {
      var i :| 0 <= i < |sorted| && sorted[i].severity == ErrorSeverity;
      assert sorted[i] in multiset(issues);
    }
  }

  lemma CleanWhen(condition: bool, code: Code, path: Path)
    ensures Clean(When(condition, code, path)) <==> !condition || SeverityOf(code) != ErrorSeverity
  {
    assert condition ==> When(condition, code, path)[0] == Raise(code, path);
  }

  lemma CleanRaise(code: Code, path: Path)
    ensures Clean([Raise(code, path)]) <==> SeverityOf(code) != ErrorSeverity
  {
    assert [Raise(code, path)][0] == Raise(code, path);
  }

  lemma {:induction false} WalkEmpty(f: (Value, nat) -> seq<Issue>, entries: seq<Value>, i: nat, k: nat)
    requires i <= k < |entries| && Walk(f, entries, i) == []
    ensures f(entries[k], k) == []
    decreases k - i
  {
    if i < k {
      WalkEmpty(f, entries, i + 1, k);
    }
  }

  lemma {:induction false} WalkClean(f: (Value, nat) -> seq<Issue>, entries: seq<Value>, i: nat, k: nat)
    requires i <= k < |entries| && Clean(Walk(f, entries, i))
    ensures Clean(f(entries[k], k))
    decreases k - i
  {
    CleanParts(f(entries[i], i), Walk(f, entries, i + 1));
    if i < k {
      WalkClean(f, entries, i + 1, k);
    }
  }

  lemma {:induction false} NoUnknownKeys(keys: seq<string>, known: seq<string>, code: Code, base: Path, key: string)
    requires Clean(UnknownKeys(keys, known, code, base)) && SeverityOf(code) == ErrorSeverity && key in keys
    ensures key in known
  {
    CleanParts(When(keys[0] !in known, code, base + [Key(keys[0])]), UnknownKeys(keys[1..], known, code, base));
    CleanWhen(keys[0] !in known, code, base + [Key(keys[0])]);
    if key != keys[0] {
      NoUnknownKeys(keys[1..], known, code, base, key);
    }
  }

  lemma {:induction false} TextKeyAt(pairs: seq<(Value, Value)>, i: nat)
    requires i < |pairs| && pairs[i].0.Text?
    ensures pairs[i].0.text in TextKeys(pairs)
  {
    if i > 0 {
      TextKeyAt(pairs[1..], i - 1);
    }
  }

  /** In a text-keyed map without unknown keys, every key is a known one. */
  lemma KeysKnown(pairs: seq<(Value, Value)>, known: seq<string>, code: Code, base: Path)
    requires TextKeyed(pairs) && Clean(UnknownKeys(TextKeys(pairs), known, code, base)) && SeverityOf(code) == ErrorSeverity
    ensures forall i :: 0 <= i < |pairs| ==> pairs[i].0.text in known
  {
    forall i | 0 <= i < |pairs|
      ensures pairs[i].0.text in known
    {
      TextKeyAt(pairs, i);
      NoUnknownKeys(TextKeys(pairs), known, code, base, pairs[i].0.text);
    }
  }

  // ---------------------------------------------------------------------------
  // Parts that come back exactly
  // ---------------------------------------------------------------------------

  lemma ElementChecked(ok: Value -> bool, base: Path, v: Value, j: nat)
    ensures ElementCheck(ok, base)(v, j) == [] <==> ok(v)
  {
  }

  lemma TextsExact(raw: Option<Value>, base: Path)
    requires Elements(raw, IsText, base) == []
    ensures ListFromCbor(TextFromCbor, raw).Some?
    ensures ArrayOf(TextToCbor, ListFromCbor(TextFromCbor, raw).value) == raw
  {
    if raw.Some? {
      var entries := raw.value.items;
      forall k | 0 <= k < |entries|
        ensures entries[k].Text? && TextFromCbor(entries[k]) == Some(entries[k].text)
      {
        WalkEmpty(ElementCheck(IsText, base), entries, 0, k);
        ElementChecked(IsText, base, entries[k], k);
        assert IsText(entries[k]);
      }
      var texts := Collect(TextFromCbor, entries).value;
      assert Each(TextToCbor, texts) == entries;
    }
  }

  lemma HashPairsCons(h: (string, Bytes), rest: seq<(string, Bytes)>)
    ensures HashPairs([h] + rest) == [(Text(h.0), ByteString(h.1))] + HashPairs(rest)
  {
  }

  lemma ParamPairsCons(p: (string, U64), rest: seq<(string, U64)>)
    ensures ParamPairs([p] + rest) == [(Text(p.0), Unsigned(p.1))] + ParamPairs(rest)
  {
  }

  lemma {:induction false} HashesExact(pairs: seq<(Value, Value)>, base: Path)
    requires TextKeyed(pairs) && SchemaDigests(pairs, base) == []
    ensures HashesFromCbor(pairs).Some? && HashPairs(HashesFromCbor(pairs).value) == pairs
  {
    if pairs != [] {
      HashesExact(pairs[1..], base);
      HashPairsCons((pairs[0].0.text, pairs[0].1.bytes), HashesFromCbor(pairs[1..]).value);
      SplitAt(pairs, 0);
      assert pairs[0..] == pairs;
    }
  }

  lemma {:induction false} ParamsExact(pairs: seq<(Value, Value)>)
    requires forall i :: 0 <= i < |pairs| ==> pairs[i].0.Text? && pairs[i].1.Unsigned?
    ensures ParamsFromCbor(pairs).Some? && ParamPairs(ParamsFromCbor(pairs).value) == pairs
  {
    if pairs != [] {
      ParamsExact(pairs[1..]);
      ParamPairsCons((pairs[0].0.text, pairs[0].1.n), ParamsFromCbor(pairs[1..]).value);
      SplitAt(pairs, 0);
      assert pairs[0..] == pairs;
    }
  }

  lemma Unchanged(p: seq<(Value, Value)>, key: string)
    requires WellFormed(Map(p))
    ensures SameIfAny(Get(p, key), Get(p, key))
  {
    if Has(p, key) {
      FieldWellFormed(p, key);
    }
  }

  /** Elements converted one by one into values that encode alike. */
  lemma ListSame<A>(read: Value -> Option<A>, write: A -> Value, items: seq<Value>)
    requires WellFormed(Array(items))
    requires forall i :: 0 <= i < |items| ==> read(items[i]).Some? && Same(items[i], write(read(items[i]).value))
    ensures ListFromCbor(read, Some(Array(items))).Some?
    ensures SameIfAny(Some(Array(items)), ArrayOf(write, ListFromCbor(read, Some(Array(items))).value))
  {
    hide Same;
    var xs := Collect(read, items).value;
    forall i | 0 <= i < |items|
      ensures Same(items[i], Each(write, xs)[i])
    {
      assert read(items[i]) == Some(xs[i]);
    }
    SameArray(items, Each(write, xs));
  }

  lemma SameArray(x: seq<Value>, y: seq<Value>)
    requires WellFormed(Array(x)) && |x| == |y| && forall i :: 0 <= i < |x| ==> Same(x[i], y[i])
    ensures Same(Array(x), Array(y))
  {
    hide Same;
    hide Encode;
    ArraySame(x, y);
  }

  // ---------------------------------------------------------------------------
  // Slots and passphrases
  // ---------------------------------------------------------------------------

  lemma SlotSame(slot: Value, shape: SlotShape, path: Path)
    requires WellFormed(slot) && slot.Map? && TextKeyed(slot.pairs)
    requires shape.field == "epk" || shape.field == "kem_ct"
    requires Clean(CheckSlotShape(slot.pairs, shape, path))
    ensures SlotFromCbor(slot).Some? && Same(slot, SlotToCbor(SlotFromCbor(slot).value))
  {
    hide Encode;
    hide Get;
    hide Fields;
    hide Same;
    hide WellFormed;
    var p := slot.pairs;
    SlotFacts(p, shape, path);
    var field := Get(p, shape.field);
    var table := [(shape.field, field), ("wrap", Get(p, "wrap"))];
    Unchanged(p, shape.field);
    Unchanged(p, "wrap");
    assert table[0].0 == shape.field && table[1].0 == "wrap";
    assert Fills(p, table);
    FieldsSame(p, table);
  }

  lemma SlotFacts(p: seq<(Value, Value)>, shape: SlotShape, path: Path)
    requires TextKeyed(p) && Clean(CheckSlotShape(p, shape, path))
    requires shape.field == "epk" || shape.field == "kem_ct"
    ensures !Has(p, if shape.field == "epk" then "kem_ct" else "epk")
    ensures AsBytes(Get(p, shape.field)).Some? && |AsBytes(Get(p, shape.field)).value| == shape.fieldLength
    ensures AsBytes(Get(p, "wrap")).Some? && |AsBytes(Get(p, "wrap")).value| == shape.wrapLength
    ensures forall i :: 0 <= i < |p| ==> p[i].0.text == shape.field || p[i].0.text == "wrap"
  {
    hide Get;
    hide HasError;
    var foreign := if shape.field == "epk" then "kem_ct" else "epk";
    var a := When(Has(p, foreign), EncSlotInvalidShape, path + [Key(foreign)]);
    var b := UnknownKeys(TextKeys(p), ["epk", "kem_ct", "wrap"], EncSlotInvalidShape, path);
    var c := match AsBytes(Get(p, shape.field))
      case None => [Raise(EncSlotInvalidShape, path + [Key(shape.field)])]
      case Some(x) => When(|x| != shape.fieldLength, FieldLengthCode(shape), path + [Key(shape.field)]);
    var d := match AsBytes(Get(p, "wrap"))
      case None => [Raise(EncSlotInvalidShape, path + [Key("wrap")])]
      case Some(x) => When(|x| != shape.wrapLength, WrapLengthMismatch, path + [Key("wrap")]);
    CleanParts(a + b + c, d);
    CleanParts(a + b, c);
    CleanParts(a, b);
    CleanWhen(Has(p, foreign), EncSlotInvalidShape, path + [Key(foreign)]);
    KeysKnown(p, ["epk", "kem_ct", "wrap"], EncSlotInvalidShape, path);
    CleanRaise(EncSlotInvalidShape, path + [Key(shape.field)]);
    CleanRaise(EncSlotInvalidShape, path + [Key("wrap")]);
    if AsBytes(Get(p, shape.field)).Some? {
      CleanWhen(|AsBytes(Get(p, shape.field)).value| != shape.fieldLength, FieldLengthCode(shape), path + [Key(shape.field)]);
    }
    if AsBytes(Get(p, "wrap")).Some? {
      CleanWhen(|AsBytes(Get(p, "wrap")).value| != shape.wrapLength, WrapLengthMismatch, path + [Key("wrap")]);
    }
    forall i | 0 <= i < |p|
      ensures p[i].0.text == shape.field || p[i].0.text == "wrap"
    {
      KeyPresent(p, i);
    }
  }

  lemma {:induction false} KeyPresent(p: seq<(Value, Value)>, i: nat)
    requires i < |p| && p[i].0.Text?
    ensures Has(p, p[i].0.text)
  {
    if i > 0 && p[0].0 != p[i].0 {
      KeyPresent(p[1..], i - 1);
    }
  }

  lemma PassphraseSame(options: Options, pp: Value, schemaPath: Path, path: Path)
    requires WellFormed(pp) && pp.Map? && TextKeyed(pp.pairs) && !NonTextKeyMap(Get(pp.pairs, "params"))
    requires SchemaPassphrase(Some(pp), schemaPath) == [] && Clean(CheckPassphrase(options, pp.pairs, path))
    ensures PassphraseFromCbor(pp).Some? && Same(pp, PassphraseToCbor(PassphraseFromCbor(pp).value))
  {
    hide Encode;
    hide Get;
    hide Fields;
    hide Same;
    hide WellFormed;
    hide ParamPairs;
    hide ParamsFromCbor;
    var p := pp.pairs;
    PassphraseFacts(options, p, schemaPath, path);
    var params := Get(p, "params").value.pairs;
    FieldWellFormed(p, "params");
    ParamsExact(params);
    Unchanged(p, "alg");
    Unchanged(p, "salt");
    Unchanged(p, "params");
    var table := [("alg", Get(p, "alg")), ("salt", Get(p, "salt")), ("params", Get(p, "params"))];
    assert table[0].0 == "alg" && table[1].0 == "salt" && table[2].0 == "params";
    FieldsSame(p, table);
  }

  lemma PassphraseFacts(options: Options, p: seq<(Value, Value)>, schemaPath: Path, path: Path)
    requires WellFormed(Map(p)) && TextKeyed(p) && !NonTextKeyMap(Get(p, "params"))
    requires SchemaPassphrase(Some(Map(p)), schemaPath) == [] && Clean(CheckPassphrase(options, p, path))
    ensures AsText(Get(p, "alg")).Some? && AsBytes(Get(p, "salt")).Some?
    ensures Get(p, "params").Some? && Get(p, "params").value.Map?
    ensures var params := Get(p, "params").value.pairs;
      forall i :: 0 <= i < |params| ==> params[i].0.Text? && params[i].1.Unsigned?
    ensures forall i :: 0 <= i < |p| ==> p[i].0.text in ["alg", "salt", "params"]
  {
    hide Get;
    hide HasError;
    hide WellFormed;
    assert UnknownKeys(TextKeys(p), ["alg", "salt", "params"], SchemaUnknownField, schemaPath) == [];
    CleanEmpty();
    KeysKnown(p, ["alg", "salt", "params"], SchemaUnknownField, schemaPath);
    CleanRaise(EncPassphraseAlgUnsupported, path + [Key("alg")]);
    ParamsUnsigned(options, p, path);
  }

  lemma CleanEmpty()
    ensures Clean([])
  {
  }

  /** No error over all the cost parameters is no error over any, and no other key. */
  lemma ParamsClean(c: Option<Ceiling>, params: seq<(Value, Value)>, base: Path)
    requires TextKeyed(params)
    requires Clean(CheckParams(c, params, base))
    ensures Clean(CheckParam(params, "m", 65_536, if c.Some? then Some(c.value.m) else None, base))
    ensures Clean(CheckParam(params, "t", 3, if c.Some? then Some(c.value.t) else None, base))
    ensures Clean(CheckParam(params, "p", 1, if c.Some? then Some(c.value.p) else None, base))
    ensures forall i :: 0 <= i < |params| ==> params[i].0.text in ["m", "t", "p"]
  {
    hide CheckParam;
    hide UnknownKeys;
    hide TextKeys;
    hide HasError;
    var m := CheckParam(params, "m", 65_536, if c.Some? then Some(c.value.m) else None, base);
    var t := CheckParam(params, "t", 3, if c.Some? then Some(c.value.t) else None, base);
    var q := CheckParam(params, "p", 1, if c.Some? then Some(c.value.p) else None, base);
    var u := UnknownKeys(TextKeys(params), ["m", "t", "p"], SchemaUnknownField, base);
    CleanParts(u + m + t, q);
    CleanParts(u + m, t);
    CleanParts(u, m);
    KeysKnown(params, ["m", "t", "p"], SchemaUnknownField, base);
  }

  lemma ParamsUnsigned(options: Options, p: seq<(Value, Value)>, path: Path)
    requires WellFormed(Map(p)) && AsText(Get(p, "alg")) == Some("argon2id")
    requires Get(p, "params").Some? && Get(p, "params").value.Map? && TextKeyed(Get(p, "params").value.pairs)
    requires Clean(CheckPassphrase(options, p, path))
    ensures var params := Get(p, "params").value.pairs;
      forall i :: 0 <= i < |params| ==> params[i].0.Text? && params[i].1.Unsigned?
  {
    hide Get;
    hide HasError;
    hide CheckParam;
    hide Encode;
    hide CheckParams;
    var params := Get(p, "params").value.pairs;
    FieldWellFormed(p, "params");
    MapParts(params);
    var base := path + [Key("params")];
    var c := options.ceiling;
    ParamsClean(c, params, base);
    ParamUnsigned(params, "m", 65_536, if c.Some? then Some(c.value.m) else None, base);
    ParamUnsigned(params, "t", 3, if c.Some? then Some(c.value.t) else None, base);
    ParamUnsigned(params, "p", 1, if c.Some? then Some(c.value.p) else None, base);
    forall i | 0 <= i < |params|
      ensures params[i].1.Unsigned?
    {
      GetAt(params, i, params[i].0.text);
    }
  }

  /** A parameter that raises nothing is an unsigned number between its floor and its ceiling. */
  lemma ParamUnsigned(pairs: seq<(Value, Value)>, name: string, floor: nat, ceiling: Option<nat>, base: Path)
    requires Clean(CheckParam(pairs, name, floor, ceiling, base))
    ensures Has(pairs, name) && Get(pairs, name).value.Unsigned?
    ensures floor <= Get(pairs, name).value.n <= MAX_U32
    ensures ceiling.Some? ==> Get(pairs, name).value.n <= ceiling.value
  {
    hide Get;
    hide HasError;
    var path := base + [Key(name)];
    CleanRaise(SchemaMissingRequired, path);
    CleanRaise(SchemaTypeMismatch, path);
    CleanRaise(EncPassphraseArgon2ParamsTooLow, path);
    var v := Get(pairs, name);
    if v.Some? && v.value.Unsigned? {
      CleanWhen(ceiling.Some? && v.value.n > ceiling.value, EncPassphraseParamsExceedPolicy, path);
    }
  }

  // ---------------------------------------------------------------------------
  // Envelopes
  // ---------------------------------------------------------------------------

  /** What the typed passes establish about an envelope that raises no error. */
  ghost predicate TypedShape(p: seq<(Value, Value)>, options: Options, path: Path) {
    && TextKeyed(p) && IsTyped(p)
    && InteriorKeys(p, path) == [] && SchemaEnvelope(p, path) == [] && Clean(CheckScheme1(options, p, path))
  }

  lemma SchemaParts(p: seq<(Value, Value)>, path: Path)
    requires SchemaEnvelope(p, path) == []
    ensures Get(p, "nonce").Some? && Get(p, "nonce").value.ByteString?
    ensures Get(p, "slots").Some? ==> Get(p, "slots").value.Array?
    ensures WalkArray(SchemaSlot(path + [Key("slots")]), Get(p, "slots")) == []
    ensures Get(p, "slots_mac").Some? ==> Get(p, "slots_mac").value.ByteString? && |Get(p, "slots_mac").value.bytes| == 32
    ensures SchemaPassphrase(Get(p, "passphrase"), path + [Key("passphrase")]) == []
    ensures UnknownKeys(TextKeys(p), ENC_KEYS, SchemaUnknownField, path) == []
  {
    hide Get;
    hide WalkArray;
    hide SchemaPassphrase;
    hide UnknownKeys;
  }

  lemma Scheme1Parts(options: Options, p: seq<(Value, Value)>, path: Path)
    requires Clean(CheckScheme1(options, p, path))
    ensures Clean(CheckNonce(p, path)) && Clean(CheckKeyPath(p, path)) && Clean(CheckAllSlots(options, p, path + [Key("slots")]))
    ensures Get(p, "passphrase").Some? && Get(p, "passphrase").value.Map? ==>
      Clean(CheckPassphrase(options, Get(p, "passphrase").value.pairs, path + [Key("passphrase")]))
  {
    hide Get;
    hide HasError;
    hide CheckNonce;
    hide CheckKeyPath;
    hide CheckAllSlots;
    hide CheckPassphrase;
    var a, b, c := CheckNonce(p, path), CheckKeyPath(p, path), CheckAllSlots(options, p, path + [Key("slots")]);
    var d := match Get(p, "passphrase")
      case Some(Map(pp)) => CheckPassphrase(options, pp, path + [Key("passphrase")])
      case _ => [];
    CleanParts(a + b + c, d);
    CleanParts(a + b, c);
    CleanParts(a, b);
  }

  /** Exactly one key path, complete and alone. */
  lemma KeyPathFacts(p: seq<(Value, Value)>, path: Path)
    requires Clean(CheckKeyPath(p, path))
    ensures Has(p, "slots") <==> !Has(p, "passphrase")
    ensures Has(p, "slots") <==> Has(p, "slots_mac")
    ensures Has(p, "slots") <==> Has(p, "kem")
  {
    hide Has;
    hide HasError;
    var slots, mac, passphrase, kem := Has(p, "slots"), Has(p, "slots_mac"), Has(p, "passphrase"), Has(p, "kem");
    var a := When(passphrase && (slots || mac || kem), EncExclusivityViolation, path);
    var b := When(slots && !mac, EncSlotsMacRequired, path);
    var c := When(mac && !slots, EncSlotsRequired, path);
    var d := When(slots && !kem, EncKemRequired, path);
    var e := When(!slots && !passphrase, EncNoKeyPath, path);
    CleanParts(a + b + c + d, e);
    CleanParts(a + b + c, d);
    CleanParts(a + b, c);
    CleanParts(a, b);
    CleanWhen(passphrase && (slots || mac || kem), EncExclusivityViolation, path);
    CleanWhen(slots && !mac, EncSlotsMacRequired, path);
    CleanWhen(mac && !slots, EncSlotsRequired, path);
    CleanWhen(slots && !kem, EncKemRequired, path);
    CleanWhen(!slots && !passphrase, EncNoKeyPath, path);
  }

  lemma {:induction false} SlotsClean(slots: seq<Value>, shape: SlotShape, j: nat, seen: set<Bytes>, path: Path, k: nat)
    requires j <= k < |slots| && Clean(CheckSlots(slots, shape, j, seen, path)) && slots[k].Map?
    ensures Clean(CheckSlotShape(slots[k].pairs, shape, path + [Index(k)]))
    decreases k - j
  {
    hide CheckSlotShape;
    hide HasError;
    hide Get;
    if slots[j].Map? {
      var slotPath := path + [Index(j)];
      var material := AsBytes(Get(slots[j].pairs, shape.field));
      var a := CheckSlotShape(slots[j].pairs, shape, slotPath);
      var b := When(material.Some? && material.value in seen, EncSlotsDuplicateKemMaterial, slotPath + [Key(shape.field)]);
      var seen' := if material.Some? then seen + {material.value} else seen;
      CleanParts(a + b, CheckSlots(slots, shape, j + 1, seen', path));
      CleanParts(a, b);
      if j < k {
        SlotsClean(slots, shape, j + 1, seen', path, k);
      }
    } else if j < k {
      SlotsClean(slots, shape, j + 1, seen, path, k);
    }
  }

  lemma ShapeFields(kem: string)
    ensures ShapeFor(kem).Some? ==> ShapeFor(kem).value.field in ["epk", "kem_ct"] && ShapeFor(kem).value.wrapLength == 48
  {
  }

  /** Every slot of a typed envelope comes back as it was. */
  lemma SlotsSame(p: seq<(Value, Value)>, options: Options, path: Path)
    requires WellFormed(Map(p)) && TypedShape(p, options, path)
    ensures ListFromCbor(SlotFromCbor, Get(p, "slots")).Some?
    ensures SameIfAny(Get(p, "slots"), ArrayOf(SlotToCbor, ListFromCbor(SlotFromCbor, Get(p, "slots")).value))
  {
    hide Get;
    hide Same;
    hide WellFormed;
    hide HasError;
    hide SchemaEnvelope;
    hide CheckScheme1;
    hide CheckKeyPath;
    hide InteriorKeys;
    hide CheckSlots;
    hide SlotFromCbor;
    hide SlotToCbor;
    SchemaParts(p, path);
    Scheme1Parts(options, p, path);
    KeyPathFacts(p, path);
    if Has(p, "slots") {
      var slots := Get(p, "slots").value.items;
      FieldWellFormed(p, "slots");
      ArrayParts(slots);
      var kem := Get(p, "kem").value.text;
      var shape := ShapeFor(kem).value;
      ShapeFields(kem);
      AllSlotsClean(options, p, path + [Key("slots")]);
      forall k | 0 <= k < |slots|
        ensures SlotFromCbor(slots[k]).Some? && Same(slots[k], SlotToCbor(SlotFromCbor(slots[k]).value))
      {
        SlotIsMap(slots, path, k);
        SlotIsTextKeyed(p, slots, path, k);
        SlotsClean(slots, shape, 0, {}, path + [Key("slots")], k);
        SlotSame(slots[k], shape, path + [Key("slots")] + [Index(k)]);
      }
      ListSame(SlotFromCbor, SlotToCbor, slots);
    }
  }

  lemma AllSlotsClean(options: Options, p: seq<(Value, Value)>, path: Path)
    requires Clean(CheckAllSlots(options, p, path)) && Has(p, "slots") && Get(p, "slots").value.Array?
    requires Has(p, "kem") && Get(p, "kem").value.Text? && ShapeFor(Get(p, "kem").value.text).Some?
    ensures Clean(CheckSlots(Get(p, "slots").value.items, ShapeFor(Get(p, "kem").value.text).value, 0, {}, path))
    ensures 0 < |Get(p, "slots").value.items| <= options.maxSlots
  {
    hide Get;
    hide HasError;
    hide CheckSlots;
    CleanRaise(EncSlotsEmpty, path);
    CleanRaise(EncSlotsTooMany, path);
  }

  lemma SlotIsMap(slots: seq<Value>, path: Path, k: nat)
    requires k < |slots| && Walk(SchemaSlot(path + [Key("slots")]), slots, 0) == []
    ensures slots[k].Map?
  {
    hide Get;
    WalkEmpty(SchemaSlot(path + [Key("slots")]), slots, 0, k);
  }

  lemma SlotIsTextKeyed(p: seq<(Value, Value)>, slots: seq<Value>, path: Path, k: nat)
    requires InteriorKeys(p, path) == [] && Get(p, "slots") == Some(Array(slots)) && k < |slots| && slots[k].Map?
    ensures TextKeyed(slots[k].pairs)
  {
    hide Get;
    assert Walk(SlotKeyGuard(path), slots, 0) == [];
    WalkEmpty(SlotKeyGuard(path), slots, 0, k);
    assert SlotKeyGuard(path)(slots[k], k)
      == When(NonTextKeyMap(Some(slots[k])), SchemaTypeMismatch, path + [Key("slots"), Index(k)]);
  }

  lemma BlockSame(p: seq<(Value, Value)>, options: Options, path: Path)
    requires WellFormed(Map(p)) && TypedShape(p, options, path) && Has(p, "passphrase")
    ensures PassphraseFromCbor(Get(p, "passphrase").value).Some?
    ensures Same(Get(p, "passphrase").value, PassphraseToCbor(PassphraseFromCbor(Get(p, "passphrase").value).value))
  {
    hide Get;
    hide Same;
    hide WellFormed;
    hide HasError;
    hide SchemaEnvelope;
    hide CheckScheme1;
    SchemaParts(p, path);
    Scheme1Parts(options, p, path);
    FieldWellFormed(p, "passphrase");
    var pp := Get(p, "passphrase").value;
    assert pp.Map?;
    BlockKeys(p, path);
    PassphraseSame(options, pp, path + [Key("passphrase")], path + [Key("passphrase")]);
  }

  lemma BlockKeys(p: seq<(Value, Value)>, path: Path)
    requires InteriorKeys(p, path) == [] && Has(p, "passphrase") && Get(p, "passphrase").value.Map?
    ensures TextKeyed(Get(p, "passphrase").value.pairs) && !NonTextKeyMap(Get(Get(p, "passphrase").value.pairs, "params"))
  {
    hide Get;
    hide WalkArray;
  }

  /** The keys of a closed map are names of the table. */
  lemma ClosedKeys(p: seq<(Value, Value)>, table: seq<Field>, names: seq<string>, known: seq<string>, code: Code, base: Path)
    requires TextKeyed(p) && UnknownKeys(TextKeys(p), known, code, base) == [] && SeverityOf(code) == ErrorSeverity
    requires HasNames(table, names) && forall key :: key in known ==> key in names
    ensures forall k :: 0 <= k < |p| ==> p[k].0.Text? && Named(table, p[k].0.text)
  {
    hide Named;
    hide HasNames;
    hide UnknownKeys;
    CleanEmpty();
    KeysKnown(p, known, code, base);
    forall k | 0 <= k < |p|
      ensures p[k].0.Text? && Named(table, p[k].0.text)
    {
      NamedAmong(table, names, p[k].0.text);
    }
  }

  /** Field by field, a typed envelope is carried by the table rebuilt from it. */
  lemma TypedCarried(p: seq<(Value, Value)>, options: Options, path: Path)
    requires WellFormed(Map(p)) && TypedShape(p, options, path)
    ensures Scheme1FromCbor(p).Some?
    ensures var table := EnvelopeTable(Scheme1FromCbor(p).value);
      forall i :: 0 <= i < |table| ==> SameIfAny(Get(p, table[i].0), table[i].1)
  {
    hide Get;
    hide Same;
    hide WellFormed;
    hide HasError;
    hide SchemaEnvelope;
    hide CheckScheme1;
    hide InteriorKeys;
    hide PassphraseFromCbor;
    hide ListFromCbor;
    hide ArrayOf;
    SchemaParts(p, path);
    SlotsSame(p, options, path);
    if Has(p, "passphrase") {
      BlockSame(p, options, path);
    }
    Unchanged(p, "scheme");
    Unchanged(p, "aead");
    Unchanged(p, "nonce");
    Unchanged(p, "kem");
    Unchanged(p, "slots_mac");
  }

  /** A typed envelope comes back as it was. */
  lemma TypedSame(p: seq<(Value, Value)>, options: Options, path: Path)
    requires WellFormed(Map(p)) && TypedShape(p, options, path)
    ensures Scheme1FromCbor(p).Some?
    ensures Same(Map(p), Scheme1ToCbor(Scheme1FromCbor(p).value))
  {
    hide Get;
    hide Same;
    hide WellFormed;
    hide HasError;
    hide Fields;
    hide SchemaEnvelope;
    hide CheckScheme1;
    hide InteriorKeys;
    hide Scheme1FromCbor;
    hide EnvelopeTable;
    SchemaParts(p, path);
    TypedCarried(p, options, path);
    var enc := Scheme1FromCbor(p).value;
    EnvelopeNames(enc);
    ClosedKeys(p, EnvelopeTable(enc), ENC_NAMES, ENC_KEYS, SchemaUnknownField, path);
    FieldsSame(p, EnvelopeTable(enc));
  }

  const ENC_NAMES: seq<string> := ["scheme", "aead", "nonce", "kem", "slots", "slots_mac", "passphrase"]

  lemma EnvelopeNames(enc: Scheme1)
    ensures HasNames(EnvelopeTable(enc), ENC_NAMES) && NamesDistinct(EnvelopeTable(enc))
  {
  }

  predicate HasNames(table: seq<Field>, names: seq<string>) {
    |table| == |names| && forall i :: 0 <= i < |names| ==> table[i].0 == names[i]
  }

  lemma NamedAmong(table: seq<Field>, names: seq<string>, key: string)
    requires HasNames(table, names) && key in names
    ensures Named(table, key)
  {
    var i :| 0 <= i < |names| && names[i] == key;
    assert table[i].0 == key;
  }

  /** What a clean envelope check says of its parts. */
  lemma EncParts(profile: Profile, options: Options, item: seq<(Value, Value)>, enc: Value, path: Path)
    requires Clean(CheckEnc(profile, options, item, enc, path))
    ensures enc.Map? && EnvelopeSize(enc) <= options.maxEnvelopeBytes && Clean(CheckEnvelope(profile, options, enc.pairs, path))
  {
    hide Get;
    hide HasError;
    hide HasContentHash;
    hide EnvelopeSize;
    hide CheckEnvelope;
    var a := When(!HasContentHash(Get(item, "hashes")), EncRequiresContentHash, path);
    CleanParts(a, if !enc.Map? then [Raise(SchemaTypeMismatch, path)]
                  else When(EnvelopeSize(enc) > options.maxEnvelopeBytes, EncEnvelopeTooLarge, path)
                       + CheckEnvelope(profile, options, enc.pairs, path));
    CleanRaise(SchemaTypeMismatch, path);
    if enc.Map? {
      CleanParts(When(EnvelopeSize(enc) > options.maxEnvelopeBytes, EncEnvelopeTooLarge, path),
                 CheckEnvelope(profile, options, enc.pairs, path));
      CleanWhen(EnvelopeSize(enc) > options.maxEnvelopeBytes, EncEnvelopeTooLarge, path);
    }
  }

  /** An envelope that raises no error comes back as it was, typed or opaque. */
  lemma EnvelopeSame(profile: Profile, options: Options, item: seq<(Value, Value)>, enc: Value, path: Path)
    requires WellFormed(enc) && !NonTextKeyMap(Some(enc)) && Clean(CheckEnc(profile, options, item, enc, path))
    ensures EnvelopeFromCbor(enc).Some? && Same(enc, EnvelopeToCbor(EnvelopeFromCbor(enc).value))
  {
    hide Get;
    hide WellFormed;
    hide HasError;
    hide CheckEnvelope;
    hide Scheme1FromCbor;
    hide Scheme1ToCbor;
    hide IsTyped;
    hide CheckEnc;
    EncParts(profile, options, item, enc, path);
    SameItself(enc);
    if IsTyped(enc.pairs) {
      TypedDispatch(profile, options, enc.pairs, path);
      TypedSame(enc.pairs, options, path);
    }
  }

  lemma SameItself(v: Value)
    requires WellFormed(v)
    ensures Same(v, v)
  {
    hide Encode;
  }

  /** An envelope whose identifiers are all supported is held to the typed shape, never read as opaque. */
  lemma TypedDispatch(profile: Profile, options: Options, enc: seq<(Value, Value)>, path: Path)
    requires TextKeyed(enc) && IsTyped(enc) && Clean(CheckEnvelope(profile, options, enc, path))
    ensures TypedShape(enc, options, path)
  {
    hide Get;
    hide HasError;
    hide InteriorKeys;
    hide SchemaEnvelope;
    hide CheckScheme1;
    var aead := AsText(Get(enc, "aead")).value;
    CleanRaise(UnauthenticatedCipherForbidden, path + [Key("aead")]);
    assert UnsupportedIdentifiers(1, Get(enc, "kem"), Get(enc, "aead"), path) == [];
    InteriorErrors(enc, path);
    SchemaErrors(enc, path);
  }

  /** Every issue of the shape passes is an error. */
  ghost predicate AllErrors(issues: seq<Issue>) {
    forall i :: 0 <= i < |issues| ==> issues[i].severity == ErrorSeverity
  }

  lemma ErrorsNotClean(issues: seq<Issue>)
    requires AllErrors(issues)
    ensures Clean(issues) <==> issues == []
  {
    if issues != [] {
      assert issues[0].severity == ErrorSeverity;
    }
  }

  lemma {:induction false} WalkErrors(f: (Value, nat) -> seq<Issue>, entries: seq<Value>, i: nat)
    requires i <= |entries| && forall k :: 0 <= k < |entries| ==> AllErrors(f(entries[k], k))
    ensures AllErrors(Walk(f, entries, i))
    decreases |entries| - i
  {
    if i < |entries| {
      WalkErrors(f, entries, i + 1);
      assert AllErrors(f(entries[i], i));
    }
  }

  lemma {:induction false} UnknownErrors(keys: seq<string>, known: seq<string>, code: Code, base: Path)
    requires SeverityOf(code) == ErrorSeverity
    ensures AllErrors(UnknownKeys(keys, known, code, base))
  {
    if keys != [] {
      UnknownErrors(keys[1..], known, code, base);
    }
  }

  lemma InteriorErrors(enc: seq<(Value, Value)>, path: Path)
    ensures Clean(InteriorKeys(enc, path)) <==> InteriorKeys(enc, path) == []
  {
    hide Get;
    hide HasError;
    var slots := Get(enc, "slots");
    if slots.Some? && slots.value.Array? {
      WalkErrors(SlotKeyGuard(path), slots.value.items, 0);
    }
    ErrorsNotClean(InteriorKeys(enc, path));
  }

  lemma JoinErrors(a: seq<Issue>, b: seq<Issue>)
    requires AllErrors(a) && AllErrors(b)
    ensures AllErrors(a + b)
  {
  }

  lemma FieldErrors(pairs: seq<(Value, Value)>, key: string, ok: Value -> bool, missing: Code, wrong: Code, base: Path)
    requires SeverityOf(missing) == ErrorSeverity && SeverityOf(wrong) == ErrorSeverity
    ensures AllErrors(RequiredField(pairs, key, ok, missing, wrong, base))
    ensures AllErrors(OptionalField(pairs, key, ok, wrong, base))
  {
    hide Get;
  }

  lemma SlotErrors(base: Path, slot: Value, j: nat)
    ensures AllErrors(SchemaSlot(base)(slot, j))
  {
    hide Get;
    hide OptionalField;
    if slot.Map? {
      var path := base + [Index(j)];
      FieldErrors(slot.pairs, "epk", IsBytes, EncSlotInvalidShape, EncSlotInvalidShape, path);
      FieldErrors(slot.pairs, "kem_ct", IsBytes, EncSlotInvalidShape, EncSlotInvalidShape, path);
      FieldErrors(slot.pairs, "wrap", IsBytes, EncSlotInvalidShape, EncSlotInvalidShape, path);
      var a := OptionalField(slot.pairs, "epk", IsBytes, EncSlotInvalidShape, path);
      var b := OptionalField(slot.pairs, "kem_ct", IsBytes, EncSlotInvalidShape, path);
      var c := OptionalField(slot.pairs, "wrap", IsBytes, EncSlotInvalidShape, path);
      assert SchemaSlot(base)(slot, j) == a + b + c;
    } else {
      assert SchemaSlot(base)(slot, j) == [Raise(EncSlotInvalidShape, base + [Index(j)])];
    }
  }

  lemma SaltErrors(raw: Option<Value>, path: Path)
    ensures AllErrors(SchemaSalt(raw, path))
  {
  }

  lemma PassphraseErrors(raw: Option<Value>, path: Path)
    ensures AllErrors(SchemaPassphrase(raw, path))
  {
    hide Get;
    hide RequiredField;
    hide SchemaSalt;
    hide UnknownKeys;
    if raw.Some? && raw.value.Map? {
      var pp := raw.value.pairs;
      var a := RequiredField(pp, "alg", IsText, SchemaMissingRequired, SchemaTypeMismatch, path);
      var b := SchemaSalt(Get(pp, "salt"), path + [Key("salt")]);
      var c := RequiredField(pp, "params", IsMap, SchemaMissingRequired, SchemaTypeMismatch, path);
      var d := UnknownKeys(TextKeys(pp), ["alg", "salt", "params"], SchemaUnknownField, path);
      FieldErrors(pp, "alg", IsText, SchemaMissingRequired, SchemaTypeMismatch, path);
      FieldErrors(pp, "params", IsMap, SchemaMissingRequired, SchemaTypeMismatch, path);
      SaltErrors(Get(pp, "salt"), path + [Key("salt")]);
      UnknownErrors(TextKeys(pp), ["alg", "salt", "params"], SchemaUnknownField, path);
      JoinErrors(a, b);
      JoinErrors(a + b, c);
      JoinErrors(a + b + c, d);
    }
  }

  lemma SchemaErrors(enc: seq<(Value, Value)>, path: Path)
    ensures Clean(SchemaEnvelope(enc, path)) <==> SchemaEnvelope(enc, path) == []
  {
    hide Get;
    hide HasError;
    hide AllErrors;
    hide RequiredField;
    hide OptionalField;
    hide SchemaPassphrase;
    hide UnknownKeys;
    FieldErrors(enc, "aead", IsText, SchemaMissingRequired, SchemaTypeMismatch, path);
    FieldErrors(enc, "kem", IsText, SchemaMissingRequired, SchemaTypeMismatch, path);
    FieldErrors(enc, "nonce", IsBytes, SchemaMissingRequired, SchemaTypeMismatch, path);
    FieldErrors(enc, "slots", IsArray, SchemaMissingRequired, SchemaTypeMismatch, path);
    SlotArrayErrors(Get(enc, "slots"), path + [Key("slots")]);
    PassphraseErrors(Get(enc, "passphrase"), path + [Key("passphrase")]);
    UnknownErrors(TextKeys(enc), ENC_KEYS, SchemaUnknownField, path);
    var a := RequiredField(enc, "aead", IsText, SchemaMissingRequired, SchemaTypeMismatch, path);
    var b := OptionalField(enc, "kem", IsText, SchemaTypeMismatch, path);
    var c := RequiredField(enc, "nonce", IsBytes, SchemaMissingRequired, SchemaTypeMismatch, path);
    var d := OptionalField(enc, "slots", IsArray, SchemaTypeMismatch, path);
    var e := WalkArray(SchemaSlot(path + [Key("slots")]), Get(enc, "slots"));
    var f := SchemaSlotsMac(Get(enc, "slots_mac"), path + [Key("slots_mac")]);
    var g := SchemaPassphrase(Get(enc, "passphrase"), path + [Key("passphrase")]);
    var h := UnknownKeys(TextKeys(enc), ENC_KEYS, SchemaUnknownField, path);
    JoinErrors(a, b);
    JoinErrors(a + b, c);
    JoinErrors(a + b + c, d);
    JoinErrors(a + b + c + d, e);
    JoinErrors(a + b + c + d + e, f);
    JoinErrors(a + b + c + d + e + f, g);
    JoinErrors(a + b + c + d + e + f + g, h);
    ErrorsNotClean(SchemaEnvelope(enc, path));
  }

  lemma SlotArrayErrors(slots: Option<Value>, base: Path)
    ensures AllErrors(WalkArray(SchemaSlot(base), slots))
  {
    if slots.Some? && slots.value.Array? {
      forall k | 0 <= k < |slots.value.items|
        ensures AllErrors(SchemaSlot(base)(slots.value.items[k], k))
      {
        SlotErrors(base, slots.value.items[k], k);
      }
      WalkErrors(SchemaSlot(base), slots.value.items, 0);
    }
  }

  // ---------------------------------------------------------------------------
  // Items, commitments and signatures
  // ---------------------------------------------------------------------------

  lemma ItemParts(profile: Profile, options: Options, p: seq<(Value, Value)>, i: nat)
    requires GuardEntry("items", Map(p), i) == [] && SchemaItem(Map(p), i) == [] && Clean(CheckItem(profile, options, Map(p), i))
    ensures TextKeyed(p) && !NonTextKeyMap(Get(p, "hashes")) && !NonTextKeyMap(Get(p, "enc"))
    ensures Get(p, "hashes").Some? && Get(p, "hashes").value.Map?
    ensures SchemaDigests(Get(p, "hashes").value.pairs, [Key("items"), Index(i), Key("hashes")]) == []
    ensures Elements(Get(p, "uris"), IsText, [Key("items"), Index(i), Key("uris")]) == []
    ensures UnknownKeys(TextKeys(p), ["hashes", "uris", "enc"], SchemaUnknownField, [Key("items"), Index(i)]) == []
    ensures Has(p, "enc") ==> Clean(CheckEnc(profile, options, p, Get(p, "enc").value, [Key("items"), Index(i), Key("enc")]))
    ensures Clean(CheckHashes(Get(p, "hashes"), [Key("items"), Index(i), Key("hashes")]))
    ensures Clean(CheckUris(profile, Get(p, "uris"), [Key("items"), Index(i), Key("uris")]))
  {
    hide Get;
    hide HasError;
    hide CheckEnc;
    hide CheckHashes;
    hide CheckUris;
    hide SchemaDigests;
    hide Elements;
    hide UnknownKeys;
    var base := [Key("items"), Index(i)];
    assert base + [Key("hashes")] == [Key("items"), Index(i), Key("hashes")];
    assert base + [Key("uris")] == [Key("items"), Index(i), Key("uris")];
    assert base + [Key("enc")] == [Key("items"), Index(i), Key("enc")];
    var a, b := CheckHashes(Get(p, "hashes"), base + [Key("hashes")]), CheckUris(profile, Get(p, "uris"), base + [Key("uris")]);
    CleanParts(a + b, match Get(p, "enc")
                      case None => []
                      case Some(enc) => CheckEnc(profile, options, p, enc, base + [Key("enc")]));
    CleanParts(a, b);
  }

  lemma ItemCarried(profile: Profile, options: Options, v: Value, i: nat)
    requires WellFormed(v) && GuardEntry("items", v, i) == [] && SchemaItem(v, i) == [] && Clean(CheckItem(profile, options, v, i))
    ensures v.Map? && ItemFromCbor(v).Some?
    ensures var table := ItemTable(ItemFromCbor(v).value);
      forall k :: 0 <= k < |table| ==> SameIfAny(Get(v.pairs, table[k].0), table[k].1)
  {
    hide Get;
    hide Same;
    hide WellFormed;
    hide HasError;
    hide EnvelopeFromCbor;
    hide EnvelopeToCbor;
    hide HashesFromCbor;
    hide ListFromCbor;
    hide ArrayOf;
    hide CheckItem;
    hide UnknownKeys;
    var p := v.pairs;
    ItemParts(profile, options, p, i);
    HashesExact(Get(p, "hashes").value.pairs, [Key("items"), Index(i), Key("hashes")]);
    TextsExact(Get(p, "uris"), [Key("items"), Index(i), Key("uris")]);
    Unchanged(p, "hashes");
    Unchanged(p, "uris");
    if Has(p, "enc") {
      FieldWellFormed(p, "enc");
      EnvelopeSame(profile, options, p, Get(p, "enc").value, [Key("items"), Index(i), Key("enc")]);
    }
  }

  lemma ItemNames(item: ItemEntry)
    ensures HasNames(ItemTable(item), ["hashes", "uris", "enc"]) && NamesDistinct(ItemTable(item))
  {
  }

  /** An item that raises no error comes back as it was. */
  lemma ItemSame(profile: Profile, options: Options, v: Value, i: nat)
    requires WellFormed(v) && GuardEntry("items", v, i) == [] && SchemaItem(v, i) == [] && Clean(CheckItem(profile, options, v, i))
    ensures ItemFromCbor(v).Some? && Same(v, ItemToCbor(ItemFromCbor(v).value))
  {
    hide Get;
    hide Same;
    hide WellFormed;
    hide HasError;
    hide Fields;
    hide ItemFromCbor;
    hide ItemTable;
    hide CheckItem;
    ItemCarried(profile, options, v, i);
    ItemParts(profile, options, v.pairs, i);
    var table := ItemTable(ItemFromCbor(v).value);
    ItemNames(ItemFromCbor(v).value);
    ClosedKeys(v.pairs, table, ["hashes", "uris", "enc"], ["hashes", "uris", "enc"], SchemaUnknownField, [Key("items"), Index(i)]);
    FieldsSame(v.pairs, table);
  }

  lemma MerkleParts(profile: Profile, p: seq<(Value, Value)>, i: nat)
    requires GuardEntry("merkle", Map(p), i) == [] && SchemaMerkle(Map(p), i) == [] && Clean(CheckMerkle(profile, Map(p), i))
    ensures TextKeyed(p)
    ensures AsText(Get(p, "alg")).Some? && AsBytes(Get(p, "root")).Some?
    ensures Get(p, "leaf_count").Some? && Get(p, "leaf_count").value.Unsigned?
    ensures Elements(Get(p, "uris"), IsText, [Key("merkle"), Index(i), Key("uris")]) == []
    ensures UnknownKeys(TextKeys(p), ["alg", "root", "leaf_count", "uris"], SchemaUnknownField, [Key("merkle"), Index(i)]) == []
    ensures MerkleRootLength(AsText(Get(p, "alg")).value) == Some(|AsBytes(Get(p, "root")).value|)
    ensures 1 <= Get(p, "leaf_count").value.n <= MAX_U32
    ensures Clean(CheckUris(profile, Get(p, "uris"), [Key("merkle"), Index(i), Key("uris")]))
  {
    hide Get;
    hide HasError;
    hide CheckUris;
    hide Elements;
    hide UnknownKeys;
    var base := [Key("merkle"), Index(i)];
    assert base + [Key("uris")] == [Key("merkle"), Index(i), Key("uris")];
    var a := match MerkleRootLength(AsText(Get(p, "alg")).GetOr(""))
      case None => [Raise(UnsupportedMerkleCommitAlg, base + [Key("alg")])]
      case Some(n) =>
        var root := AsBytes(Get(p, "root"));
        When(root.Some? && |root.value| != n, HashDigestLengthMismatch, base + [Key("root")]);
    var b := match Get(p, "leaf_count")
      case Some(Unsigned(n)) => When(!(1 <= n <= MAX_U32), SchemaMerkleLeafCountInvalid, base + [Key("leaf_count")])
      case Some(Negative(_)) => [Raise(SchemaTypeMismatch, base + [Key("leaf_count")])]
      case _ => [];
    CleanParts(a + b, CheckUris(profile, Get(p, "uris"), base + [Key("uris")]));
    CleanParts(a, b);
    CleanRaise(SchemaTypeMismatch, base + [Key("leaf_count")]);
    CleanRaise(UnsupportedMerkleCommitAlg, base + [Key("alg")]);
    var alg, root := AsText(Get(p, "alg")), AsBytes(Get(p, "root"));
    if MerkleRootLength(alg.GetOr("")).Some? && root.Some? {
      CleanWhen(|root.value| != MerkleRootLength(alg.GetOr("")).value, HashDigestLengthMismatch, base + [Key("root")]);
    }
    var n := Get(p, "leaf_count");
    if n.Some? && n.value.Unsigned? {
      CleanWhen(!(1 <= n.value.n <= MAX_U32), SchemaMerkleLeafCountInvalid, base + [Key("leaf_count")]);
    }
  }

  const MERKLE_NAMES: seq<string> := ["alg", "root", "leaf_count", "uris"]

  lemma MerkleCarried(profile: Profile, v: Value, i: nat)
    requires WellFormed(v) && GuardEntry("merkle", v, i) == [] && SchemaMerkle(v, i) == [] && Clean(CheckMerkle(profile, v, i))
    ensures v.Map? && MerkleFromCbor(v).Some?
    ensures var table := MerkleTable(MerkleFromCbor(v).value);
      forall k :: 0 <= k < |table| ==> SameIfAny(Get(v.pairs, table[k].0), table[k].1)
  {
    hide Get;
    hide Same;
    hide WellFormed;
    hide HasError;
    hide ListFromCbor;
    hide ArrayOf;
    hide CheckMerkle;
    hide UnknownKeys;
    var p := v.pairs;
    MerkleParts(profile, p, i);
    TextsExact(Get(p, "uris"), [Key("merkle"), Index(i), Key("uris")]);
    Unchanged(p, "alg");
    Unchanged(p, "root");
    Unchanged(p, "leaf_count");
    Unchanged(p, "uris");
  }

  lemma MerkleNames(commit: MerkleCommit)
    ensures HasNames(MerkleTable(commit), MERKLE_NAMES) && NamesDistinct(MerkleTable(commit))
  {
  }

  /** A commitment that raises no error comes back as it was. */
  lemma MerkleSame(profile: Profile, v: Value, i: nat)
    requires WellFormed(v) && GuardEntry("merkle", v, i) == [] && SchemaMerkle(v, i) == [] && Clean(CheckMerkle(profile, v, i))
    ensures MerkleFromCbor(v).Some? && Same(v, MerkleToCbor(MerkleFromCbor(v).value))
  {
    hide Get;
    hide Same;
    hide WellFormed;
    hide HasError;
    hide Fields;
    hide MerkleFromCbor;
    hide MerkleTable;
    hide CheckMerkle;
    MerkleCarried(profile, v, i);
    MerkleParts(profile, v.pairs, i);
    var table := MerkleTable(MerkleFromCbor(v).value);
    MerkleNames(MerkleFromCbor(v).value);
    ClosedKeys(v.pairs, table, MERKLE_NAMES, MERKLE_NAMES, SchemaUnknownField, [Key("merkle"), Index(i)]);
    FieldsSame(v.pairs, table);
  }

  lemma SigSame(v: Value, i: nat)
    requires WellFormed(v) && GuardEntry("sigs", v, i) == [] && SchemaSig(v, i) == []
    ensures SigFromCbor(v).Some? && Same(v, SigToCbor(SigFromCbor(v).value))
  {
    hide Get;
    hide Same;
    hide WellFormed;
    hide Fields;
    hide UnknownKeys;
    hide HasError;
    assert v.Map?;
    var p := v.pairs;
    CleanEmpty();
    var names := ["cose_sign1", "cose_key"];
    KeysKnown(p, names, SigEntryInvalidShape, [Key("sigs"), Index(i)]);
    Unchanged(p, "cose_sign1");
    Unchanged(p, "cose_key");
    var table := SigTable(SigFromCbor(v).value);
    assert HasNames(table, names);
    forall k | 0 <= k < |p|
      ensures p[k].0.Text? && Named(table, p[k].0.text)
    {
      NamedAmong(table, names, p[k].0.text);
    }
    FieldsSame(p, table);
  }

  // ---------------------------------------------------------------------------
  // The whole record
  // ---------------------------------------------------------------------------

  /** A decoded map on which every pass came out without an error. */
  ghost predicate Passes(profile: Profile, options: Options, m: seq<(Value, Value)>) {
    && WellFormed(Map(m))
    && GuardIssues(Map(m)) == [] && SchemaIssues(m) == [] && Clean(DomainIssues(profile, options, m))
  }

  lemma GuardParts(m: seq<(Value, Value)>)
    requires GuardIssues(Map(m)) == []
    ensures TextKeyed(m)
    ensures WalkArray(GuardField("items"), Get(m, "items")) == []
    ensures WalkArray(GuardField("merkle"), Get(m, "merkle")) == []
    ensures WalkArray(GuardField("sigs"), Get(m, "sigs")) == []
  {
    hide Get;
    hide WalkArray;
  }

  lemma SchemaFacts(m: seq<(Value, Value)>)
    requires SchemaIssues(m) == []
    ensures Get(m, "v") == Some(Unsigned(1))
    ensures Get(m, "items").Some? ==> Get(m, "items").value.Array?
    ensures Get(m, "merkle").Some? ==> Get(m, "merkle").value.Array?
    ensures Get(m, "sigs").Some? ==> Get(m, "sigs").value.Array?
    ensures Get(m, "supersedes").Some? ==> Get(m, "supersedes").value.ByteString? && |Get(m, "supersedes").value.bytes| == 32
    ensures WalkArray(SchemaItem, Get(m, "items")) == []
    ensures WalkArray(SchemaMerkle, Get(m, "merkle")) == []
    ensures WalkArray(SchemaSig, Get(m, "sigs")) == []
    ensures Elements(Get(m, "crit"), IsText, [Key("crit")]) == []
  {
    hide Get;
    hide WalkArray;
    hide Elements;
  }

  lemma DomainParts(profile: Profile, options: Options, m: seq<(Value, Value)>)
    requires Clean(DomainIssues(profile, options, m))
    ensures Clean(WalkArray(CheckItems(profile, options), Get(m, "items")))
    ensures Clean(WalkArray(CheckCommits(profile), Get(m, "merkle")))
    ensures Clean(WalkArray(CheckSig, Get(m, "sigs"))) && !IsEmptyArray(Get(m, "sigs"))
    ensures Clean(CheckTopLevel(profile, TextKeys(m))) && Clean(CheckPresence(m)) && Clean(CheckCrit(m, profile, options))
  {
    hide Get;
    hide HasError;
    hide WalkArray;
    hide CheckPresence;
    hide CheckCrit;
    hide CheckTopLevel;
    var a, b, c := CheckPresence(m), CheckCrit(m, profile, options), CheckTopLevel(profile, TextKeys(m));
    var d, e := WalkArray(CheckItems(profile, options), Get(m, "items")), WalkArray(CheckCommits(profile), Get(m, "merkle"));
    var f := When(IsEmptyArray(Get(m, "sigs")), SchemaTypeMismatch, [Key("sigs")]);
    CleanParts(a + b + c + d + e + f, WalkArray(CheckSig, Get(m, "sigs")));
    CleanParts(a + b + c + d + e, f);
    CleanWhen(IsEmptyArray(Get(m, "sigs")), SchemaTypeMismatch, [Key("sigs")]);
    CleanParts(a + b + c + d, e);
    CleanParts(a + b + c, d);
    CleanParts(a + b, c);
    CleanParts(a, b);
  }

  lemma ItemsSame(profile: Profile, options: Options, m: seq<(Value, Value)>)
    requires Passes(profile, options, m)
    ensures ListFromCbor(ItemFromCbor, Get(m, "items")).Some?
    ensures SameIfAny(Get(m, "items"), ArrayOf(ItemToCbor, ListFromCbor(ItemFromCbor, Get(m, "items")).value))
  {
    hide Get;
    hide Same;
    hide WellFormed;
    hide HasError;
    hide GuardIssues;
    hide SchemaIssues;
    hide DomainIssues;
    hide ItemFromCbor;
    hide ItemToCbor;
    hide SchemaItem;
    hide GuardEntry;
    hide CheckItem;
    hide Walk;
    GuardParts(m);
    SchemaFacts(m);
    DomainParts(profile, options, m);
    if Has(m, "items") {
      var items := Get(m, "items").value.items;
      FieldWellFormed(m, "items");
      ArrayParts(items);
      forall k | 0 <= k < |items|
        ensures ItemFromCbor(items[k]).Some? && Same(items[k], ItemToCbor(ItemFromCbor(items[k]).value))
      {
        WalkEmpty(GuardField("items"), items, 0, k);
        WalkEmpty(SchemaItem, items, 0, k);
        WalkClean(CheckItems(profile, options), items, 0, k);
        assert GuardField("items")(items[k], k) == GuardEntry("items", items[k], k);
        assert CheckItems(profile, options)(items[k], k) == CheckItem(profile, options, items[k], k);
        ItemSame(profile, options, items[k], k);
      }
      ListSame(ItemFromCbor, ItemToCbor, items);
    }
  }

  lemma CommitsSame(profile: Profile, options: Options, m: seq<(Value, Value)>)
    requires Passes(profile, options, m)
    ensures ListFromCbor(MerkleFromCbor, Get(m, "merkle")).Some?
    ensures SameIfAny(Get(m, "merkle"), ArrayOf(MerkleToCbor, ListFromCbor(MerkleFromCbor, Get(m, "merkle")).value))
  {
    hide Get;
    hide Same;
    hide WellFormed;
    hide HasError;
    hide GuardIssues;
    hide SchemaIssues;
    hide DomainIssues;
    hide MerkleFromCbor;
    hide MerkleToCbor;
    hide SchemaMerkle;
    hide GuardEntry;
    hide CheckMerkle;
    hide Walk;
    GuardParts(m);
    SchemaFacts(m);
    DomainParts(profile, options, m);
    if Has(m, "merkle") {
      var commits := Get(m, "merkle").value.items;
      FieldWellFormed(m, "merkle");
      ArrayParts(commits);
      forall k | 0 <= k < |commits|
        ensures MerkleFromCbor(commits[k]).Some? && Same(commits[k], MerkleToCbor(MerkleFromCbor(commits[k]).value))
      {
        WalkEmpty(GuardField("merkle"), commits, 0, k);
        WalkEmpty(SchemaMerkle, commits, 0, k);
        WalkClean(CheckCommits(profile), commits, 0, k);
        assert GuardField("merkle")(commits[k], k) == GuardEntry("merkle", commits[k], k);
        assert CheckCommits(profile)(commits[k], k) == CheckMerkle(profile, commits[k], k);
        MerkleSame(profile, commits[k], k);
      }
      ListSame(MerkleFromCbor, MerkleToCbor, commits);
    }
  }

  lemma SigsSame(profile: Profile, options: Options, m: seq<(Value, Value)>)
    requires Passes(profile, options, m)
    ensures ListFromCbor(SigFromCbor, Get(m, "sigs")).Some?
    ensures SameIfAny(Get(m, "sigs"), ArrayOf(SigToCbor, ListFromCbor(SigFromCbor, Get(m, "sigs")).value))
  {
    hide Get;
    hide Same;
    hide WellFormed;
    hide HasError;
    hide GuardIssues;
    hide SchemaIssues;
    hide DomainIssues;
    hide SigFromCbor;
    hide SigToCbor;
    hide SchemaSig;
    hide GuardEntry;
    hide Walk;
    GuardParts(m);
    SchemaFacts(m);
    if Has(m, "sigs") {
      var sigs := Get(m, "sigs").value.items;
      FieldWellFormed(m, "sigs");
      ArrayParts(sigs);
      forall k | 0 <= k < |sigs|
        ensures SigFromCbor(sigs[k]).Some? && Same(sigs[k], SigToCbor(SigFromCbor(sigs[k]).value))
      {
        WalkEmpty(GuardField("sigs"), sigs, 0, k);
        WalkEmpty(SchemaSig, sigs, 0, k);
        assert GuardField("sigs")(sigs[k], k) == GuardEntry("sigs", sigs[k], k);
        SigSame(sigs[k], k);
      }
      ListSame(SigFromCbor, SigToCbor, sigs);
    }
  }

  /** The extensions are the pairs outside the base keys, in order. */
  lemma {:induction false} ExtensionsListed(m: seq<(Value, Value)>)
    requires TextKeyed(m) && KeysDistinct(m)
    ensures var e := ExtensionsFromCbor(m);
      && (forall i :: 0 <= i < |e| ==> e[i].0 !in BASE_KEYS && Get(m, e[i].0) == Some(e[i].1))
      && (forall i, j :: 0 <= i < j < |e| ==> e[i].0 != e[j].0)
      && (forall k :: 0 <= k < |m| && m[k].0.text !in BASE_KEYS ==> Named(ExtensionFields(e), m[k].0.text))
  {
    if m != [] {
      var tail := m[1..];
      TailDistinct(m);
      ExtensionsListed(tail);
      var e, rest := ExtensionsFromCbor(m), ExtensionsFromCbor(tail);
      var head := if m[0].0.text !in BASE_KEYS then [(m[0].0.text, m[0].1)] else [];
      assert e == head + rest;
      ExtensionsElsewhere(m);
      forall k | 0 <= k < |m| && m[k].0.text !in BASE_KEYS
        ensures Named(ExtensionFields(e), m[k].0.text)
      {
        if k == 0 {
          assert ExtensionFields(e)[0].0 == m[0].0.text;
        } else {
          assert tail[k - 1] == m[k];
          NamedLater(head, rest, m[k].0.text);
        }
      }
    }
  }

  lemma NamedLater(head: seq<(string, Value)>, rest: seq<(string, Value)>, key: string)
    requires Named(ExtensionFields(rest), key)
    ensures Named(ExtensionFields(head + rest), key)
  {
    hide ExtensionFields;
    var i :| 0 <= i < |ExtensionFields(rest)| && ExtensionFields(rest)[i].0 == key;
    assert ExtensionFields(head + rest)[|head| + i].0 == key;
  }

  /** A key of the tail is not the key in front. */
  lemma ExtensionsElsewhere(m: seq<(Value, Value)>)
    requires TextKeyed(m) && KeysDistinct(m) && m != []
    ensures !Has(m[1..], m[0].0.text)
  {
    forall i | 0 <= i < |m[1..]|
      ensures m[1..][i].0 != Text(m[0].0.text)
    {
      assert m[1..][i] == m[i + 1];
    }
    KeyAbsent(m[1..], m[0].0.text);
  }

  lemma {:induction false} KeyAbsent(pairs: seq<(Value, Value)>, key: string)
    requires forall i :: 0 <= i < |pairs| ==> pairs[i].0 != Text(key)
    ensures !Has(pairs, key)
  {
    if pairs != [] {
      KeyAbsent(pairs[1..], key);
    }
  }

  lemma BaseNames(record: Record, includeSigs: bool)
    ensures HasNames(BaseFields(record, includeSigs), BASE_KEYS) && NamesDistinct(BaseFields(record, includeSigs))
  {
  }

  /** A table of base fields followed by fields named otherwise. */
  lemma JoinedNames(base: seq<Field>, ext: seq<Field>, names: seq<string>)
    requires HasNames(base, names) && NamesDistinct(base) && NamesDistinct(ext)
    requires forall i :: 0 <= i < |ext| ==> ext[i].0 !in names
    ensures NamesDistinct(base + ext)
    ensures forall key :: key in names || Named(ext, key) ==> Named(base + ext, key)
  {
    var table := base + ext;
    forall i, j | 0 <= i < j < |table|
      ensures table[i].0 != table[j].0
    {
      if i < |base| <= j {
        assert table[i].0 == names[i] && table[j] == ext[j - |base|];
      }
    }
    forall key | key in names || Named(ext, key)
      ensures Named(table, key)
    {
      if key in names {
        var i :| 0 <= i < |names| && names[i] == key;
        assert table[i].0 == key;
      } else {
        var i :| 0 <= i < |ext| && ext[i].0 == key;
        assert table[|base| + i].0 == key;
      }
    }
  }

  lemma TableNames(m: seq<(Value, Value)>, record: Record, includeSigs: bool)
    requires TextKeyed(m) && KeysDistinct(m) && record.extensions == ExtensionsFromCbor(m)
    ensures var table := BaseFields(record, includeSigs) + ExtensionFields(record.extensions);
      && NamesDistinct(table)
      && forall k :: 0 <= k < |m| ==> Named(table, m[k].0.text)
  {
    hide Get;
    hide BaseFields;
    hide ExtensionsFromCbor;
    hide Named;
    ExtensionsListed(m);
    BaseNames(record, includeSigs);
    JoinedNames(BaseFields(record, includeSigs), ExtensionFields(record.extensions), BASE_KEYS);
  }

  /** Field by field, the reconstructed record carries what was decoded. */
  lemma FieldsCarried(profile: Profile, options: Options, m: seq<(Value, Value)>)
    requires Passes(profile, options, m)
    ensures RecordFromCbor(Map(m)).Some?
    ensures var record := RecordFromCbor(Map(m)).value;
      && record.extensions == ExtensionsFromCbor(m)
      && forall i :: 0 <= i < |BASE_KEYS| ==> SameIfAny(Get(m, BASE_KEYS[i]), BaseFields(record, true)[i].1)
  {
    hide Get;
    hide Same;
    hide WellFormed;
    hide GuardIssues;
    hide SchemaIssues;
    hide DomainIssues;
    hide ListFromCbor;
    hide ArrayOf;
    hide Clean;
    SchemaFacts(m);
    ItemsSame(profile, options, m);
    CommitsSame(profile, options, m);
    SigsSame(profile, options, m);
    TextsExact(Get(m, "crit"), [Key("crit")]);
    Unchanged(m, "v");
    Unchanged(m, "supersedes");
    Unchanged(m, "crit");
  }

  /** The record of a map that passes encodes like the map. */
  lemma RecordSame(profile: Profile, options: Options, m: seq<(Value, Value)>)
    requires Passes(profile, options, m)
    ensures RecordFromCbor(Map(m)).Some?
    ensures Same(Map(m), RecordToCbor(RecordFromCbor(Map(m)).value, true))
  {
    hide Get;
    hide Same;
    hide WellFormed;
    hide GuardIssues;
    hide SchemaIssues;
    hide DomainIssues;
    hide RecordFromCbor;
    hide ExtensionsFromCbor;
    hide BaseFields;
    hide Clean;
    hide Fields;
    GuardParts(m);
    MapParts(m);
    FieldsCarried(profile, options, m);
    var record := RecordFromCbor(Map(m)).value;
    TableNames(m, record, true);
    ExtensionsListed(m);
    BaseNames(record, true);
    var base, ext := BaseFields(record, true), ExtensionFields(record.extensions);
    var table := base + ext;
    forall i | 0 <= i < |table|
      ensures SameIfAny(Get(m, table[i].0), table[i].1)
    {
      if i < |base| {
        assert table[i] == base[i] && table[i].0 == BASE_KEYS[i];
      } else {
        assert table[i] == ext[i - |base|];
        Unchanged(m, table[i].0);
      }
    }
    FieldsSame(m, table);
  }

  /** The pairs without one key. */
  function Without(m: seq<(Value, Value)>, key: string): seq<(Value, Value)> {
    if m == [] then []
    else (if m[0].0 == Text(key) then [] else [m[0]]) + Without(m[1..], key)
  }

  lemma {:induction false} WithoutGets(m: seq<(Value, Value)>, key: string, other: string)
    ensures Get(Without(m, key), other) == if other == key then None else Get(m, other)
  {
    if m != [] {
      WithoutGets(m[1..], key, other);
      var rest := Without(m[1..], key);
      if m[0].0 != Text(key) {
        assert ([m[0]] + rest)[1..] == rest;
      } else {
        assert [] + rest == rest;
      }
    }
  }

  /** Dropping a key leaves pairs of the map. */
  lemma {:induction false} WithoutMembers(m: seq<(Value, Value)>, key: string)
    requires KeysDistinct(m)
    ensures KeysDistinct(Without(m, key)) && |Without(m, key)| <= |m|
    ensures forall i :: 0 <= i < |Without(m, key)| ==> Without(m, key)[i] in m && Without(m, key)[i].0 != Text(key)
  {
    if m != [] {
      TailDistinct(m);
      WithoutMembers(m[1..], key);
      var rest := Without(m[1..], key);
      forall i | 0 <= i < |rest|
        ensures rest[i] in m && rest[i].0 != m[0].0
      {
        var k :| 0 <= k < |m[1..]| && m[1..][k] == rest[i];
        assert m[k + 1] == rest[i];
      }
    }
  }

  lemma WithoutWellFormed(m: seq<(Value, Value)>, key: string)
    requires WellFormed(Map(m)) && TextKeyed(m)
    ensures WellFormed(Map(Without(m, key)))
  {
    hide Encode;
    hide Without;
    MapParts(m);
    WithoutMembers(m, key);
    SubMapEncodes(m, Without(m, key));
  }

  /** Some of an encodable map's pairs, each once, make an encodable map. */
  lemma SubMapEncodes(m: seq<(Value, Value)>, s: seq<(Value, Value)>)
    requires WellFormed(Map(m)) && TextKeyed(m) && KeysDistinct(s) && |s| <= |m|
    requires forall i :: 0 <= i < |s| ==> s[i] in m
    ensures WellFormed(Map(s))
  {
    hide TypeAndArgument;
    MapParts(m);
    forall i | 0 <= i < |s|
      ensures s[i].0.Text? && FitsPair(s[i]) && EncodeKey(s[i]).Ok? && EncodeValue(s[i]).Ok?
    {
      var k :| 0 <= k < |m| && m[k] == s[i];
    }
    PairsEncode(s);
    SubKeysDistinct(s);
  }

  lemma SubKeysDistinct(s: seq<(Value, Value)>)
    requires KeysDistinct(s) && FitsPairs(s) && EncodeKeys(s).Ok? && EncodeValues(s).Ok?
    requires forall i :: 0 <= i < |s| ==> s[i].0.Text?
    ensures !HasDuplicate(EncodeKeys(s).value)
  {
    hide Encode;
    hide Canon;
    hide EncodeKeys;
    hide EncodeKey;
    hide EncodeValues;
    hide HasDuplicate;
    var keys := EncodeKeys(s).value;
    forall i, j | 0 <= i < j < |keys|
      ensures keys[i] != keys[j]
    {
      PairsAt(s, i);
      PairsAt(s, j);
      TextKeysDiffer(s[i], s[j]);
    }
    DuplicateExactly(keys);
  }

  /** Different texts encode differently. */
  lemma TextKeysDiffer(p: (Value, Value), q: (Value, Value))
    requires FitsPair(p) && FitsPair(q) && p.0.Text? && q.0.Text? && EncodeKey(p).Ok? && EncodeKey(q).Ok?
    ensures EncodeKey(p) == EncodeKey(q) ==> p.0 == q.0
  {
    hide Decode;
    DecodeEncode(p.0);
    DecodeEncode(q.0);
  }

  /** The signing body of a record of a map that passes encodes like the map without its signatures. */
  lemma BodySame(profile: Profile, options: Options, m: seq<(Value, Value)>)
    requires Passes(profile, options, m)
    ensures RecordFromCbor(Map(m)).Some?
    ensures Same(Map(Without(m, "sigs")), RecordToCbor(RecordFromCbor(Map(m)).value, false))
  {
    hide Get;
    hide Same;
    hide WellFormed;
    hide GuardIssues;
    hide SchemaIssues;
    hide DomainIssues;
    hide RecordFromCbor;
    hide ExtensionsFromCbor;
    hide Without;
    hide Clean;
    hide Fields;
    GuardParts(m);
    MapParts(m);
    FieldsCarried(profile, options, m);
    var record := RecordFromCbor(Map(m)).value;
    TableNames(m, record, false);
    ExtensionsListed(m);
    WithoutWellFormed(m, "sigs");
    WithoutMembers(m, "sigs");
    var s := Without(m, "sigs");
    var base, ext := BaseFields(record, false), ExtensionFields(record.extensions);
    var table := base + ext;
    forall i | 0 <= i < |table|
      ensures SameIfAny(Get(s, table[i].0), table[i].1)
    {
      WithoutGets(m, "sigs", table[i].0);
      if i < |base| {
        assert table[i] == base[i] && table[i].0 == BASE_KEYS[i];
      } else {
        assert table[i] == ext[i - |base|];
        Unchanged(m, table[i].0);
      }
    }
    SubKeysNamed(m, s, table);
    FieldsSame(s, table);
  }

  lemma SubKeysNamed(m: seq<(Value, Value)>, s: seq<(Value, Value)>, table: seq<Field>)
    requires TextKeyed(m) && forall k :: 0 <= k < |m| ==> Named(table, m[k].0.text)
    requires forall i :: 0 <= i < |s| ==> s[i] in m
    ensures forall i :: 0 <= i < |s| ==> s[i].0.Text? && Named(table, s[i].0.text)
  {
    hide Named;
    forall i | 0 <= i < |s|
      ensures s[i].0.Text? && Named(table, s[i].0.text)
    {
      var k :| 0 <= k < |m| && m[k] == s[i];
    }
  }

  /** What acceptance means for the passes. */
  lemma AcceptedPasses(profile: Profile, options: Options, bytes: Bytes)
    requires Validate(profile, options, bytes).Accepted?
    ensures Decode(bytes).Ok? && Decode(bytes).value.Map?
    ensures Passes(profile, options, Decode(bytes).value.pairs)
    ensures RecordFromCbor(Decode(bytes).value) == Some(Validate(profile, options, bytes).record)
    ensures Encode(Decode(bytes).value) == Ok(bytes)
  {
    hide Decode;
    hide Encode;
    hide GuardIssues;
    hide SchemaIssues;
    hide DomainIssues;
    hide RecordFromCbor;
    DecodeIsEncoding(bytes);
    CleanSort(DomainIssues(profile, options, Decode(bytes).value.pairs));
  }

  /**
    Accepted records re-encode exactly: whatever the bytes, the options and the profile, an accepted
    record encodes to the bytes that were validated, and its signing body to the encoding of the same
    map without its signatures.
  */
  lemma AcceptedReencodes(profile: Profile, options: Options, bytes: Bytes)
    requires Validate(profile, options, bytes).Accepted?
    ensures EncodeRecord(Validate(profile, options, bytes).record) == Ok(bytes)
    ensures Decode(bytes).Ok? && Decode(bytes).value.Map?
    ensures WellFormed(Map(Without(Decode(bytes).value.pairs, "sigs")))
    ensures EncodeBodyForSigning(Validate(profile, options, bytes).record)
         == Encode(Map(Without(Decode(bytes).value.pairs, "sigs")))
  {
    hide Validate;
    hide Passes;
    hide Decode;
    hide Encode;
    hide RecordFromCbor;
    hide RecordToCbor;
    hide Without;
    AcceptedPasses(profile, options, bytes);
    RecordSame(profile, options, Decode(bytes).value.pairs);
    BodySame(profile, options, Decode(bytes).value.pairs);
  }

  /** The reconstruction never fails on a record without errors. */
  lemma ReconstructionTotal(profile: Profile, options: Options, bytes: Bytes)
    requires Decode(bytes).Ok? && Decode(bytes).value.Map?
    requires GuardIssues(Decode(bytes).value) == [] && SchemaIssues(Decode(bytes).value.pairs) == []
    ensures Validate(profile, options, bytes).Accepted? <==> Clean(DomainIssues(profile, options, Decode(bytes).value.pairs))
  {
    hide Decode;
    hide Encode;
    hide GuardIssues;
    hide SchemaIssues;
    hide DomainIssues;
    hide RecordFromCbor;
    DecodeIsEncoding(bytes);
    var m := Decode(bytes).value.pairs;
    CleanSort(DomainIssues(profile, options, m));
    if Clean(DomainIssues(profile, options, m)) {
      RecordSame(profile, options, m);
    }
  }

  /** A record determines the bytes it was accepted from, whichever validator accepted it. */
  lemma AcceptedInjective(profile: Profile, options: Options, bytes: Bytes, profile': Profile, options': Options, bytes': Bytes)
    requires Validate(profile, options, bytes).Accepted? && Validate(profile', options', bytes').Accepted?
    requires Validate(profile, options, bytes).record == Validate(profile', options', bytes').record
    ensures bytes == bytes'
  {
    hide Validate;
    hide EncodeRecord;
    AcceptedReencodes(profile, options, bytes);
    AcceptedReencodes(profile', options', bytes');
  }
}
