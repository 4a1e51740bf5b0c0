/**
  The record validator: a guard on non-text map keys, a schema pass that any issue forecloses, and
  a domain pass that collects issues of every severity.

  Which texts are extension keys, forbidden cipher names and acceptable URIs is a parameter.
*/
module PoeValidator {
  import opened Common
  import opened Cbor
  import opened PoeRecord
  import opened PoeIssues
  import Cose

  // ---------------------------------------------------------------------------
  // Options
  // ---------------------------------------------------------------------------

  datatype Role = Public | RecipientOrStrict

  datatype Ceiling = Ceiling(m: nat, t: nat, p: nat)

  datatype Options = Options(
    supportedCritical: set<string>, role: Role, maxSlots: nat, maxEnvelopeBytes: nat, ceiling: Option<Ceiling>)

  /** The textual predicates of the profile. */
  datatype Profile = Profile(
    extensionKey: string -> bool,
    forbiddenCipher: string -> bool,
    acceptableUri: string -> bool)

  // ---------------------------------------------------------------------------
  // Walking collections
  // ---------------------------------------------------------------------------

  /** The issues of every element, from index `i` on. */
  function Walk(f: (Value, nat) -> seq<Issue>, entries: seq<Value>, i: nat): seq<Issue>
    requires i <= |entries|
    decreases |entries| - i
  {
    if i == |entries| then [] else f(entries[i], i) + Walk(f, entries, i + 1)
  }

  function WalkArray(f: (Value, nat) -> seq<Issue>, v: Option<Value>): seq<Issue> {
    match v
    case Some(Array(entries)) => Walk(f, entries, 0)
    case _ => []
  }

  /** An issue for each text key outside a closed set. */
  function UnknownKeys(keys: seq<string>, known: seq<string>, code: Code, base: Path): seq<Issue> {
    if keys == [] then []
    else When(keys[0] !in known, code, base + [Key(keys[0])]) + UnknownKeys(keys[1..], known, code, base)
  }

  // ---------------------------------------------------------------------------
  // The guard on non-text keys
  // ---------------------------------------------------------------------------

  predicate NonTextKeyMap(v: Option<Value>) {
    v.Some? && v.value.Map? && !TextKeyed(v.value.pairs)
  }

  function GuardEntry(field: string, entry: Value, i: nat): seq<Issue> {
    var path := [Key(field), Index(i)];
    if NonTextKeyMap(Some(entry)) then [Raise(SchemaTypeMismatch, path)]
    else if field != "items" || !entry.Map? then []
    else
      When(NonTextKeyMap(Get(entry.pairs, "hashes")), SchemaTypeMismatch, path + [Key("hashes")])
      + When(NonTextKeyMap(Get(entry.pairs, "enc")), SchemaTypeMismatch, path + [Key("enc")])
  }

  function GuardField(field: string): (Value, nat) -> seq<Issue> {
    (entry: Value, i: nat) => GuardEntry(field, entry, i)
  }

  function GuardIssues(decoded: Value): seq<Issue> {
    if NonTextKeyMap(Some(decoded)) then [Raise(SchemaTypeMismatch, [])]
    else if !decoded.Map? then []
    else
      WalkArray(GuardField("items"), Get(decoded.pairs, "items"))
      + WalkArray(GuardField("merkle"), Get(decoded.pairs, "merkle"))
      + WalkArray(GuardField("sigs"), Get(decoded.pairs, "sigs"))
  }

  // ---------------------------------------------------------------------------
  // The schema pass
  // ---------------------------------------------------------------------------

  /** A field that must be there with one type. */
  function RequiredField(pairs: seq<(Value, Value)>, key: string, ok: Value -> bool, missing: Code, wrong: Code, base: Path): seq<Issue> {
    match Get(pairs, key)
    case None => [Raise(missing, base + [Key(key)])]
    case Some(v) => When(!ok(v), wrong, base + [Key(key)])
  }

  /** A field that, if there, has one type. */
  function OptionalField(pairs: seq<(Value, Value)>, key: string, ok: Value -> bool, wrong: Code, base: Path): seq<Issue> {
    match Get(pairs, key)
    case None => []
    case Some(v) => When(!ok(v), wrong, base + [Key(key)])
  }

  predicate IsText(v: Value) {
    v.Text?
  }

  predicate IsBytes(v: Value) {
    v.ByteString?
  }

  predicate IsInteger(v: Value) {
    v.Unsigned? || v.Negative?
  }

  predicate IsMap(v: Value) {
    v.Map?
  }

  predicate IsArray(v: Value) {
    v.Array?
  }

  function ElementCheck(ok: Value -> bool, base: Path): (Value, nat) -> seq<Issue> {
    (v: Value, j: nat) => When(!ok(v), SchemaTypeMismatch, base + [Index(j)])
  }

  /** An array whose elements have one type. */
  function Elements(raw: Option<Value>, ok: Value -> bool, base: Path): seq<Issue> {
    match raw
    case None => []
    case Some(Array(entries)) => Walk(ElementCheck(ok, base), entries, 0)
    case _ => [Raise(SchemaTypeMismatch, base)]
  }

  function SchemaDigests(pairs: seq<(Value, Value)>, base: Path): seq<Issue> {
    if pairs == [] then []
    else
      When(pairs[0].0.Text? && !pairs[0].1.ByteString?, SchemaTypeMismatch, base + [Key(if pairs[0].0.Text? then pairs[0].0.text else "")])
      + SchemaDigests(pairs[1..], base)
  }

  function SchemaHashes(raw: Option<Value>, base: Path): seq<Issue> {
    match raw
    case None => [Raise(SchemaMissingRequired, base)]
    case Some(Map(pairs)) => SchemaDigests(pairs, base)
    case _ => [Raise(SchemaTypeMismatch, base)]
  }

  function SchemaItem(entry: Value, i: nat): seq<Issue> {
    var base := [Key("items"), Index(i)];
    if !entry.Map? then [Raise(SchemaTypeMismatch, base)]
    else
      SchemaHashes(Get(entry.pairs, "hashes"), base + [Key("hashes")])
      + Elements(Get(entry.pairs, "uris"), IsText, base + [Key("uris")])
      + UnknownKeys(TextKeys(entry.pairs), ["hashes", "uris", "enc"], SchemaUnknownField, base)
  }

  function SchemaMerkle(entry: Value, i: nat): seq<Issue> {
    var base := [Key("merkle"), Index(i)];
    if !entry.Map? then [Raise(SchemaTypeMismatch, base)]
    else
      RequiredField(entry.pairs, "alg", IsText, SchemaMissingRequired, SchemaTypeMismatch, base)
      + RequiredField(entry.pairs, "root", IsBytes, SchemaMissingRequired, SchemaTypeMismatch, base)
      + RequiredField(entry.pairs, "leaf_count", IsInteger, SchemaTypeMismatch, SchemaTypeMismatch, base)
      + Elements(Get(entry.pairs, "uris"), IsText, base + [Key("uris")])
      + UnknownKeys(TextKeys(entry.pairs), ["alg", "root", "leaf_count", "uris"], SchemaUnknownField, base)
  }

  function SchemaSig(entry: Value, i: nat): seq<Issue> {
    var base := [Key("sigs"), Index(i)];
    if !entry.Map? then [Raise(SigEntryInvalidShape, base)]
    else
      RequiredField(entry.pairs, "cose_sign1", IsBytes, SigEntryInvalidShape, SigEntryInvalidShape, base)
      + OptionalField(entry.pairs, "cose_key", IsBytes, SigEntryInvalidShape, base)
      + UnknownKeys(TextKeys(entry.pairs), ["cose_sign1", "cose_key"], SigEntryInvalidShape, base)
  }

  function SchemaSupersedes(raw: Option<Value>): seq<Issue> {
    match raw
    case None => []
    case Some(ByteString(b)) => When(|b| != 32, SupersedesTxInvalidLength, [Key("supersedes")])
    case _ => [Raise(SchemaTypeMismatch, [Key("supersedes")])]
  }

  function SchemaVersion(raw: Option<Value>): seq<Issue> {
    match raw
    case None => [Raise(SchemaMissingRequired, [Key("v")])]
    case Some(v) => When(v != Unsigned(1), SchemaInvalidLiteral, [Key("v")])
  }

  function SchemaIssues(m: seq<(Value, Value)>): seq<Issue> {
    SchemaVersion(Get(m, "v"))
    + OptionalField(m, "items", IsArray, SchemaTypeMismatch, []) + WalkArray(SchemaItem, Get(m, "items"))
    + OptionalField(m, "merkle", IsArray, SchemaTypeMismatch, []) + WalkArray(SchemaMerkle, Get(m, "merkle"))
    + SchemaSupersedes(Get(m, "supersedes"))
    + OptionalField(m, "sigs", IsArray, SchemaTypeMismatch, []) + WalkArray(SchemaSig, Get(m, "sigs"))
    + Elements(Get(m, "crit"), IsText, [Key("crit")])
  }

  // ---------------------------------------------------------------------------
  // The domain pass: commitments and extensions
  // ---------------------------------------------------------------------------

  predicate IsEmptyArray(v: Option<Value>) {
    v == Some(Array([]))
  }

  predicate NonEmptyArray(v: Option<Value>) {
    v.Some? && v.value.Array? && v.value.items != []
  }

  function CheckPresence(m: seq<(Value, Value)>): seq<Issue> {
    if !NonEmptyArray(Get(m, "items")) && !NonEmptyArray(Get(m, "merkle")) then [Raise(SchemaEmptyRecord, [])]
    else
      When(IsEmptyArray(Get(m, "items")), SchemaTypeMismatch, [Key("items")])
      + When(IsEmptyArray(Get(m, "merkle")), SchemaTypeMismatch, [Key("merkle")])
  }

  function CheckCritName(m: seq<(Value, Value)>, profile: Profile, options: Options, name: string, i: nat, seen: set<string>): seq<Issue> {
    var path := [Key("crit"), Index(i)];
    if name in BASE_KEYS || !profile.extensionKey(name) || !Has(m, name) || name in seen then [Raise(CritShapeInvalid, path)]
    else When(name !in options.supportedCritical, ExtensionUnsupportedCritical, path)
  }

  function CheckCritNames(m: seq<(Value, Value)>, profile: Profile, options: Options, crit: seq<Value>, i: nat, seen: set<string>): seq<Issue>
    requires i <= |crit|
    decreases |crit| - i
  {
    if i == |crit| then []
    else if !crit[i].Text? then CheckCritNames(m, profile, options, crit, i + 1, seen)
    else
      CheckCritName(m, profile, options, crit[i].text, i, seen)
      + CheckCritNames(m, profile, options, crit, i + 1, seen + {crit[i].text})
  }

  function CheckCrit(m: seq<(Value, Value)>, profile: Profile, options: Options): seq<Issue> {
    match Get(m, "crit")
    case Some(Array(crit)) =>
      if crit == [] then [Raise(SchemaTypeMismatch, [Key("crit")])] else CheckCritNames(m, profile, options, crit, 0, {})
    case _ => []
  }

  function CheckTopLevel(profile: Profile, keys: seq<string>): seq<Issue> {
    if keys == [] then []
    else
      When(keys[0] !in BASE_KEYS && !profile.extensionKey(keys[0]), SchemaUnknownField, [Key(keys[0])])
      + CheckTopLevel(profile, keys[1..])
  }

  // ---------------------------------------------------------------------------
  // The domain pass: items
  // ---------------------------------------------------------------------------

  function CheckDigests(pairs: seq<(Value, Value)>, base: Path): seq<Issue> {
    if pairs == [] then []
    else
      (match pairs[0]
       case (Text(alg), ByteString(digest)) =>
         (match HashLength(alg)
          case None => [Raise(UnsupportedHashAlg, base + [Key(alg)])]
          case Some(n) => When(|digest| != n, HashDigestLengthMismatch, base + [Key(alg)]))
       case _ => [])
      + CheckDigests(pairs[1..], base)
  }

  function CheckHashes(raw: Option<Value>, base: Path): seq<Issue> {
    match raw
    case Some(Map(pairs)) => if pairs == [] then [Raise(SchemaTypeMismatch, base)] else CheckDigests(pairs, base)
    case _ => []
  }

  function UriCheck(profile: Profile, base: Path): (Value, nat) -> seq<Issue> {
    (v: Value, j: nat) => When(v.Text? && !profile.acceptableUri(v.text), InvalidUri, base + [Index(j)])
  }

  function CheckUris(profile: Profile, raw: Option<Value>, base: Path): seq<Issue> {
    match raw
    case Some(Array(uris)) =>
      if uris == [] then [Raise(SchemaTypeMismatch, base)]
      else Walk(UriCheck(profile, base), uris, 0)
    case _ => []
  }

  function CheckItem(profile: Profile, options: Options, item: Value, i: nat): seq<Issue> {
    if !item.Map? then []
    else
      var base := [Key("items"), Index(i)];
      CheckHashes(Get(item.pairs, "hashes"), base + [Key("hashes")])
      + CheckUris(profile, Get(item.pairs, "uris"), base + [Key("uris")])
      + (match Get(item.pairs, "enc")
         case None => []
         case Some(enc) => CheckEnc(profile, options, item.pairs, enc, base + [Key("enc")]))
  }

  function CheckItems(profile: Profile, options: Options): (Value, nat) -> seq<Issue> {
    (item: Value, i: nat) => CheckItem(profile, options, item, i)
  }

  // ---------------------------------------------------------------------------
  // The domain pass: encryption envelopes
  // ---------------------------------------------------------------------------

  predicate HasContentHash(raw: Option<Value>) {
    match raw
    case Some(Map(pairs)) => exists i :: 0 <= i < |pairs| && pairs[i].0.Text? && HashLength(pairs[i].0.text).Some?
    case _ => false
  }

  function EnvelopeSize(enc: Value): nat {
    match TryEncode(enc)
    case Ok(bytes) => |bytes|
    case Err(_) => 0
  }

  /** The identifiers an envelope names that are not supported, as the issues the strict reading raises for them. */
  function UnsupportedIdentifiers(scheme: U64, kem: Option<Value>, aead: Option<Value>, path: Path): seq<Issue> {
    When(scheme != 1, UnsupportedEnvelopeScheme, path + [Key("scheme")])
    + When(AsText(kem).Some? && ShapeFor(AsText(kem).value).None?, UnsupportedKemAlg, path + [Key("kem")])
    + When(AsText(aead).Some? && NonceLength(AsText(aead).value).None?, UnsupportedAeadAlg, path + [Key("aead")])
  }

  function CheckEnc(profile: Profile, options: Options, item: seq<(Value, Value)>, enc: Value, path: Path): seq<Issue> {
    When(!HasContentHash(Get(item, "hashes")), EncRequiresContentHash, path)
    + (if !enc.Map? then [Raise(SchemaTypeMismatch, path)]
       else
         When(EnvelopeSize(enc) > options.maxEnvelopeBytes, EncEnvelopeTooLarge, path)
         + CheckEnvelope(profile, options, enc.pairs, path))
  }

  function CheckEnvelope(profile: Profile, options: Options, enc: seq<(Value, Value)>, path: Path): seq<Issue> {
    match Get(enc, "scheme")
    case None => [Raise(SchemaMissingRequired, path + [Key("scheme")])]
    case Some(Unsigned(scheme)) =>
      var kem, aead := Get(enc, "kem"), Get(enc, "aead");
      if AsText(aead).Some? && profile.forbiddenCipher(AsText(aead).value) then
        [Raise(UnauthenticatedCipherForbidden, path + [Key("aead")])]
      else
        var unsupported := UnsupportedIdentifiers(scheme, kem, aead, path);
        if unsupported != [] then
          (match options.role
           case RecipientOrStrict => [Issue(path, EncUnsupported, ErrorSeverity)] + unsupported
           case Public => [Issue(path, EncUnsupported, InfoSeverity)])
        else
          var interior := InteriorKeys(enc, path);
          if interior != [] then interior
          else
            var shape := SchemaEnvelope(enc, path);
            if shape != [] then shape else CheckScheme1(options, enc, path)
    case _ => [Raise(SchemaTypeMismatch, path + [Key("scheme")])]
  }

  function SlotKeyGuard(path: Path): (Value, nat) -> seq<Issue> {
    (slot: Value, j: nat) => When(NonTextKeyMap(Some(slot)), SchemaTypeMismatch, path + [Key("slots"), Index(j)])
  }

  /** Non-text keys inside a typed envelope: its slots, its passphrase block, and that block's parameters. */
  function InteriorKeys(enc: seq<(Value, Value)>, path: Path): seq<Issue> {
    WalkArray(SlotKeyGuard(path), Get(enc, "slots"))
    + (match Get(enc, "passphrase")
       case None => []
       case Some(pp) =>
         if NonTextKeyMap(Some(pp)) then [Raise(SchemaTypeMismatch, path + [Key("passphrase")])]
         else When(pp.Map? && NonTextKeyMap(Get(pp.pairs, "params")), SchemaTypeMismatch, path + [Key("passphrase"), Key("params")]))
  }

  function SchemaSlot(base: Path): (Value, nat) -> seq<Issue> {
    (slot: Value, j: nat) =>
      if !slot.Map? then [Raise(EncSlotInvalidShape, base + [Index(j)])]
      else
        OptionalField(slot.pairs, "epk", IsBytes, EncSlotInvalidShape, base + [Index(j)])
        + OptionalField(slot.pairs, "kem_ct", IsBytes, EncSlotInvalidShape, base + [Index(j)])
        + OptionalField(slot.pairs, "wrap", IsBytes, EncSlotInvalidShape, base + [Index(j)])
  }

  function SchemaSlotsMac(raw: Option<Value>, path: Path): seq<Issue> {
    match raw
    case None => []
    case Some(ByteString(mac)) => When(|mac| != 32, EncSlotsMacInvalidLength, path)
    case _ => [Raise(SchemaTypeMismatch, path)]
  }

  function SchemaSalt(raw: Option<Value>, path: Path): seq<Issue> {
    match raw
    case Some(ByteString(salt)) =>
      When(|salt| < 16, EncPassphraseSaltTooShort, path) + When(|salt| > 64, EncPassphraseSaltTooLong, path)
    case _ => [Raise(SchemaTypeMismatch, path)]
  }

  function SchemaPassphrase(raw: Option<Value>, path: Path): seq<Issue> {
    match raw
    case None => []
    case Some(Map(pp)) =>
      RequiredField(pp, "alg", IsText, SchemaMissingRequired, SchemaTypeMismatch, path)
      + SchemaSalt(Get(pp, "salt"), path + [Key("salt")])
      + RequiredField(pp, "params", IsMap, SchemaMissingRequired, SchemaTypeMismatch, path)
      + UnknownKeys(TextKeys(pp), ["alg", "salt", "params"], SchemaUnknownField, path)
    case _ => [Raise(SchemaTypeMismatch, path)]
  }

  const ENC_KEYS: seq<string> := ["scheme", "aead", "kem", "nonce", "slots", "slots_mac", "passphrase"]

  /** The closed shape of a typed envelope. */
  function SchemaEnvelope(enc: seq<(Value, Value)>, path: Path): seq<Issue> {
    RequiredField(enc, "aead", IsText, SchemaMissingRequired, SchemaTypeMismatch, path)
    + OptionalField(enc, "kem", IsText, SchemaTypeMismatch, path)
    + RequiredField(enc, "nonce", IsBytes, SchemaMissingRequired, SchemaTypeMismatch, path)
    + OptionalField(enc, "slots", IsArray, SchemaTypeMismatch, path)
    + WalkArray(SchemaSlot(path + [Key("slots")]), Get(enc, "slots"))
    + SchemaSlotsMac(Get(enc, "slots_mac"), path + [Key("slots_mac")])
    + SchemaPassphrase(Get(enc, "passphrase"), path + [Key("passphrase")])
    + UnknownKeys(TextKeys(enc), ENC_KEYS, SchemaUnknownField, path)
  }

  /** Key-path rules: exactly one of slots and passphrase, each with what it needs and nothing it forbids. */
  function CheckKeyPath(enc: seq<(Value, Value)>, path: Path): seq<Issue> {
    var slots, mac, passphrase, kem := Has(enc, "slots"), Has(enc, "slots_mac"), Has(enc, "passphrase"), Has(enc, "kem");
    When(passphrase && (slots || mac || kem), EncExclusivityViolation, path)
    + When(slots && !mac, EncSlotsMacRequired, path)
    + When(mac && !slots, EncSlotsRequired, path)
    + When(slots && !kem, EncKemRequired, path)
    + When(!slots && !passphrase, EncNoKeyPath, path)
  }

  function FieldLengthCode(shape: SlotShape): Code {
    if shape.field == "epk" then KemEpkLengthMismatch else KemCtLengthMismatch
  }

  /** One recipient slot against its KEM's closed two-key shape. */
  function CheckSlotShape(slot: seq<(Value, Value)>, shape: SlotShape, path: Path): seq<Issue> {
    var foreign := if shape.field == "epk" then "kem_ct" else "epk";
    When(Has(slot, foreign), EncSlotInvalidShape, path + [Key(foreign)])
    + UnknownKeys(TextKeys(slot), ["epk", "kem_ct", "wrap"], EncSlotInvalidShape, path)
    + (match AsBytes(Get(slot, shape.field))
       case None => [Raise(EncSlotInvalidShape, path + [Key(shape.field)])]
       case Some(b) => When(|b| != shape.fieldLength, FieldLengthCode(shape), path + [Key(shape.field)]))
    + (match AsBytes(Get(slot, "wrap"))
       case None => [Raise(EncSlotInvalidShape, path + [Key("wrap")])]
       case Some(b) => When(|b| != shape.wrapLength, WrapLengthMismatch, path + [Key("wrap")]))
  }

  /** The slots in order, remembering the encapsulation material already seen. */
  function CheckSlots(slots: seq<Value>, shape: SlotShape, j: nat, seen: set<Bytes>, path: Path): seq<Issue>
    requires j <= |slots|
    decreases |slots| - j
  {
    if j == |slots| then []
    else if !slots[j].Map? then CheckSlots(slots, shape, j + 1, seen, path)
    else
      var slotPath := path + [Index(j)];
      var material := AsBytes(Get(slots[j].pairs, shape.field));
      CheckSlotShape(slots[j].pairs, shape, slotPath)
      + When(material.Some? && material.value in seen, EncSlotsDuplicateKemMaterial, slotPath + [Key(shape.field)])
      + CheckSlots(slots, shape, j + 1, if material.Some? then seen + {material.value} else seen, path)
  }

  function CheckAllSlots(options: Options, enc: seq<(Value, Value)>, path: Path): seq<Issue> {
    match Get(enc, "slots")
    case Some(Array(slots)) =>
      if slots == [] then [Raise(EncSlotsEmpty, path)]
      else if |slots| > options.maxSlots then [Raise(EncSlotsTooMany, path)]
      else
        (match AsText(Get(enc, "kem"))
         case None => []
         case Some(kem) => if ShapeFor(kem).None? then [] else CheckSlots(slots, ShapeFor(kem).value, 0, {}, path))
    case _ => []
  }

  function CheckParam(pairs: seq<(Value, Value)>, name: string, floor: nat, ceiling: Option<nat>, base: Path): seq<Issue> {
    var path := base + [Key(name)];
    match Get(pairs, name)
    case None => [Raise(SchemaMissingRequired, path)]
    case Some(Unsigned(n)) =>
      if n > MAX_U32 then [Raise(SchemaTypeMismatch, path)]
      else if n < floor then [Raise(EncPassphraseArgon2ParamsTooLow, path)]
      else When(ceiling.Some? && n > ceiling.value, EncPassphraseParamsExceedPolicy, path)
    case _ => [Raise(SchemaTypeMismatch, path)]
  }

  function CheckParams(c: Option<Ceiling>, params: seq<(Value, Value)>, base: Path): seq<Issue> {
    UnknownKeys(TextKeys(params), ["m", "t", "p"], SchemaUnknownField, base)
    + CheckParam(params, "m", 65_536, if c.Some? then Some(c.value.m) else None, base)
    + CheckParam(params, "t", 3, if c.Some? then Some(c.value.t) else None, base)
    + CheckParam(params, "p", 1, if c.Some? then Some(c.value.p) else None, base)
  }

  function CheckPassphrase(options: Options, pp: seq<(Value, Value)>, path: Path): seq<Issue> {
    if AsText(Get(pp, "alg")) != Some("argon2id") then [Raise(EncPassphraseAlgUnsupported, path + [Key("alg")])]
    else
      match Get(pp, "params")
      case Some(Map(params)) =>
        CheckParams(options.ceiling, params, path + [Key("params")])
      case _ => []
  }

  function CheckNonce(enc: seq<(Value, Value)>, path: Path): seq<Issue> {
    match (AsText(Get(enc, "aead")), AsBytes(Get(enc, "nonce")))
    case (Some(aead), Some(nonce)) =>
      (match NonceLength(aead)
       case None => []
       case Some(n) => When(|nonce| != n, NonceLengthMismatch, path + [Key("nonce")]))
    case _ => []
  }

  function CheckScheme1(options: Options, enc: seq<(Value, Value)>, path: Path): seq<Issue> {
    CheckNonce(enc, path)
    + CheckKeyPath(enc, path)
    + CheckAllSlots(options, enc, path + [Key("slots")])
    + (match Get(enc, "passphrase")
       case Some(Map(pp)) => CheckPassphrase(options, pp, path + [Key("passphrase")])
       case _ => [])
  }

  // ---------------------------------------------------------------------------
  // The domain pass: Merkle commitments and signatures
  // ---------------------------------------------------------------------------

  function CheckMerkle(profile: Profile, commit: Value, i: nat): seq<Issue> {
    if !commit.Map? then []
    else
      var base := [Key("merkle"), Index(i)];
      var m := commit.pairs;
      (match MerkleRootLength(AsText(Get(m, "alg")).GetOr(""))
       case None => [Raise(UnsupportedMerkleCommitAlg, base + [Key("alg")])]
       case Some(n) =>
         var root := AsBytes(Get(m, "root"));
         When(root.Some? && |root.value| != n, HashDigestLengthMismatch, base + [Key("root")]))
      + (match Get(m, "leaf_count")
         case Some(Unsigned(n)) => When(!(1 <= n <= MAX_U32), SchemaMerkleLeafCountInvalid, base + [Key("leaf_count")])
         case Some(Negative(_)) => [Raise(SchemaTypeMismatch, base + [Key("leaf_count")])]
         case _ => [])
      + CheckUris(profile, Get(m, "uris"), base + [Key("uris")])
  }

  function CheckCommits(profile: Profile): (Value, nat) -> seq<Issue> {
    (commit: Value, i: nat) => CheckMerkle(profile, commit, i)
  }

  /** A small integer; labels are looked up by it. */
  function IntValue(v: Value): Option<int> {
    match v
    case Unsigned(n) => if n <= Cose.MAX_I64 then Some(n) else None
    case Negative(m) => if m <= Cose.MAX_I64 then Some(-1 - m) else None
    case _ => None
  }

  function IntKeyed(pairs: seq<(Value, Value)>, key: int): Option<Value> {
    if pairs == [] then None
    else if IntValue(pairs[0].0) == Some(key) then Some(pairs[0].1)
    else IntKeyed(pairs[1..], key)
  }

  /** What is wrong with an inline key: private material first, then its shape. */
  function InspectKey(key: Bytes): Option<Code> {
    match Decode(key)
    case Err(_) => Some(MalformedSigCoseSign1)
    case Ok(v) =>
      var m := if v.Map? then v.pairs else [];
      if IntKeyed(m, -4).Some? then Some(SigPrivateKeyLeaked)
      else if IntKeyed(m, 1) != Some(Unsigned(1)) || IntKeyed(m, -1) != Some(Unsigned(6)) then Some(MalformedSigCoseSign1)
      else
        match IntKeyed(m, -2)
        case Some(ByteString(x)) => if |x| == 32 then None else Some(MalformedSigCoseSign1)
        case _ => Some(MalformedSigCoseSign1)
  }

  /** The protected header map and the presence of a payload, of a well-shaped signature. */
  function SignatureStructure(data: Bytes): Option<(seq<(Value, Value)>, bool)> {
    match Decode(data)
    case Ok(Array(e)) =>
      if |e| != 4 || !e[0].ByteString? || !e[1].Map? || !(e[2].Null? || e[2].ByteString?)
         || !e[3].ByteString? || |e[3].bytes| != 64 then None
      else if e[0].bytes == [] then Some(([], e[2].ByteString?))
      else
        (match Decode(e[0].bytes)
         case Ok(Map(m)) => if m == [] then None else Some((m, e[2].ByteString?))
         case _ => None)
    case _ => None
  }

  function CheckSig(entry: Value, i: nat): seq<Issue> {
    if !entry.Map? then []
    else
      var base := [Key("sigs"), Index(i)];
      var coseKey := AsBytes(Get(entry.pairs, "cose_key"));
      var leaked := if coseKey.Some? then InspectKey(coseKey.value) else None;
      if leaked.Some? then [Raise(leaked.value, base + [Key("cose_key")])]
      else
        match AsBytes(Get(entry.pairs, "cose_sign1"))
        case None => []
        case Some(data) =>
          match SignatureStructure(data)
          case None => [Raise(MalformedSigCoseSign1, base)]
          case Some((header, payload)) =>
            if payload then [Raise(MalformedSigCoseSign1, base)]
            else
              var alg := IntKeyed(header, 1);
              var kid := IntKeyed(header, 4);
              When(alg.None? || IntValue(alg.value) !in {Some(-8), Some(-19)}, SignatureUnsupported, base)
              + When(kid.Some? && kid.value.ByteString? && |kid.value.bytes| == 32 && coseKey.Some?, SigEntryKidCoseKeyConflict, base)
  }

  function DomainIssues(profile: Profile, options: Options, m: seq<(Value, Value)>): seq<Issue> {
    CheckPresence(m)
    + CheckCrit(m, profile, options)
    + CheckTopLevel(profile, TextKeys(m))
    + WalkArray(CheckItems(profile, options), Get(m, "items"))
    + WalkArray(CheckCommits(profile), Get(m, "merkle"))
    + When(IsEmptyArray(Get(m, "sigs")), SchemaTypeMismatch, [Key("sigs")])
    + WalkArray(CheckSig, Get(m, "sigs"))
  }

  // ---------------------------------------------------------------------------
  // The verdict
  // ---------------------------------------------------------------------------

  datatype Outcome =
    | Accepted(record: Record, warnings: seq<Issue>, info: seq<Issue>)
    | Rejected(issues: seq<Issue>)

  function OfSeverity(issues: seq<Issue>, severity: Severity): seq<Issue> {
    if issues == [] then []
    else (if issues[0].severity == severity then [issues[0]] else []) + OfSeverity(issues[1..], severity)
  }

  predicate HasError(issues: seq<Issue>) {
    exists i :: 0 <= i < |issues| && issues[i].severity == ErrorSeverity
  }

  function Verdict(decoded: Value, issues: seq<Issue>): Outcome {
    var sorted := SortIssues(issues);
    if HasError(sorted) then Rejected(sorted)
    else
      match RecordFromCbor(decoded)
      case None => Rejected([Raise(SchemaTypeMismatch, [])])
      case Some(record) => Accepted(record, OfSeverity(sorted, WarningSeverity), OfSeverity(sorted, InfoSeverity))
  }

  function Validate(profile: Profile, options: Options, bytes: Bytes): Outcome {
    match Decode(bytes)
    case Err(_) => Rejected([Raise(MalformedCbor, [])])
    case Ok(decoded) =>
      if GuardIssues(decoded) != [] then Rejected(SortIssues(GuardIssues(decoded)))
      else if !decoded.Map? then Rejected([Raise(SchemaTypeMismatch, [])])
      else if SchemaIssues(decoded.pairs) != [] then Rejected(SortIssues(SchemaIssues(decoded.pairs)))
      else Verdict(decoded, DomainIssues(profile, options, decoded.pairs))
  }

  /** One pass over an array pushes what the walk lists. */
  method PushAll(f: (Value, nat) -> seq<Issue>, v: Option<Value>, before: seq<Issue>) returns (issues: seq<Issue>)
    ensures issues == before + WalkArray(f, v)
  {
    issues := before;
    if v.Some? && v.value.Array? {
      var entries := v.value.items;
      for i := 0 to |entries|
        invariant issues + Walk(f, entries, i) == before + Walk(f, entries, 0)
      {
        assert issues + (f(entries[i], i) + Walk(f, entries, i + 1)) == issues + f(entries[i], i) + Walk(f, entries, i + 1);
        issues := issues + f(entries[i], i);
      }
    } else {
      assert before + [] == before;
    }
  }

  /** The validator: every pass pushes onto one list. */
  method ValidatePoeRecord(profile: Profile, options: Options, bytes: Bytes) returns (r: Outcome)
    ensures r == Validate(profile, options, bytes)
  {
    hide GuardIssues;
    hide SchemaIssues;
    hide WalkArray;
    hide CheckPresence;
    hide CheckCrit;
    hide CheckTopLevel;
    var decoding := Decode(bytes);
    if decoding.Err? {
      return Rejected([Raise(MalformedCbor, [])]);
    }
    var decoded := decoding.value;
    if GuardIssues(decoded) != [] {
      return Rejected(SortIssues(GuardIssues(decoded)));
    }
    if !decoded.Map? {
      return Rejected([Raise(SchemaTypeMismatch, [])]);
    }
    var m := decoded.pairs;
    if SchemaIssues(m) != [] {
      return Rejected(SortIssues(SchemaIssues(m)));
    }
    var issues := CheckPresence(m);
    issues := issues + CheckCrit(m, profile, options);
    issues := issues + CheckTopLevel(profile, TextKeys(m));
    issues := PushAll(CheckItems(profile, options), Get(m, "items"), issues);
    issues := PushAll(CheckCommits(profile), Get(m, "merkle"), issues);
    issues := issues + When(IsEmptyArray(Get(m, "sigs")), SchemaTypeMismatch, [Key("sigs")]);
    issues := PushAll(CheckSig, Get(m, "sigs"), issues);
    return Verdict(decoded, issues);
  }
}
