/**
  Which issues a record has: every rule of the record format with the code and the place it is reported
  at, said of the decoded value and with no reference to the passes that report them.

  A rule is read relative to a node: `rel` is the way from the node to the place.
*/
module PoeRules {
  import opened Common
  import opened Cbor
  import opened PoeRecord
  import opened PoeIssues
  import opened PoeValidator
  import opened PoeSpec

  // ---------------------------------------------------------------------------
  // Places
  // ---------------------------------------------------------------------------

  /** The way leads to this key of the map, and there is such a key. */
  predicate AtKey(m: seq<(Value, Value)>, rel: Path) {
    |rel| == 1 && rel[0].Key? && Has(m, rel[0].key)
  }

  /** The way starts at an entry of the list under this key. */
  predicate InList(m: seq<(Value, Value)>, list: string, rel: Path) {
    && |rel| >= 2 && rel[0] == Key(list) && rel[1].Index?
    && Get(m, list).Some? && Get(m, list).value.Array? && rel[1].index < |Get(m, list).value.items|
  }

  function EntryAt(m: seq<(Value, Value)>, list: string, rel: Path): Value
    requires InList(m, list, rel)
  {
    Get(m, list).value.items[rel[1].index]
  }

  /** The way starts at the value of this key. */
  predicate InField(m: seq<(Value, Value)>, key: string, rel: Path) {
    |rel| >= 1 && rel[0] == Key(key) && Has(m, key)
  }

  datatype Kind = TextKind | BytesKind | IntegerKind | MapKind | ArrayKind

  predicate Is(v: Value, kind: Kind) {
    match kind
    case TextKind => v.Text?
    case BytesKind => v.ByteString?
    case IntegerKind => v.Unsigned? || v.Negative?
    case MapKind => v.Map?
    case ArrayKind => v.Array?
  }

  /** The value of a key, if it is there, is not of the kind asked for. */
  predicate Wrong(m: seq<(Value, Value)>, key: string, kind: Kind) {
    Has(m, key) && !Is(Get(m, key).value, kind)
  }

  // ---------------------------------------------------------------------------
  // Keys that are no text
  // ---------------------------------------------------------------------------

  predicate NonText(v: Value) {
    v.Map? && exists i :: 0 <= i < |v.pairs| && !v.pairs[i].0.Text?
  }

  /** The record, an entry of one of its lists, or an item's hashes or envelope has a key that is no text; outermost first. */
  predicate NonTextAt(v: Value, path: Path) {
    if NonText(v) then path == []
    else
      && v.Map?
      && ((InList(v.pairs, "items", path) && NonTextInItem(EntryAt(v.pairs, "items", path), path[2..]))
          || (InList(v.pairs, "merkle", path) && NonText(EntryAt(v.pairs, "merkle", path)) && path[2..] == [])
          || (InList(v.pairs, "sigs", path) && NonText(EntryAt(v.pairs, "sigs", path)) && path[2..] == []))
  }

  predicate NonTextInItem(item: Value, rel: Path) {
    if NonText(item) then rel == []
    else
      item.Map? && (rel == [Key("hashes")] || rel == [Key("enc")]) && Has(item.pairs, rel[0].key) && NonText(Get(item.pairs, rel[0].key).value)
  }

  // ---------------------------------------------------------------------------
  // The shape of a record
  // ---------------------------------------------------------------------------

  predicate UrisMisshapen(m: seq<(Value, Value)>, rel: Path) {
    || (rel == [Key("uris")] && Wrong(m, "uris", ArrayKind))
    || (|rel| == 2 && InList(m, "uris", rel) && !EntryAt(m, "uris", rel).Text?)
  }

  predicate ItemMisshapen(item: Value, code: Code, rel: Path) {
    if !item.Map? then code == SchemaTypeMismatch && rel == []
    else
      var m := item.pairs;
      match code
      case SchemaMissingRequired => rel == [Key("hashes")] && !Has(m, "hashes")
      case SchemaTypeMismatch =>
        || (rel == [Key("hashes")] && Wrong(m, "hashes", MapKind))
        || (|rel| == 2 && InField(m, "hashes", rel) && Get(m, "hashes").value.Map?
            && AtKey(Get(m, "hashes").value.pairs, rel[1..]) && !Get(Get(m, "hashes").value.pairs, rel[1].key).value.ByteString?)
        || UrisMisshapen(m, rel)
      case SchemaUnknownField => AtKey(m, rel) && rel[0].key !in ["hashes", "uris", "enc"]
      case _ => false
  }

  /** A commitment's missing leaf count is reported as one of the wrong type. */
  predicate CommitMisshapen(commit: Value, code: Code, rel: Path) {
    if !commit.Map? then code == SchemaTypeMismatch && rel == []
    else
      var m := commit.pairs;
      match code
      case SchemaMissingRequired => (rel == [Key("alg")] && !Has(m, "alg")) || (rel == [Key("root")] && !Has(m, "root"))
      case SchemaTypeMismatch =>
        || (rel == [Key("alg")] && Wrong(m, "alg", TextKind))
        || (rel == [Key("root")] && Wrong(m, "root", BytesKind))
        || (rel == [Key("leaf_count")] && (!Has(m, "leaf_count") || Wrong(m, "leaf_count", IntegerKind)))
        || UrisMisshapen(m, rel)
      case SchemaUnknownField => AtKey(m, rel) && rel[0].key !in ["alg", "root", "leaf_count", "uris"]
      case _ => false
  }

  predicate SigMisshapen(entry: Value, code: Code, rel: Path) {
    code == SigEntryInvalidShape &&
    if !entry.Map? then rel == []
    else
      var m := entry.pairs;
      || (rel == [Key("cose_sign1")] && (!Has(m, "cose_sign1") || Wrong(m, "cose_sign1", BytesKind)))
      || (rel == [Key("cose_key")] && Wrong(m, "cose_key", BytesKind))
      || (AtKey(m, rel) && rel[0].key !in ["cose_sign1", "cose_key"])
  }

  predicate Misshapen(m: seq<(Value, Value)>, code: Code, path: Path) {
    || (path == [Key("v")] && ((code == SchemaMissingRequired && !Has(m, "v"))
                               || (code == SchemaInvalidLiteral && Has(m, "v") && Get(m, "v").value != Unsigned(1))))
    || (code == SchemaTypeMismatch && path == [Key("items")] && Wrong(m, "items", ArrayKind))
    || (code == SchemaTypeMismatch && path == [Key("merkle")] && Wrong(m, "merkle", ArrayKind))
    || (code == SchemaTypeMismatch && path == [Key("sigs")] && Wrong(m, "sigs", ArrayKind))
    || (code == SchemaTypeMismatch && path == [Key("crit")] && Wrong(m, "crit", ArrayKind))
    || (code == SchemaTypeMismatch && path == [Key("supersedes")] && Wrong(m, "supersedes", BytesKind))
    || (code == SupersedesTxInvalidLength && path == [Key("supersedes")] && Has(m, "supersedes")
        && Get(m, "supersedes").value.ByteString? && |Get(m, "supersedes").value.bytes| != 32)
    || (code == SchemaTypeMismatch && |path| == 2 && InList(m, "crit", path) && !EntryAt(m, "crit", path).Text?)
    || (InList(m, "items", path) && ItemMisshapen(EntryAt(m, "items", path), code, path[2..]))
    || (InList(m, "merkle", path) && CommitMisshapen(EntryAt(m, "merkle", path), code, path[2..]))
    || (InList(m, "sigs", path) && SigMisshapen(EntryAt(m, "sigs", path), code, path[2..]))
  }

  // ---------------------------------------------------------------------------
  // Envelopes
  // ---------------------------------------------------------------------------

  predicate UnknownText(m: seq<(Value, Value)>, key: string, known: string -> bool) {
    Has(m, key) && Get(m, key).value.Text? && !known(Get(m, key).value.text)
  }

  predicate KnownKem(kem: string) {
    kem == "x25519" || kem == "mlkem768x25519"
  }

  predicate KnownAead(aead: string) {
    aead == "chacha20-poly1305-stream64k"
  }

  predicate KnownHash(alg: string) {
    alg == "sha2-256" || alg == "blake2b-256"
  }

  /** Something the envelope names is not supported. */
  predicate NamesUnknown(enc: seq<(Value, Value)>) {
    Get(enc, "scheme") != Some(Unsigned(1)) || UnknownText(enc, "kem", KnownKem) || UnknownText(enc, "aead", KnownAead)
  }

  predicate NamesForbidden(profile: Profile, enc: seq<(Value, Value)>) {
    Has(enc, "aead") && Get(enc, "aead").value.Text? && profile.forbiddenCipher(Get(enc, "aead").value.text)
  }

  /** A slot, the passphrase block or its cost parameters have a key that is no text. */
  predicate NonTextInside(enc: seq<(Value, Value)>, rel: Path) {
    || (|rel| == 2 && InList(enc, "slots", rel) && NonText(EntryAt(enc, "slots", rel)))
    || (rel == [Key("passphrase")] && Has(enc, "passphrase") && NonText(Get(enc, "passphrase").value))
    || (rel == [Key("passphrase"), Key("params")] && Has(enc, "passphrase")
        && var pp := Get(enc, "passphrase").value;
           pp.Map? && !NonText(pp) && Has(pp.pairs, "params") && NonText(Get(pp.pairs, "params").value))
  }

  predicate SlotMisshapen(slot: Value, rel: Path) {
    if !slot.Map? then rel == []
    else (rel == [Key("epk")] || rel == [Key("kem_ct")] || rel == [Key("wrap")]) && Wrong(slot.pairs, rel[0].key, BytesKind)
  }

  /** A missing salt is reported as one of the wrong type. */
  predicate BlockMisshapen(pp: Value, code: Code, rel: Path) {
    if !pp.Map? then code == SchemaTypeMismatch && rel == []
    else
      var m := pp.pairs;
      match code
      case SchemaMissingRequired => (rel == [Key("alg")] && !Has(m, "alg")) || (rel == [Key("params")] && !Has(m, "params"))
      case SchemaTypeMismatch =>
        || (rel == [Key("alg")] && Wrong(m, "alg", TextKind))
        || (rel == [Key("params")] && Wrong(m, "params", MapKind))
        || (rel == [Key("salt")] && (!Has(m, "salt") || Wrong(m, "salt", BytesKind)))
      case EncPassphraseSaltTooShort => rel == [Key("salt")] && Has(m, "salt") && Get(m, "salt").value.ByteString? && |Get(m, "salt").value.bytes| < 16
      case EncPassphraseSaltTooLong => rel == [Key("salt")] && Has(m, "salt") && Get(m, "salt").value.ByteString? && |Get(m, "salt").value.bytes| > 64
      case SchemaUnknownField => AtKey(m, rel) && rel[0].key !in ["alg", "salt", "params"]
      case _ => false
  }

  predicate EnvelopeMisshapen(enc: seq<(Value, Value)>, code: Code, rel: Path) {
    || (code == SchemaMissingRequired && ((rel == [Key("aead")] && !Has(enc, "aead")) || (rel == [Key("nonce")] && !Has(enc, "nonce"))))
    || (code == SchemaTypeMismatch
        && ((rel == [Key("aead")] && Wrong(enc, "aead", TextKind))
            || (rel == [Key("kem")] && Wrong(enc, "kem", TextKind))
            || (rel == [Key("nonce")] && Wrong(enc, "nonce", BytesKind))
            || (rel == [Key("slots")] && Wrong(enc, "slots", ArrayKind))
            || (rel == [Key("slots_mac")] && Wrong(enc, "slots_mac", BytesKind))))
    || (code == EncSlotInvalidShape && InList(enc, "slots", rel) && SlotMisshapen(EntryAt(enc, "slots", rel), rel[2..]))
    || (code == EncSlotsMacInvalidLength && rel == [Key("slots_mac")] && Has(enc, "slots_mac")
        && Get(enc, "slots_mac").value.ByteString? && |Get(enc, "slots_mac").value.bytes| != 32)
    || (InField(enc, "passphrase", rel) && BlockMisshapen(Get(enc, "passphrase").value, code, rel[1..]))
    || (code == SchemaUnknownField && AtKey(enc, rel)
        && rel[0].key !in ["scheme", "aead", "kem", "nonce", "slots", "slots_mac", "passphrase"])
  }

  /** The bytes under a key of an entry of the slots, if they are bytes. */
  function SlotBytes(slots: seq<Value>, j: nat, key: string): Option<Bytes>
    requires j < |slots|
  {
    if slots[j].Map? then AsBytes(Get(slots[j].pairs, key)) else None
  }

  /** The field that carries the encapsulation material. */
  function OwnField(kem: string): string {
    if kem == "x25519" then "epk" else "kem_ct"
  }

  /** One slot of a supported KEM: its own field and a wrapped key, of their lengths, and no field of the other kind. */
  predicate SlotFault(slots: seq<Value>, j: nat, kem: string, code: Code, rel: Path)
    requires j < |slots|
  {
    slots[j].Map? &&
    var m, field := slots[j].pairs, OwnField(kem);
    var own, wrap := SlotBytes(slots, j, field), SlotBytes(slots, j, "wrap");
    match code
    case EncSlotInvalidShape =>
      || (AtKey(m, rel) && rel[0].key != field && rel[0].key != "wrap")
      || (rel == [Key(field)] && own.None?)
      || (rel == [Key("wrap")] && wrap.None?)
    case KemEpkLengthMismatch => kem == "x25519" && rel == [Key("epk")] && own.Some? && |own.value| != 32
    case KemCtLengthMismatch => kem == "mlkem768x25519" && rel == [Key("kem_ct")] && own.Some? && |own.value| != 1120
    case WrapLengthMismatch => rel == [Key("wrap")] && wrap.Some? && |wrap.value| != 48
    case EncSlotsDuplicateKemMaterial => rel == [Key(field)] && own.Some? && exists i :: 0 <= i < j && SlotBytes(slots, i, field) == own
    case _ => false
  }

  predicate SlotsFault(options: Options, enc: seq<(Value, Value)>, code: Code, rel: Path) {
    && Has(enc, "slots") && Get(enc, "slots").value.Array?
    && var slots := Get(enc, "slots").value.items;
       if slots == [] then code == EncSlotsEmpty && rel == [Key("slots")]
       else if |slots| > options.maxSlots then code == EncSlotsTooMany && rel == [Key("slots")]
       else
         && InList(enc, "slots", rel) && AsText(Get(enc, "kem")).Some? && KnownKem(AsText(Get(enc, "kem")).value)
         && SlotFault(slots, rel[1].index, AsText(Get(enc, "kem")).value, code, rel[2..])
  }

  /** A cost parameter: there, an unsigned 32-bit number, at least its floor and at most the caller's ceiling. */
  predicate ParamFault(params: seq<(Value, Value)>, name: string, floor: nat, ceiling: Option<nat>, code: Code) {
    var v := Get(params, name);
    match code
    case SchemaMissingRequired => v.None?
    case SchemaTypeMismatch => v.Some? && (!v.value.Unsigned? || v.value.n > 0xffff_ffff)
    case EncPassphraseArgon2ParamsTooLow => v.Some? && v.value.Unsigned? && v.value.n < floor
    case EncPassphraseParamsExceedPolicy =>
      v.Some? && v.value.Unsigned? && floor <= v.value.n <= 0xffff_ffff && ceiling.Some? && v.value.n > ceiling.value
    case _ => false
  }

  predicate ParamsFault(params: seq<(Value, Value)>, c: Option<Ceiling>, code: Code, rel: Path) {
    || (code == SchemaUnknownField && AtKey(params, rel) && rel[0].key !in ["m", "t", "p"])
    || (rel == [Key("m")] && ParamFault(params, "m", 65_536, if c.Some? then Some(c.value.m) else None, code))
    || (rel == [Key("t")] && ParamFault(params, "t", 3, if c.Some? then Some(c.value.t) else None, code))
    || (rel == [Key("p")] && ParamFault(params, "p", 1, if c.Some? then Some(c.value.p) else None, code))
  }

  predicate BlockFault(options: Options, pp: seq<(Value, Value)>, code: Code, rel: Path) {
    if AsText(Get(pp, "alg")) != Some("argon2id") then code == EncPassphraseAlgUnsupported && rel == [Key("alg")]
    else
      InField(pp, "params", rel) && Get(pp, "params").value.Map?
      && ParamsFault(Get(pp, "params").value.pairs, options.ceiling, code, rel[1..])
  }

  /** What a well-shaped typed envelope can still have wrong. */
  predicate TypedFault(options: Options, enc: seq<(Value, Value)>, code: Code, rel: Path) {
    var slots, mac, passphrase, kem := Has(enc, "slots"), Has(enc, "slots_mac"), Has(enc, "passphrase"), Has(enc, "kem");
    || (code == NonceLengthMismatch && rel == [Key("nonce")] && AsText(Get(enc, "aead")).Some? && AsBytes(Get(enc, "nonce")).Some?
        && KnownAead(AsText(Get(enc, "aead")).value)
        && |AsBytes(Get(enc, "nonce")).value| != 24)
    || (code == EncExclusivityViolation && rel == [] && passphrase && (slots || mac || kem))
    || (code == EncSlotsMacRequired && rel == [] && slots && !mac)
    || (code == EncSlotsRequired && rel == [] && mac && !slots)
    || (code == EncKemRequired && rel == [] && slots && !kem)
    || (code == EncNoKeyPath && rel == [] && !slots && !passphrase)
    || SlotsFault(options, enc, code, rel)
    || (InField(enc, "passphrase", rel) && Get(enc, "passphrase").value.Map?
        && BlockFault(options, Get(enc, "passphrase").value.pairs, code, rel[1..]))
  }

  /** What an envelope that names something unknown is reported for. */
  predicate UnknownFault(options: Options, enc: seq<(Value, Value)>, code: Code, rel: Path)
    requires Has(enc, "scheme")
  {
    || (code == EncUnsupported && rel == [])
    || (options.role == RecipientOrStrict
        && ((code == UnsupportedEnvelopeScheme && rel == [Key("scheme")] && Get(enc, "scheme").value != Unsigned(1))
            || (code == UnsupportedKemAlg && rel == [Key("kem")] && UnknownText(enc, "kem", KnownKem))
            || (code == UnsupportedAeadAlg && rel == [Key("aead")] && UnknownText(enc, "aead", KnownAead))))
  }

  /**
    An envelope, in the order its questions are asked: the scheme is there and a number, the cipher is not
    forbidden, everything it names is supported, its keys are text, its shape is right, its parts are.
  */
  ghost predicate EnvelopeFault(profile: Profile, options: Options, enc: seq<(Value, Value)>, code: Code, rel: Path) {
    if !Has(enc, "scheme") then code == SchemaMissingRequired && rel == [Key("scheme")]
    else if !Get(enc, "scheme").value.Unsigned? then code == SchemaTypeMismatch && rel == [Key("scheme")]
    else if NamesForbidden(profile, enc) then code == UnauthenticatedCipherForbidden && rel == [Key("aead")]
    else if NamesUnknown(enc) then UnknownFault(options, enc, code, rel)
    else if exists p :: NonTextInside(enc, p) then code == SchemaTypeMismatch && NonTextInside(enc, rel)
    else if exists c, p :: EnvelopeMisshapen(enc, c, p) then EnvelopeMisshapen(enc, code, rel)
    else TypedFault(options, enc, code, rel)
  }

  // ---------------------------------------------------------------------------
  // Items, commitments and signatures
  // ---------------------------------------------------------------------------

  predicate UrisFault(profile: Profile, m: seq<(Value, Value)>, code: Code, rel: Path) {
    || (code == SchemaTypeMismatch && rel == [Key("uris")] && Get(m, "uris") == Some(Array([])))
    || (code == InvalidUri && |rel| == 2 && InList(m, "uris", rel) && EntryAt(m, "uris", rel).Text?
        && !profile.acceptableUri(EntryAt(m, "uris", rel).text))
  }

  /** A digest entry at fault, seen from the map of digests. */
  predicate HashFault(hashes: seq<(Value, Value)>, code: Code, rel: Path) {
    AtKey(hashes, rel) && Get(hashes, rel[0].key).value.ByteString?
    && if KnownHash(rel[0].key) then code == HashDigestLengthMismatch && |Get(hashes, rel[0].key).value.bytes| != 32
       else code == UnsupportedHashAlg
  }

  /** The digests of an item. */
  predicate DigestFault(m: seq<(Value, Value)>, code: Code, rel: Path) {
    && InField(m, "hashes", rel) && Get(m, "hashes").value.Map?
    && var hashes := Get(m, "hashes").value.pairs;
       (code == SchemaTypeMismatch && rel[1..] == [] && hashes == []) || HashFault(hashes, code, rel[1..])
  }

  /** Some hash of the item is of a supported algorithm. */
  predicate HasSupportedHash(m: seq<(Value, Value)>) {
    Has(m, "hashes") && Get(m, "hashes").value.Map?
    && exists i :: 0 <= i < |Get(m, "hashes").value.pairs| && Get(m, "hashes").value.pairs[i].0.Text?
         && KnownHash(Get(m, "hashes").value.pairs[i].0.text)
  }

  ghost predicate ItemFault(profile: Profile, options: Options, item: Value, code: Code, rel: Path) {
    item.Map? &&
    var m := item.pairs;
    || DigestFault(m, code, rel)
    || UrisFault(profile, m, code, rel)
    || (Has(m, "enc") &&
        var enc := Get(m, "enc").value;
        || (code == EncRequiresContentHash && rel == [Key("enc")] && !HasSupportedHash(m))
        || (code == SchemaTypeMismatch && rel == [Key("enc")] && !enc.Map?)
        || (code == EncEnvelopeTooLarge && rel == [Key("enc")] && enc.Map? && TryEncode(enc).Ok? && |TryEncode(enc).value| > options.maxEnvelopeBytes)
        || (enc.Map? && InField(m, "enc", rel) && EnvelopeFault(profile, options, enc.pairs, code, rel[1..])))
  }

  predicate CommitFault(profile: Profile, commit: Value, code: Code, rel: Path) {
    commit.Map? &&
    var m := commit.pairs;
    var known := AsText(Get(m, "alg")) == Some("rfc9162-sha256");
    || (code == UnsupportedMerkleCommitAlg && rel == [Key("alg")] && !known)
    || (code == HashDigestLengthMismatch && rel == [Key("root")] && known && AsBytes(Get(m, "root")).Some? && |AsBytes(Get(m, "root")).value| != 32)
    || (code == SchemaMerkleLeafCountInvalid && rel == [Key("leaf_count")] && Has(m, "leaf_count")
        && Get(m, "leaf_count").value.Unsigned? && !(1 <= Get(m, "leaf_count").value.n <= 0xffff_ffff))
    || (code == SchemaTypeMismatch && rel == [Key("leaf_count")] && Has(m, "leaf_count") && Get(m, "leaf_count").value.Negative?)
    || UrisFault(profile, m, code, rel)
  }

  /** An inline key with a private part. */
  predicate LeaksPrivate(key: Bytes) {
    Decode(key).Ok? && Decode(key).value.Map? && Labelled(Decode(key).value.pairs, Negative(3)).Some?
  }

  /** The header of a detached signature asks for EdDSA, plain or as Ed25519. */
  predicate SupportedAlg(message: Bytes)
    requires Detached(message)
  {
    var header := Decode(message).value.items[0].bytes;
    header != [] && Labelled(Decode(header).value.pairs, Unsigned(1)) in {Some(Negative(7)), Some(Negative(18))}
  }

  predicate SigFault(entry: Value, code: Code, rel: Path) {
    entry.Map? &&
    var key, message := AsBytes(Get(entry.pairs, "cose_key")), AsBytes(Get(entry.pairs, "cose_sign1"));
    if key.Some? && !PublicKey(key.value) then
      rel == [Key("cose_key")] && code == if LeaksPrivate(key.value) then SigPrivateKeyLeaked else MalformedSigCoseSign1
    else
      message.Some? && rel == [] &&
      if !Detached(message.value) then code == MalformedSigCoseSign1
      else
        || (code == SignatureUnsupported && !SupportedAlg(message.value))
        || (code == SigEntryKidCoseKeyConflict && key.Some? && NamesSigner(message.value))
  }

  // ---------------------------------------------------------------------------
  // Records
  // ---------------------------------------------------------------------------

  predicate NonEmptyList(m: seq<(Value, Value)>, key: string) {
    Has(m, key) && Get(m, key).value.Array? && Get(m, key).value.items != []
  }

  predicate EmptyList(m: seq<(Value, Value)>, key: string) {
    Get(m, key) == Some(Array([]))
  }

  /** A critical name is an extension that is there, and was not named before. */
  predicate CritName(profile: Profile, m: seq<(Value, Value)>, crit: seq<Value>, i: nat)
    requires i < |crit| && crit[i].Text?
  {
    var name := crit[i].text;
    && name !in ["v", "items", "merkle", "supersedes", "sigs", "crit"] && profile.extensionKey(name) && Has(m, name)
    && forall j :: 0 <= j < i ==> crit[j] != Text(name)
  }

  predicate CritFault(profile: Profile, options: Options, m: seq<(Value, Value)>, code: Code, path: Path) {
    |path| == 2 && InList(m, "crit", path) && EntryAt(m, "crit", path).Text? &&
    if !CritName(profile, m, Get(m, "crit").value.items, path[1].index) then code == CritShapeInvalid
    else code == ExtensionUnsupportedCritical && EntryAt(m, "crit", path).text !in options.supportedCritical
  }

  ghost predicate Fault(profile: Profile, options: Options, m: seq<(Value, Value)>, code: Code, path: Path) {
    var bare := !NonEmptyList(m, "items") && !NonEmptyList(m, "merkle");
    || (code == SchemaEmptyRecord && path == [] && bare)
    || (code == SchemaTypeMismatch && path == [Key("items")] && !bare && EmptyList(m, "items"))
    || (code == SchemaTypeMismatch && path == [Key("merkle")] && !bare && EmptyList(m, "merkle"))
    || (code == SchemaTypeMismatch && path == [Key("sigs")] && EmptyList(m, "sigs"))
    || (code == SchemaTypeMismatch && path == [Key("crit")] && EmptyList(m, "crit"))
    || CritFault(profile, options, m, code, path)
    || (code == SchemaUnknownField && AtKey(m, path) && path[0].key !in ["v", "items", "merkle", "supersedes", "sigs", "crit"] && !profile.extensionKey(path[0].key))
    || (InList(m, "items", path) && ItemFault(profile, options, EntryAt(m, "items", path), code, path[2..]))
    || (InList(m, "merkle", path) && CommitFault(profile, EntryAt(m, "merkle", path), code, path[2..]))
    || (InList(m, "sigs", path) && SigFault(EntryAt(m, "sigs", path), code, path[2..]))
  }

  /** An unsupported signature is only noted; so is an unsupported envelope to a public reader. */
  function Severe(options: Options, code: Code): Severity {
    if code == SignatureUnsupported || (code == EncUnsupported && options.role == Public) then InfoSeverity else ErrorSeverity
  }

  /**
    The issues of a byte string: what is not canonical CBOR has that one; keys that are no text foreclose
    everything else, a value that is no map its shape, and a wrong shape the rest.
  */
  ghost predicate HasIssue(profile: Profile, options: Options, bytes: Bytes, x: Issue) {
    match Decode(bytes)
    case Err(_) => x == Issue([], MalformedCbor, ErrorSeverity)
    case Ok(v) =>
      if exists p :: NonTextAt(v, p) then x.code == SchemaTypeMismatch && x.severity == ErrorSeverity && NonTextAt(v, x.path)
      else if !v.Map? then x == Issue([], SchemaTypeMismatch, ErrorSeverity)
      else if exists c, p :: Misshapen(v.pairs, c, p) then x.severity == ErrorSeverity && Misshapen(v.pairs, x.code, x.path)
      else x.severity == Severe(options, x.code) && Fault(profile, options, v.pairs, x.code, x.path)
  }
}
