/**
  Which records are sound: the rules of the record format said of the typed record, with no
  reference to the passes that check them.
*/
module PoeSpec {
  import opened Common
  import opened Cbor
  import opened PoeRecord
  import opened PoeValidator

  // ---------------------------------------------------------------------------
  // Envelopes
  // ---------------------------------------------------------------------------

  /** The encapsulation material a slot carries. */
  function Material(slot: Slot): Option<Bytes> {
    if slot.kemCt.Some? then slot.kemCt else slot.epk
  }

  /** A slot holds exactly its KEM's field and a wrapped key, at their registered lengths. */
  predicate SoundSlot(slot: Slot, shape: SlotShape) {
    && (slot.kemCt.Some? <==> shape.field == "kem_ct") && (slot.epk.Some? <==> shape.field == "epk")
    && Material(slot).Some? && |Material(slot).value| == shape.fieldLength
    && slot.wrap.Some? && |slot.wrap.value| == shape.wrapLength
  }

  /** No two slots share encapsulation material. */
  predicate MaterialDistinct(slots: seq<Slot>) {
    forall i, j :: 0 <= i < j < |slots| ==> Material(slots[i]) != Material(slots[j])
  }

  predicate SoundParam(params: seq<(string, U64)>, name: string, floor: nat, ceiling: Option<nat>) {
    exists i :: 0 <= i < |params| && params[i].0 == name && floor <= params[i].1 <= MAX_U32
      && (ceiling.Some? ==> params[i].1 <= ceiling.value)
  }

  /** Argon2id with a salt of 16 to 64 bytes and exactly the three cost parameters, each between its floor and its ceiling. */
  predicate SoundPassphrase(pp: Passphrase, ceiling: Option<Ceiling>) {
    && pp.alg == "argon2id" && 16 <= |pp.salt| <= 64
    && SoundParam(pp.params, "m", 65_536, if ceiling.Some? then Some(ceiling.value.m) else None)
    && SoundParam(pp.params, "t", 3, if ceiling.Some? then Some(ceiling.value.t) else None)
    && SoundParam(pp.params, "p", 1, if ceiling.Some? then Some(ceiling.value.p) else None)
    && (forall i :: 0 <= i < |pp.params| ==> pp.params[i].0 in ["m", "t", "p"])
  }

  predicate SoundSlots(enc: Scheme1, options: Options)
    requires enc.slots.Some? && enc.kem.Some? && enc.slotsMac.Some?
  {
    && |enc.slotsMac.value| == 32
    && 0 < |enc.slots.value| <= options.maxSlots
    && ShapeFor(enc.kem.value).Some?
    && (forall i :: 0 <= i < |enc.slots.value| ==> SoundSlot(enc.slots.value[i], ShapeFor(enc.kem.value).value))
    && MaterialDistinct(enc.slots.value)
  }

  /** A usable typed envelope: one key path, complete and alone, within every registered length and bound. */
  predicate SoundScheme1(enc: Scheme1, options: Options) {
    && enc.scheme == 1 && NonceLength(enc.aead) == Some(|enc.nonce|)
    && (enc.slots.Some? <==> enc.passphrase.None?)
    && (enc.slots.Some? <==> enc.kem.Some?) && (enc.slots.Some? <==> enc.slotsMac.Some?)
    && (enc.slots.Some? ==> SoundSlots(enc, options))
    && (enc.passphrase.Some? ==> SoundPassphrase(enc.passphrase.value, options.ceiling))
  }

  /** Some identifier of the envelope is well typed but unknown. */
  predicate NamesUnsupported(enc: seq<(Value, Value)>) {
    || (Has(enc, "scheme") && Get(enc, "scheme").value != Unsigned(1))
    || (AsText(Get(enc, "kem")).Some? && ShapeFor(AsText(Get(enc, "kem")).value).None?)
    || (AsText(Get(enc, "aead")).Some? && NonceLength(AsText(Get(enc, "aead")).value).None?)
  }

  /** An envelope carried verbatim: it names something unknown, though no forbidden cipher, and only the public reading lets it through. */
  predicate SoundOpaque(profile: Profile, options: Options, value: Value) {
    && options.role == Public
    && value.Map? && TextKeyed(value.pairs)
    && Has(value.pairs, "scheme") && Get(value.pairs, "scheme").value.Unsigned?
    && (AsText(Get(value.pairs, "aead")).Some? ==> !profile.forbiddenCipher(AsText(Get(value.pairs, "aead")).value))
    && NamesUnsupported(value.pairs)
  }

  predicate SoundEnvelope(profile: Profile, options: Options, enc: Envelope) {
    match enc
    case Typed(typed) => SoundScheme1(typed, options) && !profile.forbiddenCipher(typed.aead)
    case Opaque(value) => SoundOpaque(profile, options, value)
  }

  // ---------------------------------------------------------------------------
  // Items, commitments and signatures
  // ---------------------------------------------------------------------------

  predicate SoundUris(profile: Profile, uris: Option<seq<string>>) {
    uris.Some? ==> uris.value != [] && forall i :: 0 <= i < |uris.value| ==> profile.acceptableUri(uris.value[i])
  }

  /** At least one digest, all of registered algorithms and their lengths. */
  predicate SoundHashes(hashes: seq<(string, Bytes)>) {
    hashes != [] && forall i :: 0 <= i < |hashes| ==> HashLength(hashes[i].0) == Some(|hashes[i].1|)
  }

  predicate SoundItem(profile: Profile, options: Options, item: ItemEntry) {
    && SoundHashes(item.hashes)
    && SoundUris(profile, item.uris)
    && (item.enc.Some? ==>
          SoundEnvelope(profile, options, item.enc.value)
          && EnvelopeSize(EnvelopeToCbor(item.enc.value)) <= options.maxEnvelopeBytes)
  }

  predicate SoundCommit(profile: Profile, commit: MerkleCommit) {
    && MerkleRootLength(commit.alg) == Some(|commit.root|)
    && 1 <= commit.leafCount <= MAX_U32
    && SoundUris(profile, commit.uris)
  }

  /** The value under a COSE label, given as its CBOR key. */
  function Labelled(m: seq<(Value, Value)>, key: Value): Option<Value> {
    if m == [] then None else if m[0].0 == key then Some(m[0].1) else Labelled(m[1..], key)
  }

  /** An octet key pair (1: 1) on Ed25519 (-1: 6), with a point of 32 bytes (-2) and no private part (-4). */
  predicate PublicKey(key: Bytes) {
    Decode(key).Ok? && Decode(key).value.Map? &&
    var m := Decode(key).value.pairs;
    && Labelled(m, Unsigned(1)) == Some(Unsigned(1)) && Labelled(m, Negative(0)) == Some(Unsigned(6))
    && OfLength(Labelled(m, Negative(1)), 32) && Labelled(m, Negative(3)).None?
  }

  predicate OfLength(v: Option<Value>, n: nat) {
    v.Some? && v.value.ByteString? && |v.value.bytes| == n
  }

  /** Four parts: an empty or encoded non-empty protected header, a map, no payload, and 64 bytes. */
  predicate Detached(message: Bytes) {
    Decode(message).Ok? && Decode(message).value.Array? &&
    var parts := Decode(message).value.items;
    && |parts| == 4 && parts[0].ByteString? && parts[1].Map? && parts[2] == Null && OfLength(Some(parts[3]), 64)
    && (parts[0].bytes != [] ==> NonEmptyMap(parts[0].bytes))
  }

  predicate NonEmptyMap(bytes: Bytes) {
    Decode(bytes).Ok? && Decode(bytes).value.Map? && Decode(bytes).value.pairs != []
  }

  /** The protected header names the signer by its 32-byte public key. */
  predicate NamesSigner(message: Bytes)
    requires Detached(message)
  {
    var header := Decode(message).value.items[0].bytes;
    header != [] && OfLength(Labelled(Decode(header).value.pairs, Unsigned(4)), 32)
  }

  /** A detached signature whose signer is named at most once, by a public inline key or by its header. */
  predicate SoundSig(entry: SigEntry) {
    && Detached(entry.coseSign1)
    && (entry.coseKey.Some? ==> PublicKey(entry.coseKey.value) && !NamesSigner(entry.coseSign1))
  }

  // ---------------------------------------------------------------------------
  // Records
  // ---------------------------------------------------------------------------

  predicate Extends(record: Record, name: string) {
    exists k :: 0 <= k < |record.extensions| && record.extensions[k].0 == name
  }

  /** Critical names are distinct, present and supported extensions. */
  predicate SoundCrit(profile: Profile, options: Options, record: Record) {
    record.crit.Some? ==>
      var crit := record.crit.value;
      && crit != []
      && (forall i :: 0 <= i < |crit| ==>
            crit[i] !in BASE_KEYS && profile.extensionKey(crit[i]) && Extends(record, crit[i]) && crit[i] in options.supportedCritical)
      && (forall i, j :: 0 <= i < j < |crit| ==> crit[i] != crit[j])
  }

  predicate SoundItems(profile: Profile, options: Options, items: Option<seq<ItemEntry>>) {
    items.Some? ==> items.value != [] && forall i :: 0 <= i < |items.value| ==> SoundItem(profile, options, items.value[i])
  }

  predicate SoundCommits(profile: Profile, commits: Option<seq<MerkleCommit>>) {
    commits.Some? ==> commits.value != [] && forall i :: 0 <= i < |commits.value| ==> SoundCommit(profile, commits.value[i])
  }

  predicate SoundSigs(sigs: Option<seq<SigEntry>>) {
    sigs.Some? ==> sigs.value != [] && forall i :: 0 <= i < |sigs.value| ==> SoundSig(sigs.value[i])
  }

  /** Extensions never take the name of a base field. */
  predicate SoundExtensions(profile: Profile, extensions: seq<(string, Value)>) {
    forall i :: 0 <= i < |extensions| ==> extensions[i].0 !in BASE_KEYS && profile.extensionKey(extensions[i].0)
  }

  /** Version 1, committing to something, every part sound. */
  predicate SoundRecord(profile: Profile, options: Options, record: Record) {
    && record.v == 1
    && (record.items.Some? || record.merkle.Some?)
    && SoundItems(profile, options, record.items)
    && SoundCommits(profile, record.merkle)
    && SoundSigs(record.sigs)
    && (record.supersedes.Some? ==> |record.supersedes.value| == 32)
    && SoundExtensions(profile, record.extensions)
    && SoundCrit(profile, options, record)
  }
}
