/** The proof-of-existence record: its typed model, its CBOR form, and its reconstruction from CBOR. */
module PoeRecord {
  import opened Common
  import opened Cbor

  // ---------------------------------------------------------------------------
  // The typed record
  // ---------------------------------------------------------------------------

  datatype Slot = Slot(epk: Option<Bytes>, kemCt: Option<Bytes>, wrap: Option<Bytes>)

  datatype Passphrase = Passphrase(alg: string, salt: Bytes, params: seq<(string, U64)>)

  datatype Scheme1 = Scheme1(
    scheme: U64, aead: string, nonce: Bytes, kem: Option<string>, slots: Option<seq<Slot>>, slotsMac: Option<Bytes>,
    passphrase: Option<Passphrase>)

  /** An envelope this implementation understands, or one it carries verbatim. */
  datatype Envelope = Typed(enc: Scheme1) | Opaque(value: Value)

  datatype ItemEntry = ItemEntry(hashes: seq<(string, Bytes)>, uris: Option<seq<string>>, enc: Option<Envelope>)

  datatype MerkleCommit = MerkleCommit(alg: string, root: Bytes, leafCount: U64, uris: Option<seq<string>>)

  datatype SigEntry = SigEntry(coseSign1: Bytes, coseKey: Option<Bytes>)

  datatype Record = Record(
    v: U64,
    items: Option<seq<ItemEntry>>,
    merkle: Option<seq<MerkleCommit>>,
    supersedes: Option<Bytes>,
    sigs: Option<seq<SigEntry>>,
    crit: Option<seq<string>>,
    extensions: seq<(string, Value)>)

  // ---------------------------------------------------------------------------
  // Encoding
  // ---------------------------------------------------------------------------

  /** A field of a map: its key, and its value if it is present. */
  type Field = (string, Option<Value>)

  /** The pairs of the fields that are present, in order. */
  function Fields(table: seq<Field>): seq<(Value, Value)> {
    if table == [] then []
    else (if table[0].1.Some? then [(Text(table[0].0), table[0].1.value)] else []) + Fields(table[1..])
  }

  function Each<A>(f: A -> Value, s: seq<A>): (r: seq<Value>)
    ensures |r| == |s| && forall i :: 0 <= i < |s| ==> r[i] == f(s[i])
  {
    seq(|s|, i requires 0 <= i < |s| => f(s[i]))
  }

  function ArrayOf<A>(f: A -> Value, s: Option<seq<A>>): Option<Value> {
    match s
    case None => None
    case Some(xs) => Some(Array(Each(f, xs)))
  }

  function BytesOf(b: Option<Bytes>): Option<Value> {
    match b
    case None => None
    case Some(bytes) => Some(ByteString(bytes))
  }

  function TextToCbor(s: string): Value {
    Text(s)
  }

  /** The presence of `kem_ct` selects the hybrid slot and drops any `epk`. */
  function SlotToCbor(slot: Slot): Value {
    var wrap := ByteString(slot.wrap.GetOr([]));
    match slot.kemCt
    case Some(kemCt) => Map(Fields([("kem_ct", Some(ByteString(kemCt))), ("wrap", Some(wrap))]))
    case None => Map(Fields([("epk", Some(ByteString(slot.epk.GetOr([])))), ("wrap", Some(wrap))]))
  }

  function HashPairs(hashes: seq<(string, Bytes)>): (r: seq<(Value, Value)>)
    ensures |r| == |hashes| && forall i :: 0 <= i < |r| ==> r[i] == (Text(hashes[i].0), ByteString(hashes[i].1))
  {
    seq(|hashes|, i requires 0 <= i < |hashes| => (Text(hashes[i].0), ByteString(hashes[i].1)))
  }

  function ParamPairs(params: seq<(string, U64)>): (r: seq<(Value, Value)>)
    ensures |r| == |params| && forall i :: 0 <= i < |r| ==> r[i] == (Text(params[i].0), Unsigned(params[i].1))
  {
    seq(|params|, i requires 0 <= i < |params| => (Text(params[i].0), Unsigned(params[i].1)))
  }

  function PassphraseToCbor(pp: Passphrase): Value {
    Map(Fields([("alg", Some(Text(pp.alg))), ("salt", Some(ByteString(pp.salt))), ("params", Some(Map(ParamPairs(pp.params))))]))
  }

  function EnvelopeTable(enc: Scheme1): seq<Field> {
    [
      ("scheme", Some(Unsigned(enc.scheme))),
      ("aead", Some(Text(enc.aead))),
      ("nonce", Some(ByteString(enc.nonce))),
      ("kem", match enc.kem case None => None case Some(kem) => Some(Text(kem))),
      ("slots", ArrayOf(SlotToCbor, enc.slots)),
      ("slots_mac", BytesOf(enc.slotsMac)),
      ("passphrase", match enc.passphrase case None => None case Some(pp) => Some(PassphraseToCbor(pp)))]
  }

  function Scheme1ToCbor(enc: Scheme1): Value {
    Map(Fields(EnvelopeTable(enc)))
  }

  function EnvelopeToCbor(enc: Envelope): Value {
    match enc
    case Typed(typed) => Scheme1ToCbor(typed)
    case Opaque(value) => value
  }

  function ItemTable(item: ItemEntry): seq<Field> {
    [
      ("hashes", Some(Map(HashPairs(item.hashes)))),
      ("uris", ArrayOf(TextToCbor, item.uris)),
      ("enc", match item.enc case None => None case Some(enc) => Some(EnvelopeToCbor(enc)))]
  }

  function ItemToCbor(item: ItemEntry): Value {
    Map(Fields(ItemTable(item)))
  }

  function MerkleTable(commit: MerkleCommit): seq<Field> {
    [
      ("alg", Some(Text(commit.alg))),
      ("root", Some(ByteString(commit.root))),
      ("leaf_count", Some(Unsigned(commit.leafCount))),
      ("uris", ArrayOf(TextToCbor, commit.uris))]
  }

  function MerkleToCbor(commit: MerkleCommit): Value {
    Map(Fields(MerkleTable(commit)))
  }

  function SigTable(entry: SigEntry): seq<Field> {
    [("cose_sign1", Some(ByteString(entry.coseSign1))), ("cose_key", BytesOf(entry.coseKey))]
  }

  function SigToCbor(entry: SigEntry): Value {
    Map(Fields(SigTable(entry)))
  }

  function ExtensionFields(extensions: seq<(string, Value)>): (r: seq<Field>)
    ensures |r| == |extensions|
    ensures forall i :: 0 <= i < |r| ==> r[i] == (extensions[i].0, Some(extensions[i].1))
  {
    seq(|extensions|, i requires 0 <= i < |extensions| => (extensions[i].0, Some(extensions[i].1)))
  }

  function BaseFields(record: Record, includeSigs: bool): (r: seq<Field>)
    ensures |r| == 6
  {
    [
      ("v", Some(Unsigned(record.v))),
      ("items", ArrayOf(ItemToCbor, record.items)),
      ("merkle", ArrayOf(MerkleToCbor, record.merkle)),
      ("supersedes", BytesOf(record.supersedes)),
      ("sigs", if includeSigs then ArrayOf(SigToCbor, record.sigs) else None),
      ("crit", ArrayOf(TextToCbor, record.crit))]
  }

  function RecordToCbor(record: Record, includeSigs: bool): Value {
    Map(Fields(BaseFields(record, includeSigs) + ExtensionFields(record.extensions)))
  }

  function EncodeRecord(record: Record): Result<Bytes, Cbor.Error> {
    TryEncode(RecordToCbor(record, true))
  }

  /** The bytes a record signature commits to: everything but the signatures. */
  function EncodeBodyForSigning(record: Record): Result<Bytes, Cbor.Error> {
    TryEncode(RecordToCbor(record, false))
  }

  // ---------------------------------------------------------------------------
  // Accessors
  // ---------------------------------------------------------------------------

  /** The value of the first pair with this text key. */
  function Get(pairs: seq<(Value, Value)>, key: string): Option<Value> {
    if pairs == [] then None
    else if pairs[0].0 == Text(key) then Some(pairs[0].1)
    else Get(pairs[1..], key)
  }

  predicate Has(pairs: seq<(Value, Value)>, key: string) {
    Get(pairs, key).Some?
  }

  predicate TextKeyed(pairs: seq<(Value, Value)>) {
    forall i :: 0 <= i < |pairs| ==> pairs[i].0.Text?
  }

  function TextKeys(pairs: seq<(Value, Value)>): seq<string> {
    if pairs == [] then []
    else (if pairs[0].0.Text? then [pairs[0].0.text] else []) + TextKeys(pairs[1..])
  }

  function AsBytes(v: Option<Value>): Option<Bytes> {
    match v
    case Some(ByteString(b)) => Some(b)
    case _ => None
  }

  function AsText(v: Option<Value>): Option<string> {
    match v
    case Some(Text(t)) => Some(t)
    case _ => None
  }

  // ---------------------------------------------------------------------------
  // Registries
  // ---------------------------------------------------------------------------

  /** Digest lengths of the registered content hashes. */
  function HashLength(alg: string): Option<nat> {
    if alg == "sha2-256" || alg == "blake2b-256" then Some(32) else None
  }

  function MerkleRootLength(alg: string): Option<nat> {
    if alg == "rfc9162-sha256" then Some(32) else None
  }

  function NonceLength(aead: string): Option<nat> {
    if aead == "chacha20-poly1305-stream64k" then Some(24) else None
  }

  /** The field a recipient slot carries under a KEM, and the lengths of its two fields. */
  datatype SlotShape = SlotShape(field: string, fieldLength: nat, wrapLength: nat)

  function ShapeFor(kem: string): Option<SlotShape> {
    if kem == "x25519" then Some(SlotShape("epk", 32, 48))
    else if kem == "mlkem768x25519" then Some(SlotShape("kem_ct", 1120, 48))
    else None
  }

  const BASE_KEYS: seq<string> := ["v", "items", "merkle", "supersedes", "sigs", "crit"]

  // ---------------------------------------------------------------------------
  // Reconstruction
  // ---------------------------------------------------------------------------

  /** Every element converted, or nothing. */
  function Collect<A>(f: Value -> Option<A>, s: seq<Value>): (r: Option<seq<A>>)
    ensures r.Some? <==> forall i :: 0 <= i < |s| ==> f(s[i]).Some?
    ensures r.Some? ==> |r.value| == |s| && forall i :: 0 <= i < |s| ==> f(s[i]) == Some(r.value[i])
  {
    if s == [] then Some([])
    else
      match (f(s[0]), Collect(f, s[1..]))
      case (Some(x), Some(xs)) => Some([x] + xs)
      case _ => None
  }

  /** The elements of an array, anything else counting as absent; `None` when some element is unreadable. */
  function ListFromCbor<A>(f: Value -> Option<A>, v: Option<Value>): Option<Option<seq<A>>> {
    match v
    case Some(Array(items)) =>
      (match Collect(f, items)
       case None => None
       case Some(xs) => Some(Some(xs)))
    case _ => Some(None)
  }

  function TextFromCbor(v: Value): Option<string> {
    AsText(Some(v))
  }

  function SlotFromCbor(v: Value): Option<Slot> {
    if !v.Map? then None
    else Some(Slot(AsBytes(Get(v.pairs, "epk")), AsBytes(Get(v.pairs, "kem_ct")), AsBytes(Get(v.pairs, "wrap"))))
  }

  function ParamsFromCbor(pairs: seq<(Value, Value)>): (r: Option<seq<(string, U64)>>)
    ensures r.Some? ==> |r.value| == |pairs|
  {
    if pairs == [] then Some([])
    else if !pairs[0].0.Text? || !pairs[0].1.Unsigned? then None
    else
      match ParamsFromCbor(pairs[1..])
      case None => None
      case Some(rest) => Some([(pairs[0].0.text, pairs[0].1.n)] + rest)
  }

  function HashesFromCbor(pairs: seq<(Value, Value)>): (r: Option<seq<(string, Bytes)>>)
    ensures r.Some? ==> |r.value| == |pairs|
  {
    if pairs == [] then Some([])
    else if !pairs[0].0.Text? || !pairs[0].1.ByteString? then None
    else
      match HashesFromCbor(pairs[1..])
      case None => None
      case Some(rest) => Some([(pairs[0].0.text, pairs[0].1.bytes)] + rest)
  }

  function PassphraseFromCbor(v: Value): Option<Passphrase> {
    if !v.Map? then None
    else
      match (Get(v.pairs, "params"), AsText(Get(v.pairs, "alg")), AsBytes(Get(v.pairs, "salt")))
      case (Some(Map(params)), Some(alg), Some(salt)) =>
        (match ParamsFromCbor(params)
         case None => None
         case Some(ps) => Some(Passphrase(alg, salt, ps)))
      case _ => None
  }

  /** Every identifier the envelope names is one this implementation supports. */
  predicate IsTyped(pairs: seq<(Value, Value)>) {
    && Get(pairs, "scheme") == Some(Unsigned(1))
    && (match Get(pairs, "kem")
        case None => true
        case Some(Text(kem)) => ShapeFor(kem).Some?
        case _ => false)
    && (match Get(pairs, "aead")
        case Some(Text(aead)) => NonceLength(aead).Some?
        case _ => false)
  }

  function Scheme1FromCbor(pairs: seq<(Value, Value)>): Option<Scheme1> {
    match (AsText(Get(pairs, "aead")), AsBytes(Get(pairs, "nonce")), ListFromCbor(SlotFromCbor, Get(pairs, "slots")))
    case (Some(aead), Some(nonce), Some(slots)) =>
      var passphrase := Get(pairs, "passphrase");
      var block := if passphrase.Some? then PassphraseFromCbor(passphrase.value) else None;
      if passphrase.Some? && block.None? then None
      else Some(Scheme1(1, aead, nonce, AsText(Get(pairs, "kem")), slots, AsBytes(Get(pairs, "slots_mac")), block))
    case _ => None
  }

  /** The typed reading when every identifier is supported; otherwise the value itself. */
  function EnvelopeFromCbor(v: Value): Option<Envelope> {
    if !v.Map? then None
    else if !IsTyped(v.pairs) then Some(Opaque(v))
    else
      match Scheme1FromCbor(v.pairs)
      case None => None
      case Some(enc) => Some(Typed(enc))
  }

  function ItemFromCbor(v: Value): Option<ItemEntry> {
    if !v.Map? then None
    else
      match (Get(v.pairs, "hashes"), ListFromCbor(TextFromCbor, Get(v.pairs, "uris")))
      case (Some(Map(pairs)), Some(uris)) =>
        var hashes := HashesFromCbor(pairs);
        var raw := Get(v.pairs, "enc");
        var enc := if raw.Some? then EnvelopeFromCbor(raw.value) else None;
        if hashes.None? || (raw.Some? && enc.None?) then None else Some(ItemEntry(hashes.value, uris, enc))
      case _ => None
  }

  function MerkleFromCbor(v: Value): Option<MerkleCommit> {
    if !v.Map? then None
    else
      match (AsText(Get(v.pairs, "alg")), AsBytes(Get(v.pairs, "root")), Get(v.pairs, "leaf_count"), ListFromCbor(TextFromCbor, Get(v.pairs, "uris")))
      case (Some(alg), Some(root), Some(Unsigned(n)), Some(uris)) => Some(MerkleCommit(alg, root, n, uris))
      case _ => None
  }

  function SigFromCbor(v: Value): Option<SigEntry> {
    if !v.Map? then None
    else
      match AsBytes(Get(v.pairs, "cose_sign1"))
      case None => None
      case Some(sig) => Some(SigEntry(sig, AsBytes(Get(v.pairs, "cose_key"))))
  }

  function ExtensionsFromCbor(pairs: seq<(Value, Value)>): seq<(string, Value)> {
    if pairs == [] then []
    else
      (if pairs[0].0.Text? && pairs[0].0.text !in BASE_KEYS then [(pairs[0].0.text, pairs[0].1)] else [])
      + ExtensionsFromCbor(pairs[1..])
  }

  function RecordFromCbor(decoded: Value): Option<Record> {
    if !decoded.Map? then None
    else
      var m := decoded.pairs;
      match (Get(m, "v"), ListFromCbor(ItemFromCbor, Get(m, "items")), ListFromCbor(MerkleFromCbor, Get(m, "merkle")),
             ListFromCbor(SigFromCbor, Get(m, "sigs")), ListFromCbor(TextFromCbor, Get(m, "crit")))
      case (Some(Unsigned(n)), Some(items), Some(merkle), Some(sigs), Some(crit)) =>
        Some(Record(n, items, merkle, AsBytes(Get(m, "supersedes")), sigs, crit, ExtensionsFromCbor(m)))
      case _ => None
  }
}
