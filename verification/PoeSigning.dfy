/** Signing a record, attaching the signature, and having the result accepted and verified. */
module PoeSigning {
  import opened Common
  import opened Cbor
  import opened CborProofs
  import Cose
  import CoseSign
  import opened PoeRecord
  import opened PoeShape
  import opened PoeReencode
  import opened PoeValidator
  import opened PoeSpec
  import opened PoeSound
  import opened PoeComplete

  /** What the message decoder accepts, the record validator's own reading of a signature accepts too. */
  lemma DecodedStructure(data: Bytes)
    requires Cose.DecodeSign1(data).Ok?
    ensures SignatureStructure(data).Some?
    ensures SignatureStructure(data).value.1 == Cose.DecodeSign1(data).value.payload.Some?
  {
  }

  /** The record with its signatures replaced by one detached signature that names its signer itself. */
  function Signed(record: Record, message: Bytes): Record {
    record.(sigs := Some([SigEntry(message, None)]))
  }

  /** The record encodes, is accepted, and comes back with the given body. */
  ghost predicate PublishesBody(profile: Profile, options: Options, record: Record, body: Bytes) {
    && EncodeRecord(record).Ok?
    && Validate(profile, options, EncodeRecord(record).value).Accepted?
    && EncodeBodyForSigning(Validate(profile, options, EncodeRecord(record).value).record) == Ok(body)
  }

  /** Signatures are no part of what is signed. */
  lemma BodyUnsigned(record: Record, message: Bytes)
    ensures EncodeBodyForSigning(Signed(record, message)) == EncodeBodyForSigning(record)
  {
    hide TryEncode;
  }

  /** Attaching a detached signature to a sound record leaves it sound. */
  lemma SignedSound(profile: Profile, options: Options, record: Record, message: Bytes)
    requires SoundRecord(profile, options, record)
    requires Cose.DecodeSign1(message).Ok? && Cose.DecodeSign1(message).value.payload.None?
    ensures SoundRecord(profile, options, Signed(record, message))
  {
    hide SoundItems;
    hide SoundCommits;
    hide SoundExtensions;
    hide SignatureStructure;
    hide Cose.DecodeSign1;
    hide SoundSig;
    DecodedStructure(message);
    SigReading(SigEntry(message, None));
    CritUnsigned(profile, options, record, message);
  }

  lemma CritUnsigned(profile: Profile, options: Options, record: Record, message: Bytes)
    requires SoundCrit(profile, options, record)
    ensures SoundCrit(profile, options, Signed(record, message))
  {
    assert forall name :: Extends(record, name) ==> Extends(Signed(record, message), name);
  }

  /** The fields of the body are the fields of the record, without the signatures. */
  lemma BodyField(m: seq<(Value, Value)>, record: Record, i: nat)
    requires Fills(m, BaseFields(record, true) + ExtensionFields(record.extensions))
    requires i < |BaseFields(record, false) + ExtensionFields(record.extensions)| && SoundNames(record.extensions)
    ensures var field := (BaseFields(record, false) + ExtensionFields(record.extensions))[i];
      SameIfAny(Get(Without(m, "sigs"), field.0), field.1)
  {
    hide Get;
    hide Same;
    hide Without;
    hide Named;
    var whole, body := BaseFields(record, true) + ExtensionFields(record.extensions), BaseFields(record, false) + ExtensionFields(record.extensions);
    WithoutGets(m, "sigs", body[i].0);
    assert i >= 6 ==> whole[i] == body[i] == ExtensionFields(record.extensions)[i - 6];
    assert whole[i].0 == body[i].0;
  }

  ghost predicate SoundNames(extensions: seq<(string, Value)>) {
    forall i :: 0 <= i < |extensions| ==> extensions[i].0 !in BASE_KEYS
  }

  lemma BodyKeys(m: seq<(Value, Value)>, record: Record)
    requires Fills(m, BaseFields(record, true) + ExtensionFields(record.extensions))
    ensures forall k :: 0 <= k < |m| ==> m[k].0.Text? && Named(BaseFields(record, false) + ExtensionFields(record.extensions), m[k].0.text)
  {
    hide Get;
    hide Same;
    var whole, body := BaseFields(record, true) + ExtensionFields(record.extensions), BaseFields(record, false) + ExtensionFields(record.extensions);
    forall k | 0 <= k < |m|
      ensures Named(body, m[k].0.text)
    {
      var i :| 0 <= i < |whole| && whole[i].0 == m[k].0.text;
      assert i >= 6 ==> body[i] == whole[i];
      assert body[i].0 == m[k].0.text;
    }
  }

  /** Dropping the signatures from the map of a record leaves the map of its body. */
  lemma BodyFilled(m: seq<(Value, Value)>, record: Record, profile: Profile)
    requires Same(Map(m), RecordToCbor(record, true)) && SoundExtensions(profile, record.extensions)
    ensures Same(Map(Without(m, "sigs")), RecordToCbor(record, false))
  {
    hide Get;
    hide Same;
    hide Fills;
    hide Fields;
    hide BaseFields;
    hide Without;
    hide Named;
    hide NamesDistinct;
    hide WellFormed;
    var s, table := Without(m, "sigs"), BaseFields(record, false) + ExtensionFields(record.extensions);
    RecordFilled(m, record, profile);
    SameWellFormed(Map(m), RecordToCbor(record, true));
    SameParts(Map(m), RecordToCbor(record, true));
    ExtensionNames(record, true);
    BaseNames(record, false);
    JoinedNames(BaseFields(record, false), ExtensionFields(record.extensions), BASE_KEYS);
    BodyKeys(m, record);
    WithoutWellFormed(m, "sigs");
    MapParts(m);
    WithoutMembers(m, "sigs");
    SubKeysNamed(m, s, table);
    forall i | 0 <= i < |table|
      ensures SameIfAny(Get(s, table[i].0), table[i].1)
    {
      BodyField(m, record, i);
    }
    FillsFrom(s, table);
    FieldsSame(s, table);
  }

  lemma SameParts(a: Value, b: Value)
    requires Same(a, b)
    ensures WellFormed(a)
  {
    hide Encode;
  }

  lemma FillsFrom(p: seq<(Value, Value)>, table: seq<Field>)
    requires forall i :: 0 <= i < |p| ==> p[i].0.Text? && Named(table, p[i].0.text)
    requires forall i :: 0 <= i < |table| ==> SameIfAny(Get(p, table[i].0), table[i].1)
    ensures Fills(p, table)
  {
    hide Named;
    hide SameIfAny;
    hide Get;
  }

  /** What a record's signature commits to is the same before encoding and after reading back. */
  lemma BodyReadBack(profile: Profile, options: Options, record: Record, bytes: Bytes)
    requires SoundRecord(profile, options, record) && EncodeRecord(record) == Ok(bytes)
    ensures Validate(profile, options, bytes).Accepted?
    ensures EncodeBodyForSigning(Validate(profile, options, bytes).record) == EncodeBodyForSigning(record)
  {
    hide Validate;
    hide GuardIssues;
    hide Encode;
    hide Decode;
    hide Without;
    hide RecordToCbor;
    hide SoundItems;
    hide SoundCommits;
    hide SoundSigs;
    hide SoundCrit;
    SoundAccepted(profile, options, record, bytes);
    AcceptedReencodes(profile, options, bytes);
    var w := RecordToCbor(record, true);
    DecodeEncode(w);
    CanonStable(w);
    BodyFilled(Decode(bytes).value.pairs, record, profile);
  }

  /** A field of an encodable map has an encodable name and value. */
  lemma FieldEncodes(table: seq<Field>, i: nat)
    requires NamesDistinct(table) && WellFormed(Map(Fields(table))) && i < |table| && table[i].1.Some?
    ensures WellFormed(Text(table[i].0)) && WellFormed(table[i].1.value)
  {
    hide WellFormed;
    hide Fields;
    hide Get;
    var pairs := Fields(table);
    FieldsGet(table, i);
    MapParts(pairs);
    var j := Find(pairs, table[i].0);
  }

  lemma EntryEncodes(message: Bytes)
    requires |message| <= MAX_U64
    ensures WellFormed(SigToCbor(SigEntry(message, None)))
  {
    hide WellFormed;
    hide Fields;
    var table := SigTable(SigEntry(message, None));
    assert table[1].1 == None;
    ShortText("cose_sign1");
    BytesEncode(message);
    FieldsCount(table);
    FieldsEncode(table);
  }

  /** The signature's own field. */
  lemma SignatureEncodes(message: Bytes)
    requires |message| <= MAX_U64
    ensures WellFormed(Text("sigs")) && WellFormed(Array(Each(SigToCbor, [SigEntry(message, None)])))
  {
    hide WellFormed;
    hide SigToCbor;
    var entry := SigEntry(message, None);
    ShortText("sigs");
    EntryEncodes(message);
    assert Each(SigToCbor, [entry]) == [SigToCbor(entry)];
    ArrayEncodes([SigToCbor(entry)]);
  }

  lemma ShortText(s: string)
    requires |s| < 100
    ensures WellFormed(Text(s))
  {
    CoseSign.EncodedLength(s);
  }

  lemma BytesEncode(b: Bytes)
    requires |b| <= MAX_U64
    ensures WellFormed(ByteString(b))
  {
  }

  lemma ArrayEncodes(items: seq<Value>)
    requires |items| <= MAX_U64 && forall i :: 0 <= i < |items| ==> WellFormed(items[i])
    ensures WellFormed(Array(items))
  {
    CoseSign.ItemsEncode(items);
  }

  /** If the body encodes, so does the record with the signature attached, as far as its sizes fit 64 bits. */
  lemma SignedEncodes(profile: Profile, record: Record, message: Bytes)
    requires SoundExtensions(profile, record.extensions) && EncodeBodyForSigning(record).Ok?
    requires |message| <= MAX_U64 && |record.extensions| < MAX_U64 - 6
    ensures EncodeRecord(Signed(record, message)).Ok?
  {
    hide Encode;
    hide Fits;
    hide WellFormed;
    hide Fields;
    hide NamesDistinct;
    var base, ext := BaseFields(Signed(record, message), true), ExtensionFields(record.extensions);
    var body, table := BaseFields(record, false) + ext, base + ext;
    assert WellFormed(Map(Fields(body))) by { TryWellFormed(Map(Fields(body))); }
    ExtensionNames(record, false);
    BaseNames(record, false);
    BaseNames(Signed(record, message), true);
    JoinedNames(BaseFields(record, false), ext, BASE_KEYS);
    JoinedNames(base, ext, BASE_KEYS);
    forall i | 0 <= i < |table| && table[i].1.Some?
      ensures WellFormed(Text(table[i].0)) && WellFormed(table[i].1.value)
    {
      if i == 4 {
        SignatureEncodes(message);
      } else {
        assert i >= 6 ==> table[i] == body[i] == ext[i - 6];
        assert table[i] == body[i];
        FieldEncodes(body, i);
      }
    }
    FieldsCount(table);
    FieldsEncode(table);
    TryWellFormed(Map(Fields(table)));
  }

  lemma TryWellFormed(v: Value)
    ensures TryEncode(v).Ok? <==> WellFormed(v)
  {
  }

  lemma {:induction false} FieldsCount(table: seq<Field>)
    ensures |Fields(table)| <= |table|
  {
    if table != [] {
      FieldsCount(table[1..]);
    }
  }

  /**
    Sign, attach, publish: a record sound under some options and signed by a correct key is accepted
    under them with its signature attached, and the signature verifies over the body of the record
    that is read back.
  */
  lemma SignedRecordAccepted(ed: CoseSign.Ed25519, blake: Bytes -> CoseSign.Digest28, p: Cose.Header, u: Cose.Header, seed: Bytes,
                             profile: Profile, options: Options, record: Record, expected: Option<Bytes>)
    requires SoundRecord(profile, options, record)
    requires EncodeBodyForSigning(record).Ok? && |EncodeBodyForSigning(record).value| <= CoseSign.MAX_LENGTH
    requires CoseSign.Correct(ed) && CoseSign.Addressable(p) && Cose.LabelsInRange(p) && Cose.LabelsInRange(u)
    requires Cose.Alg(p) == Some(Cose.EDDSA) && CoseSign.ResolveKey(Cose.Kid(p), expected) == Some(ed.publicKey(seed)) && !Cose.IsHashed(u)
    requires Cose.Encodable(p) && Cose.Encodable(u) && |record.extensions| <= CoseSign.MAX_LENGTH
    ensures CoseSign.Build(ed, p, u, EncodeBodyForSigning(record).value, CoseSign.Seed(seed)).Ok?
    ensures var body := EncodeBodyForSigning(record).value;
      var message := CoseSign.Build(ed, p, u, body, CoseSign.Seed(seed)).value;
      && CoseSign.Verify(ed, blake, message, body, expected) == CoseSign.Verified(ed.publicKey(seed), Cose.EDDSA)
      && (|message| <= MAX_U64 ==> PublishesBody(profile, options, Signed(record, message), body))
  {
    hide Validate;
    hide EncodeRecord;
    hide SoundExtensions;
    hide Cose.Encodable;
    hide EncodeBodyForSigning;
    hide CoseSign.Verify;
    hide Cose.DecodeSign1;
    hide Cose.EncodeSign1;
    var body := EncodeBodyForSigning(record).value;
    CoseSign.SignThenVerify(ed, blake, p, u, seed, body, expected);
    CoseSign.BuildExactly(ed, p, u, body, CoseSign.Seed(seed));
    var message := CoseSign.Build(ed, p, u, body, CoseSign.Seed(seed)).value;
    var signature := ed.sign(seed, CoseSign.BuildLabel309(Cose.EncodeProtected(p).value, body));
    CoseSign.EncodeDecode(p, u, None, signature);
    SignedSound(profile, options, record, message);
    BodyUnsigned(record, message);
    if |message| <= MAX_U64 {
      SignedEncodes(profile, record, message);
      BodyReadBack(profile, options, Signed(record, message), EncodeRecord(Signed(record, message)).value);
    }
  }
}
