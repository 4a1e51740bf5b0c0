/**
  COSE_Sign1 (RFC 9052) record signatures: header maps, the wire form, the bytes that are signed,
  and building, splitting and verifying a signature.

  Ed25519 and BLAKE2b-224 are parameters.
*/
module Cose {
  import opened Common
  import opened Cbor
  import opened CborProofs
  import opened KeyOrder

  // ---------------------------------------------------------------------------
  // Labels and headers
  // ---------------------------------------------------------------------------

  datatype Label = IntLabel(n: int) | TextLabel(s: string)

  const TWO_64: int := 0x1_0000_0000_0000_0000
  const MAX_I64: int := 0x7fff_ffff_ffff_ffff
  const MIN_I64: int := -0x8000_0000_0000_0000

  /** Integer labels that CBOR can carry; every label a header can be given is one. */
  predicate InRange(l: Label) {
    l.IntLabel? ==> -TWO_64 <= l.n < TWO_64
  }

  /** The casts keep the low 64 bits. */
  function LabelToCbor(l: Label): Value {
    match l
    case IntLabel(n) => if n >= 0 then Unsigned(n % TWO_64) else Negative((-1 - n) % TWO_64)
    case TextLabel(s) => Text(s)
  }

  function LabelFromCbor(v: Value): Option<Label> {
    match v
    case Unsigned(n) => Some(IntLabel(n))
    case Negative(m) => Some(IntLabel(-1 - m))
    case Text(s) => Some(TextLabel(s))
    case _ => None
  }

  /** Labels and their CBOR keys are in bijection over the range CBOR carries. */
  lemma LabelBijection(l: Label, v: Value)
    ensures InRange(l) ==> LabelFromCbor(LabelToCbor(l)) == Some(l)
    ensures LabelFromCbor(v).Some? ==> LabelToCbor(LabelFromCbor(v).value) == v && InRange(LabelFromCbor(v).value)
  {
  }

  type Header = seq<(Label, Value)>

  predicate HasLabel(h: Header, l: Label) {
    exists i :: 0 <= i < |h| && h[i].0 == l
  }

  predicate DistinctLabels(h: Header) {
    forall i, j :: 0 <= i < j < |h| ==> h[i].0 != h[j].0
  }

  predicate LabelsInRange(h: Header) {
    forall i :: 0 <= i < |h| ==> InRange(h[i].0)
  }

  /** The value of the first pair with this label. */
  function Get(h: Header, l: Label): Option<Value> {
    if h == [] then None
    else if h[0].0 == l then Some(h[0].1)
    else Get(h[1..], l)
  }

  /** Replace the value of the first pair with this label, or add a pair. */
  function Assign(h: Header, l: Label, v: Value): Header {
    if h == [] then [(l, v)]
    else if h[0].0 == l then [(l, v)] + h[1..]
    else [h[0]] + Assign(h[1..], l, v)
  }

  lemma {:induction false} AssignGets(h: Header, l: Label, v: Value, other: Label)
    ensures Get(Assign(h, l, v), other) == if other == l then Some(v) else Get(h, other)
  {
    if h != [] && h[0].0 != l {
      AssignGets(h[1..], l, v, other);
      assert Assign(h, l, v)[1..] == Assign(h[1..], l, v);
    }
  }

  lemma HasLabelCons(h: Header, l: Label)
    requires h != []
    ensures HasLabel(h, l) <==> h[0].0 == l || HasLabel(h[1..], l)
  {
    if HasLabel(h, l) && h[0].0 != l {
      var i :| 0 <= i < |h| && h[i].0 == l;
      assert h[1..][i - 1].0 == l;
    }
    if HasLabel(h[1..], l) {
      var i :| 0 <= i < |h[1..]| && h[1..][i].0 == l;
      assert h[i + 1].0 == l;
    }
  }

  lemma NoLabels(l: Label)
    ensures !HasLabel([], l)
  {
  }

  /** Assigning touches one value, or adds one pair at the end. */
  lemma {:induction false} AssignShape(h: Header, l: Label, v: Value)
    ensures var r := Assign(h, l, v);
      && |r| == |h| + (if HasLabel(h, l) then 0 else 1)
      && (forall i :: 0 <= i < |h| ==> r[i].0 == h[i].0)
      && (!HasLabel(h, l) ==> r[|h|] == (l, v))
  {
    hide HasLabel;
    NoLabels(l);
    if h != [] {
      HasLabelCons(h, l);
      if h[0].0 != l {
        AssignShape(h[1..], l, v);
        assert forall i :: 0 < i < |h| ==> h[i] == h[1..][i - 1];
      }
    }
  }

  lemma AssignDistinct(h: Header, l: Label, v: Value)
    requires DistinctLabels(h)
    ensures DistinctLabels(Assign(h, l, v))
  {
    AssignShape(h, l, v);
  }

  lemma AssignHere(h: Header, l: Label, v: Value, i: nat)
    requires i < |h| && Assign(h, l, v) == h[..i] + Assign(h[i..], l, v)
    ensures Assign(h, l, v) ==
      if h[i].0 == l then h[..i] + [(l, v)] + h[i + 1..] else h[..i + 1] + Assign(h[i + 1..], l, v)
  {
    hide Assign;
    AssignStep(h[i..], l, v);
    SliceStep(h, i);
    if h[i].0 == l {
      AppendAssociative(h[..i], [(l, v)], h[i + 1..]);
    } else {
      AppendAssociative(h[..i], [h[i]], Assign(h[i + 1..], l, v));
    }
  }

  lemma AssignStep(h: Header, l: Label, v: Value)
    requires h != []
    ensures Assign(h, l, v) == if h[0].0 == l then [(l, v)] + h[1..] else [h[0]] + Assign(h[1..], l, v)
  {
  }

  lemma SliceStep<T>(s: seq<T>, i: nat)
    requires i < |s|
    ensures s[i..][0] == s[i] && s[i..][1..] == s[i + 1..] && s[..i + 1] == s[..i] + [s[i]]
  {
  }

  lemma AssignEnds(h: Header, l: Label, v: Value)
    ensures h[..0] + Assign(h[0..], l, v) == Assign(h, l, v)
    ensures h[..|h|] + Assign(h[|h|..], l, v) == h + [(l, v)]
  {
    assert h[0..] == h && h[..|h|] == h && h[|h|..] == [];
  }

  class CoseHeader {
    var pairs: Header

    constructor ()
      ensures pairs == []
    {
      pairs := [];
    }

    /** Set a label: its value is found, every other label keeps its own, labels stay distinct. */
    method Set(l: Label, v: Value)
      modifies this
      ensures pairs == Assign(old(pairs), l, v)
      ensures forall other :: Get(pairs, other) == if other == l then Some(v) else Get(old(pairs), other)
      ensures old(DistinctLabels(pairs)) ==> DistinctLabels(pairs)
    {
      hide Get;
      hide Assign;
      hide DistinctLabels;
      ghost var before := pairs;
      forall other
        ensures Get(Assign(before, l, v), other) == if other == l then Some(v) else Get(before, other)
      {
        AssignGets(before, l, v, other);
      }
      if DistinctLabels(before) {
        AssignDistinct(before, l, v);
      }
      AssignEnds(before, l, v);
      for i := 0 to |pairs|
        invariant pairs == before
        invariant Assign(before, l, v) == before[..i] + Assign(before[i..], l, v)
      {
        AssignHere(before, l, v, i);
        if pairs[i].0 == l {
          pairs := pairs[..i] + [(l, v)] + pairs[i + 1..];
          return;
        }
      }
      pairs := pairs + [(l, v)];
    }

    /** Labels of any other kind make the map no header. */
    method FromCborMap(v: Value) returns (ok: bool)
      requires pairs == []
      modifies this
      ensures ok == HeaderFromCbor(v).Some?
      ensures ok ==> HeaderFromCbor(v) == Some(pairs)
    {
      if !v.Map? {
        return false;
      }
      assert v.pairs[0..] == v.pairs;
      NothingRead(HeaderFromPairs(v.pairs));
      for i := 0 to |v.pairs|
        invariant HeaderFromPairs(v.pairs) ==
          match HeaderFromPairs(v.pairs[i..])
          case None => None
          case Some(rest) => Some(pairs + rest)
      {
        assert v.pairs[i..][1..] == v.pairs[i + 1..];
        var key := LabelFromCbor(v.pairs[i].0);
        if key.None? {
          return false;
        }
        ghost var rest := HeaderFromPairs(v.pairs[i + 1..]);
        if rest.Some? {
          assert pairs + ([(key.value, v.pairs[i].1)] + rest.value) == pairs + [(key.value, v.pairs[i].1)] + rest.value;
        }
        pairs := pairs + [(key.value, v.pairs[i].1)];
      }
      assert pairs + [] == pairs;
      return true;
    }
  }

  lemma NothingRead(h: Option<Header>)
    ensures h.Some? ==> [] + h.value == h.value
  {
  }

  function HeaderFromPairs(pairs: seq<(Value, Value)>): (r: Option<Header>)
    ensures r.Some? ==> |r.value| == |pairs|
  {
    if pairs == [] then Some([])
    else
      match (LabelFromCbor(pairs[0].0), HeaderFromPairs(pairs[1..]))
      case (Some(l), Some(rest)) => Some([(l, pairs[0].1)] + rest)
      case _ => None
  }

  function HeaderFromCbor(v: Value): Option<Header> {
    if v.Map? then HeaderFromPairs(v.pairs) else None
  }

  function HeaderPairs(h: Header): (r: seq<(Value, Value)>)
    ensures |r| == |h|
    ensures forall i :: 0 <= i < |h| ==> r[i] == (LabelToCbor(h[i].0), h[i].1)
  {
    seq(|h|, i requires 0 <= i < |h| => (LabelToCbor(h[i].0), h[i].1))
  }

  function HeaderToCbor(h: Header): Value {
    Map(HeaderPairs(h))
  }

  // ---------------------------------------------------------------------------
  // Header fields
  // ---------------------------------------------------------------------------

  const ALG: Label := IntLabel(1)
  const KID: Label := IntLabel(4)
  const EDDSA: int := -8
  const HASHED: Label := TextLabel("hashed")
  const KEY_LENGTH: nat := 32
  const SIGNATURE_LENGTH: nat := 64

  /** An integer that fits a signed 64-bit number. */
  function IntValue(v: Option<Value>): Option<int> {
    match v
    case Some(Unsigned(n)) => if n <= MAX_I64 then Some(n) else None
    case Some(Negative(m)) => if -1 - m >= MIN_I64 then Some(-1 - m) else None
    case _ => None
  }

  function Alg(h: Header): Option<int> {
    IntValue(Get(h, ALG))
  }

  function Kid(h: Header): (r: Option<Bytes>)
    ensures r.Some? ==> |r.value| == KEY_LENGTH
  {
    match Get(h, KID)
    case Some(ByteString(b)) => if |b| == KEY_LENGTH then Some(b) else None
    case _ => None
  }

  predicate IsHashed(unprotected: Header) {
    Get(unprotected, HASHED) == Some(Bool(true))
  }

  // ---------------------------------------------------------------------------
  // The wire form
  // ---------------------------------------------------------------------------

  function EncodeProtected(h: Header): Result<Bytes, Cbor.Error> {
    if h == [] then Ok([]) else TryEncode(HeaderToCbor(h))
  }

  function PayloadValue(payload: Option<Bytes>): Value {
    match payload
    case Some(b) => ByteString(b)
    case None => Null
  }

  function Sign1Value(protectedBytes: Bytes, unprotected: Header, payload: Option<Bytes>, signature: Bytes): Value {
    Array([ByteString(protectedBytes), HeaderToCbor(unprotected), PayloadValue(payload), ByteString(signature)])
  }

  function EncodeSign1(p: Header, u: Header, payload: Option<Bytes>, signature: Bytes): Result<Bytes, Cbor.Error> {
    var protectedBytes :- EncodeProtected(p);
    TryEncode(Sign1Value(protectedBytes, u, payload, signature))
  }

  datatype Sign1 = Sign1(
    protectedHeader: Header, protectedBytes: Bytes, unprotected: Header, payload: Option<Bytes>, signature: Bytes)

  datatype DecodeError =
    | NotCbor
    | NotFourElements
    | ProtectedNotBytes
    | UnprotectedNotMap
    | BadPayload
    | BadSignature
    | ProtectedNotCbor
    | ProtectedNotMap
    | EmptyMapInBytes

  function DecodeProtected(bytes: Bytes): Result<Header, DecodeError> {
    if bytes == [] then Ok([])
    else
      match Decode(bytes)
      case Err(_) => Err(ProtectedNotCbor)
      case Ok(v) =>
        match HeaderFromCbor(v)
        case None => Err(ProtectedNotMap)
        case Some(h) => if h == [] then Err(EmptyMapInBytes) else Ok(h)
  }

  function Sign1FromItems(items: seq<Value>): Result<Sign1, DecodeError> {
    if |items| != 4 then Err(NotFourElements)
    else if !items[0].ByteString? then Err(ProtectedNotBytes)
    else if HeaderFromCbor(items[1]).None? then Err(UnprotectedNotMap)
    else if !items[2].Null? && !items[2].ByteString? then Err(BadPayload)
    else if !items[3].ByteString? || |items[3].bytes| != SIGNATURE_LENGTH then Err(BadSignature)
    else
      var protectedBytes := items[0].bytes;
      var header :- DecodeProtected(protectedBytes);
      Ok(Sign1(header, protectedBytes, HeaderFromCbor(items[1]).value,
               if items[2].Null? then None else Some(items[2].bytes), items[3].bytes))
  }

  function DecodeSign1(bytes: Bytes): Result<Sign1, DecodeError> {
    match Decode(bytes)
    case Err(_) => Err(NotCbor)
    case Ok(v) => if v.Array? then Sign1FromItems(v.items) else Err(NotFourElements)
  }

  // ---------------------------------------------------------------------------
  // Headers through the wire
  // ---------------------------------------------------------------------------

  predicate Encodable(h: Header) {
    Fits(HeaderToCbor(h)) && Encode(HeaderToCbor(h)).Ok?
  }

  /** The header as decoding gives it back: labels in encoded order, values canonical. */
  function CanonHeader(h: Header): (r: Header)
    requires Encodable(h)
    ensures |r| == |h|
  {
    var pairs := HeaderPairs(h);
    Apply(SortedOrder(EncodeKeys(pairs).value), CanonValues(h))
  }

  function CanonValues(h: Header): (r: Header)
    requires Encodable(h)
    ensures |r| == |h|
  {
    var pairs := HeaderPairs(h);
    seq(|h|, i requires 0 <= i < |h| => PairsAt(pairs, i); (h[i].0, Canon(h[i].1)))
  }

  /** Labels that encode alike are one label, so encodable headers have distinct labels. */
  lemma EncodableDistinct(h: Header)
    requires Encodable(h)
    ensures DistinctLabels(h)
  {
    hide Canon;
    hide Encode;
    var pairs := HeaderPairs(h);
    EncodableKeys(h);
    forall i, j | 0 <= i < j < |h|
      ensures h[i].0 != h[j].0
    {
      PairsAt(pairs, i);
      PairsAt(pairs, j);
    }
  }

  lemma EncodableKeys(h: Header)
    requires Encodable(h)
    ensures FitsPairs(HeaderPairs(h)) && EncodeKeys(HeaderPairs(h)).Ok? && EncodeValues(HeaderPairs(h)).Ok?
    ensures Distinct(EncodeKeys(HeaderPairs(h)).value)
    ensures Canon(HeaderToCbor(h)) == Map(Apply(SortedOrder(EncodeKeys(HeaderPairs(h)).value), CanonPairs(HeaderPairs(h))))
  {
    DuplicateExactly(EncodeKeys(HeaderPairs(h)).value);
  }

  /** What a header can be encoded with: labels that all differ, and values and lengths that encode. */
  lemma EncodableExactly(h: Header)
    requires LabelsInRange(h)
    ensures Encodable(h) <==>
      && |h| <= MAX_U64 && DistinctLabels(h)
      && forall i :: 0 <= i < |h| ==> TryEncode(LabelToCbor(h[i].0)).Ok? && TryEncode(h[i].1).Ok?
  {
    hide Encode;
    hide Canon;
    hide LabelToCbor;
    var pairs := HeaderPairs(h);
    MapEncodesExactly(pairs);
    assert Encodable(h) <==> TryEncode(Map(pairs)).Ok?;
    forall i, j | 0 <= i < j < |h| && TryEncode(pairs[i].0).Ok? && TryEncode(pairs[i].0) == TryEncode(pairs[j].0)
      ensures h[i].0 == h[j].0
    {
      LabelReadsBack(h[i].0);
      LabelReadsBack(h[j].0);
    }
  }

  /** A label's encoding tells the label. */
  lemma LabelReadsBack(l: Label)
    requires InRange(l) && TryEncode(LabelToCbor(l)).Ok?
    ensures Decode(TryEncode(LabelToCbor(l)).value).Ok?
    ensures LabelFromCbor(Decode(TryEncode(LabelToCbor(l)).value).value) == Some(l)
  {
    hide Encode;
    hide Decode;
    LabelBijection(l, Null);
    DecodeEncode(LabelToCbor(l));
    CanonLabel(l);
  }

  lemma CanonLabel(l: Label)
    requires Fits(LabelToCbor(l))
    ensures Encode(LabelToCbor(l)).Ok? && Canon(LabelToCbor(l)) == LabelToCbor(l)
  {
  }

  lemma CanonHeaderPairs(h: Header)
    requires Encodable(h)
    ensures Canon(HeaderToCbor(h)) == HeaderToCbor(CanonHeader(h))
  {
    hide Canon;
    hide Encode;
    hide SortedOrder;
    EncodableKeys(h);
    var pairs := HeaderPairs(h);
    var order := SortedOrder(EncodeKeys(pairs).value);
    forall i | 0 <= i < |h|
      ensures CanonPairs(pairs)[i] == (LabelToCbor(CanonValues(h)[i].0), CanonValues(h)[i].1)
    {
      PairsAt(pairs, i);
      CanonLabel(h[i].0);
    }
    assert Apply(order, CanonPairs(pairs)) == HeaderPairs(CanonHeader(h));
  }

  lemma {:induction false} HeaderRoundTrip(h: Header)
    requires LabelsInRange(h)
    ensures HeaderFromPairs(HeaderPairs(h)) == Some(h)
  {
    if h != [] {
      LabelBijection(h[0].0, Null);
      HeaderRoundTrip(h[1..]);
      assert HeaderPairs(h)[1..] == HeaderPairs(h[1..]);
      assert h == [h[0]] + h[1..];
    }
  }

  lemma {:induction false} PairsRoundTrip(pairs: seq<(Value, Value)>)
    requires HeaderFromPairs(pairs).Some?
    ensures HeaderPairs(HeaderFromPairs(pairs).value) == pairs
    ensures LabelsInRange(HeaderFromPairs(pairs).value)
  {
    hide LabelFromCbor;
    hide LabelToCbor;
    hide InRange;
    if pairs != [] {
      LabelBijection(IntLabel(0), pairs[0].0);
      PairsRoundTrip(pairs[1..]);
      var h := HeaderFromPairs(pairs[1..]).value;
      var first := (LabelFromCbor(pairs[0].0).value, pairs[0].1);
      assert HeaderFromPairs(pairs).value == [first] + h;
      assert HeaderPairs([first] + h) == [pairs[0]] + HeaderPairs(h);
    }
  }

  /** What a header is after the wire: every label keeps its value, in canonical form. */
  lemma HeaderDecoded(h: Header)
    requires Encodable(h) && LabelsInRange(h)
    ensures HeaderFromCbor(Canon(HeaderToCbor(h))) == Some(CanonHeader(h))
  {
    hide Canon;
    hide Encode;
    EncodableKeys(h);
    CanonHeaderPairs(h);
    var order := SortedOrder(EncodeKeys(HeaderPairs(h)).value);
    assert LabelsInRange(CanonHeader(h));
    HeaderRoundTrip(CanonHeader(h));
  }

  lemma {:induction false} GetAt(h: Header, i: nat)
    requires i < |h| && DistinctLabels(h)
    ensures Get(h, h[i].0) == Some(h[i].1)
  {
    if i > 0 {
      forall j, k | 0 <= j < k < |h[1..]|
        ensures h[1..][j].0 != h[1..][k].0
      {
        assert h[1..][j] == h[j + 1] && h[1..][k] == h[k + 1];
      }
      GetAt(h[1..], i - 1);
    }
  }

  lemma {:induction false} GetFrom(h: Header, l: Label)
    ensures Get(h, l).Some? <==> HasLabel(h, l)
    ensures Get(h, l).Some? ==> exists i :: 0 <= i < |h| && h[i] == (l, Get(h, l).value)
  {
    if h != [] {
      HasLabelCons(h, l);
      if h[0].0 == l {
        assert h[0] == (l, Get(h, l).value);
      } else {
        GetFrom(h[1..], l);
        if Get(h, l).Some? {
          var i :| 0 <= i < |h[1..]| && h[1..][i] == (l, Get(h[1..], l).value);
          assert h[i + 1] == (l, Get(h, l).value);
        }
      }
    }
  }
}
