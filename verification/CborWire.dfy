/**
  The bytes themselves: what every value is written as, octet by octet, and which of the two errors the
  decoder answers on the byte strings that are no encoding.
*/
module CborWire {
  import opened Common
  import opened Cbor
  import opened CborProofs
  import opened KeyOrder
  import opened LexOrder
  import Utf8

  // ---------------------------------------------------------------------------
  // Headers
  // ---------------------------------------------------------------------------

  /** The initial byte of a major type, and an argument behind it if it does not fit inside. */
  function Head(initial: nat, n: U64): (b: Bytes)
    requires initial <= 0xe0
    ensures b != []
  {
    if n < 0x18 then [initial + n]
    else if n < 0x100 then [initial + 0x18, n]
    else if n < 0x1_0000 then [initial + 0x19, n / 0x100, n % 0x100]
    else if n < 0x1_0000_0000 then [initial + 0x1a, n / 0x100_0000, n / 0x1_0000 % 0x100, n / 0x100 % 0x100, n % 0x100]
    else
      [initial + 0x1b, n / 0x100_0000_0000_0000, n / 0x1_0000_0000_0000 % 0x100, n / 0x100_0000_0000 % 0x100,
       n / 0x1_0000_0000 % 0x100, n / 0x100_0000 % 0x100, n / 0x1_0000 % 0x100, n / 0x100 % 0x100, n % 0x100]
  }

  lemma TwoBytes(n: nat)
    requires n < 0x1_0000
    ensures BigEndian(n, 1) == [n % 0x100] && BigEndian(n, 2) == [n / 0x100, n % 0x100]
  {
    hide BigEndian;
    OneByte(n);
    OneByte(n / 0x100 / 0x100);
    WiderBigEndian(n, 0);
    SmallQuotient(n);
  }

  lemma SmallQuotient(n: nat)
    requires n < 0x1_0000
    ensures n / 0x100 % 0x100 == n / 0x100
  {
  }

  lemma OneByte(n: nat)
    ensures BigEndian(n, 0) == [] && BigEndian(n, 1) == [n % 0x100]
  {
  }

  lemma WiderBigEndian(n: nat, width: nat)
    ensures BigEndian(n, width + 2) == BigEndian(n / 0x100 / 0x100, width) + [n / 0x100 % 0x100, n % 0x100]
  {
  }

  lemma FourBytes(n: nat)
    requires n < 0x1_0000_0000
    ensures BigEndian(n, 4) == [n / 0x100_0000, n / 0x1_0000 % 0x100, n / 0x100 % 0x100, n % 0x100]
  {
    WiderBigEndian(n, 2);
    TwoBytes(n / 0x1_0000);
    assert n / 0x100 / 0x100 == n / 0x1_0000 && n / 0x1_0000 / 0x100 == n / 0x100_0000;
  }

  lemma EightBytes(n: U64)
    ensures BigEndian(n, 8) ==
      [n / 0x100_0000_0000_0000, n / 0x1_0000_0000_0000 % 0x100, n / 0x100_0000_0000 % 0x100, n / 0x1_0000_0000 % 0x100,
       n / 0x100_0000 % 0x100, n / 0x1_0000 % 0x100, n / 0x100 % 0x100, n % 0x100]
  {
    hide BigEndian;
    var high := n / 0x1_0000_0000;
    WiderBigEndian(n, 6);
    WiderBigEndian(n / 0x1_0000, 4);
    FourBytes(high);
    Quotients(n);
    assert BigEndian(n, 8) == BigEndian(high, 4) + [n / 0x1_0000 / 0x100 % 0x100, n / 0x1_0000 % 0x100] + [n / 0x100 % 0x100, n % 0x100];
  }

  lemma Quotients(n: nat)
    ensures n / 0x100 / 0x100 == n / 0x1_0000
    ensures n / 0x1_0000 / 0x100 == n / 0x100_0000 && n / 0x1_0000 / 0x100 / 0x100 == n / 0x1_0000_0000
    ensures n / 0x1_0000_0000 / 0x100 == n / 0x100_0000_0000
    ensures n / 0x1_0000_0000 / 0x1_0000 == n / 0x1_0000_0000_0000
    ensures n / 0x1_0000_0000 / 0x100_0000 == n / 0x100_0000_0000_0000
  {
  }

  /** Every header, as its bytes. */
  lemma HeaderBytes(major: nat, n: U64)
    requires major < 8
    ensures TypeAndArgument(major, n) == Head(major * 0x20, n)
  {
    hide BigEndian;
    if 0x18 <= n < 0x1_0000 {
      TwoBytes(n);
    } else if 0x1_0000 <= n < 0x1_0000_0000 {
      FourBytes(n);
    } else if 0x1_0000_0000 <= n {
      EightBytes(n);
    }
  }

  // ---------------------------------------------------------------------------
  // Values
  // ---------------------------------------------------------------------------

  /** The encodings of the parts, one after the other. */
  ghost predicate WrittenAs(items: seq<Value>, b: Bytes)
    decreases |items|
  {
    if items == [] then b == []
    else
      && Fits(items[0]) && Encode(items[0]).Ok? && Encode(items[0]).value <= b
      && WrittenAs(items[1..], b[|Encode(items[0]).value|..])
  }

  /** What every value but a map is written as. */
  lemma WireFormat(v: Value)
    requires Fits(v) && Encode(v).Ok?
    ensures match v
      case Unsigned(n) => Encode(v).value == Head(0x00, n)
      case Negative(m) => Encode(v).value == Head(0x20, m)
      case ByteString(b) => Encode(v).value == Head(0x40, |b|) + b
      case Text(s) => Encode(v).value == Head(0x60, |Utf8.Encode(s)|) + Utf8.Encode(s)
      case Array(items) => Head(0x80, |items|) <= Encode(v).value && WrittenAs(items, Encode(v).value[|Head(0x80, |items|)|..])
      case Map(pairs) => |pairs| <= MAX_U64 && Head(0xa0, |pairs|) <= Encode(v).value
      case Bool(b) => Encode(v).value == [if b then 0xf5 else 0xf4]
      case Null => Encode(v).value == [0xf6]
  {
    hide TypeAndArgument;
    hide Head;
    match v
    case Unsigned(n) => HeaderBytes(0, n);
    case Negative(m) => HeaderBytes(1, m);
    case ByteString(b) => HeaderBytes(2, |b|);
    case Text(s) => HeaderBytes(3, |Utf8.Encode(s)|);
    case Array(items) =>
      HeaderBytes(4, |items|);
      AllWritten(items);
    case Map(pairs) => HeaderBytes(5, |pairs|);
    case _ =>
  }

  lemma {:induction false} AllWritten(items: seq<Value>)
    requires FitsAll(items) && EncodeAll(items).Ok?
    ensures WrittenAs(items, EncodeAll(items).value)
  {
    if items != [] {
      AllWritten(items[1..]);
      var first, rest := Encode(items[0]).value, EncodeAll(items[1..]).value;
      assert (first + rest)[|first|..] == rest;
    }
  }

  /** The pairs of a map in some order, keys and values side by side. */
  function Interleaved(pairs: seq<(Value, Value)>, order: seq<nat>): seq<Value>
    requires forall i :: 0 <= i < |order| ==> order[i] < |pairs|
  {
    if order == [] then [] else [pairs[order[0]].0, pairs[order[0]].1] + Interleaved(pairs, order[1..])
  }

  /** A map is written pair by pair, once each, the encoded keys strictly increasing. */
  lemma MapOnWire(pairs: seq<(Value, Value)>) returns (order: seq<nat>)
    requires Fits(Map(pairs)) && Encode(Map(pairs)).Ok?
    ensures IsPermutation(order, |pairs|)
    ensures forall i :: 0 <= i < |order| ==> order[i] < |pairs| && Fits(pairs[order[i]].0) && Encode(pairs[order[i]].0).Ok?
    ensures forall i :: 0 < i < |order| ==> Less(Encode(pairs[order[i - 1]].0).value, Encode(pairs[order[i]].0).value)
    ensures Head(0xa0, |pairs|) <= Encode(Map(pairs)).value
    ensures WrittenAs(Interleaved(pairs, order), Encode(Map(pairs)).value[|Head(0xa0, |pairs|)|..])
  {
    hide TypeAndArgument;
    hide Head;
    hide Encode;
    hide SortedOrder;
    hide WrittenAs;
    hide Interleaved;
    hide IsPermutation;
    MapEncodes(pairs);
    var keys, values := EncodeKeys(pairs).value, EncodeValues(pairs).value;
    order := SortedOrder(keys);
    OrderIsPermutation(keys);
    SortedStrictly(keys);
    forall i | 0 <= i < |order|
      ensures Fits(pairs[order[i]].0) && Encode(pairs[order[i]].0) == Ok(Apply(order, keys)[i])
    {
      PairsAt(pairs, order[i]);
    }
    MapShape(pairs);
    HeaderBytes(5, |pairs|);
    PairsWritten(pairs, order);
    var body := Pack(Apply(order, keys), Apply(order, values));
    assert (Head(0xa0, |pairs|) + body)[|Head(0xa0, |pairs|)|..] == body;
  }

  lemma MapShape(pairs: seq<(Value, Value)>)
    requires Fits(Map(pairs)) && Encode(Map(pairs)).Ok?
    ensures FitsPairs(pairs) && EncodeKeys(pairs).Ok? && EncodeValues(pairs).Ok?
    ensures var keys, values := EncodeKeys(pairs).value, EncodeValues(pairs).value;
      Encode(Map(pairs)).value == TypeAndArgument(5, |pairs|) + Pack(Apply(SortedOrder(keys), keys), Apply(SortedOrder(keys), values))
  {
    hide EncodeKeys;
    hide EncodeValues;
    hide HasDuplicate;
    hide Pack;
    hide TypeAndArgument;
    hide SortedOrder;
    hide Apply;
    hide FitsPairs;
    hide CanonPairs;
    MapEncodes(pairs);
  }

  lemma {:induction false} PairsWritten(pairs: seq<(Value, Value)>, order: seq<nat>)
    requires FitsPairs(pairs) && EncodeKeys(pairs).Ok? && EncodeValues(pairs).Ok?
    requires forall i :: 0 <= i < |order| ==> order[i] < |pairs|
    ensures WrittenAs(Interleaved(pairs, order), Pack(Apply(order, EncodeKeys(pairs).value), Apply(order, EncodeValues(pairs).value)))
  {
    hide Encode;
    hide EncodeKeys;
    hide EncodeValues;
    hide WrittenAs;
    var keys, values := EncodeKeys(pairs).value, EncodeValues(pairs).value;
    if order == [] {
      NothingWritten();
    } else {
      var p := pairs[order[0]];
      PairsAt(pairs, order[0]);
      PairsWritten(pairs, order[1..]);
      assert Apply(order, keys)[1..] == Apply(order[1..], keys) && Apply(order, values)[1..] == Apply(order[1..], values);
      var rest := Pack(Apply(order[1..], keys), Apply(order[1..], values));
      var tail := Interleaved(pairs, order[1..]);
      WrittenFirst(p.1, tail, rest);
      WrittenFirst(p.0, [p.1] + tail, Encode(p.1).value + rest);
      assert [p.0] + ([p.1] + tail) == [p.0, p.1] + tail;
      AppendAssociative(Encode(p.0).value, Encode(p.1).value, rest);
    }
  }

  lemma NothingWritten()
    ensures WrittenAs([], [])
  {
  }

  lemma WrittenFirst(v: Value, tail: seq<Value>, rest: Bytes)
    requires Fits(v) && Encode(v).Ok? && WrittenAs(tail, rest)
    ensures WrittenAs([v] + tail, Encode(v).value + rest)
  {
    hide Encode;
    assert ([v] + tail)[1..] == tail && (Encode(v).value + rest)[|Encode(v).value|..] == rest;
  }

  // ---------------------------------------------------------------------------
  // Values that have no encoding
  // ---------------------------------------------------------------------------

  lemma {:induction false} AllEncode(items: seq<Value>)
    ensures FitsAll(items) && EncodeAll(items).Ok? <==> forall i :: 0 <= i < |items| ==> TryEncode(items[i]).Ok?
  {
    hide Encode;
    hide Fits;
    if items != [] {
      AllEncode(items[1..]);
      assert (forall i :: 0 <= i < |items| ==> TryEncode(items[i]).Ok?) <==>
        TryEncode(items[0]).Ok? && forall i :: 0 <= i < |items[1..]| ==> TryEncode(items[1..][i]).Ok?;
    }
  }

  /** The encoder refuses what 64 bits cannot count, and maps with two keys that encode alike, at any depth; it has one error for both. */
  lemma EncodesExactly(v: Value)
    ensures TryEncode(v).Ok? <==>
      match v
      case ByteString(b) => |b| <= 0xffff_ffff_ffff_ffff
      case Text(s) => |Utf8.Encode(s)| <= 0xffff_ffff_ffff_ffff
      case Array(items) => |items| <= 0xffff_ffff_ffff_ffff && forall i :: 0 <= i < |items| ==> TryEncode(items[i]).Ok?
      case Map(pairs) =>
        && |pairs| <= 0xffff_ffff_ffff_ffff
        && (forall i :: 0 <= i < |pairs| ==> TryEncode(pairs[i].0).Ok? && TryEncode(pairs[i].1).Ok?)
        && (forall i, j :: 0 <= i < j < |pairs| ==> TryEncode(pairs[i].0) != TryEncode(pairs[j].0))
      case _ => true
    ensures TryEncode(v).Ok? || TryEncode(v) == Err(Malformed)
  {
    hide EncodeAll;
    hide FitsAll;
    hide TypeAndArgument;
    if v.Array? {
      AllEncode(v.items);
      ArrayEncodes(v.items);
    } else if v.Map? {
      hide Encode;
      MapEncodesExactly(v.pairs);
    }
    if Fits(v) {
      OnlyMalformed(v);
    }
  }

  lemma ArrayEncodes(items: seq<Value>)
    ensures TryEncode(Array(items)).Ok? <==> |items| <= MAX_U64 && FitsAll(items) && EncodeAll(items).Ok?
  {
    hide EncodeAll;
    hide FitsAll;
    hide TypeAndArgument;
  }

  lemma {:induction false} OnlyMalformed(v: Value)
    requires Fits(v)
    ensures Encode(v).Err? ==> Encode(v) == Err(Malformed)
    decreases v, 1
  {
    match v
    case Array(items) => ItemsMalformed(items);
    case Map(pairs) => PairsMalformed(pairs);
    case _ =>
  }

  lemma {:induction false} ItemsMalformed(items: seq<Value>)
    requires FitsAll(items)
    ensures EncodeAll(items).Err? ==> EncodeAll(items) == Err(Malformed)
    decreases items, 0
  {
    if items != [] {
      OnlyMalformed(items[0]);
      ItemsMalformed(items[1..]);
    }
  }

  lemma {:induction false} PairsMalformed(pairs: seq<(Value, Value)>)
    requires FitsPairs(pairs)
    ensures EncodeKeys(pairs).Err? ==> EncodeKeys(pairs) == Err(Malformed)
    ensures EncodeValues(pairs).Err? ==> EncodeValues(pairs) == Err(Malformed)
    decreases pairs, 0
  {
    if pairs != [] {
      PairMalformed(pairs[0]);
      PairsMalformed(pairs[1..]);
    }
  }

  lemma {:induction false} PairMalformed(p: (Value, Value))
    requires FitsPair(p)
    ensures EncodeKey(p).Err? ==> EncodeKey(p) == Err(Malformed)
    ensures EncodeValue(p).Err? ==> EncodeValue(p) == Err(Malformed)
    decreases p, 2
  {
    OnlyMalformed(p.0);
    OnlyMalformed(p.1);
  }

  // ---------------------------------------------------------------------------
  // Indefinite lengths
  // ---------------------------------------------------------------------------

  /** The head of an array of `n` items and fewer than `n` of them. */
  ghost predicate OpenArray(b: Bytes, n: U64, items: seq<Value>) {
    |items| < n && FitsAll(items) && EncodeAll(items).Ok? && b == Head(0x80, n) + EncodeAll(items).value
  }

  /** Pairs in key order, written out. */
  ghost predicate InKeyOrder(pairs: seq<(Value, Value)>) {
    FitsPairs(pairs) && EncodeKeys(pairs).Ok? && EncodeValues(pairs).Ok? && StrictlyIncreasing(EncodeKeys(pairs).value)
  }

  /** The head of a map of `n` pairs and fewer than `n` of them, in key order. */
  ghost predicate OpenMap(b: Bytes, n: U64, pairs: seq<(Value, Value)>) {
    |pairs| < n && InKeyOrder(pairs) && b == Head(0xa0, n) + Pack(EncodeKeys(pairs).value, EncodeValues(pairs).value)
  }

  /** The same with a further key behind them, greater than the last. */
  ghost predicate OpenPair(b: Bytes, n: U64, pairs: seq<(Value, Value)>, key: Value) {
    && |pairs| < n && InKeyOrder(pairs) && Fits(key) && Encode(key).Ok?
    && (pairs != [] ==> Less(EncodeKeys(pairs).value[|pairs| - 1], Encode(key).value))
    && b == Head(0xa0, n) + Pack(EncodeKeys(pairs).value, EncodeValues(pairs).value) + Encode(key).value
  }

  /** Everything is in order up to an initial byte that announces an indefinite length. */
  ghost predicate Indefinite(s: Bytes)
    decreases |s|
  {
    s != [] &&
    (|| (s[0] / 0x20 != 6 && s[0] % 0x20 == 0x1f)
     || (exists k: nat, n: U64, items :: 0 < k <= |s| && OpenArray(s[..k], n, items) && Indefinite(s[k..]))
     || (exists k: nat, n: U64, pairs :: 0 < k <= |s| && OpenMap(s[..k], n, pairs) && Indefinite(s[k..]))
     || (exists k: nat, n: U64, pairs, key :: 0 < k <= |s| && OpenPair(s[..k], n, pairs, key) && Indefinite(s[k..])))
  }

  const STOPPED: Error := IndefiniteLength

  /** Items in front of one that stops the decoder. */
  lemma {:induction false} ItemsStop(items: seq<Value>, t: Bytes, n: nat)
    requires |items| < n && FitsAll(items) && EncodeAll(items).Ok? && Parse(t) == Err(STOPPED)
    ensures ParseItems(EncodeAll(items).value + t, n) == Err(STOPPED)
  {
    hide Parse;
    hide Encode;
    if items == [] {
      assert EncodeAll(items).value + t == t;
    } else {
      var rest := EncodeAll(items[1..]).value;
      ItemsStop(items[1..], t, n - 1);
      ParseEncoded(items[0], rest + t);
      AppendAssociative(Encode(items[0]).value, rest, t);
    }
  }

  /** A run of items that stops the decoder has complete items in front of one that does. */
  lemma {:induction false} StoppedItems(s: Bytes, n: nat) returns (items: seq<Value>, k: nat)
    requires ParseItems(s, n) == Err(STOPPED)
    ensures |items| < n && FitsAll(items) && EncodeAll(items).Ok?
    ensures k <= |s| && s[..k] == EncodeAll(items).value && Parse(s[k..]) == Err(STOPPED)
    decreases n
  {
    hide Parse;
    hide Encode;
    if Parse(s).Err? {
      items, k := [], 0;
      assert s[0..] == s;
    } else {
      var (first, rest) := Parse(s).value;
      ParseCanonical(s);
      var e := Encode(first).value;
      var tail, j := StoppedItems(rest, n - 1);
      items, k := [first] + tail, |e| + j;
      assert items[1..] == tail;
      assert s == e + rest;
      assert s[..k] == e + rest[..j] && s[k..] == rest[j..];
    }
  }

  /** The key a further one has to exceed. */
  function LastKey(pairs: seq<(Value, Value)>, prev: Option<Bytes>): Option<Bytes>
    requires FitsPairs(pairs) && EncodeKeys(pairs).Ok?
  {
    if pairs == [] then prev else Some(EncodeKeys(pairs).value[|pairs| - 1])
  }

  /** In key order, all of it above `prev`. */
  ghost predicate Above(pairs: seq<(Value, Value)>, prev: Option<Bytes>) {
    InKeyOrder(pairs) && (prev.Some? && pairs != [] ==> Less(prev.value, EncodeKeys(pairs).value[0]))
  }

  lemma AboveTail(pairs: seq<(Value, Value)>, prev: Option<Bytes>)
    requires Above(pairs, prev) && pairs != []
    ensures FitsPair(pairs[0]) && EncodeKey(pairs[0]).Ok? && EncodeValue(pairs[0]).Ok?
    ensures Above(pairs[1..], Some(EncodeKey(pairs[0]).value))
    ensures EncodeKeys(pairs).value == [EncodeKey(pairs[0]).value] + EncodeKeys(pairs[1..]).value
    ensures EncodeValues(pairs).value == [EncodeValue(pairs[0]).value] + EncodeValues(pairs[1..]).value
  {
    hide EncodeKey;
    hide EncodeValue;
    hide EncodeKeys;
    hide EncodeValues;
    hide FitsPair;
    hide StrictlyIncreasing;
    FirstApart(pairs);
    IncreasingTail(EncodeKey(pairs[0]).value, EncodeKeys(pairs[1..]).value);
  }

  lemma FirstApart(pairs: seq<(Value, Value)>)
    requires FitsPairs(pairs) && EncodeKeys(pairs).Ok? && EncodeValues(pairs).Ok? && pairs != []
    ensures FitsPair(pairs[0]) && EncodeKey(pairs[0]).Ok? && EncodeValue(pairs[0]).Ok?
    ensures FitsPairs(pairs[1..]) && EncodeKeys(pairs[1..]).Ok? && EncodeValues(pairs[1..]).Ok?
    ensures EncodeKeys(pairs).value == [EncodeKey(pairs[0]).value] + EncodeKeys(pairs[1..]).value
    ensures EncodeValues(pairs).value == [EncodeValue(pairs[0]).value] + EncodeValues(pairs[1..]).value
  {
    hide EncodeKey;
    hide EncodeValue;
    hide FitsPair;
  }

  lemma IncreasingTail(k: Bytes, keys: seq<Bytes>)
    requires StrictlyIncreasing([k] + keys)
    ensures StrictlyIncreasing(keys) && (keys != [] ==> Less(k, keys[0]))
  {
    hide Less;
    var all := [k] + keys;
    assert forall i :: 0 <= i < |keys| ==> keys[i] == all[i + 1];
    assert keys != [] ==> Less(all[0], all[1]);
  }

  lemma AboveCons(p: (Value, Value), tail: seq<(Value, Value)>, prev: Option<Bytes>)
    requires FitsPair(p) && EncodeKey(p).Ok? && EncodeValue(p).Ok? && (prev.Some? ==> Less(prev.value, EncodeKey(p).value))
    requires Above(tail, Some(EncodeKey(p).value))
    ensures Above([p] + tail, prev)
    ensures EncodeKeys([p] + tail).value == [EncodeKey(p).value] + EncodeKeys(tail).value
    ensures EncodeValues([p] + tail).value == [EncodeValue(p).value] + EncodeValues(tail).value
  {
    hide EncodeKey;
    hide EncodeValue;
    hide EncodeKeys;
    hide EncodeValues;
    EncodeCons(p, tail);
  }

  /** Pairs in front of one that stops the decoder. */
  lemma {:induction false} PairsStop(pairs: seq<(Value, Value)>, t: Bytes, n: nat, prev: Option<Bytes>)
    requires |pairs| < n && Above(pairs, prev) && ParsePair(t, LastKey(pairs, prev)) == Err(STOPPED)
    ensures ParsePairs(Pack(EncodeKeys(pairs).value, EncodeValues(pairs).value) + t, n, prev) == Err(STOPPED)
    decreases |pairs|
  {
    hide Parse;
    hide EncodeKey;
    hide EncodeValue;
    hide Above;
    hide InKeyOrder;
    hide EncodeKeys;
    hide EncodeValues;
    hide ParsePairs;
    hide ParsePair;
    if pairs == [] {
      NoPairs(t);
      StopsFirst(t, n, prev);
    } else {
      AboveTail(pairs, prev);
      var k, v, tail := EncodeKey(pairs[0]).value, EncodeValue(pairs[0]).value, pairs[1..];
      AboveParts(pairs, prev);
      AboveParts(tail, Some(k));
      assert LastKey(tail, Some(k)) == LastKey(pairs, prev);
      PairsStop(tail, t, n - 1, Some(k));
      var rest := Pack(EncodeKeys(tail).value, EncodeValues(tail).value) + t;
      PackCons(k, v, EncodeKeys(tail).value, EncodeValues(tail).value, t);
      ParseEncodedPair(pairs[0], v + rest, rest);
      StopsLater(k, v, rest, n, prev);
    }
  }

  lemma AboveParts(pairs: seq<(Value, Value)>, prev: Option<Bytes>)
    requires Above(pairs, prev)
    ensures FitsPairs(pairs) && EncodeKeys(pairs).Ok? && EncodeValues(pairs).Ok?
    ensures prev.Some? && pairs != [] ==> Less(prev.value, EncodeKeys(pairs).value[0])
  {
  }

  lemma StopsFirst(t: Bytes, n: nat, prev: Option<Bytes>)
    requires n > 0 && ParsePair(t, prev) == Err(STOPPED)
    ensures ParsePairs(t, n, prev) == Err(STOPPED)
  {
    hide ParsePair;
  }

  lemma StopsLater(k: Bytes, v: Bytes, rest: Bytes, n: nat, prev: Option<Bytes>)
    requires n > 0 && (prev.Some? ==> Less(prev.value, k))
    requires Parse(k + (v + rest)).Ok? && Parse(k + (v + rest)).value.1 == v + rest
    requires Parse(v + rest).Ok? && Parse(v + rest).value.1 == rest
    requires ParsePairs(rest, n - 1, Some(k)) == Err(STOPPED)
    ensures ParsePairs(k + (v + rest), n, prev) == Err(STOPPED)
  {
    hide Parse;
    assert (k + (v + rest))[..|k|] == k;
  }

  /** A run of pairs that stops the decoder has complete pairs in front of one that does. */
  lemma {:induction false} StoppedPairs(s: Bytes, n: nat, prev: Option<Bytes>) returns (pairs: seq<(Value, Value)>, k: nat)
    requires ParsePairs(s, n, prev) == Err(STOPPED)
    ensures |pairs| < n && Above(pairs, prev)
    ensures k <= |s| && s[..k] == Pack(EncodeKeys(pairs).value, EncodeValues(pairs).value)
    ensures ParsePair(s[k..], LastKey(pairs, prev)) == Err(STOPPED)
    decreases n
  {
    hide ParsePair;
    hide EncodeKey;
    hide EncodeValue;
    hide Pack;
    if ParsePair(s, prev).Err? {
      pairs, k := [], 0;
      NoPairs(s);
      assert s[0..] == s;
      assert Pack([], []) + s == s;
    } else {
      var ((key, p), rest) := ParsePair(s, prev).value;
      PairCanonical(s, prev);
      var tail, j := StoppedPairs(rest, n - 1, Some(key));
      AboveCons(p, tail, prev);
      pairs, k := [p] + tail, |s| - |rest| + j;
      var v := EncodeValue(p).value;
      PackCons(key, v, EncodeKeys(tail).value, EncodeValues(tail).value, rest[j..]);
      assert rest == rest[..j] + rest[j..];
      assert s == Pack(EncodeKeys(pairs).value, EncodeValues(pairs).value) + rest[j..];
      assert s[k..] == rest[j..];
      LastOfCons(p, tail, prev, key);
    }
  }

  lemma LastOfCons(p: (Value, Value), tail: seq<(Value, Value)>, prev: Option<Bytes>, key: Bytes)
    requires FitsPairs(tail) && EncodeKeys(tail).Ok? && FitsPairs([p] + tail) && EncodeKeys([p] + tail).Ok?
    requires EncodeKeys([p] + tail).value == [key] + EncodeKeys(tail).value
    ensures LastKey([p] + tail, prev) == LastKey(tail, Some(key))
  {
  }

  /** An item behind the head of an array or map, read as the decoder reads it. */
  lemma ParseArray(n: U64, body: Bytes)
    ensures Parse(Head(0x80, n) + body) ==
      match ParseItems(body, n)
      case Err(e) => Err(e)
      case Ok((items, rest)) => Ok((Array(items), rest))
  {
    hide Head;
    hide TypeAndArgument;
    hide ReadArgument;
    hide ParseItems;
    HeaderBytes(4, n);
    ArgumentReadsWritten(4, n, body);
  }

  lemma ParseMap(n: U64, body: Bytes)
    ensures Parse(Head(0xa0, n) + body) ==
      match ParsePairs(body, n, None)
      case Err(e) => Err(e)
      case Ok((pairs, rest)) => Ok((Map(pairs), rest))
  {
    hide Head;
    hide TypeAndArgument;
    hide ReadArgument;
    hide ParsePairs;
    HeaderBytes(5, n);
    ArgumentReadsWritten(5, n, body);
  }

  /** A key that reads in front of a value that stops the decoder. */
  lemma ValueStops(key: Value, t: Bytes, prev: Option<Bytes>)
    requires Fits(key) && Encode(key).Ok? && (prev.Some? ==> Less(prev.value, Encode(key).value))
    requires Parse(t) == Err(STOPPED)
    ensures ParsePair(Encode(key).value + t, prev) == Err(STOPPED)
  {
    hide Parse;
    hide Encode;
    ParseEncoded(key, t);
    assert (Encode(key).value + t)[..|Encode(key).value|] == Encode(key).value;
  }

  lemma ArrayStops(b: Bytes, n: U64, items: seq<Value>, t: Bytes)
    requires OpenArray(b, n, items) && Parse(t) == Err(STOPPED)
    ensures Parse(b + t) == Err(STOPPED)
  {
    hide Parse;
    hide Head;
    hide EncodeAll;
    hide ParseItems;
    var body := EncodeAll(items).value;
    ItemsStop(items, t, n);
    ParseArray(n, body + t);
    AppendAssociative(Head(0x80, n), body, t);
  }

  lemma PairStops(b: Bytes, n: U64, pairs: seq<(Value, Value)>, key: Value, t: Bytes)
    requires OpenPair(b, n, pairs, key) && Parse(t) == Err(STOPPED)
    ensures Parse(b + t) == Err(STOPPED)
  {
    hide Parse;
    hide Head;
    hide Encode;
    hide ParsePair;
    hide InKeyOrder;
    KeyOrderParts(pairs);
    ValueStops(key, t, LastKey(pairs, None));
    MapStops(n, pairs, Encode(key).value + t);
    AppendAssociative(Head(0xa0, n) + Pack(EncodeKeys(pairs).value, EncodeValues(pairs).value), Encode(key).value, t);
  }

  lemma KeyOrderParts(pairs: seq<(Value, Value)>)
    requires InKeyOrder(pairs)
    ensures FitsPairs(pairs) && EncodeKeys(pairs).Ok? && EncodeValues(pairs).Ok?
  {
  }

  /** What announces an indefinite length stops the decoder. */
  lemma {:induction false} IndefiniteStops(s: Bytes)
    requires Indefinite(s)
    ensures Parse(s) == Err(STOPPED)
    decreases |s|
  {
    hide Parse;
    hide ParsePair;
    hide OpenArray;
    hide OpenMap;
    hide OpenPair;
    if s[0] / 0x20 != 6 && s[0] % 0x20 == 0x1f {
      FirstByteStops(s);
    } else if k: nat, n: U64, items :| 0 < k <= |s| && OpenArray(s[..k], n, items) && Indefinite(s[k..]) {
      IndefiniteStops(s[k..]);
      ArrayStops(s[..k], n, items, s[k..]);
      assert s == s[..k] + s[k..];
    } else if k: nat, n: U64, pairs :| 0 < k <= |s| && OpenMap(s[..k], n, pairs) && Indefinite(s[k..]) {
      IndefiniteStops(s[k..]);
      MapKeyStops(s[..k], n, pairs, s[k..]);
      assert s == s[..k] + s[k..];
    } else {
      var k: nat, n: U64, pairs, key :| 0 < k <= |s| && OpenPair(s[..k], n, pairs, key) && Indefinite(s[k..]);
      IndefiniteStops(s[k..]);
      PairStops(s[..k], n, pairs, key, s[k..]);
      assert s == s[..k] + s[k..];
    }
  }

  lemma MapKeyStops(b: Bytes, n: U64, pairs: seq<(Value, Value)>, t: Bytes)
    requires OpenMap(b, n, pairs) && Parse(t) == Err(STOPPED)
    ensures Parse(b + t) == Err(STOPPED)
  {
    hide Parse;
    hide Head;
    hide ParsePair;
    hide InKeyOrder;
    KeyOrderParts(pairs);
    KeyStops(t, LastKey(pairs, None));
    MapStops(n, pairs, t);
  }

  lemma FirstByteStops(s: Bytes)
    requires s != [] && s[0] / 0x20 != 6 && s[0] % 0x20 == 0x1f
    ensures Parse(s) == Err(STOPPED)
  {
  }

  lemma KeyStops(t: Bytes, prev: Option<Bytes>)
    requires Parse(t) == Err(STOPPED)
    ensures ParsePair(t, prev) == Err(STOPPED)
  {
    hide Parse;
  }

  lemma MapStops(n: U64, pairs: seq<(Value, Value)>, t: Bytes)
    requires |pairs| < n && InKeyOrder(pairs) && ParsePair(t, LastKey(pairs, None)) == Err(STOPPED)
    ensures Parse(Head(0xa0, n) + Pack(EncodeKeys(pairs).value, EncodeValues(pairs).value) + t) == Err(STOPPED)
  {
    hide Parse;
    hide Head;
    hide ParsePair;
    var body := Pack(EncodeKeys(pairs).value, EncodeValues(pairs).value);
    PairsStop(pairs, t, n, None);
    ParseMap(n, body + t);
    AppendAssociative(Head(0xa0, n), body, t);
  }

  /** The head of an array or map that stops the decoder inside. */
  lemma HeadApart(s: Bytes) returns (n: U64, rest: Bytes)
    requires Parse(s) == Err(STOPPED) && s[0] / 32 != 6 && s[0] % 32 != 0x1f
    ensures s != [] && (s[0] / 32 == 4 || s[0] / 32 == 5) && s == Head(s[0] / 32 * 0x20, n) + rest
    ensures if s[0] / 32 == 4 then ParseItems(rest, n) == Err(STOPPED) else ParsePairs(rest, n, None) == Err(STOPPED)
  {
    hide Head;
    hide ReadArgument;
    hide ParseItems;
    hide ParsePairs;
    hide TypeAndArgument;
    StopsInside(s);
    var major, additional := s[0] / 32, s[0] % 32;
    ArgumentWritesRead(major, additional, s[1..]);
    n, rest := ReadArgument(additional, s[1..]).value.0, ReadArgument(additional, s[1..]).value.1;
    HeaderBytes(major, n);
    assert s == [Header(major, additional)] + s[1..];
  }

  lemma OpenedArray(s: Bytes, n: U64, rest: Bytes) returns (k: nat, items: seq<Value>)
    requires s == Head(0x80, n) + rest && ParseItems(rest, n) == Err(STOPPED)
    ensures 0 < k <= |s| && OpenArray(s[..k], n, items) && Parse(s[k..]) == Err(STOPPED)
  {
    hide Parse;
    hide Head;
    hide ParseItems;
    hide EncodeAll;
    var h := |Head(0x80, n)|;
    var inside, j := StoppedItems(rest, n);
    items, k := inside, h + j;
    assert s[..k] == Head(0x80, n) + rest[..j] && s[k..] == rest[j..];
  }

  lemma OpenedMap(s: Bytes, n: U64, rest: Bytes) returns (k: nat, pairs: seq<(Value, Value)>)
    requires s == Head(0xa0, n) + rest && ParsePairs(rest, n, None) == Err(STOPPED)
    ensures 0 < k <= |s| && OpenMap(s[..k], n, pairs) && ParsePair(s[k..], LastKey(pairs, None)) == Err(STOPPED)
  {
    hide ParsePair;
    hide Head;
    hide ParsePairs;
    hide InKeyOrder;
    var h := |Head(0xa0, n)|;
    var inside, j := StoppedPairs(rest, n, None);
    pairs, k := inside, h + j;
    assert s[..k] == Head(0xa0, n) + rest[..j] && s[k..] == rest[j..];
  }

  lemma OpenedPair(s: Bytes, n: U64, k: nat, pairs: seq<(Value, Value)>) returns (k': nat, key: Value)
    requires 0 < k <= |s| && OpenMap(s[..k], n, pairs) && ParsePair(s[k..], LastKey(pairs, None)) == Err(STOPPED) && Parse(s[k..]).Ok?
    ensures 0 < k' <= |s| && OpenPair(s[..k'], n, pairs, key) && Parse(s[k'..]) == Err(STOPPED)
  {
    hide Parse;
    hide ParsePair;
    hide Head;
    hide Encode;
    hide InKeyOrder;
    KeyOrderParts(pairs);
    var found, e := StopsAtValue(s[k..], LastKey(pairs, None));
    key, k' := found, k + e;
    assert s[..k'] == s[..k] + s[k..][..e] && s[k'..] == s[k..][e..];
  }

  /** What stops the decoder announces an indefinite length. */
  lemma {:induction false} StopsIndefinite(s: Bytes)
    requires Parse(s) == Err(STOPPED)
    ensures Indefinite(s)
    decreases |s|
  {
    hide Head;
    hide ReadArgument;
    hide ParseItems;
    hide ParsePairs;
    hide ParsePair;
    hide OpenArray;
    hide OpenMap;
    hide OpenPair;
    NotTagged(s);
    hide Parse;
    if s[0] % 32 != 0x1f {
      var n, rest := HeadApart(s);
      if s[0] / 32 == 4 {
        var k, items := OpenedArray(s, n, rest);
        StopsIndefinite(s[k..]);
      } else {
        var k, pairs := OpenedMap(s, n, rest);
        OpenMapParts(s[..k], n, pairs);
        if Parse(s[k..]).Err? {
          StopsAtKey(s[k..], LastKey(pairs, None));
          StopsIndefinite(s[k..]);
        } else {
          var k', key := OpenedPair(s, n, k, pairs);
          StopsIndefinite(s[k'..]);
        }
      }
    }
  }

  lemma OpenMapParts(b: Bytes, n: U64, pairs: seq<(Value, Value)>)
    requires OpenMap(b, n, pairs)
    ensures FitsPairs(pairs) && EncodeKeys(pairs).Ok?
  {
  }

  lemma NotTagged(s: Bytes)
    requires Parse(s) == Err(STOPPED)
    ensures s != [] && s[0] / 32 != 6
  {
  }

  /** Past its initial byte, only an array or a map can be stopped inside. */
  lemma StopsInside(s: Bytes)
    requires Parse(s) == Err(STOPPED) && s[0] / 32 != 6 && s[0] % 32 != 0x1f
    ensures s != [] && (s[0] / 32 == 4 || s[0] / 32 == 5) && ReadArgument(s[0] % 32, s[1..]).Ok?
    ensures var (n, rest) := ReadArgument(s[0] % 32, s[1..]).value;
      if s[0] / 32 == 4 then ParseItems(rest, n) == Err(STOPPED) else ParsePairs(rest, n, None) == Err(STOPPED)
  {
    hide ParseItems;
    hide ParsePairs;
  }

  lemma StopsAtKey(t: Bytes, prev: Option<Bytes>)
    requires ParsePair(t, prev) == Err(STOPPED) && Parse(t).Err?
    ensures Parse(t) == Err(STOPPED)
  {
    hide Parse;
  }

  lemma StopsAtValue(t: Bytes, prev: Option<Bytes>) returns (key: Value, e: nat)
    requires ParsePair(t, prev) == Err(STOPPED) && Parse(t).Ok?
    ensures 0 < e <= |t| && Fits(key) && Encode(key) == Ok(t[..e]) && Parse(t[e..]) == Err(STOPPED)
    ensures prev.Some? ==> Less(prev.value, Encode(key).value)
  {
    hide Parse;
    hide Encode;
    ParseCanonical(t);
    var (k, rest) := Parse(t).value;
    key, e := k, |t| - |rest|;
    assert t == Encode(key).value + rest;
    assert t[e..] == rest && t[..e] == Encode(key).value;
  }

  /**
    The decoder on every byte string: it succeeds on encodings and on nothing else, and answers an
    indefinite length exactly when one is announced behind nothing but complete items in order.
  */
  lemma DecodesExactly(s: Bytes)
    ensures Decode(s).Ok? <==> exists v :: Fits(v) && Encode(v) == Ok(s)
    ensures Decode(s) == Err(IndefiniteLength) <==> Indefinite(s)
  {
    hide Parse;
    hide Encode;
    hide Fits;
    hide Indefinite;
    if Decode(s).Ok? {
      DecodeIsEncoding(s);
    }
    if v :| Fits(v) && Encode(v) == Ok(s) {
      DecodeEncode(v);
    }
    if Indefinite(s) {
      IndefiniteStops(s);
    }
    if Parse(s) == Err(STOPPED) {
      StopsIndefinite(s);
    }
  }
}
