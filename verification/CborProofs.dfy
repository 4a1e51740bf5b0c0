/**
  The encoder and the strict decoder are inverse up to map order: what decodes is exactly the
  encoding of the decoded value, and what is encoded decodes to the value in canonical order.
*/
module CborProofs {
  import opened Common
  import opened LexOrder
  import opened KeyOrder
  import opened Cbor
  import Utf8

  // ---------------------------------------------------------------------------
  // Headers and arguments
  // ---------------------------------------------------------------------------

  lemma {:induction false} BigEndianInverse(n: nat, width: nat)
    requires n < Pow(0x100, width)
    ensures FromBigEndian(BigEndian(n, width)) == n
  {
    if width > 0 {
      BigEndianInverse(n / 0x100, width - 1);
      var b := BigEndian(n, width);
      assert b[..|b| - 1] == BigEndian(n / 0x100, width - 1);
    }
  }

  lemma {:induction false} FromBigEndianInverse(b: Bytes)
    ensures BigEndian(FromBigEndian(b), |b|) == b
  {
    if b != [] {
      FromBigEndianInverse(b[..|b| - 1]);
    }
  }

  lemma WideReadsWritten(v: U64, width: nat, atLeast: nat, rest: Bytes)
    requires width <= 8 && atLeast <= v < Pow(0x100, width)
    ensures WideArgument(BigEndian(v, width) + rest, width, atLeast) == Ok((v, rest))
  {
    var s := BigEndian(v, width) + rest;
    assert s[..width] == BigEndian(v, width) && s[width..] == rest;
    BigEndianInverse(v, width);
  }

  lemma Powers()
    ensures Pow(0x100, 1) == 0x100
    ensures Pow(0x100, 2) == 0x1_0000
    ensures Pow(0x100, 4) == 0x1_0000_0000
    ensures Pow(0x100, 8) == 0x1_0000_0000_0000_0000
  {
    assert Pow(0x100, 3) == 0x100_0000;
    assert Pow(0x100, 6) == 0x1_0000_0000_0000;
  }

  /** A written header reads back. */
  lemma ArgumentReadsWritten(major: nat, v: U64, rest: Bytes)
    requires major < 8
    ensures var e := TypeAndArgument(major, v);
      && e[0] / 32 == major
      && ReadArgument(e[0] % 32, (e + rest)[1..]) == Ok((v, rest))
  {
    Powers();
    var e := TypeAndArgument(major, v);
    assert (e + rest)[1..] == e[1..] + rest;
    if v <= 23 {
      assert e[1..] + rest == rest;
    } else if v <= 0xff {
      assert e[1..] == BigEndian(v, 1);
      WideReadsWritten(v, 1, 24, rest);
    } else if v <= 0xffff {
      assert e[1..] == BigEndian(v, 2);
      WideReadsWritten(v, 2, 0x100, rest);
    } else if v <= 0xffff_ffff {
      assert e[1..] == BigEndian(v, 4);
      WideReadsWritten(v, 4, 0x1_0000, rest);
    } else {
      assert e[1..] == BigEndian(v, 8);
      WideReadsWritten(v, 8, 0x1_0000_0000, rest);
    }
  }

  lemma WideWritesRead(s: Bytes, width: nat, atLeast: nat)
    requires width <= 8 && WideArgument(s, width, atLeast).Ok?
    ensures var (v, rest) := WideArgument(s, width, atLeast).value;
      atLeast <= v < Pow(0x100, width) && BigEndian(v, width) + rest == s
  {
    FromBigEndianBound(s[..width], width);
    FromBigEndianInverse(s[..width]);
  }

  /** A header that reads is the one that would be written: the shortest form is the only form. */
  lemma ArgumentWritesRead(major: nat, additional: nat, s: Bytes)
    requires major < 8 && additional < 32 && ReadArgument(additional, s).Ok?
    ensures var (v, rest) := ReadArgument(additional, s).value;
      TypeAndArgument(major, v) + rest == [Header(major, additional)] + s
  {
    Powers();
    if additional == 24 {
      WideWritesRead(s, 1, 24);
    } else if additional == 25 {
      WideWritesRead(s, 2, 0x100);
    } else if additional == 26 {
      WideWritesRead(s, 4, 0x1_0000);
    } else if additional == 27 {
      WideWritesRead(s, 8, 0x1_0000_0000);
    }
  }

  // ---------------------------------------------------------------------------
  // Members of collections
  // ---------------------------------------------------------------------------

  lemma {:induction false} FitsAt(items: seq<Value>, i: nat)
    requires FitsAll(items) && i < |items|
    ensures Fits(items[i])
    ensures EncodeAll(items).Ok? ==> Encode(items[i]).Ok?
    ensures EncodeAll(items).Ok? ==> CanonAll(items)[i] == Canon(items[i])
  {
    if i > 0 {
      FitsAt(items[1..], i - 1);
    }
  }

  lemma {:induction false} FitsPairAt(pairs: seq<(Value, Value)>, i: nat)
    requires FitsPairs(pairs) && i < |pairs|
    ensures FitsPair(pairs[i])
  {
    if i > 0 {
      FitsPairAt(pairs[1..], i - 1);
    }
  }

  // ---------------------------------------------------------------------------
  // Canonicality: what parses is the encoding of what it parses to
  // ---------------------------------------------------------------------------

  ghost predicate IsEncodingOf(s: Bytes, v: Value, rest: Bytes) {
    Fits(v) && Encode(v).Ok? && Encode(v).value + rest == s
  }

  lemma StringCanonical(major: nat, s: Bytes, rest: Bytes, n: U64, v: Value)
    requires major < 8 && n <= |rest| && TypeAndArgument(major, n) + rest == s
    requires Fits(v) && Encode(v) == Ok(TypeAndArgument(major, n) + rest[..n])
    ensures IsEncodingOf(s, v, rest[n..])
  {
    hide Fits;
    hide Encode;
    hide TypeAndArgument;
    AppendAssociative(TypeAndArgument(major, n), rest[..n], rest[n..]);
    assert rest[..n] + rest[n..] == rest;
  }

  lemma CollectionCanonical(s: Bytes, header: Bytes, body: Bytes, rest: Bytes, v: Value)
    requires header + (body + rest) == s
    requires Fits(v) && Encode(v) == Ok(header + body)
    ensures IsEncodingOf(s, v, rest)
  {
    AppendAssociative(header, body, rest);
  }

  lemma SortedStays(keys: seq<Bytes>, values: seq<Bytes>)
    requires StrictlyIncreasing(keys) && |keys| == |values|
    ensures !HasDuplicate(keys)
    ensures Apply(SortedOrder(keys), keys) == keys && Apply(SortedOrder(keys), values) == values
  {
    IncreasingNoDuplicate(keys);
  }

  /** Pairs already in order are packed as they stand. */
  lemma EncodeOrderedMap(pairs: seq<(Value, Value)>)
    requires |pairs| <= MAX_U64 && FitsPairs(pairs) && EncodeKeys(pairs).Ok? && EncodeValues(pairs).Ok?
    requires StrictlyIncreasing(EncodeKeys(pairs).value)
    ensures Encode(Map(pairs)) == Ok(TypeAndArgument(5, |pairs|) + Pack(EncodeKeys(pairs).value, EncodeValues(pairs).value))
  {
    hide StrictlyIncreasing;
    hide SortedOrder;
    hide Apply;
    hide HasDuplicate;
    hide EncodeKeys;
    hide EncodeValues;
    SortedStays(EncodeKeys(pairs).value, EncodeValues(pairs).value);
  }

  lemma {:induction false} ParseCanonical(s: Bytes)
    requires Parse(s).Ok?
    ensures IsEncodingOf(s, Parse(s).value.0, Parse(s).value.1)
    decreases |s|, 0, 0
  {
    var major := s[0] / 32;
    var additional := s[0] % 32;
    var v := Parse(s).value.0;
    assert s == [Header(major, additional)] + s[1..];
    if major < 6 {
      ArgumentWritesRead(major, additional, s[1..]);
      var (argument, rest) := ReadArgument(additional, s[1..]).value;
      if major == 2 {
        StringCanonical(2, s, rest, argument, v);
      } else if major == 3 {
        Utf8.EncodeDecode(rest[..argument]);
        StringCanonical(3, s, rest, argument, v);
      } else if major == 4 {
        ItemsCanonical(rest, argument);
        CollectionCanonical(s, TypeAndArgument(4, argument), EncodeAll(v.items).value, Parse(s).value.1, v);
      } else if major == 5 {
        PairsCanonical(rest, argument, None);
        EncodeOrderedMap(v.pairs);
        CollectionCanonical(s, TypeAndArgument(5, argument), Pack(EncodeKeys(v.pairs).value, EncodeValues(v.pairs).value),
                            Parse(s).value.1, v);
      }
    }
  }

  lemma {:induction false} ItemsCanonical(s: Bytes, count: nat)
    requires ParseItems(s, count).Ok?
    ensures var (items, rest) := ParseItems(s, count).value;
      FitsAll(items) && EncodeAll(items).Ok? && EncodeAll(items).value + rest == s
    decreases |s|, 2, count
  {
    if count > 0 {
      ParseCanonical(s);
      var (first, rest) := Parse(s).value;
      ItemsCanonical(rest, count - 1);
      var (items, rest') := ParseItems(rest, count - 1).value;
      assert ([first] + items)[1..] == items;
      AppendAssociative(Encode(first).value, EncodeAll(items).value, rest');
    }
  }

  lemma EncodeCons(p: (Value, Value), tail: seq<(Value, Value)>)
    requires FitsPair(p) && EncodeKey(p).Ok? && EncodeValue(p).Ok?
    requires FitsPairs(tail) && EncodeKeys(tail).Ok? && EncodeValues(tail).Ok?
    ensures FitsPairs([p] + tail)
    ensures EncodeKeys([p] + tail) == Ok([EncodeKey(p).value] + EncodeKeys(tail).value)
    ensures EncodeValues([p] + tail) == Ok([EncodeValue(p).value] + EncodeValues(tail).value)
  {
    assert ([p] + tail)[1..] == tail;
  }

  lemma PackCons(k: Bytes, v: Bytes, keys: seq<Bytes>, values: seq<Bytes>, rest: Bytes)
    requires |keys| == |values|
    ensures Pack([k] + keys, [v] + values) + rest == k + (v + (Pack(keys, values) + rest))
  {
    assert ([k] + keys)[1..] == keys && ([v] + values)[1..] == values;
  }

  lemma {:induction false} PairCanonical(s: Bytes, prev: Option<Bytes>)
    requires ParsePair(s, prev).Ok?
    ensures var ((keyBytes, p), rest) := ParsePair(s, prev).value;
      && FitsPair(p) && EncodeKey(p) == Ok(keyBytes) && EncodeValue(p).Ok?
      && (prev.Some? ==> Less(prev.value, keyBytes))
      && keyBytes + (EncodeValue(p).value + rest) == s
    decreases |s|, 1, 0
  {
    ParseCanonical(s);
    var (key, rest) := Parse(s).value;
    ParseCanonical(rest);
  }

  lemma NoPairs(rest: Bytes)
    ensures FitsPairs([]) && EncodeKeys([]) == Ok([]) && EncodeValues([]) == Ok([]) && Pack([], []) + rest == rest
  {
  }

  lemma {:induction false} PairsCanonical(s: Bytes, count: nat, prev: Option<Bytes>)
    requires ParsePairs(s, count, prev).Ok?
    ensures var (pairs, rest) := ParsePairs(s, count, prev).value;
      && FitsPairs(pairs) && EncodeKeys(pairs).Ok? && EncodeValues(pairs).Ok?
      && StrictlyIncreasing(EncodeKeys(pairs).value)
      && (prev.Some? && count > 0 ==> Less(prev.value, EncodeKeys(pairs).value[0]))
      && Pack(EncodeKeys(pairs).value, EncodeValues(pairs).value) + rest == s
    decreases |s|, 2, count
  {
    hide EncodeKeys;
    hide EncodeValues;
    hide EncodeKey;
    hide EncodeValue;
    hide ParsePair;
    hide Pack;
    hide FitsPair;
    if count == 0 {
      NoPairs(s);
    } else {
      PairCanonical(s, prev);
      var ((keyBytes, p), rest) := ParsePair(s, prev).value;
      PairsCanonical(rest, count - 1, Some(keyBytes));
      var (tail, rest') := ParsePairs(rest, count - 1, Some(keyBytes)).value;
      EncodeCons(p, tail);
      PackCons(keyBytes, EncodeValue(p).value, EncodeKeys(tail).value, EncodeValues(tail).value, rest');
    }
  }

  /** Canonicality: an accepted byte string is exactly the encoding of the value it decodes to. */
  lemma DecodeIsEncoding(s: Bytes)
    requires Decode(s).Ok?
    ensures Fits(Decode(s).value) && Encode(Decode(s).value) == Ok(s)
  {
    ParseCanonical(s);
    var e := Encode(Decode(s).value).value;
    assert e + [] == e;
  }

  /** Each value has at most one accepted encoding. */
  lemma DecodeInjective(s: Bytes, t: Bytes)
    requires Decode(s).Ok? && Decode(s) == Decode(t)
    ensures s == t
  {
    DecodeIsEncoding(s);
    DecodeIsEncoding(t);
  }

  // ---------------------------------------------------------------------------
  // Round trip: what is encoded decodes to the value in canonical order
  // ---------------------------------------------------------------------------

  lemma {:induction false} PairsAt(pairs: seq<(Value, Value)>, j: nat)
    requires FitsPairs(pairs) && EncodeKeys(pairs).Ok? && EncodeValues(pairs).Ok? && j < |pairs|
    ensures FitsPair(pairs[j]) && EncodeKey(pairs[j]).Ok? && EncodeValue(pairs[j]).Ok?
    ensures EncodeKeys(pairs).value[j] == EncodeKey(pairs[j]).value
    ensures EncodeValues(pairs).value[j] == EncodeValue(pairs[j]).value
    ensures CanonPairs(pairs)[j] == CanonPair(pairs[j])
  {
    if j > 0 {
      PairsAt(pairs[1..], j - 1);
    }
  }

  lemma ParseByteString(b: Bytes, rest: Bytes)
    requires |b| <= MAX_U64
    ensures Parse(TypeAndArgument(2, |b|) + b + rest) == Ok((ByteString(b), rest))
  {
    ArgumentReadsWritten(2, |b|, b + rest);
    AppendAssociative(TypeAndArgument(2, |b|), b, rest);
    assert (b + rest)[..|b|] == b && (b + rest)[|b|..] == rest;
  }

  lemma ParseText(t: string, rest: Bytes)
    requires |Utf8.Encode(t)| <= MAX_U64
    ensures var b := Utf8.Encode(t); Parse(TypeAndArgument(3, |b|) + b + rest) == Ok((Text(t), rest))
  {
    var b := Utf8.Encode(t);
    Utf8.DecodeEncode(t);
    ArgumentReadsWritten(3, |b|, b + rest);
    AppendAssociative(TypeAndArgument(3, |b|), b, rest);
    assert (b + rest)[..|b|] == b && (b + rest)[|b|..] == rest;
  }

  lemma ParseArrayHeader(count: U64, body: Bytes, items: seq<Value>, rest: Bytes)
    requires ParseItems(body + rest, count) == Ok((items, rest))
    ensures Parse(TypeAndArgument(4, count) + body + rest) == Ok((Array(items), rest))
  {
    ArgumentReadsWritten(4, count, body + rest);
    AppendAssociative(TypeAndArgument(4, count), body, rest);
  }

  lemma ParseScalar(v: Value, rest: Bytes)
    requires v.Unsigned? || v.Negative? || v.Bool? || v.Null?
    ensures Encode(v).Ok? && Parse(Encode(v).value + rest) == Ok((v, rest))
  {
    if v.Unsigned? {
      ArgumentReadsWritten(0, v.n, rest);
    } else if v.Negative? {
      ArgumentReadsWritten(1, v.m, rest);
    } else {
      assert (Encode(v).value + rest)[1..] == rest;
    }
  }

  lemma {:induction false} ParseEncoded(v: Value, rest: Bytes)
    requires Fits(v) && Encode(v).Ok?
    ensures Parse(Encode(v).value + rest) == Ok((Canon(v), rest))
    decreases v, 1, 0
  {
    match v
    case ByteString(b) => ParseByteString(b, rest);
    case Text(t) => ParseText(t, rest);
    case Array(items) =>
      ParseEncodedItems(items, rest);
      ParseArrayHeader(|items|, EncodeAll(items).value, CanonAll(items), rest);
    case Map(pairs) =>
      ParseEncodedPairs(v, 0, rest);
      ParseMapHeader(pairs, rest);
    case _ => ParseScalar(v, rest);
  }

  /** The pairs of a map in encoded-key order, keys and values apart. */
  function SortedKeys(pairs: seq<(Value, Value)>): (r: seq<Bytes>)
    requires FitsPairs(pairs) && EncodeKeys(pairs).Ok?
    ensures |r| == |pairs|
  {
    Apply(SortedOrder(EncodeKeys(pairs).value), EncodeKeys(pairs).value)
  }

  function SortedValues(pairs: seq<(Value, Value)>): (r: seq<Bytes>)
    requires FitsPairs(pairs) && EncodeKeys(pairs).Ok? && EncodeValues(pairs).Ok?
    ensures |r| == |pairs|
  {
    Apply(SortedOrder(EncodeKeys(pairs).value), EncodeValues(pairs).value)
  }

  function SortedPairs(pairs: seq<(Value, Value)>): (r: seq<(Value, Value)>)
    requires FitsPairs(pairs) && EncodeKeys(pairs).Ok? && EncodeValues(pairs).Ok?
    ensures |r| == |pairs|
  {
    Apply(SortedOrder(EncodeKeys(pairs).value), CanonPairs(pairs))
  }

  lemma ParseMapHeader(pairs: seq<(Value, Value)>, rest: Bytes)
    requires Fits(Map(pairs)) && Encode(Map(pairs)).Ok?
    requires ParsePairs(Pack(SortedKeys(pairs), SortedValues(pairs)) + rest, |pairs|, None) == Ok((SortedPairs(pairs), rest))
    ensures Parse(Encode(Map(pairs)).value + rest) == Ok((Map(SortedPairs(pairs)), rest))
  {
    var body := Pack(SortedKeys(pairs), SortedValues(pairs));
    ArgumentReadsWritten(5, |pairs|, body + rest);
    AppendAssociative(TypeAndArgument(5, |pairs|), body, rest);
  }

  lemma {:induction false} ParseEncodedItems(items: seq<Value>, rest: Bytes)
    requires FitsAll(items) && EncodeAll(items).Ok?
    ensures ParseItems(EncodeAll(items).value + rest, |items|) == Ok((CanonAll(items), rest))
    decreases items, 0, 0
  {
    if items == [] {
      assert EncodeAll(items).value + rest == rest;
    } else {
      var tail := EncodeAll(items[1..]).value;
      AppendAssociative(Encode(items[0]).value, tail, rest);
      ParseEncoded(items[0], tail + rest);
      ParseEncodedItems(items[1..], rest);
    }
  }

  lemma {:induction false} ParseEncodedPair(p: (Value, Value), restK: Bytes, restV: Bytes)
    requires FitsPair(p) && EncodeKey(p).Ok? && EncodeValue(p).Ok?
    ensures Parse(EncodeKey(p).value + restK) == Ok((CanonPair(p).0, restK))
    ensures Parse(EncodeValue(p).value + restV) == Ok((CanonPair(p).1, restV))
    decreases p, 2, 0
  {
    ParseEncoded(p.0, restK);
    ParseEncoded(p.1, restV);
  }

  /** One pair in front of pairs that read back reads back. */
  lemma ParsePairsCons(k: Bytes, v: Bytes, tail: Bytes, count: nat, prev: Option<Bytes>, key: Value, value: Value,
                       pairs: seq<(Value, Value)>, rest: Bytes)
    requires Parse(k + (v + tail)) == Ok((key, v + tail)) && Parse(v + tail) == Ok((value, tail))
    requires prev.Some? ==> Less(prev.value, k)
    requires ParsePairs(tail, count, Some(k)) == Ok((pairs, rest))
    ensures ParsePairs(k + (v + tail), count + 1, prev) == Ok(([(key, value)] + pairs, rest))
  {
  }

  /** Where the order puts a pair, its encoded key, its encoded value and its canonical form stand. */
  lemma SortedAt(pairs: seq<(Value, Value)>, i: nat) returns (j: nat)
    requires FitsPairs(pairs) && EncodeKeys(pairs).Ok? && EncodeValues(pairs).Ok? && i < |pairs|
    ensures j < |pairs| && FitsPair(pairs[j]) && EncodeKey(pairs[j]).Ok? && EncodeValue(pairs[j]).Ok?
    ensures SortedKeys(pairs)[i] == EncodeKey(pairs[j]).value && SortedValues(pairs)[i] == EncodeValue(pairs[j]).value
    ensures SortedPairs(pairs)[i] == CanonPair(pairs[j])
  {
    hide EncodeKeys;
    hide EncodeValues;
    hide CanonPairs;
    j := SortedOrder(EncodeKeys(pairs).value)[i];
    PairsAt(pairs, j);
  }

  lemma SortedGrows(pairs: seq<(Value, Value)>, i: nat)
    requires FitsPairs(pairs) && EncodeKeys(pairs).Ok? && !HasDuplicate(EncodeKeys(pairs).value) && 0 < i < |pairs|
    ensures Less(SortedKeys(pairs)[i - 1], SortedKeys(pairs)[i])
  {
    hide EncodeKeys;
    SortedStrictly(EncodeKeys(pairs).value);
  }

  lemma MapEncodes(pairs: seq<(Value, Value)>)
    requires Fits(Map(pairs)) && Encode(Map(pairs)).Ok?
    ensures FitsPairs(pairs) && EncodeKeys(pairs).Ok? && EncodeValues(pairs).Ok? && !HasDuplicate(EncodeKeys(pairs).value)
  {
  }

  lemma {:induction false} PairsEncode(pairs: seq<(Value, Value)>)
    requires forall i :: 0 <= i < |pairs| ==> FitsPair(pairs[i]) && EncodeKey(pairs[i]).Ok? && EncodeValue(pairs[i]).Ok?
    ensures FitsPairs(pairs) && EncodeKeys(pairs).Ok? && EncodeValues(pairs).Ok?
  {
    if pairs != [] {
      PairsEncode(pairs[1..]);
    }
  }

  lemma MapEncodesParts(pairs: seq<(Value, Value)>)
    requires |pairs| <= MAX_U64 && FitsPairs(pairs) && EncodeKeys(pairs).Ok? && EncodeValues(pairs).Ok?
    ensures Encode(Map(pairs)).Ok? <==> !HasDuplicate(EncodeKeys(pairs).value)
  {
    hide EncodeKeys;
    hide EncodeValues;
    hide HasDuplicate;
    hide FitsPairs;
    hide SortedOrder;
    hide Apply;
    hide Pack;
    hide TypeAndArgument;
  }

  /** A map encodes exactly when its keys and values do and no two of its keys encode alike. */
  lemma MapEncodesExactly(pairs: seq<(Value, Value)>)
    ensures TryEncode(Map(pairs)).Ok? <==>
      && |pairs| <= MAX_U64
      && (forall i :: 0 <= i < |pairs| ==> TryEncode(pairs[i].0).Ok? && TryEncode(pairs[i].1).Ok?)
      && (forall i, j :: 0 <= i < j < |pairs| ==> TryEncode(pairs[i].0) != TryEncode(pairs[j].0))
  {
    hide Encode;
    hide EncodeKeys;
    hide EncodeValues;
    hide FitsPairs;
    hide CanonPair;
    hide CanonPairs;
    var whole := TryEncode(Map(pairs)).Ok?;
    if whole {
      MapEncodes(pairs);
    } else if |pairs| <= MAX_U64 && forall i :: 0 <= i < |pairs| ==> TryEncode(pairs[i].0).Ok? && TryEncode(pairs[i].1).Ok? {
      PairsEncode(pairs);
      MapEncodesParts(pairs);
    }
    if FitsPairs(pairs) && EncodeKeys(pairs).Ok? && EncodeValues(pairs).Ok? {
      DuplicateExactly(EncodeKeys(pairs).value);
      forall i | 0 <= i < |pairs|
        ensures TryEncode(pairs[i].0) == Ok(EncodeKeys(pairs).value[i]) && TryEncode(pairs[i].1).Ok?
      {
        PairsAt(pairs, i);
      }
    }
  }

  lemma ParseNoPairs(keys: seq<Bytes>, values: seq<Bytes>, rest: Bytes, prev: Option<Bytes>)
    requires |keys| == |values| == 0
    ensures ParsePairs(Pack(keys, values) + rest, 0, prev) == Ok(([], rest))
  {
    assert Pack(keys, values) + rest == rest;
  }

  /** The sorted pairs from position `i` on, read back in order. */
  lemma {:induction false} ParseEncodedPairs(v: Value, i: nat, rest: Bytes)
    requires v.Map? && Fits(v) && Encode(v).Ok? && i <= |v.pairs|
    ensures FitsPairs(v.pairs) && EncodeKeys(v.pairs).Ok? && EncodeValues(v.pairs).Ok?
    ensures ParsePairs(Pack(SortedKeys(v.pairs)[i..], SortedValues(v.pairs)[i..]) + rest, |v.pairs| - i,
                       if i == 0 then None else Some(SortedKeys(v.pairs)[i - 1]))
         == Ok((SortedPairs(v.pairs)[i..], rest))
    decreases v, 0, |v.pairs| - i
  {
    hide Encode;
    hide EncodeKeys;
    hide EncodeValues;
    hide SortedKeys;
    hide SortedValues;
    hide SortedPairs;
    hide HasDuplicate;
    hide ParsePairs;
    hide Pack;
    hide Parse;
    hide EncodeKey;
    hide EncodeValue;
    hide CanonPair;
    hide FitsPair;
    MapEncodes(v.pairs);
    var sk, sv, sp := SortedKeys(v.pairs), SortedValues(v.pairs), SortedPairs(v.pairs);
    var prev := if i == 0 then None else Some(sk[i - 1]);
    if i == |v.pairs| {
      ParseNoPairs(sk[i..], sv[i..], rest, prev);
      assert sp[i..] == [];
    } else {
      var j := SortedAt(v.pairs, i);
      var tail := Pack(sk[i + 1..], sv[i + 1..]) + rest;
      ParseEncodedPair(v.pairs[j], sv[i] + tail, tail);
      ParseEncodedPairs(v, i + 1, rest);
      if i > 0 {
        SortedGrows(v.pairs, i);
      }
      ParsePairsCons(sk[i], sv[i], tail, |v.pairs| - i - 1, prev, sp[i].0, sp[i].1, sp[i + 1..], rest);
      SplitAt(sk, i);
      SplitAt(sv, i);
      SplitAt(sp, i);
      PackCons(sk[i], sv[i], sk[i + 1..], sv[i + 1..], rest);
    }
  }

  /** Round trip: the encoding of a value decodes to that value with every map sorted. */
  lemma DecodeEncode(v: Value)
    requires Fits(v) && Encode(v).Ok?
    ensures Decode(Encode(v).value) == Ok(Canon(v))
  {
    ParseEncoded(v, []);
    assert Encode(v).value + [] == Encode(v).value;
  }

  /** Canonical order is a fixed point, reached in one step and invisible in the bytes. */
  lemma CanonStable(v: Value)
    requires Fits(v) && Encode(v).Ok?
    ensures Fits(Canon(v)) && Encode(Canon(v)) == Encode(v) && Canon(Canon(v)) == Canon(v)
  {
    DecodeEncode(v);
    DecodeIsEncoding(Encode(v).value);
    DecodeEncode(Canon(v));
  }

  /** No encoding is a proper prefix of another. */
  lemma PrefixFree(a: Value, b: Value)
    requires Fits(a) && Fits(b) && Encode(a).Ok? && Encode(b).Ok?
    requires Encode(a).value <= Encode(b).value
    ensures Encode(a) == Encode(b)
  {
    var x, y := Encode(a).value, Encode(b).value;
    ParseEncoded(a, y[|x|..]);
    ParseEncoded(b, []);
    assert y == x + y[|x|..] && y == y + [];
  }
}
