/** The encoder that appends to one buffer and the decoder that advances one cursor, as the code runs them. */
module CborCodec {
  import opened Common
  import opened LexOrder
  import opened KeyOrder
  import opened Cbor
  import opened CborProofs
  import Utf8

  // ---------------------------------------------------------------------------
  // Encoder
  // ---------------------------------------------------------------------------

  lemma {:induction false} PackSnoc(keys: seq<Bytes>, values: seq<Bytes>, k: Bytes, v: Bytes)
    requires |keys| == |values|
    ensures Pack(keys + [k], values + [v]) == Pack(keys, values) + k + v
  {
    hide Pack;
    PackFirst(keys + [k], values + [v]);
    if keys == [] {
      EmptyPack();
      assert (keys + [k])[1..] == [] && (values + [v])[1..] == [];
    } else {
      PackFirst(keys, values);
      PackSnoc(keys[1..], values[1..], k, v);
      SnocTail(keys, k);
      SnocTail(values, v);
      var front, rest := keys[0] + values[0], Pack(keys[1..], values[1..]);
      AppendAssociative(front, rest + k, v);
      AppendAssociative(front, rest, k);
    }
  }

  lemma PackFirst(keys: seq<Bytes>, values: seq<Bytes>)
    requires |keys| == |values| > 0
    ensures Pack(keys, values) == keys[0] + values[0] + Pack(keys[1..], values[1..])
  {
  }

  lemma EmptyPack()
    ensures Pack([], []) == [] && forall b: Bytes :: b + [] == b == [] + b
  {
  }

  lemma SnocTail<T>(s: seq<T>, x: T)
    requires s != []
    ensures (s + [x])[0] == s[0] && (s + [x])[1..] == s[1..] + [x]
  {
  }

  lemma {:induction false} FitsFrom(items: seq<Value>, i: nat)
    requires FitsAll(items) && i <= |items|
    ensures FitsAll(items[i..])
  {
    if i > 0 {
      FitsFrom(items[1..], i - 1);
      assert items[1..][i - 1..] == items[i..];
    }
  }

  lemma {:induction false} FitsPairsFrom(pairs: seq<(Value, Value)>, i: nat)
    requires FitsPairs(pairs) && i <= |pairs|
    ensures FitsPairs(pairs[i..])
  {
    if i > 0 {
      FitsPairsFrom(pairs[1..], i - 1);
      assert pairs[1..][i - 1..] == pairs[i..];
    }
  }

  /** The only way to fail is a duplicate key somewhere. */
  lemma {:induction false} EncodeFails(v: Value)
    requires Fits(v) && Encode(v).Err?
    ensures Encode(v) == Err(Malformed)
    decreases v
  {
    if v.Array? {
      EncodeAllFails(v.items);
    } else if v.Map? {
      EncodePairsFail(v.pairs);
    }
  }

  lemma {:induction false} EncodeAllFails(items: seq<Value>)
    requires FitsAll(items)
    ensures EncodeAll(items).Ok? || EncodeAll(items) == Err(Malformed)
    decreases items
  {
    if items != [] {
      if Encode(items[0]).Err? {
        EncodeFails(items[0]);
      }
      EncodeAllFails(items[1..]);
    }
  }

  lemma {:induction false} EncodePairFails(p: (Value, Value))
    requires FitsPair(p)
    ensures EncodeKey(p).Ok? || EncodeKey(p) == Err(Malformed)
    ensures EncodeValue(p).Ok? || EncodeValue(p) == Err(Malformed)
    decreases p
  {
    if EncodeKey(p).Err? {
      EncodeFails(p.0);
    }
    if EncodeValue(p).Err? {
      EncodeFails(p.1);
    }
  }

  lemma {:induction false} EncodePairsFail(pairs: seq<(Value, Value)>)
    requires FitsPairs(pairs)
    ensures EncodeKeys(pairs).Ok? || EncodeKeys(pairs) == Err(Malformed)
    ensures EncodeValues(pairs).Ok? || EncodeValues(pairs) == Err(Malformed)
    decreases pairs
  {
    if pairs != [] {
      EncodePairFails(pairs[0]);
      EncodePairsFail(pairs[1..]);
    }
  }

  lemma {:induction false} EncodeKeysAt(pairs: seq<(Value, Value)>, i: nat)
    requires FitsPairs(pairs) && i < |pairs| && FitsPair(pairs[i])
    ensures EncodeKeys(pairs).Ok? ==> EncodeKey(pairs[i]) == Ok(EncodeKeys(pairs).value[i])
    ensures EncodeValues(pairs).Ok? ==> EncodeValue(pairs[i]) == Ok(EncodeValues(pairs).value[i])
  {
    if i > 0 {
      EncodeKeysAt(pairs[1..], i - 1);
    }
  }

  lemma {:induction false} EncodeValuesAll(pairs: seq<(Value, Value)>)
    requires FitsPairs(pairs)
    requires forall i :: 0 <= i < |pairs| ==> FitsPair(pairs[i]) && EncodeValue(pairs[i]).Ok?
    ensures EncodeValues(pairs).Ok?
  {
    if pairs != [] {
      EncodeValuesAll(pairs[1..]);
    }
  }

  /** What a writer reports and leaves behind, against what the value encodes to. */
  ghost predicate Wrote(spec: Result<Bytes, Error>, before: Bytes, after: Bytes, r: Result<(), Error>) {
    match spec
    case Ok(e) => r.Ok? && after == before + e
    case Err(x) => r == Err(x)
  }

  method HasEqualNeighbours(sorted: seq<Bytes>) returns (r: bool)
    ensures r <==> exists i :: 0 < i < |sorted| && sorted[i - 1] == sorted[i]
  {
    var i := 1;
    while i < |sorted|
      invariant forall j :: 0 < j < i && j < |sorted| ==> sorted[j - 1] != sorted[j]
    {
      if sorted[i - 1] == sorted[i] {
        return true;
      }
      i := i + 1;
    }
    return false;
  }

  lemma EmptyLeft<T>(s: seq<T>)
    ensures [] + s == s
  {
  }

  lemma EncodeAllFrom(items: seq<Value>, i: nat)
    requires i < |items| && FitsAll(items[i..]) && FitsAll(items[i + 1..]) && Fits(items[i])
    ensures EncodeAll(items[i..]) ==
      match Encode(items[i])
      case Err(e) => Err(e)
      case Ok(first) =>
        match EncodeAll(items[i + 1..])
        case Err(e) => Err(e)
        case Ok(rest) => Ok(first + rest)
  {
    assert items[i..][1..] == items[i + 1..];
  }

  lemma EncodeAllNone(items: seq<Value>)
    requires FitsAll(items[|items|..])
    ensures EncodeAll(items[|items|..]) == Ok([])
  {
  }

  lemma EncodeKeysFrom(pairs: seq<(Value, Value)>, i: nat)
    requires i < |pairs| && FitsPairs(pairs[i..]) && FitsPairs(pairs[i + 1..]) && FitsPair(pairs[i])
    ensures EncodeKeys(pairs[i..]) ==
      match Encode(pairs[i].0)
      case Err(e) => Err(e)
      case Ok(first) =>
        match EncodeKeys(pairs[i + 1..])
        case Err(e) => Err(e)
        case Ok(rest) => Ok([first] + rest)
  {
    assert pairs[i..][1..] == pairs[i + 1..];
  }

  lemma EncodeKeysNone(pairs: seq<(Value, Value)>)
    requires FitsPairs(pairs[|pairs|..])
    ensures EncodeKeys(pairs[|pairs|..]) == Ok([])
  {
  }

  class Encoder {
    var out: Bytes

    constructor ()
      ensures out == []
    {
      out := [];
    }

    method WriteHeader(major: nat, additional: nat)
      requires major < 8 && additional < 32
      modifies this
      ensures out == old(out) + [Header(major, additional)]
    {
      out := out + [major * 32 + additional];
    }

    method WriteTypeAndArgument(major: nat, argument: U64)
      requires major < 8
      modifies this
      ensures out == old(out) + TypeAndArgument(major, argument)
    {
      if argument <= 23 {
        WriteHeader(major, argument);
      } else if argument <= 0xff {
        WriteHeader(major, 24);
        out := out + BigEndian(argument, 1);
      } else if argument <= 0xffff {
        WriteHeader(major, 25);
        out := out + BigEndian(argument, 2);
      } else if argument <= 0xffff_ffff {
        WriteHeader(major, 26);
        out := out + BigEndian(argument, 4);
      } else {
        WriteHeader(major, 27);
        out := out + BigEndian(argument, 8);
      }
    }

    method WriteValue(v: Value) returns (r: Result<(), Error>)
      requires Fits(v)
      modifies this
      ensures Wrote(Encode(v), old(out), out, r)
      decreases v, 2
    {
      match v {
        case Unsigned(n) =>
          WriteTypeAndArgument(0, n);
        case Negative(m) =>
          WriteTypeAndArgument(1, m);
        case ByteString(b) =>
          WriteTypeAndArgument(2, |b|);
          out := out + b;
        case Text(s) =>
          WriteTypeAndArgument(3, |Utf8.Encode(s)|);
          out := out + Utf8.Encode(s);
        case Array(items) =>
          r := WriteArray(v);
          return;
        case Map(pairs) =>
          r := WriteMap(v);
          return;
        case Bool(b) =>
          WriteHeader(7, if b then 21 else 20);
        case Null =>
          WriteHeader(7, 22);
      }
      return Ok(());
    }

    method WriteArray(v: Value) returns (r: Result<(), Error>)
      requires v.Array? && Fits(v)
      modifies this
      ensures Wrote(Encode(v), old(out), out, r)
      decreases v, 1
    {
      hide FitsAll;
      hide EncodeAll;
      hide TypeAndArgument;
      WriteTypeAndArgument(4, |v.items|);
      ghost var base := out;
      ghost var body: Bytes := [];
      assert v.items[0..] == v.items;
      if EncodeAll(v.items).Ok? {
        EmptyLeft(EncodeAll(v.items).value);
      }
      for i := 0 to |v.items|
        invariant out == base + body
        invariant FitsAll(v.items[i..])
        invariant match EncodeAll(v.items[i..])
                  case Ok(tail) => EncodeAll(v.items) == Ok(body + tail)
                  case Err(e) => EncodeAll(v.items) == Err(e)
      {
        FitsAt(v.items, i);
        FitsFrom(v.items, i + 1);
        EncodeAllFrom(v.items, i);
        r := WriteValue(v.items[i]);
        if r.Err? {
          return;
        }
        ghost var e := Encode(v.items[i]).value;
        if EncodeAll(v.items[i + 1..]).Ok? {
          AppendAssociative(body, e, EncodeAll(v.items[i + 1..]).value);
        }
        body := body + e;
      }
      EncodeAllNone(v.items);
      assert body + [] == body;
      return Ok(());
    }

    /** Encode every key apart, sort, refuse neighbours that are equal, then write the sorted pairs. */
    method WriteMap(v: Value) returns (r: Result<(), Error>)
      requires v.Map? && Fits(v)
      modifies this
      ensures Wrote(Encode(v), old(out), out, r)
      decreases v, 1
    {
      var keys := EncodeKeysApart(v);
      if keys.Err? {
        return Err(keys.error);
      }
      var duplicate := HasEqualNeighbours(Apply(SortedOrder(keys.value), keys.value));
      if duplicate {
        return Err(Malformed);
      }
      WriteTypeAndArgument(5, |v.pairs|);
      r := WriteSortedPairs(v, keys.value);
      if r.Ok? {
        ghost var order := SortedOrder(keys.value);
        AppendAssociative(old(out), TypeAndArgument(5, |v.pairs|), Pack(Apply(order, keys.value), Apply(order, EncodeValues(v.pairs).value)));
      } else {
        EncodePairsFail(v.pairs);
      }
    }

    method WriteSortedPairs(v: Value, keys: seq<Bytes>) returns (r: Result<(), Error>)
      requires v.Map? && Fits(v) && EncodeKeys(v.pairs) == Ok(keys)
      modifies this
      ensures r.Ok? <==> EncodeValues(v.pairs).Ok?
      ensures r.Ok? ==> var order := SortedOrder(keys);
        out == old(out) + Pack(Apply(order, keys), Apply(order, EncodeValues(v.pairs).value))
      ensures r.Err? ==> r.error == Malformed
      decreases v, 0
    {
      hide ValuesOf;
      hide Pack;
      hide SortedOrder;
      hide EncodeKeys;
      hide EncodeValues;
      hide FitsPairs;
      var pairs := v.pairs;
      var order := SortedOrder(keys);
      ghost var sorted := Apply(order, keys);
      ghost var base := out;
      ghost var values: seq<Bytes> := [];
      NothingWritten(pairs, order);
      assert sorted[..0] == [];
      for i := 0 to |order|
        invariant |values| == i && ValuesOf(pairs, order, values)
        invariant out == base + Pack(sorted[..i], values)
      {
        FitsPairAt(pairs, order[i]);
        out := out + keys[order[i]];
        r := WriteValue(pairs[order[i]].1);
        if r.Err? {
          EncodeKeysAt(pairs, order[i]);
          EncodePairFails(pairs[order[i]]);
          return;
        }
        ghost var e := EncodeValue(pairs[order[i]]).value;
        ValuesOfSnoc(pairs, order, values, e);
        PackSnoc(sorted[..i], values, sorted[i], e);
        assert sorted[..i + 1] == sorted[..i] + [sorted[i]];
        values := values + [e];
      }
      SortedValuesOf(pairs, keys, values);
      assert sorted[..|order|] == sorted;
      return Ok(());
    }

    method EncodeKeysApart(v: Value) returns (r: Result<seq<Bytes>, Error>)
      requires v.Map? && Fits(v)
      ensures r == EncodeKeys(v.pairs)
      decreases v, 0
    {
      hide FitsPairs;
      hide EncodeKeys;
      var pairs := v.pairs;
      var keys: seq<Bytes> := [];
      assert pairs[0..] == pairs;
      if EncodeKeys(pairs).Ok? {
        EmptyLeft(EncodeKeys(pairs).value);
      }
      for i := 0 to |pairs|
        invariant FitsPairs(pairs[i..])
        invariant match EncodeKeys(pairs[i..])
                  case Ok(tail) => EncodeKeys(pairs) == Ok(keys + tail)
                  case Err(e) => EncodeKeys(pairs) == Err(e)
      {
        FitsPairAt(pairs, i);
        FitsPairsFrom(pairs, i + 1);
        EncodeKeysFrom(pairs, i);
        var buffer := new Encoder();
        var w := buffer.WriteValue(pairs[i].0);
        if w.Err? {
          return Err(w.error);
        }
        assert buffer.out == Encode(pairs[i].0).value;
        ghost var tail := EncodeKeys(pairs[i + 1..]);
        if tail.Ok? {
          assert keys + ([buffer.out] + tail.value) == (keys + [buffer.out]) + tail.value;
        }
        keys := keys + [buffer.out];
      }
      EncodeKeysNone(pairs);
      assert keys + [] == keys;
      return Ok(keys);
    }
  }

  /** `values` are the encodings of the values `order` visits first. */
  ghost predicate ValuesOf(pairs: seq<(Value, Value)>, order: seq<nat>, values: seq<Bytes>) {
    && |values| <= |order|
    && forall j :: 0 <= j < |values| ==>
        order[j] < |pairs| && FitsPair(pairs[order[j]]) && EncodeValue(pairs[order[j]]) == Ok(values[j])
  }

  lemma NothingWritten(pairs: seq<(Value, Value)>, order: seq<nat>)
    ensures ValuesOf(pairs, order, []) && Pack([], []) == []
  {
  }

  lemma ValuesOfSnoc(pairs: seq<(Value, Value)>, order: seq<nat>, values: seq<Bytes>, e: Bytes)
    requires ValuesOf(pairs, order, values) && |values| < |order| && order[|values|] < |pairs|
    requires FitsPair(pairs[order[|values|]]) && EncodeValue(pairs[order[|values|]]) == Ok(e)
    ensures ValuesOf(pairs, order, values + [e])
  {
  }

  lemma SortedValuesOf(pairs: seq<(Value, Value)>, keys: seq<Bytes>, values: seq<Bytes>)
    requires FitsPairs(pairs) && |keys| == |pairs| == |values|
    requires ValuesOf(pairs, SortedOrder(keys), values)
    ensures EncodeValues(pairs).Ok? && Apply(SortedOrder(keys), EncodeValues(pairs).value) == values
  {
    var order := SortedOrder(keys);
    OrderIsPermutation(keys);
    forall i | 0 <= i < |pairs|
      ensures FitsPair(pairs[i]) && EncodeValue(pairs[i]).Ok?
    {
      assert i in order;
      var j :| 0 <= j < |order| && order[j] == i;
    }
    EncodeValuesAll(pairs);
    forall j | 0 <= j < |order|
      ensures EncodeValues(pairs).value[order[j]] == values[j]
    {
      EncodeKeysAt(pairs, order[j]);
    }
  }

  /** The encoder's entry point. */
  method EncodeCanonicalCbor(v: Value) returns (r: Result<Bytes, Error>)
    requires Fits(v)
    ensures r == Encode(v)
  {
    var encoder := new Encoder();
    var w := encoder.WriteValue(v);
    if w.Err? {
      return Err(w.error);
    }
    EmptyLeft(Encode(v).value);
    return Ok(encoder.out);
  }

  // ---------------------------------------------------------------------------
  // Decoder
  // ---------------------------------------------------------------------------

  /** What a reader returns and where it stops, against what parsing the unread bytes gives. */
  ghost predicate Read<T>(spec: Result<(T, Bytes), Error>, unread: Bytes, r: Result<T, Error>) {
    match spec
    case Ok((x, rest)) => r == Ok(x) && unread == rest
    case Err(e) => r == Err(e)
  }

  /** The elements read so far, with what is left to read, are the whole. */
  ghost predicate Reading<T>(whole: Result<(seq<T>, Bytes), Error>, done: seq<T>, left: Result<(seq<T>, Bytes), Error>) {
    match left
    case Ok((tail, rest)) => whole == Ok((done + tail, rest))
    case Err(e) => whole == Err(e)
  }

  lemma ReadingFrom<T>(whole: Result<(seq<T>, Bytes), Error>)
    ensures Reading(whole, [], whole)
  {
    if whole.Ok? {
      EmptyLeft(whole.value.0);
    }
  }

  lemma ReadingItem(whole: Result<(seq<Value>, Bytes), Error>, done: seq<Value>, s: Bytes, count: nat)
    requires count > 0 && Reading(whole, done, ParseItems(s, count))
    ensures match Parse(s)
            case Ok((v, rest)) => Reading(whole, done + [v], ParseItems(rest, count - 1))
            case Err(e) => whole == Err(e)
  {
    hide Parse;
    if Parse(s).Ok? {
      var (v, rest) := Parse(s).value;
      if ParseItems(rest, count - 1).Ok? {
        AppendAssociative(done, [v], ParseItems(rest, count - 1).value.0);
      }
    }
  }

  lemma ReadingPair(whole: Result<(seq<(Value, Value)>, Bytes), Error>, done: seq<(Value, Value)>, s: Bytes, count: nat, prev: Option<Bytes>)
    requires count > 0 && Reading(whole, done, ParsePairs(s, count, prev))
    ensures match ParsePair(s, prev)
            case Ok(((key, pair), rest)) => Reading(whole, done + [pair], ParsePairs(rest, count - 1, Some(key)))
            case Err(e) => whole == Err(e)
  {
    hide ParsePair;
    if ParsePair(s, prev).Ok? {
      var ((key, pair), rest) := ParsePair(s, prev).value;
      if ParsePairs(rest, count - 1, Some(key)).Ok? {
        AppendAssociative(done, [pair], ParsePairs(rest, count - 1, Some(key)).value.0);
      }
    }
  }

  lemma ReadingDone<T>(whole: Result<(seq<T>, Bytes), Error>, done: seq<T>, unread: Bytes)
    requires Reading(whole, done, Ok(([], unread)))
    ensures whole == Ok((done, unread))
  {
    assert done + [] == done;
  }

  lemma BetweenPositions(data: Bytes, i: nat, j: nat)
    requires i <= j <= |data|
    ensures data[i..][..|data[i..]| - |data[j..]|] == data[i..j]
  {
  }

  class Decoder {
    const data: Bytes
    var pos: nat

    constructor (data: Bytes)
      ensures this.data == data && pos == 0
    {
      this.data := data;
      pos := 0;
    }

    ghost function Unread(): Bytes
      requires pos <= |data|
      reads this
    {
      data[pos..]
    }

    method NextByte() returns (r: Result<Byte, Error>)
      requires pos <= |data|
      modifies this
      ensures old(pos) <= pos <= |data|
      ensures r.Ok? <==> old(pos) < |data|
      ensures r.Ok? ==> pos == old(pos) + 1 && r.value == data[old(pos)]
      ensures r.Err? ==> r.error == Malformed
    {
      if pos >= |data| {
        return Err(Malformed);
      }
      r := Ok(data[pos]);
      pos := pos + 1;
    }

    method Take(len: nat) returns (r: Result<Bytes, Error>)
      requires pos <= |data|
      modifies this
      ensures old(pos) <= pos <= |data|
      ensures Read(Cbor.Take(old(Unread()), len), Unread(), r)
    {
      if pos + len > |data| {
        return Err(Malformed);
      }
      r := Ok(data[pos..pos + len]);
      assert data[pos..][..len] == data[pos..pos + len];
      assert data[pos..][len..] == data[pos + len..];
      pos := pos + len;
    }

    method ReadArgument(additional: nat) returns (r: Result<U64, Error>)
      requires pos <= |data| && additional < 32
      modifies this
      ensures old(pos) <= pos <= |data|
      ensures Read(Cbor.ReadArgument(additional, old(Unread())), Unread(), r)
    {
      if additional <= 23 {
        return Ok(additional);
      }
      if additional == 31 {
        return Err(IndefiniteLength);
      }
      if additional > 27 {
        return Err(Malformed);
      }
      var width, atLeast := 1, 24;
      if additional == 25 {
        width, atLeast := 2, 0x100;
      } else if additional == 26 {
        width, atLeast := 4, 0x1_0000;
      } else if additional == 27 {
        width, atLeast := 8, 0x1_0000_0000;
      }
      var raw := Take(width);
      if raw.Err? {
        return Err(raw.error);
      }
      FromBigEndianBound(raw.value, width);
      var v: U64 := FromBigEndian(raw.value);
      if v < atLeast {
        return Err(Malformed);
      }
      return Ok(v);
    }

    method ReadValue() returns (r: Result<Value, Error>)
      requires pos <= |data|
      modifies this
      ensures old(pos) <= pos <= |data|
      ensures Read(Parse(old(Unread())), Unread(), r)
      decreases |data| - pos, 0
    {
      var initial := NextByte();
      if initial.Err? {
        return Err(initial.error);
      }
      var major, additional := initial.value / 32, initial.value % 32;
      assert old(Unread())[1..] == Unread();
      if major == 6 {
        return Err(Malformed);
      }
      if major == 7 {
        return ReadSimple(additional);
      }
      var argument := ReadArgument(additional);
      if argument.Err? {
        return Err(argument.error);
      }
      if major == 0 {
        return Ok(Unsigned(argument.value));
      }
      if major == 1 {
        return Ok(Negative(argument.value));
      }
      if major == 2 || major == 3 {
        var raw := Take(argument.value);
        if raw.Err? {
          return Err(raw.error);
        }
        if major == 2 {
          return Ok(ByteString(raw.value));
        }
        match Utf8.Decode(raw.value) {
          case Some(t) => return Ok(Text(t));
          case None => return Err(Malformed);
        }
      }
      if major == 4 {
        var items := ReadItems(argument.value);
        if items.Err? {
          return Err(items.error);
        }
        return Ok(Array(items.value));
      }
      var pairs := ReadPairs(argument.value);
      if pairs.Err? {
        return Err(pairs.error);
      }
      return Ok(Map(pairs.value));
    }

    method ReadItems(count: nat) returns (r: Result<seq<Value>, Error>)
      requires pos <= |data|
      modifies this
      ensures old(pos) <= pos <= |data|
      ensures Read(ParseItems(old(Unread()), count), Unread(), r)
      decreases |data| - pos, 1
    {
      hide Reading;
      hide Parse;
      var items: seq<Value> := [];
      ghost var whole := ParseItems(Unread(), count);
      ReadingFrom(whole);
      for i := 0 to count
        invariant old(pos) <= pos <= |data|
        invariant Reading(whole, items, ParseItems(Unread(), count - i))
      {
        ReadingItem(whole, items, Unread(), count - i);
        var v := ReadValue();
        if v.Err? {
          return Err(v.error);
        }
        items := items + [v.value];
      }
      ReadingDone(whole, items, Unread());
      return Ok(items);
    }

    /** Read one pair, comparing the key's own bytes with the previous key's. */
    method ReadPair(prev: Option<Bytes>) returns (r: Result<(Bytes, (Value, Value)), Error>)
      requires pos <= |data|
      modifies this
      ensures old(pos) <= pos <= |data|
      ensures Read(ParsePair(old(Unread()), prev), Unread(), r)
      ensures r.Ok? ==> old(pos) < pos
      decreases |data| - pos, 1
    {
      hide Parse;
      hide Less;
      var keyStart := pos;
      var key := ReadValue();
      if key.Err? {
        return Err(key.error);
      }
      var keyBytes := data[keyStart..pos];
      BetweenPositions(data, keyStart, pos);
      if prev.Some? && !Less(prev.value, keyBytes) {
        return Err(Malformed);
      }
      var v := ReadValue();
      if v.Err? {
        return Err(v.error);
      }
      return Ok((keyBytes, (key.value, v.value)));
    }

    method ReadPairs(count: nat) returns (r: Result<seq<(Value, Value)>, Error>)
      requires pos <= |data|
      modifies this
      ensures old(pos) <= pos <= |data|
      ensures Read(ParsePairs(old(Unread()), count, None), Unread(), r)
      decreases |data| - pos, 2
    {
      var pairs: seq<(Value, Value)> := [];
      var prev: Option<Bytes> := None;
      hide Reading;
      hide ParsePair;
      ghost var whole := ParsePairs(Unread(), count, None);
      ReadingFrom(whole);
      for i := 0 to count
        invariant old(pos) <= pos <= |data|
        invariant Reading(whole, pairs, ParsePairs(Unread(), count - i, prev))
      {
        ReadingPair(whole, pairs, Unread(), count - i, prev);
        var pair := ReadPair(prev);
        if pair.Err? {
          return Err(pair.error);
        }
        prev := Some(pair.value.0);
        pairs := pairs + [pair.value.1];
      }
      ReadingDone(whole, pairs, Unread());
      return Ok(pairs);
    }
  }

  /** The strict decoder's entry point. */
  method DecodeCanonicalCbor(bytes: Bytes) returns (r: Result<Value, Error>)
    ensures r == Decode(bytes)
  {
    var decoder := new Decoder(bytes);
    assert bytes[0..] == bytes;
    var v := decoder.ReadValue();
    if v.Err? {
      return v;
    }
    if decoder.pos != |bytes| {
      return Err(Malformed);
    }
    return v;
  }
}
