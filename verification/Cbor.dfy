/**
  Canonical CBOR (section 4.2.1 of RFC 8949): the value model, what the encoder writes and
  what the strict decoder reads, as functions on byte strings.
*/
module Cbor {
  import opened Common
  import opened LexOrder
  import opened KeyOrder
  import Utf8

  /** `Negative(m)` is the integer `-1 - m`. */
  datatype Value =
    | Unsigned(n: U64)
    | Negative(m: U64)
    | ByteString(bytes: Bytes)
    | Text(text: string)
    | Array(items: seq<Value>)
    | Map(pairs: seq<(Value, Value)>)
    | Bool(b: bool)
    | Null

  datatype Error = IndefiniteLength | Malformed

  const MAX_U64: int := 0xffff_ffff_ffff_ffff

  // ---------------------------------------------------------------------------
  // Big-endian integers
  // ---------------------------------------------------------------------------

  function BigEndian(n: nat, width: nat): (b: Bytes)
    ensures |b| == width
  {
    if width == 0 then [] else BigEndian(n / 0x100, width - 1) + [n % 0x100]
  }

  function FromBigEndian(b: Bytes): nat {
    if b == [] then 0 else FromBigEndian(b[..|b| - 1]) * 0x100 + b[|b| - 1]
  }

  // ---------------------------------------------------------------------------
  // Encoding
  // ---------------------------------------------------------------------------

  /** Lengths are counted in 64 bits, so no string or collection is longer than that. */
  predicate Fits(v: Value) {
    match v
    case ByteString(b) => |b| <= MAX_U64
    case Text(s) => |Utf8.Encode(s)| <= MAX_U64
    case Array(items) => |items| <= MAX_U64 && FitsAll(items)
    case Map(pairs) => |pairs| <= MAX_U64 && FitsPairs(pairs)
    case _ => true
  }

  predicate FitsAll(items: seq<Value>) {
    items == [] || (Fits(items[0]) && FitsAll(items[1..]))
  }

  predicate FitsPairs(pairs: seq<(Value, Value)>) {
    pairs == [] || (FitsPair(pairs[0]) && FitsPairs(pairs[1..]))
  }

  predicate FitsPair(p: (Value, Value)) {
    Fits(p.0) && Fits(p.1)
  }

  function Header(major: nat, additional: nat): Byte
    requires major < 8 && additional < 32
  {
    major * 32 + additional
  }

  /** A header with its argument in the fewest bytes. */
  function TypeAndArgument(major: nat, argument: U64): (b: Bytes)
    requires major < 8
  {
    if argument <= 23 then [Header(major, argument)]
    else if argument <= 0xff then [Header(major, 24)] + BigEndian(argument, 1)
    else if argument <= 0xffff then [Header(major, 25)] + BigEndian(argument, 2)
    else if argument <= 0xffff_ffff then [Header(major, 26)] + BigEndian(argument, 4)
    else [Header(major, 27)] + BigEndian(argument, 8)
  }

  function Encode(v: Value): (r: Result<Bytes, Error>)
    requires Fits(v)
    decreases v
  {
    match v
    case Unsigned(n) => Ok(TypeAndArgument(0, n))
    case Negative(m) => Ok(TypeAndArgument(1, m))
    case ByteString(b) => Ok(TypeAndArgument(2, |b|) + b)
    case Text(s) => Ok(TypeAndArgument(3, |Utf8.Encode(s)|) + Utf8.Encode(s))
    case Array(items) =>
      var body :- EncodeAll(items);
      Ok(TypeAndArgument(4, |items|) + body)
    case Map(pairs) =>
      var keys :- EncodeKeys(pairs);
      if HasDuplicate(keys) then Err(Malformed)
      else
        var values :- EncodeValues(pairs);
        var order := SortedOrder(keys);
        Ok(TypeAndArgument(5, |pairs|) + Pack(Apply(order, keys), Apply(order, values)))
    case Bool(b) => Ok([Header(7, if b then 21 else 20)])
    case Null => Ok([Header(7, 22)])
  }

  function EncodeAll(items: seq<Value>): (r: Result<Bytes, Error>)
    requires FitsAll(items)
    decreases items
  {
    if items == [] then Ok([])
    else
      var first :- Encode(items[0]);
      var rest :- EncodeAll(items[1..]);
      Ok(first + rest)
  }

  function EncodeKey(p: (Value, Value)): Result<Bytes, Error>
    requires FitsPair(p)
    decreases p
  {
    Encode(p.0)
  }

  function EncodeValue(p: (Value, Value)): Result<Bytes, Error>
    requires FitsPair(p)
    decreases p
  {
    Encode(p.1)
  }

  function EncodeKeys(pairs: seq<(Value, Value)>): (r: Result<seq<Bytes>, Error>)
    requires FitsPairs(pairs)
    ensures r.Ok? ==> |r.value| == |pairs|
    decreases pairs
  {
    if pairs == [] then Ok([])
    else
      var first :- EncodeKey(pairs[0]);
      var rest :- EncodeKeys(pairs[1..]);
      Ok([first] + rest)
  }

  function EncodeValues(pairs: seq<(Value, Value)>): (r: Result<seq<Bytes>, Error>)
    requires FitsPairs(pairs)
    ensures r.Ok? ==> |r.value| == |pairs|
    decreases pairs
  {
    if pairs == [] then Ok([])
    else
      var first :- EncodeValue(pairs[0]);
      var rest :- EncodeValues(pairs[1..]);
      Ok([first] + rest)
  }

  /** The encoder, refusing what no 64-bit length can count. */
  function TryEncode(v: Value): Result<Bytes, Error> {
    if Fits(v) then Encode(v) else Err(Malformed)
  }

  /** Each key followed by its value. */
  function Pack(keys: seq<Bytes>, values: seq<Bytes>): Bytes
    requires |keys| == |values|
  {
    if keys == [] then [] else keys[0] + values[0] + Pack(keys[1..], values[1..])
  }

  /** The value with the pairs of every map, at every depth, in encoded-key order. */
  function Canon(v: Value): (r: Value)
    requires Fits(v)
    requires Encode(v).Ok?
    decreases v
  {
    match v
    case Array(items) => Array(CanonAll(items))
    case Map(pairs) => Map(Apply(SortedOrder(EncodeKeys(pairs).value), CanonPairs(pairs)))
    case _ => v
  }

  function CanonAll(items: seq<Value>): (r: seq<Value>)
    requires FitsAll(items)
    requires EncodeAll(items).Ok?
    ensures |r| == |items|
    decreases items
  {
    if items == [] then [] else [Canon(items[0])] + CanonAll(items[1..])
  }

  function CanonPairs(pairs: seq<(Value, Value)>): (r: seq<(Value, Value)>)
    requires FitsPairs(pairs)
    requires EncodeKeys(pairs).Ok? && EncodeValues(pairs).Ok?
    ensures |r| == |pairs|
    decreases pairs
  {
    if pairs == [] then [] else [CanonPair(pairs[0])] + CanonPairs(pairs[1..])
  }

  function CanonPair(p: (Value, Value)): (Value, Value)
    requires FitsPair(p)
    requires EncodeKey(p).Ok? && EncodeValue(p).Ok?
    decreases p
  {
    (Canon(p.0), Canon(p.1))
  }

  // ---------------------------------------------------------------------------
  // Strict decoding
  // ---------------------------------------------------------------------------

  /** Take `n` bytes off the front. */
  function Take(s: Bytes, n: nat): Result<(Bytes, Bytes), Error> {
    if n <= |s| then Ok((s[..n], s[n..])) else Err(Malformed)
  }

  /** A big-endian argument of `width` bytes that would not have fitted in fewer. */
  function WideArgument(s: Bytes, width: nat, atLeast: nat): (r: Result<(U64, Bytes), Error>)
    requires width <= 8
    ensures r.Ok? ==> |r.value.1| <= |s|
  {
    var (raw, rest) :- Take(s, width);
    var v := FromBigEndian(raw);
    FromBigEndianBound(raw, width);
    if v < atLeast then Err(Malformed) else Ok((v, rest))
  }

  function ReadArgument(additional: nat, s: Bytes): (r: Result<(U64, Bytes), Error>)
    requires additional < 32
    ensures r.Ok? ==> |r.value.1| <= |s|
  {
    if additional <= 23 then Ok((additional, s))
    else if additional == 24 then WideArgument(s, 1, 24)
    else if additional == 25 then WideArgument(s, 2, 0x100)
    else if additional == 26 then WideArgument(s, 4, 0x1_0000)
    else if additional == 27 then WideArgument(s, 8, 0x1_0000_0000)
    else if additional == 31 then Err(IndefiniteLength)
    else Err(Malformed)
  }

  function ReadSimple(additional: nat): Result<Value, Error> {
    if additional == 20 then Ok(Bool(false))
    else if additional == 21 then Ok(Bool(true))
    else if additional == 22 then Ok(Null)
    else if additional == 31 then Err(IndefiniteLength)
    else Err(Malformed)
  }

  /** Read one item off the front of `s`: the value and the bytes after it. */
  function Parse(s: Bytes): (r: Result<(Value, Bytes), Error>)
    ensures r.Ok? ==> |r.value.1| < |s|
    decreases |s|, 0, 0
  {
    if s == [] then Err(Malformed)
    else
      var major := s[0] / 32;
      var additional := s[0] % 32;
      if major == 6 then Err(Malformed)
      else if major == 7 then
        var v :- ReadSimple(additional);
        Ok((v, s[1..]))
      else
        var (argument, rest) :- ReadArgument(additional, s[1..]);
        if major == 0 then Ok((Unsigned(argument), rest))
        else if major == 1 then Ok((Negative(argument), rest))
        else if major == 2 then
          var (raw, rest') :- Take(rest, argument);
          Ok((ByteString(raw), rest'))
        else if major == 3 then
          var (raw, rest') :- Take(rest, argument);
          (match Utf8.Decode(raw)
           case Some(t) => Ok((Text(t), rest'))
           case None => Err(Malformed))
        else if major == 4 then
          var (items, rest') :- ParseItems(rest, argument);
          Ok((Array(items), rest'))
        else
          var (pairs, rest') :- ParsePairs(rest, argument, None);
          Ok((Map(pairs), rest'))
  }

  function ParseItems(s: Bytes, count: nat): (r: Result<(seq<Value>, Bytes), Error>)
    ensures r.Ok? ==> |r.value.0| == count && |r.value.1| <= |s|
    decreases |s|, 2, count
  {
    if count == 0 then Ok(([], s))
    else
      var (first, rest) :- Parse(s);
      var (items, rest') :- ParseItems(rest, count - 1);
      Ok(([first] + items, rest'))
  }

  /** Read one pair whose encoded key is greater than `prev`: the key's own bytes, and the pair. */
  function ParsePair(s: Bytes, prev: Option<Bytes>): (r: Result<((Bytes, (Value, Value)), Bytes), Error>)
    ensures r.Ok? ==> |r.value.1| < |s|
    decreases |s|, 1, 0
  {
    var (key, rest) :- Parse(s);
    var keyBytes := s[..|s| - |rest|];
    if prev.Some? && !Less(prev.value, keyBytes) then Err(Malformed)
    else
      var (value, rest') :- Parse(rest);
      Ok(((keyBytes, (key, value)), rest'))
  }

  /** Read `count` pairs whose encoded keys strictly increase from `prev`. */
  function ParsePairs(s: Bytes, count: nat, prev: Option<Bytes>): (r: Result<(seq<(Value, Value)>, Bytes), Error>)
    ensures r.Ok? ==> |r.value.0| == count && |r.value.1| <= |s|
    decreases |s|, 2, count
  {
    if count == 0 then Ok(([], s))
    else
      var (first, rest) :- ParsePair(s, prev);
      var (pairs, rest') :- ParsePairs(rest, count - 1, Some(first.0));
      Ok(([first.1] + pairs, rest'))
  }

  function Decode(s: Bytes): Result<Value, Error> {
    var (v, rest) :- Parse(s);
    if rest != [] then Err(Malformed) else Ok(v)
  }

  lemma {:induction false} FromBigEndianBound(b: Bytes, width: nat)
    requires |b| <= width <= 8
    ensures FromBigEndian(b) <= MAX_U64
    ensures FromBigEndian(b) < Pow(0x100, |b|)
  {
    if b != [] {
      FromBigEndianBound(b[..|b| - 1], width - 1);
    }
    assert Pow(0x100, 8) == 0x1_0000_0000_0000_0000;
    PowMonotone(0x100, |b|, 8);
  }
}
