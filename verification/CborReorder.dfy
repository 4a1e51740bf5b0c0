/**
  Two values have one encoding exactly when they differ only in the order of map pairs, at any depth;
  and how the encodings of map keys are ordered.
*/
module CborReorder {
  import opened Common
  import opened LexOrder
  import opened KeyOrder
  import opened Cbor
  import opened CborProofs
  import Utf8

  /** `there` and `back` are a bijection of `[0, n)` and its inverse. */
  ghost predicate Bijection(there: seq<nat>, back: seq<nat>, n: nat) {
    && |there| == n && |back| == n
    && (forall i :: 0 <= i < n ==> there[i] < n && back[i] < n)
    && forall i :: 0 <= i < n ==> back[there[i]] == i && there[back[i]] == i
  }

  /** `a` and `b` differ only in the order of map pairs. */
  ghost predicate Reordered(a: Value, b: Value)
    decreases a
  {
    match a
    case Array(x) => b.Array? && |x| == |b.items| && forall i :: 0 <= i < |x| ==> Reordered(x[i], b.items[i])
    case Map(p) => b.Map? && |p| == |b.pairs| && exists there, back :: MapReordered(a, b, there, back)
    case _ => a == b
  }

  ghost predicate MapReordered(a: Value, b: Value, there: seq<nat>, back: seq<nat>)
    requires a.Map? && b.Map? && |a.pairs| == |b.pairs|
    decreases a, 0
  {
    && Bijection(there, back, |a.pairs|)
    && forall i :: 0 <= i < |a.pairs| ==>
        Reordered(a.pairs[i].0, b.pairs[there[i]].0) && Reordered(a.pairs[i].1, b.pairs[there[i]].1)
  }

  // ---------------------------------------------------------------------------
  // Reordering leaves the encoding unchanged
  // ---------------------------------------------------------------------------

  lemma {:induction false} EncodeAllCongruent(x: seq<Value>, y: seq<Value>)
    requires |x| == |y| && FitsAll(x) && FitsAll(y)
    requires forall i :: 0 <= i < |x| ==> Fits(x[i]) && Fits(y[i]) && Encode(x[i]) == Encode(y[i])
    ensures EncodeAll(x) == EncodeAll(y)
  {
    if x != [] {
      EncodeAllCongruent(x[1..], y[1..]);
    }
  }

  lemma SortedMembers(keys: seq<Bytes>, x: Bytes)
    ensures x in Apply(SortedOrder(keys), keys) <==> x in keys
  {
    var order := SortedOrder(keys);
    OrderIsPermutation(keys);
    if x in keys {
      var i: nat :| i < |keys| && keys[i] == x;
      assert i in order;
      var j :| 0 <= j < |order| && order[j] == i;
      assert Apply(order, keys)[j] == x;
    }
  }

  ghost predicate Arranged<T(!new)>(a: seq<T>, b: seq<T>, there: seq<nat>, back: seq<nat>) {
    && |a| == |b| && Bijection(there, back, |a|)
    && forall i :: 0 <= i < |a| ==> a[i] == b[there[i]]
  }

  lemma ArrangedBack<T(!new)>(a: seq<T>, b: seq<T>, there: seq<nat>, back: seq<nat>)
    requires Arranged(a, b, there, back)
    ensures Arranged(b, a, back, there)
  {
    forall j | 0 <= j < |b|
      ensures b[j] == a[back[j]]
    {
      assert a[back[j]] == b[there[back[j]]];
    }
  }

  lemma ArrangedMember<T(!new)>(a: seq<T>, b: seq<T>, there: seq<nat>, back: seq<nat>, x: T)
    requires Arranged(a, b, there, back) && x in a
    ensures x in b
  {
    var i :| 0 <= i < |a| && a[i] == x;
    assert b[there[i]] == x;
  }

  lemma ArrangedDistinct(ka: seq<Bytes>, kb: seq<Bytes>, there: seq<nat>, back: seq<nat>)
    requires Arranged(ka, kb, there, back) && Distinct(ka)
    ensures Distinct(kb)
  {
    hide Arranged;
    forall i: nat, j: nat | i < j < |kb|
      ensures kb[i] != kb[j]
    {
      ArrangedElement(ka, kb, there, back, i);
      ArrangedElement(ka, kb, there, back, j);
      assert back[i] < back[j] || back[j] < back[i];
    }
  }

  lemma ArrangedElement<T(!new)>(a: seq<T>, b: seq<T>, there: seq<nat>, back: seq<nat>, i: nat)
    requires Arranged(a, b, there, back) && i < |b|
    ensures |back| == |b| && |there| == |a|
    ensures back[i] < |a| && a[back[i]] == b[i] && there[back[i]] == i
  {
  }

  lemma ArrangedKeys(ka: seq<Bytes>, kb: seq<Bytes>, there: seq<nat>, back: seq<nat>)
    requires Arranged(ka, kb, there, back) && !HasDuplicate(ka)
    ensures !HasDuplicate(kb) && Distinct(kb)
    ensures Apply(SortedOrder(ka), ka) == Apply(SortedOrder(kb), kb)
  {
    hide Arranged;
    hide Apply;
    hide SortedOrder;
    hide HasDuplicate;
    hide Distinct;
    hide StrictlyIncreasing;
    DuplicateExactly(ka);
    DuplicateExactly(kb);
    ArrangedBack(ka, kb, there, back);
    ArrangedDistinct(ka, kb, there, back);
    var sa, sb := Apply(SortedOrder(ka), ka), Apply(SortedOrder(kb), kb);
    SortedStrictly(ka);
    SortedStrictly(kb);
    forall x
      ensures x in sa <==> x in sb
    {
      SortedMembers(ka, x);
      SortedMembers(kb, x);
      if x in ka {
        ArrangedMember(ka, kb, there, back, x);
      }
      if x in kb {
        ArrangedMember(kb, ka, back, there, x);
      }
    }
    IncreasingUnique(sa, sb);
  }

  /** Two arrangements of one list of distinct keys and their values sort to the same list. */
  lemma SortArrangements(ka: seq<Bytes>, va: seq<Bytes>, kb: seq<Bytes>, vb: seq<Bytes>, there: seq<nat>, back: seq<nat>)
    requires |ka| == |va| && Arranged(ka, kb, there, back) && Arranged(va, vb, there, back)
    requires !HasDuplicate(ka)
    ensures !HasDuplicate(kb)
    ensures Apply(SortedOrder(ka), ka) == Apply(SortedOrder(kb), kb)
    ensures Apply(SortedOrder(ka), va) == Apply(SortedOrder(kb), vb)
  {
    hide Arranged;
    hide Apply;
    hide SortedOrder;
    hide HasDuplicate;
    hide Distinct;
    ArrangedKeys(ka, kb, there, back);
    var oa, ob := SortedOrder(ka), SortedOrder(kb);
    SameLengths(ka, kb, there, back);
    SameLengths(va, vb, there, back);
    forall i | 0 <= i < |ka|
      ensures va[oa[i]] == vb[ob[i]]
    {
      ArrangedForward(ka, kb, there, back, oa[i]);
      ArrangedForward(va, vb, there, back, oa[i]);
      assert Apply(oa, ka)[i] == Apply(ob, kb)[i];
      DistinctPosition(kb, there[oa[i]], ob[i]);
    }
    assert Apply(oa, va) == Apply(ob, vb);
  }

  lemma SameLengths<T(!new)>(a: seq<T>, b: seq<T>, there: seq<nat>, back: seq<nat>)
    requires Arranged(a, b, there, back)
    ensures |a| == |b|
  {
  }

  lemma ArrangedForward<T(!new)>(a: seq<T>, b: seq<T>, there: seq<nat>, back: seq<nat>, i: nat)
    requires Arranged(a, b, there, back) && i < |a|
    ensures |there| == |a| && there[i] < |b| && b[there[i]] == a[i]
  {
  }

  lemma DistinctPosition<T(!new)>(s: seq<T>, i: nat, j: nat)
    requires Distinct(s) && i < |s| && j < |s| && s[i] == s[j]
    ensures i == j
  {
    assert i < j || i == j || j < i;
  }

  lemma {:induction false} ReorderedEncodes(a: Value, b: Value)
    requires Fits(a) && Fits(b) && Encode(a).Ok? && Reordered(a, b)
    ensures Encode(b) == Encode(a)
    decreases a, 2
  {
    hide TypeAndArgument;
    hide Pack;
    hide SortedOrder;
    hide Apply;
    hide HasDuplicate;
    hide EncodeAll;
    hide EncodeKeys;
    hide EncodeValues;
    hide MapReordered;
    match a
    case Array(x) =>
      forall i | 0 <= i < |x|
        ensures Fits(x[i]) && Fits(b.items[i]) && Encode(x[i]) == Encode(b.items[i])
      {
        FitsAt(x, i);
        FitsAt(b.items, i);
        ReorderedEncodes(x[i], b.items[i]);
      }
      EncodeAllCongruent(x, b.items);
    case Map(p) => MapReorderedEncodes(a, b);
    case _ =>
  }

  lemma {:induction false} MapReorderedEncodes(a: Value, b: Value)
    requires a.Map? && Fits(a) && Fits(b) && Encode(a).Ok? && Reordered(a, b)
    ensures Encode(b) == Encode(a)
    decreases a, 1
  {
    hide Encode;
    hide MapReordered;
    MapEncodes(a.pairs);
    var there, back :| MapReordered(a, b, there, back);
    MapPairsReordered(a, b, there, back);
    ReorderedBijection(a, b, there, back);
    MapArranged(a.pairs, b.pairs, there, back);
  }

  lemma ReorderedBijection(a: Value, b: Value, there: seq<nat>, back: seq<nat>)
    requires a.Map? && b.Map? && |a.pairs| == |b.pairs| && MapReordered(a, b, there, back)
    ensures Bijection(there, back, |a.pairs|)
  {
  }

  ghost predicate SamePairEncoding(p: (Value, Value), q: (Value, Value)) {
    && FitsPair(p) && FitsPair(q)
    && EncodeKey(p).Ok? && EncodeValue(p).Ok?
    && EncodeKey(p) == EncodeKey(q) && EncodeValue(p) == EncodeValue(q)
  }

  lemma SameParts(p: (Value, Value), q: (Value, Value))
    requires SamePairEncoding(p, q)
    ensures FitsPair(p) && FitsPair(q) && EncodeKey(q).Ok? && EncodeValue(q).Ok?
    ensures EncodeKey(p) == EncodeKey(q) && EncodeValue(p) == EncodeValue(q)
  {
  }

  lemma BijectionParts(there: seq<nat>, back: seq<nat>, n: nat)
    requires Bijection(there, back, n)
    ensures |there| == n && |back| == n
    ensures forall i :: 0 <= i < n ==> there[i] < n && back[i] < n && there[back[i]] == i
  {
  }

  lemma ArrangedFrom<T(!new)>(a: seq<T>, b: seq<T>, there: seq<nat>, back: seq<nat>)
    requires |a| == |b| == |there| && Bijection(there, back, |a|)
    requires forall i :: 0 <= i < |a| ==> there[i] < |b| && a[i] == b[there[i]]
    ensures Arranged(a, b, there, back)
  {
  }

  lemma PairsArranged(p: seq<(Value, Value)>, q: seq<(Value, Value)>, there: seq<nat>, back: seq<nat>)
    requires FitsPairs(p) && FitsPairs(q) && EncodeKeys(p).Ok? && EncodeValues(p).Ok?
    requires |p| == |q| && Bijection(there, back, |p|)
    requires forall i :: 0 <= i < |p| ==> SamePairEncoding(p[i], q[there[i]])
    ensures EncodeKeys(q).Ok? && EncodeValues(q).Ok?
    ensures Arranged(EncodeKeys(p).value, EncodeKeys(q).value, there, back)
    ensures Arranged(EncodeValues(p).value, EncodeValues(q).value, there, back)
  {
    hide EncodeKeys;
    hide EncodeValues;
    hide EncodeKey;
    hide EncodeValue;
    hide CanonPairs;
    hide FitsPair;
    hide FitsPairs;
    hide SamePairEncoding;
    hide Bijection;
    hide Arranged;
    BijectionParts(there, back, |p|);
    forall j | 0 <= j < |q|
      ensures FitsPair(q[j]) && EncodeKey(q[j]).Ok? && EncodeValue(q[j]).Ok?
    {
      SameParts(p[back[j]], q[there[back[j]]]);
    }
    PairsEncode(q);
    forall i | 0 <= i < |p|
      ensures EncodeKeys(p).value[i] == EncodeKeys(q).value[there[i]]
      ensures EncodeValues(p).value[i] == EncodeValues(q).value[there[i]]
    {
      PairsAt(p, i);
      PairsAt(q, there[i]);
      SameParts(p[i], q[there[i]]);
    }
    ArrangedFrom(EncodeKeys(p).value, EncodeKeys(q).value, there, back);
    ArrangedFrom(EncodeValues(p).value, EncodeValues(q).value, there, back);
  }

  lemma MapArranged(p: seq<(Value, Value)>, q: seq<(Value, Value)>, there: seq<nat>, back: seq<nat>)
    requires Fits(Map(p)) && Fits(Map(q)) && Encode(Map(p)).Ok?
    requires |p| == |q| && Bijection(there, back, |p|)
    requires forall i :: 0 <= i < |p| ==> SamePairEncoding(p[i], q[there[i]])
    ensures Encode(Map(q)) == Encode(Map(p))
  {
    PairsArranged(p, q, there, back);
    SortArrangements(EncodeKeys(p).value, EncodeValues(p).value, EncodeKeys(q).value, EncodeValues(q).value, there, back);
  }

  lemma {:induction false} PairReorderedEncodes(p: (Value, Value), q: (Value, Value))
    requires FitsPair(p) && FitsPair(q) && EncodeKey(p).Ok? && EncodeValue(p).Ok?
    requires Reordered(p.0, q.0) && Reordered(p.1, q.1)
    ensures SamePairEncoding(p, q)
    decreases p, 2
  {
    ReorderedEncodes(p.0, q.0);
    ReorderedEncodes(p.1, q.1);
  }

  lemma {:induction false} MapPairsReordered(a: Value, b: Value, there: seq<nat>, back: seq<nat>)
    requires a.Map? && b.Map? && |a.pairs| == |b.pairs| && FitsPairs(a.pairs) && FitsPairs(b.pairs)
    requires EncodeKeys(a.pairs).Ok? && EncodeValues(a.pairs).Ok? && MapReordered(a, b, there, back)
    ensures forall i :: 0 <= i < |a.pairs| ==> SamePairEncoding(a.pairs[i], b.pairs[there[i]])
    decreases a, 0
  {
    forall i | 0 <= i < |a.pairs|
      ensures SamePairEncoding(a.pairs[i], b.pairs[there[i]])
    {
      PairsAt(a.pairs, i);
      FitsPairAt(b.pairs, there[i]);
      PairReorderedEncodes(a.pairs[i], b.pairs[there[i]]);
    }
  }

  // ---------------------------------------------------------------------------
  // One encoding means a reordering
  // ---------------------------------------------------------------------------

  function Position(order: seq<nat>, x: nat): (i: nat)
    requires x in order
    ensures i < |order| && order[i] == x
  {
    if order[0] == x then 0 else 1 + Position(order[1..], x)
  }

  /** For each index of `oa`'s list, the index `ob` puts at the same place. */
  function Matching(oa: seq<nat>, ob: seq<nat>): (there: seq<nat>)
    requires |oa| == |ob| && forall x: nat :: x < |oa| ==> x in oa
    ensures |there| == |oa|
    ensures forall i :: 0 <= i < |oa| ==> there[i] == ob[Position(oa, i)]
  {
    seq(|oa|, i requires 0 <= i < |oa| => ob[Position(oa, i)])
  }

  lemma MatchingBijection(oa: seq<nat>, ob: seq<nat>, n: nat)
    requires IsPermutation(oa, n) && IsPermutation(ob, n)
    requires forall x: nat :: x < n ==> x in oa && x in ob
    ensures Bijection(Matching(oa, ob), Matching(ob, oa), n)
    ensures forall i :: 0 <= i < n ==> Matching(oa, ob)[oa[i]] == ob[i]
  {
    var there, back := Matching(oa, ob), Matching(ob, oa);
    forall i | 0 <= i < n
      ensures there[oa[i]] == ob[i] && back[ob[i]] == oa[i]
    {
      assert oa[Position(oa, oa[i])] == oa[i];
      assert ob[Position(ob, ob[i])] == ob[i];
    }
    forall i: nat | i < n
      ensures back[there[i]] == i && there[back[i]] == i
    {
      assert oa[Position(oa, i)] == i && ob[Position(ob, i)] == i;
    }
  }

  ghost predicate SamePairCanon(p: (Value, Value), q: (Value, Value)) {
    && FitsPair(p) && FitsPair(q)
    && EncodeKey(p).Ok? && EncodeValue(p).Ok? && EncodeKey(q).Ok? && EncodeValue(q).Ok?
    && CanonPair(p) == CanonPair(q)
  }

  /** Maps with one canonical form match pair for pair, through the two sorting orders. */
  lemma CanonMatching(p: seq<(Value, Value)>, q: seq<(Value, Value)>) returns (there: seq<nat>, back: seq<nat>)
    requires FitsPairs(p) && FitsPairs(q) && EncodeKeys(p).Ok? && EncodeValues(p).Ok? && EncodeKeys(q).Ok? && EncodeValues(q).Ok?
    requires SortedPairs(p) == SortedPairs(q)
    ensures |p| == |q| && Bijection(there, back, |p|)
    ensures forall i :: 0 <= i < |p| ==> SamePairCanon(p[i], q[there[i]])
  {
    assert |p| == |SortedPairs(p)| == |SortedPairs(q)| == |q|;
    var oa, ob := SortedOrder(EncodeKeys(p).value), SortedOrder(EncodeKeys(q).value);
    OrderIsPermutation(EncodeKeys(p).value);
    OrderIsPermutation(EncodeKeys(q).value);
    there, back := Matching(oa, ob), Matching(ob, oa);
    MatchingBijection(oa, ob, |p|);
    forall i: nat | i < |p|
      ensures SamePairCanon(p[i], q[there[i]])
    {
      var k := Position(oa, i);
      assert SortedPairs(p)[k] == CanonPairs(p)[i];
      assert SortedPairs(q)[k] == CanonPairs(q)[there[i]];
      PairsAt(p, i);
      PairsAt(q, there[i]);
    }
  }

  lemma {:induction false} CanonReordered(a: Value, b: Value)
    requires Fits(a) && Fits(b) && Encode(a).Ok? && Encode(b).Ok? && Canon(a) == Canon(b)
    ensures Reordered(a, b)
    decreases a
  {
    match a
    case Array(x) =>
      forall i | 0 <= i < |x|
        ensures Reordered(x[i], b.items[i])
      {
        FitsAt(x, i);
        FitsAt(b.items, i);
        CanonReordered(x[i], b.items[i]);
      }
    case Map(p) =>
      var q := b.pairs;
      var there, back := CanonMatching(p, q);
      forall i: nat | i < |p|
        ensures Reordered(p[i].0, q[there[i]].0) && Reordered(p[i].1, q[there[i]].1)
      {
        assert SamePairCanon(p[i], q[there[i]]);
        CanonReordered(p[i].0, q[there[i]].0);
        CanonReordered(p[i].1, q[there[i]].1);
      }
      assert MapReordered(a, b, there, back);
    case _ =>
  }

  /** Two encodable values share an encoding if and only if they differ only by map order at some depth. */
  lemma SameEncodingExactly(a: Value, b: Value)
    requires Fits(a) && Fits(b) && Encode(a).Ok?
    ensures Encode(a) == Encode(b) <==> Reordered(a, b)
  {
    if Reordered(a, b) {
      ReorderedEncodes(a, b);
    }
    if Encode(a) == Encode(b) {
      DecodeEncode(a);
      DecodeEncode(b);
      CanonReordered(a, b);
    }
  }

  // ---------------------------------------------------------------------------
  // How far the encoded-key order is length-first
  // ---------------------------------------------------------------------------

  /** Across major types the bytewise order is not length-first: 24 encodes as 18 18, and -1 as 20. */
  lemma LengthFirstFails()
    ensures Encode(Unsigned(24)) == Ok([0x18, 0x18]) && Encode(Negative(0)) == Ok([0x20])
    ensures Less([0x18, 0x18], [0x20])
  {
    assert BigEndian(0, 0) == [];
    assert BigEndian(24, 1) == BigEndian(0, 0) + [24];
    assert TypeAndArgument(0, 24) == [0x18, 0x18];
    assert Less([0x18, 0x18], [0x20]);
  }

  function Major(v: Value): (m: nat)
    ensures m < 8
  {
    match v
    case Unsigned(_) => 0
    case Negative(_) => 1
    case ByteString(_) => 2
    case Text(_) => 3
    case Array(_) => 4
    case Map(_) => 5
    case Bool(_) => 7
    case Null => 7
  }

  predicate IsScalarKey(v: Value) {
    !v.Array? && !v.Map?
  }

  /** The number an encoded scalar key's header carries. */
  function Carried(v: Value): nat
    requires IsScalarKey(v)
  {
    match v
    case Unsigned(n) => n
    case Negative(m) => m
    case ByteString(b) => |b|
    case Text(t) => |Utf8.Encode(t)|
    case Bool(b) => if b then 21 else 20
    case Null => 22
  }

  function Payload(v: Value): Bytes
    requires IsScalarKey(v)
  {
    match v
    case ByteString(b) => b
    case Text(t) => Utf8.Encode(t)
    case _ => []
  }

  lemma ScalarKeyShape(v: Value)
    requires IsScalarKey(v) && Fits(v)
    ensures Carried(v) <= MAX_U64 && Encode(v) == Ok(TypeAndArgument(Major(v), Carried(v)) + Payload(v))
    ensures Payload(v) == [] || |Payload(v)| == Carried(v)
  {
    assert TypeAndArgument(Major(v), Carried(v)) + [] == TypeAndArgument(Major(v), Carried(v));
  }

  lemma {:induction false} BigEndianOrder(x: nat, y: nat, width: nat)
    requires x < y < Pow(0x100, width)
    ensures Less(BigEndian(x, width), BigEndian(y, width))
  {
    if width > 0 {
      var hx, hy := BigEndian(x / 0x100, width - 1), BigEndian(y / 0x100, width - 1);
      if x / 0x100 < y / 0x100 {
        BigEndianOrder(x / 0x100, y / 0x100, width - 1);
      }
      Heads(hx, [x % 0x100], hy, [y % 0x100]);
    }
  }

  /** Under one major type, a smaller argument gives a smaller header, whatever follows. */
  lemma HeaderOrder(major: nat, x: U64, y: U64, p: Bytes, q: Bytes)
    requires major < 8 && x < y
    ensures Less(TypeAndArgument(major, x) + p, TypeAndArgument(major, y) + q)
    ensures |TypeAndArgument(major, x)| <= |TypeAndArgument(major, y)|
  {
    Powers();
    var ex, ey := TypeAndArgument(major, x), TypeAndArgument(major, y);
    assert (ex + p)[0] == ex[0] && (ey + q)[0] == ey[0];
    if ex[0] == ey[0] {
      assert x > 23;
      var w := |ex| - 1;
      assert ex == [ex[0]] + BigEndian(x, w) && ey == [ex[0]] + BigEndian(y, w);
      BigEndianOrder(x, y, w);
      Heads([ex[0]], BigEndian(x, w), [ex[0]], BigEndian(y, w));
      Heads(ex, p, ey, q);
    }
  }

  lemma FirstByte(major: nat, x: U64)
    requires major < 8
    ensures TypeAndArgument(major, x) != [] && major * 32 <= TypeAndArgument(major, x)[0] < major * 32 + 32
  {
  }

  /** The first byte of any encoding tells its major type. */
  lemma FirstByteMajor(v: Value)
    requires Fits(v) && Encode(v).Ok?
    ensures Encode(v).value != [] && Encode(v).value[0] / 32 == Major(v)
  {
    hide TypeAndArgument;
    match v {
      case Array(items) => FirstByte(4, |items|);
      case Map(pairs) => FirstByte(5, |pairs|);
      case _ =>
        ScalarKeyShape(v);
        FirstByte(Major(v), Carried(v));
    }
  }

  /** Keys of different major types, collections included, sort by major type whatever their lengths. */
  lemma MajorsDecide(a: Value, b: Value)
    requires Fits(a) && Fits(b) && Encode(a).Ok? && Encode(b).Ok? && Major(a) != Major(b)
    ensures Less(Encode(a).value, Encode(b).value) <==> Major(a) < Major(b)
  {
    hide Encode;
    FirstByteMajor(a);
    FirstByteMajor(b);
  }

  /**
    When the order is length-first: for keys that are no collections, a shorter encoding sorts before
    a longer one exactly when its major type is not the greater.
  */
  lemma LengthFirstExactly(a: Value, b: Value)
    requires IsScalarKey(a) && IsScalarKey(b) && Fits(a) && Fits(b)
    requires |Encode(a).value| < |Encode(b).value|
    ensures Less(Encode(a).value, Encode(b).value) <==> Major(a) <= Major(b)
  {
    ScalarKeyShape(a);
    ScalarKeyShape(b);
    if Major(a) != Major(b) {
      MajorsDecide(a, b);
    } else {
      if Carried(b) < Carried(a) {
        HeaderOrder(Major(a), Carried(b), Carried(a), [], []);
      }
      assert Carried(a) < Carried(b);
      HeaderOrder(Major(a), Carried(a), Carried(b), Payload(a), Payload(b));
    }
  }

  /** Keys of one scalar type sort by the number in the header, then by what follows it. */
  lemma ScalarsOrder(a: Value, b: Value)
    requires IsScalarKey(a) && IsScalarKey(b) && Fits(a) && Fits(b) && Major(a) == Major(b)
    ensures Less(Encode(a).value, Encode(b).value) <==>
      Carried(a) < Carried(b) || (Carried(a) == Carried(b) && Less(Payload(a), Payload(b)))
  {
    hide Encode;
    hide Less;
    hide TypeAndArgument;
    hide Payload;
    hide Carried;
    ScalarKeyShape(a);
    ScalarKeyShape(b);
    if Carried(a) < Carried(b) {
      HeaderOrder(Major(a), Carried(a), Carried(b), Payload(a), Payload(b));
    } else if Carried(b) < Carried(a) {
      HeaderOrder(Major(a), Carried(b), Carried(a), Payload(b), Payload(a));
      Asymmetric(Encode(b).value, Encode(a).value);
    } else {
      var header := TypeAndArgument(Major(a), Carried(a));
      Heads(header, Payload(a), header, Payload(b));
      Irreflexive(header);
    }
  }

  /** Not even collections of one type sort by length: the longer 81 42 00 00 comes before 82 00 00. */
  lemma CollectionsNotLengthFirst()
    ensures Encode(Array([ByteString([0, 0])])) == Ok([0x81, 0x42, 0, 0])
    ensures Encode(Array([Unsigned(0), Unsigned(0)])) == Ok([0x82, 0, 0])
    ensures Less([0x81, 0x42, 0, 0], [0x82, 0, 0])
  {
    var x, y := [ByteString([0, 0])], [Unsigned(0), Unsigned(0)];
    EncodeOne(x[0]);
    EncodeOne(y[1]);
    assert x == [x[0]] && y[1..] == [y[1]];
    assert Encode(x[0]) == Ok([0x42] + [0, 0]) && Encode(y[0]) == Ok([0]);
    assert EncodeAll(y) == Ok([0] + [0]);
    assert EncodeAll(x) == Ok([0x42] + [0, 0]);
    assert TypeAndArgument(4, 1) == [0x81] && TypeAndArgument(4, 2) == [0x82];
    assert [0x81] + ([0x42] + [0, 0]) == [0x81, 0x42, 0, 0] && [0x82] + ([0] + [0]) == [0x82, 0, 0];
  }

  lemma EncodeOne(v: Value)
    requires Fits(v) && Encode(v).Ok?
    ensures FitsAll([v]) && EncodeAll([v]) == Encode(v)
  {
    assert [v][1..] == [] && EncodeAll([]) == Ok([]);
    assert Encode(v).value + [] == Encode(v).value;
  }

  // ---------------------------------------------------------------------------
  // The order of collections
  // ---------------------------------------------------------------------------

  function Join(parts: seq<Bytes>): Bytes {
    if parts == [] then [] else parts[0] + Join(parts[1..])
  }

  /** The encodings a list of elements is made of. */
  function ItemParts(items: seq<Value>): (r: seq<Bytes>)
    requires FitsAll(items) && EncodeAll(items).Ok?
    ensures |r| == |items|
  {
    if items == [] then [] else [Encode(items[0]).value] + ItemParts(items[1..])
  }

  /** Keys and values in turn. */
  function PairParts(keys: seq<Bytes>, values: seq<Bytes>): (r: seq<Bytes>)
    requires |keys| == |values|
    ensures |r| == 2 * |keys|
  {
    if keys == [] then [] else [keys[0], values[0]] + PairParts(keys[1..], values[1..])
  }

  /** What follows the header of an encoded collection: its elements, or its sorted keys each with its value. */
  function Parts(v: Value): (r: seq<Bytes>)
    requires Fits(v) && Encode(v).Ok? && !IsScalarKey(v)
  {
    match v
    case Array(items) => ItemParts(items)
    case Map(pairs) => PairParts(SortedKeys(pairs), SortedValues(pairs))
  }

  function Size(v: Value): nat
    requires !IsScalarKey(v)
  {
    if v.Array? then |v.items| else |v.pairs|
  }

  /** The first part in which the two lists differ is less in `x`. */
  ghost predicate FirstDifferenceLess(x: seq<Bytes>, y: seq<Bytes>) {
    exists k :: 0 <= k < |x| && k < |y| && Less(x[k], y[k]) && x[..k] == y[..k]
  }

  ghost predicate AllEncodings(parts: seq<Bytes>) {
    forall i :: 0 <= i < |parts| ==> Decode(parts[i]).Ok?
  }

  lemma {:induction false} ItemPartsJoin(items: seq<Value>)
    requires FitsAll(items) && EncodeAll(items).Ok?
    ensures EncodeAll(items).value == Join(ItemParts(items)) && AllEncodings(ItemParts(items))
  {
    hide Encode;
    hide Decode;
    if items != [] {
      ItemPartsJoin(items[1..]);
      DecodeEncode(items[0]);
      assert ItemParts(items)[1..] == ItemParts(items[1..]);
    }
  }

  lemma {:induction false} PairPartsJoin(keys: seq<Bytes>, values: seq<Bytes>)
    requires |keys| == |values| && AllEncodings(keys) && AllEncodings(values)
    ensures Pack(keys, values) == Join(PairParts(keys, values)) && AllEncodings(PairParts(keys, values))
  {
    hide Decode;
    if keys != [] {
      PairPartsJoin(keys[1..], values[1..]);
      var parts := PairParts(keys, values);
      assert parts[1..] == [values[0]] + PairParts(keys[1..], values[1..]);
      assert parts[1..][1..] == PairParts(keys[1..], values[1..]);
      AppendAssociative(keys[0], values[0], Join(parts[1..][1..]));
    }
  }

  lemma SortedEncodings(pairs: seq<(Value, Value)>)
    requires Fits(Map(pairs)) && Encode(Map(pairs)).Ok?
    ensures FitsPairs(pairs) && EncodeKeys(pairs).Ok? && EncodeValues(pairs).Ok?
    ensures AllEncodings(SortedKeys(pairs)) && AllEncodings(SortedValues(pairs))
  {
    hide Encode;
    hide Decode;
    hide SortedKeys;
    hide SortedValues;
    hide SortedPairs;
    MapEncodes(pairs);
    forall i | 0 <= i < |pairs|
      ensures Decode(SortedKeys(pairs)[i]).Ok? && Decode(SortedValues(pairs)[i]).Ok?
    {
      var j := SortedAt(pairs, i);
      DecodeEncode(pairs[j].0);
      DecodeEncode(pairs[j].1);
    }
  }

  /** An encoded collection is its header followed by its parts. */
  lemma CollectionShape(v: Value)
    requires Fits(v) && Encode(v).Ok? && !IsScalarKey(v)
    ensures Size(v) <= MAX_U64 && Encode(v).value == TypeAndArgument(Major(v), Size(v)) + Join(Parts(v))
    ensures AllEncodings(Parts(v)) && |Parts(v)| == (if v.Array? then 1 else 2) * Size(v)
  {
    hide AllEncodings;
    if v.Array? {
      ItemPartsJoin(v.items);
    } else {
      SortedEncodings(v.pairs);
      PairPartsJoin(SortedKeys(v.pairs), SortedValues(v.pairs));
    }
  }

  lemma EncodingsApart(x: Bytes, y: Bytes)
    requires Decode(x).Ok? && Decode(y).Ok? && x != y
    ensures !(x <= y) && !(y <= x)
  {
    hide Encode;
    hide Decode;
    DecodeIsEncoding(x);
    DecodeIsEncoding(y);
    if x <= y {
      PrefixFree(Decode(x).value, Decode(y).value);
    }
    if y <= x {
      PrefixFree(Decode(y).value, Decode(x).value);
    }
  }

  lemma FirstDifferenceCons(x: seq<Bytes>, y: seq<Bytes>)
    requires x != [] && y != []
    ensures FirstDifferenceLess(x, y) <==> Less(x[0], y[0]) || (x[0] == y[0] && FirstDifferenceLess(x[1..], y[1..]))
  {
    hide Less;
    hide FirstDifferenceLess;
    if Less(x[0], y[0]) {
      DifferenceFront(x, y);
    }
    if FirstDifferenceLess(x, y) && !Less(x[0], y[0]) {
      DifferenceTail(x, y);
    }
    if x[0] == y[0] && FirstDifferenceLess(x[1..], y[1..]) {
      DifferenceLater(x, y);
    }
  }

  lemma DifferenceFront(x: seq<Bytes>, y: seq<Bytes>)
    requires x != [] && y != [] && Less(x[0], y[0])
    ensures FirstDifferenceLess(x, y)
  {
    assert x[..0] == y[..0];
  }

  lemma DifferenceTail(x: seq<Bytes>, y: seq<Bytes>)
    requires x != [] && y != [] && FirstDifferenceLess(x, y) && !Less(x[0], y[0])
    ensures x[0] == y[0] && FirstDifferenceLess(x[1..], y[1..])
  {
    hide Less;
    var k :| 0 <= k < |x| && k < |y| && Less(x[k], y[k]) && x[..k] == y[..k];
    assert x[..k][0] == x[0] && y[..k][0] == y[0];
    TailSlices(x, k);
    TailSlices(y, k);
    assert Less(x[1..][k - 1], y[1..][k - 1]);
  }

  lemma TailSlices<T>(s: seq<T>, k: nat)
    requires 0 < k <= |s|
    ensures s[1..][..k - 1] == s[..k][1..] && s[..k] == [s[0]] + s[1..][..k - 1]
    ensures k < |s| ==> s[1..][k - 1] == s[k]
  {
  }

  lemma DifferenceLater(x: seq<Bytes>, y: seq<Bytes>)
    requires x != [] && y != [] && x[0] == y[0] && FirstDifferenceLess(x[1..], y[1..])
    ensures FirstDifferenceLess(x, y)
  {
    hide Less;
    var k :| 0 <= k < |x[1..]| && k < |y[1..]| && Less(x[1..][k], y[1..][k]) && x[1..][..k] == y[1..][..k];
    TailSlices(x, k + 1);
    TailSlices(y, k + 1);
    assert Less(x[k + 1], y[k + 1]);
  }

  lemma {:induction false} JoinOrder(x: seq<Bytes>, y: seq<Bytes>)
    requires |x| == |y| && AllEncodings(x) && AllEncodings(y)
    ensures Less(Join(x), Join(y)) <==> FirstDifferenceLess(x, y)
  {
    hide Decode;
    hide Less;
    hide FirstDifferenceLess;
    if x == [] {
      NothingDiffers();
    } else {
      JoinOrder(x[1..], y[1..]);
      FirstDifferenceCons(x, y);
      if x[0] == y[0] {
        Heads(x[0], Join(x[1..]), y[0], Join(y[1..]));
        Irreflexive(x[0]);
      } else {
        EncodingsApart(x[0], y[0]);
        Apart(x[0], Join(x[1..]), y[0], Join(y[1..]));
      }
    }
  }

  lemma NothingDiffers()
    ensures !Less([], []) && !FirstDifferenceLess([], [])
  {
  }

  /**
    Two array keys, or two map keys: the one with fewer elements sorts first, and of two with as many
    the one whose first differing part is less. The parts of a map are its keys in sorted order, each
    followed by its value.
  */
  lemma CollectionsOrder(a: Value, b: Value)
    requires Fits(a) && Fits(b) && Encode(a).Ok? && Encode(b).Ok?
    requires Major(a) == Major(b) && !IsScalarKey(a) && !IsScalarKey(b)
    ensures Less(Encode(a).value, Encode(b).value) <==>
      Size(a) < Size(b) || (Size(a) == Size(b) && FirstDifferenceLess(Parts(a), Parts(b)))
  {
    hide Encode;
    hide Less;
    hide Parts;
    hide Join;
    hide TypeAndArgument;
    hide AllEncodings;
    hide FirstDifferenceLess;
    CollectionShape(a);
    CollectionShape(b);
    if Size(a) < Size(b) {
      HeaderOrder(Major(a), Size(a), Size(b), Join(Parts(a)), Join(Parts(b)));
    } else if Size(b) < Size(a) {
      HeaderOrder(Major(a), Size(b), Size(a), Join(Parts(b)), Join(Parts(a)));
      Asymmetric(Encode(b).value, Encode(a).value);
    } else {
      var header := TypeAndArgument(Major(a), Size(a));
      Heads(header, Join(Parts(a)), header, Join(Parts(b)));
      Irreflexive(header);
      JoinOrder(Parts(a), Parts(b));
    }
  }
}
