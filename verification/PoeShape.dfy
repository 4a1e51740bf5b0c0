/** Maps rebuilt field by field encode like the maps they were read from. */
module PoeShape {
  import opened Common
  import opened Cbor
  import opened CborProofs
  import opened CborReorder
  import opened KeyOrder
  import opened PoeRecord

  predicate WellFormed(v: Value) {
    Fits(v) && Encode(v).Ok?
  }

  /** Both values encode, to the same bytes. */
  predicate Same(a: Value, b: Value) {
    WellFormed(a) && Fits(b) && Encode(b) == Encode(a)
  }

  predicate SameIfAny(a: Option<Value>, b: Option<Value>) {
    match (a, b)
    case (None, None) => true
    case (Some(x), Some(y)) => Same(x, y)
    case _ => false
  }

  predicate KeysDistinct(pairs: seq<(Value, Value)>) {
    forall i, j :: 0 <= i < j < |pairs| ==> pairs[i].0 != pairs[j].0
  }

  /** Encodable maps have distinct keys, and encodable keys and values. */
  lemma MapParts(p: seq<(Value, Value)>)
    requires WellFormed(Map(p))
    ensures KeysDistinct(p)
    ensures forall i :: 0 <= i < |p| ==> WellFormed(p[i].0) && WellFormed(p[i].1)
  {
    hide Encode;
    hide Canon;
    MapKeysDistinct(p);
    forall i | 0 <= i < |p|
      ensures WellFormed(p[i].0) && WellFormed(p[i].1)
    {
      PairsAt(p, i);
    }
    forall i, j | 0 <= i < j < |p|
      ensures p[i].0 != p[j].0
    {
      PairsAt(p, i);
      PairsAt(p, j);
    }
  }

  lemma MapKeysDistinct(p: seq<(Value, Value)>)
    requires WellFormed(Map(p))
    ensures FitsPairs(p) && EncodeKeys(p).Ok? && EncodeValues(p).Ok? && Distinct(EncodeKeys(p).value)
  {
    DuplicateExactly(EncodeKeys(p).value);
  }

  lemma ArrayParts(items: seq<Value>)
    requires WellFormed(Array(items))
    ensures forall i :: 0 <= i < |items| ==> WellFormed(items[i])
  {
    hide Canon;
    forall i | 0 <= i < |items|
      ensures WellFormed(items[i])
    {
      FitsAt(items, i);
    }
  }

  lemma {:induction false} GetAt(pairs: seq<(Value, Value)>, i: nat, key: string)
    requires KeysDistinct(pairs) && i < |pairs| && pairs[i].0 == Text(key)
    ensures Get(pairs, key) == Some(pairs[i].1)
  {
    if i > 0 {
      TailDistinct(pairs);
      GetAt(pairs[1..], i - 1, key);
    }
  }

  lemma TailDistinct(pairs: seq<(Value, Value)>)
    requires KeysDistinct(pairs) && pairs != []
    ensures KeysDistinct(pairs[1..])
  {
    forall i, j | 0 <= i < j < |pairs[1..]|
      ensures pairs[1..][i].0 != pairs[1..][j].0
    {
      assert pairs[1..][i] == pairs[i + 1] && pairs[1..][j] == pairs[j + 1];
    }
  }

  /** Where a key is found. */
  function Find(pairs: seq<(Value, Value)>, key: string): (i: nat)
    requires Has(pairs, key)
    ensures i < |pairs| && pairs[i] == (Text(key), Get(pairs, key).value)
  {
    if pairs[0].0 == Text(key) then 0 else 1 + Find(pairs[1..], key)
  }

  // ---------------------------------------------------------------------------
  // Maps with the same keys
  // ---------------------------------------------------------------------------

  /** An injection between index ranges keeps sizes in order. */
  lemma {:induction false} Pigeonhole(n: nat, f: nat -> nat, m: nat)
    requires forall i :: 0 <= i < n ==> f(i) < m
    requires forall i, j :: 0 <= i < j < n ==> f(i) != f(j)
    ensures n <= m
  {
    var image := set i | 0 <= i < n :: f(i);
    ImageSize(n, f);
    assert image <= Below(m);
    SubsetSize(image, Below(m));
  }

  lemma {:induction false} ImageSize(n: nat, f: nat -> nat)
    requires forall i, j :: 0 <= i < j < n ==> f(i) != f(j)
    ensures |set i | 0 <= i < n :: f(i)| == n
  {
    if n > 0 {
      ImageSize(n - 1, f);
      var smaller := set i | 0 <= i < n - 1 :: f(i);
      assert (set i | 0 <= i < n :: f(i)) == smaller + {f(n - 1)};
    }
  }

  function Below(m: nat): (s: set<nat>)
    ensures |s| == m && forall k: nat :: k in s <==> k < m
  {
    if m == 0 then {} else Below(m - 1) + {m - 1}
  }

  lemma {:induction false} SubsetSize<T>(a: set<T>, b: set<T>)
    requires a <= b
    ensures |a| <= |b|
  {
    if a != {} {
      var x :| x in a;
      SubsetSize(a - {x}, b - {x});
    }
  }

  /** Every text key of `p` is one of `q`, with a value that encodes alike. */
  predicate CarriedBy(p: seq<(Value, Value)>, q: seq<(Value, Value)>) {
    forall i :: 0 <= i < |p| ==>
      p[i].0.Text? && Has(q, p[i].0.text) && Same(p[i].1, Get(q, p[i].0.text).value)
  }

  predicate KeysWithin(q: seq<(Value, Value)>, p: seq<(Value, Value)>) {
    forall j :: 0 <= j < |q| ==> q[j].0.Text? && Has(p, q[j].0.text)
  }

  function Places(p: seq<(Value, Value)>, q: seq<(Value, Value)>): (r: seq<nat>)
    requires KeysWithin(p, q)
    ensures |r| == |p| && forall i :: 0 <= i < |p| ==> r[i] < |q| && q[r[i]].0 == p[i].0
  {
    seq(|p|, i requires 0 <= i < |p| => Find(q, p[i].0.text))
  }

  lemma PlacesInjective(p: seq<(Value, Value)>, q: seq<(Value, Value)>)
    requires KeysWithin(p, q) && KeysDistinct(p)
    ensures |p| <= |q|
  {
    hide Find;
    hide Get;
    var r := Places(p, q);
    var f := (i: nat) => if i < |r| then r[i] else 0;
    Pigeonhole(|p|, f, |q|);
  }

  lemma PlacesInverse(p: seq<(Value, Value)>, q: seq<(Value, Value)>)
    requires KeysWithin(p, q) && KeysWithin(q, p) && KeysDistinct(p) && KeysDistinct(q)
    ensures |p| == |q| && Bijection(Places(p, q), Places(q, p), |p|)
  {
    hide Find;
    hide Get;
    PlacesInjective(p, q);
    PlacesInjective(q, p);
    var there, back := Places(p, q), Places(q, p);
    forall i | 0 <= i < |p|
      ensures back[there[i]] == i && there[back[i]] == i
    {
      assert p[back[there[i]]].0 == p[i].0;
      assert q[there[back[i]]].0 == q[i].0;
    }
  }

  /** Two text-keyed maps that carry the same fields, in any order, encode alike. */
  lemma KeyedSame(p: seq<(Value, Value)>, q: seq<(Value, Value)>)
    requires WellFormed(Map(p)) && KeysDistinct(q) && CarriedBy(p, q) && KeysWithin(q, p)
    ensures Same(Map(p), Map(q))
  {
    hide Encode;
    hide Get;
    hide Find;
    hide Bijection;
    MapParts(p);
    assert KeysWithin(p, q);
    PlacesInverse(p, q);
    var there := Places(p, q);
    forall i | 0 <= i < |p|
      ensures SamePairEncoding(p[i], q[there[i]])
    {
      CarriedAt(p, q, i);
    }
    PairsFitWhole(p, q);
    MapArranged(p, q, there, Places(q, p));
  }

  lemma CarriedAt(p: seq<(Value, Value)>, q: seq<(Value, Value)>, i: nat)
    requires WellFormed(Map(p)) && CarriedBy(p, q) && KeysWithin(p, q) && i < |p|
    ensures SamePairEncoding(p[i], q[Places(p, q)[i]])
  {
    hide Get;
    hide TypeAndArgument;
    MapParts(p);
    var j := Find(q, p[i].0.text);
    assert q[j] == (p[i].0, Get(q, p[i].0.text).value);
    PairFromParts(p[i], q[j]);
  }

  lemma PairFromParts(a: (Value, Value), b: (Value, Value))
    requires WellFormed(a.0) && a.0 == b.0 && Same(a.1, b.1)
    ensures SamePairEncoding(a, b)
  {
    hide TypeAndArgument;
  }

  lemma PairsFitWhole(p: seq<(Value, Value)>, q: seq<(Value, Value)>)
    requires Fits(Map(p)) && |p| == |q| && CarriedBy(p, q) && KeysWithin(q, p) && KeysWithin(p, q) && KeysDistinct(q)
    requires WellFormed(Map(p))
    ensures Fits(Map(q))
  {
    hide Find;
    hide Get;
    hide Encode;
    hide Places;
    hide CarriedBy;
    hide KeysDistinct;
    MapParts(p);
    PlacesInverse(p, q);
    forall j | 0 <= j < |q|
      ensures FitsPair(q[j])
    {
      CarriedAt(p, q, Places(q, p)[j]);
    }
    PairsFit(q);
  }

  lemma {:induction false} PairsFit(q: seq<(Value, Value)>)
    requires forall j :: 0 <= j < |q| ==> FitsPair(q[j])
    ensures FitsPairs(q)
  {
    if q != [] {
      PairsFit(q[1..]);
    }
  }

  // ---------------------------------------------------------------------------
  // Field tables
  // ---------------------------------------------------------------------------

  predicate NamesDistinct(table: seq<Field>) {
    forall i, j :: 0 <= i < j < |table| ==> table[i].0 != table[j].0
  }

  predicate Named(table: seq<Field>, key: string) {
    exists i :: 0 <= i < |table| && table[i].0 == key
  }

  /** The pairs of a table are its present fields, each once. */
  lemma {:induction false} FieldsGet(table: seq<Field>, i: nat)
    requires NamesDistinct(table) && i < |table|
    ensures Get(Fields(table), table[i].0) == table[i].1
  {
    var tail := table[1..];
    TailNames(table);
    FieldsOnly(tail);
    var rest := Fields(tail);
    if i == 0 {
      if table[0].1.Some? {
        assert Fields(table)[0] == (Text(table[0].0), table[0].1.value);
      } else {
        assert Fields(table) == rest;
        if Has(rest, table[0].0) {
          var j := Find(rest, table[0].0);
        }
      }
    } else {
      FieldsGet(tail, i - 1);
      assert tail[i - 1] == table[i];
      if table[0].1.Some? {
        assert Fields(table)[1..] == rest;
      } else {
        assert Fields(table) == rest;
      }
    }
  }

  lemma TailNames(table: seq<Field>)
    requires NamesDistinct(table) && table != []
    ensures NamesDistinct(table[1..]) && !Named(table[1..], table[0].0)
  {
    var tail := table[1..];
    forall i, j | 0 <= i < j < |tail|
      ensures tail[i].0 != tail[j].0
    {
      assert tail[i] == table[i + 1] && tail[j] == table[j + 1];
    }
    forall i | 0 <= i < |tail|
      ensures tail[i].0 != table[0].0
    {
      assert tail[i] == table[i + 1];
    }
  }

  /** Every pair of a table is named by it. */
  lemma {:induction false} FieldsOnly(table: seq<Field>)
    ensures forall j :: 0 <= j < |Fields(table)| ==> Fields(table)[j].0.Text? && Named(table, Fields(table)[j].0.text)
  {
    if table != [] {
      var tail := table[1..];
      FieldsOnly(tail);
      var head := if table[0].1.Some? then [(Text(table[0].0), table[0].1.value)] else [];
      assert Fields(table) == head + Fields(tail);
      forall j | 0 <= j < |Fields(table)|
        ensures Fields(table)[j].0.Text? && Named(table, Fields(table)[j].0.text)
      {
        if j < |head| {
          assert table[0].0 == Fields(table)[j].0.text;
        } else {
          var e := Fields(tail)[j - |head|];
          var i :| 0 <= i < |tail| && tail[i].0 == e.0.text;
          assert table[i + 1].0 == e.0.text;
        }
      }
    }
  }

  lemma {:induction false} FieldsDistinct(table: seq<Field>)
    requires NamesDistinct(table)
    ensures KeysDistinct(Fields(table))
  {
    if table != [] {
      var tail := table[1..];
      TailNames(table);
      FieldsDistinct(tail);
      FieldsOnly(tail);
    }
  }

  /** The table fills in exactly the fields of the map, with values that encode alike. */
  predicate Fills(p: seq<(Value, Value)>, table: seq<Field>) {
    && (forall i :: 0 <= i < |p| ==> p[i].0.Text? && Named(table, p[i].0.text))
    && (forall i :: 0 <= i < |table| ==> SameIfAny(Get(p, table[i].0), table[i].1))
  }

  /** A map and the table rebuilt from its fields encode alike. */
  lemma FieldsSame(p: seq<(Value, Value)>, table: seq<Field>)
    requires WellFormed(Map(p)) && NamesDistinct(table) && Fills(p, table)
    ensures Same(Map(p), Map(Fields(table)))
  {
    hide Encode;
    hide Same;
    hide Get;
    hide Fields;
    hide WellFormed;
    var q := Fields(table);
    MapParts(p);
    FieldsDistinct(table);
    FieldsOnly(table);
    forall i | 0 <= i < |p|
      ensures Has(q, p[i].0.text) && Same(p[i].1, Get(q, p[i].0.text).value)
    {
      var k :| 0 <= k < |table| && table[k].0 == p[i].0.text;
      FieldsGet(table, k);
      GetAt(p, i, p[i].0.text);
    }
    forall j | 0 <= j < |q|
      ensures Has(p, q[j].0.text)
    {
      var k :| 0 <= k < |table| && table[k].0 == q[j].0.text;
      FieldsGet(table, k);
      GetAt(q, j, q[j].0.text);
    }
    KeyedSame(p, q);
  }

  /** A table of encodable fields makes an encodable map. */
  lemma FieldsEncode(table: seq<Field>)
    requires NamesDistinct(table) && |Fields(table)| <= MAX_U64
    requires forall i :: 0 <= i < |table| && table[i].1.Some? ==> WellFormed(Text(table[i].0)) && WellFormed(table[i].1.value)
    ensures WellFormed(Map(Fields(table)))
  {
    hide Encode;
    hide Fields;
    hide Get;
    hide Canon;
    hide Fits;
    var pairs := Fields(table);
    FieldsDistinct(table);
    FieldsOnly(table);
    forall j | 0 <= j < |pairs|
      ensures WellFormed(pairs[j].0) && WellFormed(pairs[j].1)
    {
      var i :| 0 <= i < |table| && table[i].0 == pairs[j].0.text;
      FieldsGet(table, i);
      GetAt(pairs, j, table[i].0);
    }
    forall i, j | 0 <= i < j < |pairs|
      ensures TryEncode(pairs[i].0) != TryEncode(pairs[j].0)
    {
      DecodeText(pairs[i].0);
      DecodeText(pairs[j].0);
    }
    MapEncodesExactly(pairs);
  }

  lemma DecodeText(v: Value)
    requires v.Text? && WellFormed(v)
    ensures Decode(Encode(v).value) == Ok(v)
  {
    hide Encode;
    hide Decode;
    DecodeEncode(v);
  }

  // ---------------------------------------------------------------------------
  // Arrays and leaves
  // ---------------------------------------------------------------------------

  lemma ArraySame(x: seq<Value>, y: seq<Value>)
    requires WellFormed(Array(x)) && |x| == |y| && forall i :: 0 <= i < |x| ==> Same(x[i], y[i])
    ensures Same(Array(x), Array(y))
  {
    hide TypeAndArgument;
    ItemsFit(y);
    EncodeAllCongruent(x, y);
  }

  lemma {:induction false} ItemsFit(y: seq<Value>)
    requires forall i :: 0 <= i < |y| ==> Fits(y[i])
    ensures FitsAll(y)
  {
    if y != [] {
      ItemsFit(y[1..]);
    }
  }

  /** The value of a field of an encodable map is encodable. */
  lemma FieldWellFormed(p: seq<(Value, Value)>, key: string)
    requires WellFormed(Map(p)) && Has(p, key)
    ensures WellFormed(Get(p, key).value) && Same(Get(p, key).value, Get(p, key).value)
  {
    hide Encode;
    MapParts(p);
    var i := Find(p, key);
  }

  // ---------------------------------------------------------------------------
  // What values that encode alike have in common
  // ---------------------------------------------------------------------------

  lemma SameReordered(v: Value, w: Value)
    requires Same(v, w)
    ensures Reordered(v, w)
  {
    hide Encode;
    SameEncodingExactly(v, w);
  }

  lemma ReorderedSame(v: Value, w: Value)
    requires WellFormed(v) && Fits(w) && Reordered(v, w)
    ensures Same(v, w)
  {
    hide Encode;
    ReorderedEncodes(v, w);
  }

  /** A value that encodes like a leaf is that leaf; collections keep their kind. */
  lemma SameKind(v: Value, w: Value)
    requires Same(v, w)
    ensures v.Array? <==> w.Array?
    ensures v.Map? <==> w.Map?
    ensures !w.Array? && !w.Map? ==> v == w
  {
    hide Same;
    SameReordered(v, w);
  }

  /** Arrays that encode alike do so element by element. */
  lemma SameElements(x: seq<Value>, y: seq<Value>)
    requires Same(Array(x), Array(y))
    ensures |x| == |y| && forall i :: 0 <= i < |x| ==> Same(x[i], y[i])
  {
    hide Same;
    hide Encode;
    SameReordered(Array(x), Array(y));
    forall i | 0 <= i < |x|
      ensures Same(x[i], y[i])
    {
      ElementsFit(x, y, i);
      ReorderedSame(x[i], y[i]);
    }
  }

  lemma ElementsFit(x: seq<Value>, y: seq<Value>, i: nat)
    requires Same(Array(x), Array(y)) && i < |x| && |x| == |y|
    ensures WellFormed(x[i]) && Fits(y[i])
  {
    hide Canon;
    FitsAt(x, i);
    FitsAt(y, i);
  }

  /** Maps that encode alike match pair for pair. */
  lemma SamePairs(p: seq<(Value, Value)>, q: seq<(Value, Value)>) returns (there: seq<nat>, back: seq<nat>)
    requires Same(Map(p), Map(q)) && TextKeyed(q)
    ensures |p| == |q| && Bijection(there, back, |p|)
    ensures forall i :: 0 <= i < |p| ==> p[i].0 == q[there[i]].0 && Same(p[i].1, q[there[i]].1)
  {
    hide Same;
    hide Encode;
    SameReordered(Map(p), Map(q));
    there, back :| MapReordered(Map(p), Map(q), there, back);
    forall i | 0 <= i < |p|
      ensures p[i].0 == q[there[i]].0 && Same(p[i].1, q[there[i]].1)
    {
      PairsMatch(p, q, i, there[i]);
    }
  }

  lemma PairsMatch(p: seq<(Value, Value)>, q: seq<(Value, Value)>, i: nat, j: nat)
    requires Same(Map(p), Map(q)) && i < |p| && j < |q| && q[j].0.Text?
    requires Reordered(p[i].0, q[j].0) && Reordered(p[i].1, q[j].1)
    ensures p[i].0 == q[j].0 && Same(p[i].1, q[j].1)
  {
    hide Encode;
    MapParts(p);
    FitsPairAt(q, j);
    ReorderedSame(p[i].1, q[j].1);
  }

  /** Maps that encode alike have the same text keys, each with values that encode alike. */
  lemma SameGet(p: seq<(Value, Value)>, q: seq<(Value, Value)>, key: string)
    requires Same(Map(p), Map(q)) && TextKeyed(q)
    ensures SameIfAny(Get(p, key), Get(q, key))
  {
    hide Same;
    hide Encode;
    hide Get;
    var there, back := SamePairs(p, q);
    SameDistinct(p, q);
    if Has(q, key) {
      var j := Find(q, key);
      GetAt(p, back[j], key);
    } else if Has(p, key) {
      var i := Find(p, key);
      GetAt(q, there[i], key);
    }
  }

  lemma SameDistinct(p: seq<(Value, Value)>, q: seq<(Value, Value)>)
    requires Same(Map(p), Map(q))
    ensures KeysDistinct(p) && KeysDistinct(q)
  {
    hide Encode;
    MapParts(p);
    MapParts(q);
  }

  lemma SameTextKeyed(p: seq<(Value, Value)>, q: seq<(Value, Value)>)
    requires Same(Map(p), Map(q)) && TextKeyed(q)
    ensures TextKeyed(p)
  {
    hide Same;
    var there, back := SamePairs(p, q);
  }

  /** A map that encodes like a table is filled in exactly by it. */
  lemma FieldsFilled(p: seq<(Value, Value)>, table: seq<Field>)
    requires Same(Map(p), Map(Fields(table))) && NamesDistinct(table)
    ensures Fills(p, table)
  {
    hide Same;
    hide Fields;
    hide Get;
    hide Named;
    var q := Fields(table);
    FieldsOnly(table);
    var there, back := SamePairs(p, q);
    forall i | 0 <= i < |table|
      ensures SameIfAny(Get(p, table[i].0), table[i].1)
    {
      SameGet(p, q, table[i].0);
      FieldsGet(table, i);
    }
  }
}
