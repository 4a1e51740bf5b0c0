/** The order a stable sort by encoded key visits a map's pairs in. */
module KeyOrder {
  import opened Common
  import opened LexOrder

  /** Insert index `i` after every index whose key is not greater. */
  function InsertIndex(keys: seq<Bytes>, order: seq<nat>, i: nat): (r: seq<nat>)
    requires i < |keys| && forall j :: 0 <= j < |order| ==> order[j] < |keys|
    ensures forall j :: 0 <= j < |r| ==> r[j] < |keys|
    ensures |r| == |order| + 1
    decreases |order|
  {
    var n := |order|;
    if n == 0 || !Less(keys[i], keys[order[n - 1]]) then order + [i]
    else
      InsertIndex(keys, order[..n - 1], i) + [order[n - 1]]
  }

  /** The indices of the first `n` keys in ascending key order, equal keys in place. */
  function SortedPrefix(keys: seq<Bytes>, n: nat): (r: seq<nat>)
    requires n <= |keys|
    ensures |r| == n
    ensures forall j :: 0 <= j < n ==> r[j] < |keys|
  {
    if n == 0 then [] else InsertIndex(keys, SortedPrefix(keys, n - 1), n - 1)
  }

  function SortedOrder(keys: seq<Bytes>): (r: seq<nat>)
    ensures |r| == |keys|
    ensures forall j :: 0 <= j < |r| ==> r[j] < |keys|
  {
    SortedPrefix(keys, |keys|)
  }

  ghost predicate Sorted(keys: seq<Bytes>, order: seq<nat>) {
    && (forall j :: 0 <= j < |order| ==> order[j] < |keys|)
    && forall i, j :: 0 <= i < j < |order| ==> !Less(keys[order[j]], keys[order[i]])
  }

  ghost predicate IsPermutation(order: seq<nat>, n: nat) {
    && |order| == n
    && (forall j :: 0 <= j < n ==> order[j] < n)
    && forall i, j :: 0 <= i < j < n ==> order[i] != order[j]
  }

  predicate StrictlyIncreasing(keys: seq<Bytes>) {
    forall i :: 0 < i < |keys| ==> Less(keys[i - 1], keys[i])
  }

  function Apply<T>(order: seq<nat>, s: seq<T>): (r: seq<T>)
    requires forall j :: 0 <= j < |order| ==> order[j] < |s|
    ensures |r| == |order|
    ensures forall j :: 0 <= j < |r| ==> r[j] == s[order[j]]
  {
    seq(|order|, j requires 0 <= j < |order| => s[order[j]])
  }

  /** Whether sorting leaves two byte-identical keys side by side. */
  predicate HasDuplicate(keys: seq<Bytes>) {
    var sorted := Apply(SortedOrder(keys), keys);
    exists i :: 0 < i < |sorted| && sorted[i - 1] == sorted[i]
  }

  // ---------------------------------------------------------------------------
  // SortedOrder sorts
  // ---------------------------------------------------------------------------

  lemma NotGreaterTransitive(a: Bytes, b: Bytes, c: Bytes)
    requires !Less(b, a) && !Less(c, b)
    ensures !Less(c, a)
  {
    Total(a, b);
    Total(b, c);
    if Less(c, a) {
      if a != b {
        Transitive(c, a, b);
      }
    }
  }

  ghost predicate Distinct<T(!new)>(s: seq<T>) {
    forall i, j :: 0 <= i < j < |s| ==> s[i] != s[j]
  }

  lemma {:induction false} InsertMembers(keys: seq<Bytes>, order: seq<nat>, i: nat, x: nat)
    requires i < |keys| && forall j :: 0 <= j < |order| ==> order[j] < |keys|
    ensures x in InsertIndex(keys, order, i) <==> x in order || x == i
    decreases |order|
  {
    var n := |order|;
    if n > 0 {
      InsertMembers(keys, order[..n - 1], i, x);
      assert order == order[..n - 1] + [order[n - 1]];
    }
  }

  lemma {:induction false} InsertDistinct(keys: seq<Bytes>, order: seq<nat>, i: nat)
    requires i < |keys| && forall j :: 0 <= j < |order| ==> order[j] < |keys|
    requires Distinct(order) && i !in order
    ensures Distinct(InsertIndex(keys, order, i))
    decreases |order|
  {
    var n := |order|;
    if n > 0 && Less(keys[i], keys[order[n - 1]]) {
      InsertDistinct(keys, order[..n - 1], i);
      InsertMembers(keys, order[..n - 1], i, order[n - 1]);
    }
  }

  lemma {:induction false} InsertSorted(keys: seq<Bytes>, order: seq<nat>, i: nat)
    requires i < |keys| && Sorted(keys, order)
    ensures Sorted(keys, InsertIndex(keys, order, i))
    decreases |order|
  {
    var n := |order|;
    if n == 0 {
    } else if !Less(keys[i], keys[order[n - 1]]) {
      forall j | 0 <= j < n
        ensures !Less(keys[i], keys[order[j]])
      {
        if j < n - 1 {
          NotGreaterTransitive(keys[order[j]], keys[order[n - 1]], keys[i]);
        }
      }
    } else {
      InsertSorted(keys, order[..n - 1], i);
      var front := InsertIndex(keys, order[..n - 1], i);
      Asymmetric(keys[i], keys[order[n - 1]]);
      forall j | 0 <= j < |front|
        ensures !Less(keys[order[n - 1]], keys[front[j]])
      {
        InsertMembers(keys, order[..n - 1], i, front[j]);
        if front[j] != i {
          var k :| 0 <= k < n - 1 && order[k] == front[j];
        }
      }
    }
  }

  lemma {:induction false} PrefixSorted(keys: seq<Bytes>, n: nat)
    requires n <= |keys|
    ensures Sorted(keys, SortedPrefix(keys, n))
  {
    if n > 0 {
      PrefixSorted(keys, n - 1);
      InsertSorted(keys, SortedPrefix(keys, n - 1), n - 1);
    }
  }

  lemma EmptyDistinct<T(!new)>()
    ensures Distinct<T>([])
  {
  }

  lemma {:induction false} PrefixMembers(keys: seq<Bytes>, n: nat)
    requires n <= |keys|
    ensures Distinct(SortedPrefix(keys, n))
    ensures forall x: nat :: x in SortedPrefix(keys, n) <==> x < n
  {
    hide Distinct;
    hide InsertIndex;
    hide Less;
    if n == 0 {
      EmptyDistinct<nat>();
    } else {
      PrefixMembers(keys, n - 1);
      InsertDistinct(keys, SortedPrefix(keys, n - 1), n - 1);
      forall x: nat
        ensures x in SortedPrefix(keys, n) <==> x < n
      {
        InsertMembers(keys, SortedPrefix(keys, n - 1), n - 1, x);
      }
    }
  }

  lemma OrderIsPermutation(keys: seq<Bytes>)
    ensures IsPermutation(SortedOrder(keys), |keys|)
    ensures forall x: nat :: x < |keys| ==> x in SortedOrder(keys)
  {
    PrefixMembers(keys, |keys|);
  }

  /** Without duplicates the sorted keys are strictly increasing. */
  lemma SortedStrictly(keys: seq<Bytes>)
    requires !HasDuplicate(keys)
    ensures StrictlyIncreasing(Apply(SortedOrder(keys), keys))
  {
    var order := SortedOrder(keys);
    var sorted := Apply(order, keys);
    PrefixSorted(keys, |keys|);
    forall i | 0 < i < |sorted|
      ensures Less(sorted[i - 1], sorted[i])
    {
      Total(sorted[i - 1], sorted[i]);
    }
  }

  lemma {:induction false} IncreasingPairwise(keys: seq<Bytes>, i: nat, j: nat)
    requires StrictlyIncreasing(keys) && i < j < |keys|
    ensures Less(keys[i], keys[j])
    decreases j - i
  {
    if i + 1 < j {
      IncreasingPairwise(keys, i, j - 1);
      Transitive(keys[i], keys[j - 1], keys[j]);
    }
  }

  lemma NoDuplicateDistinct(keys: seq<Bytes>, i: nat, j: nat)
    requires !HasDuplicate(keys) && i < j < |keys|
    ensures keys[i] != keys[j]
  {
    var order := SortedOrder(keys);
    OrderIsPermutation(keys);
    SortedStrictly(keys);
    assert i in order && j in order;
    var a :| 0 <= a < |order| && order[a] == i;
    var b :| 0 <= b < |order| && order[b] == j;
    IncreasingPairwise(Apply(order, keys), if a < b then a else b, if a < b then b else a);
    Irreflexive(keys[i]);
  }

  lemma DistinctNoDuplicate(keys: seq<Bytes>)
    requires Distinct(keys)
    ensures !HasDuplicate(keys)
  {
    var order := SortedOrder(keys);
    var sorted := Apply(order, keys);
    OrderIsPermutation(keys);
    forall i | 0 < i < |sorted|
      ensures sorted[i - 1] != sorted[i]
    {
      var x, y := order[i - 1], order[i];
      assert x != y && keys[x] != keys[y];
    }
  }

  /** Adjacent comparison after sorting finds every duplicate, and only duplicates. */
  lemma DuplicateExactly(keys: seq<Bytes>)
    ensures HasDuplicate(keys) <==> !Distinct(keys)
  {
    if Distinct(keys) {
      DistinctNoDuplicate(keys);
    } else if !HasDuplicate(keys) {
      forall i: nat, j: nat | i < j < |keys|
        ensures keys[i] != keys[j]
      {
        NoDuplicateDistinct(keys, i, j);
      }
    }
  }

  // ---------------------------------------------------------------------------
  // Sorting sorted input, and sorting two arrangements of one set of keys
  // ---------------------------------------------------------------------------

  function Identity(n: nat): (r: seq<nat>)
    ensures |r| == n && forall j :: 0 <= j < n ==> r[j] == j
  {
    seq(n, j => j)
  }

  lemma {:induction false} SortIncreasing(keys: seq<Bytes>, n: nat)
    requires StrictlyIncreasing(keys) && n <= |keys|
    ensures SortedPrefix(keys, n) == Identity(n)
  {
    if n > 1 {
      SortIncreasing(keys, n - 1);
      Asymmetric(keys[n - 2], keys[n - 1]);
    }
  }

  lemma IncreasingNoDuplicate(keys: seq<Bytes>)
    requires StrictlyIncreasing(keys)
    ensures SortedOrder(keys) == Identity(|keys|)
    ensures !HasDuplicate(keys)
  {
    SortIncreasing(keys, |keys|);
    assert Apply(SortedOrder(keys), keys) == keys;
    forall i | 0 < i < |keys|
      ensures keys[i - 1] != keys[i]
    {
      Irreflexive(keys[i]);
    }
  }

  lemma FirstMember<T>(s: seq<T>)
    requires s != []
    ensures s[0] in s
  {
  }

  /** A strictly increasing sequence is determined by the set of its elements. */
  lemma {:induction false} IncreasingUnique(a: seq<Bytes>, b: seq<Bytes>)
    requires StrictlyIncreasing(a) && StrictlyIncreasing(b)
    requires forall x :: x in a <==> x in b
    ensures a == b
    decreases |a|
  {
    if a == [] || b == [] {
      if a != [] {
        FirstMember(a);
      }
      if b != [] {
        FirstMember(b);
      }
    } else {
      MinimumFirst(a, b);
      MinimumFirst(b, a);
      Total(a[0], b[0]);
      forall x
        ensures x in a[1..] <==> x in b[1..]
      {
        TailMembers(a, x);
        TailMembers(b, x);
      }
      IncreasingUnique(a[1..], b[1..]);
      assert a == [a[0]] + a[1..] && b == [b[0]] + b[1..];
    }
  }

  lemma MinimumFirst(a: seq<Bytes>, b: seq<Bytes>)
    requires a != [] && b != [] && StrictlyIncreasing(a) && b[0] in a
    ensures !Less(b[0], a[0])
  {
    var i :| 0 <= i < |a| && a[i] == b[0];
    if i == 0 {
      Irreflexive(a[0]);
    } else {
      IncreasingPairwise(a, 0, i);
      Asymmetric(a[0], b[0]);
    }
  }

  lemma TailMembers(a: seq<Bytes>, x: Bytes)
    requires a != [] && StrictlyIncreasing(a)
    ensures x in a[1..] <==> x in a && x != a[0]
  {
    if x in a[1..] {
      var i :| 0 < i < |a| && a[i] == x;
      IncreasingPairwise(a, 0, i);
      Irreflexive(x);
    }
    assert a == [a[0]] + a[1..];
  }
}
