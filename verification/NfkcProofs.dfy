/**
  Canonical reordering is a normal form for canonical equivalence, composition loses nothing
  that decomposition and reordering cannot restore, and so NFKC is idempotent.
*/
module NfkcProofs {
  import opened Common
  import opened Nfkc

  // ---------------------------------------------------------------------------
  // Reordering as a left fold of insertions
  // ---------------------------------------------------------------------------

  function InsertAll(t: Tables, s: seq<Scalar>, xs: seq<Scalar>): seq<Scalar>
    decreases |xs|
  {
    if xs == [] then s else InsertAll(t, Insert(t, s, xs[0]), xs[1..])
  }

  lemma ReorderSnoc(t: Tables, xs: seq<Scalar>, c: Scalar)
    ensures Reorder(t, xs + [c]) == Insert(t, Reorder(t, xs), c)
  {
    assert (xs + [c])[..|xs|] == xs;
  }

  lemma {:induction false} ReorderAppend(t: Tables, xs: seq<Scalar>, ys: seq<Scalar>)
    ensures Reorder(t, xs + ys) == InsertAll(t, Reorder(t, xs), ys)
    decreases |ys|
  {
    if ys == [] {
      assert xs + ys == xs;
    } else {
      ReorderSnoc(t, xs, ys[0]);
      ReorderAppend(t, xs + [ys[0]], ys[1..]);
      assert (xs + [ys[0]]) + ys[1..] == xs + ys;
    }
  }

  /** Marks of different classes may be inserted in either order. */
  lemma {:induction false} InsertCommute(t: Tables, s: seq<Scalar>, a: Scalar, b: Scalar)
    requires 0 < Ccc(t, a) < Ccc(t, b)
    ensures Insert(t, Insert(t, s, a), b) == Insert(t, Insert(t, s, b), a)
    decreases |s|
  {
    var n := |s|;
    assert (s + [b])[..n] == s;
    if n > 0 && Ccc(t, a) < Ccc(t, s[n - 1]) {
      var front := s[..n - 1];
      var l := s[n - 1];
      assert Insert(t, s, a) == Insert(t, front, a) + [l];
      assert (Insert(t, front, a) + [l])[..n] == Insert(t, front, a);
      if Ccc(t, b) < Ccc(t, l) {
        InsertCommute(t, front, a, b);
        assert (Insert(t, front, b) + [l])[..n] == Insert(t, front, b);
      }
    }
  }

  /** One swap of neighbouring marks of distinct nonzero classes. */
  ghost predicate SwapStep(t: Tables, x: seq<Scalar>, y: seq<Scalar>) {
    exists p: seq<Scalar>, a: Scalar, b: Scalar, q: seq<Scalar> :: IsSwap(t, x, y, p, a, b, q)
  }

  ghost predicate IsSwap(t: Tables, x: seq<Scalar>, y: seq<Scalar>, p: seq<Scalar>, a: Scalar, b: Scalar, q: seq<Scalar>) {
    && x == p + [a, b] + q && y == p + [b, a] + q
    && Ccc(t, a) != 0 && Ccc(t, b) != 0 && Ccc(t, a) != Ccc(t, b)
  }

  /** Linked by exactly `n` swaps. */
  ghost predicate LinkedIn(t: Tables, x: seq<Scalar>, y: seq<Scalar>, n: nat)
    decreases n
  {
    if n == 0 then x == y else exists z :: SwapStep(t, x, z) && LinkedIn(t, z, y, n - 1)
  }

  /** Canonical equivalence of fully decomposed text: linked by any number of swaps. */
  ghost predicate Linked(t: Tables, x: seq<Scalar>, y: seq<Scalar>) {
    exists n: nat :: LinkedIn(t, x, y, n)
  }

  lemma {:induction false} LinkedInTransitive(t: Tables, x: seq<Scalar>, y: seq<Scalar>, z: seq<Scalar>, m: nat, n: nat)
    requires LinkedIn(t, x, y, m) && LinkedIn(t, y, z, n)
    ensures LinkedIn(t, x, z, m + n)
    decreases m
  {
    if m > 0 {
      var w :| SwapStep(t, x, w) && LinkedIn(t, w, y, m - 1);
      LinkedInTransitive(t, w, y, z, m - 1, n);
    }
  }

  lemma SwapSymmetric(t: Tables, x: seq<Scalar>, y: seq<Scalar>)
    requires SwapStep(t, x, y)
    ensures SwapStep(t, y, x)
  {
    var p: seq<Scalar>, a: Scalar, b: Scalar, q: seq<Scalar> :| IsSwap(t, x, y, p, a, b, q);
    assert IsSwap(t, y, x, p, b, a, q);
  }

  lemma LinkedOnce(t: Tables, x: seq<Scalar>, y: seq<Scalar>)
    requires SwapStep(t, x, y)
    ensures LinkedIn(t, x, y, 1)
  {
    assert LinkedIn(t, y, y, 0);
  }

  lemma {:induction false} LinkedInSymmetric(t: Tables, x: seq<Scalar>, y: seq<Scalar>, n: nat)
    requires LinkedIn(t, x, y, n)
    ensures LinkedIn(t, y, x, n)
    decreases n
  {
    if n > 0 {
      var w :| SwapStep(t, x, w) && LinkedIn(t, w, y, n - 1);
      LinkedInSymmetric(t, w, y, n - 1);
      SwapSymmetric(t, x, w);
      LinkedOnce(t, w, x);
      LinkedInTransitive(t, y, w, x, n - 1, 1);
    }
  }

  lemma SwapAppend(t: Tables, x: seq<Scalar>, y: seq<Scalar>, c: Scalar)
    requires SwapStep(t, x, y)
    ensures SwapStep(t, x + [c], y + [c])
  {
    var p: seq<Scalar>, a: Scalar, b: Scalar, q: seq<Scalar> :| IsSwap(t, x, y, p, a, b, q);
    AppendAssociative(p + [a, b], q, [c]);
    AppendAssociative(p + [b, a], q, [c]);
    assert IsSwap(t, x + [c], y + [c], p, a, b, q + [c]);
  }

  lemma {:induction false} LinkedInAppend(t: Tables, x: seq<Scalar>, y: seq<Scalar>, c: Scalar, n: nat)
    requires LinkedIn(t, x, y, n)
    ensures LinkedIn(t, x + [c], y + [c], n)
    decreases n
  {
    if n > 0 {
      var w :| SwapStep(t, x, w) && LinkedIn(t, w, y, n - 1);
      SwapAppend(t, x, w, c);
      LinkedInAppend(t, w, y, c, n - 1);
    }
  }

  lemma SwapLast(t: Tables, front: seq<Scalar>, l: Scalar, c: Scalar)
    requires 0 < Ccc(t, c) < Ccc(t, l)
    ensures LinkedIn(t, (front + [l]) + [c], (front + [c]) + [l], 1)
  {
    hide LinkedIn;
    assert (front + [l]) + [c] == front + [l, c] + [];
    assert (front + [c]) + [l] == front + [c, l] + [];
    assert IsSwap(t, (front + [l]) + [c], (front + [c]) + [l], front, l, c, []);
    LinkedOnce(t, (front + [l]) + [c], (front + [c]) + [l]);
  }

  lemma LinkedNone(t: Tables, x: seq<Scalar>)
    ensures LinkedIn(t, x, x, 0)
  {
  }

  lemma {:induction false} InsertLinked(t: Tables, s: seq<Scalar>, c: Scalar) returns (n: nat)
    ensures LinkedIn(t, s + [c], Insert(t, s, c), n)
    decreases |s|
  {
    hide LinkedIn;
    hide Ccc;
    var k := |s|;
    if Ccc(t, c) == 0 || k == 0 || Ccc(t, s[k - 1]) <= Ccc(t, c) {
      n := 0;
      LinkedNone(t, s + [c]);
    } else {
      var front, l := s[..k - 1], s[k - 1];
      assert s == front + [l];
      SwapLast(t, front, l, c);
      var m := InsertLinked(t, front, c);
      LinkedInAppend(t, front + [c], Insert(t, front, c), l, m);
      LinkedInTransitive(t, s + [c], (front + [c]) + [l], Insert(t, front, c) + [l], 1, m);
      n := 1 + m;
    }
  }

  lemma {:induction false} ReorderLinked(t: Tables, x: seq<Scalar>) returns (n: nat)
    ensures LinkedIn(t, x, Reorder(t, x), n)
  {
    if x == [] {
      n := 0;
    } else {
      var front, c := x[..|x| - 1], x[|x| - 1];
      assert x == front + [c];
      var m := ReorderLinked(t, front);
      LinkedInAppend(t, front, Reorder(t, front), c, m);
      var k := InsertLinked(t, Reorder(t, front), c);
      LinkedInTransitive(t, x, Reorder(t, front) + [c], Reorder(t, x), m, k);
      n := m + k;
    }
  }

  lemma SwapReorder(t: Tables, x: seq<Scalar>, y: seq<Scalar>)
    requires SwapStep(t, x, y)
    ensures Reorder(t, x) == Reorder(t, y)
  {
    var p: seq<Scalar>, a: Scalar, b: Scalar, q: seq<Scalar> :| IsSwap(t, x, y, p, a, b, q);
    ReorderAppend(t, p + [a, b], q);
    ReorderAppend(t, p + [b, a], q);
    ReorderTwo(t, p, a, b);
    ReorderTwo(t, p, b, a);
    if Ccc(t, a) < Ccc(t, b) {
      InsertCommute(t, Reorder(t, p), a, b);
    } else {
      InsertCommute(t, Reorder(t, p), b, a);
    }
  }

  lemma ReorderTwo(t: Tables, p: seq<Scalar>, a: Scalar, b: Scalar)
    ensures Reorder(t, p + [a, b]) == Insert(t, Insert(t, Reorder(t, p), a), b)
  {
    assert p + [a, b] == (p + [a]) + [b];
    ReorderSnoc(t, p + [a], b);
    ReorderSnoc(t, p, a);
  }

  lemma {:induction false} LinkedReorder(t: Tables, x: seq<Scalar>, y: seq<Scalar>, n: nat)
    requires LinkedIn(t, x, y, n)
    ensures Reorder(t, x) == Reorder(t, y)
    decreases n
  {
    if n > 0 {
      var w :| SwapStep(t, x, w) && LinkedIn(t, w, y, n - 1);
      SwapReorder(t, x, w);
      LinkedReorder(t, w, y, n - 1);
    }
  }

  /**
    Normal form: two sequences reorder to one result exactly when swaps of neighbouring marks
    of distinct nonzero classes turn one into the other.
  */
  lemma ReorderNormalForm(t: Tables, x: seq<Scalar>, y: seq<Scalar>)
    ensures Linked(t, x, y) <==> Reorder(t, x) == Reorder(t, y)
  {
    if Linked(t, x, y) {
      var n: nat :| LinkedIn(t, x, y, n);
      LinkedReorder(t, x, y, n);
    }
    if Reorder(t, x) == Reorder(t, y) {
      var m := ReorderLinked(t, x);
      var k := ReorderLinked(t, y);
      LinkedInSymmetric(t, y, Reorder(t, y), k);
      LinkedInTransitive(t, x, Reorder(t, x), y, m, k);
    }
  }

  // ---------------------------------------------------------------------------
  // What reordering keeps
  // ---------------------------------------------------------------------------

  /** No mark follows a mark of a greater class. */
  predicate Ordered(t: Tables, s: seq<Scalar>) {
    forall i :: 0 < i < |s| ==> Ccc(t, s[i]) == 0 || Ccc(t, s[i - 1]) <= Ccc(t, s[i])
  }

  lemma {:induction false} InsertOrdered(t: Tables, s: seq<Scalar>, c: Scalar)
    requires Ordered(t, s)
    ensures Ordered(t, Insert(t, s, c))
    ensures var r := Insert(t, s, c); r[|s|] == c || (|s| > 0 && r[|s|] == s[|s| - 1] && Ccc(t, c) < Ccc(t, r[|s|]))
    decreases |s|
  {
    var k := |s|;
    if !(Ccc(t, c) == 0 || k == 0 || Ccc(t, s[k - 1]) <= Ccc(t, c)) {
      InsertOrdered(t, s[..k - 1], c);
    }
  }

  lemma {:induction false} ReorderOrdered(t: Tables, x: seq<Scalar>)
    ensures Ordered(t, Reorder(t, x))
  {
    if x != [] {
      ReorderOrdered(t, x[..|x| - 1]);
      InsertOrdered(t, Reorder(t, x[..|x| - 1]), x[|x| - 1]);
    }
  }

  lemma {:induction false} OrderedFixed(t: Tables, x: seq<Scalar>)
    requires Ordered(t, x)
    ensures Reorder(t, x) == x
  {
    if x != [] {
      OrderedFixed(t, x[..|x| - 1]);
    }
  }

  /** The starters and the marks of one class, in order. */
  function KeepClass(t: Tables, s: seq<Scalar>, k: nat): seq<Scalar> {
    if s == [] then []
    else
      var l := s[|s| - 1];
      KeepClass(t, s[..|s| - 1], k) + if Ccc(t, l) == 0 || Ccc(t, l) == k then [l] else []
  }

  lemma {:induction false} InsertKeepsClass(t: Tables, s: seq<Scalar>, c: Scalar, k: nat)
    ensures KeepClass(t, Insert(t, s, c), k) == KeepClass(t, s + [c], k)
    decreases |s|
  {
    var n := |s|;
    assert (s + [c])[..n] == s;
    if !(Ccc(t, c) == 0 || n == 0 || Ccc(t, s[n - 1]) <= Ccc(t, c)) {
      var front, l := s[..n - 1], s[n - 1];
      InsertKeepsClass(t, front, c, k);
      assert (Insert(t, front, c) + [l])[..n] == Insert(t, front, c);
      assert (front + [c])[..n - 1] == front;
    }
  }

  lemma {:induction false} ReorderKeepsClass(t: Tables, x: seq<Scalar>, k: nat)
    ensures KeepClass(t, Reorder(t, x), k) == KeepClass(t, x, k)
  {
    if x != [] {
      var front, c := x[..|x| - 1], x[|x| - 1];
      ReorderKeepsClass(t, front, k);
      InsertKeepsClass(t, Reorder(t, front), c, k);
      assert (Reorder(t, front) + [c])[..|x| - 1] == Reorder(t, front);
    }
  }

  lemma {:induction false} InsertKeepsStarters(t: Tables, s: seq<Scalar>, c: Scalar, i: nat)
    requires i <= |s|
    ensures Ccc(t, (s + [c])[i]) == 0 ==> Insert(t, s, c)[i] == (s + [c])[i]
    decreases |s|
  {
    var n := |s|;
    if !(Ccc(t, c) == 0 || n == 0 || Ccc(t, s[n - 1]) <= Ccc(t, c)) && i < n {
      InsertKeepsStarters(t, s[..n - 1], c, i);
    }
  }

  lemma {:induction false} InsertMultiset(t: Tables, s: seq<Scalar>, c: Scalar)
    ensures multiset(Insert(t, s, c)) == multiset(s) + multiset{c}
    decreases |s|
  {
    var n := |s|;
    if !(Ccc(t, c) == 0 || n == 0 || Ccc(t, s[n - 1]) <= Ccc(t, c)) {
      InsertMultiset(t, s[..n - 1], c);
      assert s == s[..n - 1] + [s[n - 1]];
    }
  }

  lemma {:induction false} ReorderMultiset(t: Tables, x: seq<Scalar>)
    ensures multiset(Reorder(t, x)) == multiset(x)
  {
    hide Insert;
    if x != [] {
      var front, c := x[..|x| - 1], x[|x| - 1];
      assert x == front + [c];
      ReorderMultiset(t, front);
      InsertMultiset(t, Reorder(t, front), c);
    }
  }

  lemma {:induction false} ReorderKeepsStarters(t: Tables, x: seq<Scalar>, i: nat)
    requires i < |x| && Ccc(t, x[i]) == 0
    ensures Reorder(t, x)[i] == x[i]
  {
    hide Insert;
    var n := |x| - 1;
    InsertKeepsStarters(t, Reorder(t, x[..n]), x[n], i);
    if i < n {
      ReorderKeepsStarters(t, x[..n], i);
    }
  }

  /**
    The reordering is an ordered permutation, keeps every starter at its index, and keeps the
    marks of each class in their order relative to each other and to the starters.
  */
  lemma ReorderProfile(t: Tables, x: seq<Scalar>)
    ensures Ordered(t, Reorder(t, x))
    ensures multiset(Reorder(t, x)) == multiset(x)
    ensures forall i :: 0 <= i < |x| && Ccc(t, x[i]) == 0 ==> Reorder(t, x)[i] == x[i]
    ensures forall k :: KeepClass(t, Reorder(t, x), k) == KeepClass(t, x, k)
  {
    hide Ordered;
    hide KeepClass;
    ReorderOrdered(t, x);
    ReorderMultiset(t, x);
    forall k: nat
      ensures KeepClass(t, Reorder(t, x), k) == KeepClass(t, x, k)
    {
      ReorderKeepsClass(t, x, k);
    }
    forall i | 0 <= i < |x| && Ccc(t, x[i]) == 0
      ensures Reorder(t, x)[i] == x[i]
    {
      ReorderKeepsStarters(t, x, i);
    }
  }
}
