/** Composition keeps the decomposition, so normalizing a normalized string changes nothing. */
module NfkcIdempotence {
  import opened Common
  import opened Nfkc
  import opened NfkcProofs

  // ---------------------------------------------------------------------------
  // What is assumed of the tables
  // ---------------------------------------------------------------------------

  predicate SelfDecomposed(t: Tables, cp: Scalar) {
    D(t, cp) == [cp]
  }

  predicate AllSelfDecomposed(t: Tables, s: seq<Scalar>) {
    forall i :: 0 <= i < |s| ==> SelfDecomposed(t, s[i])
  }

  /** The decomposition table is flat: recursion was resolved when it was generated. */
  ghost predicate Flat(t: Tables) {
    forall cp :: cp in t.decomposition ==> AllSelfDecomposed(t, t.decomposition[cp])
  }

  /** A primary composite decomposes to its parts' decompositions. */
  ghost predicate CompositesSplit(t: Tables) {
    forall p :: p in t.composition ==> D(t, t.composition[p]) == D(t, p.0) + D(t, p.1)
  }

  /** The conjoining jamo decompose to themselves. */
  ghost predicate JamoPlain(t: Tables) {
    forall cp: Scalar :: IsL(cp) || IsV(cp) || IsT(cp) ==> SelfDecomposed(t, cp)
  }

  /** The tables produce assigned code points only, and Hangul and its jamo are assigned. */
  ghost predicate OutputsAssigned(t: Tables) {
    && (forall cp, i :: cp in t.decomposition && 0 <= i < |t.decomposition[cp]| ==> IsAssigned(t, t.decomposition[cp][i]))
    && (forall p :: p in t.composition ==> IsAssigned(t, t.composition[p]))
    && (forall cp: Scalar :: IsL(cp) || IsV(cp) || IsT(cp) || IsHangul(cp) ==> IsAssigned(t, cp))
  }

  ghost predicate WellFormed(t: Tables) {
    Flat(t) && CompositesSplit(t) && JamoPlain(t) && OutputsAssigned(t)
  }

  // ---------------------------------------------------------------------------
  // Decomposition is idempotent
  // ---------------------------------------------------------------------------

  lemma HangulParts(cp: Scalar)
    requires IsHangul(cp)
    ensures var d := DecomposeHangul(cp);
      2 <= |d| <= 3 && IsL(d[0]) && IsV(d[1]) && (|d| == 3 ==> IsT(d[2]))
  {
  }

  lemma DecomposedPlain(t: Tables, cp: Scalar)
    requires WellFormed(t)
    ensures AllSelfDecomposed(t, D(t, cp))
  {
    if IsHangul(cp) {
      HangulParts(cp);
    }
  }

  lemma {:induction false} DecompositionPlain(t: Tables, xs: seq<Scalar>)
    requires WellFormed(t)
    ensures AllSelfDecomposed(t, Decomposition(t, xs))
  {
    if xs != [] {
      DecomposedPlain(t, xs[0]);
      DecompositionPlain(t, xs[1..]);
    }
  }

  lemma {:induction false} PlainFixed(t: Tables, xs: seq<Scalar>)
    requires AllSelfDecomposed(t, xs)
    ensures Decomposition(t, xs) == xs
  {
    if xs != [] {
      PlainFixed(t, xs[1..]);
      assert xs == [xs[0]] + xs[1..];
    }
  }

  lemma ReorderPlain(t: Tables, xs: seq<Scalar>)
    requires AllSelfDecomposed(t, xs)
    ensures AllSelfDecomposed(t, Reorder(t, xs))
  {
    ReorderProfile(t, xs);
    var r := Reorder(t, xs);
    forall i | 0 <= i < |r|
      ensures SelfDecomposed(t, r[i])
    {
      assert r[i] in multiset(r);
      assert r[i] in xs;
    }
  }

  // ---------------------------------------------------------------------------
  // One composition step
  // ---------------------------------------------------------------------------

  /** A leading and a vowel jamo compose to the syllable that decomposes to them. */
  lemma HangulPair(t: Tables, a: Scalar, b: Scalar)
    requires JamoPlain(t) && IsL(a) && IsV(b)
    ensures ComposePair(t, a, b).Some? && IsHangul(ComposePair(t, a, b).value)
    ensures D(t, ComposePair(t, a, b).value) == D(t, a) + D(t, b)
  {
    var s := ((a - L_BASE) * V_COUNT + (b - V_BASE)) * T_COUNT;
    assert s == (a - L_BASE) * N_COUNT + (b - V_BASE) * T_COUNT;
    assert s / N_COUNT == a - L_BASE;
    assert s % N_COUNT == (b - V_BASE) * T_COUNT;
    assert SelfDecomposed(t, a) && SelfDecomposed(t, b);
  }

  /** A syllable without a trailing consonant takes one. */
  lemma HangulTriple(t: Tables, a: Scalar, b: Scalar)
    requires JamoPlain(t) && IsHangul(a) && (a - S_BASE) % T_COUNT == 0 && IsT(b)
    ensures ComposePair(t, a, b).Some? && IsHangul(ComposePair(t, a, b).value)
    ensures D(t, ComposePair(t, a, b).value) == D(t, a) + D(t, b)
  {
    var s := a - S_BASE;
    var k := b - T_BASE;
    TrailingArithmetic(s, k);
    assert SelfDecomposed(t, b);
    assert D(t, a) == [L_BASE + s / N_COUNT, V_BASE + (s % N_COUNT) / T_COUNT];
  }

  lemma TrailingArithmetic(s: nat, k: nat)
    requires s < S_COUNT && s % T_COUNT == 0 && 0 < k < T_COUNT
    ensures s + k < S_COUNT && (s + k) % T_COUNT == k
    ensures (s + k) / N_COUNT == s / N_COUNT
    ensures ((s + k) % N_COUNT) / T_COUNT == (s % N_COUNT) / T_COUNT
  {
    var q := s / T_COUNT;
    assert s == q * T_COUNT;
  }

  lemma PairSplits(t: Tables, a: Scalar, b: Scalar)
    requires WellFormed(t) && ComposePair(t, a, b).Some?
    ensures D(t, ComposePair(t, a, b).value) == D(t, a) + D(t, b)
    ensures IsAssigned(t, ComposePair(t, a, b).value)
  {
    if IsL(a) && IsV(b) {
      HangulPair(t, a, b);
    } else if IsHangul(a) && (a - S_BASE) % T_COUNT == 0 && IsT(b) {
      HangulTriple(t, a, b);
    }
  }

  /** A mark may be moved across marks of other classes before reordering. */
  lemma {:induction false} MoveAcross(t: Tables, s: seq<Scalar>, b: seq<Scalar>, c: Scalar)
    requires forall i :: 0 <= i < |b| ==> 0 < Ccc(t, b[i]) < Ccc(t, c)
    ensures InsertAll(t, Insert(t, s, c), b) == Insert(t, InsertAll(t, s, b), c)
    decreases |b|
  {
    if b != [] {
      InsertCommute(t, s, b[0], c);
      MoveAcross(t, Insert(t, s, b[0]), b[1..], c);
    }
  }

  /** The marks after the last starter. */
  function Tail(s: State): seq<Scalar>
    requires s.Valid() && s.starter.Some?
  {
    s.out[s.starter.value + 1..]
  }

  /** What the composition loop keeps, after reading the ordered, decomposed prefix `p`. */
  ghost predicate Keeps(t: Tables, s: State, p: seq<Scalar>) {
    TailKeeps(t, s, p) && Reorder(t, Decomposition(t, s.out)) == p
  }

  lemma DecompositionAround(t: Tables, front: seq<Scalar>, c: Scalar, tail: seq<Scalar>)
    requires AllSelfDecomposed(t, tail)
    ensures Decomposition(t, (front + [c]) + tail) == (Decomposition(t, front) + D(t, c)) + tail
  {
    DecompositionAppend(t, front + [c], tail);
    DecompositionSnoc(t, front, c);
    PlainFixed(t, tail);
  }

  lemma ReorderMoved(t: Tables, base: seq<Scalar>, c: Scalar, tail: seq<Scalar>)
    requires forall j :: 0 <= j < |tail| ==> 0 < Ccc(t, tail[j]) < Ccc(t, c)
    ensures Reorder(t, (base + [c]) + tail) == Insert(t, Reorder(t, base + tail), c)
  {
    ReorderAppend(t, base + [c], tail);
    ReorderAppend(t, base, tail);
    ReorderSnoc(t, base, c);
    MoveAcross(t, Reorder(t, base), tail, c);
  }

  lemma SplitAround(out: seq<Scalar>, i: nat, c: Scalar)
    requires i < |out|
    ensures out == (out[..i] + [out[i]]) + out[i + 1..]
    ensures out[i := c] == (out[..i] + [c]) + out[i + 1..]
  {
  }

  lemma ComposeStepDecomposition(t: Tables, out: seq<Scalar>, i: nat, c: Scalar, composed: Scalar)
    requires i < |out| && AllSelfDecomposed(t, out[i + 1..]) && SelfDecomposed(t, c)
    requires forall j :: i < j < |out| ==> 0 < Ccc(t, out[j]) < Ccc(t, c)
    requires D(t, composed) == D(t, out[i]) + D(t, c)
    ensures Reorder(t, Decomposition(t, out[i := composed])) == Insert(t, Reorder(t, Decomposition(t, out)), c)
  {
    hide Reorder;
    hide Insert;
    hide Decomposition;
    hide D;
    hide Ccc;
    var front, tail := out[..i], out[i + 1..];
    SplitAround(out, i, composed);
    DecompositionAround(t, front, out[i], tail);
    DecompositionAround(t, front, composed, tail);
    AppendAssociative(Decomposition(t, front), D(t, out[i]), [c]);
    ReorderMoved(t, Decomposition(t, front) + D(t, out[i]), c, tail);
  }

  lemma OrderedPrefix(t: Tables, p: seq<Scalar>, c: Scalar)
    requires Ordered(t, p + [c])
    ensures Ordered(t, p) && Insert(t, p, c) == p + [c]
  {
    OrderedPart(t, p, [c]);
    OrderedFixed(t, p + [c]);
    OrderedFixed(t, p);
    ReorderSnoc(t, p, c);
  }

  ghost predicate MarksUpTo(t: Tables, s: seq<Scalar>, k: nat) {
    forall i :: 0 <= i < |s| ==> 0 < Ccc(t, s[i]) <= k
  }

  lemma PlainSnoc(t: Tables, s: seq<Scalar>, c: Scalar)
    requires AllSelfDecomposed(t, s) && SelfDecomposed(t, c)
    ensures AllSelfDecomposed(t, s + [c])
  {
  }

  lemma MarksSnoc(t: Tables, s: seq<Scalar>, k: nat, c: Scalar)
    requires MarksUpTo(t, s, k) && 0 < Ccc(t, c) && (s == [] || k <= Ccc(t, c))
    ensures MarksUpTo(t, s + [c], Ccc(t, c))
  {
  }

  /** The tail's part of what the loop keeps. */
  ghost predicate TailKeeps(t: Tables, s: State, p: seq<Scalar>) {
    s.Valid() && (s.starter.Some? && Tail(s) != [] ==>
        && AllSelfDecomposed(t, Tail(s)) && MarksUpTo(t, Tail(s), s.lastCcc)
        && p != [] && s.lastCcc <= Ccc(t, p[|p| - 1]))
  }

  lemma PushTail(t: Tables, s: State, p: seq<Scalar>, c: Scalar)
    requires TailKeeps(t, s, p) && SelfDecomposed(t, c) && Ordered(t, p + [c])
    ensures TailKeeps(t, Push(t, s, c), p + [c])
  {
    var r := Push(t, s, c);
    if Ccc(t, c) != 0 && s.starter.Some? {
      assert Tail(r) == Tail(s) + [c];
      if Tail(s) == [] {
        PlainSnoc(t, [], c);
        MarksSnoc(t, [], 0, c);
      } else {
        assert (p + [c])[|p| - 1] == p[|p| - 1];
        PlainSnoc(t, Tail(s), c);
        MarksSnoc(t, Tail(s), s.lastCcc, c);
      }
    }
  }

  lemma PushKeeps(t: Tables, s: State, p: seq<Scalar>, c: Scalar)
    requires Keeps(t, s, p) && SelfDecomposed(t, c) && Ordered(t, p + [c])
    ensures Keeps(t, Push(t, s, c), p + [c])
  {
    DecompositionSnoc(t, s.out, c);
    ReorderSnoc(t, Decomposition(t, s.out), c);
    OrderedPrefix(t, p, c);
    PushTail(t, s, p, c);
  }

  lemma ComposeKeeps(t: Tables, s: State, p: seq<Scalar>, c: Scalar)
    requires WellFormed(t) && Keeps(t, s, p) && SelfDecomposed(t, c) && Ordered(t, p + [c])
    requires Reaches(t, s, c) && ComposePair(t, s.out[s.starter.value], c).Some?
    ensures Keeps(t, Step(t, s, c), p + [c])
  {
    hide ComposePair;
    hide Ccc;
    hide Reorder;
    var i := s.starter.value;
    var composed := ComposePair(t, s.out[i], c).value;
    var r := Step(t, s, c);
    PairSplits(t, s.out[i], c);
    forall j | i < j < |s.out|
      ensures 0 < Ccc(t, s.out[j]) < Ccc(t, c)
    {
      assert s.out[j] == Tail(s)[j - i - 1];
    }
    ComposeStepDecomposition(t, s.out, i, c, composed);
    OrderedPrefix(t, p, c);
    assert Tail(r) == Tail(s);
  }

  lemma {:induction false} RunKeeps(t: Tables, s: State, p: seq<Scalar>, xs: seq<Scalar>)
    requires WellFormed(t) && Keeps(t, s, p) && AllSelfDecomposed(t, xs) && Ordered(t, p + xs)
    ensures Keeps(t, Run(t, s, xs), p + xs)
    decreases |xs|
  {
    if xs == [] {
      assert p + xs == p;
    } else {
      var c := xs[0];
      assert p + xs == (p + [c]) + xs[1..];
      OrderedPart(t, p + [c], xs[1..]);
      if Reaches(t, s, c) && ComposePair(t, s.out[s.starter.value], c).Some? {
        ComposeKeeps(t, s, p, c);
      } else {
        PushKeeps(t, s, p, c);
      }
      RunKeeps(t, Step(t, s, c), p + [c], xs[1..]);
    }
  }

  lemma OrderedPart(t: Tables, x: seq<Scalar>, y: seq<Scalar>)
    requires Ordered(t, x + y)
    ensures Ordered(t, x)
  {
    forall i | 0 < i < |x|
      ensures Ccc(t, x[i]) == 0 || Ccc(t, x[i - 1]) <= Ccc(t, x[i])
    {
      assert (x + y)[i] == x[i] && (x + y)[i - 1] == x[i - 1];
    }
  }

  /** Composition is undone by decomposing and reordering. */
  lemma CompositionKeepsDecomposition(t: Tables, y: seq<Scalar>)
    requires WellFormed(t) && AllSelfDecomposed(t, y) && Ordered(t, y)
    ensures Reorder(t, Decomposition(t, Composition(t, y))) == y
  {
    assert [] + y == y;
    RunKeeps(t, START, [], y);
  }

  // ---------------------------------------------------------------------------
  // Idempotence
  // ---------------------------------------------------------------------------

  predicate AllAssigned(t: Tables, s: seq<Scalar>) {
    forall i :: 0 <= i < |s| ==> IsAssigned(t, s[i])
  }

  lemma {:induction false} AssignedExactly(t: Tables, xs: seq<Scalar>)
    ensures FirstUnassigned(t, xs).None? <==> AllAssigned(t, xs)
  {
    if xs != [] {
      AssignedExactly(t, xs[1..]);
      if FirstUnassigned(t, xs).None? {
        assert xs == [xs[0]] + xs[1..];
      }
    }
  }

  lemma DecomposedAssigned(t: Tables, cp: Scalar)
    requires WellFormed(t) && IsAssigned(t, cp)
    ensures AllAssigned(t, D(t, cp))
  {
    if IsHangul(cp) {
      HangulParts(cp);
    }
  }

  lemma {:induction false} DecompositionAssigned(t: Tables, xs: seq<Scalar>)
    requires WellFormed(t) && AllAssigned(t, xs)
    ensures AllAssigned(t, Decomposition(t, xs))
  {
    if xs != [] {
      DecomposedAssigned(t, xs[0]);
      DecompositionAssigned(t, xs[1..]);
    }
  }

  lemma ReorderAssigned(t: Tables, xs: seq<Scalar>)
    requires AllAssigned(t, xs)
    ensures AllAssigned(t, Reorder(t, xs))
  {
    ReorderProfile(t, xs);
    var r := Reorder(t, xs);
    forall i | 0 <= i < |r|
      ensures IsAssigned(t, r[i])
    {
      assert r[i] in multiset(r);
      assert r[i] in xs;
    }
  }

  lemma {:induction false} RunAssigned(t: Tables, s: State, xs: seq<Scalar>)
    requires WellFormed(t) && s.Valid() && AllAssigned(t, s.out) && AllAssigned(t, xs)
    ensures AllAssigned(t, Run(t, s, xs).out)
    decreases |xs|
  {
    if xs != [] {
      if Reaches(t, s, xs[0]) && ComposePair(t, s.out[s.starter.value], xs[0]).Some? {
        PairSplits(t, s.out[s.starter.value], xs[0]);
      }
      RunAssigned(t, Step(t, s, xs[0]), xs[1..]);
    }
  }

  /** The decomposed, reordered middle of the pipeline has the properties composition relies on. */
  lemma MiddleShape(t: Tables, x: seq<Scalar>)
    requires WellFormed(t)
    ensures var y := Reorder(t, Decomposition(t, x)); AllSelfDecomposed(t, y) && Ordered(t, y)
  {
    DecompositionPlain(t, x);
    ReorderPlain(t, Decomposition(t, x));
    ReorderOrdered(t, Decomposition(t, x));
  }

  /** Idempotence: every accepted string normalizes to a string that is accepted and normalizes to itself. */
  lemma NfkcIdempotent(t: Tables, x: seq<Scalar>)
    requires WellFormed(t) && Nfkc16(t, x).Ok?
    ensures Nfkc16(t, Nfkc16(t, x).value) == Nfkc16(t, x)
  {
    var y := Reorder(t, Decomposition(t, x));
    var z := Composition(t, y);
    AssignedExactly(t, x);
    DecompositionAssigned(t, x);
    ReorderAssigned(t, Decomposition(t, x));
    RunAssigned(t, START, y);
    AssignedExactly(t, z);
    MiddleShape(t, x);
    CompositionKeepsDecomposition(t, y);
  }

  /** Two accepted strings normalize alike exactly when their decompositions are canonically equivalent. */
  lemma NfkcDecidesEquivalence(t: Tables, x: seq<Scalar>, y: seq<Scalar>)
    requires WellFormed(t) && Nfkc16(t, x).Ok? && Nfkc16(t, y).Ok?
    ensures Nfkc16(t, x) == Nfkc16(t, y) <==> Linked(t, Decomposition(t, x), Decomposition(t, y))
  {
    ReorderNormalForm(t, Decomposition(t, x), Decomposition(t, y));
    MiddleShape(t, x);
    MiddleShape(t, y);
    CompositionKeepsDecomposition(t, Reorder(t, Decomposition(t, x)));
    CompositionKeepsDecomposition(t, Reorder(t, Decomposition(t, y)));
  }
}
