/**
  When characters compose: the composition loop against the blocking rule and the composition algorithm
  of section 3.11 of the Unicode Standard (D115 and D117), and against section 3.12 for Hangul.
*/
module NfkcComposition {
  import opened Common
  import opened Nfkc
  import opened NfkcProofs

  // ---------------------------------------------------------------------------
  // The algorithm of the standard
  // ---------------------------------------------------------------------------

  /** D115: a character between the starter and `c` that is a starter, or of a class no lower than that of `c`. */
  predicate Blocked(t: Tables, between: seq<Scalar>, c: Scalar) {
    exists i :: 0 <= i < |between| && (Ccc(t, between[i]) == 0 || Ccc(t, between[i]) >= Ccc(t, c))
  }

  /** D117: `done` is settled, `base` is the last starter with what it absorbed, `between` what stays after it. */
  function Absorb(t: Tables, done: seq<Scalar>, base: Scalar, between: seq<Scalar>, rest: seq<Scalar>): seq<Scalar>
    decreases |rest|
  {
    if rest == [] then done + [base] + between
    else
      var c := rest[0];
      if !Blocked(t, between, c) && ComposePair(t, base, c).Some? then
        Absorb(t, done, ComposePair(t, base, c).value, between, rest[1..])
      else if Ccc(t, c) == 0 then Absorb(t, done + [base] + between, c, [], rest[1..])
      else Absorb(t, done, base, between + [c], rest[1..])
  }

  /** Nothing composes before the first starter. */
  function CanonicalComposition(t: Tables, done: seq<Scalar>, rest: seq<Scalar>): seq<Scalar>
    decreases |rest|
  {
    if rest == [] then done
    else if Ccc(t, rest[0]) == 0 then Absorb(t, done, rest[0], [], rest[1..])
    else CanonicalComposition(t, done + [rest[0]], rest[1..])
  }

  /** Marks in non-decreasing order. */
  ghost predicate Marks(t: Tables, ms: seq<Scalar>) {
    && (forall i :: 0 <= i < |ms| ==> Ccc(t, ms[i]) > 0)
    && forall i, j :: 0 <= i < j < |ms| ==> Ccc(t, ms[i]) <= Ccc(t, ms[j])
  }

  /** The loop's variables, when `base` is the last starter and `ms` came after it. */
  ghost predicate AtBase(t: Tables, s: State, done: seq<Scalar>, base: Scalar, ms: seq<Scalar>) {
    && s.out == done + [base] + ms && s.starter == Some(|done|)
    && (ms != [] ==> s.lastCcc == Ccc(t, ms[|ms| - 1]))
  }

  lemma BlockedExactly(t: Tables, ms: seq<Scalar>, c: Scalar)
    requires Marks(t, ms)
    ensures Blocked(t, ms, c) <==> ms != [] && Ccc(t, ms[|ms| - 1]) >= Ccc(t, c)
  {
    hide Ccc;
  }

  /** One step of the loop, seen from the last starter. */
  lemma StepAtBase(t: Tables, s: State, done: seq<Scalar>, base: Scalar, ms: seq<Scalar>, c: Scalar)
    requires AtBase(t, s, done, base, ms) && Marks(t, ms)
    ensures s.Valid()
    ensures if !Blocked(t, ms, c) && ComposePair(t, base, c).Some? then AtBase(t, Step(t, s, c), done, ComposePair(t, base, c).value, ms)
      else if Ccc(t, c) == 0 then AtBase(t, Step(t, s, c), done + [base] + ms, c, [])
      else AtBase(t, Step(t, s, c), done, base, ms + [c])
  {
    hide ComposePair;
    hide Ccc;
    hide Blocked;
    BlockedExactly(t, ms, c);
    BaseAt(done, base, ms);
    if ComposePair(t, base, c).Some? {
      BaseReplaced(done, base, ms, ComposePair(t, base, c).value);
    }
    AppendAssociative(done + [base], ms, [c]);
    assert done + [base] + ms + [c] == (done + [base] + ms) + [c] + [];
  }

  lemma BaseAt(done: seq<Scalar>, base: Scalar, ms: seq<Scalar>)
    ensures var out := done + [base] + ms;
      |done| < |out| && out[|done|] == base && (|done| == |out| - 1 <==> ms == [])
  {
  }

  lemma BaseReplaced(done: seq<Scalar>, base: Scalar, ms: seq<Scalar>, p: Scalar)
    ensures (done + [base] + ms)[|done| := p] == done + [p] + ms
  {
  }

  lemma MarksMore(t: Tables, ms: seq<Scalar>, c: Scalar, rest: seq<Scalar>)
    requires Marks(t, ms) && Ordered(t, ms + ([c] + rest)) && Ccc(t, c) != 0
    ensures Marks(t, ms + [c])
  {
    hide Ccc;
    if ms != [] {
      var n := |ms|;
      assert (ms + ([c] + rest))[n] == c && (ms + ([c] + rest))[n - 1] == ms[n - 1];
    }
  }

  lemma OrderedRest(t: Tables, x: seq<Scalar>, y: seq<Scalar>)
    requires Ordered(t, x + y)
    ensures Ordered(t, y)
  {
    forall i | 0 < i < |y|
      ensures Ccc(t, y[i]) == 0 || Ccc(t, y[i - 1]) <= Ccc(t, y[i])
    {
      assert (x + y)[|x| + i] == y[i] && (x + y)[|x| + i - 1] == y[i - 1];
    }
  }

  /** Dropping an absorbed character leaves the marks before it and the rest in order. */
  lemma OrderedSkip(t: Tables, ms: seq<Scalar>, c: Scalar, rest: seq<Scalar>)
    requires Marks(t, ms) && Ordered(t, ms + ([c] + rest)) && !Blocked(t, ms, c)
    ensures Ordered(t, ms + rest)
  {
    hide Ccc;
    var whole := ms + ([c] + rest);
    BlockedExactly(t, ms, c);
    forall i | 0 < i < |ms + rest|
      ensures Ccc(t, (ms + rest)[i]) == 0 || Ccc(t, (ms + rest)[i - 1]) <= Ccc(t, (ms + rest)[i])
    {
      if i < |ms| {
        assert (ms + rest)[i] == ms[i] && (ms + rest)[i - 1] == ms[i - 1];
      } else {
        assert (ms + rest)[i] == whole[i + 1] && (i > |ms| ==> (ms + rest)[i - 1] == whole[i]);
        assert whole[|ms|] == c;
      }
    }
  }

  lemma {:induction false} RunAtBase(t: Tables, s: State, done: seq<Scalar>, base: Scalar, ms: seq<Scalar>, rest: seq<Scalar>)
    requires AtBase(t, s, done, base, ms) && Marks(t, ms) && Ordered(t, ms + rest)
    ensures s.Valid() && Run(t, s, rest).out == Absorb(t, done, base, ms, rest)
    decreases |rest|
  {
    hide ComposePair;
    hide Ccc;
    hide Blocked;
    hide Step;
    hide AtBase;
    AtBaseOut(t, s, done, base, ms);
    if rest != [] {
      var c, tail := rest[0], rest[1..];
      assert rest == [c] + tail;
      StepAtBase(t, s, done, base, ms, c);
      OrderedRest(t, ms + [c], tail) by {
        assert ms + rest == (ms + [c]) + tail;
      }
      if !Blocked(t, ms, c) && ComposePair(t, base, c).Some? {
        OrderedSkip(t, ms, c, tail);
        RunAtBase(t, Step(t, s, c), done, ComposePair(t, base, c).value, ms, tail);
      } else if Ccc(t, c) == 0 {
        assert [] + tail == tail;
        RunAtBase(t, Step(t, s, c), done + [base] + ms, c, [], tail);
      } else {
        MarksMore(t, ms, c, tail);
        assert ms + rest == (ms + [c]) + tail;
        RunAtBase(t, Step(t, s, c), done, base, ms + [c], tail);
      }
    }
  }

  lemma AtBaseOut(t: Tables, s: State, done: seq<Scalar>, base: Scalar, ms: seq<Scalar>)
    requires AtBase(t, s, done, base, ms)
    ensures s.Valid() && s.out == done + [base] + ms
  {
  }

  lemma LeadingStep(t: Tables, s: State, c: Scalar)
    requires s.starter.None?
    ensures if Ccc(t, c) == 0 then AtBase(t, Step(t, s, c), s.out, c, [])
      else Step(t, s, c).starter.None? && Step(t, s, c).out == s.out + [c]
  {
    assert s.out + [c] == s.out + [c] + [];
  }

  lemma {:induction false} RunLeading(t: Tables, s: State, rest: seq<Scalar>)
    requires s.starter.None? && Ordered(t, rest)
    ensures Run(t, s, rest).out == CanonicalComposition(t, s.out, rest)
    decreases |rest|
  {
    hide ComposePair;
    hide Ccc;
    hide Absorb;
    hide Step;
    hide AtBase;
    if rest != [] {
      var c, tail := rest[0], rest[1..];
      LeadingStep(t, s, c);
      OrderedRest(t, [c], tail) by {
        assert rest == [c] + tail;
      }
      if Ccc(t, c) == 0 {
        assert [] + tail == tail;
        RunAtBase(t, Step(t, s, c), s.out, c, [], tail);
      } else {
        RunLeading(t, Step(t, s, c), tail);
      }
    }
  }

  /** On text in canonical order, the loop is the composition algorithm of the standard. */
  lemma CompositionIsCanonical(t: Tables, y: seq<Scalar>)
    requires Ordered(t, y)
    ensures Composition(t, y) == CanonicalComposition(t, [], y)
  {
    RunLeading(t, START, y);
  }

  // ---------------------------------------------------------------------------
  // When a pair composes
  // ---------------------------------------------------------------------------

  /** What composing `front` left in the loop's variables, when `s` stays apart from it. */
  lemma StartsAtBase(t: Tables, front: seq<Scalar>, s: Scalar)
    requires Ccc(t, s) == 0 && Composition(t, front + [s]) == Composition(t, front) + [s]
    ensures AtBase(t, Run(t, START, front + [s]), Composition(t, front), s, [])
  {
    hide ComposePair;
    hide Ccc;
    hide Run;
    var before := Run(t, START, front);
    RunSnoc(t, START, front, s);
    assert before.out + [s] == before.out + [s] + [];
  }

  lemma {:induction false} MarksStay(t: Tables, front: seq<Scalar>, s: Scalar, ms: seq<Scalar>)
    requires Ccc(t, s) == 0 && Composition(t, front + [s]) == Composition(t, front) + [s]
    requires Marks(t, ms) && forall i :: 0 <= i < |ms| ==> ComposePair(t, s, ms[i]).None?
    ensures AtBase(t, Run(t, START, front + [s] + ms), Composition(t, front), s, ms)
    decreases |ms|
  {
    hide ComposePair;
    hide Ccc;
    hide Run;
    hide AtBase;
    hide Composition;
    StartsAtBase(t, front, s);
    if ms == [] {
      assert front + [s] + [] == front + [s];
    } else {
      var fewer, m := ms[..|ms| - 1], ms[|ms| - 1];
      assert ms == fewer + [m];
      MarksStay(t, front, s, fewer);
      AppendAssociative(front + [s], fewer, [m]);
      AtBaseOut(t, Run(t, START, front + [s] + fewer), Composition(t, front), s, fewer);
      RunSnoc(t, START, front + [s] + fewer, m);
      StepAtBase(t, Run(t, START, front + [s] + fewer), Composition(t, front), s, fewer, m);
    }
  }

  /**
    After any text, a starter that stays apart from it, and marks in order none of which it takes: the
    starter takes the next character exactly when the two compose and no mark between them has a class
    that is not lower; otherwise the character stays where it is.
  */
  lemma ComposesAcross(t: Tables, front: seq<Scalar>, s: Scalar, ms: seq<Scalar>, c: Scalar)
    requires Ccc(t, s) == 0 && Composition(t, front + [s]) == Composition(t, front) + [s]
    requires forall i :: 0 <= i < |ms| ==> Ccc(t, ms[i]) > 0 && ComposePair(t, s, ms[i]).None?
    requires forall i, j :: 0 <= i < j < |ms| ==> Ccc(t, ms[i]) <= Ccc(t, ms[j])
    ensures Composition(t, front + [s] + ms) == Composition(t, front) + [s] + ms
    ensures Composition(t, front + [s] + ms + [c]) ==
      if ComposePair(t, s, c).Some? && (ms == [] || Ccc(t, ms[|ms| - 1]) < Ccc(t, c))
      then Composition(t, front) + [ComposePair(t, s, c).value] + ms
      else Composition(t, front) + [s] + ms + [c]
  {
    hide ComposePair;
    hide Ccc;
    hide Run;
    hide Blocked;
    MarksStay(t, front, s, ms);
    var x := front + [s] + ms;
    RunSnoc(t, START, x, c);
    BlockedExactly(t, ms, c);
    StepAtBase(t, Run(t, START, x), Composition(t, front), s, ms, c);
    var out := Composition(t, front);
    AppendAssociative(out + [s], ms, [c]);
    assert out + [s] + ms + [c] + [] == out + [s] + ms + [c];
  }

  /** Marks with no starter in front of them stay as they are. */
  lemma {:induction false} LeadingMarks(t: Tables, ms: seq<Scalar>)
    requires forall i :: 0 <= i < |ms| ==> Ccc(t, ms[i]) > 0
    ensures Composition(t, ms) == ms
    ensures Run(t, START, ms).starter.None?
    decreases |ms|
  {
    if ms != [] {
      var n := |ms| - 1;
      LeadingMarks(t, ms[..n]);
      RunSnoc(t, START, ms[..n], ms[n]);
      assert ms == ms[..n] + [ms[n]];
    }
  }

  // ---------------------------------------------------------------------------
  // The tables and the Hangul arithmetic
  // ---------------------------------------------------------------------------

  /** Section 3.12, in numbers: the syllable of a leading consonant, a vowel and perhaps a trailing consonant. */
  lemma HangulSyllables(t: Tables, l: nat, v: nat, k: nat)
    requires l < 19 && v < 21 && k < 28
    ensures var lv: Scalar := 0xAC00 + (l * 21 + v) * 28;
      && D(t, lv + k) == [0x1100 + l, 0x1161 + v] + (if k == 0 then [] else [0x11A7 + k])
      && ComposePair(t, 0x1100 + l, 0x1161 + v) == Some(lv)
      && (k > 0 ==> ComposePair(t, lv, 0x11A7 + k) == Some(lv + k))
  {
    SyllableParts(l, v, k);
  }

  lemma SyllableParts(l: nat, v: nat, k: nat)
    requires l < 19 && v < 21 && k < 28
    ensures var s := (l * 21 + v) * 28 + k;
      s < 11_172 && s / 588 == l && s % 588 / 28 == v && s % 28 == k
  {
    var s := (l * 21 + v) * 28 + k;
    assert s == 588 * l + (28 * v + k);
    DivModUnique(588, s / 588, s % 588, l, 28 * v + k);
    DivModUnique(28, (28 * v + k) / 28, (28 * v + k) % 28, v, k);
    assert s == 28 * (l * 21 + v) + k;
    DivModUnique(28, s / 28, s % 28, l * 21 + v, k);
  }

  /** Everything that is no Hangul syllable and no pair of Hangul parts is looked up. */
  lemma TableLookups(t: Tables, a: Scalar, b: Scalar)
    ensures !(0xAC00 <= a < 0xD7A4) ==> D(t, a) == if a in t.decomposition then t.decomposition[a] else [a]
    ensures !(0x1100 <= a < 0x1113 && 0x1161 <= b < 0x1176) && !(0xAC00 <= a < 0xD7A4 && (a - 0xAC00) % 28 == 0 && 0x11A8 <= b < 0x11C3)
      ==> ComposePair(t, a, b) == if (a, b) in t.composition then Some(t.composition[(a, b)]) else None
    ensures Ccc(t, a) == if a in t.ccc then t.ccc[a] else 0
  {
  }

  /** Each character is decomposed by itself. */
  lemma DecomposesApart(t: Tables, x: seq<Scalar>, c: Scalar, y: seq<Scalar>)
    ensures Decomposition(t, []) == [] && Decomposition(t, [c]) == D(t, c)
    ensures Decomposition(t, x + [c] + y) == Decomposition(t, x) + D(t, c) + Decomposition(t, y)
  {
    hide D;
    DecompositionSnoc(t, [], c);
    assert [] + [c] == [c];
    DecompositionAppend(t, x + [c], y);
    DecompositionSnoc(t, x, c);
  }

  // ---------------------------------------------------------------------------
  // The whole pipeline
  // ---------------------------------------------------------------------------

  /** The first unassigned code point is named; otherwise the three stages run in the order of the standard. */
  lemma NormalizesExactly(t: Tables, x: seq<Scalar>)
    ensures forall c :: Nfkc16(t, x) == Err(UnassignedCodePoint(c)) <==>
      exists i :: 0 <= i < |x| && x[i] == c && !IsAssigned(t, c) && forall j :: 0 <= j < i ==> IsAssigned(t, x[j])
    ensures (forall i :: 0 <= i < |x| ==> IsAssigned(t, x[i])) ==>
      Nfkc16(t, x) == Ok(CanonicalComposition(t, [], Reorder(t, Decomposition(t, x))))
  {
    hide IsAssigned;
    hide Composition;
    FirstIs(t, x);
    ReorderOrdered(t, Decomposition(t, x));
    CompositionIsCanonical(t, Reorder(t, Decomposition(t, x)));
  }

  lemma {:induction false} FirstIs(t: Tables, x: seq<Scalar>)
    ensures forall c :: FirstUnassigned(t, x) == Some(c) <==>
      exists i :: 0 <= i < |x| && x[i] == c && !IsAssigned(t, c) && forall j :: 0 <= j < i ==> IsAssigned(t, x[j])
  {
    hide IsAssigned;
    if x != [] {
      FirstIs(t, x[1..]);
      forall c | FirstUnassigned(t, x) == Some(c)
        ensures exists i :: 0 <= i < |x| && x[i] == c && !IsAssigned(t, c) && forall j :: 0 <= j < i ==> IsAssigned(t, x[j])
      {
        if !IsAssigned(t, x[0]) {
          assert x[0] == c;
        } else {
          var i :| 0 <= i < |x[1..]| && x[1..][i] == c && !IsAssigned(t, c) && forall j :: 0 <= j < i ==> IsAssigned(t, x[1..][j]);
          forall j | 0 <= j < i + 1
            ensures IsAssigned(t, x[j])
          {
            assert j > 0 ==> x[j] == x[1..][j - 1];
          }
          assert x[i + 1] == c;
        }
      }
      forall c, i | 0 <= i < |x| && x[i] == c && !IsAssigned(t, c) && forall j :: 0 <= j < i ==> IsAssigned(t, x[j])
        ensures FirstUnassigned(t, x) == Some(c)
      {
        if i > 0 {
          assert x[1..][i - 1] == c;
          forall j | 0 <= j < i - 1
            ensures IsAssigned(t, x[1..][j])
          {
            assert x[1..][j] == x[j + 1];
          }
        }
      }
    }
  }
}
