/** The passphrase normalization profile: size cap, NFKC, white-space collapse, trim, emptiness check. */
module Passphrase {
  import opened Common
  import opened Nfkc
  import opened NfkcProofs
  import opened NfkcIdempotence
  import Utf8

  const MAX_INPUT_BYTES: nat := 4096

  const SPACE: Scalar := 0x20

  datatype PassphraseError =
    | InputTooLong(bytes: nat)
    | Unnormalizable(codePoint: Scalar)
    | Empty

  function Utf8Width(c: Scalar): nat {
    if c < 0x80 then 1 else if c < 0x800 then 2 else if c < 0x1_0000 then 3 else 4
  }

  function Utf8Length(s: seq<Scalar>): nat {
    if s == [] then 0 else Utf8Width(s[0]) + Utf8Length(s[1..])
  }

  /** Every maximal run of white space becomes one space; `inRun` when a run is already open. */
  function Collapse(t: Tables, s: seq<Scalar>, inRun: bool): seq<Scalar> {
    if s == [] then []
    else if IsWhiteSpace(t, s[0]) then
      (if inRun then [] else [SPACE]) + Collapse(t, s[1..], true)
    else [s[0]] + Collapse(t, s[1..], false)
  }

  function TrimStart(s: seq<Scalar>): seq<Scalar> {
    if s != [] && s[0] == SPACE then s[1..] else s
  }

  function TrimEnd(s: seq<Scalar>): seq<Scalar> {
    if s != [] && s[|s| - 1] == SPACE then s[..|s| - 1] else s
  }

  function CollapseAndTrim(t: Tables, s: seq<Scalar>): seq<Scalar> {
    TrimEnd(TrimStart(Collapse(t, s, false)))
  }

  function NormalizePassphrase(t: Tables, passphrase: seq<Scalar>): Result<seq<Scalar>, PassphraseError> {
    if Utf8Length(passphrase) > MAX_INPUT_BYTES then Err(InputTooLong(Utf8Length(passphrase)))
    else
      match Nfkc16(t, passphrase)
      case Err(UnassignedCodePoint(cp)) => Err(Unnormalizable(cp))
      case Ok(normalized) =>
        var trimmed := CollapseAndTrim(t, normalized);
        if trimmed == [] then Err(Empty) else Ok(trimmed)
  }

  method CollapseRuns(t: Tables, normalized: seq<Scalar>) returns (collapsed: seq<Scalar>)
    ensures collapsed == Collapse(t, normalized, false)
  {
    collapsed := [];
    var inRun := false;
    for i := 0 to |normalized|
      invariant Collapse(t, normalized, false) == collapsed + Collapse(t, normalized[i..], inRun)
    {
      var ch := normalized[i];
      ghost var rest := normalized[i + 1..];
      assert normalized[i..] == [ch] + rest;
      if IsWhiteSpace(t, ch) {
        if !inRun {
          AppendAssociative(collapsed, [SPACE], Collapse(t, rest, true));
          collapsed := collapsed + [SPACE];
          inRun := true;
        }
      } else {
        AppendAssociative(collapsed, [ch], Collapse(t, rest, false));
        collapsed := collapsed + [ch];
        inRun := false;
      }
    }
  }

  method RunNormalizePassphrase(t: Tables, passphrase: seq<Scalar>) returns (r: Result<seq<Scalar>, PassphraseError>)
    ensures r == NormalizePassphrase(t, passphrase)
  {
    if Utf8Length(passphrase) > MAX_INPUT_BYTES {
      return Err(InputTooLong(Utf8Length(passphrase)));
    }
    var n := RunNfkc16(t, passphrase);
    if n.Err? {
      return Err(Unnormalizable(n.error.codePoint));
    }
    var collapsed := CollapseRuns(t, n.value);
    var trimmed := TrimStart(collapsed);
    trimmed := TrimEnd(trimmed);
    if trimmed == [] {
      return Err(Empty);
    }
    return Ok(trimmed);
  }

  // ---------------------------------------------------------------------------
  // What is assumed of white space
  // ---------------------------------------------------------------------------

  /** The space is a self-decomposed assigned white space; white space is inert and never composes. */
  ghost predicate WhiteSpaceInert(t: Tables) {
    && IsWhiteSpace(t, SPACE) && IsAssigned(t, SPACE) && SelfDecomposed(t, SPACE)
    && (forall w: Scalar :: IsWhiteSpace(t, w) ==> Ccc(t, w) == 0)
    && (forall a: Scalar, b: Scalar :: ComposePair(t, a, b).Some? ==>
          !IsWhiteSpace(t, a) && !IsWhiteSpace(t, b) && !IsWhiteSpace(t, ComposePair(t, a, b).value))
  }

  predicate NoSpace(t: Tables, s: seq<Scalar>) {
    forall i :: 0 <= i < |s| ==> !IsWhiteSpace(t, s[i])
  }

  // ---------------------------------------------------------------------------
  // White space separates composition
  // ---------------------------------------------------------------------------

  /** `s` is `r` run after the text `base`, whose last element is white space. */
  ghost predicate Shifted(t: Tables, base: seq<Scalar>, s: State, r: State) {
    && base != [] && IsWhiteSpace(t, base[|base| - 1])
    && s.Valid() && r.Valid()
    && s.out == base + r.out && s.lastCcc == r.lastCcc
    && s.starter == Some(if r.starter.Some? then |base| + r.starter.value else |base| - 1)
  }

  lemma ShiftedStep(t: Tables, base: seq<Scalar>, s: State, r: State, c: Scalar)
    requires WhiteSpaceInert(t) && Shifted(t, base, s, r)
    ensures Shifted(t, base, Step(t, s, c), Step(t, r, c))
  {
    if r.starter.None? {
      assert s.out[s.starter.value] == base[|base| - 1];
    } else {
      assert s.out[s.starter.value] == r.out[r.starter.value];
      assert Reaches(t, s, c) <==> Reaches(t, r, c);
    }
    assert (base + r.out) + [c] == base + (r.out + [c]);
  }

  lemma {:induction false} ShiftedRun(t: Tables, base: seq<Scalar>, s: State, r: State, xs: seq<Scalar>)
    requires WhiteSpaceInert(t) && Shifted(t, base, s, r)
    ensures Shifted(t, base, Run(t, s, xs), Run(t, r, xs))
    decreases |xs|
  {
    if xs != [] {
      ShiftedStep(t, base, s, r, xs[0]);
      ShiftedRun(t, base, Step(t, s, xs[0]), Step(t, r, xs[0]), xs[1..]);
    }
  }

  /** Composition never reaches across white space. */
  lemma CompositionSplits(t: Tables, x: seq<Scalar>, w: Scalar, y: seq<Scalar>)
    requires WhiteSpaceInert(t) && IsWhiteSpace(t, w)
    ensures Composition(t, x + ([w] + y)) == Composition(t, x) + ([w] + Composition(t, y))
  {
    var before := Run(t, START, x);
    var after := Step(t, before, w);
    RunAppend(t, START, x, [w] + y);
    assert ([w] + y)[1..] == y;
    assert after == Push(t, before, w);
    var base := before.out + [w];
    assert base + [] == base;
    ShiftedRun(t, base, after, START, y);
    AppendAssociative(before.out, [w], Composition(t, y));
  }

  lemma {:induction false} RunNoSpace(t: Tables, s: State, xs: seq<Scalar>)
    requires WhiteSpaceInert(t) && s.Valid() && NoSpace(t, s.out) && NoSpace(t, xs)
    ensures NoSpace(t, Run(t, s, xs).out)
    ensures |Run(t, s, xs).out| >= |s.out|
    ensures s.starter.None? && xs != [] ==> |Run(t, s, xs).out| > |s.out|
    decreases |xs|
  {
    if xs != [] {
      var c := xs[0];
      assert NoSpace(t, Step(t, s, c).out);
      RunNoSpace(t, Step(t, s, c), xs[1..]);
    }
  }

  lemma NoSpaceComposition(t: Tables, x: seq<Scalar>)
    requires WhiteSpaceInert(t) && NoSpace(t, x)
    ensures NoSpace(t, Composition(t, x))
    ensures Composition(t, x) == [] <==> x == []
  {
    RunNoSpace(t, START, x);
  }

  /** The index of the first white space, or the length. */
  function FirstSpace(t: Tables, s: seq<Scalar>): (i: nat)
    ensures i <= |s| && NoSpace(t, s[..i])
    ensures i < |s| ==> IsWhiteSpace(t, s[i])
  {
    if s == [] || IsWhiteSpace(t, s[0]) then 0
    else
      var k := FirstSpace(t, s[1..]);
      assert s[..k + 1] == [s[0]] + s[1..][..k];
      k + 1
  }

  // ---------------------------------------------------------------------------
  // Composition commutes with collapsing and trimming
  // ---------------------------------------------------------------------------

  lemma {:induction false} CollapseFree(t: Tables, x: seq<Scalar>, rest: seq<Scalar>, b: bool)
    requires NoSpace(t, x) && x != []
    ensures Collapse(t, x + rest, b) == x + Collapse(t, rest, false)
  {
    assert (x + rest)[1..] == x[1..] + rest;
    if |x| == 1 {
      assert x[1..] + rest == rest;
      assert x == [x[0]];
    } else {
      CollapseFree(t, x[1..], rest, false);
      assert x == [x[0]] + x[1..];
    }
  }

  lemma CollapseAtSpace(t: Tables, x: seq<Scalar>, w: Scalar, rest: seq<Scalar>, b: bool)
    requires NoSpace(t, x) && IsWhiteSpace(t, w)
    ensures Collapse(t, x + ([w] + rest), b)
         == x + ((if x == [] && b then [] else [SPACE]) + Collapse(t, rest, true))
  {
    assert ([w] + rest)[1..] == rest;
    if x == [] {
      assert x + ([w] + rest) == [w] + rest;
    } else {
      CollapseFree(t, x, [w] + rest, b);
    }
  }

  lemma {:induction false} CollapseCommutes(t: Tables, y: seq<Scalar>, b: bool)
    requires WhiteSpaceInert(t)
    ensures Composition(t, Collapse(t, y, b)) == Collapse(t, Composition(t, y), b)
    decreases |y|
  {
    hide Composition;
    hide IsWhiteSpace;
    var i := FirstSpace(t, y);
    var x := y[..i];
    NoSpaceComposition(t, x);
    var cx := Composition(t, x);
    if i == |y| {
      assert x == y;
      if y != [] {
        CollapseFree(t, y, [], b);
        CollapseFree(t, cx, [], b);
        assert y + [] == y && cx + [] == cx;
      }
    } else {
      SplitAt(y, i);
      var w, rest := y[i], y[i + 1..];
      CollapseCommutes(t, rest, true);
      CollapseAtSpace(t, x, w, rest, b);
      CompositionSplits(t, x, w, rest);
      CollapseAtSpace(t, cx, w, Composition(t, rest), b);
      if x == [] && b {
        assert x + ([] + Collapse(t, rest, true)) == Collapse(t, rest, true);
      } else {
        CompositionSplits(t, x, SPACE, Collapse(t, rest, true));
      }
    }
  }

  lemma {:induction false} CompositionEnds(t: Tables, s: seq<Scalar>)
    requires WhiteSpaceInert(t) && s != []
    ensures var c := Composition(t, s);
      && c != []
      && (IsWhiteSpace(t, s[0]) ==> c[0] == s[0])
      && (!IsWhiteSpace(t, s[0]) ==> !IsWhiteSpace(t, c[0]))
      && (IsWhiteSpace(t, s[|s| - 1]) ==> c[|c| - 1] == s[|s| - 1])
      && (!IsWhiteSpace(t, s[|s| - 1]) ==> !IsWhiteSpace(t, c[|c| - 1]))
    decreases |s|
  {
    hide Composition;
    hide FirstSpace;
    hide IsWhiteSpace;
    EmptyComposition(t);
    var i := FirstSpace(t, s);
    NoSpaceComposition(t, s[..i]);
    if i == |s| {
      assert s[..i] == s;
    } else {
      SplitAt(s, i);
      CompositionSplits(t, s[..i], s[i], s[i + 1..]);
      if i + 1 < |s| {
        CompositionEnds(t, s[i + 1..]);
      }
    }
  }

  lemma TrimStartCommutes(t: Tables, s: seq<Scalar>)
    requires WhiteSpaceInert(t)
    ensures Composition(t, TrimStart(s)) == TrimStart(Composition(t, s))
  {
    if s != [] {
      CompositionEnds(t, s);
      if s[0] == SPACE {
        assert s == [] + ([SPACE] + s[1..]);
        CompositionSplits(t, [], SPACE, s[1..]);
      }
    }
  }

  lemma TrimEndCommutes(t: Tables, s: seq<Scalar>)
    requires WhiteSpaceInert(t)
    ensures Composition(t, TrimEnd(s)) == TrimEnd(Composition(t, s))
  {
    hide Composition;
    hide TrimEnd;
    EmptyComposition(t);
    if s == [] {
      TrimmedEnd(s);
    } else {
      CompositionEnds(t, s);
      TrimmedEnd(s);
      TrimmedEnd(Composition(t, s));
      if s[|s| - 1] == SPACE {
        var front := s[..|s| - 1];
        assert s == front + [SPACE];
        LastApart(front, SPACE);
        CompositionSplits(t, front, SPACE, []);
        LastApart(Composition(t, front), SPACE);
      }
    }
  }

  lemma EmptyComposition(t: Tables)
    ensures Composition(t, []) == []
  {
  }

  lemma TrimmedEnd(s: seq<Scalar>)
    ensures TrimEnd(s) == if s != [] && s[|s| - 1] == SPACE then s[..|s| - 1] else s
  {
  }

  lemma LastApart(x: seq<Scalar>, c: Scalar)
    ensures var s := x + ([c] + []);
      s != [] && s[..|s| - 1] == x && s[|s| - 1] == c && s == x + [c]
  {
  }

  lemma CollapseAndTrimCommutes(t: Tables, y: seq<Scalar>)
    requires WhiteSpaceInert(t)
    ensures Composition(t, CollapseAndTrim(t, y)) == CollapseAndTrim(t, Composition(t, y))
  {
    CollapseCommutes(t, y, false);
    TrimStartCommutes(t, Collapse(t, y, false));
    TrimEndCommutes(t, TrimStart(Collapse(t, y, false)));
  }

  // ---------------------------------------------------------------------------
  // The profile
  // ---------------------------------------------------------------------------

  /** White space occurs only as single spaces; with `b`, not first either. */
  predicate SingleSpaces(t: Tables, s: seq<Scalar>, b: bool) {
    && (forall i :: 0 <= i < |s| && IsWhiteSpace(t, s[i]) ==> s[i] == SPACE)
    && (forall i :: 0 < i < |s| ==> !(IsWhiteSpace(t, s[i - 1]) && IsWhiteSpace(t, s[i])))
    && (b && s != [] ==> !IsWhiteSpace(t, s[0]))
  }

  lemma {:induction false} CollapseSingle(t: Tables, s: seq<Scalar>, b: bool)
    requires WhiteSpaceInert(t)
    ensures SingleSpaces(t, Collapse(t, s, b), b)
  {
    if s != [] {
      CollapseSingle(t, s[1..], IsWhiteSpace(t, s[0]));
    }
  }

  lemma {:induction false} SingleCollapsed(t: Tables, s: seq<Scalar>, b: bool)
    requires SingleSpaces(t, s, b)
    ensures Collapse(t, s, b) == s
  {
    if s != [] {
      SingleCollapsed(t, s[1..], IsWhiteSpace(t, s[0]));
      assert s == [s[0]] + s[1..];
    }
  }

  ghost predicate Profile(t: Tables, s: seq<Scalar>) {
    && s != [] && !IsWhiteSpace(t, s[0]) && !IsWhiteSpace(t, s[|s| - 1])
    && SingleSpaces(t, s, false)
  }

  lemma TrimmedProfile(t: Tables, s: seq<Scalar>)
    requires WhiteSpaceInert(t) && CollapseAndTrim(t, s) != []
    ensures Profile(t, CollapseAndTrim(t, s))
  {
    hide Collapse;
    hide IsWhiteSpace;
    CollapseSingle(t, s, false);
    var c := Collapse(t, s, false);
    var d := TrimStart(c);
    SpacesWithin(t, c, |c| - |d|, |c|);
    SpacesWithin(t, d, 0, |TrimEnd(d)|);
  }

  lemma SpacesWithin(t: Tables, s: seq<Scalar>, i: nat, j: nat)
    requires i <= j <= |s| && SingleSpaces(t, s, false)
    ensures SingleSpaces(t, s[i..j], false)
  {
    hide IsWhiteSpace;
  }

  /** The profile of every accepted passphrase: no outer white space, and inside only single spaces. */
  lemma NormalizedProfile(t: Tables, passphrase: seq<Scalar>)
    requires WhiteSpaceInert(t) && NormalizePassphrase(t, passphrase).Ok?
    ensures Profile(t, NormalizePassphrase(t, passphrase).value)
  {
    TrimmedProfile(t, Nfkc16(t, passphrase).value);
  }

  // ---------------------------------------------------------------------------
  // Idempotence
  // ---------------------------------------------------------------------------

  lemma {:induction false} CollapseKeeps(t: Tables, s: seq<Scalar>, b: bool)
    requires WhiteSpaceInert(t)
    ensures AllSelfDecomposed(t, s) ==> AllSelfDecomposed(t, Collapse(t, s, b))
    ensures AllAssigned(t, s) ==> AllAssigned(t, Collapse(t, s, b))
  {
    if s != [] {
      CollapseKeeps(t, s[1..], IsWhiteSpace(t, s[0]));
    }
  }

  lemma {:induction false} CollapseOrdered(t: Tables, s: seq<Scalar>, b: bool)
    requires WhiteSpaceInert(t) && Ordered(t, s)
    ensures Ordered(t, Collapse(t, s, b))
    ensures s != [] && !IsWhiteSpace(t, s[0]) ==> Collapse(t, s, b) != [] && Collapse(t, s, b)[0] == s[0]
    ensures s != [] && IsWhiteSpace(t, s[0]) && !b ==> Collapse(t, s, b) != [] && Collapse(t, s, b)[0] == SPACE
  {
    if s != [] {
      var space := IsWhiteSpace(t, s[0]);
      CollapseOrdered(t, s[1..], space);
      var tail := Collapse(t, s[1..], space);
      var head := if space then SPACE else s[0];
      if tail != [] && !space {
        assert s[1..][0] == s[1];
        assert Ccc(t, tail[0]) == 0 || Ccc(t, s[0]) <= Ccc(t, tail[0]);
      }
    }
  }

  lemma TrimKeeps(t: Tables, s: seq<Scalar>)
    ensures var r := TrimEnd(TrimStart(s));
      && (AllSelfDecomposed(t, s) ==> AllSelfDecomposed(t, r))
      && (AllAssigned(t, s) ==> AllAssigned(t, r))
      && (Ordered(t, s) ==> Ordered(t, r))
  {
    var d := TrimStart(s);
    var r := TrimEnd(d);
    assert forall i :: 0 <= i < |r| ==> r[i] == s[i + |s| - |d|];
  }

  lemma NormalizeAgain(t: Tables, x: seq<Scalar>)
    requires WellFormed(t) && WhiteSpaceInert(t) && Nfkc16(t, x).Ok?
    ensures var r := CollapseAndTrim(t, Nfkc16(t, x).value); Nfkc16(t, r) == Ok(r)
  {
    var y := Reorder(t, Decomposition(t, x));
    var z := Composition(t, y);
    var y' := CollapseAndTrim(t, y);
    var r := CollapseAndTrim(t, z);
    MiddleShape(t, x);
    CollapseKeeps(t, y, false);
    CollapseOrdered(t, y, false);
    TrimKeeps(t, Collapse(t, y, false));
    CollapseAndTrimCommutes(t, y);
    CompositionKeepsDecomposition(t, y');
    AcceptedOutputAssigned(t, x);
    CollapseKeeps(t, z, false);
    TrimKeeps(t, Collapse(t, z, false));
    AssignedExactly(t, r);
  }

  lemma AcceptedOutputAssigned(t: Tables, x: seq<Scalar>)
    requires WellFormed(t) && Nfkc16(t, x).Ok?
    ensures AllAssigned(t, Nfkc16(t, x).value)
  {
    NfkcIdempotent(t, x);
    AssignedExactly(t, Nfkc16(t, x).value);
  }

  /**
    Normalizing an accepted passphrase again changes nothing, and fails exactly when the
    normalized form has outgrown the input cap.
  */
  lemma NormalizeIdempotent(t: Tables, passphrase: seq<Scalar>)
    requires WellFormed(t) && WhiteSpaceInert(t) && NormalizePassphrase(t, passphrase).Ok?
    ensures var r := NormalizePassphrase(t, passphrase).value;
      NormalizePassphrase(t, r) == if Utf8Length(r) <= MAX_INPUT_BYTES then Ok(r) else Err(InputTooLong(Utf8Length(r)))
  {
    hide Nfkc16;
    hide Utf8Length;
    hide CollapseAndTrim;
    hide Profile;
    hide WellFormed;
    hide WhiteSpaceInert;
    var r := NormalizePassphrase(t, passphrase).value;
    NormalizedProfile(t, passphrase);
    NormalizeAgain(t, passphrase);
    ProfileStays(t, r);
  }

  /** What has the profile is left alone. */
  lemma ProfileStays(t: Tables, s: seq<Scalar>)
    requires WhiteSpaceInert(t) && Profile(t, s)
    ensures CollapseAndTrim(t, s) == s && s != []
  {
    hide Collapse;
    hide IsWhiteSpace;
    SingleCollapsed(t, s, false);
  }

  // ---------------------------------------------------------------------------
  // The assumptions can be met
  // ---------------------------------------------------------------------------

  /** A fragment of the tables: one accented letter, the no-break space, the space and Hangul. */
  const SAMPLE: Tables := Tables(
    map[0xE9 := [0x65, 0x301], 0xA0 := [0x20]],
    map[0x301 := 230],
    map[(0x65, 0x301) := 0xE9],
    [(0, 0x10_FFFF)],
    [(0x20, 0x20), (0xA0, 0xA0)])

  lemma SampleSpace(cp: Scalar)
    ensures IsWhiteSpace(SAMPLE, cp) <==> cp == 0x20 || cp == 0xA0
  {
    var r := SAMPLE.whiteSpaceRanges;
    assert r[0] == (0x20, 0x20) && r[1] == (0xA0, 0xA0);
  }

  lemma SampleAssigned(cp: Scalar)
    ensures IsAssigned(SAMPLE, cp)
  {
    assert SAMPLE.assignedRanges[0] == (0, 0x10_FFFF);
  }

  lemma SampleFlat()
    ensures Flat(SAMPLE) && CompositesSplit(SAMPLE) && JamoPlain(SAMPLE)
  {
    assert D(SAMPLE, 0x65) == [0x65] && D(SAMPLE, 0x301) == [0x301] && D(SAMPLE, 0x20) == [0x20];
    assert D(SAMPLE, 0xE9) == [0x65, 0x301];
    forall cp | cp in SAMPLE.decomposition
      ensures AllSelfDecomposed(SAMPLE, SAMPLE.decomposition[cp])
    {
      assert cp == 0xE9 || cp == 0xA0;
    }
    forall p | p in SAMPLE.composition
      ensures D(SAMPLE, SAMPLE.composition[p]) == D(SAMPLE, p.0) + D(SAMPLE, p.1)
    {
      assert p == (0x65, 0x301);
    }
  }

  lemma SampleInert()
    ensures WhiteSpaceInert(SAMPLE)
  {
    SampleAssigned(SPACE);
    SampleSpace(SPACE);
    forall w: Scalar | IsWhiteSpace(SAMPLE, w)
      ensures Ccc(SAMPLE, w) == 0
    {
      SampleSpace(w);
    }
    forall a: Scalar, b: Scalar | ComposePair(SAMPLE, a, b).Some?
      ensures !IsWhiteSpace(SAMPLE, a) && !IsWhiteSpace(SAMPLE, b) && !IsWhiteSpace(SAMPLE, ComposePair(SAMPLE, a, b).value)
    {
      SampleSpace(a);
      SampleSpace(b);
      SampleSpace(ComposePair(SAMPLE, a, b).value);
      if IsL(a) && IsV(b) {
        assert ComposePair(SAMPLE, a, b).value >= S_BASE;
      }
    }
  }

  /** The table assumptions are consistent: a fragment with a composing pair meets them all. */
  lemma AssumptionsConsistent()
    ensures WellFormed(SAMPLE) && WhiteSpaceInert(SAMPLE)
    ensures ComposePair(SAMPLE, 0x65, 0x301) == Some(0xE9)
  {
    SampleFlat();
    SampleInert();
    forall cp: Scalar
      ensures IsAssigned(SAMPLE, cp)
    {
      SampleAssigned(cp);
    }
    assert (0x65, 0x301) in SAMPLE.composition;
  }

  // ---------------------------------------------------------------------------
  // The profile in terms of words
  // ---------------------------------------------------------------------------

  /** The maximal runs without white space, in order. */
  function Words(t: Tables, s: seq<Scalar>): seq<seq<Scalar>>
    decreases |s|
  {
    var i := FirstSpace(t, s);
    (if i > 0 then [s[..i]] else []) + (if i < |s| then Words(t, s[i + 1..]) else [])
  }

  /** Words with one space between any two. */
  function Spaced(words: seq<seq<Scalar>>): seq<Scalar> {
    if words == [] then []
    else if |words| == 1 then words[0]
    else words[0] + ([SPACE] + Spaced(words[1..]))
  }

  predicate AreWords(t: Tables, words: seq<seq<Scalar>>) {
    forall i :: 0 <= i < |words| ==> words[i] != [] && NoSpace(t, words[i])
  }

  function SpaceIf(b: bool): seq<Scalar> {
    if b then [SPACE] else []
  }

  lemma OneMoreWord(t: Tables, x: seq<Scalar>, words: seq<seq<Scalar>>)
    requires x != [] && NoSpace(t, x) && AreWords(t, words)
    ensures AreWords(t, [x] + words)
  {
    hide NoSpace;
  }

  /** The words from the first white space on are those behind it. */
  lemma WordsSplit(t: Tables, s: seq<Scalar>)
    ensures var i := FirstSpace(t, s);
      Words(t, s) ==
        if i == |s| then (if s == [] then [] else [s])
        else if i == 0 then Words(t, s[1..])
        else [s[..i]] + Words(t, s[i + 1..])
  {
    hide FirstSpace;
    assert s[..|s|] == s;
  }

  lemma {:induction false} WordsAreWords(t: Tables, s: seq<Scalar>)
    ensures AreWords(t, Words(t, s))
    ensures s != [] && Words(t, s) == [] ==> IsWhiteSpace(t, s[|s| - 1])
    decreases |s|
  {
    hide IsWhiteSpace;
    hide Words;
    hide FirstSpace;
    hide NoSpace;
    var i := FirstSpace(t, s);
    WordsSplit(t, s);
    if i == |s| {
      assert s[..|s|] == s;
    } else {
      WordsAreWords(t, s[i + 1..]);
      if i > 0 {
        OneMoreWord(t, s[..i], Words(t, s[i + 1..]));
      } else {
        assert s[1..] != [] ==> s[1..][|s[1..]| - 1] == s[|s| - 1];
      }
    }
  }

  /** Collapsing keeps the words: one space between them, and one for white space at either end. */
  lemma {:induction false} CollapseWords(t: Tables, s: seq<Scalar>, b: bool)
    requires IsWhiteSpace(t, SPACE)
    ensures var words := Words(t, s);
      Collapse(t, s, b) == SpaceIf(s != [] && IsWhiteSpace(t, s[0]) && !b) + Spaced(words)
                         + SpaceIf(s != [] && IsWhiteSpace(t, s[|s| - 1]) && words != [])
    decreases |s|
  {
    hide IsWhiteSpace;
    hide Collapse;
    hide Spaced;
    hide Words;
    hide FirstSpace;
    hide NoSpace;
    hide SpaceIf;
    hide AreWords;
    var i := FirstSpace(t, s);
    var x := s[..i];
    WordsSplit(t, s);
    if i == |s| {
      OneRun(t, s, b);
    } else {
      SplitAt(s, i);
      var w, rest := s[i], s[i + 1..];
      CollapseWords(t, rest, true);
      CollapseAtSpace(t, x, w, rest, b);
      WordsAreWords(t, rest);
      WordsOfNothing(t);
      SpaceNone();
      assert rest != [] ==> rest[|rest| - 1] == s[|s| - 1];
      if x == [] {
        Leading(Collapse(t, rest, true), Spaced(Words(t, rest)), SpaceIf(!b), IsWhiteSpace(t, s[|s| - 1]) && Words(t, rest) != []);
      } else {
        FirstPlain(t, s);
        SpacedCons(x, Words(t, rest));
        NoWords();
        Following(x, Spaced(Words(t, rest)), Words(t, rest) != [], IsWhiteSpace(t, s[|s| - 1]));
      }
    }
  }

  lemma FirstPlain(t: Tables, s: seq<Scalar>)
    requires FirstSpace(t, s) > 0
    ensures !IsWhiteSpace(t, s[0])
  {
  }

  lemma SpaceNone()
    ensures SpaceIf(false) == [] && SpaceIf(true) == [SPACE]
  {
  }

  lemma WordsOfNothing(t: Tables)
    ensures Words(t, []) == []
  {
  }

  lemma OneRun(t: Tables, s: seq<Scalar>, b: bool)
    requires FirstSpace(t, s) == |s|
    ensures Collapse(t, s, b) == SpaceIf(false) + Spaced(Words(t, s)) + SpaceIf(false)
    ensures s != [] ==> !IsWhiteSpace(t, s[0]) && !IsWhiteSpace(t, s[|s| - 1])
  {
    hide IsWhiteSpace;
    hide Collapse;
    hide FirstSpace;
    assert s[..|s|] == s;
    CollapseWhole(t, s, b);
    assert Words(t, s) == if s == [] then [] else [s];
    assert SpaceIf(false) + s + SpaceIf(false) == s;
  }

  lemma Leading(rest: seq<Scalar>, body: seq<Scalar>, front: seq<Scalar>, e: bool)
    requires rest == SpaceIf(false) + body + SpaceIf(e)
    ensures [] + (front + rest) == front + body + SpaceIf(e)
  {
  }

  lemma Following(x: seq<Scalar>, body: seq<Scalar>, more: bool, e: bool)
    requires !more ==> body == [] && e
    ensures x + ([SPACE] + (SpaceIf(false) + body + SpaceIf(e && more))) == SpaceIf(false) + (x + (SpaceIf(more) + body)) + SpaceIf(e)
  {
  }

  lemma CollapseWhole(t: Tables, s: seq<Scalar>, b: bool)
    requires NoSpace(t, s)
    ensures Collapse(t, s, b) == s
  {
    hide IsWhiteSpace;
    if s != [] {
      CollapseFree(t, s, [], b);
      assert s + [] == s;
    }
  }

  lemma SpacedCons(x: seq<Scalar>, words: seq<seq<Scalar>>)
    ensures Spaced([x] + words) == x + (SpaceIf(words != []) + Spaced(words))
  {
    assert ([x] + words)[1..] == words;
  }

  /** Words with spaces between them have no space at either end. */
  lemma {:induction false} SpacedEnds(t: Tables, words: seq<seq<Scalar>>)
    requires IsWhiteSpace(t, SPACE) && AreWords(t, words) && words != []
    ensures var s := Spaced(words); s != [] && s[0] != SPACE && s[|s| - 1] != SPACE
  {
    hide IsWhiteSpace;
    var first := words[0];
    assert first[0] != SPACE && first[|first| - 1] != SPACE;
    if |words| > 1 {
      SpacedEnds(t, words[1..]);
    }
  }

  /** Collapsing and trimming leave the words of a text, one space apart. */
  lemma WordsKept(t: Tables, s: seq<Scalar>)
    requires IsWhiteSpace(t, SPACE)
    ensures CollapseAndTrim(t, s) == Spaced(Words(t, s))
  {
    hide IsWhiteSpace;
    hide Collapse;
    hide Words;
    hide Spaced;
    hide SpaceIf;
    hide TrimStart;
    hide TrimEnd;
    CollapseWords(t, s, false);
    WordsAreWords(t, s);
    var words := Words(t, s);
    var body := Spaced(words);
    if words == [] {
      NoWords();
      TrimNothing(s != [] && IsWhiteSpace(t, s[0]));
    } else {
      SpacedEnds(t, words);
      TrimAround(s != [] && IsWhiteSpace(t, s[0]), body, s != [] && IsWhiteSpace(t, s[|s| - 1]) && words != []);
    }
  }

  lemma TrimAround(first: bool, body: seq<Scalar>, last: bool)
    requires body != [] && body[0] != SPACE && body[|body| - 1] != SPACE
    ensures TrimEnd(TrimStart(SpaceIf(first) + body + SpaceIf(last))) == body
  {
    var whole := SpaceIf(first) + body + SpaceIf(last);
    assert TrimStart(whole) == body + SpaceIf(last);
    assert TrimEnd(body + SpaceIf(last)) == body;
  }

  lemma TrimNothing(first: bool)
    ensures TrimEnd(TrimStart(SpaceIf(first) + [] + SpaceIf(false))) == []
  {
  }

  lemma NoWords()
    ensures Spaced([]) == []
  {
  }

  function CodePoints(text: string): (s: seq<Scalar>)
    ensures |s| == |text|
  {
    seq(|text|, i requires 0 <= i < |text| => text[i] as int)
  }

  /** The length that is capped is that of the UTF-8 encoding. */
  lemma {:induction false} LengthInBytes(text: string)
    ensures Utf8Length(CodePoints(text)) == |Utf8.Encode(text)|
  {
    if text != [] {
      LengthInBytes(text[1..]);
      assert CodePoints(text)[1..] == CodePoints(text[1..]);
    }
  }

  /** The whole profile: the cap on the raw bytes, then the normal form, then its words one space apart, of which there is one. */
  lemma NormalizesExactly(t: Tables, passphrase: seq<Scalar>)
    requires IsWhiteSpace(t, SPACE)
    ensures var r := NormalizePassphrase(t, passphrase);
      if Utf8Length(passphrase) > 4096 then r == Err(InputTooLong(Utf8Length(passphrase)))
      else if Nfkc16(t, passphrase).Err? then r == Err(Unnormalizable(Nfkc16(t, passphrase).error.codePoint))
      else if Words(t, Nfkc16(t, passphrase).value) == [] then r == Err(Empty)
      else r == Ok(Spaced(Words(t, Nfkc16(t, passphrase).value)))
  {
    hide Nfkc16;
    hide IsWhiteSpace;
    hide CollapseAndTrim;
    hide Words;
    hide Spaced;
    hide Utf8Length;
    if Nfkc16(t, passphrase).Ok? {
      var y := Nfkc16(t, passphrase).value;
      WordsKept(t, y);
      WordsAreWords(t, y);
      NoWords();
      if Words(t, y) != [] {
        SpacedEnds(t, Words(t, y));
      }
    }
  }
}
