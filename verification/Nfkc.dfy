/**
  NFKC under pinned tables (UAX #15; sections 3.11 and 3.12 of the Unicode Standard): full
  decomposition, canonical reordering in place, canonical composition with the blocking rule.

  The tables are a parameter; what is assumed of them is `WellFormed`.
*/
module Nfkc {
  import opened Common

  /** A Unicode scalar value. */
  type Scalar = c: int | 0 <= c < 0xD800 || 0xE000 <= c < 0x11_0000

  datatype Tables = Tables(
    decomposition: map<Scalar, seq<Scalar>>,
    ccc: map<Scalar, nat>,
    composition: map<(Scalar, Scalar), Scalar>,
    assignedRanges: seq<(nat, nat)>,
    whiteSpaceRanges: seq<(nat, nat)>)

  datatype Error = UnassignedCodePoint(codePoint: Scalar)

  const S_BASE: int := 0xAC00
  const L_BASE: int := 0x1100
  const V_BASE: int := 0x1161
  const T_BASE: int := 0x11A7
  const L_COUNT: int := 19
  const V_COUNT: int := 21
  const T_COUNT: int := 28
  const N_COUNT: int := V_COUNT * T_COUNT
  const S_COUNT: int := L_COUNT * N_COUNT

  predicate InRanges(ranges: seq<(nat, nat)>, cp: Scalar) {
    exists i :: 0 <= i < |ranges| && ranges[i].0 <= cp <= ranges[i].1
  }

  predicate IsAssigned(t: Tables, cp: Scalar) {
    InRanges(t.assignedRanges, cp)
  }

  predicate IsWhiteSpace(t: Tables, cp: Scalar) {
    InRanges(t.whiteSpaceRanges, cp)
  }

  function Ccc(t: Tables, cp: Scalar): nat {
    if cp in t.ccc then t.ccc[cp] else 0
  }

  predicate IsHangul(cp: Scalar) {
    S_BASE <= cp < S_BASE + S_COUNT
  }

  predicate IsL(cp: Scalar) {
    L_BASE <= cp < L_BASE + L_COUNT
  }

  predicate IsV(cp: Scalar) {
    V_BASE <= cp < V_BASE + V_COUNT
  }

  /** A trailing consonant; the base itself stands for none. */
  predicate IsT(cp: Scalar) {
    T_BASE + 1 <= cp < T_BASE + T_COUNT
  }

  // ---------------------------------------------------------------------------
  // Decomposition
  // ---------------------------------------------------------------------------

  function DecomposeHangul(cp: Scalar): seq<Scalar>
    requires IsHangul(cp)
  {
    var s := cp - S_BASE;
    [L_BASE + s / N_COUNT, V_BASE + (s % N_COUNT) / T_COUNT]
    + if s % T_COUNT != 0 then [T_BASE + s % T_COUNT] else []
  }

  /** The full decomposition of one code point. */
  function D(t: Tables, cp: Scalar): seq<Scalar> {
    if IsHangul(cp) then DecomposeHangul(cp)
    else if cp in t.decomposition then t.decomposition[cp]
    else [cp]
  }

  function Decomposition(t: Tables, xs: seq<Scalar>): seq<Scalar> {
    if xs == [] then [] else D(t, xs[0]) + Decomposition(t, xs[1..])
  }

  lemma {:induction false} DecompositionAppend(t: Tables, xs: seq<Scalar>, ys: seq<Scalar>)
    ensures Decomposition(t, xs + ys) == Decomposition(t, xs) + Decomposition(t, ys)
  {
    if xs == [] {
      assert xs + ys == ys;
    } else {
      DecompositionAppend(t, xs[1..], ys);
      assert (xs + ys)[1..] == xs[1..] + ys;
      AppendAssociative(D(t, xs[0]), Decomposition(t, xs[1..]), Decomposition(t, ys));
    }
  }

  lemma DecompositionSnoc(t: Tables, xs: seq<Scalar>, cp: Scalar)
    ensures Decomposition(t, xs + [cp]) == Decomposition(t, xs) + D(t, cp)
  {
    DecompositionAppend(t, xs, [cp]);
    assert Decomposition(t, [cp]) == D(t, cp) + Decomposition(t, []);
  }

  lemma NothingDecomposed(t: Tables)
    ensures Decomposition(t, []) == []
  {
  }

  method Decompose(t: Tables, codePoints: seq<Scalar>) returns (out: seq<Scalar>)
    ensures out == Decomposition(t, codePoints)
  {
    hide Decomposition;
    out := [];
    NothingDecomposed(t);
    for i := 0 to |codePoints|
      invariant out == Decomposition(t, codePoints[..i])
    {
      var cp := codePoints[i];
      DecompositionSnoc(t, codePoints[..i], cp);
      assert codePoints[..i + 1] == codePoints[..i] + [cp];
      if IsHangul(cp) {
        var s := cp - S_BASE;
        out := out + [L_BASE + s / N_COUNT];
        out := out + [V_BASE + (s % N_COUNT) / T_COUNT];
        var trailing := s % T_COUNT;
        if trailing != 0 {
          out := out + [T_BASE + trailing];
        }
      } else if cp in t.decomposition {
        out := out + t.decomposition[cp];
      } else {
        out := out + [cp];
      }
    }
    assert codePoints[..|codePoints|] == codePoints;
  }

  // ---------------------------------------------------------------------------
  // Canonical ordering
  // ---------------------------------------------------------------------------

  /** Put `cp` at the end, then in front of every mark of a greater class. A starter stays put. */
  function Insert(t: Tables, s: seq<Scalar>, cp: Scalar): (r: seq<Scalar>)
    ensures |r| == |s| + 1
  {
    var n := |s|;
    if Ccc(t, cp) == 0 || n == 0 || Ccc(t, s[n - 1]) <= Ccc(t, cp) then s + [cp]
    else Insert(t, s[..n - 1], cp) + [s[n - 1]]
  }

  function Reorder(t: Tables, xs: seq<Scalar>): (r: seq<Scalar>)
    ensures |r| == |xs|
  {
    if xs == [] then [] else Insert(t, Reorder(t, xs[..|xs| - 1]), xs[|xs| - 1])
  }

  /** Everything from place `j` on is greater: only the front is left to insert into. */
  ghost predicate InsertsBefore(t: Tables, s: seq<Scalar>, cp: Scalar, j: nat)
    requires j <= |s|
  {
    Insert(t, s, cp) == Insert(t, s[..j], cp) + s[j..]
  }

  lemma InsertStarts(t: Tables, s: seq<Scalar>, cp: Scalar)
    ensures InsertsBefore(t, s, cp, |s|)
  {
    assert s[..|s|] == s;
  }

  lemma InsertPast(t: Tables, s: seq<Scalar>, cp: Scalar, j: nat)
    requires 0 < j <= |s| && InsertsBefore(t, s, cp, j) && 0 < Ccc(t, cp) < Ccc(t, s[j - 1])
    ensures InsertsBefore(t, s, cp, j - 1)
  {
    assert s[..j][..j - 1] == s[..j - 1];
    SplitAt(s, j - 1);
  }

  /** Nothing in front of place `j` has a greater class, or the element is a starter: it goes there. */
  lemma InsertEnds(t: Tables, s: seq<Scalar>, cp: Scalar, j: nat)
    requires j <= |s| && InsertsBefore(t, s, cp, j)
    requires Ccc(t, cp) == 0 || j == 0 || Ccc(t, s[j - 1]) <= Ccc(t, cp)
    ensures s[..j] + [cp] + s[j..] == Insert(t, s, cp)
  {
  }

  /** The elements from `j` up to `i` moved one place right, over the one at `i`. */
  function Opened(was: seq<Scalar>, j: nat, i: nat, hole: Scalar): (r: seq<Scalar>)
    requires j <= i < |was|
    ensures |r| == |was|
  {
    was[..j] + [hole] + was[j..i] + was[i + 1..]
  }

  lemma OpenedAt(was: seq<Scalar>, j: nat, i: nat, hole: Scalar)
    requires j <= i < |was|
    ensures Opened(was, j, i, hole)[j] == hole && (j > 0 ==> Opened(was, j, i, hole)[j - 1] == was[j - 1])
    ensures Opened(was, j, i, hole)[..i + 1] == was[..i][..j] + [hole] + was[..i][j..]
    ensures Opened(was, j, i, hole)[i + 1..] == was[i + 1..]
  {
  }

  lemma OpenedMoves(was: seq<Scalar>, j: nat, i: nat, hole: Scalar, x: Scalar)
    requires j <= i < |was|
    ensures Opened(was, j, i, hole)[j := x] == Opened(was, j, i, x)
    ensures j > 0 ==> Opened(was, j, i, was[j - 1]) == Opened(was, j - 1, i, was[j - 1])
  {
    if j > 0 {
      SplitAt(was[..i], j - 1);
      assert was[..i][j - 1..] == was[j - 1..i] && was[..i][j..] == was[j..i];
      assert was[..j] == was[..j - 1] + [was[j - 1]];
    }
  }

  lemma OpenedHere(was: seq<Scalar>, i: nat)
    requires i < |was|
    ensures Opened(was, i, i, was[i]) == was
  {
    SplitAt(was, i);
  }

  lemma Slices(a: array<Scalar>, i: nat)
    requires i < a.Length
    ensures a[..][..i] == a[..i] && a[..][..i + 1] == a[..i + 1] && a[..][i + 1..] == a[i + 1..]
  {
  }

  /** Shift greater marks one place right until the element at `i` fits. */
  method InsertInPlace(t: Tables, a: array<Scalar>, i: nat)
    requires i < a.Length
    modifies a
    ensures a[..i + 1] == Insert(t, old(a[..i]), old(a[i]))
    ensures a[i + 1..] == old(a[i + 1..])
  {
    hide Ccc;
    hide Insert;
    hide InsertsBefore;
    hide Opened;
    var cp := a[i];
    var combining := Ccc(t, cp);
    ghost var was := a[..];
    ghost var prefix := was[..i];
    Slices(a, i);
    InsertStarts(t, prefix, cp);
    OpenedHere(was, i);
    if combining == 0 {
      InsertEnds(t, prefix, cp, i);
      OpenedAt(was, i, i, cp);
      return;
    }
    var j := i;
    while j > 0 && Ccc(t, a[j - 1]) > combining
      invariant 0 <= j <= i
      invariant a[..] == Opened(was, j, i, was[j])
      invariant InsertsBefore(t, prefix, cp, j)
    {
      ghost var now := a[..];
      OpenedAt(was, j, i, was[j]);
      assert a[j - 1] == now[j - 1];
      InsertPast(t, prefix, cp, j);
      OpenedMoves(was, j, i, was[j], was[j - 1]);
      a[j] := a[j - 1];
      assert a[..] == now[j := was[j - 1]];
      j := j - 1;
    }
    ghost var now := a[..];
    OpenedAt(was, j, i, was[j]);
    assert j > 0 ==> a[j - 1] == now[j - 1];
    InsertEnds(t, prefix, cp, j);
    OpenedMoves(was, j, i, was[j], cp);
    OpenedAt(was, j, i, cp);
    a[j] := cp;
    assert a[..] == now[j := cp];
    Slices(a, i);
  }

  /** The stable insertion sort, in place. */
  method CanonicalReorder(t: Tables, a: array<Scalar>)
    modifies a
    ensures a[..] == Reorder(t, old(a[..]))
  {
    ghost var was := a[..];
    if a.Length == 0 {
      return;
    }
    assert was[..1][..0] == [] && was[..1] == [was[0]];
    for i := 1 to a.Length
      invariant a[..i] == Reorder(t, was[..i])
      invariant a[i..] == was[i..]
    {
      assert a[i] == was[i] && a[i + 1..] == was[i + 1..];
      assert was[..i + 1][..i] == was[..i];
      InsertInPlace(t, a, i);
    }
    assert a[..] == a[..a.Length] && was[..a.Length] == was;
  }

  // ---------------------------------------------------------------------------
  // Composition
  // ---------------------------------------------------------------------------

  function ComposePair(t: Tables, a: Scalar, b: Scalar): Option<Scalar> {
    if IsL(a) && IsV(b) then Some(S_BASE + ((a - L_BASE) * V_COUNT + (b - V_BASE)) * T_COUNT)
    else if IsHangul(a) && (a - S_BASE) % T_COUNT == 0 && IsT(b) then Some(a + (b - T_BASE))
    else if (a, b) in t.composition then Some(t.composition[(a, b)])
    else None
  }

  /** The composition loop's variables. */
  datatype State = State(out: seq<Scalar>, starter: Option<nat>, lastCcc: nat) {
    ghost predicate Valid() {
      starter.Some? ==> starter.value < |out|
    }
  }

  function Push(t: Tables, s: State, cp: Scalar): State {
    State(s.out + [cp], if Ccc(t, cp) == 0 then Some(|s.out|) else s.starter, Ccc(t, cp))
  }

  /** Whether `cp` may meet the last starter: next to it, or past marks of lower class only. */
  predicate Reaches(t: Tables, s: State, cp: Scalar) {
    s.starter.Some? && (s.starter.value == |s.out| - 1 || s.lastCcc < Ccc(t, cp))
  }

  function Step(t: Tables, s: State, cp: Scalar): (r: State)
    requires s.Valid()
    ensures r.Valid()
  {
    if Reaches(t, s, cp) && ComposePair(t, s.out[s.starter.value], cp).Some? then
      s.(out := s.out[s.starter.value := ComposePair(t, s.out[s.starter.value], cp).value])
    else Push(t, s, cp)
  }

  function Run(t: Tables, s: State, xs: seq<Scalar>): (r: State)
    requires s.Valid()
    ensures r.Valid()
    decreases |xs|
  {
    if xs == [] then s else Run(t, Step(t, s, xs[0]), xs[1..])
  }

  const START: State := State([], None, 0)

  function Composition(t: Tables, xs: seq<Scalar>): seq<Scalar> {
    Run(t, START, xs).out
  }

  lemma {:induction false} RunAppend(t: Tables, s: State, xs: seq<Scalar>, ys: seq<Scalar>)
    requires s.Valid()
    ensures Run(t, s, xs + ys) == Run(t, Run(t, s, xs), ys)
    decreases |xs|
  {
    if xs == [] {
      assert xs + ys == ys;
    } else {
      RunAppend(t, Step(t, s, xs[0]), xs[1..], ys);
      assert (xs + ys)[1..] == xs[1..] + ys;
    }
  }

  lemma RunSnoc(t: Tables, s: State, xs: seq<Scalar>, cp: Scalar)
    requires s.Valid()
    ensures Run(t, s, xs + [cp]) == Step(t, Run(t, s, xs), cp)
  {
    RunAppend(t, s, xs, [cp]);
    assert Run(t, Step(t, Run(t, s, xs), cp), []) == Run(t, Run(t, s, xs), [cp]);
  }

  method Compose(t: Tables, codePoints: seq<Scalar>) returns (out: seq<Scalar>)
    ensures out == Composition(t, codePoints)
  {
    out := [];
    var starterIdx: Option<nat> := None;
    var lastCcc: nat := 0;
    for i := 0 to |codePoints|
      invariant Run(t, START, codePoints[..i]) == State(out, starterIdx, lastCcc)
    {
      var cp := codePoints[i];
      RunSnoc(t, START, codePoints[..i], cp);
      assert codePoints[..i + 1] == codePoints[..i] + [cp];
      ghost var s := State(out, starterIdx, lastCcc);
      assert s.Valid();
      var combining := Ccc(t, cp);
      if starterIdx.Some? && (starterIdx.value == |out| - 1 || lastCcc < combining) {
        var composed := ComposePair(t, out[starterIdx.value], cp);
        if composed.Some? {
          out := out[starterIdx.value := composed.value];
          continue;
        }
      }
      out := out + [cp];
      lastCcc := combining;
      if combining == 0 {
        starterIdx := Some(|out| - 1);
      }
    }
    assert codePoints[..|codePoints|] == codePoints;
  }

  // ---------------------------------------------------------------------------
  // Normalization
  // ---------------------------------------------------------------------------

  /** The first unassigned code point, if any. */
  function FirstUnassigned(t: Tables, xs: seq<Scalar>): Option<Scalar> {
    if xs == [] then None
    else if !IsAssigned(t, xs[0]) then Some(xs[0])
    else FirstUnassigned(t, xs[1..])
  }

  function Normalize(t: Tables, xs: seq<Scalar>): seq<Scalar> {
    Composition(t, Reorder(t, Decomposition(t, xs)))
  }

  function Nfkc16(t: Tables, input: seq<Scalar>): Result<seq<Scalar>, Error> {
    match FirstUnassigned(t, input)
    case Some(cp) => Err(UnassignedCodePoint(cp))
    case None => Ok(Normalize(t, input))
  }

  method RunNfkc16(t: Tables, input: seq<Scalar>) returns (r: Result<seq<Scalar>, Error>)
    ensures r == Nfkc16(t, input)
  {
    for i := 0 to |input|
      invariant FirstUnassigned(t, input) == FirstUnassigned(t, input[i..])
    {
      if !IsAssigned(t, input[i]) {
        return Err(UnassignedCodePoint(input[i]));
      }
      assert input[i..][1..] == input[i + 1..];
    }
    var decomposed := Decompose(t, input);
    var a := new Scalar[|decomposed|](i requires 0 <= i < |decomposed| => decomposed[i]);
    assert a[..] == decomposed;
    CanonicalReorder(t, a);
    var composed := Compose(t, a[..]);
    return Ok(composed);
  }
}
