/**
  What the register of BIP-173 computes: remainders of polynomials over GF(32), by the generator the
  proposal names.
*/
module Bch {
  import opened Polymod

  /** Multiplication by the root of a^5 + a^3 + 1 in GF(32). */
  function TimesAlpha(x: bv32): bv32 {
    if x & 16 == 0 then x << 1 else Xor(x << 1, 41)
  }

  function TimesAlphas(x: bv32, n: nat): bv32 {
    if n == 0 then x else TimesAlpha(TimesAlphas(x, n - 1))
  }

  /** One term of a product: the factor shifted past one bit of the other. */
  function Term(c: bv32, x: bv32, i: nat): bv32
    requires i < 5
  {
    if Bit(c, i) then TimesAlphas(x, i) else 0
  }

  /** Multiplication in GF(32). */
  function Times(c: bv32, x: bv32): bv32 {
    Xor(Xor(Xor(Xor(Term(c, x, 0), Term(c, x, 1)), Term(c, x, 2)), Term(c, x, 3)), Term(c, x, 4))
  }

  /** The coefficient of x^k in the register read as a polynomial of degree five. */
  function Coefficient(state: bv32, k: nat): bv32
    requires k < 6
  {
    match k
    case 0 => state & 31
    case 1 => (state >> 5) & 31
    case 2 => (state >> 10) & 31
    case 3 => (state >> 15) & 31
    case 4 => (state >> 20) & 31
    case 5 => (state >> 25) & 31
  }

  /** The generator below its leading term: x^6 + 29x^5 + 22x^4 + 20x^3 + 21x^2 + 29x + 18, from x^0 on. */
  const GENERATOR: seq<bv32> := [18, 29, 21, 20, 22, 29]

  lemma StepSum(state: bv32)
    ensures Step(state) ==
      Xor(Xor(Xor(Xor(Xor(Low(state), Pick(Top(state), 0)), Pick(Top(state), 1)), Pick(Top(state), 2)), Pick(Top(state), 3)), Pick(Top(state), 4))
  {
    hide PartialStep;
    hide Xor;
    hide Low;
    hide Pick;
    hide Top;
    PartialStepNext(state, 0);
    PartialStepNext(state, 1);
    PartialStepNext(state, 2);
    PartialStepNext(state, 3);
    PartialStepNext(state, 4);
  }

  lemma PartialStepNext(state: bv32, n: nat)
    requires n < 5
    ensures PartialStep(state, 0) == Low(state)
    ensures PartialStep(state, n + 1) == Xor(PartialStep(state, n), Pick(Top(state), n))
  {
    hide Xor;
    hide Low;
    hide Pick;
    hide Top;
  }

  /** Coefficients add one by one. */
  lemma CoefficientXor(x: bv32, y: bv32, k: nat)
    requires k < 6
    ensures Coefficient(Xor(x, y), k) == Xor(Coefficient(x, k), Coefficient(y, k))
  {
    hide Xor;
    LowerXor(x, y);
    UpperXor(x, y);
  }

  lemma LowerXor(x: bv32, y: bv32)
    ensures Xor(x, y) & 31 == Xor(x & 31, y & 31)
    ensures (Xor(x, y) >> 5) & 31 == Xor((x >> 5) & 31, (y >> 5) & 31)
    ensures (Xor(x, y) >> 10) & 31 == Xor((x >> 10) & 31, (y >> 10) & 31)
  {
  }

  lemma UpperXor(x: bv32, y: bv32)
    ensures (Xor(x, y) >> 15) & 31 == Xor((x >> 15) & 31, (y >> 15) & 31)
    ensures (Xor(x, y) >> 20) & 31 == Xor((x >> 20) & 31, (y >> 20) & 31)
    ensures (Xor(x, y) >> 25) & 31 == Xor((x >> 25) & 31, (y >> 25) & 31)
  {
  }

  /** Shifting the register shifts the coefficients. */
  lemma CoefficientLow(state: bv32, k: nat)
    requires k < 6 && state < LIMIT
    ensures Coefficient(Low(state), k) == if k == 0 then 0 else Coefficient(state, k - 1)
    ensures Coefficient(state, 5) == Top(state)
  {
  }

  /** What one bit feeds back is the generator times a power of the root. */
  lemma GeneratorPowers(i: nat, k: nat)
    requires i < 5 && k < 6
    ensures Coefficient(GENERATORS[i], k) == TimesAlphas(GENERATOR[k], i)
  {
    if k == 0 {
      Powers18(i);
    } else if k == 1 || k == 5 {
      Powers29(i);
    } else if k == 2 {
      Powers21(i);
    } else if k == 3 {
      Powers20(i);
    } else {
      Powers22(i);
    }
  }

  lemma Powers18(i: nat)
    requires i < 5
    ensures TimesAlphas(18, i) == Coefficient(GENERATORS[i], 0)
  {
    AlphaPowers(18);
  }

  lemma Powers29(i: nat)
    requires i < 5
    ensures TimesAlphas(29, i) == Coefficient(GENERATORS[i], 1) == Coefficient(GENERATORS[i], 5)
  {
    AlphaPowers(29);
  }

  lemma Powers21(i: nat)
    requires i < 5
    ensures TimesAlphas(21, i) == Coefficient(GENERATORS[i], 2)
  {
    AlphaPowers(21);
  }

  lemma Powers20(i: nat)
    requires i < 5
    ensures TimesAlphas(20, i) == Coefficient(GENERATORS[i], 3)
  {
    AlphaPowers(20);
  }

  lemma Powers22(i: nat)
    requires i < 5
    ensures TimesAlphas(22, i) == Coefficient(GENERATORS[i], 4)
  {
    AlphaPowers(22);
  }

  lemma AlphaPowers(x: bv32)
    ensures TimesAlphas(x, 0) == x
    ensures TimesAlphas(x, 1) == TimesAlpha(x)
    ensures TimesAlphas(x, 2) == TimesAlpha(TimesAlpha(x))
    ensures TimesAlphas(x, 3) == TimesAlpha(TimesAlpha(TimesAlpha(x)))
    ensures TimesAlphas(x, 4) == TimesAlpha(TimesAlpha(TimesAlpha(TimesAlpha(x))))
  {
    hide TimesAlpha;
    assert TimesAlphas(x, 2) == TimesAlpha(TimesAlphas(x, 1));
    assert TimesAlphas(x, 3) == TimesAlpha(TimesAlphas(x, 2));
  }

  lemma PickTerm(top: bv32, i: nat, k: nat)
    requires i < 5 && k < 6
    ensures Coefficient(Pick(top, i), k) == Term(top, GENERATOR[k], i)
  {
    GeneratorPowers(i, k);
    NoCoefficient(k);
  }

  lemma NoCoefficient(k: nat)
    requires k < 6
    ensures Coefficient(0, k) == 0
  {
  }

  /** One step of the register: multiplication by x modulo the generator. */
  lemma StepModulo(state: bv32, k: nat)
    requires k < 6 && state < LIMIT
    ensures Coefficient(Step(state), k) ==
      Xor(if k == 0 then 0 else Coefficient(state, k - 1), Times(Coefficient(state, 5), GENERATOR[k]))
  {
    hide Xor;
    hide Low;
    hide Pick;
    hide Top;
    hide Term;
    hide Coefficient;
    hide Step;
    var top := Top(state);
    var p0, p1, p2, p3, p4 := Pick(top, 0), Pick(top, 1), Pick(top, 2), Pick(top, 3), Pick(top, 4);
    StepSum(state);
    var s0 := Xor(Low(state), p0);
    var s1 := Xor(s0, p1);
    var s2 := Xor(s1, p2);
    var s3 := Xor(s2, p3);
    CoefficientXor(s3, p4, k);
    CoefficientXor(s2, p3, k);
    CoefficientXor(s1, p2, k);
    CoefficientXor(s0, p1, k);
    CoefficientXor(Low(state), p0, k);
    CoefficientLow(state, k);
    PickTerm(top, 0, k);
    PickTerm(top, 1, k);
    PickTerm(top, 2, k);
    PickTerm(top, 3, k);
    PickTerm(top, 4, k);
    var g := GENERATOR[k];
    Regroup(Coefficient(Low(state), k), Term(top, g, 0), Term(top, g, 1), Term(top, g, 2), Term(top, g, 3), Term(top, g, 4));
  }

  lemma Regroup(a: bv32, b: bv32, c: bv32, d: bv32, e: bv32, f: bv32)
    ensures Xor(Xor(Xor(Xor(Xor(a, b), c), d), e), f) == Xor(a, Xor(Xor(Xor(Xor(b, c), d), e), f))
  {
    hide Xor;
    XorAssociates(a, b, c);
    XorAssociates(a, Xor(b, c), d);
    XorAssociates(a, Xor(Xor(b, c), d), e);
    XorAssociates(a, Xor(Xor(Xor(b, c), d), e), f);
  }
}
