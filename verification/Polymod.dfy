/**
  The checksum register of BIP-173: a 30-bit linear feedback shift register over GF(2).

  Sums of register states are written `Xor`, so that the algebra below can be done by
  equational reasoning and only a few facts are about individual bits.
*/
module Polymod {
  const GENERATORS: seq<bv32> := [0x3b6a_57b2, 0x2650_8e6d, 0x1ea1_19fa, 0x3d42_33dd, 0x2a14_62b3]

  /** One more than the largest register state. */
  const LIMIT: bv32 := 0x4000_0000

  function Xor(a: bv32, b: bv32): bv32 {
    a ^ b
  }

  /** The register shifted by one word, its top word dropped. */
  function Low(pre: bv32): bv32 {
    (pre & 0x01ff_ffff) << 5
  }

  /** The word shifted out of the register. */
  function Top(pre: bv32): bv32 {
    pre >> 25
  }

  predicate Bit(b: bv32, i: nat)
    requires i < 5
  {
    (b >> i) & 1 == 1
  }

  /** What bit `i` of the word shifted out feeds back. */
  function Pick(top: bv32, i: nat): bv32
    requires i < 5
  {
    if Bit(top, i) then GENERATORS[i] else 0
  }

  function PartialStep(pre: bv32, n: nat): bv32
    requires n <= 5
  {
    if n == 0 then Low(pre) else Xor(PartialStep(pre, n - 1), Pick(Top(pre), n - 1))
  }

  function Step(pre: bv32): bv32 {
    PartialStep(pre, 5)
  }

  method PolymodStep(pre: bv32) returns (chk: bv32)
    ensures chk == Step(pre)
  {
    var b := Top(pre);
    chk := Low(pre);
    for i := 0 to 5
      invariant chk == PartialStep(pre, i)
    {
      if Bit(b, i) {
        chk := Xor(chk, GENERATORS[i]);
      } else {
        XorZero(chk);
      }
    }
  }

  // ---------------------------------------------------------------------------
  // The group of register states
  // ---------------------------------------------------------------------------

  lemma XorAssociates(x: bv32, y: bv32, z: bv32)
    ensures Xor(Xor(x, y), z) == Xor(x, Xor(y, z))
  {
  }

  lemma XorCommutes(x: bv32, y: bv32)
    ensures Xor(x, y) == Xor(y, x)
  {
  }

  lemma XorZero(x: bv32)
    ensures Xor(x, x) == 0 && Xor(x, 0) == x && Xor(0, x) == x
  {
  }

  lemma XorCancels(x: bv32, y: bv32)
    ensures Xor(x, y) == 0 <==> x == y
  {
    hide Xor;
    XorAssociates(x, x, y);
    XorZero(x);
    XorZero(y);
  }

  lemma XorBound(x: bv32, y: bv32)
    requires x < LIMIT && y < LIMIT
    ensures Xor(x, y) < LIMIT
  {
  }

  lemma Shuffle(x: bv32, y: bv32, p: bv32, q: bv32)
    ensures Xor(Xor(x, y), Xor(p, q)) == Xor(Xor(x, p), Xor(y, q))
  {
    hide Xor;
    XorAssociates(x, y, Xor(p, q));
    XorAssociates(y, p, q);
    XorCommutes(y, p);
    XorAssociates(p, y, q);
    XorAssociates(x, p, Xor(y, q));
  }

  // ---------------------------------------------------------------------------
  // The step is linear, bounded and injective
  // ---------------------------------------------------------------------------

  lemma BitLinear(a: bv32, b: bv32, i: nat)
    requires i < 5
    ensures Bit(Xor(a, b), i) == (Bit(a, i) != Bit(b, i))
  {
    match i
    case 0 =>
    case 1 =>
    case 2 =>
    case 3 =>
    case 4 =>
  }

  lemma PickLinear(a: bv32, b: bv32, i: nat)
    requires i < 5
    ensures Pick(Xor(a, b), i) == Xor(Pick(a, i), Pick(b, i))
  {
    hide Xor;
    hide Bit;
    BitLinear(a, b, i);
    XorZero(GENERATORS[i]);
    XorZero(0);
  }

  lemma ShiftLinear(a: bv32, b: bv32)
    ensures Low(Xor(a, b)) == Xor(Low(a), Low(b))
    ensures Top(Xor(a, b)) == Xor(Top(a), Top(b))
  {
  }

  lemma {:induction false} PartialLinear(a: bv32, b: bv32, n: nat)
    requires n <= 5
    ensures PartialStep(Xor(a, b), n) == Xor(PartialStep(a, n), PartialStep(b, n))
  {
    hide Xor;
    hide Low;
    hide Top;
    hide Pick;
    ShiftLinear(a, b);
    if n > 0 {
      PartialLinear(a, b, n - 1);
      PickLinear(Top(a), Top(b), n - 1);
      Shuffle(PartialStep(a, n - 1), PartialStep(b, n - 1), Pick(Top(a), n - 1), Pick(Top(b), n - 1));
    }
  }

  /** The step is a linear map over GF(2). */
  lemma StepLinear(a: bv32, b: bv32)
    ensures Step(Xor(a, b)) == Xor(Step(a), Step(b))
  {
    PartialLinear(a, b, 5);
  }

  /** Everything the word shifted out feeds back. */
  function Feedback(top: bv32): bv32 {
    Xor(Xor(Xor(Xor(Pick(top, 0), Pick(top, 1)), Pick(top, 2)), Pick(top, 3)), Pick(top, 4))
  }

  lemma StepParts(pre: bv32)
    ensures Step(pre) == Xor(Low(pre), Feedback(Top(pre)))
  {
    hide Xor;
    hide Low;
    hide Top;
    hide Pick;
    var b := Top(pre);
    assert PartialStep(pre, 1) == Xor(Low(pre), Pick(b, 0));
    assert PartialStep(pre, 2) == Xor(PartialStep(pre, 1), Pick(b, 1));
    assert PartialStep(pre, 3) == Xor(PartialStep(pre, 2), Pick(b, 2));
    assert PartialStep(pre, 4) == Xor(PartialStep(pre, 3), Pick(b, 3));
    var x := Pick(b, 0);
    XorAssociates(Low(pre), x, Pick(b, 1));
    x := Xor(x, Pick(b, 1));
    XorAssociates(Low(pre), x, Pick(b, 2));
    x := Xor(x, Pick(b, 2));
    XorAssociates(Low(pre), x, Pick(b, 3));
    x := Xor(x, Pick(b, 3));
    XorAssociates(Low(pre), x, Pick(b, 4));
  }

  lemma LowBits(pre: bv32)
    ensures Low(pre) & 31 == 0 && Low(pre) < LIMIT
    ensures pre < LIMIT ==> Top(pre) < 32
    ensures pre < LIMIT && Top(pre) == 0 && Low(pre) == 0 ==> pre == 0
    ensures pre < 0x0200_0000 ==> Top(pre) == 0 && Low(pre) == pre << 5
  {
  }

  /** The feedback already differs from zero in its last word, unless nothing was shifted out. */
  lemma FeedbackKernel(top: bv32)
    requires top < 32 && Feedback(top) & 31 == 0
    ensures top == 0
  {
  }

  lemma FeedbackZero()
    ensures Feedback(0) == 0
  {
    assert forall i :: 0 <= i < 5 ==> !Bit(0, i);
  }

  lemma FeedbackBound(top: bv32)
    ensures Feedback(top) < LIMIT
  {
    hide Xor;
    assert forall i :: 0 <= i < 5 ==> Pick(top, i) < LIMIT;
    var x := Xor(Pick(top, 0), Pick(top, 1));
    XorBound(Pick(top, 0), Pick(top, 1));
    XorBound(x, Pick(top, 2));
    x := Xor(x, Pick(top, 2));
    XorBound(x, Pick(top, 3));
    XorBound(Xor(x, Pick(top, 3)), Pick(top, 4));
  }

  lemma StepBound(pre: bv32)
    ensures Step(pre) < LIMIT
  {
    hide Xor;
    hide Feedback;
    hide Step;
    StepParts(pre);
    LowBits(pre);
    FeedbackBound(Top(pre));
    XorBound(Low(pre), Feedback(Top(pre)));
  }

  /** Only the zero state steps to zero. */
  lemma StepKernel(pre: bv32)
    requires pre < LIMIT && Step(pre) == 0
    ensures pre == 0
  {
    hide Xor;
    hide Feedback;
    hide Step;
    StepParts(pre);
    XorCancels(Low(pre), Feedback(Top(pre)));
    LowBits(pre);
    FeedbackKernel(Top(pre));
    FeedbackZero();
  }

  /** While the top word is empty, a step is a plain shift. */
  lemma StepShifts(pre: bv32)
    requires pre < 0x0200_0000
    ensures Step(pre) == pre << 5
  {
    hide Xor;
    hide Feedback;
    hide Step;
    StepParts(pre);
    LowBits(pre);
    FeedbackZero();
    XorZero(Low(pre));
  }

  /** The step is injective on 30-bit states. */
  lemma StepInjective(a: bv32, b: bv32)
    requires a < LIMIT && b < LIMIT && Step(a) == Step(b)
    ensures a == b
  {
    hide Xor;
    hide Step;
    StepLinear(a, b);
    XorCancels(Step(a), Step(b));
    XorBound(a, b);
    StepKernel(Xor(a, b));
    XorCancels(a, b);
  }
}
