/**
  Running the BIP-173 register over words: bursts of up to six words never go unnoticed, at any
  length, and six words make any message valid in exactly one way.
*/
module Checksum {
  import opened Regroup
  import opened Polymod

  function Bits(w: Word): (b: bv32)
    ensures b < 32
  {
    w as bv32
  }

  function FromBits(b: bv32): Word
    requires b < 32
  {
    b as int
  }

  lemma FiveBits(w: Word)
    ensures (w as bv5) as int == w
  {
  }

  lemma Widened(w: Word)
    ensures Bits(w) == (w as bv5) as bv32
  {
  }

  lemma WidenedValue(b: bv5)
    ensures (b as bv32) < 32 && FromBits(b as bv32) == b as int
  {
  }

  lemma BitsOfWord(w: Word)
    ensures FromBits(Bits(w)) == w
  {
    hide Bits;
    hide FromBits;
    FiveBits(w);
    Widened(w);
    WidenedValue(w as bv5);
  }

  lemma WordOfBits(b: bv32)
    requires b < 32
    ensures Bits(FromBits(b)) == b
  {
  }

  function Feed(state: bv32, w: Word): bv32 {
    Xor(Step(state), Bits(w))
  }

  function Run(state: bv32, words: seq<Word>): bv32
    decreases |words|
  {
    if words == [] then state else Run(Feed(state, words[0]), words[1..])
  }

  lemma {:induction false} RunAppend(state: bv32, x: seq<Word>, y: seq<Word>)
    ensures Run(state, x + y) == Run(Run(state, x), y)
    decreases |x|
  {
    hide Feed;
    if x == [] {
      assert x + y == y;
    } else {
      assert (x + y)[1..] == x[1..] + y;
      RunAppend(Feed(state, x[0]), x[1..], y);
    }
  }

  lemma RunSnoc(state: bv32, words: seq<Word>, w: Word)
    ensures Run(state, words + [w]) == Feed(Run(state, words), w)
  {
    RunAppend(state, words, [w]);
  }

  lemma FeedBound(state: bv32, w: Word)
    ensures Feed(state, w) < LIMIT
  {
    hide Step;
    hide Xor;
    StepBound(state);
    XorBound(Step(state), Bits(w));
  }

  lemma {:induction false} RunBound(state: bv32, words: seq<Word>)
    requires state < LIMIT
    ensures Run(state, words) < LIMIT
    decreases |words|
  {
    hide Feed;
    if words != [] {
      FeedBound(state, words[0]);
      RunBound(Feed(state, words[0]), words[1..]);
    }
  }

  /** Different states stay different while they absorb the same words. */
  lemma {:induction false} RunInjective(s: bv32, t: bv32, words: seq<Word>)
    requires s < LIMIT && t < LIMIT && Run(s, words) == Run(t, words)
    ensures s == t
    decreases |words|
  {
    hide Feed;
    if words != [] {
      FeedBound(s, words[0]);
      FeedBound(t, words[0]);
      RunInjective(Feed(s, words[0]), Feed(t, words[0]), words[1..]);
      FeedInjective(s, t, words[0]);
    }
  }

  lemma FeedInjective(s: bv32, t: bv32, w: Word)
    requires s < LIMIT && t < LIMIT && Feed(s, w) == Feed(t, w)
    ensures s == t
  {
    hide Step;
    hide Xor;
    hide Bits;
    Shuffle(Step(s), Bits(w), Step(t), Bits(w));
    XorZero(Bits(w));
    XorZero(Xor(Step(s), Step(t)));
    XorCancels(Feed(s, w), Feed(t, w));
    XorCancels(Step(s), Step(t));
    StepInjective(s, t);
  }

  // ---------------------------------------------------------------------------
  // Bursts
  // ---------------------------------------------------------------------------

  const BURST: nat := 6

  /** How large a difference may be for the next `n` words to only shift it. */
  function Window(n: nat): bv32
    requires n <= BURST
  {
    match n
    case 0 => 0x4000_0000
    case 1 => 0x200_0000
    case 2 => 0x10_0000
    case 3 => 0x8000
    case 4 => 0x400
    case 5 => 0x20
    case 6 => 1
  }

  predicate Within(x: bv32, n: nat)
    requires n <= BURST
  {
    x < Window(n)
  }

  function Grow(d: bv32, c: bv32): bv32 {
    Xor(d << 5, c)
  }

  lemma GrowWithin(d: bv32, c: bv32, n: nat)
    requires 1 <= n <= BURST && Within(d, n) && c < 32
    ensures Within(Grow(d, c), n - 1) && d < 0x200_0000
    ensures Grow(d, c) == 0 <==> d == 0 && c == 0
  {
    match n
    case 1 =>
    case 2 =>
    case 3 =>
    case 4 =>
    case 5 =>
    case 6 =>
  }

  /** The difference of two registers whose difference was `d`, after `e` on one side and `f` on the other. */
  function Difference(d: bv32, e: seq<Word>, f: seq<Word>): bv32
    requires |e| == |f|
    decreases |e|
  {
    if e == [] then d else Difference(Grow(d, Xor(Bits(e[0]), Bits(f[0]))), e[1..], f[1..])
  }

  lemma WordDifference(w: Word, v: Word)
    ensures Xor(Bits(w), Bits(v)) < 32
    ensures Xor(Bits(w), Bits(v)) == 0 <==> w == v
  {
    hide Xor;
    hide Bits;
    XorSmall(Bits(w), Bits(v));
    XorCancels(Bits(w), Bits(v));
    BitsOfWord(w);
    BitsOfWord(v);
  }

  lemma XorSmall(x: bv32, y: bv32)
    requires x < 32 && y < 32
    ensures Xor(x, y) < 32
  {
  }

  lemma GrowSteps(d: bv32, c: bv32)
    requires d < 0x200_0000
    ensures Grow(d, c) == Xor(Step(d), c)
  {
    hide Step;
    hide Xor;
    StepShifts(d);
  }

  lemma FeedDifference(s: bv32, t: bv32, w: Word, v: Word)
    requires Xor(s, t) < 0x200_0000
    ensures Xor(Feed(s, w), Feed(t, v)) == Grow(Xor(s, t), Xor(Bits(w), Bits(v)))
  {
    hide Step;
    hide Xor;
    hide Bits;
    hide Grow;
    Shuffle(Step(s), Bits(w), Step(t), Bits(v));
    StepLinear(s, t);
    GrowSteps(Xor(s, t), Xor(Bits(w), Bits(v)));
  }

  lemma {:induction false} RunDifference(s: bv32, t: bv32, e: seq<Word>, f: seq<Word>)
    requires |e| == |f| <= BURST && Within(Xor(s, t), |e|)
    ensures Xor(Run(s, e), Run(t, f)) == Difference(Xor(s, t), e, f)
    decreases |e|
  {
    hide Xor;
    hide Grow;
    hide Feed;
    hide Within;
    hide Bits;
    if e != [] {
      WordDifference(e[0], f[0]);
      GrowWithin(Xor(s, t), Xor(Bits(e[0]), Bits(f[0])), |e|);
      FeedDifference(s, t, e[0], f[0]);
      RunDifference(Feed(s, e[0]), Feed(t, f[0]), e[1..], f[1..]);
    }
  }

  lemma {:induction false} DifferenceKernel(d: bv32, e: seq<Word>, f: seq<Word>)
    requires |e| == |f| <= BURST && Within(d, |e|) && Difference(d, e, f) == 0
    ensures d == 0 && e == f
    decreases |e|
  {
    hide Xor;
    hide Grow;
    hide Within;
    hide Bits;
    if e != [] {
      var c := Xor(Bits(e[0]), Bits(f[0]));
      WordDifference(e[0], f[0]);
      GrowWithin(d, c, |e|);
      DifferenceKernel(Grow(d, c), e[1..], f[1..]);
      assert e == [e[0]] + e[1..] && f == [f[0]] + f[1..];
    }
  }

  /**
    Burst detection: two messages that agree outside a window of six words leave the register in
    different states, however long they are and wherever the window is.
  */
  lemma BurstDetected(state: bv32, before: seq<Word>, x: seq<Word>, y: seq<Word>, after: seq<Word>)
    requires state < LIMIT && |x| == |y| <= BURST
    ensures Run(state, before + x + after) == Run(state, before + y + after) <==> x == y
  {
    if Run(state, before + x + after) == Run(state, before + y + after) {
      hide Xor;
      hide Run;
      RunAppend(state, before + x, after);
      RunAppend(state, before + y, after);
      RunAppend(state, before, x);
      RunAppend(state, before, y);
      var s := Run(state, before);
      RunBound(state, before);
      RunBound(s, x);
      RunBound(s, y);
      RunInjective(Run(s, x), Run(s, y), after);
      XorZero(s);
      XorCancels(Run(s, x), Run(s, y));
      RunDifference(s, s, x, y);
      DifferenceKernel(0, x, y);
    }
  }

  // ---------------------------------------------------------------------------
  // The checksum
  // ---------------------------------------------------------------------------

  const VALID: bv32 := 1

  const ZEROS: seq<Word> := [0, 0, 0, 0, 0, 0]

  function Right(x: bv32): bv32 {
    x >> 5
  }

  /** The register shifted right, one word at a time, until word `i` of the checksum is last. */
  function Shifted(chk: bv32, i: nat): bv32
    requires i < BURST
    decreases BURST - i
  {
    if i == 5 then chk else Right(Shifted(chk, i + 1))
  }

  /** The five bits of the register that word `i` of the checksum carries. */
  function Slice(chk: bv32, i: nat): (b: bv32)
    requires i < BURST
    ensures b < 32
  {
    Shifted(chk, i) & 31
  }

  function Group(chk: bv32, i: nat): Word
    requires i < BURST
  {
    FromBits(Slice(chk, i))
  }

  function Groups(chk: bv32): (words: seq<Word>)
    ensures |words| == BURST
  {
    [Group(chk, 0), Group(chk, 1), Group(chk, 2), Group(chk, 3), Group(chk, 4), Group(chk, 5)]
  }

  /** The six words that follow a message whose register is `state`. */
  function CheckWords(state: bv32): (words: seq<Word>)
    ensures |words| == BURST
  {
    Groups(Xor(Run(state, ZEROS), VALID))
  }

  function GrowGroups(chk: bv32, n: nat): bv32
    requires n <= BURST
  {
    if n == 0 then 0 else Grow(GrowGroups(chk, n - 1), Slice(chk, n - 1))
  }

  lemma LastSlice(x: bv32)
    ensures Grow(Right(x), x & 31) == x
  {
  }

  lemma RightWithin(x: bv32, n: nat)
    requires n < BURST && Within(x, n)
    ensures Within(Right(x), n + 1)
  {
    match n
    case 0 =>
    case 1 =>
    case 2 =>
    case 3 =>
    case 4 =>
    case 5 =>
  }

  lemma {:induction false} ShiftedWithin(chk: bv32, i: nat)
    requires i < BURST && Within(chk, 0)
    ensures Within(Shifted(chk, i), 5 - i)
    decreases BURST - i
  {
    hide Within;
    hide Right;
    if i < 5 {
      ShiftedWithin(chk, i + 1);
      RightWithin(Shifted(chk, i + 1), 4 - i);
    }
  }

  lemma WithinEnds(x: bv32)
    ensures Within(x, 0) <==> x < LIMIT
    ensures Within(x, 6) <==> x == 0
  {
  }

  lemma ShiftsCompose(chk: bv32, i: nat)
    requires i < BURST && chk < LIMIT
    ensures Right(Shifted(chk, i)) == if i == 0 then 0 else Shifted(chk, i - 1)
  {
    hide Within;
    hide Right;
    if i == 0 {
      WithinEnds(chk);
      ShiftedWithin(chk, 0);
      RightWithin(Shifted(chk, 0), 5);
      WithinEnds(Right(Shifted(chk, 0)));
    }
  }

  lemma {:induction false} GroupsRejoin(chk: bv32, n: nat)
    requires n < BURST && chk < LIMIT
    ensures GrowGroups(chk, n + 1) == Shifted(chk, n)
  {
    hide Grow;
    hide Right;
    hide Shifted;
    LastSlice(Shifted(chk, n));
    ShiftsCompose(chk, n);
    if n > 0 {
      GroupsRejoin(chk, n - 1);
    } else {
      assert GrowGroups(chk, 0) == 0;
    }
  }

  lemma GroupAt(chk: bv32, i: nat)
    requires i < BURST
    ensures Bits(Groups(chk)[i]) == Slice(chk, i) && Bits(ZEROS[i]) == 0
    ensures Xor(Slice(chk, i), 0) == Slice(chk, i)
  {
    hide Bits;
    hide FromBits;
    hide Slice;
    hide Xor;
    WordOfBits(Slice(chk, i));
    ZeroBits();
    XorZero(Slice(chk, i));
  }

  lemma {:induction false} GroupsDifference(chk: bv32, i: nat)
    requires i <= BURST
    ensures Difference(GrowGroups(chk, i), Groups(chk)[i..], ZEROS[i..]) == GrowGroups(chk, BURST)
    decreases BURST - i
  {
    hide Xor;
    hide Grow;
    hide Bits;
    hide Groups;
    hide Slice;
    if i < BURST {
      GroupAt(chk, i);
      assert Groups(chk)[i..][1..] == Groups(chk)[i + 1..] && ZEROS[i..][1..] == ZEROS[i + 1..];
      GroupsDifference(chk, i + 1);
    }
  }

  lemma ZeroBits()
    ensures Bits(0) == 0
  {
  }

  /** Exactly one choice of the last six words makes a message valid: its checksum. */
  lemma ChecksumExactly(state: bv32, suffix: seq<Word>)
    requires state < LIMIT && |suffix| == BURST
    ensures Run(state, suffix) == VALID <==> suffix == CheckWords(state)
  {
    hide Xor;
    hide Run;
    hide Groups;
    hide Difference;
    hide GrowGroups;
    var check := CheckWords(state);
    var blank := Run(state, ZEROS);
    var chk := Xor(blank, VALID);
    assert Run(state, check) == VALID by {
      RunBound(state, ZEROS);
      XorBound(blank, VALID);
      XorZero(state);
      RunDifference(state, state, check, ZEROS);
      WholeDifference(chk);
      XorSolve(Run(state, check), blank);
    }
    BurstDetected(state, [], suffix, check, []);
    assert [] + suffix + [] == suffix && [] + check + [] == check;
  }

  lemma WholeDifference(chk: bv32)
    requires chk < LIMIT
    ensures Difference(0, Groups(chk), ZEROS) == chk
  {
    hide Difference;
    hide Groups;
    GroupsDifference(chk, 0);
    GroupsRejoin(chk, 5);
    assert Groups(chk)[0..] == Groups(chk) && ZEROS[0..] == ZEROS;
  }

  lemma XorSolve(x: bv32, y: bv32)
    requires Xor(x, y) == Xor(y, VALID)
    ensures x == VALID
  {
  }
}
