/** Regrouping a bit string between octets and five-bit words, most significant bit first. */
module Regroup {
  import opened Common
  import opened Radix

  /** A five-bit group. */
  type Word = x: int | 0 <= x < 32

  /** How many words carry `n` octets: the bits are rounded up to a whole word. */
  function WordCount(n: nat): nat {
    (8 * n + 4) / 5
  }

  /** Zero bits appended to fill the last word. */
  function Padding(n: nat): (pad: nat)
    ensures pad < 5
  {
    5 * WordCount(n) - 8 * n
  }

  /** The number the words of a byte string denote: its own, shifted past the padding. */
  function Shifted(bytes: Bytes): nat {
    ShiftLeft(Value(256, bytes), Padding(|bytes|))
  }

  function ShiftLeft(v: nat, bits: nat): nat {
    v * Pow(2, bits)
  }

  /** The words of a byte string: its number, shifted past the padding, in base 32. */
  function ToWords(bytes: Bytes): (words: seq<Word>)
    ensures |words| == WordCount(|bytes|)
  {
    Fixed(32, WordCount(|bytes|), Shifted(bytes))
  }

  /** The bytes of a word string; leftover bits must be fewer than five and all zero. */
  function ToBytes(words: seq<Word>): Option<Bytes> {
    var rest := 5 * |words| % 8;
    PowPositive(2, rest);
    if rest < 5 && Value(32, words) % Pow(2, rest) == 0
    then Some(Fixed(256, 5 * |words| / 8, Value(32, words) / Pow(2, rest)))
    else None
  }

  lemma BytesAsPow(bytes: Bytes)
    ensures Value(256, bytes) < Pow(2, 8 * |bytes|)
  {
    ValueBound(256, bytes);
    PowPow(2, 8, |bytes|);
    Powers();
  }

  lemma WordsAsPow(words: seq<Word>)
    ensures Value(32, words) < Pow(2, 5 * |words|)
  {
    ValueBound(32, words);
    PowPow(2, 5, |words|);
    Powers();
  }

  lemma Powers()
    ensures Pow(2, 5) == 32 && Pow(2, 8) == 256
  {
    PowAdd(2, 4, 4);
  }

  /** Number and length pin the words of a byte string down. */
  lemma WordsExactly(bytes: Bytes, words: seq<Word>)
    requires |words| == WordCount(|bytes|)
    requires Value(32, words) == Shifted(bytes)
    ensures words == ToWords(bytes)
  {
    FixedUnique(32, words, Value(32, words));
  }

  lemma WordsValue(bytes: Bytes)
    ensures Value(32, ToWords(bytes)) == Shifted(bytes)
  {
    var n := |bytes|;
    var pad: nat := Padding(n);
    BytesAsPow(bytes);
    ShiftedFits(Value(256, bytes), 8 * n, pad);
    FixedWords(WordCount(n), 8 * n + pad, Shifted(bytes));
  }

  lemma FixedWords(k: nat, e: nat, m: nat)
    requires e == 5 * k && m < Pow(2, e)
    ensures Value(32, Fixed(32, k, m)) == m
  {
    PowPow(2, 5, k);
    Powers();
    FixedValue(32, k, m);
  }

  lemma ShiftedFits(v: nat, e: nat, pad: nat)
    requires v < Pow(2, e)
    ensures ShiftLeft(v, pad) < Pow(2, e + pad)
  {
    hide Pow;
    PowAdd(2, e, pad);
    PowPositive(2, pad);
    ScaledLess(v, Pow(2, e), Pow(2, pad));
  }

  lemma ScaledLess(a: nat, b: nat, c: nat)
    requires a < b && c > 0
    ensures a * c < b * c
  {
    assert b * c == a * c + (b - a) * c;
    MulAtLeast(c, b - a);
  }

  lemma MultipleDivides(x: nat, p: nat)
    requires p > 0
    ensures x * p % p == 0 && x * p / p == x
  {
    DivOfSum(p, x, 0);
  }

  /** Any byte string comes back from its words. */
  lemma BytesToWordsToBytes(bytes: Bytes)
    ensures ToBytes(ToWords(bytes)) == Some(bytes)
  {
    var n := |bytes|;
    var pad: nat := Padding(n);
    var words := ToWords(bytes);
    assert 5 * |words| == 8 * n + pad;
    assert 5 * |words| % 8 == pad && 5 * |words| / 8 == n;
    WordsValue(bytes);
    PowPositive(2, pad);
    MultipleDivides(Value(256, bytes), Pow(2, pad));
    FixedUnique(256, bytes, Value(256, bytes));
  }

  /** A word string that yields bytes at all is the word string of those bytes. */
  lemma WordsToBytesToWords(words: seq<Word>)
    requires ToBytes(words).Some?
    ensures ToWords(ToBytes(words).value) == words
  {
    hide Value;
    hide Pow;
    hide ToWords;
    hide WordCount;
    hide Padding;
    hide Fixed;
    var n, rest, v := 5 * |words| / 8, 5 * |words| % 8, Value(32, words);
    PowPositive(2, rest);
    var q := v / Pow(2, rest);
    Quotient(v, Pow(2, rest));
    QuotientFits(words);
    FixedValue(256, n, q);
    FewerThanFive(n, |words|, rest);
    WordsExactly(ToBytes(words).value, words);
  }

  lemma Quotient(v: nat, p: nat)
    requires p > 0 && v % p == 0
    ensures v == v / p * p
  {
  }

  lemma FewerThanFive(n: nat, k: nat, rest: nat)
    requires rest < 5 && 5 * k == 8 * n + rest
    ensures WordCount(n) == k && Padding(n) == rest
  {
  }

  lemma QuotientFits(words: seq<Word>)
    ensures Pow(2, 5 * |words| % 8) > 0
    ensures Value(32, words) / Pow(2, 5 * |words| % 8) < Pow(256, 5 * |words| / 8)
  {
    hide Value;
    hide Pow;
    var n, rest := 5 * |words| / 8, 5 * |words| % 8;
    PowPositive(2, rest);
    WordsAsPow(words);
    PowAdd(2, rest, 8 * n);
    DivLess(Value(32, words), Pow(2, rest), Pow(2, 8 * n));
    PowPow(2, 8, n);
    Powers();
  }

  /**
   * The shape of every regrouping loop: what has been read is the digits already emitted,
   * followed by the part of the accumulator below `unit`.
   */
  ghost predicate Carrying(read: nat, emitted: nat, carry: nat, unit: nat) {
    unit > 0 && read == emitted * unit + carry % unit
  }

  /** New bits enter below the accumulator. */
  lemma Absorb(read: nat, emitted: nat, carry: nat, unit: nat, base: nat, d: nat, wider: nat)
    requires Carrying(read, emitted, carry, unit) && d < base && wider == unit * base
    ensures Carrying(read * base + d, emitted, carry * base + d, wider)
  {
    ModAbsorb(carry, unit, base, d);
    Distribute(emitted, unit, base, carry % unit);
  }

  lemma ModAbsorb(carry: nat, p: nat, b: nat, d: nat)
    requires p > 0 && d < b
    ensures p * b > 0
    ensures (carry * b + d) % (p * b) == carry % p * b + d
  {
    var q, r := carry / p, carry % p;
    MulLess(r, p, b, d);
    assert b * p == p * b;
    assert carry * b == p * b * q + r * b by {
      assert carry == p * q + r;
      Distribute(q, p, b, r);
      assert q * p == p * q && p * b * q == q * (p * b);
    }
    var x := carry * b + d;
    DivModUnique(p * b, x / (p * b), x % (p * b), q, r * b + d);
  }

  lemma Distribute(w: nat, p: nat, b: nat, r: nat)
    ensures (w * p + r) * b == w * (p * b) + r * b
  {
    MulAssoc(w, p, b);
  }

  /** One digit leaves the accumulator. */
  lemma Emit(read: nat, emitted: nat, carry: nat, unit: nat, base: nat, wider: nat)
    requires Carrying(read, emitted, carry, wider) && unit > 0 && base > 0 && wider == unit * base
    ensures Carrying(read, emitted * base + carry / unit % base, carry, unit)
  {
    ModSplit(carry, unit, base);
    Distribute(emitted, base, unit, carry / unit % base);
    assert unit * base == base * unit;
  }

  lemma Nested(p: nat, base: nat, d: nat, e: nat, r: nat)
    ensures p * (base * d + e) + r == (p * base) * d + (e * p + r)
  {
    assert p * (base * d + e) == p * (base * d) + p * e;
    MulAssoc(p, base, d);
  }

  lemma ModSplit(c: nat, p: nat, base: nat)
    requires p > 0 && base > 0
    ensures p * base > 0
    ensures c % (p * base) == c / p % base * p + c % p
  {
    DivMod(c, p);
    DivMod(c / p, base);
    ModParts(c, p, base, c / p / base, c / p % base, c % p);
  }

  lemma DivMod(c: nat, p: nat)
    requires p > 0
    ensures c == p * (c / p) + c % p && c % p < p
  {
  }

  lemma ModParts(c: nat, p: nat, base: nat, d: nat, e: nat, r: nat)
    requires c == p * (base * d + e) + r && r < p && e < base
    ensures p * base > 0 && c % (p * base) == e * p + r
  {
    ScaledLess(0, p, base);
    MulLess(e, base, p, r);
    Nested(p, base, d, e, r);
    DivMod(c, p * base);
    DivModUnique(p * base, c / (p * base), c % (p * base), d, e * p + r);
  }

  /** The accumulator may drop its part at or above any multiple of the unit. */
  lemma Mask(read: nat, emitted: nat, carry: nat, unit: nat, factor: nat, keep: nat)
    requires Carrying(read, emitted, carry, unit) && factor > 0 && keep == unit * factor
    ensures keep > 0 && Carrying(read, emitted, carry % keep, unit)
  {
    ModSplit(carry, unit, factor);
    DivOfSum(unit, carry / unit % factor, carry % unit);
  }

  /** A digit of `width` bits is read into the accumulator. */
  lemma Read(width: nat, base: nat, digits: seq<nat>, i: nat, emitted: nat, carry: nat, pos: nat)
    requires base == Pow(2, width) && AreDigits(base, digits) && i < |digits|
    requires Carrying(Value(base, digits[..i]), emitted, carry, Pow(2, pos))
    ensures Carrying(Value(base, digits[..i + 1]), emitted, carry * base + digits[i], Pow(2, pos + width))
  {
    ValueSnoc(base, digits[..i], digits[i]);
    assert digits[..i + 1] == digits[..i] + [digits[i]];
    PowAdd(2, pos, width);
    Absorb(Value(base, digits[..i]), emitted, carry, Pow(2, pos), base, digits[i], Pow(2, pos + width));
  }

  /** A digit of `width` bits is written out of the accumulator. */
  lemma Write(width: nat, base: nat, read: nat, digits: seq<nat>, carry: nat, pos: nat)
    requires base == Pow(2, width)
    requires Carrying(read, Value(base, digits), carry, Pow(2, pos + width))
    ensures Pow(2, pos) > 0 && base > 0
    ensures Carrying(read, Value(base, digits + [carry / Pow(2, pos) % base]), carry, Pow(2, pos))
  {
    PowAdd(2, pos, width);
    PowPositive(2, pos);
    PowPositive(2, width);
    Emit(read, Value(base, digits), carry, Pow(2, pos), base, Pow(2, pos + width));
    ValueSnoc(base, digits, carry / Pow(2, pos) % base);
  }

  lemma Start()
    ensures Carrying(0, 0, 0, Pow(2, 0))
  {
  }

  method BytesToWords(bytes: Bytes) returns (words: seq<Word>)
    ensures words == ToWords(bytes)
  {
    hide Carrying;
    words := [];
    var carry: nat, pos: nat := 0, 0;
    Powers();
    Start();
    for i := 0 to |bytes|
      invariant pos < 5 && 8 * i == 5 * |words| + pos
      invariant carry < Pow(2, pos)
      invariant Carrying(Value(256, bytes[..i]), Value(32, words), carry, Pow(2, pos))
    {
      Read(8, 256, bytes, i, Value(32, words), carry, pos);
      carry := carry * 256 + bytes[i];
      pos := pos + 8;
      ghost var read := Value(256, bytes[..i + 1]);
      while pos >= 5
        invariant pos < 13 && 8 * (i + 1) == 5 * |words| + pos
        invariant Carrying(read, Value(32, words), carry, Pow(2, pos))
      {
        pos := pos - 5;
        Write(5, 32, read, words, carry, pos);
        words := words + [carry / Pow(2, pos) % 32];
      }
      Mask(read, Value(32, words), carry, Pow(2, pos), 1, Pow(2, pos));
      carry := carry % Pow(2, pos);
    }
    assert bytes[..|bytes|] == bytes;
    if pos > 0 {
      PadWord(bytes, words, carry, pos);
      words := words + [carry * Pow(2, 5 - pos) % 32];
    } else {
      NoPad(bytes, words);
    }
  }

  /** The last word takes the bits that are left, followed by zeros. */
  lemma PadWord(bytes: Bytes, words: seq<Word>, carry: nat, pos: nat)
    requires 0 < pos < 5 && 8 * |bytes| == 5 * |words| + pos && carry < Pow(2, pos)
    requires Carrying(Value(256, bytes), Value(32, words), carry, Pow(2, pos))
    ensures words + [carry * Pow(2, 5 - pos) % 32] == ToWords(bytes)
  {
    hide Carrying;
    hide Value;
    hide Pow;
    hide ToWords;
    hide WordCount;
    hide Padding;
    var pad: nat := 5 - pos;
    OneMoreWord(|bytes|, |words|, pos);
    PowAdd(2, pos, pad);
    Powers();
    PadValue(Value(256, bytes), Value(32, words), carry, Pow(2, pos), Pow(2, pad));
    var last := carry * Pow(2, pad);
    RemSmall(last, 32);
    ClosingWord(bytes, words, last);
  }

  lemma ClosingWord(bytes: Bytes, words: seq<Word>, last: Word)
    requires WordCount(|bytes|) == |words| + 1 && Value(32, words) * 32 + last == Shifted(bytes)
    ensures words + [last] == ToWords(bytes)
  {
    hide Value;
    hide ToWords;
    hide Shifted;
    ValueSnoc(32, words, last);
    WordsExactly(bytes, words + [last]);
  }

  lemma OneMoreWord(n: nat, k: nat, pos: nat)
    requires 0 < pos < 5 && 8 * n == 5 * k + pos
    ensures WordCount(n) == k + 1 && Padding(n) == 5 - pos
  {
  }

  lemma PadValue(read: nat, emitted: nat, carry: nat, unit: nat, pad: nat)
    requires Carrying(read, emitted, carry, unit) && carry < unit && unit * pad == 32
    ensures carry * pad < 32 && emitted * 32 + carry * pad == read * pad
  {
    RemSmall(carry, unit);
    Distribute(emitted, unit, pad, carry);
  }

  lemma NoPad(bytes: Bytes, words: seq<Word>)
    requires 8 * |bytes| == 5 * |words|
    requires Carrying(Value(256, bytes), Value(32, words), 0, 1)
    ensures words == ToWords(bytes)
  {
    WordsExactly(bytes, words);
  }

  method WordsToBytes(words: seq<Word>) returns (r: Option<Bytes>)
    ensures r == ToBytes(words)
  {
    hide Carrying;
    var out: Bytes := [];
    var carry: nat, pos: nat := 0, 0;
    Powers();
    Start();
    for i := 0 to |words|
      invariant pos < 8 && 5 * i == 8 * |out| + pos
      invariant carry < Pow(2, pos)
      invariant Carrying(Value(32, words[..i]), Value(256, out), carry, Pow(2, pos))
    {
      Read(5, 32, words, i, Value(256, out), carry, pos);
      carry := carry * 32 + words[i];
      pos := pos + 5;
      ghost var read := Value(32, words[..i + 1]);
      while pos >= 8
        invariant pos < 13 && 5 * (i + 1) == 8 * |out| + pos
        invariant Carrying(read, Value(256, out), carry, Pow(2, pos))
      {
        pos := pos - 8;
        Write(8, 256, read, out, carry, pos);
        out := out + [carry / Pow(2, pos) % 256];
      }
      Mask(read, Value(256, out), carry, Pow(2, pos), 1, Pow(2, pos));
      carry := carry % Pow(2, pos);
    }
    assert words[..|words|] == words;
    Leftover(words, out, carry, pos);
    r := if pos >= 5 || carry != 0 then None else Some(out);
  }

  lemma Leftover(words: seq<Word>, out: Bytes, carry: nat, pos: nat)
    requires pos < 8 && 5 * |words| == 8 * |out| + pos && carry < Pow(2, pos)
    requires Carrying(Value(32, words), Value(256, out), carry, Pow(2, pos))
    ensures ToBytes(words) == if pos >= 5 || carry != 0 then None else Some(out)
  {
    PowPositive(2, pos);
    assert 5 * |words| % 8 == pos && 5 * |words| / 8 == |out|;
    SumParts(Value(32, words), Value(256, out), Pow(2, pos), carry);
    FixedUnique(256, out, Value(256, out));
  }

  lemma RemSmall(r: nat, p: nat)
    requires r < p
    ensures r % p == r
  {
  }

  lemma SumParts(v: nat, q: nat, p: nat, r: nat)
    requires r < p && v == q * p + r % p
    ensures v / p == q && v % p == r
  {
    RemSmall(r, p);
    DivOfSum(p, q, r);
  }

  // ---------------------------------------------------------------------------
  // Bit by bit
  // ---------------------------------------------------------------------------

  /** The bits of a digit string, each digit of `width` bits with its highest first. */
  function BitString(width: nat, digits: seq<nat>): (bits: seq<nat>)
    ensures |bits| == width * |digits| && AreDigits(2, bits)
  {
    if digits == [] then []
    else
      var front := digits[..|digits| - 1];
      assert width * |digits| == width * |front| + width;
      BitString(width, front) + Fixed(2, width, digits[|digits| - 1])
  }

  lemma {:induction false} BitsValue(width: nat, digits: seq<nat>)
    requires AreDigits(Pow(2, width), digits)
    ensures Value(2, BitString(width, digits)) == Value(Pow(2, width), digits)
  {
    hide Pow;
    if digits != [] {
      var n := |digits| - 1;
      BitsValue(width, digits[..n]);
      FixedValue(2, width, digits[n]);
      ValueAppend(2, BitString(width, digits[..n]), Fixed(2, width, digits[n]));
    }
  }

  function Zeros(n: nat): (s: seq<nat>)
    ensures |s| == n && AreDigits(2, s)
  {
    seq(n, _ => 0)
  }

  /** The bits of the words are the bits of the bytes and fewer than five zeros. */
  predicate Regroups(bytes: Bytes, words: seq<Word>) {
    && 8 * |bytes| <= 5 * |words| < 8 * |bytes| + 5
    && BitString(5, words) == BitString(8, bytes) + Zeros(5 * |words| - 8 * |bytes|)
  }

  lemma PaddedBits(bytes: Bytes, pad: nat)
    ensures Value(2, BitString(8, bytes) + Zeros(pad)) == ShiftLeft(Value(256, bytes), pad)
  {
    hide Value;
    hide BitString;
    Powers();
    BitsValue(8, bytes);
    ValueAppend(2, BitString(8, bytes), Zeros(pad));
    ValueZeros(2, pad);
  }

  lemma WordBits(words: seq<Word>)
    ensures Value(2, BitString(5, words)) == Value(32, words)
  {
    Powers();
    BitsValue(5, words);
  }

  /** Both directions of the regrouping keep every bit where it is. */
  lemma RegroupsExactly(bytes: Bytes, words: seq<Word>)
    ensures words == ToWords(bytes) <==> Regroups(bytes, words)
    ensures ToBytes(words) == Some(bytes) <==> Regroups(bytes, words)
  {
    hide Value;
    hide BitString;
    hide ToWords;
    hide ToBytes;
    hide ShiftLeft;
    WordBits(words);
    if words == ToWords(bytes) {
      WordsValue(bytes);
    }
    if 8 * |bytes| <= 5 * |words| < 8 * |bytes| + 5 {
      var pad := 5 * |words| - 8 * |bytes|;
      FewerThanFive(|bytes|, |words|, pad);
      PaddedBits(bytes, pad);
      if words == ToWords(bytes) {
        ValueUnique(2, BitString(5, words), BitString(8, bytes) + Zeros(pad));
      }
      if Regroups(bytes, words) {
        WordsExactly(bytes, words);
      }
    }
    BytesToWordsToBytes(bytes);
    if ToBytes(words).Some? {
      WordsToBytesToWords(words);
    }
  }
}
