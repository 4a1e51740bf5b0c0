/** The base-58 decoder: repeated multiply-and-add in a fixed-size base-256 buffer. */
module Base58 {
  import opened Common
  import opened Radix

  const ALPHABET: string := "123456789" + "ABCDEFGH" + "JKLMN" + "PQRSTUVWXYZ" + "abcdefghijk" + "mnopqrstuvwxyz"

  /** Index of the first character equal to `c`, or `None`. */
  function Position(s: string, c: char): (r: Option<nat>)
    ensures r.Some? ==> r.value < |s| && s[r.value] == c
    ensures r.None? <==> c !in s
  {
    if s == [] then None
    else if s[0] == c then Some(0)
    else
      match Position(s[1..], c)
      case None => None
      case Some(i) => Some(i + 1)
  }

  /** The digits of a base-58 string, or `None` when a character is outside the alphabet. */
  function Digits(s: string): (r: Option<seq<nat>>)
    ensures r.Some? ==> |r.value| == |s| && AreDigits(58, r.value)
  {
    if s == [] then Some([])
    else
      match (Digits(s[..|s| - 1]), Position(ALPHABET, s[|s| - 1]))
      case (Some(ds), Some(d)) => Some(ds + [d])
      case _ => None
  }

  function LeadingOnes(s: string): (n: nat)
    ensures n <= |s|
  {
    if s != [] && s[0] == '1' then 1 + LeadingOnes(s[1..]) else 0
  }

  /** A zero byte for each leading '1', then the shortest big-endian bytes of the number the rest denotes. */
  function Decoded(s: string): Option<seq<nat>> {
    var zeros := LeadingOnes(s);
    match Digits(s[zeros..])
    case None => None
    case Some(ds) => Some(seq(zeros, _ => 0) + Minimal(256, Value(58, ds)))
  }

  /** The buffer size the decoder computes for `n` significant characters. */
  function BufferSize(n: nat): nat {
    n * 733 / 1000 + 1
  }

  // ---------------------------------------------------------------------------
  // The buffer is always large enough
  // ---------------------------------------------------------------------------

  /** The powers of 58 up to the fourteenth. */
  lemma SmallPowers58()
    ensures Pow(58, 0) == 1
    ensures Pow(58, 1) == 58
    ensures Pow(58, 2) == 3364
    ensures Pow(58, 3) == 195112
    ensures Pow(58, 4) == 11316496
    ensures Pow(58, 5) == 656356768
    ensures Pow(58, 6) == 38068692544
    ensures Pow(58, 7) == 2207984167552
    ensures Pow(58, 8) == 128063081718016
    ensures Pow(58, 9) == 7427658739644928
    ensures Pow(58, 10) == 430804206899405824
    ensures Pow(58, 11) == 24986644000165537792
    ensures Pow(58, 12) == 1449225352009601191936
    ensures Pow(58, 13) == 84055070416556869132288
    ensures Pow(58, 14) == 4875194084160298409672704
  {
  }

  lemma SmallPowers256()
    ensures Pow(256, 1) == 0x100
    ensures Pow(256, 2) == 0x10000
    ensures Pow(256, 3) == 0x1000000
    ensures Pow(256, 4) == 0x100000000
    ensures Pow(256, 5) == 0x10000000000
    ensures Pow(256, 6) == 0x1000000000000
    ensures Pow(256, 7) == 0x100000000000000
    ensures Pow(256, 8) == 0x10000000000000000
    ensures Pow(256, 9) == 0x1000000000000000000
    ensures Pow(256, 10) == 0x100000000000000000000
    ensures Pow(256, 11) == 0x10000000000000000000000
  {
  }

  lemma FifteenInEleven()
    ensures Pow(58, 15) < Pow(256, 11)
  {
    SmallPowers58();
    SmallPowers256();
    assert Pow(58, 15) == 58 * Pow(58, 14);
  }

  /** Seventy-one base-58 digits fit in fifty-two bytes. */
  lemma SeventyOneInFiftyTwo()
    ensures Pow(58, 71) < Pow(256, 52)
  {
    SmallPowers58();
    SmallPowers256();
    PowAdd(58, 8, 8);
    PowAdd(58, 16, 16);
    PowAdd(58, 32, 32);
    PowAdd(58, 64, 7);
    PowAdd(256, 8, 8);
    PowAdd(256, 16, 16);
    PowAdd(256, 32, 16);
    PowAdd(256, 48, 4);
    assert Pow(58, 71) == 159730386663078066345306447337161584696769904898410078913243029577507397293846405390982563136983769384625594118558891106107392;
    assert Pow(256, 52) == 0x100000000000000000000000000000000000000000000000000000000000000000000000000000000000000000000000000000000;
  }

  lemma MulStrict(a: nat, b: nat, c: nat, d: nat)
    requires a < b && 0 < c <= d
    ensures a * c < b * d
  {
    assert a * c < b * c;
    assert b * c <= b * d;
  }

  lemma {:induction false} FifteensInElevens(q: nat)
    ensures Pow(58, 15 * q) <= Pow(256, 11 * q)
    ensures q > 0 ==> Pow(58, 15 * q) < Pow(256, 11 * q)
  {
    hide Pow;
    if q == 0 {
      PowZero();
    } else {
      FifteensInElevens(q - 1);
      FifteenInEleven();
      PowAdd(58, 15, 15 * (q - 1));
      PowAdd(256, 11, 11 * (q - 1));
      PowPositive(58, 15 * (q - 1));
      MulStrict(Pow(58, 15), Pow(256, 11), Pow(58, 15 * (q - 1)), Pow(256, 11 * (q - 1)));
    }
  }

  lemma PowZero()
    ensures Pow(58, 0) == Pow(256, 0) == 1
  {
  }

  lemma RemainderFits(r: nat)
    requires 0 < r < 15
    ensures Pow(58, r) < Pow(256, BufferSize(r))
  {
    SmallPowers58();
    SmallPowers256();
    match r {
      case 1 => assert BufferSize(1) == 1;
      case 2 => assert BufferSize(2) == 2;
      case 3 => assert BufferSize(3) == 3;
      case 4 => assert BufferSize(4) == 3;
      case 5 => assert BufferSize(5) == 4;
      case 6 => assert BufferSize(6) == 5;
      case 7 => assert BufferSize(7) == 6;
      case 8 => assert BufferSize(8) == 6;
      case 9 => assert BufferSize(9) == 7;
      case 10 => assert BufferSize(10) == 8;
      case 11 => assert BufferSize(11) == 9;
      case 12 => assert BufferSize(12) == 9;
      case 13 => assert BufferSize(13) == 10;
      case 14 => assert BufferSize(14) == 11;
    }
  }

  lemma SizeSplits(q: nat, r: nat)
    requires q <= 4 && r < 15
    ensures r > 0 ==> BufferSize(15 * q + r) >= 11 * q + BufferSize(r)
    ensures q > 0 ==> BufferSize(15 * q) >= 11 * q
  {
    if r > 0 {
      RemainderLeaves(r);
      var d, m := r * 733 / 1000, r * 733 % 1000;
      assert (15 * q + r) * 733 == 1000 * (11 * q + d) + (m - 5 * q);
    }
  }

  lemma RemainderLeaves(r: nat)
    requires 0 < r < 15
    ensures r * 733 % 1000 >= 20
  {
  }

  lemma PowerProduct(a: nat, x: nat, b: nat, y: nat, z: nat)
    requires Pow(58, a) < Pow(256, x) && Pow(58, b) <= Pow(256, y) && x + y <= z
    ensures Pow(58, a + b) < Pow(256, z)
  {
    PowAdd(58, a, b);
    PowAdd(256, x, y);
    PowPositive(58, b);
    MulStrict(Pow(58, a), Pow(256, x), Pow(58, b), Pow(256, y));
    PowMonotone(256, x + y, z);
  }

  lemma BufferFitsSmall(n: nat)
    requires n < 71
    ensures Pow(58, n) < Pow(256, BufferSize(n))
  {
    hide Pow;
    var q, r := n / 15, n % 15;
    assert n == 15 * q + r;
    SizeSplits(q, r);
    FifteensInElevens(q);
    if r > 0 {
      RemainderFits(r);
      PowerProduct(r, BufferSize(r), 15 * q, 11 * q, BufferSize(n));
    } else if q > 0 {
      PowMonotone(256, 11 * q, BufferSize(n));
    } else {
      PowZero();
      SmallestBuffer();
    }
  }

  lemma SmallestBuffer()
    ensures BufferSize(0) == 1 && Pow(256, 1) == 256
  {
  }

  /** No base-58 number of `n` digits outgrows the buffer, for every length. */
  lemma {:induction false} BufferFits(n: nat)
    ensures Pow(58, n) < Pow(256, BufferSize(n))
  {
    hide Pow;
    if n < 71 {
      BufferFitsSmall(n);
    } else {
      BufferFits(n - 71);
      SeventyOneInFiftyTwo();
      PowerProduct(n - 71, BufferSize(n - 71), 71, 52, BufferSize(n));
    }
  }

  // ---------------------------------------------------------------------------
  // The decoder
  // ---------------------------------------------------------------------------

  /** One cell of the multiply-and-add: the carry moves one place up. */
  lemma CarryStep(p: nat, cell: nat, low: nat, carry: nat, digit: nat, oldLow: nat)
    requires low + carry * p == 58 * oldLow + digit
    ensures var total := carry + 58 * cell;
      ((total % 256) * p + low) + (total / 256) * (256 * p) == 58 * (cell * p + oldLow) + digit
  {
    var total := carry + 58 * cell;
    var q, r := total / 256, total % 256;
    calc {
      r * p + low + q * (256 * p);
      (256 * q + r) * p + low;
      total * p + low;
      carry * p + 58 * cell * p + low;
      58 * (cell * p) + (58 * oldLow + digit);
    }
  }

  lemma {:induction false} ValueLeadingZeros(s: seq<nat>, k: nat)
    requires k <= |s| && forall i :: 0 <= i < k ==> s[i] == 0
    ensures Value(256, s) == Value(256, s[k..])
  {
    ValueAppend(256, s[..k], s[k..]);
    assert s == s[..k] + s[k..];
    assert s[..k] == seq(k, _ => 0);
    ValueZeros(256, k);
  }

  /** Multiply the buffer by 58 and add one digit, touching only the cells in use. */
  method MultiplyAdd(b256: array<nat>, digit: nat, length: nat) returns (length': nat)
    requires digit < 58 && length <= b256.Length
    requires AreDigits(256, b256[..])
    requires forall i :: 0 <= i < b256.Length - length ==> b256[i] == 0
    requires 58 * Value(256, b256[..]) + digit < Pow(256, b256.Length)
    modifies b256
    ensures length' <= b256.Length
    ensures AreDigits(256, b256[..])
    ensures forall i :: 0 <= i < b256.Length - length' ==> b256[i] == 0
    ensures Value(256, b256[..]) == 58 * Value(256, old(b256[..])) + digit
  {
    hide CarryEquation;
    hide Value;
    ghost var was := b256[..];
    var size := b256.Length;
    var carry: nat := digit;
    var k := 0;
    var j := size;
    assert b256[size..] == [] && was[size..] == [];
    NoCells(digit);
    while j > 0 && (carry != 0 || k < length)
      invariant 0 <= j <= size && k == size - j && carry <= 58
      invariant b256[..j] == was[..j]
      invariant AreDigits(256, b256[j..])
      invariant CarryEquation(b256[j..], was[j..], carry, digit)
    {
      ghost var low, c := b256[j..], carry;
      j := j - 1;
      assert b256[j] == was[j];
      carry := carry + 58 * b256[j];
      b256[j] := carry % 256;
      carry := carry / 256;
      CellStep(was[j], was[j + 1..], low, c, digit);
      assert was[j..] == [was[j]] + was[j + 1..];
      assert b256[j..] == [b256[j]] + low;
      k := k + 1;
    }
    length' := k;
    AllCells(was, b256[..], j, carry, digit);
  }

  lemma NoCells(digit: nat)
    ensures CarryEquation([], [], digit, digit)
  {
  }

  /** Where the loop stops: the cells it never reached are zero on both sides. */
  lemma AllCells(was: seq<nat>, now: seq<nat>, j: nat, carry: nat, digit: nat)
    requires j <= |was| == |now| && now[..j] == was[..j]
    requires j == 0 || carry == 0
    requires forall i :: 0 <= i < j ==> was[i] == 0
    requires AreDigits(256, now[j..])
    requires CarryEquation(now[j..], was[j..], carry, digit)
    requires 58 * Value(256, was) + digit < Pow(256, |was|)
    ensures Value(256, now) == 58 * Value(256, was) + digit
    ensures AreDigits(256, now) && forall i :: 0 <= i < j ==> now[i] == 0
  {
    hide Value;
    assert now == now[..j] + now[j..];
    UntouchedZeros(was, now, j);
    ValueLeadingZeros(was, j);
    ValueLeadingZeros(now, j);
    NoCarryLost(Value(256, now), carry, Pow(256, |was| - j), 58 * Value(256, was) + digit);
  }

  /** The cells `now` and the carry above them stand for `was` times 58 plus the digit. */
  ghost predicate CarryEquation(now: seq<nat>, was: seq<nat>, carry: nat, digit: nat) {
    |now| == |was| && Value(256, now) + carry * Pow(256, |now|) == 58 * Value(256, was) + digit
  }

  /** The carry equation holds one cell further up. */
  lemma CellStep(cell: nat, oldLow: seq<nat>, low: seq<nat>, carry: nat, digit: nat)
    requires CarryEquation(low, oldLow, carry, digit)
    ensures var total := carry + 58 * cell; CarryEquation([total % 256] + low, [cell] + oldLow, total / 256, digit)
  {
    var total := carry + 58 * cell;
    CarryStep(Pow(256, |low|), cell, Value(256, low), carry, digit, Value(256, oldLow));
    ValueCons(256, total % 256, low);
    ValueCons(256, cell, oldLow);
  }

  /** No carry is left over: either it is spent, or it would not fit in the buffer. */
  lemma NoCarryLost(v: nat, carry: nat, p: nat, total: nat)
    requires v + carry * p == total
    requires carry == 0 || total < p
    ensures carry == 0 && v == total
  {
    if carry > 0 {
      MulAtLeast(p, carry);
    }
  }

  lemma UntouchedZeros(was: seq<nat>, now: seq<nat>, j: nat)
    requires |was| == |now| && j <= |was| && now[..j] == was[..j]
    requires forall i :: 0 <= i < j ==> was[i] == 0
    ensures forall i :: 0 <= i < j ==> now[i] == 0
    ensures Value(256, was) == Value(256, was[j..]) && Value(256, now) == Value(256, now[j..])
  {
    forall i | 0 <= i < j
      ensures now[i] == 0
    {
      assert now[..j][i] == was[..j][i];
    }
    ValueLeadingZeros(was, j);
    ValueLeadingZeros(now, j);
  }

  lemma {:induction false} DigitsValueBound(s: string)
    requires Digits(s).Some?
    ensures Value(58, Digits(s).value) < Pow(58, |s|)
  {
    ValueBound(58, Digits(s).value);
  }

  lemma {:induction false} DigitsPrefix(s: string, i: nat)
    requires i <= |s|
    ensures Digits(s[..i]).None? ==> Digits(s).None?
  {
    if i < |s| {
      assert s[..|s| - 1][..i] == s[..i];
      DigitsPrefix(s[..|s| - 1], i);
    } else {
      assert s[..i] == s;
    }
  }

  lemma DigitsSnoc(s: string, i: nat)
    requires i < |s|
    ensures Digits(s[..i + 1]) ==
      (match (Digits(s[..i]), Position(ALPHABET, s[i]))
       case (Some(ds), Some(d)) => Some(ds + [d])
       case _ => None)
  {
    assert s[..i + 1][..i] == s[..i];
  }

  method CountOnes(chars: string) returns (zeros: nat)
    ensures zeros == LeadingOnes(chars)
  {
    zeros := 0;
    while zeros < |chars| && chars[zeros] == '1'
      invariant zeros <= |chars|
      invariant LeadingOnes(chars) == zeros + LeadingOnes(chars[zeros..])
    {
      assert chars[zeros..][1..] == chars[zeros + 1..];
      zeros := zeros + 1;
    }
  }

  /** Multiply in every significant character; the buffer ends up holding their value. */
  method FillBuffer(chars: string, b256: array<nat>) returns (length: Option<nat>)
    requires b256.Length == BufferSize(|chars|)
    requires forall i :: 0 <= i < b256.Length ==> b256[i] == 0
    modifies b256
    ensures length.None? <==> Digits(chars).None?
    ensures length.Some? ==>
      && length.value <= b256.Length && AreDigits(256, b256[..])
      && (forall i :: 0 <= i < b256.Length - length.value ==> b256[i] == 0)
      && Value(256, b256[..]) == Value(58, Digits(chars).value)
  {
    var len: nat := 0;
    assert b256[..] == seq(b256.Length, _ => 0);
    ValueZeros(256, b256.Length);
    BufferFits(|chars|);
    for n := 0 to |chars|
      invariant len <= b256.Length && AreDigits(256, b256[..])
      invariant forall i :: 0 <= i < b256.Length - len ==> b256[i] == 0
      invariant Digits(chars[..n]).Some?
      invariant Value(256, b256[..]) == Value(58, Digits(chars[..n]).value)
    {
      DigitsSnoc(chars, n);
      var d := Position(ALPHABET, chars[n]);
      if d.None? {
        DigitsPrefix(chars, n + 1);
        return None;
      }
      ghost var ds := Digits(chars[..n]).value;
      ValueSnoc(58, ds, d.value);
      DigitsValueBound(chars[..n + 1]);
      PowMonotone(58, n + 1, |chars|);
      len := MultiplyAdd(b256, d.value, len);
    }
    assert chars[..|chars|] == chars;
    return Some(len);
  }

  /** The base-58 decoder. */
  method DecodeBase58(s: string) returns (r: Option<seq<nat>>)
    ensures r == Decoded(s)
  {
    if s == "" {
      assert LeadingOnes(s) == 0 && s[0..] == s && Digits(s) == Some([]);
      assert seq(0, _ => 0) + Minimal(256, Value(58, [])) == [];
      return Some([]);
    }
    var zeros := CountOnes(s);
    var size := (|s| - zeros) * 733 / 1000 + 1;
    var b256 := new nat[size](_ => 0);
    var length := FillBuffer(s[zeros..], b256);
    if length.None? {
      return None;
    }
    var bytes := WithoutLeadingZeros(b256, size - length.value);
    return Some(seq(zeros, _ => 0) + bytes);
  }

  /** Drop the zero cells at the front, of which the first `from` are known. */
  method WithoutLeadingZeros(b256: array<nat>, from: nat) returns (r: seq<nat>)
    requires from <= b256.Length && AreDigits(256, b256[..])
    requires forall i :: 0 <= i < from ==> b256[i] == 0
    ensures r == Minimal(256, Value(256, b256[..]))
  {
    var it := from;
    while it < b256.Length && b256[it] == 0
      invariant 0 <= it <= b256.Length
      invariant forall i :: 0 <= i < it ==> b256[i] == 0
    {
      it := it + 1;
    }
    r := b256[it..];
    ValueLeadingZeros(b256[..], it);
    assert b256[..][it..] == r;
    MinimalUnique(256, r);
  }

  // ---------------------------------------------------------------------------
  // One string per byte string
  // ---------------------------------------------------------------------------

  lemma {:induction false} DigitsAt(s: string, i: nat)
    requires Digits(s).Some? && i < |s|
    ensures Position(ALPHABET, s[i]) == Some(Digits(s).value[i])
  {
    if i < |s| - 1 {
      DigitsAt(s[..|s| - 1], i);
    }
  }

  lemma DigitsInjective(s: string, t: string)
    requires Digits(s).Some? && Digits(s) == Digits(t)
    ensures s == t
  {
    forall i | 0 <= i < |s|
      ensures s[i] == t[i]
    {
      DigitsAt(s, i);
      DigitsAt(t, i);
    }
  }

  lemma {:induction false} LeadingOnesStop(s: string)
    ensures forall i :: 0 <= i < LeadingOnes(s) ==> s[i] == '1'
    ensures LeadingOnes(s) < |s| ==> s[LeadingOnes(s)] != '1'
  {
    if s != [] && s[0] == '1' {
      LeadingOnesStop(s[1..]);
    }
  }

  lemma PositionNonzero(c: char)
    requires c != '1'
    ensures Position(ALPHABET, c) != Some(0)
  {
    assert ALPHABET[0] == '1';
  }

  /** Digits that do not start with '1' are the shortest for their value. */
  lemma SignificantDigits(rest: string)
    requires Digits(rest).Some? && (rest != [] ==> rest[0] != '1')
    ensures Minimal(58, Value(58, Digits(rest).value)) == Digits(rest).value
  {
    if rest != [] {
      DigitsAt(rest, 0);
      PositionNonzero(rest[0]);
    }
    MinimalUnique(58, Digits(rest).value);
  }

  function LeadingZeros(s: seq<nat>): nat {
    if s != [] && s[0] == 0 then 1 + LeadingZeros(s[1..]) else 0
  }

  lemma {:induction false} LeadingZerosOf(k: nat, m: seq<nat>)
    requires m != [] ==> m[0] != 0
    ensures LeadingZeros(seq(k, _ => 0) + m) == k
  {
    var s := seq(k, _ => 0) + m;
    if k == 0 {
      assert s == m;
    } else {
      LeadingZerosOf(k - 1, m);
      assert s[1..] == seq(k - 1, _ => 0) + m;
    }
  }

  /** The decoded bytes determine the number of leading '1's and the digits after them. */
  lemma DecodedDetermines(s: string)
    requires Decoded(s).Some?
    ensures LeadingZeros(Decoded(s).value) == LeadingOnes(s) <= |Decoded(s).value|
    ensures Digits(s[LeadingOnes(s)..]) == Some(Minimal(58, Value(256, Decoded(s).value[LeadingOnes(s)..])))
  {
    var a := LeadingOnes(s);
    var rest := s[a..];
    var v := Value(58, Digits(rest).value);
    MinimalValue(256, v);
    LeadingZerosOf(a, Minimal(256, v));
    assert Decoded(s).value[a..] == Minimal(256, v);
    LeadingOnesStop(s);
    SignificantDigits(rest);
  }

  /** Two strings that decode to the same bytes are the same string. */
  lemma DecodedInjective(s: string, t: string)
    requires Decoded(s).Some? && Decoded(s) == Decoded(t)
    ensures s == t
  {
    hide Digits;
    hide Value;
    hide Minimal;
    hide Decoded;
    hide LeadingZeros;
    DecodedDetermines(s);
    DecodedDetermines(t);
    var a := LeadingOnes(s);
    DigitsInjective(s[a..], t[a..]);
    LeadingOnesStop(s);
    LeadingOnesStop(t);
    assert s[..a] == t[..a];
    assert s == s[..a] + s[a..] && t == t[..a] + t[a..];
  }

  // ---------------------------------------------------------------------------
  // The decoder in terms of the characters alone
  // ---------------------------------------------------------------------------

  /** The digit of a character: the figures without zero, the capitals without I and O, the small letters without l. */
  function SymbolValue(c: char): Option<nat> {
    if '1' <= c <= '9' then Some(c as int - '1' as int)
    else if 'A' <= c <= 'H' then Some(c as int - 'A' as int + 9)
    else if 'J' <= c <= 'N' then Some(c as int - 'J' as int + 17)
    else if 'P' <= c <= 'Z' then Some(c as int - 'P' as int + 22)
    else if 'a' <= c <= 'k' then Some(c as int - 'a' as int + 33)
    else if 'm' <= c <= 'z' then Some(c as int - 'm' as int + 44)
    else None
  }

  lemma {:induction false} PositionFrom(s: string, c: char, i: nat)
    requires i < |s| && s[i] == c && c !in s[..i]
    ensures Position(s, c) == Some(i)
  {
    if i > 0 {
      assert s[..i][0] == s[0];
      assert s[..i][1..] == s[1..][..i - 1];
      PositionFrom(s[1..], c, i - 1);
    }
  }

  /** Consecutive characters. */
  predicate Consecutive(s: string, first: char) {
    forall i :: 0 <= i < |s| ==> s[i] as int == first as int + i
  }

  lemma GroupsConsecutive()
    ensures Consecutive("123456789", '1') && Consecutive("ABCDEFGH", 'A') && Consecutive("JKLMN", 'J')
    ensures Consecutive("PQRSTUVWXYZ", 'P') && Consecutive("abcdefghijk", 'a') && Consecutive("mnopqrstuvwxyz", 'm')
  {
  }

  /** Where the digits, the capitals and the small letters stand. */
  lemma AlphabetRanges(i: nat)
    requires i < 58
    ensures |ALPHABET| == 58 && SymbolValue(ALPHABET[i]) == Some(i)
  {
    GroupsConsecutive();
    if i < 9 {
      assert ALPHABET[i] == "123456789"[i];
    } else if i < 17 {
      assert ALPHABET[i] == "ABCDEFGH"[i - 9];
    } else if i < 22 {
      assert ALPHABET[i] == "JKLMN"[i - 17];
    } else if i < 33 {
      assert ALPHABET[i] == "PQRSTUVWXYZ"[i - 22];
    } else if i < 44 {
      assert ALPHABET[i] == "abcdefghijk"[i - 33];
    } else {
      assert ALPHABET[i] == "mnopqrstuvwxyz"[i - 44];
    }
  }

  lemma SymbolInAlphabet(c: char)
    ensures match SymbolValue(c)
      case Some(i) => i < 58 && |ALPHABET| == 58 && ALPHABET[i] == c
      case None => true
  {
    if SymbolValue(c).Some? {
      SymbolBound(c);
      AlphabetRanges(SymbolValue(c).value);
      SymbolInjective(c, ALPHABET[SymbolValue(c).value]);
    }
  }

  lemma SymbolBound(c: char)
    requires SymbolValue(c).Some?
    ensures SymbolValue(c).value < 58
  {
  }

  lemma SymbolInjective(c: char, d: char)
    requires SymbolValue(c).Some? && SymbolValue(c) == SymbolValue(d)
    ensures c == d
  {
  }

  lemma SymbolPosition(c: char)
    ensures Position(ALPHABET, c) == SymbolValue(c)
  {
    hide Position;
    hide SymbolValue;
    AlphabetRanges(0);
    SymbolInAlphabet(c);
    match SymbolValue(c)
    case Some(i) =>
      forall j | 0 <= j < i
        ensures ALPHABET[j] != c
      {
        AlphabetRanges(j);
        AlphabetRanges(i);
      }
      PositionFrom(ALPHABET, c, i);
    case None =>
      forall j | 0 <= j < 58
        ensures ALPHABET[j] != c
      {
        AlphabetRanges(j);
      }
  }

  predicate AllSymbols(s: string) {
    forall i :: 0 <= i < |s| ==> SymbolValue(s[i]).Some?
  }

  function SymbolValues(s: string): (r: seq<nat>)
    requires AllSymbols(s)
    ensures |r| == |s|
  {
    seq(|s|, i requires 0 <= i < |s| => SymbolValue(s[i]).value)
  }

  lemma DigitsOfNothing()
    ensures Digits([]) == Some([])
  {
  }

  lemma DigitsStep(s: string)
    requires s != []
    ensures Digits(s) ==
      match (Digits(s[..|s| - 1]), SymbolValue(s[|s| - 1]))
      case (Some(ds), Some(d)) => Some(ds + [d])
      case _ => None
  {
    hide Position;
    hide SymbolValue;
    SymbolPosition(s[|s| - 1]);
  }

  lemma {:induction false} DigitsAreValues(s: string)
    ensures Digits(s) == if AllSymbols(s) then Some(SymbolValues(s)) else None
  {
    hide Digits;
    hide SymbolValue;
    if s == [] {
      DigitsOfNothing();
    } else {
      var front, c := s[..|s| - 1], s[|s| - 1];
      DigitsAreValues(front);
      DigitsStep(s);
      assert AllSymbols(s) <==> AllSymbols(front) && SymbolValue(c).Some?;
      if AllSymbols(s) {
        assert SymbolValues(s) == SymbolValues(front) + [SymbolValue(c).value];
      }
    }
  }

  /** `k` leading occurrences of `x`, and no more. */
  predicate Leads<T(==)>(s: seq<T>, x: T, k: nat) {
    k <= |s| && (forall i :: 0 <= i < k ==> s[i] == x) && (k < |s| ==> s[k] != x)
  }

  lemma {:induction false} OnesLead(s: string, k: nat)
    requires Leads(s, '1', k)
    ensures LeadingOnes(s) == k
  {
    if k > 0 {
      OnesLead(s[1..], k - 1);
    }
  }

  lemma {:induction false} ZerosWeighNothing(b: nat, s: seq<nat>, k: nat)
    requires k <= |s| && forall i :: 0 <= i < k ==> s[i] == 0
    ensures Weighted(b, s) == Weighted(b, s[k..])
  {
    if k > 0 {
      ZerosWeighNothing(b, s[1..], k - 1);
      assert s[1..][k - 1..] == s[k..];
    } else {
      assert s[0..] == s;
    }
  }

  /** What decodes from significant digits: the shortest bytes of their weight. */
  lemma Significant(s: string, k: nat)
    requires AllSymbols(s) && Leads(s, '1', k)
    ensures Decoded(s) == Some(seq(k, _ => 0) + Minimal(256, Weighted(58, SymbolValues(s))))
  {
    hide SymbolValue;
    hide Digits;
    hide Value;
    hide Minimal;
    hide Weighted;
    OnesLead(s, k);
    var rest := s[k..];
    DigitsAreValues(rest);
    assert SymbolValues(s)[k..] == SymbolValues(rest);
    OneIsZero();
    ZerosWeighNothing(58, SymbolValues(s), k);
    ValueWeighted(58, SymbolValues(rest));
  }

  lemma OneIsZero()
    ensures SymbolValue('1') == Some(0)
  {
  }

  /**
    The decoder on every string: it refuses exactly the strings with a character outside the alphabet, and
    otherwise gives the bytes with a leading zero for each leading '1' that weigh in base 256 what the
    characters weigh in base 58.
  */
  lemma DecodedExactly(s: string, k: nat, r: seq<nat>)
    requires Leads(s, '1', k)
    ensures Decoded(s).None? <==> !AllSymbols(s)
    ensures Decoded(s) == Some(r) <==>
      AllSymbols(s) && AreDigits(256, r) && Leads(r, 0, k) && Weighted(256, r) == Weighted(58, SymbolValues(s))
  {
    hide SymbolValue;
    hide Digits;
    hide Value;
    hide Minimal;
    hide Weighted;
    hide Decoded;
    Refuses(s, k);
    if AllSymbols(s) {
      Significant(s, k);
      var v := Weighted(58, SymbolValues(s));
      Shortest(k, v, seq(k, _ => 0) + Minimal(256, v));
      Shortest(k, v, r);
    }
  }

  lemma Refuses(s: string, k: nat)
    requires Leads(s, '1', k)
    ensures Decoded(s).None? <==> !AllSymbols(s)
  {
    hide SymbolValue;
    hide Digits;
    OnesLead(s, k);
    DigitsAreValues(s[k..]);
    OneIsZero();
    assert forall i :: k <= i < |s| ==> s[k..][i - k] == s[i];
  }

  /** Bytes of a given weight with `k` leading zeros: there is one such string. */
  lemma Shortest(k: nat, v: nat, r: seq<nat>)
    ensures r == seq(k, _ => 0) + Minimal(256, v) <==> AreDigits(256, r) && Leads(r, 0, k) && Weighted(256, r) == v
  {
    hide Value;
    hide Weighted;
    MinimalValue(256, v);
    if AreDigits(256, r) && Leads(r, 0, k) && Weighted(256, r) == v {
      hide Minimal;
      ZerosWeighNothing(256, r, k);
      ValueWeighted(256, r[k..]);
      MinimalUnique(256, r[k..]);
      assert r == seq(k, _ => 0) + r[k..];
    }
    if r == seq(k, _ => 0) + Minimal(256, v) {
      assert r[k..] == Minimal(256, v);
      ZerosWeighNothing(256, r, k);
      ValueWeighted(256, r[k..]);
    }
  }
}
