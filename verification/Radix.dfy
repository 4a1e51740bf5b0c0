/** Positional notation: big-endian digit strings in any base, and their values. */
module Radix {
  import opened Common

  /** The number a big-endian digit string denotes in base `b`. */
  function Value(b: nat, s: seq<nat>): nat {
    if s == [] then 0 else Value(b, s[..|s| - 1]) * b + s[|s| - 1]
  }

  predicate AreDigits(b: nat, s: seq<nat>) {
    forall i :: 0 <= i < |s| ==> s[i] < b
  }

  lemma ValueSnoc(b: nat, s: seq<nat>, d: nat)
    ensures Value(b, s + [d]) == Value(b, s) * b + d
  {
    assert (s + [d])[..|s|] == s;
  }

  lemma {:induction false} ValueAppend(b: nat, s: seq<nat>, t: seq<nat>)
    ensures Value(b, s + t) == Value(b, s) * Pow(b, |t|) + Value(b, t)
  {
    if t == [] {
      assert s + t == s;
    } else {
      var front, d := t[..|t| - 1], t[|t| - 1];
      ValueAppend(b, s, front);
      assert s + t == (s + front) + [d];
      ValueSnoc(b, s + front, d);
      Scale(Value(b, s), Pow(b, |front|), Value(b, front), b);
    }
  }

  lemma Scale(x: nat, p: nat, y: nat, b: nat)
    ensures (x * p + y) * b == x * (b * p) + y * b
  {
  }

  lemma ValueCons(b: nat, d: nat, s: seq<nat>)
    ensures Value(b, [d] + s) == d * Pow(b, |s|) + Value(b, s)
  {
    ValueAppend(b, [d], s);
    assert [d][..0] == [];
    assert Value(b, [d]) == d;
  }

  lemma {:induction false} ValueBound(b: nat, s: seq<nat>)
    requires AreDigits(b, s)
    ensures Value(b, s) < Pow(b, |s|)
  {
    if s != [] {
      var front := s[..|s| - 1];
      ValueBound(b, front);
      MulLess(Value(b, front), Pow(b, |front|), b, s[|s| - 1]);
    }
  }

  lemma MulLess(x: nat, p: nat, b: nat, d: nat)
    requires x < p && d < b
    ensures x * b + d < b * p
  {
    assert (x + 1) * b <= p * b;
  }

  lemma {:induction false} ValueUnique(b: nat, s: seq<nat>, t: seq<nat>)
    requires |s| == |t| && AreDigits(b, s) && AreDigits(b, t)
    requires Value(b, s) == Value(b, t)
    ensures s == t
  {
    if s != [] {
      var n := |s| - 1;
      DivModUnique(b, Value(b, s[..n]), s[n], Value(b, t[..n]), t[n]);
      ValueUnique(b, s[..n], t[..n]);
      assert s == s[..n] + [s[n]] && t == t[..n] + [t[n]];
    }
  }

  lemma {:induction false} ValueZeros(b: nat, n: nat)
    ensures Value(b, seq(n, _ => 0)) == 0
  {
    if n > 0 {
      assert seq(n, _ => 0)[..n - 1] == seq(n - 1, _ => 0);
      ValueZeros(b, n - 1);
    }
  }

  /** The shortest digit string of a number: empty for zero. */
  function Minimal(b: nat, n: nat): (s: seq<nat>)
    requires b >= 2
    ensures AreDigits(b, s)
  {
    if n == 0 then [] else Minimal(b, n / b) + [n % b]
  }

  /** A digit string without a leading zero is the shortest one for its value. */
  lemma {:induction false} MinimalUnique(b: nat, s: seq<nat>)
    requires b >= 2 && AreDigits(b, s) && (s != [] ==> s[0] != 0)
    ensures Minimal(b, Value(b, s)) == s
    ensures s != [] ==> Value(b, s) > 0
  {
    if s != [] {
      var n := |s| - 1;
      var v := Value(b, s[..n]);
      MinimalUnique(b, s[..n]);
      if n > 0 {
        MulAtLeast(b, v);
        assert v * b == b * v;
      }
      DivOfSum(b, v, s[n]);
      assert s == s[..n] + [s[n]];
    }
  }

  lemma {:induction false} MinimalValue(b: nat, n: nat)
    requires b >= 2
    ensures Value(b, Minimal(b, n)) == n
    ensures n > 0 ==> Minimal(b, n) != [] && Minimal(b, n)[0] != 0
    decreases n
  {
    hide Value;
    if n == 0 {
      ValueEmpty(b);
    } else {
      MinimalValue(b, n / b);
      LastDigit(b, Minimal(b, n / b), n);
    }
  }

  lemma ValueEmpty(b: nat)
    ensures Value(b, []) == 0
  {
  }

  /** A number is its quotient's digits followed by its remainder. */
  lemma LastDigit(b: nat, front: seq<nat>, n: nat)
    requires b > 0 && Value(b, front) == n / b
    ensures Value(b, front + [n % b]) == n
  {
    hide Value;
    ValueSnoc(b, front, n % b);
  }

  lemma DivOfSum(b: nat, v: nat, d: nat)
    requires d < b
    ensures (v * b + d) / b == v && (v * b + d) % b == d
  {
    var x := v * b + d;
    assert x == b * (x / b) + x % b;
    assert v * b == b * v;
    DivModUnique(b, x / b, x % b, v, d);
  }

  /** Exactly `n` digits: the last `n` of `v`. */
  function Fixed(b: nat, n: nat, v: nat): (s: seq<nat>)
    requires b >= 2
    ensures |s| == n && AreDigits(b, s)
  {
    if n == 0 then [] else Fixed(b, n - 1, v / b) + [v % b]
  }

  lemma {:induction false} FixedValue(b: nat, n: nat, v: nat)
    requires b >= 2 && v < Pow(b, n)
    ensures Value(b, Fixed(b, n, v)) == v
  {
    hide Value;
    if n == 0 {
      ValueEmpty(b);
    } else {
      DivLess(v, b, Pow(b, n - 1));
      FixedValue(b, n - 1, v / b);
      LastDigit(b, Fixed(b, n - 1, v / b), v);
    }
  }

  lemma DivLess(v: nat, b: nat, p: nat)
    requires b > 0 && v < b * p
    ensures v / b < p
  {
    if v / b >= p {
      MulGrows(b, p, v / b, v % b);
    }
  }

  lemma MulGrows(b: nat, p: nat, q: nat, r: nat)
    requires q >= p
    ensures b * q + r >= b * p
  {
  }

  /** Among digit strings of one length, the fixed-width rendering is the only one with its value. */
  lemma FixedUnique(b: nat, s: seq<nat>, v: nat)
    requires b >= 2 && AreDigits(b, s) && Value(b, s) == v
    ensures Fixed(b, |s|, v) == s
  {
    ValueBound(b, s);
    FixedValue(b, |s|, v);
    ValueUnique(b, Fixed(b, |s|, v), s);
  }

  /** The digits weighted by the powers of the base, the first the heaviest. */
  function Weighted(b: nat, s: seq<nat>): nat {
    if s == [] then 0 else s[0] * Pow(b, |s| - 1) + Weighted(b, s[1..])
  }

  lemma {:induction false} ValueWeighted(b: nat, s: seq<nat>)
    ensures Value(b, s) == Weighted(b, s)
  {
    hide Value;
    if s == [] {
      ValueEmpty(b);
    } else {
      ValueCons(b, s[0], s[1..]);
      ValueWeighted(b, s[1..]);
      assert s == [s[0]] + s[1..];
    }
  }
}
