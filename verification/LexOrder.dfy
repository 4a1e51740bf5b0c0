/** Bytewise lexicographic order, a proper prefix sorting before its extensions. */
module LexOrder {
  predicate Less(a: seq<int>, b: seq<int>) {
    b != [] && (a == [] || a[0] < b[0] || (a[0] == b[0] && Less(a[1..], b[1..])))
  }

  lemma {:induction false} Irreflexive(a: seq<int>)
    ensures !Less(a, a)
  {
    if a != [] {
      Irreflexive(a[1..]);
    }
  }

  lemma {:induction false} Transitive(a: seq<int>, b: seq<int>, c: seq<int>)
    requires Less(a, b) && Less(b, c)
    ensures Less(a, c)
  {
    if a != [] && a[0] == b[0] == c[0] {
      Transitive(a[1..], b[1..], c[1..]);
    }
  }

  lemma {:induction false} Total(a: seq<int>, b: seq<int>)
    ensures Less(a, b) || a == b || Less(b, a)
  {
    if a != [] && b != [] && a[0] == b[0] {
      Total(a[1..], b[1..]);
      assert a == [a[0]] + a[1..] && b == [b[0]] + b[1..];
    }
  }

  lemma Asymmetric(a: seq<int>, b: seq<int>)
    requires Less(a, b)
    ensures !Less(b, a) && a != b
  {
    Irreflexive(a);
    if Less(b, a) {
      Transitive(a, b, a);
    }
  }

  /** Equally long heads decide; equal heads leave the decision to the tails. */
  lemma {:induction false} Heads(a: seq<int>, x: seq<int>, b: seq<int>, y: seq<int>)
    requires |a| == |b|
    ensures Less(a + x, b + y) <==> Less(a, b) || (a == b && Less(x, y))
  {
    if a == [] {
      assert a + x == x && b + y == y;
    } else {
      Heads(a[1..], x, b[1..], y);
      assert (a + x)[1..] == a[1..] + x && (b + y)[1..] == b[1..] + y;
      assert a == [a[0]] + a[1..] && b == [b[0]] + b[1..];
      assert (a + x)[0] == a[0] && (b + y)[0] == b[0];
    }
  }

  /** When neither head begins the other, the heads decide whatever follows them. */
  lemma {:induction false} Apart(a: seq<int>, x: seq<int>, b: seq<int>, y: seq<int>)
    requires !(a <= b) && !(b <= a)
    ensures Less(a + x, b + y) <==> Less(a, b)
  {
    assert a != [] && b != [];
    assert a == [a[0]] + a[1..] && b == [b[0]] + b[1..];
    assert (a + x)[0] == a[0] && (b + y)[0] == b[0];
    if a[0] == b[0] {
      Apart(a[1..], x, b[1..], y);
      assert (a + x)[1..] == a[1..] + x && (b + y)[1..] == b[1..] + y;
    }
  }

  /** Where two sequences first differ, if neither ends before that. */
  lemma {:induction false} FirstDifference(a: seq<int>, b: seq<int>) returns (k: nat)
    requires !(a <= b) && !(b <= a)
    ensures k < |a| && k < |b| && a[..k] == b[..k] && a[k] != b[k]
  {
    assert a == [a[0]] + a[1..] && b == [b[0]] + b[1..];
    if a[0] != b[0] {
      k := 0;
    } else {
      var j := FirstDifference(a[1..], b[1..]);
      k := j + 1;
      assert a[..k] == [a[0]] + a[1..][..j] && b[..k] == [b[0]] + b[1..][..j];
    }
  }

  /** The first difference decides. */
  lemma DifferenceDecides(a: seq<int>, b: seq<int>, k: nat)
    requires k < |a| && k < |b| && a[..k] == b[..k] && a[k] != b[k]
    ensures Less(a, b) <==> a[k] < b[k]
  {
    Heads(a[..k], a[k..], b[..k], b[k..]);
    Irreflexive(a[..k]);
    assert a == a[..k] + a[k..] && b == b[..k] + b[k..];
  }

  lemma {:induction false} PrefixLess(a: seq<int>, b: seq<int>)
    requires a <= b
    ensures Less(a, b) <==> |a| < |b|
    ensures !Less(b, a)
  {
    if a != [] {
      assert a[1..] <= b[1..];
      PrefixLess(a[1..], b[1..]);
    }
  }

  /** The order in terms of positions: the first byte that differs decides, or the shorter of two that agree that far. */
  lemma LessExactly(a: seq<int>, b: seq<int>)
    ensures Less(a, b) <==> a < b || exists k :: 0 <= k < |a| && k < |b| && a[..k] == b[..k] && a[k] < b[k]
  {
    hide Less;
    if a <= b {
      PrefixLess(a, b);
      assert forall k :: 0 <= k < |a| && k < |b| ==> a[k] == b[k];
    } else if b <= a {
      PrefixLess(b, a);
      assert forall k :: 0 <= k < |a| && k < |b| ==> a[k] == b[k];
    } else {
      var k := FirstDifference(a, b);
      DifferenceDecides(a, b, k);
      if j :| 0 <= j < |a| && j < |b| && a[..j] == b[..j] && a[j] < b[j] {
        DifferenceDecides(a, b, j);
      }
    }
  }
}
