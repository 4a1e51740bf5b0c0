/**
  What the Merkle verifier accepts: every audit path of every leaf, and, up to an explicitly
  computed SHA-256 collision, nothing else.
*/
module MerkleProofs {
  import opened Common
  import opened Merkle

  // ---------------------------------------------------------------------------
  // RFC 9162 in terms of the hash alone
  // ---------------------------------------------------------------------------

  /** Section 2.1.1: the hash of one leaf, and of a list split at the largest power of two below its length. */
  lemma RootEquations(sha: Hash, d: Digest, leaves: seq<Digest>, e: nat)
    requires Pow(2, e) < |leaves| <= 2 * Pow(2, e)
    ensures Root(sha, [d]) == sha([0x00] + d)
    ensures Root(sha, leaves) == sha([0x01] + Root(sha, leaves[..Pow(2, e)]) + Root(sha, leaves[Pow(2, e)..]))
  {
    PowPositive(2, e);
    SplitUnique(|leaves|, e);
  }

  /**
    Section 2.1.3, read from the root down: the digest the path of leaf `i` in a tree of `n` leaves
    leads to. Its last sibling is the other half of the whole tree.
  */
  function Climb(sha: Hash, leaf: Bytes, i: nat, n: nat, path: seq<Digest>): Option<Digest>
    requires i < n
    decreases n
  {
    if n == 1 then
      if path == [] then Some(sha([0x00] + leaf)) else None
    else if path == [] then None
    else
      var k, front, sibling := Split(n), path[..|path| - 1], path[|path| - 1];
      if i < k then
        match Climb(sha, leaf, i, k, front)
        case None => None
        case Some(h) => Some(sha([0x01] + h + sibling))
      else
        match Climb(sha, leaf, i - k, n - k, front)
        case None => None
        case Some(h) => Some(sha([0x01] + sibling + h))
  }

  /** How many siblings the path of leaf `i` has. */
  function Levels(i: nat, n: nat): nat
    requires i < n
    decreases n
  {
    if n == 1 then 0
    else if i < Split(n) then 1 + Levels(i, Split(n))
    else 1 + Levels(i - Split(n), n - Split(n))
  }

  lemma {:induction false} ClimbLevels(sha: Hash, leaf: Bytes, i: nat, n: nat, path: seq<Digest>)
    requires i < n
    ensures Climb(sha, leaf, i, n, path).Some? <==> |path| == Levels(i, n)
    decreases n
  {
    hide Split;
    if n > 1 && path != [] {
      var k, front := Split(n), path[..|path| - 1];
      if i < k {
        ClimbLevels(sha, leaf, i, k, front);
      } else {
        ClimbLevels(sha, leaf, i - k, n - k, front);
      }
    }
  }

  lemma ClimbSingle(sha: Hash, leaf: Bytes, path: seq<Digest>)
    requires Climb(sha, leaf, 0, 1, path).Some?
    ensures path == [] && Climb(sha, leaf, 0, 1, path) == Some(HashLeaf(sha, leaf))
  {
  }

  lemma ClimbStep(sha: Hash, leaf: Bytes, i: nat, n: nat, path: seq<Digest>)
    requires i < n && n >= 2 && Climb(sha, leaf, i, n, path).Some?
    ensures path != []
    ensures var k, front, sibling := Split(n), path[..|path| - 1], path[|path| - 1];
      && path == front + [sibling]
      && (if i < k then Climb(sha, leaf, i, k, front) else Climb(sha, leaf, i - k, n - k, front)).Some?
      && Climb(sha, leaf, i, n, path) == Some(
           if i < k then HashNode(sha, Climb(sha, leaf, i, k, front).value, sibling)
           else HashNode(sha, sibling, Climb(sha, leaf, i - k, n - k, front).value))
  {
    hide Split;
  }

  // ---------------------------------------------------------------------------
  // The fold refines the recursion
  // ---------------------------------------------------------------------------

  /** The number of levels above a leaf in a tree of `n` leaves that the deepest path has. */
  function Depth(n: nat): (d: nat)
    requires n >= 1
    ensures n <= Pow(2, d)
  {
    if n == 1 then 0 else SplitExponent(n) + 1
  }

  lemma ExponentBelow(n: nat, d: nat)
    requires 2 <= n <= Pow(2, d)
    ensures SplitExponent(n) < d
  {
    if d <= SplitExponent(n) {
      PowMonotone(2, d, SplitExponent(n));
    }
  }

  lemma NextBit(q: nat, whole: nat, k: nat, c: nat, r: int)
    requires whole == 2 * k && c < 2
    ensures q * whole + r == (2 * q + c) * k + (if c == 1 then r - k else r)
  {
  }

  /** A sibling met strictly left of the last leaf sits on the side the leaf's own bit says. */
  lemma PerfectStep(sha: Hash, start: Fold, path: seq<Digest>, a: nat, side: nat, b: nat, right: nat, h: Digest, sibling: Digest)
    requires a < b && side < 2 && right < 2
    requires FoldPath(sha, start, path) == Some(Fold(2 * a + side, 2 * b + right, h))
    ensures FoldPath(sha, start, path + [sibling])
         == Some(Fold(a, b, if side == 1 then HashNode(sha, sibling, h) else HashNode(sha, h, sibling)))
  {
    FoldPathSnoc(sha, start, path, sibling);
  }

  /**
    Inside a perfect subtree hanging strictly left of the last leaf the counters never meet:
    a path consumes one bit of both counters per level.
  */
  lemma {:induction false} PerfectFold(sha: Hash, leaf: Bytes, path: seq<Digest>, n: nat, i: nat, d: nat, a: nat, b: nat, j: nat, m: nat, last: nat)
    requires n == Pow(2, d) && i < n && j < n && a < b
    requires m == a * Pow(2, d) + i && last == b * Pow(2, d) + j
    requires Climb(sha, leaf, i, n, path).Some?
    ensures FoldPath(sha, Fold(m, last, HashLeaf(sha, leaf)), path) == Some(Fold(a, b, Climb(sha, leaf, i, n, path).value))
    decreases d
  {
    hide FoldPath;
    hide Climb;
    var start := Fold(m, last, HashLeaf(sha, leaf));
    if d == 0 {
      ClimbSingle(sha, leaf, path);
      EmptyFold(sha, start);
    } else {
      var k := Pow(2, d - 1);
      PowPositive(2, d - 1);
      SplitUnique(n, d - 1);
      ClimbStep(sha, leaf, i, n, path);
      var front, sibling := path[..|path| - 1], path[|path| - 1];
      var right := if j < k then 0 else 1;
      var side := if i < k then 0 else 1;
      NextBit(a, n, k, side, i);
      NextBit(b, n, k, right, j);
      var i' := if i < k then i else i - k;
      var j' := if j < k then j else j - k;
      PerfectFold(sha, leaf, front, k, i', d - 1, 2 * a + side, 2 * b + right, j', m, last);
      PerfectStep(sha, start, front, a, side, b, right, Climb(sha, leaf, i', k, front).value, sibling);
    }
  }

  lemma EmptyFold(sha: Hash, start: Fold)
    ensures FoldPath(sha, start, []) == Some(start)
  {
  }

  lemma {:induction false} StripPow(q: nat, x: nat, whole: nat)
    requires q % 2 == 1 && whole == q * Pow(2, x)
    ensures Strip(whole, whole) == (q, q)
  {
    hide Strip;
    if x == 0 {
      StripOdd(q);
    } else {
      var p := Pow(2, x - 1);
      PowPositive(2, x - 1);
      MulAtLeast(q, p);
      StripPow(q, x - 1, q * p);
      MulAssoc(q, 2, p);
      MulAssoc(2, q, p);
      StripDouble(q * p, q);
    }
  }

  lemma StripOdd(q: nat)
    requires q % 2 == 1
    ensures Strip(q, q) == (q, q)
  {
  }

  lemma StripDouble(half: nat, odd: nat)
    requires half > 0 && Strip(half, half) == (odd, odd)
    ensures Strip(2 * half, 2 * half) == (odd, odd)
  {
    hide Strip;
    StripEven(2 * half, 2 * half);
  }

  lemma StripEven(m: nat, last: nat)
    requires m % 2 == 0 && m > 0
    ensures Strip(m, last) == Strip(m / 2, last / 2)
  {
  }

  /** The promoted right edge of a tree: equal counters strip down to their odd part and halve. */
  lemma RightEdgeStep(sha: Hash, start: Fold, path: seq<Digest>, top: nat, x: nat, c: nat, h: Digest, sibling: Digest)
    requires c == (2 * top + 1) * Pow(2, x)
    requires FoldPath(sha, start, path) == Some(Fold(c, c, h))
    ensures FoldPath(sha, start, path + [sibling]) == Some(Fold(top, top, HashNode(sha, sibling, h)))
  {
    FoldPathSnoc(sha, start, path, sibling);
    StripPow(2 * top + 1, x, c);
    PowPositive(2, x);
    MulAtLeast(2 * top + 1, Pow(2, x));
  }

  /** Just left of the right edge: the counters differ by one, so the sibling is on the right. */
  lemma LeftEdgeStep(sha: Hash, start: Fold, path: seq<Digest>, top: nat, h: Digest, sibling: Digest)
    requires FoldPath(sha, start, path) == Some(Fold(2 * top, 2 * top + 1, h))
    ensures FoldPath(sha, start, path + [sibling]) == Some(Fold(top, top, HashNode(sha, h, sibling)))
  {
    FoldPathSnoc(sha, start, path, sibling);
  }

  lemma SplitCounter(q: nat, d: nat, e: nat)
    requires e < d
    ensures q * Pow(2, d) == (2 * (q * Pow(2, d - e - 1))) * Pow(2, e)
    ensures q * Pow(2, d) == (2 * (q * Pow(2, d - e - 1)) + 1) * Pow(2, e) - Pow(2, e)
  {
    var w := Pow(2, d - e - 1);
    PowAdd(2, e + 1, d - e - 1);
    var k := Pow(2, e);
    Regroup(q, k, w);
  }

  lemma Regroup(q: nat, k: nat, w: nat)
    ensures q * (2 * k * w) == 2 * (q * w) * k == (2 * (q * w) + 1) * k - k
  {
  }

  lemma RaggedLeft(sha: Hash, leaf: Bytes, path: seq<Digest>, i: nat, n: nat, top: nat, m: nat, last: nat)
    requires n >= 2 && i < Split(n) && Climb(sha, leaf, i, n, path).Some?
    requires m == 2 * top * Split(n) + i
    requires last == (2 * top + 1) * Split(n) - Split(n) + n - 1
    ensures FoldPath(sha, Fold(m, last, HashLeaf(sha, leaf)), path) == Some(Fold(top, top, Climb(sha, leaf, i, n, path).value))
  {
    hide FoldPath;
    hide Climb;
    ClimbStep(sha, leaf, i, n, path);
    var k, front, sibling := Split(n), path[..|path| - 1], path[|path| - 1];
    RightOfSplit(top, k, n);
    PerfectFold(sha, leaf, front, k, i, SplitExponent(n), 2 * top, 2 * top + 1, n - 1 - k, m, last);
    LeftEdgeStep(sha, Fold(m, last, HashLeaf(sha, leaf)), front, top, Climb(sha, leaf, i, k, front).value, sibling);
  }

  lemma RightOfSplit(top: nat, k: nat, n: nat)
    ensures (2 * top + 1) * k - k + n - 1 == (2 * top + 1) * k + (n - 1 - k)
  {
  }

  /**
    A subtree holding the last leaf: run its path with any bits `q` above the subtree's own `d`
    bits set in both counters, and the fold ends with both counters shifted by its depth.
  */
  lemma {:induction false} RaggedFold(sha: Hash, leaf: Bytes, path: seq<Digest>, i: nat, n: nat, d: nat, q: nat, m: nat, last: nat)
    returns (c: nat)
    requires i < n <= Pow(2, d) && Climb(sha, leaf, i, n, path).Some?
    requires m == q * Pow(2, d) + i && last == q * Pow(2, d) + n - 1
    ensures Depth(n) <= d && c == q * Pow(2, d - Depth(n))
    ensures FoldPath(sha, Fold(m, last, HashLeaf(sha, leaf)), path) == Some(Fold(c, c, Climb(sha, leaf, i, n, path).value))
    decreases n
  {
    hide FoldPath;
    hide Climb;
    var start := Fold(m, last, HashLeaf(sha, leaf));
    if n == 1 {
      ClimbSingle(sha, leaf, path);
      EmptyFold(sha, start);
      c := q * Pow(2, d);
    } else {
      ExponentBelow(n, d);
      var e, k := SplitExponent(n), Split(n);
      var top := q * Pow(2, d - e - 1);
      SplitCounter(q, d, e);
      if i < k {
        RaggedLeft(sha, leaf, path, i, n, top, m, last);
      } else {
        ClimbStep(sha, leaf, i, n, path);
        var front, sibling := path[..|path| - 1], path[|path| - 1];
        var c' := RaggedFold(sha, leaf, front, i - k, n - k, e, 2 * top + 1, m, last);
        RightEdgeStep(sha, start, front, top, e - Depth(n - k), c', Climb(sha, leaf, i - k, n - k, front).value, sibling);
      }
      c := top;
    }
  }

  /** Whether a path is too long or too short for the counters does not depend on the digests. */
  lemma {:induction false} LengthsAgree(sha: Hash, m: nat, last: nat, h1: Digest, p1: seq<Digest>, h2: Digest, p2: seq<Digest>)
    requires FoldPath(sha, Fold(m, last, h1), p1).Some? && FoldPath(sha, Fold(m, last, h2), p2).Some?
    requires FoldPath(sha, Fold(m, last, h1), p1).value.last == 0 == FoldPath(sha, Fold(m, last, h2), p2).value.last
    ensures |p1| == |p2|
    decreases |p1|
  {
    hide Advance;
    hide Combine;
    if p1 != [] && p2 != [] {
      var (m', last') := Advance(m, last);
      LengthsAgree(sha, m', last', Combine(sha, m, last, h1, p1[0]), p1[1..], Combine(sha, m, last, h2, p2[0]), p2[1..]);
    }
  }

  /**
    The fold over two shifting counters computes what the recursive definition says, for every leaf,
    index, tree size and path: the same digest, and none for the same paths.
  */
  lemma FoldClimbs(sha: Hash, leaf: Bytes, i: nat, n: nat, path: seq<Digest>)
    requires i < n
    ensures FoldedRoot(sha, leaf, i, n, path) == Climb(sha, leaf, i, n, path)
  {
    hide FoldPath;
    hide Climb;
    ClimbLevels(sha, leaf, i, n, path);
    if Climb(sha, leaf, i, n, path).Some? {
      var _ := RaggedFold(sha, leaf, path, i, n, Depth(n), 0, i, n - 1);
    } else if FoldedRoot(sha, leaf, i, n, path).Some? {
      var zero: Digest := seq(DIGEST_LENGTH, _ => 0);
      var right := seq(Levels(i, n), _ => zero);
      ClimbLevels(sha, leaf, i, n, right);
      var _ := RaggedFold(sha, leaf, right, i, n, Depth(n), 0, i, n - 1);
      LengthsAgree(sha, i, n - 1, HashLeaf(sha, leaf), path, HashLeaf(sha, leaf), right);
    }
  }

  /** What the verifier accepts, in terms of the hash alone. */
  lemma VerifiesExactly(sha: Hash, leaf: Bytes, i: nat, n: nat, path: seq<Digest>, root: Bytes)
    ensures Verifies(sha, leaf, i, n, path, root) <==>
      && |leaf| == 32 && |root| == 32
      && 1 <= n < 0x1_0000_0000 && i < n
      && Climb(sha, leaf, i, n, path) == Some(root)
  {
    hide Climb;
    hide FoldedRoot;
    if i < n {
      FoldClimbs(sha, leaf, i, n, path);
    }
  }

  // ---------------------------------------------------------------------------
  // Completeness
  // ---------------------------------------------------------------------------

  lemma {:induction false} AuditClimbs(sha: Hash, leaves: seq<Digest>, i: nat)
    requires i < |leaves|
    ensures Climb(sha, leaves[i], i, |leaves|, AuditPath(sha, leaves, i)) == Some(Root(sha, leaves))
    decreases |leaves|
  {
    hide Split;
    hide Climb;
    if |leaves| == 1 {
      AuditSingle(sha, leaves);
    } else {
      hide Root;
      hide AuditPath;
      var k := Split(|leaves|);
      AuditUnfolds(sha, leaves, i);
      if i < k {
        AuditClimbs(sha, leaves[..k], i);
        ClimbSnoc(sha, leaves[i], i, |leaves|, AuditPath(sha, leaves[..k], i), Root(sha, leaves[k..]));
      } else {
        AuditClimbs(sha, leaves[k..], i - k);
        ClimbSnoc(sha, leaves[i], i, |leaves|, AuditPath(sha, leaves[k..], i - k), Root(sha, leaves[..k]));
      }
    }
  }

  /** The root and the path of a leaf, or why there is none. */
  lemma AnswersExactly(sha: Hash, leaves: seq<Digest>, i: nat)
    ensures MerkleRoot(sha, leaves) == if leaves == [] then Err(EmptyTree) else Ok(Root(sha, leaves))
    ensures var path := MerkleInclusionProof(sha, leaves, i);
      if leaves == [] then path == Err(EmptyTree)
      else if |leaves| > 0xffff_ffff then path == Err(TreeSizeOutOfRange(|leaves|))
      else if i >= |leaves| then path == Err(IndexOutOfRange(i, |leaves|))
      else path.Ok? && Climb(sha, leaves[i], i, |leaves|, path.value) == Some(Root(sha, leaves))
  {
    hide Root;
    hide AuditPath;
    hide Climb;
    if i < |leaves| {
      AuditClimbs(sha, leaves, i);
    }
  }

  lemma AuditSingle(sha: Hash, leaves: seq<Digest>)
    requires |leaves| == 1
    ensures Climb(sha, leaves[0], 0, 1, AuditPath(sha, leaves, 0)) == Some(Root(sha, leaves))
  {
  }

  lemma AuditUnfolds(sha: Hash, leaves: seq<Digest>, i: nat)
    requires 2 <= |leaves| && i < |leaves|
    ensures var k := Split(|leaves|);
      && Root(sha, leaves) == HashNode(sha, Root(sha, leaves[..k]), Root(sha, leaves[k..]))
      && AuditPath(sha, leaves, i) ==
        if i < k then AuditPath(sha, leaves[..k], i) + [Root(sha, leaves[k..])]
        else AuditPath(sha, leaves[k..], i - k) + [Root(sha, leaves[..k])]
  {
  }

  lemma ClimbSnoc(sha: Hash, leaf: Bytes, i: nat, n: nat, front: seq<Digest>, sibling: Digest)
    requires i < n && n >= 2
    ensures Climb(sha, leaf, i, n, front + [sibling]) ==
      if i < Split(n) then
        (match Climb(sha, leaf, i, Split(n), front)
         case None => None
         case Some(h) => Some(HashNode(sha, h, sibling)))
      else
        match Climb(sha, leaf, i - Split(n), n - Split(n), front)
        case None => None
        case Some(h) => Some(HashNode(sha, sibling, h))
  {
    hide Split;
    assert (front + [sibling])[..|front|] == front;
  }

  /**
    Completeness: the audit path of leaf `i` folds to the recursive root in trees of every shape,
    so the verifier accepts it exactly when the tree size is in the supported range.
  */
  lemma Completeness(sha: Hash, leaves: seq<Digest>, i: nat)
    requires i < |leaves|
    ensures FoldedRoot(sha, leaves[i], i, |leaves|, AuditPath(sha, leaves, i)) == Some(Root(sha, leaves))
    ensures Verifies(sha, leaves[i], i, |leaves|, AuditPath(sha, leaves, i), Root(sha, leaves)) <==> |leaves| <= MAX_TREE_SIZE
  {
    hide FoldPath;
    hide Climb;
    hide Root;
    hide AuditPath;
    AuditClimbs(sha, leaves, i);
    FoldClimbs(sha, leaves[i], i, |leaves|, AuditPath(sha, leaves, i));
  }

  // ---------------------------------------------------------------------------
  // Soundness up to an explicit collision
  // ---------------------------------------------------------------------------

  ghost predicate IsCollision(sha: Hash, pair: (Bytes, Bytes)) {
    pair.0 != pair.1 && sha(pair.0) == sha(pair.1)
  }

  /** The byte string hashed when `h` absorbs `sibling` at counters `(m, last)`. */
  function StepInput(m: nat, last: nat, h: Digest, sibling: Digest): Bytes {
    if IsRight(m, last) then NodeInput(sibling, h) else NodeInput(h, sibling)
  }

  lemma CombineHashes(sha: Hash, m: nat, last: nat, h: Digest, sibling: Digest)
    ensures Combine(sha, m, last, h, sibling) == sha(StepInput(m, last, h, sibling))
  {
  }

  lemma StepInputInjective(m: nat, last: nat, h1: Digest, s1: Digest, h2: Digest, s2: Digest)
    requires StepInput(m, last, h1, s1) == StepInput(m, last, h2, s2)
    ensures h1 == h2 && s1 == s2
  {
    NodeInputInjective(
      if IsRight(m, last) then s1 else h1, if IsRight(m, last) then h1 else s1,
      if IsRight(m, last) then s2 else h2, if IsRight(m, last) then h2 else s2);
  }

  lemma NodeInputInjective(l1: Digest, r1: Digest, l2: Digest, r2: Digest)
    requires NodeInput(l1, r1) == NodeInput(l2, r2)
    ensures l1 == l2 && r1 == r2
  {
    assert l1 == NodeInput(l1, r1)[1..DIGEST_LENGTH + 1];
    assert l2 == NodeInput(l2, r2)[1..DIGEST_LENGTH + 1];
    assert r1 == NodeInput(l1, r1)[DIGEST_LENGTH + 1..];
    assert r2 == NodeInput(l2, r2)[DIGEST_LENGTH + 1..];
  }

  /** Walk two equally long paths from the same counters and return the first clashing pair of hash inputs. */
  function PathCollision(sha: Hash, m: nat, last: nat, h1: Digest, p1: seq<Digest>, h2: Digest, p2: seq<Digest>): (Bytes, Bytes)
    decreases |p1|
  {
    if p1 == [] || p2 == [] then ([], [])
    else
      var x := StepInput(m, last, h1, p1[0]);
      var y := StepInput(m, last, h2, p2[0]);
      if x != y && sha(x) == sha(y) then (x, y)
      else
        var (m', last') := Advance(m, last);
        PathCollision(sha, m', last', sha(x), p1[1..], sha(y), p2[1..])
  }

  /** Two paths that fold from the same counters to the same digest are the same path, or yield a collision. */
  lemma {:induction false} PathsAgree(sha: Hash, m: nat, last: nat, h1: Digest, p1: seq<Digest>, h2: Digest, p2: seq<Digest>)
    requires FoldPath(sha, Fold(m, last, h1), p1).Some? && FoldPath(sha, Fold(m, last, h2), p2).Some?
    requires FoldPath(sha, Fold(m, last, h1), p1).value.last == 0 == FoldPath(sha, Fold(m, last, h2), p2).value.last
    requires FoldPath(sha, Fold(m, last, h1), p1).value.h == FoldPath(sha, Fold(m, last, h2), p2).value.h
    ensures |p1| == |p2|
    ensures (h1 == h2 && p1 == p2) || IsCollision(sha, PathCollision(sha, m, last, h1, p1, h2, p2))
    decreases |p1|
  {
    hide Strip;
    hide StepInput;
    hide Combine;
    if p1 != [] && p2 != [] {
      CombineHashes(sha, m, last, h1, p1[0]);
      CombineHashes(sha, m, last, h2, p2[0]);
      var x := StepInput(m, last, h1, p1[0]);
      var y := StepInput(m, last, h2, p2[0]);
      var (m', last') := Advance(m, last);
      PathsAgree(sha, m', last', sha(x), p1[1..], sha(y), p2[1..]);
      if x == y {
        StepInputInjective(m, last, h1, p1[0], h2, p2[0]);
      }
      assert p1 == [p1[0]] + p1[1..] && p2 == [p2[0]] + p2[1..];
    }
  }

  /** The collision a false acceptance gives away, computed from the accepted proof and the true leaves. */
  function ForgeryCollision(sha: Hash, leaves: seq<Digest>, leaf: Bytes, i: nat, proof: seq<Digest>): (Bytes, Bytes)
    requires i < |leaves|
  {
    if LeafInput(leaf) != LeafInput(leaves[i]) && HashLeaf(sha, leaf) == HashLeaf(sha, leaves[i]) then
      (LeafInput(leaf), LeafInput(leaves[i]))
    else
      PathCollision(sha, i, |leaves| - 1, HashLeaf(sha, leaf), proof, HashLeaf(sha, leaves[i]), AuditPath(sha, leaves, i))
  }

  /**
    Soundness: acceptance against the root of `leaves` means the leaf is `leaves[i]` and the proof
    is its audit path, sibling for sibling, unless two different hash inputs with one digest have been computed.
  */
  lemma Soundness(sha: Hash, leaves: seq<Digest>, leaf: Bytes, i: nat, proof: seq<Digest>)
    requires |leaves| > 0
    requires Verifies(sha, leaf, i, |leaves|, proof, Root(sha, leaves))
    ensures |proof| == |AuditPath(sha, leaves, i)|
    ensures (leaf == leaves[i] && proof == AuditPath(sha, leaves, i))
         || IsCollision(sha, ForgeryCollision(sha, leaves, leaf, i, proof))
  {
    hide FoldPath;
    hide Root;
    hide AuditPath;
    hide PathCollision;
    Completeness(sha, leaves, i);
    PathsAgree(sha, i, |leaves| - 1, HashLeaf(sha, leaf), proof, HashLeaf(sha, leaves[i]), AuditPath(sha, leaves, i));
    if LeafInput(leaf) == LeafInput(leaves[i]) {
      LeafInputInjective(leaf, leaves[i]);
    }
  }

  /** The collision two different leaf lists with one root give away. */
  function RootCollision(sha: Hash, a: seq<Digest>, b: seq<Digest>): (Bytes, Bytes)
    requires |a| > 0 && |b| > 0
    decreases |a|
  {
    var x := RootInput(sha, a);
    var y := RootInput(sha, b);
    if x != y || |a| == 1 || |b| == 1 then (x, y)
    else
      var j, k := Split(|a|), Split(|b|);
      if a[..j] != b[..k] then RootCollision(sha, a[..j], b[..k]) else RootCollision(sha, a[j..], b[k..])
  }

  /** The last byte string hashed when computing the root of `leaves`. */
  function RootInput(sha: Hash, leaves: seq<Digest>): (x: Bytes)
    requires |leaves| > 0
    ensures sha(x) == Root(sha, leaves)
  {
    if |leaves| == 1 then LeafInput(leaves[0])
    else
      var k := Split(|leaves|);
      NodeInput(Root(sha, leaves[..k]), Root(sha, leaves[k..]))
  }

  /** Domain separation: a leaf input is never a node input. */
  lemma LeafNodeDiffer(d: Digest, l: Digest, r: Digest)
    ensures LeafInput(d) != NodeInput(l, r)
  {
    assert LeafInput(d)[0] != NodeInput(l, r)[0];
  }

  lemma LeafInputInjective(d: Bytes, e: Bytes)
    requires LeafInput(d) == LeafInput(e)
    ensures d == e
  {
    assert d == LeafInput(d)[1..] && e == LeafInput(e)[1..];
  }

  /** Binding: one root, one leaf list, whatever the two lengths, or a computed collision. */
  lemma {:induction false} RootBinding(sha: Hash, a: seq<Digest>, b: seq<Digest>)
    requires |a| > 0 && |b| > 0
    requires Root(sha, a) == Root(sha, b)
    ensures a == b || IsCollision(sha, RootCollision(sha, a, b))
    decreases |a|
  {
    hide Root;
    hide Split;
    hide LeafInput;
    hide NodeInput;
    if |a| == 1 && |b| == 1 {
      if RootInput(sha, a) == RootInput(sha, b) {
        LeafInputInjective(a[0], b[0]);
      }
    } else if |a| == 1 {
      LeafNodeDiffer(a[0], Root(sha, b[..Split(|b|)]), Root(sha, b[Split(|b|)..]));
    } else if |b| == 1 {
      LeafNodeDiffer(b[0], Root(sha, a[..Split(|a|)]), Root(sha, a[Split(|a|)..]));
    } else if RootInput(sha, a) == RootInput(sha, b) {
      var j, k := Split(|a|), Split(|b|);
      NodeInputInjective(Root(sha, a[..j]), Root(sha, a[j..]), Root(sha, b[..k]), Root(sha, b[k..]));
      RootBinding(sha, a[..j], b[..k]);
      RootBinding(sha, a[j..], b[k..]);
    }
  }
}
