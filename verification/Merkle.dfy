/**
  The RFC 9162 binary Merkle tree: recursive root, recursive audit path, and the iterative
  verifier that folds a proof while shifting two counters.

  SHA-256 is a parameter: any function from byte strings to 32-byte digests.
*/
module Merkle {
  import opened Common

  const DIGEST_LENGTH: nat := 32
  const MAX_TREE_SIZE: nat := 0xffff_ffff

  type Digest = d: Bytes | |d| == DIGEST_LENGTH witness seq(DIGEST_LENGTH, _ => 0)

  type Hash = Bytes -> Digest

  datatype Error =
    | EmptyTree
    | IndexOutOfRange(index: nat, treeSize: nat)
    | TreeSizeOutOfRange(treeSize: nat)

  function ValidateTreeRange(index: nat, treeSize: nat): Result<(), Error> {
    if !(1 <= treeSize <= MAX_TREE_SIZE) then Err(TreeSizeOutOfRange(treeSize))
    else if index >= treeSize then Err(IndexOutOfRange(index, treeSize))
    else Ok(())
  }

  function LeafInput(d: Bytes): Bytes {
    [0x00] + d
  }

  function NodeInput(left: Bytes, right: Bytes): Bytes {
    [0x01] + left + right
  }

  function HashLeaf(sha: Hash, d: Bytes): Digest {
    sha(LeafInput(d))
  }

  function HashNode(sha: Hash, left: Bytes, right: Bytes): Digest {
    sha(NodeInput(left, right))
  }

  // ---------------------------------------------------------------------------
  // Split point
  // ---------------------------------------------------------------------------

  /** The exponent of the largest power of two strictly below `n`. */
  function SplitExponent(n: nat): (d: nat)
    requires n >= 2
    ensures Pow(2, d) < n <= 2 * Pow(2, d)
  {
    if n == 2 then 0 else 1 + SplitExponent((n + 1) / 2)
  }

  function Split(n: nat): (k: nat)
    requires n >= 2
    ensures 1 <= k < n <= 2 * k
  {
    Pow(2, SplitExponent(n))
  }

  /** Only one power of two lies strictly below `n` with its double at or above `n`. */
  lemma {:induction false} SplitUnique(n: nat, d: nat)
    requires n >= 2
    requires Pow(2, d) < n <= 2 * Pow(2, d)
    ensures d == SplitExponent(n)
  {
    var e := SplitExponent(n);
    if d < e {
      PowMonotone(2, d + 1, e);
    } else if e < d {
      PowMonotone(2, e + 1, d);
    }
  }

  method LargestPow2Lt(n: nat) returns (k: nat)
    requires n >= 2
    ensures k == Split(n)
  {
    k := 1;
    ghost var d := 0;
    while k * 2 < n
      invariant k == Pow(2, d) && 1 <= k < n
      decreases n - k
    {
      k := k * 2;
      d := d + 1;
    }
    SplitUnique(n, d);
  }

  // ---------------------------------------------------------------------------
  // Root and audit path
  // ---------------------------------------------------------------------------

  function Root(sha: Hash, leaves: seq<Digest>): Digest
    requires |leaves| > 0
    decreases |leaves|
  {
    if |leaves| == 1 then HashLeaf(sha, leaves[0])
    else
      var k := Split(|leaves|);
      HashNode(sha, Root(sha, leaves[..k]), Root(sha, leaves[k..]))
  }

  function AuditPath(sha: Hash, leaves: seq<Digest>, index: nat): seq<Digest>
    requires index < |leaves|
    decreases |leaves|
  {
    if |leaves| == 1 then []
    else
      var k := Split(|leaves|);
      if index < k then
        AuditPath(sha, leaves[..k], index) + [Root(sha, leaves[k..])]
      else
        AuditPath(sha, leaves[k..], index - k) + [Root(sha, leaves[..k])]
  }

  function MerkleRoot(sha: Hash, leaves: seq<Digest>): Result<Digest, Error> {
    if |leaves| == 0 then Err(EmptyTree) else Ok(Root(sha, leaves))
  }

  function MerkleInclusionProof(sha: Hash, leaves: seq<Digest>, index: nat): Result<seq<Digest>, Error> {
    if |leaves| == 0 then Err(EmptyTree)
    else if ValidateTreeRange(index, |leaves|).Err? then Err(ValidateTreeRange(index, |leaves|).error)
    else Ok(AuditPath(sha, leaves, index))
  }

  // ---------------------------------------------------------------------------
  // The verifier's fold
  // ---------------------------------------------------------------------------

  /** Shift both counters right until the first is odd or zero. */
  function Strip(m: nat, last: nat): (r: (nat, nat))
    ensures r.0 <= m && r.1 <= last
  {
    if m % 2 == 0 && m != 0 then Strip(m / 2, last / 2) else (m, last)
  }

  /** The running state of the fold: both counters and the current node hash. */
  datatype Fold = Fold(m: nat, last: nat, h: Digest)

  predicate IsRight(m: nat, last: nat) {
    m % 2 == 1 || m == last
  }

  /** The counters after one sibling. */
  function Advance(m: nat, last: nat): (nat, nat) {
    var (m', last') := if IsRight(m, last) then Strip(m, last) else (m, last);
    (m' / 2, last' / 2)
  }

  function Combine(sha: Hash, m: nat, last: nat, h: Digest, sibling: Digest): Digest {
    if IsRight(m, last) then HashNode(sha, sibling, h) else HashNode(sha, h, sibling)
  }

  /** Fold a whole path; `None` when it supplies more siblings than there are levels. */
  function FoldPath(sha: Hash, s: Fold, proof: seq<Digest>): Option<Fold>
    decreases |proof|
  {
    if proof == [] then Some(s)
    else if s.last == 0 then None
    else
      var (m, last) := Advance(s.m, s.last);
      FoldPath(sha, Fold(m, last, Combine(sha, s.m, s.last, s.h, proof[0])), proof[1..])
  }

  /** The digest a path folds to, when the path has exactly as many siblings as there are levels. */
  function FoldedRoot(sha: Hash, leaf: Bytes, index: nat, treeSize: nat, proof: seq<Digest>): Option<Digest>
    requires index < treeSize
  {
    match FoldPath(sha, Fold(index, treeSize - 1, HashLeaf(sha, leaf)), proof)
    case Some(s) => if s.last == 0 then Some(s.h) else None
    case None => None
  }

  predicate Verifies(sha: Hash, leaf: Bytes, index: nat, treeSize: nat, proof: seq<Digest>, root: Bytes) {
    && |leaf| == DIGEST_LENGTH
    && |root| == DIGEST_LENGTH
    && 1 <= treeSize <= MAX_TREE_SIZE
    && index < treeSize
    && FoldedRoot(sha, leaf, index, treeSize, proof) == Some(root)
  }

  lemma {:induction false} FoldPathSnoc(sha: Hash, s: Fold, proof: seq<Digest>, sibling: Digest)
    ensures FoldPath(sha, s, proof + [sibling]) ==
      (match FoldPath(sha, s, proof)
       case Some(t) => FoldPath(sha, t, [sibling])
       case None => None)
    decreases |proof|
  {
    if proof == [] {
      assert proof + [sibling] == [sibling];
    } else if s.last != 0 {
      var (m, last) := Advance(s.m, s.last);
      FoldPathSnoc(sha, Fold(m, last, Combine(sha, s.m, s.last, s.h, proof[0])), proof[1..], sibling);
      assert (proof + [sibling])[1..] == proof[1..] + [sibling];
    }
  }

  lemma {:induction false} FoldPathOverrun(sha: Hash, s: Fold, proof: seq<Digest>, i: nat)
    requires i < |proof|
    requires FoldPath(sha, s, proof[..i]).None? ||
             FoldPath(sha, s, proof[..i]).value.last == 0
    ensures FoldPath(sha, s, proof).None?
    decreases |proof| - i
  {
    FoldPathSnoc(sha, s, proof[..i], proof[i]);
    assert proof[..i + 1] == proof[..i] + [proof[i]];
    if i + 1 < |proof| {
      FoldPathOverrun(sha, s, proof, i + 1);
    } else {
      assert proof[..i + 1] == proof;
    }
  }

  /** The iterative verifier, loop for loop. */
  method VerifyInclusion(sha: Hash, leaf: Bytes, index: nat, treeSize: nat, proof: seq<Digest>, root: Bytes)
    returns (ok: bool)
    ensures ok == Verifies(sha, leaf, index, treeSize, proof, root)
  {
    if |leaf| != DIGEST_LENGTH || |root| != DIGEST_LENGTH {
      return false;
    }
    if ValidateTreeRange(index, treeSize).Err? {
      return false;
    }
    if treeSize == 1 {
      if proof != [] || index != 0 {
        return false;
      }
      return HashLeaf(sha, leaf) == root;
    }
    var m: nat := index;
    var last: nat := treeSize - 1;
    var h := HashLeaf(sha, leaf);
    ghost var start := Fold(m, last, h);
    for i := 0 to |proof|
      invariant FoldPath(sha, start, proof[..i]) == Some(Fold(m, last, h))
    {
      if last == 0 {
        FoldPathOverrun(sha, start, proof, i);
        return false;
      }
      ghost var before := Fold(m, last, h);
      if m % 2 == 1 || m == last {
        h := HashNode(sha, proof[i], h);
        while m % 2 == 0 && m != 0
          invariant Strip(m, last) == Strip(before.m, before.last)
          decreases m
        {
          m := m / 2;
          last := last / 2;
        }
      } else {
        h := HashNode(sha, h, proof[i]);
      }
      m := m / 2;
      last := last / 2;
      FoldPathSnoc(sha, start, proof[..i], proof[i]);
      assert proof[..i + 1] == proof[..i] + [proof[i]];
      assert FoldPath(sha, before, [proof[i]]) == Some(Fold(m, last, h));
    }
    assert proof[..|proof|] == proof;
    if last != 0 {
      return false;
    }
    return h == root;
  }
}
