/**
  What a certificate holds and what its re-verification answers, each outcome by its condition on the
  inputs.
*/
module CertificateFacts {
  import opened Common
  import opened Merkle
  import opened MerkleProofs
  import opened Certificate
  import CivilDate
  import Hex

  // ---------------------------------------------------------------------------
  // Building
  // ---------------------------------------------------------------------------

  /** Index of a leaf that no earlier leaf equals. */
  predicate IsFirst(leaves: seq<Digest>, leaf: Digest, i: int) {
    0 <= i < |leaves| && leaves[i] == leaf && forall j :: 0 <= j < i ==> leaves[j] != leaf
  }

  /** The item of a target: its digest in hex, its own words, and the place and path of the leaf or the miss. */
  ghost predicate Describes(sha: Hash, item: Item, target: Target, leaves: seq<Digest>) {
    && Hex.Decode(item.leaf) == Some(target.leaf) && Hex.Lower(item.leaf) == item.leaf
    && item.leafAlg == target.leafAlg && item.caption == target.caption
    && if target.leaf in leaves then
         && IsFirst(leaves, target.leaf, item.index) && item.verified && item.error == None
         && |item.proof| == |AuditPath(sha, leaves, item.index)|
         && forall k :: 0 <= k < |item.proof| ==>
              Hex.Decode(item.proof[k]) == Some(AuditPath(sha, leaves, item.index)[k]) && Hex.Lower(item.proof[k]) == item.proof[k]
       else
         item.index == -1 && item.proof == [] && !item.verified && item.error == Some("leaf not found in the committed leaf set")
  }

  /** Text out of the encoder reads back, and is lower-case. */
  lemma HexText(bytes: Bytes)
    ensures Hex.Decode(Hex.Encode(bytes)) == Some(bytes) && Hex.Lower(Hex.Encode(bytes)) == Hex.Encode(bytes)
  {
    Hex.DecodeEncode(bytes);
    Hex.EncodeDecode(Hex.Encode(bytes));
  }

  lemma FoundItem(sha: Hash, target: Target, leaves: seq<Digest>, index: nat)
    requires 0 < |leaves| <= MAX_TREE_SIZE && FindLeaf(leaves, target.leaf) == Some(index)
    ensures BuildItem(sha, target, leaves, Root(sha, leaves)) ==
      Ok(Item(Hex.Encode(target.leaf), target.leafAlg, index, HexAll(AuditPath(sha, leaves, index)), true, target.caption, None))
  {
    hide Hex.Encode;
    hide HexAll;
    hide Root;
    hide AuditPath;
    hide Verifies;
    Completeness(sha, leaves, index);
  }

  lemma PathInHex(path: seq<Digest>)
    ensures forall k :: 0 <= k < |path| ==> Hex.Decode(HexAll(path)[k]) == Some(path[k]) && Hex.Lower(HexAll(path)[k]) == HexAll(path)[k]
  {
    hide Hex.Encode;
    hide Hex.Decode;
    hide Hex.Lower;
    forall k | 0 <= k < |path|
      ensures Hex.Decode(HexAll(path)[k]) == Some(path[k]) && Hex.Lower(HexAll(path)[k]) == HexAll(path)[k]
    {
      HexAt(path, k);
      HexText(path[k]);
    }
  }

  lemma FirstFound(leaves: seq<Digest>, leaf: Digest)
    requires leaf in leaves
    ensures FindLeaf(leaves, leaf).Some? && IsFirst(leaves, leaf, FindLeaf(leaves, leaf).value)
  {
    var index := FindLeaf(leaves, leaf).value;
    assert forall j :: 0 <= j < index ==> leaves[j] == leaves[..index][j];
  }

  lemma MissedItem(sha: Hash, target: Target, leaves: seq<Digest>)
    requires target.leaf !in leaves && leaves != []
    ensures BuildItem(sha, target, leaves, Root(sha, leaves)) ==
      Ok(Item(Hex.Encode(target.leaf), target.leafAlg, -1, [], false, target.caption, Some("leaf not found in the committed leaf set")))
  {
    hide Hex.Encode;
    hide Root;
  }

  lemma ItemDescribes(sha: Hash, target: Target, leaves: seq<Digest>)
    requires leaves != [] && (target.leaf in leaves ==> |leaves| <= MAX_TREE_SIZE)
    ensures BuildItem(sha, target, leaves, Root(sha, leaves)).Ok?
    ensures Describes(sha, BuildItem(sha, target, leaves, Root(sha, leaves)).value, target, leaves)
  {
    hide Hex.Encode;
    hide Hex.Decode;
    hide Hex.Lower;
    hide HexAll;
    hide Root;
    hide AuditPath;
    hide IsFirst;
    hide FindLeaf;
    hide BuildItem;
    HexText(target.leaf);
    if target.leaf in leaves {
      FirstFound(leaves, target.leaf);
      var index := FindLeaf(leaves, target.leaf).value;
      FoundItem(sha, target, leaves, index);
      PathInHex(AuditPath(sha, leaves, index));
    } else {
      MissedItem(sha, target, leaves);
    }
  }

  /** Which error stops the building, by the first check that fails. */
  lemma BuildFails(sha: Hash, anchor: Anchor, merkle: MerkleInput, leaves: seq<Digest>, targets: seq<Target>, generatedAt: string)
    ensures var r := Build(sha, anchor, merkle, leaves, targets, generatedAt);
      if merkle.treeAlg != "rfc9162-sha256" then r == Err(UnsupportedTreeAlg(merkle.treeAlg))
      else if merkle.treeSize != |leaves| then r == Err(TreeSizeMismatch(merkle.treeSize, |leaves|))
      else if leaves == [] then r == Err(NoLeaves)
      else if merkle.root != Root(sha, leaves) then r == Err(RootMismatch)
      else if anchor.blockTime < 0 || anchor.blockTime >= 253_402_300_800 then r == Err(BlockTimeOutOfRange(anchor.blockTime))
      else if |leaves| > 0xffff_ffff && exists t :: t in targets && t.leaf in leaves then r == Err(ProofUnavailable)
      else r.Ok?
  {
    hide Root;
    hide BuildItems;
    hide BuildAnchor;
    hide Hex.Encode;
    if leaves != [] {
      BuildStopsExactly(sha, targets, leaves, Root(sha, leaves));
    }
  }

  /** What a built certificate says: its inputs, the time in words, and an item for every target in turn. */
  lemma BuildContents(sha: Hash, anchor: Anchor, merkle: MerkleInput, leaves: seq<Digest>, targets: seq<Target>, generatedAt: string)
    requires Build(sha, anchor, merkle, leaves, targets, generatedAt).Ok?
    ensures var cert := Build(sha, anchor, merkle, leaves, targets, generatedAt).value;
      && cert.format == "label-309-inclusion-certificate-v1" && cert.generatedAt == generatedAt
      && cert.anchor == AnchorBlock(anchor.chain, anchor.network, anchor.txHash, 309, anchor.blockTime,
                                    CivilDate.FormatIso8601(anchor.blockTime, 0), anchor.details)
      && cert.merkle.treeAlg == "rfc9162-sha256" && cert.merkle.treeSize == |leaves|
      && Hex.Decode(cert.merkle.root) == Some(Root(sha, leaves)) && Hex.Lower(cert.merkle.root) == cert.merkle.root
      && cert.merkle.listUri == merkle.listUri && cert.merkle.listUrl == merkle.listUrl
      && |cert.items| == |targets|
      && forall i :: 0 <= i < |targets| ==> Describes(sha, cert.items[i], targets[i], leaves)
  {
    hide Hex.Encode;
    hide Hex.Decode;
    hide Root;
    hide BuildItem;
    hide BuildItems;
    hide Describes;
    hide CivilDate.FormatIso8601;
    var root := Root(sha, leaves);
    HexText(root);
    BuildStopsExactly(sha, targets, leaves, root);
    forall i | 0 <= i < |targets|
      ensures Describes(sha, Build(sha, anchor, merkle, leaves, targets, generatedAt).value.items[i], targets[i], leaves)
    {
      assert targets[i] in targets;
      ItemAt(sha, targets, leaves, root, i);
      ItemDescribes(sha, targets[i], leaves);
    }
  }

  // ---------------------------------------------------------------------------
  // Re-verification
  // ---------------------------------------------------------------------------

  /** The siblings decoded, all of them digests. */
  ghost predicate Siblings32(proof: seq<string>, path: seq<Digest>) {
    |path| == |proof| && forall k :: 0 <= k < |proof| ==> Hex.Decode(proof[k]) == Some(path[k])
  }

  /** The first sibling that is no digest is at `at`. */
  ghost predicate FirstBad(proof: seq<string>, at: int) {
    && 0 <= at < |proof| && !(Hex.Decode(proof[at]).Some? && |Hex.Decode(proof[at]).value| == 32)
    && forall k :: 0 <= k < at ==> Hex.Decode(proof[k]).Some? && |Hex.Decode(proof[k]).value| == 32
  }

  /** How the siblings from place `i` on are read. */
  lemma {:induction false} ProofRead(proof: seq<string>, i: nat)
    requires i <= |proof| && forall k :: 0 <= k < i ==> Hex.Decode(proof[k]).Some? && |Hex.Decode(proof[k]).value| == 32
    ensures match ParseProof(proof, i)
      case Parsed(path) => |path| == |proof| - i && forall k :: i <= k < |proof| ==> Hex.Decode(proof[k]) == Some(path[k - i])
      case WrongLength => exists at :: FirstBad(proof, at) && Hex.Decode(proof[at]).Some?
      case Malformed(at) => FirstBad(proof, at) && Hex.Decode(proof[at]).None?
    decreases |proof| - i
  {
    hide Hex.Decode;
    if i < |proof| {
      if Hex.Decode(proof[i]).Some? && |Hex.Decode(proof[i]).value| == 32 {
        ProofRead(proof, i + 1);
      } else {
        assert FirstBad(proof, i);
      }
    }
  }

  lemma ProofReadExactly(proof: seq<string>, path: seq<Digest>, at: int)
    ensures Siblings32(proof, path) ==> ParseProof(proof, 0) == Parsed(path)
    ensures FirstBad(proof, at) ==> ParseProof(proof, 0) == if Hex.Decode(proof[at]).None? then Malformed(at) else WrongLength
  {
    hide Hex.Decode;
    hide ParseProof;
    ProofRead(proof, 0);
    match ParseProof(proof, 0)
    case Parsed(read) =>
      if Siblings32(proof, path) {
        assert forall k :: 0 <= k < |proof| ==> path[k] == read[k];
      }
    case _ =>
  }

  /** Every list of siblings is digests throughout or has a first one that is none. */
  lemma ProofCases(proof: seq<string>)
    ensures (exists path :: Siblings32(proof, path)) || exists at :: FirstBad(proof, at)
  {
    hide Hex.Decode;
    hide ParseProof;
    ProofRead(proof, 0);
    match ParseProof(proof, 0)
    case Parsed(path) => assert Siblings32(proof, path);
    case WrongLength =>
    case Malformed(at) => assert FirstBad(proof, at);
  }

  /** The verdict on an item, by the first check that fails; the last is the climb of section 2.1.3.2 of RFC 9162. */
  lemma ItemOutcome(sha: Hash, item: Item, size: nat, root: Bytes, path: seq<Digest>, at: int)
    ensures var v := ItemVerdict(sha, item, size, root);
      && v.index == item.index && v.leaf == item.leaf
      && if item.error.Some? then !v.verified && v.error == Some(Carried(item.error.value))
         else if !(0 <= item.index < size) then !v.verified && v.error == Some(OutOfRange(item.index, size))
         else if Hex.Decode(item.leaf).None? then !v.verified && v.error == Some(MalformedLeaf)
         else if FirstBad(item.proof, at) then
           !v.verified && v.error == if Hex.Decode(item.proof[at]).None? then Some(MalformedProof(at)) else None
         else Siblings32(item.proof, path) ==>
           v.error == None
           && (v.verified <==> |Hex.Decode(item.leaf).value| == 32 && |root| == 32 && size <= 0xffff_ffff
                               && Climb(sha, Hex.Decode(item.leaf).value, item.index, size, path) == Some(root))
    ensures (exists siblings :: Siblings32(item.proof, siblings)) || exists k :: FirstBad(item.proof, k)
  {
    ProofCases(item.proof);
    hide Hex.Decode;
    hide ParseProof;
    hide Climb;
    hide Verifies;
    ProofReadExactly(item.proof, path, at);
    if item.error.None? && 0 <= item.index < size && Hex.Decode(item.leaf).Some? {
      VerifiesExactly(sha, Hex.Decode(item.leaf).value, item.index, size, path, root);
    }
  }

  /** The outcome for a certificate, by the first check that fails; the anchor is echoed whatever happens. */
  lemma VerifyOutcome(sha: Hash, cert: Cert)
    ensures var r := Verify(sha, cert);
      && r.anchorClaim == Anchor(cert.anchor.chain, cert.anchor.network, cert.anchor.txHash, cert.anchor.metadataLabel,
                                 cert.anchor.blockTime, cert.anchor.details)
      && if cert.format != "label-309-inclusion-certificate-v1" then r.error == Some(UnsupportedFormat) && !r.ok && r.items == []
         else if cert.merkle.treeAlg != "rfc9162-sha256" then r.error == Some(UnsupportedAlgorithm) && !r.ok && r.items == []
         else if cert.anchor.chain != "cardano" then r.error == Some(UnsupportedChain) && !r.ok && r.items == []
         else if cert.anchor.metadataLabel != 309 then r.error == Some(UnsupportedLabel) && !r.ok && r.items == []
         else if !(1 <= cert.merkle.treeSize <= 0xffff_ffff) then r.error == Some(SizeOutOfRange) && !r.ok && r.items == []
         else if Hex.Decode(cert.merkle.root).None? then r.error == Some(MalformedRoot) && !r.ok && r.items == []
         else
           && r.error == None && |r.items| == |cert.items|
           && (forall i :: 0 <= i < |cert.items| ==>
                 r.items[i] == ItemVerdict(sha, cert.items[i], cert.merkle.treeSize, Hex.Decode(cert.merkle.root).value))
           && (r.ok <==> cert.items != [] && forall i :: 0 <= i < |cert.items| ==> r.items[i].verified)
  {
    hide Hex.Decode;
    hide ItemVerdict;
    hide Verdicts;
    if Refused(cert).None? {
      var root := Hex.Decode(cert.merkle.root).value;
      forall i | 0 <= i < |cert.items|
        ensures Verdicts(sha, cert.items, cert.merkle.treeSize, root)[i] == ItemVerdict(sha, cert.items[i], cert.merkle.treeSize, root)
      {
        VerdictAt(sha, cert.items, cert.merkle.treeSize, root, i);
      }
    }
  }
}
