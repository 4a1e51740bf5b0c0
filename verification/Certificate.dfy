/**
  The inclusion certificate: building one from leaves and targets, and re-verifying one from its
  own bytes alone.
*/
module Certificate {
  import opened Common
  import opened Merkle
  import opened MerkleProofs
  import CivilDate
  import Hex

  const FORMAT: string := "label-309-inclusion-certificate-v1"
  const TREE_ALG: string := "rfc9162-sha256"
  const METADATA_LABEL: nat := 309
  const CHAIN: string := "cardano"
  const NOT_FOUND: string := "leaf not found in the committed leaf set"

  // ---------------------------------------------------------------------------
  // Input and output shapes
  // ---------------------------------------------------------------------------

  datatype AnchorDetails = AnchorDetails(
    blockHeight: Option<int>,
    slot: Option<int>,
    confirmations: Option<int>,
    explorerUrls: Option<seq<string>>)

  datatype Anchor = Anchor(
    chain: string, network: string, txHash: string, metadataLabel: nat, blockTime: int, details: AnchorDetails)

  datatype MerkleInput = MerkleInput(
    treeAlg: string, root: Digest, treeSize: nat, listUri: Option<string>, listUrl: Option<string>)

  datatype Target = Target(leaf: Digest, leafAlg: Option<string>, caption: Option<string>)

  datatype AnchorBlock = AnchorBlock(
    chain: string, network: string, txHash: string, metadataLabel: nat, blockTime: int, blockTimeIso: string,
    details: AnchorDetails)

  datatype MerkleBlock = MerkleBlock(
    treeAlg: string, root: string, treeSize: nat, listUri: Option<string>, listUrl: Option<string>)

  datatype Item = Item(
    leaf: string, leafAlg: Option<string>, index: int, proof: seq<string>, verified: bool,
    caption: Option<string>, error: Option<string>)

  datatype Cert = Cert(
    format: string, generatedAt: string, anchor: AnchorBlock, merkle: MerkleBlock, items: seq<Item>)

  datatype BuildError =
    | UnsupportedTreeAlg(treeAlg: string)
    | TreeSizeMismatch(treeSize: nat, leaves: nat)
    | RootMismatch
    | BlockTimeOutOfRange(blockTime: int)
    | NoLeaves
    /** Not an error value of the source but its panic on a proof it takes to be always available. */
    | ProofUnavailable

  datatype VerdictError =
    | Carried(message: string)
    | OutOfRange(index: int, treeSize: nat)
    | MalformedLeaf
    | MalformedProof(at: nat)

  datatype Verdict = Verdict(index: int, leaf: string, verified: bool, error: Option<VerdictError>)

  datatype Rejection =
    | UnsupportedFormat
    | UnsupportedAlgorithm
    | UnsupportedChain
    | UnsupportedLabel
    | SizeOutOfRange
    | MalformedRoot

  datatype Outcome = Outcome(ok: bool, items: seq<Verdict>, anchorClaim: Anchor, error: Option<Rejection>)

  // ---------------------------------------------------------------------------
  // Building
  // ---------------------------------------------------------------------------

  /** Index of the first leaf equal to `leaf`. */
  function FindLeaf(leaves: seq<Digest>, leaf: Digest): (r: Option<nat>)
    ensures r.Some? ==> r.value < |leaves| && leaves[r.value] == leaf && leaf !in leaves[..r.value]
    ensures r.None? <==> leaf !in leaves
  {
    if leaves == [] then None
    else if leaves[0] == leaf then Some(0)
    else
      match FindLeaf(leaves[1..], leaf)
      case None => None
      case Some(i) =>
        assert leaves[..i + 1] == [leaves[0]] + leaves[1..][..i];
        Some(i + 1)
  }

  function HexAll(digests: seq<Digest>): (r: seq<string>)
    ensures |r| == |digests|
  {
    if digests == [] then [] else [Hex.Encode(digests[0])] + HexAll(digests[1..])
  }

  function BuildItem(sha: Hash, target: Target, leaves: seq<Digest>, root: Digest): Result<Item, BuildError> {
    match FindLeaf(leaves, target.leaf)
    case None =>
      Ok(Item(Hex.Encode(target.leaf), target.leafAlg, -1, [], false, target.caption, Some(NOT_FOUND)))
    case Some(index) =>
      match MerkleInclusionProof(sha, leaves, index)
      case Err(_) => Err(ProofUnavailable)
      case Ok(siblings) =>
        Ok(Item(Hex.Encode(target.leaf), target.leafAlg, index, HexAll(siblings),
                Verifies(sha, target.leaf, index, |leaves|, siblings, root), target.caption, None))
  }

  function BuildItems(sha: Hash, targets: seq<Target>, leaves: seq<Digest>, root: Digest): (r: Result<seq<Item>, BuildError>)
    ensures r.Ok? ==> |r.value| == |targets|
  {
    if targets == [] then Ok([])
    else
      var item :- BuildItem(sha, targets[0], leaves, root);
      var items :- BuildItems(sha, targets[1..], leaves, root);
      Ok([item] + items)
  }

  function BuildAnchor(anchor: Anchor): AnchorBlock {
    AnchorBlock(anchor.chain, anchor.network, anchor.txHash, METADATA_LABEL, anchor.blockTime,
                CivilDate.FormatIso8601(anchor.blockTime, 0), anchor.details)
  }

  function Build(sha: Hash, anchor: Anchor, merkle: MerkleInput, leaves: seq<Digest>, targets: seq<Target>, generatedAt: string)
    : Result<Cert, BuildError>
  {
    if merkle.treeAlg != TREE_ALG then Err(UnsupportedTreeAlg(merkle.treeAlg))
    else if merkle.treeSize != |leaves| then Err(TreeSizeMismatch(merkle.treeSize, |leaves|))
    else
      match MerkleRoot(sha, leaves)
      case Err(_) => Err(NoLeaves)
      case Ok(root) =>
        if root != merkle.root then Err(RootMismatch)
        else if !(0 <= anchor.blockTime < CivilDate.MAX_BLOCK_TIME) then Err(BlockTimeOutOfRange(anchor.blockTime))
        else
          var items :- BuildItems(sha, targets, leaves, merkle.root);
          Ok(Cert(FORMAT, generatedAt, BuildAnchor(anchor),
                  MerkleBlock(merkle.treeAlg, Hex.Encode(merkle.root), merkle.treeSize, merkle.listUri, merkle.listUrl), items))
  }

  // ---------------------------------------------------------------------------
  // Re-verification
  // ---------------------------------------------------------------------------

  /** What decoding the siblings of one item comes to. */
  datatype Siblings =
    | Parsed(path: seq<Digest>)
    | WrongLength
    | Malformed(at: nat)

  function Prepend(path: seq<Digest>, s: Siblings): Siblings {
    match s
    case Parsed(rest) => Parsed(path + rest)
    case other => other
  }

  /** The siblings from place `i` on, the first unusable one deciding. */
  function ParseProof(proof: seq<string>, i: nat): Siblings
    requires i <= |proof|
    decreases |proof| - i
  {
    if i == |proof| then Parsed([])
    else
      match Hex.Decode(proof[i])
      case None => Malformed(i)
      case Some(bytes) =>
        if |bytes| != DIGEST_LENGTH then WrongLength
        else Prepend([bytes], ParseProof(proof, i + 1))
  }

  function ItemVerdict(sha: Hash, item: Item, treeSize: nat, root: Bytes): Verdict {
    var failed := Verdict(item.index, item.leaf, false, None);
    if item.error.Some? then failed.(error := Some(Carried(item.error.value)))
    else if !(0 <= item.index < treeSize) then failed.(error := Some(OutOfRange(item.index, treeSize)))
    else
      match Hex.Decode(item.leaf)
      case None => failed.(error := Some(MalformedLeaf))
      case Some(leaf) =>
        match ParseProof(item.proof, 0)
        case Malformed(at) => failed.(error := Some(MalformedProof(at)))
        case WrongLength => failed
        case Parsed(path) => failed.(verified := Verifies(sha, leaf, item.index, treeSize, path, root))
  }

  /** The proof vector filled sibling by sibling, up to the first unusable one. */
  method ParseSiblings(proof: seq<string>) returns (s: Siblings)
    ensures s == ParseProof(proof, 0)
  {
    hide Hex.Decode;
    hide ParseProof;
    var path: seq<Digest> := [];
    NothingParsed(ParseProof(proof, 0));
    for i := 0 to |proof|
      invariant ParseProof(proof, 0) == Prepend(path, ParseProof(proof, i))
    {
      ParseStep(proof, i);
      var bytes := Hex.Decode(proof[i]);
      if bytes.None? {
        return Malformed(i);
      }
      if |bytes.value| != DIGEST_LENGTH {
        return WrongLength;
      }
      PrependSnoc(path, bytes.value, ParseProof(proof, i + 1));
      path := path + [bytes.value];
    }
    ParseEnd(proof);
    assert path + [] == path;
    return Parsed(path);
  }

  lemma PrependSnoc(path: seq<Digest>, d: Digest, s: Siblings)
    ensures Prepend(path, Prepend([d], s)) == Prepend(path + [d], s)
  {
    if s.Parsed? {
      assert path + ([d] + s.path) == (path + [d]) + s.path;
    }
  }

  method VerifyItem(sha: Hash, item: Item, treeSize: nat, root: Bytes) returns (v: Verdict)
    ensures v == ItemVerdict(sha, item, treeSize, root)
  {
    hide Verifies;
    hide Hex.Decode;
    hide ParseProof;
    if item.error.Some? {
      return Verdict(item.index, item.leaf, false, Some(Carried(item.error.value)));
    }
    if item.index < 0 || item.index >= treeSize {
      return Verdict(item.index, item.leaf, false, Some(OutOfRange(item.index, treeSize)));
    }
    var leaf := Hex.Decode(item.leaf);
    if leaf.None? {
      return Verdict(item.index, item.leaf, false, Some(MalformedLeaf));
    }
    var siblings := ParseSiblings(item.proof);
    match siblings {
      case Malformed(at) =>
        return Verdict(item.index, item.leaf, false, Some(MalformedProof(at)));
      case WrongLength =>
        return Verdict(item.index, item.leaf, false, None);
      case Parsed(path) =>
        var verified := VerifyInclusion(sha, leaf.value, item.index, treeSize, path, root);
        return Verdict(item.index, item.leaf, verified, None);
    }
  }

  lemma NothingParsed(s: Siblings)
    ensures Prepend([], s) == s
  {
    if s.Parsed? {
      assert [] + s.path == s.path;
    }
  }

  lemma ParseStep(proof: seq<string>, i: nat)
    requires i < |proof|
    ensures ParseProof(proof, i) ==
      match Hex.Decode(proof[i])
      case None => Malformed(i)
      case Some(bytes) => if |bytes| != DIGEST_LENGTH then WrongLength else Prepend([bytes], ParseProof(proof, i + 1))
  {
  }

  lemma ParseEnd(proof: seq<string>)
    ensures ParseProof(proof, |proof|) == Parsed([])
  {
  }

  function Verdicts(sha: Hash, items: seq<Item>, treeSize: nat, root: Bytes): (r: seq<Verdict>)
    ensures |r| == |items|
  {
    if items == [] then []
    else [ItemVerdict(sha, items[0], treeSize, root)] + Verdicts(sha, items[1..], treeSize, root)
  }

  function AnchorClaim(cert: Cert): Anchor {
    Anchor(cert.anchor.chain, cert.anchor.network, cert.anchor.txHash, cert.anchor.metadataLabel, cert.anchor.blockTime,
           cert.anchor.details)
  }

  /** Why a certificate is refused as a whole, if it is. */
  function Refused(cert: Cert): Option<Rejection> {
    if cert.format != FORMAT then Some(UnsupportedFormat)
    else if cert.merkle.treeAlg != TREE_ALG then Some(UnsupportedAlgorithm)
    else if cert.anchor.chain != CHAIN then Some(UnsupportedChain)
    else if cert.anchor.metadataLabel != METADATA_LABEL then Some(UnsupportedLabel)
    else if cert.merkle.treeSize < 1 || cert.merkle.treeSize > MAX_TREE_SIZE then Some(SizeOutOfRange)
    else if Hex.Decode(cert.merkle.root).None? then Some(MalformedRoot)
    else None
  }

  function Verify(sha: Hash, cert: Cert): Outcome {
    match Refused(cert)
    case Some(e) => Outcome(false, [], AnchorClaim(cert), Some(e))
    case None =>
      var items := Verdicts(sha, cert.items, cert.merkle.treeSize, Hex.Decode(cert.merkle.root).value);
      Outcome(items != [] && (forall i :: 0 <= i < |items| ==> items[i].verified), items, AnchorClaim(cert), None)
  }

  // ---------------------------------------------------------------------------
  // What building and re-verifying agree on
  // ---------------------------------------------------------------------------

  lemma {:induction false} VerdictAt(sha: Hash, items: seq<Item>, treeSize: nat, root: Bytes, i: nat)
    requires i < |items|
    ensures Verdicts(sha, items, treeSize, root)[i] == ItemVerdict(sha, items[i], treeSize, root)
  {
    hide ItemVerdict;
    if i > 0 {
      VerdictAt(sha, items[1..], treeSize, root, i - 1);
    }
  }

  lemma {:induction false} ItemAt(sha: Hash, targets: seq<Target>, leaves: seq<Digest>, root: Digest, i: nat)
    requires i < |targets| && BuildItems(sha, targets, leaves, root).Ok?
    ensures BuildItem(sha, targets[i], leaves, root) == Ok(BuildItems(sha, targets, leaves, root).value[i])
  {
    hide BuildItem;
    if i > 0 {
      ItemAt(sha, targets[1..], leaves, root, i - 1);
    }
  }

  lemma {:induction false} ParseHex(digests: seq<Digest>, i: nat)
    requires i <= |digests|
    ensures ParseProof(HexAll(digests), i) == Parsed(digests[i..])
    decreases |digests| - i
  {
    hide Hex.Encode;
    hide Hex.Decode;
    if i < |digests| {
      HexAt(digests, i);
      Hex.DecodeEncode(digests[i]);
      ParseHex(digests, i + 1);
      assert digests[i..] == [digests[i]] + digests[i + 1..];
    }
  }

  lemma {:induction false} HexAt(digests: seq<Digest>, i: nat)
    requires i < |digests|
    ensures HexAll(digests)[i] == Hex.Encode(digests[i])
  {
    hide Hex.Encode;
    if i > 0 {
      HexAt(digests[1..], i - 1);
    }
  }

  /** A built item re-verifies exactly when its target is a leaf, and then its stored flag says so too. */
  lemma BuiltItemVerdict(sha: Hash, target: Target, leaves: seq<Digest>)
    requires 0 < |leaves| <= MAX_TREE_SIZE
    ensures var root := Root(sha, leaves);
      && BuildItem(sha, target, leaves, root).Ok?
      && var item := BuildItem(sha, target, leaves, root).value;
      && item.verified == (target.leaf in leaves)
      && ItemVerdict(sha, item, |leaves|, root) ==
           if target.leaf in leaves
           then Verdict(FindLeaf(leaves, target.leaf).value, Hex.Encode(target.leaf), true, None)
           else Verdict(-1, Hex.Encode(target.leaf), false, Some(Carried(NOT_FOUND)))
  {
    hide Hex.Encode;
    hide Hex.Decode;
    hide Root;
    hide AuditPath;
    hide FoldedRoot;
    if target.leaf in leaves {
      var index := FindLeaf(leaves, target.leaf).value;
      var path := AuditPath(sha, leaves, index);
      Completeness(sha, leaves, index);
      Hex.DecodeEncode(target.leaf);
      ParseHex(path, 0);
      assert path[0..] == path;
    }
  }

  /** Building stops at an unavailable proof exactly when the tree is too large and some target is in it. */
  lemma BuildStopsExactly(sha: Hash, targets: seq<Target>, leaves: seq<Digest>, root: Digest)
    ensures BuildItems(sha, targets, leaves, root).Err? <==> |leaves| > MAX_TREE_SIZE && exists t :: t in targets && t.leaf in leaves
    ensures BuildItems(sha, targets, leaves, root).Err? ==> BuildItems(sha, targets, leaves, root).error == ProofUnavailable
  {
    hide Hex.Encode;
    hide Verifies;
    hide AuditPath;
    if targets != [] {
      var found := FindLeaf(leaves, targets[0].leaf);
      assert BuildItem(sha, targets[0], leaves, root).Err? <==> |leaves| > MAX_TREE_SIZE && targets[0].leaf in leaves;
      BuildStopsExactly(sha, targets[1..], leaves, root);
      assert targets == [targets[0]] + targets[1..];
    }
  }

  /**
    Agreement: a certificate that was built re-verifies exactly when there is a target, every
    target is a leaf, and the anchor names the chain; each verdict equals the stored flag.
  */
  lemma BuildVerifyAgree(sha: Hash, anchor: Anchor, merkle: MerkleInput, leaves: seq<Digest>, targets: seq<Target>,
                         generatedAt: string)
    requires Build(sha, anchor, merkle, leaves, targets, generatedAt).Ok?
    ensures var cert := Build(sha, anchor, merkle, leaves, targets, generatedAt).value;
      && (Verify(sha, cert).ok <==> targets != [] && anchor.chain == CHAIN && forall t :: t in targets ==> t.leaf in leaves)
      && (anchor.chain == CHAIN && |leaves| <= MAX_TREE_SIZE ==>
            (|Verify(sha, cert).items| == |targets| &&
             forall i :: 0 <= i < |targets| ==>
               Verify(sha, cert).items[i].verified == cert.items[i].verified == (targets[i].leaf in leaves)))
  {
    hide Hex.Encode;
    hide Hex.Decode;
    hide Root;
    hide BuildItem;
    hide ItemVerdict;
    hide CivilDate.FormatIso8601;
    var cert := Build(sha, anchor, merkle, leaves, targets, generatedAt).value;
    var root := Root(sha, leaves);
    Hex.DecodeEncode(root);
    if |leaves| > MAX_TREE_SIZE {
      BuildStopsExactly(sha, targets, leaves, root);
      assert targets != [] ==> targets[0] in targets;
    } else if anchor.chain == CHAIN {
      assert Refused(cert).None?;
      forall i | 0 <= i < |targets|
        ensures Verify(sha, cert).items[i].verified == cert.items[i].verified == (targets[i].leaf in leaves)
      {
        ItemAt(sha, targets, leaves, root, i);
        VerdictAt(sha, cert.items, |leaves|, root, i);
        BuiltItemVerdict(sha, targets[i], leaves);
      }
      assert (forall i :: 0 <= i < |targets| ==> targets[i].leaf in leaves) <==> forall t :: t in targets ==> t.leaf in leaves;
    }
  }

  /** The certificate with other verdicts stored in it. */
  function Reflagged(items: seq<Item>, flags: seq<bool>): (r: seq<Item>)
    requires |flags| == |items|
    ensures |r| == |items|
  {
    if items == [] then [] else [items[0].(verified := flags[0])] + Reflagged(items[1..], flags[1..])
  }

  lemma {:induction false} VerdictsIgnoreFlags(sha: Hash, items: seq<Item>, flags: seq<bool>, treeSize: nat, root: Bytes)
    requires |flags| == |items|
    ensures Verdicts(sha, Reflagged(items, flags), treeSize, root) == Verdicts(sha, items, treeSize, root)
  {
    if items != [] {
      VerdictsIgnoreFlags(sha, items[1..], flags[1..], treeSize, root);
      assert Reflagged(items, flags)[1..] == Reflagged(items[1..], flags[1..]);
    }
  }

  /** The stored flags are never trusted: rewriting them changes nothing. */
  lemma FlagsIgnored(sha: Hash, cert: Cert, flags: seq<bool>)
    requires |flags| == |cert.items|
    ensures Verify(sha, cert.(items := Reflagged(cert.items, flags))) == Verify(sha, cert)
  {
    hide Hex.Decode;
    hide Verdicts;
    hide Reflagged;
    hide Refused;
    RefusedReads(cert, Reflagged(cert.items, flags));
    if Refused(cert).None? {
      VerdictsIgnoreFlags(sha, cert.items, flags, cert.merkle.treeSize, Hex.Decode(cert.merkle.root).value);
    }
  }

  /** Whether a certificate is refused outright does not depend on its items. */
  lemma RefusedReads(cert: Cert, items: seq<Item>)
    ensures Refused(cert.(items := items)) == Refused(cert)
    ensures AnchorClaim(cert.(items := items)) == AnchorClaim(cert)
    ensures Refused(cert).None? ==> Hex.Decode(cert.merkle.root).Some?
  {
    hide Hex.Decode;
  }

  /**
    Soundness end to end: when any certificate verifies against the root and size of a leaf list,
    every item names the leaf at its index, or a hash collision has been computed.
  */
  lemma VerifiedItemsIncluded(sha: Hash, cert: Cert, leaves: seq<Digest>, i: nat)
    requires leaves != [] && Verify(sha, cert).ok && i < |cert.items|
    requires cert.merkle.treeSize == |leaves| && Hex.Decode(cert.merkle.root) == Some(Root(sha, leaves))
    ensures 0 <= cert.items[i].index < |leaves| && Hex.Decode(cert.items[i].leaf).Some?
    ensures ParseProof(cert.items[i].proof, 0).Parsed?
    ensures var index: nat := cert.items[i].index;
      var leaf, path := Hex.Decode(cert.items[i].leaf).value, ParseProof(cert.items[i].proof, 0).path;
      || (leaf == leaves[index] && path == AuditPath(sha, leaves, index))
      || IsCollision(sha, ForgeryCollision(sha, leaves, leaf, index, path))
  {
    hide Hex.Decode;
    hide ParseProof;
    hide Verifies;
    hide AuditPath;
    hide Root;
    hide IsCollision;
    hide ForgeryCollision;
    var root := Hex.Decode(cert.merkle.root).value;
    VerdictAt(sha, cert.items, |leaves|, root, i);
    assert Verify(sha, cert).items[i].verified;
    assert ItemVerdict(sha, cert.items[i], |leaves|, root).verified;
    Soundness(sha, leaves, Hex.Decode(cert.items[i].leaf).value, cert.items[i].index, ParseProof(cert.items[i].proof, 0).path);
  }
}
