/** Validation issues and the order they are reported in. */
module PoeIssues {
  import opened LexOrder
  import Utf8

  datatype Segment = Key(key: string) | Index(index: nat)

  type Path = seq<Segment>

  datatype Severity = ErrorSeverity | WarningSeverity | InfoSeverity

  /** The codes this validator raises, in registry order. */
  datatype Code =
    | MalformedCbor
    | SchemaTypeMismatch
    | SchemaMissingRequired
    | SchemaUnknownField
    | SchemaInvalidLiteral
    | SchemaEmptyRecord
    | HashDigestLengthMismatch
    | UnsupportedHashAlg
    | UnsupportedMerkleCommitAlg
    | SchemaMerkleLeafCountInvalid
    | InvalidUri
    | UnauthenticatedCipherForbidden
    | UnsupportedAeadAlg
    | NonceLengthMismatch
    | UnsupportedEnvelopeScheme
    | EncUnsupported
    | EncSlotsEmpty
    | EncSlotInvalidShape
    | UnsupportedKemAlg
    | EncKemRequired
    | KemEpkLengthMismatch
    | KemCtLengthMismatch
    | WrapLengthMismatch
    | EncSlotsMacInvalidLength
    | EncSlotsMacRequired
    | EncSlotsRequired
    | EncSlotsDuplicateKemMaterial
    | EncSlotsTooMany
    | EncEnvelopeTooLarge
    | EncExclusivityViolation
    | EncNoKeyPath
    | EncRequiresContentHash
    | EncPassphraseAlgUnsupported
    | EncPassphraseSaltTooShort
    | EncPassphraseSaltTooLong
    | EncPassphraseArgon2ParamsTooLow
    | EncPassphraseParamsExceedPolicy
    | MalformedSigCoseSign1
    | SignatureUnsupported
    | SigEntryInvalidShape
    | SigEntryKidCoseKeyConflict
    | SigPrivateKeyLeaked
    | SupersedesTxInvalidLength
    | ExtensionUnsupportedCritical
    | CritShapeInvalid

  datatype Issue = Issue(path: Path, code: Code, severity: Severity)

  function SeverityOf(code: Code): Severity {
    if code == EncUnsupported || code == SignatureUnsupported then InfoSeverity else ErrorSeverity
  }

  function Raise(code: Code, path: Path): Issue {
    Issue(path, code, SeverityOf(code))
  }

  function When(condition: bool, code: Code, path: Path): seq<Issue> {
    if condition then [Raise(code, path)] else []
  }

  // ---------------------------------------------------------------------------
  // Order
  // ---------------------------------------------------------------------------

  /** The position of a code in the registry. */
  function Rank(code: Code): nat {
    match code
    case MalformedCbor => 0
    case SchemaTypeMismatch => 1
    case SchemaMissingRequired => 2
    case SchemaUnknownField => 3
    case SchemaInvalidLiteral => 4
    case SchemaEmptyRecord => 5
    case HashDigestLengthMismatch => 6
    case UnsupportedHashAlg => 7
    case UnsupportedMerkleCommitAlg => 8
    case SchemaMerkleLeafCountInvalid => 9
    case InvalidUri => 10
    case UnauthenticatedCipherForbidden => 11
    case UnsupportedAeadAlg => 12
    case NonceLengthMismatch => 13
    case UnsupportedEnvelopeScheme => 14
    case EncUnsupported => 15
    case EncSlotsEmpty => 16
    case EncSlotInvalidShape => 17
    case UnsupportedKemAlg => 18
    case EncKemRequired => 19
    case KemEpkLengthMismatch => 20
    case KemCtLengthMismatch => 21
    case WrapLengthMismatch => 22
    case EncSlotsMacInvalidLength => 23
    case EncSlotsMacRequired => 24
    case EncSlotsRequired => 25
    case EncSlotsDuplicateKemMaterial => 26
    case EncSlotsTooMany => 27
    case EncEnvelopeTooLarge => 28
    case EncExclusivityViolation => 29
    case EncNoKeyPath => 30
    case EncRequiresContentHash => 31
    case EncPassphraseAlgUnsupported => 32
    case EncPassphraseSaltTooShort => 33
    case EncPassphraseSaltTooLong => 34
    case EncPassphraseArgon2ParamsTooLow => 35
    case EncPassphraseParamsExceedPolicy => 36
    case MalformedSigCoseSign1 => 37
    case SignatureUnsupported => 38
    case SigEntryInvalidShape => 39
    case SigEntryKidCoseKeyConflict => 40
    case SigPrivateKeyLeaked => 41
    case SupersedesTxInvalidLength => 42
    case ExtensionUnsupportedCritical => 43
    case CritShapeInvalid => 44
  }

  /** The code at a position of the registry. */
  function CodeAt(n: nat): Code {
    match n
    case 0 => MalformedCbor
    case 1 => SchemaTypeMismatch
    case 2 => SchemaMissingRequired
    case 3 => SchemaUnknownField
    case 4 => SchemaInvalidLiteral
    case 5 => SchemaEmptyRecord
    case 6 => HashDigestLengthMismatch
    case 7 => UnsupportedHashAlg
    case 8 => UnsupportedMerkleCommitAlg
    case 9 => SchemaMerkleLeafCountInvalid
    case 10 => InvalidUri
    case 11 => UnauthenticatedCipherForbidden
    case 12 => UnsupportedAeadAlg
    case 13 => NonceLengthMismatch
    case 14 => UnsupportedEnvelopeScheme
    case 15 => EncUnsupported
    case 16 => EncSlotsEmpty
    case 17 => EncSlotInvalidShape
    case 18 => UnsupportedKemAlg
    case 19 => EncKemRequired
    case 20 => KemEpkLengthMismatch
    case 21 => KemCtLengthMismatch
    case 22 => WrapLengthMismatch
    case 23 => EncSlotsMacInvalidLength
    case 24 => EncSlotsMacRequired
    case 25 => EncSlotsRequired
    case 26 => EncSlotsDuplicateKemMaterial
    case 27 => EncSlotsTooMany
    case 28 => EncEnvelopeTooLarge
    case 29 => EncExclusivityViolation
    case 30 => EncNoKeyPath
    case 31 => EncRequiresContentHash
    case 32 => EncPassphraseAlgUnsupported
    case 33 => EncPassphraseSaltTooShort
    case 34 => EncPassphraseSaltTooLong
    case 35 => EncPassphraseArgon2ParamsTooLow
    case 36 => EncPassphraseParamsExceedPolicy
    case 37 => MalformedSigCoseSign1
    case 38 => SignatureUnsupported
    case 39 => SigEntryInvalidShape
    case 40 => SigEntryKidCoseKeyConflict
    case 41 => SigPrivateKeyLeaked
    case 42 => SupersedesTxInvalidLength
    case 43 => ExtensionUnsupportedCritical
    case _ => CritShapeInvalid
  }

  lemma CodeAtLow(code: Code)
    requires Rank(code) < 15
    ensures CodeAt(Rank(code)) == code
  {
  }

  lemma CodeAtMiddle(code: Code)
    requires 15 <= Rank(code) < 30
    ensures CodeAt(Rank(code)) == code
  {
  }

  lemma CodeAtHigh(code: Code)
    requires 30 <= Rank(code)
    ensures CodeAt(Rank(code)) == code
  {
  }

  /** No two codes share a position. */
  lemma CodeAtRank(code: Code)
    ensures CodeAt(Rank(code)) == code
  {
    hide Rank;
    hide CodeAt;
    if Rank(code) < 15 {
      CodeAtLow(code);
    } else if Rank(code) < 30 {
      CodeAtMiddle(code);
    } else {
      CodeAtHigh(code);
    }
  }

  /** Indices by value, texts by their UTF-8 bytes, an index before a text. */
  predicate SegmentLess(a: Segment, b: Segment) {
    match (a, b)
    case (Index(x), Index(y)) => x < y
    case (Index(_), Key(_)) => true
    case (Key(_), Index(_)) => false
    case (Key(x), Key(y)) => Less(Utf8.Encode(x), Utf8.Encode(y))
  }

  predicate PathLess(a: Path, b: Path) {
    b != [] && (a == [] || SegmentLess(a[0], b[0]) || (a[0] == b[0] && PathLess(a[1..], b[1..])))
  }

  predicate IssueLess(a: Issue, b: Issue) {
    PathLess(a.path, b.path) || (a.path == b.path && Rank(a.code) < Rank(b.code))
  }

  lemma SegmentOrder(a: Segment, b: Segment, c: Segment)
    ensures !SegmentLess(a, a)
    ensures SegmentLess(a, b) && SegmentLess(b, c) ==> SegmentLess(a, c)
    ensures SegmentLess(a, b) || a == b || SegmentLess(b, a)
  {
    match a
    case Index(_) =>
    case Key(x) =>
      Irreflexive(Utf8.Encode(x));
      if b.Key? {
        Total(Utf8.Encode(x), Utf8.Encode(b.key));
        if Utf8.Encode(x) == Utf8.Encode(b.key) {
          Utf8.DecodeEncode(x);
          Utf8.DecodeEncode(b.key);
        }
        if c.Key? && Less(Utf8.Encode(x), Utf8.Encode(b.key)) && Less(Utf8.Encode(b.key), Utf8.Encode(c.key)) {
          Transitive(Utf8.Encode(x), Utf8.Encode(b.key), Utf8.Encode(c.key));
        }
      }
  }

  lemma {:induction false} PathOrder(a: Path, b: Path, c: Path)
    ensures !PathLess(a, a)
    ensures PathLess(a, b) && PathLess(b, c) ==> PathLess(a, c)
    ensures PathLess(a, b) || a == b || PathLess(b, a)
    decreases |a|
  {
    hide SegmentLess;
    if a != [] {
      PathOrder(a[1..], if b == [] then [] else b[1..], if c == [] then [] else c[1..]);
      SegmentOrder(a[0], if b == [] then a[0] else b[0], if c == [] then a[0] else c[0]);
      assert a == [a[0]] + a[1..];
      if b != [] {
        assert b == [b[0]] + b[1..];
      }
    }
  }

  /** A strict order on path and code: total up to issues that agree on both. */
  lemma IssueOrder(a: Issue, b: Issue, c: Issue)
    ensures !IssueLess(a, a)
    ensures IssueLess(a, b) && IssueLess(b, c) ==> IssueLess(a, c)
    ensures IssueLess(a, b) || (a.path == b.path && a.code == b.code) || IssueLess(b, a)
  {
    hide PathLess;
    PathOrder(a.path, b.path, c.path);
    PathOrder(b.path, c.path, a.path);
    hide Rank;
    RankInjective(a.code, b.code);
  }

  lemma RankInjective(a: Code, b: Code)
    ensures Rank(a) == Rank(b) <==> a == b
  {
    hide Rank;
    hide CodeAt;
    CodeAtRank(a);
    CodeAtRank(b);
  }

  /** Put an issue after every issue that is not greater. */
  function InsertIssue(sorted: seq<Issue>, x: Issue): (r: seq<Issue>)
    ensures |r| == |sorted| + 1
    ensures multiset(r) == multiset(sorted) + multiset{x}
  {
    if sorted == [] || !IssueLess(x, sorted[|sorted| - 1]) then sorted + [x]
    else
      assert sorted == sorted[..|sorted| - 1] + [sorted[|sorted| - 1]];
      InsertIssue(sorted[..|sorted| - 1], x) + [sorted[|sorted| - 1]]
  }

  /** The stable sort. */
  function SortIssues(issues: seq<Issue>): (r: seq<Issue>)
    ensures multiset(r) == multiset(issues)
  {
    if issues == [] then []
    else
      assert issues == issues[..|issues| - 1] + [issues[|issues| - 1]];
      InsertIssue(SortIssues(issues[..|issues| - 1]), issues[|issues| - 1])
  }

  ghost predicate InOrder(issues: seq<Issue>) {
    forall i, j :: 0 <= i < j < |issues| ==> !IssueLess(issues[j], issues[i])
  }

  lemma {:induction false} InsertInOrder(sorted: seq<Issue>, x: Issue)
    requires InOrder(sorted)
    ensures InOrder(InsertIssue(sorted, x))
  {
    hide IssueLess;
    if sorted != [] {
      var n := |sorted| - 1;
      var last := sorted[n];
      if IssueLess(x, last) {
        InsertInOrder(sorted[..n], x);
        var front := InsertIssue(sorted[..n], x);
        forall i | 0 <= i < |front|
          ensures !IssueLess(last, front[i])
        {
          assert front[i] in multiset(front);
          if front[i] == x {
            IssueOrder(last, x, last);
          } else {
            assert front[i] in sorted[..n];
          }
        }
      } else {
        forall i | 0 <= i < |sorted|
          ensures !IssueLess(x, sorted[i])
        {
          IssueOrder(x, last, sorted[i]);
          IssueOrder(last, x, sorted[i]);
          SameOrder(x, last, sorted[i]);
        }
      }
    }
  }

  /** Issues that agree on path and code compare alike. */
  lemma SameOrder(x: Issue, y: Issue, z: Issue)
    ensures x.path == y.path && x.code == y.code ==> IssueLess(x, z) == IssueLess(y, z) && IssueLess(z, x) == IssueLess(z, y)
  {
  }

  /** Sorting keeps every issue and puts them in order. */
  lemma {:induction false} SortedInOrder(issues: seq<Issue>)
    ensures InOrder(SortIssues(issues)) && multiset(SortIssues(issues)) == multiset(issues)
  {
    if issues != [] {
      SortedInOrder(issues[..|issues| - 1]);
      InsertInOrder(SortIssues(issues[..|issues| - 1]), issues[|issues| - 1]);
    }
  }

  /** Which of two different segments comes first. */
  lemma SegmentsExactly(x: nat, y: nat, s: string, t: string)
    ensures SegmentLess(Index(x), Index(y)) <==> x < y
    ensures SegmentLess(Index(x), Key(s)) && !SegmentLess(Key(s), Index(x))
    ensures SegmentLess(Key(s), Key(t)) <==>
      var a, b := Utf8.Encode(s), Utf8.Encode(t);
      a < b || exists k :: 0 <= k < |a| && k < |b| && a[..k] == b[..k] && a[k] < b[k]
  {
    LessExactly(Utf8.Encode(s), Utf8.Encode(t));
  }

  /** Where two paths first differ, if neither ends before that. */
  lemma {:induction false} PathsPart(a: Path, b: Path) returns (k: nat)
    requires !(a <= b) && !(b <= a)
    ensures k < |a| && k < |b| && a[..k] == b[..k] && a[k] != b[k]
  {
    assert a == [a[0]] + a[1..] && b == [b[0]] + b[1..];
    if a[0] != b[0] {
      k := 0;
    } else {
      var j := PathsPart(a[1..], b[1..]);
      k := j + 1;
      assert a[..k] == [a[0]] + a[1..][..j] && b[..k] == [b[0]] + b[1..][..j];
    }
  }

  /** The first segment that differs decides. */
  lemma {:induction false} SegmentDecides(a: Path, b: Path, k: nat)
    requires k < |a| && k < |b| && a[..k] == b[..k] && a[k] != b[k]
    ensures PathLess(a, b) <==> SegmentLess(a[k], b[k])
    decreases k
  {
    hide SegmentLess;
    if k > 0 {
      assert a[..k][0] == b[..k][0];
      assert a[1..][..k - 1] == a[..k][1..] && b[1..][..k - 1] == b[..k][1..];
      SegmentDecides(a[1..], b[1..], k - 1);
      SegmentOrder(a[0], a[0], a[0]);
    }
  }

  lemma {:induction false} PrefixFirst(a: Path, b: Path)
    requires a <= b
    ensures PathLess(a, b) <==> |a| < |b|
    ensures !PathLess(b, a)
  {
    hide SegmentLess;
    if a != [] {
      assert a[1..] <= b[1..];
      PrefixFirst(a[1..], b[1..]);
      SegmentOrder(a[0], a[0], a[0]);
    }
  }

  /** The order of paths, by positions: a path before what lies below it, else the first segment that differs decides. */
  lemma PathsExactly(a: Path, b: Path)
    ensures PathLess(a, b) <==> a < b || exists k :: 0 <= k < |a| && k < |b| && a[..k] == b[..k] && SegmentLess(a[k], b[k])
  {
    hide SegmentLess;
    hide PathLess;
    forall k | 0 <= k < |a| && k < |b| && SegmentLess(a[k], b[k])
      ensures a[k] != b[k]
    {
      SegmentOrder(a[k], a[k], a[k]);
    }
    if a <= b {
      PrefixFirst(a, b);
      assert forall k :: 0 <= k < |a| && k < |b| ==> a[k] == b[k];
    } else if b <= a {
      PrefixFirst(b, a);
      assert forall k :: 0 <= k < |a| && k < |b| ==> a[k] == b[k];
    } else {
      var k := PathsPart(a, b);
      SegmentDecides(a, b, k);
      if j :| 0 <= j < |a| && j < |b| && a[..j] == b[..j] && SegmentLess(a[j], b[j]) {
        SegmentDecides(a, b, j);
      }
    }
  }
}
