/**
  Bech32 without the length cap: text with a human-readable prefix, a separator, five-bit data
  words and six checksum words.

  Text is its UTF-8 bytes. Full Unicode case mapping is a parameter, constrained by `Unicode`.
*/
module Bech32 {
  import opened Common
  import opened Regroup
  import opened Polymod
  import opened Checksum

  datatype Error =
    | EmptyPrefix
    | InvalidPrefix
    | EmptyString
    | MixedCase
    | MissingPrefix
    | DataTooShort
    | InvalidPrefixCharacter
    | InvalidDataCharacter
    | BadChecksum
    | NonCanonicalPadding

  // ---------------------------------------------------------------------------
  // Case
  // ---------------------------------------------------------------------------

  datatype CaseMap = CaseMap(lower: Bytes -> Bytes, upper: Bytes -> Bytes)

  predicate IsAscii(s: Bytes) {
    forall i :: 0 <= i < |s| ==> s[i] < 0x80
  }

  predicate HasUpper(s: Bytes) {
    exists i :: 0 <= i < |s| && 'A' as int <= s[i] <= 'Z' as int
  }

  function AsciiLower(s: Bytes): Bytes {
    seq(|s|, i requires 0 <= i < |s| => if 'A' as int <= s[i] <= 'Z' as int then s[i] + 32 else s[i])
  }

  function AsciiUpper(s: Bytes): Bytes {
    seq(|s|, i requires 0 <= i < |s| => if 'a' as int <= s[i] <= 'z' as int then s[i] - 32 else s[i])
  }

  /** What is asked of the case mapping: ASCII is mapped as usual, and lowering leaves no ASCII capital and something of any text. */
  ghost predicate Unicode(c: CaseMap) {
    && (forall s: Bytes :: IsAscii(s) ==> c.lower(s) == AsciiLower(s) && c.upper(s) == AsciiUpper(s))
    && (forall s: Bytes :: !HasUpper(c.lower(s)) && (s != [] ==> c.lower(s) != []))
  }

  lemma UnicodeConsistent()
    ensures Unicode(CaseMap(AsciiLower, AsciiUpper))
  {
  }

  lemma LowerStays(c: CaseMap, s: Bytes)
    requires Unicode(c) && IsAscii(s) && !HasUpper(s)
    ensures c.lower(s) == s
  {
    assert AsciiLower(s) == s;
  }

  // ---------------------------------------------------------------------------
  // Symbols
  // ---------------------------------------------------------------------------

  const ALPHABET: string := "qpzry9x8gf2tvdw0s3jn54khce6mua7l"

  const SEPARATOR: Byte := '1' as int

  lemma AlphabetDistinct(i: nat, j: nat)
    requires i < j < 32
    ensures ALPHABET[i] != ALPHABET[j]
  {
    if i < 10 {
      FirstDistinct(i, j);
    } else if i < 20 {
      MiddleDistinct(i, j);
    }
  }

  lemma FirstDistinct(i: nat, j: nat)
    requires i < j < 32 && i < 10
    ensures ALPHABET[i] != ALPHABET[j]
  {
  }

  lemma MiddleDistinct(i: nat, j: nat)
    requires 10 <= i < j < 32 && i < 20
    ensures ALPHABET[i] != ALPHABET[j]
  {
  }

  lemma AlphabetPlain(i: nat)
    requires i < 32
    ensures ALPHABET[i] != '1' && ALPHABET[i] as int < 0x80 && !('A' <= ALPHABET[i] <= 'Z')
  {
  }

  function Symbol(w: Word): Byte {
    AlphabetPlain(w);
    ALPHABET[w] as int
  }

  /** The word a character stands for: its first position in the alphabet. */
  function WordFrom(b: Byte, i: nat): (r: Option<Word>)
    requires i <= 32
    ensures r.Some? ==> i <= r.value && Symbol(r.value) == b
    ensures r.None? ==> forall w: Word :: i <= w ==> Symbol(w) != b
    decreases 32 - i
  {
    if i == 32 then None
    else if ALPHABET[i] as int == b then Some(i)
    else WordFrom(b, i + 1)
  }

  lemma SymbolInjective(w: Word, v: Word)
    requires Symbol(w) == Symbol(v)
    ensures w == v
  {
    if w < v {
      AlphabetDistinct(w, v);
    } else if v < w {
      AlphabetDistinct(v, w);
    }
  }

  function Symbols(words: seq<Word>): (s: Bytes)
    ensures |s| == |words|
  {
    if words == [] then [] else Symbols(words[..|words| - 1]) + [Symbol(words[|words| - 1])]
  }

  function WordsOf(s: Bytes): (r: Option<seq<Word>>)
    ensures r.Some? ==> |r.value| == |s|
  {
    if s == [] then Some([])
    else
      match (WordsOf(s[..|s| - 1]), WordFrom(s[|s| - 1], 0))
      case (Some(words), Some(w)) => Some(words + [w])
      case _ => None
  }

  lemma {:induction false} WordsOfSymbols(words: seq<Word>)
    ensures WordsOf(Symbols(words)) == Some(words)
  {
    hide Symbol;
    hide WordFrom;
    if words != [] {
      var n := |words| - 1;
      WordsOfSymbols(words[..n]);
      assert Symbols(words)[..n] == Symbols(words[..n]);
      SymbolInjective(words[n], WordFrom(Symbol(words[n]), 0).value);
      assert words == words[..n] + [words[n]];
    }
  }

  lemma {:induction false} SymbolsOfWords(s: Bytes)
    requires WordsOf(s).Some?
    ensures Symbols(WordsOf(s).value) == s
  {
    hide Symbol;
    hide Symbols;
    hide WordFrom;
    if s == [] {
      EmptySymbols();
    } else {
      var n := |s| - 1;
      SymbolsOfWords(s[..n]);
      SymbolsSnoc(WordsOf(s[..n]).value, WordFrom(s[n], 0).value);
      assert s == s[..n] + [s[n]];
    }
  }

  lemma SymbolsSnoc(words: seq<Word>, w: Word)
    ensures Symbols(words + [w]) == Symbols(words) + [Symbol(w)]
  {
    hide Symbol;
    assert (words + [w])[..|words|] == words;
  }

  lemma EmptySymbols()
    ensures Symbols([]) == []
  {
  }

  lemma {:induction false} SymbolsPlain(words: seq<Word>)
    ensures SEPARATOR !in Symbols(words) && IsAscii(Symbols(words)) && !HasUpper(Symbols(words))
  {
    if words != [] {
      SymbolsPlain(words[..|words| - 1]);
      AlphabetPlain(words[|words| - 1]);
    }
  }

  // ---------------------------------------------------------------------------
  // Checksum over prefix and data
  // ---------------------------------------------------------------------------

  function High(prefix: Bytes): (words: seq<Word>)
    ensures |words| == |prefix|
  {
    seq(|prefix|, i requires 0 <= i < |prefix| => prefix[i] / 32)
  }

  function LowHalf(prefix: Bytes): (words: seq<Word>)
    ensures |words| == |prefix|
  {
    seq(|prefix|, i requires 0 <= i < |prefix| => prefix[i] % 32)
  }

  /** The prefix as words: its high bits, a zero, its low bits. */
  function Expanded(prefix: Bytes): seq<Word> {
    High(prefix) + [0] + LowHalf(prefix)
  }

  const INITIAL: bv32 := 1

  /** The register after the prefix and some words. */
  function Register(prefix: Bytes, words: seq<Word>): bv32 {
    Run(INITIAL, Expanded(prefix) + words)
  }

  predicate ChecksumHolds(prefix: Bytes, words: seq<Word>) {
    Register(prefix, words) == VALID
  }

  predicate AllPrintable(prefix: Bytes) {
    forall i :: 0 <= i < |prefix| ==> 33 <= prefix[i] <= 126
  }

  method FeedPrefix(prefix: Bytes) returns (chk: bv32)
    ensures chk == Register(prefix, [])
  {
    hide Feed;
    chk := INITIAL;
    for i := 0 to |prefix|
      invariant chk == Run(INITIAL, High(prefix)[..i])
    {
      chk := FeedWord(chk, prefix[i] / 32);
      RunSnoc(INITIAL, High(prefix)[..i], High(prefix)[i]);
      assert High(prefix)[..i + 1] == High(prefix)[..i] + [High(prefix)[i]];
    }
    assert High(prefix)[..|prefix|] == High(prefix);
    chk := FeedWord(chk, 0);
    RunSnoc(INITIAL, High(prefix), 0);
    ghost var head := High(prefix) + [0];
    assert head + LowHalf(prefix)[..0] == head;
    for i := 0 to |prefix|
      invariant chk == Run(INITIAL, head + LowHalf(prefix)[..i])
    {
      chk := FeedWord(chk, prefix[i] % 32);
      RunSnoc(INITIAL, head + LowHalf(prefix)[..i], LowHalf(prefix)[i]);
      assert head + LowHalf(prefix)[..i + 1] == head + LowHalf(prefix)[..i] + [LowHalf(prefix)[i]];
    }
    assert head + LowHalf(prefix)[..|prefix|] == Expanded(prefix) + [];
  }

  method FeedWord(state: bv32, w: Word) returns (chk: bv32)
    ensures chk == Feed(state, w)
  {
    chk := PolymodStep(state);
    chk := Xor(chk, Bits(w));
  }

  method FeedWords(state: bv32, words: seq<Word>) returns (chk: bv32)
    ensures chk == Run(state, words)
  {
    hide Feed;
    chk := state;
    for i := 0 to |words|
      invariant chk == Run(state, words[..i])
    {
      chk := FeedWord(chk, words[i]);
      RunSnoc(state, words[..i], words[i]);
      assert words[..i + 1] == words[..i] + [words[i]];
    }
    assert words[..|words|] == words;
  }

  lemma RegisterSplit(prefix: Bytes, words: seq<Word>)
    ensures Register(prefix, words) == Run(Register(prefix, []), words)
    ensures Register(prefix, words) < LIMIT
  {
    hide Run;
    RunAppend(INITIAL, Expanded(prefix), words);
    assert Expanded(prefix) + [] == Expanded(prefix);
    RunBound(INITIAL, Expanded(prefix) + words);
  }

  // ---------------------------------------------------------------------------
  // Encoding
  // ---------------------------------------------------------------------------

  /** The data words and the checksum words that follow them. */
  function WithChecksum(prefix: Bytes, words: seq<Word>): seq<Word> {
    words + CheckWords(Register(prefix, words))
  }

  function Text(prefix: Bytes, words: seq<Word>): Bytes {
    prefix + [SEPARATOR] + Symbols(words)
  }

  function Encoded(c: CaseMap, prefix: Bytes, bytes: Bytes): Result<Bytes, Error> {
    if prefix == [] then Err(EmptyPrefix)
    else if !AllPrintable(c.lower(prefix)) then Err(InvalidPrefix)
    else Ok(Text(c.lower(prefix), WithChecksum(c.lower(prefix), ToWords(bytes))))
  }

  method ChecksumText(prefix: Bytes, words: seq<Word>) returns (r: Result<Bytes, Error>)
    ensures r == if AllPrintable(prefix) then Ok(Symbols(CheckWords(Register(prefix, words)))) else Err(InvalidPrefix)
  {
    hide Run;
    for i := 0 to |prefix|
      invariant forall j :: 0 <= j < i ==> 33 <= prefix[j] <= 126
    {
      if !(33 <= prefix[i] <= 126) {
        return Err(InvalidPrefix);
      }
    }
    var chk := FeedPrefix(prefix);
    chk := FeedWords(chk, words);
    RegisterSplit(prefix, words);
    chk := FeedWords(chk, ZEROS);
    chk := Xor(chk, VALID);
    ghost var groups := Groups(chk);
    var out: Bytes := [];
    for i := 0 to BURST
      invariant out == Symbols(groups[..i])
    {
      GroupsAt(chk, i);
      out := out + [Symbol(Group(chk, i))];
      assert groups[..i + 1][..i] == groups[..i];
    }
    assert groups[..BURST] == groups;
    return Ok(out);
  }

  lemma GroupsAt(chk: bv32, i: nat)
    requires i < BURST
    ensures Groups(chk)[i] == Group(chk, i)
  {
  }

  lemma {:induction false} SymbolsAppend(x: seq<Word>, y: seq<Word>)
    ensures Symbols(x + y) == Symbols(x) + Symbols(y)
  {
    hide Symbol;
    if y == [] {
      assert x + y == x;
    } else {
      assert (x + y)[..|x + y| - 1] == x + y[..|y| - 1];
      SymbolsAppend(x, y[..|y| - 1]);
    }
  }

  method EncodeNoLimit(c: CaseMap, prefix: Bytes, bytes: Bytes) returns (r: Result<Bytes, Error>)
    ensures r == Encoded(c, prefix, bytes)
  {
    hide Symbol;
    hide CheckWords;
    hide Register;
    hide ToWords;
    if prefix == [] {
      return Err(EmptyPrefix);
    }
    var words := BytesToWords(bytes);
    var lowered := c.lower(prefix);
    var payload: Bytes := [];
    for i := 0 to |words|
      invariant payload == Symbols(words[..i])
    {
      payload := payload + [Symbol(words[i])];
      assert words[..i + 1][..i] == words[..i];
    }
    assert words[..|words|] == words;
    var check := ChecksumText(lowered, words);
    if check.Err? {
      return Err(check.error);
    }
    SymbolsAppend(words, CheckWords(Register(lowered, words)));
    var text := lowered + [SEPARATOR] + payload + check.value;
    assert text == Text(lowered, WithChecksum(lowered, words));
    return Ok(text);
  }

  // ---------------------------------------------------------------------------
  // Decoding
  // ---------------------------------------------------------------------------

  /** Where the last separator is. */
  function LastSeparator(s: Bytes): (r: Option<nat>)
    ensures r.Some? ==> r.value < |s| && s[r.value] == SEPARATOR && SEPARATOR !in s[r.value + 1..]
    ensures r.None? ==> SEPARATOR !in s
  {
    if s == [] then None
    else if s[|s| - 1] == SEPARATOR then Some(|s| - 1)
    else
      var r := LastSeparator(s[..|s| - 1]);
      assert s == s[..|s| - 1] + [s[|s| - 1]];
      assert r.Some? ==> s[r.value + 1..] == s[..|s| - 1][r.value + 1..] + [s[|s| - 1]];
      r
  }

  function DecodedLower(s: Bytes): Result<(Bytes, Bytes), Error> {
    match LastSeparator(s)
    case None => Err(MissingPrefix)
    case Some(sep) =>
      var hrp, rest := s[..sep], s[sep + 1..];
      if sep < 1 then Err(MissingPrefix)
      else if |rest| < BURST then Err(DataTooShort)
      else if !AllPrintable(hrp) then Err(InvalidPrefixCharacter)
      else
        match WordsOf(rest)
        case None => Err(InvalidDataCharacter)
        case Some(words) =>
          if !ChecksumHolds(hrp, words) then Err(BadChecksum)
          else
            match ToBytes(words[..|words| - BURST])
            case None => Err(NonCanonicalPadding)
            case Some(data) => Ok((hrp, data))
  }

  function Decoded(c: CaseMap, input: Bytes): Result<(Bytes, Bytes), Error> {
    if input == [] then Err(EmptyString)
    else if input != c.upper(input) && input != c.lower(input) then Err(MixedCase)
    else DecodedLower(c.lower(input))
  }

  method ChecksumValid(prefix: Bytes, words: seq<Word>) returns (ok: bool)
    ensures ok == ChecksumHolds(prefix, words)
  {
    hide Run;
    var chk := FeedPrefix(prefix);
    chk := FeedWords(chk, words);
    RegisterSplit(prefix, words);
    return chk == VALID;
  }

  method ParseWords(rest: Bytes) returns (r: Option<seq<Word>>)
    ensures r == WordsOf(rest)
  {
    hide WordFrom;
    var words: seq<Word> := [];
    for i := 0 to |rest|
      invariant WordsOf(rest[..i]) == Some(words)
    {
      assert rest[..i + 1][..i] == rest[..i];
      var w := WordFrom(rest[i], 0);
      if w.None? {
        WordsOfPrefix(rest, i + 1);
        return None;
      }
      words := words + [w.value];
    }
    assert rest[..|rest|] == rest;
    return Some(words);
  }

  method DecodeNoLimit(c: CaseMap, input: Bytes) returns (r: Result<(Bytes, Bytes), Error>)
    ensures r == Decoded(c, input)
  {
    hide ChecksumHolds;
    hide WordsOf;
    hide LastSeparator;
    hide ToBytes;
    if input == [] {
      return Err(EmptyString);
    }
    var hasLower := input != c.upper(input);
    var hasUpper := input != c.lower(input);
    if hasLower && hasUpper {
      return Err(MixedCase);
    }
    var s := c.lower(input);
    if LastSeparator(s).None? {
      return Err(MissingPrefix);
    }
    var sep := LastSeparator(s).value;
    if sep < 1 {
      return Err(MissingPrefix);
    }
    if |s| - sep - 1 < BURST {
      return Err(DataTooShort);
    }
    var hrp := s[..sep];
    if !AllPrintable(hrp) {
      return Err(InvalidPrefixCharacter);
    }
    var words := ParseWords(s[sep + 1..]);
    if words.None? {
      return Err(InvalidDataCharacter);
    }
    var valid := ChecksumValid(hrp, words.value);
    if !valid {
      return Err(BadChecksum);
    }
    var data := WordsToBytes(words.value[..|words.value| - BURST]);
    return if data.None? then Err(NonCanonicalPadding) else Ok((hrp, data.value));
  }

  lemma {:induction false} WordsOfPrefix(s: Bytes, i: nat)
    requires i <= |s| && WordsOf(s[..i]).None?
    ensures WordsOf(s).None?
    decreases |s| - i
  {
    hide WordFrom;
    if i == |s| {
      assert s[..i] == s;
    } else {
      assert s[..i + 1][..i] == s[..i];
      WordsOfPrefix(s, i + 1);
    }
  }

  // ---------------------------------------------------------------------------
  // Round trips
  // ---------------------------------------------------------------------------

  lemma {:induction false} SeparatorUnique(h: Bytes, rest: Bytes)
    requires SEPARATOR !in rest
    ensures LastSeparator(h + [SEPARATOR] + rest) == Some(|h|)
    decreases |rest|
  {
    var s := h + [SEPARATOR] + rest;
    if rest != [] {
      var n := |rest| - 1;
      assert rest == rest[..n] + [rest[n]];
      SeparatorUnique(h, rest[..n]);
      assert s[..|s| - 1] == h + [SEPARATOR] + rest[..n];
    }
  }

  lemma ChecksumWorks(prefix: Bytes, words: seq<Word>, suffix: seq<Word>)
    requires |suffix| == BURST
    ensures ChecksumHolds(prefix, words + suffix) <==> suffix == CheckWords(Register(prefix, words))
  {
    hide Run;
    hide CheckWords;
    RegisterSplit(prefix, words);
    RunAppend(INITIAL, Expanded(prefix) + words, suffix);
    assert Expanded(prefix) + (words + suffix) == Expanded(prefix) + words + suffix;
    ChecksumExactly(Register(prefix, words), suffix);
  }

  /** What a text with a printable lower-case prefix decodes to. */
  lemma DecodedText(c: CaseMap, h: Bytes, words: seq<Word>)
    requires Unicode(c) && h != [] && AllPrintable(h) && !HasUpper(h) && |words| >= BURST
    ensures Decoded(c, Text(h, words)) ==
      if !ChecksumHolds(h, words) then Err(BadChecksum)
      else match ToBytes(words[..|words| - BURST])
           case None => Err(NonCanonicalPadding)
           case Some(data) => Ok((h, data))
  {
    hide ChecksumHolds;
    hide WordsOf;
    hide LastSeparator;
    hide ToBytes;
    hide Symbols;
    hide HasUpper;
    hide AllPrintable;
    hide IsAscii;
    var s := Text(h, words);
    TextPlain(h, words);
    SymbolsPlain(words);
    LowerStays(c, s);
    SeparatorUnique(h, Symbols(words));
    AroundSeparator(h, Symbols(words));
    WordsOfSymbols(words);
  }

  lemma TextPlain(h: Bytes, words: seq<Word>)
    requires AllPrintable(h) && !HasUpper(h)
    ensures IsAscii(Text(h, words)) && !HasUpper(Text(h, words))
  {
    hide Symbols;
    SymbolsPlain(words);
  }

  lemma AroundSeparator(h: Bytes, rest: Bytes)
    ensures var s := h + [SEPARATOR] + rest;
      s[..|h|] == h && s[|h| + 1..] == rest && s[|h|] == SEPARATOR
  {
  }

  /** Whatever is encoded decodes to the lower-cased prefix and the same bytes, prefixes holding a separator included. */
  lemma EncodeDecode(c: CaseMap, prefix: Bytes, bytes: Bytes)
    requires Unicode(c) && Encoded(c, prefix, bytes).Ok?
    ensures Decoded(c, Encoded(c, prefix, bytes).value) == Ok((c.lower(prefix), bytes))
  {
    hide ChecksumHolds;
    hide ToBytes;
    hide ToWords;
    var h, words := c.lower(prefix), ToWords(bytes);
    var check := CheckWords(Register(h, words));
    ChecksumWorks(h, words, check);
    DecodedText(c, h, words + check);
    assert (words + check)[..|words|] == words;
    BytesToWordsToBytes(bytes);
  }

  /** The parts of an accepted lower-case text. */
  lemma DecodedParts(s: Bytes) returns (words: seq<Word>)
    requires DecodedLower(s).Ok?
    ensures var (hrp, data) := DecodedLower(s).value;
      && hrp != [] && AllPrintable(hrp) && s == Text(hrp, words)
      && |words| >= BURST && ChecksumHolds(hrp, words) && ToBytes(words[..|words| - BURST]) == Some(data)
  {
    hide ChecksumHolds;
    hide ToBytes;
    hide WordsOf;
    hide LastSeparator;
    hide Symbols;
    var sep := LastSeparator(s).value;
    words := WordsOf(s[sep + 1..]).value;
    SymbolsOfWords(s[sep + 1..]);
    assert s == s[..sep] + [SEPARATOR] + s[sep + 1..];
  }

  /** Every accepted text is the encoding of what it decodes to, up to letter case. */
  lemma DecodeEncode(c: CaseMap, input: Bytes)
    requires Unicode(c) && Decoded(c, input).Ok?
    ensures var (hrp, data) := Decoded(c, input).value;
      Encoded(c, hrp, data) == Ok(c.lower(input))
  {
    hide ChecksumHolds;
    hide ToBytes;
    hide ToWords;
    hide Text;
    hide DecodedLower;
    hide CheckWords;
    hide Register;
    var words := DecodedParts(c.lower(input));
    var (hrp, data) := DecodedLower(c.lower(input)).value;
    var n := |words| - BURST;
    TextLower(c, input, hrp, words);
    assert words == words[..n] + words[n..];
    ChecksumWorks(hrp, words[..n], words[n..]);
    WordsToBytesToWords(words[..n]);
  }

  /** The prefix of a lowered text is lower-case already. */
  lemma TextLower(c: CaseMap, input: Bytes, hrp: Bytes, words: seq<Word>)
    requires Unicode(c) && c.lower(input) == Text(hrp, words) && AllPrintable(hrp)
    ensures c.lower(hrp) == hrp
  {
    hide Symbols;
    var s := c.lower(input);
    assert s[..|hrp|] == hrp;
    LowerPrefixStays(c, s, |hrp|);
  }

  lemma LowerPrefixStays(c: CaseMap, s: Bytes, sep: nat)
    requires Unicode(c) && !HasUpper(s) && sep <= |s| && AllPrintable(s[..sep])
    ensures c.lower(s[..sep]) == s[..sep]
  {
    assert forall i :: 0 <= i < sep ==> s[..sep][i] == s[i];
    LowerStays(c, s[..sep]);
  }

  /**
    Error detection at any length: of two texts under one prefix whose data differ only inside six
    neighbouring characters, at most one decodes.
  */
  lemma ErrorsDetected(c: CaseMap, h: Bytes, before: seq<Word>, x: seq<Word>, y: seq<Word>, after: seq<Word>)
    requires Unicode(c) && h != [] && AllPrintable(h) && !HasUpper(h)
    requires |x| == |y| <= BURST <= |before| + |x| + |after| && x != y
    ensures !(Decoded(c, Text(h, before + x + after)).Ok? && Decoded(c, Text(h, before + y + after)).Ok?)
  {
    hide Run;
    hide Text;
    hide Decoded;
    DecodedText(c, h, before + x + after);
    DecodedText(c, h, before + y + after);
    RegisterSplit(h, before + x + after);
    RegisterSplit(h, before + y + after);
    RegisterSplit(h, []);
    BurstDetected(Register(h, []), before, x, y, after);
  }
}
