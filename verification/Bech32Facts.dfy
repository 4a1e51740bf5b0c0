/**
  The text format of BIP-173 pinned down: its symbols, two of its sample texts, and what decoding answers
  on every text.
*/
module Bech32Facts {
  import opened Common
  import opened Regroup
  import opened Polymod
  import opened Checksum
  import opened Bech32
  import Bch

  /** The symbols as the four rows of eight in which the proposal lists them. */
  lemma SymbolTable(w: Word)
    ensures Symbol(w) == (if w < 8 then "qpzry9x8"[w] else if w < 16 then "gf2tvdw0"[w - 8]
                          else if w < 24 then "s3jn54kh"[w - 16] else "ce6mua7l"[w - 24]) as int
  {
    if w < 8 {
      FirstRows(w);
    } else if w < 16 {
      FirstRows(w);
    } else {
      LastRows(w);
    }
  }

  lemma FirstRows(w: Word)
    requires w < 16
    ensures ALPHABET[w] == if w < 8 then "qpzry9x8"[w] else "gf2tvdw0"[w - 8]
  {
  }

  lemma LastRows(w: Word)
    requires 16 <= w
    ensures ALPHABET[w] == if w < 24 then "s3jn54kh"[w - 16] else "ce6mua7l"[w - 24]
  {
  }

  lemma Fed(state: bv32, w: Word)
    ensures Feed(state, w) ==
      Xor(Xor(Xor(Xor(Xor(Xor(Low(state), Pick(Top(state), 0)), Pick(Top(state), 1)), Pick(Top(state), 2)), Pick(Top(state), 3)),
              Pick(Top(state), 4)), Bits(w))
  {
    hide Step;
    hide Xor;
    hide Low;
    hide Pick;
    hide Top;
    hide Bits;
    Bch.StepSum(state);
  }

  /** The state that word `i` meets. */
  function Before(state: bv32, states: seq<bv32>, i: nat): bv32
    requires i <= |states|
  {
    if i == 0 then state else states[i - 1]
  }

  /** The register goes through these states. */
  predicate Passes(state: bv32, words: seq<Word>, states: seq<bv32>) {
    |states| == |words| && forall i :: 0 <= i < |words| ==> Feed(Before(state, states, i), words[i]) == states[i]
  }

  lemma {:induction false} RunsThrough(state: bv32, words: seq<Word>, states: seq<bv32>)
    requires Passes(state, words, states) && words != []
    ensures Run(state, words) == states[|states| - 1]
    decreases |words|
  {
    hide Feed;
    assert Feed(state, words[0]) == states[0];
    if |words| > 1 {
      assert forall i :: 0 < i < |words[1..]| ==> words[1..][i] == words[i + 1] && states[1..][i] == states[i + 1] && states[1..][i - 1] == states[i];
      RunsThrough(states[0], words[1..], states[1..]);
    } else {
      assert words[1..] == [];
    }
  }

  /** The register over the expanded prefix and the data of the two shortest samples. */
  lemma SampleRegisters()
    ensures Run(1, [3, 0, 1, 10, 28, 25, 31, 20, 31]) == 1
    ensures Run(1, [1, 0, 31, 25, 2, 4, 9, 24, 31]) == 1
  {
    var a := [0x23, 0x460, 0x8c01, 0x11_802a, 0x230_055c, 0x3d6a_fc2b, 0x2f8_4386, 0x2462_2766, 0x1];
    var q := [0x21, 0x420, 0x841f, 0x10_83f9, 0x210_7f22, 0x3965_b3f6, 0x2541_365d, 0x2462_2766, 0x1];
    SampleSteps(a, q);
    hide Feed;
    RunsThrough(1, [3, 0, 1, 10, 28, 25, 31, 20, 31], a);
    RunsThrough(1, [1, 0, 31, 25, 2, 4, 9, 24, 31], q);
  }

  lemma SampleSteps(a: seq<bv32>, q: seq<bv32>)
    requires a == [0x23, 0x460, 0x8c01, 0x11_802a, 0x230_055c, 0x3d6a_fc2b, 0x2f8_4386, 0x2462_2766, 0x1]
    requires q == [0x21, 0x420, 0x841f, 0x10_83f9, 0x210_7f22, 0x3965_b3f6, 0x2541_365d, 0x2462_2766, 0x1]
    ensures Passes(1, [3, 0, 1, 10, 28, 25, 31, 20, 31], a) && Passes(1, [1, 0, 31, 25, 2, 4, 9, 24, 31], q)
  {
    hide Feed;
    FirstHalf();
    FirstWords();
    SecondHalf();
    FirstHalfQ();
    FirstWordsQ();
    SecondHalfQ();
  }

  lemma FirstHalf()
    ensures Feed(0x1, 3) == 0x23 && Feed(0x23, 0) == 0x460 && Feed(0x460, 1) == 0x8c01
  {
    hide Feed;
    Fed(0x1, 3);
    Fed(0x23, 0);
    Fed(0x460, 1);
  }

  lemma FirstWords()
    ensures Feed(0x8c01, 10) == 0x11_802a && Feed(0x11_802a, 28) == 0x230_055c
  {
    hide Feed;
    Fed(0x8c01, 10);
    Fed(0x11_802a, 28);
  }

  lemma SecondHalf()
    ensures Feed(0x230_055c, 25) == 0x3d6a_fc2b && Feed(0x3d6a_fc2b, 31) == 0x2f8_4386 && Feed(0x2f8_4386, 20) == 0x2462_2766
    ensures Feed(0x2462_2766, 31) == 0x1
  {
    hide Feed;
    Fed(0x230_055c, 25);
    Fed(0x3d6a_fc2b, 31);
    Fed(0x2f8_4386, 20);
    Fed(0x2462_2766, 31);
  }

  lemma FirstHalfQ()
    ensures Feed(0x1, 1) == 0x21 && Feed(0x21, 0) == 0x420 && Feed(0x420, 31) == 0x841f
  {
    hide Feed;
    Fed(0x1, 1);
    Fed(0x21, 0);
    Fed(0x420, 31);
  }

  lemma FirstWordsQ()
    ensures Feed(0x841f, 25) == 0x10_83f9 && Feed(0x10_83f9, 2) == 0x210_7f22
  {
    hide Feed;
    Fed(0x841f, 25);
    Fed(0x10_83f9, 2);
  }

  lemma SecondHalfQ()
    ensures Feed(0x210_7f22, 4) == 0x3965_b3f6 && Feed(0x3965_b3f6, 9) == 0x2541_365d && Feed(0x2541_365d, 24) == 0x2462_2766
    ensures Feed(0x2462_2766, 31) == 0x1
  {
    hide Feed;
    Fed(0x210_7f22, 4);
    Fed(0x3965_b3f6, 9);
    Fed(0x2541_365d, 24);
    Fed(0x2462_2766, 31);
  }

  /** The words of the sample data, as text. */
  lemma SampleSymbols()
    ensures Symbols([10, 28, 25, 31, 20, 31]) == [0x32, 0x75, 0x65, 0x6c, 0x35, 0x6c]
    ensures Symbols([25, 2, 4, 9, 24, 31]) == [0x65, 0x7a, 0x79, 0x66, 0x63, 0x6c]
  {
    hide Symbols;
    hide Symbol;
    SixSymbols([10, 28, 25, 31, 20, 31]);
    SixSymbols([25, 2, 4, 9, 24, 31]);
    SampleCharacters();
  }

  lemma SampleCharacters()
    ensures Symbol(10) == 0x32 && Symbol(28) == 0x75 && Symbol(25) == 0x65 && Symbol(31) == 0x6c && Symbol(20) == 0x35
    ensures Symbol(2) == 0x7a && Symbol(4) == 0x79 && Symbol(9) == 0x66 && Symbol(24) == 0x63
  {
  }

  lemma SixSymbols(words: seq<Word>)
    requires |words| == 6
    ensures Symbols(words) ==
      [Symbol(words[0]), Symbol(words[1]), Symbol(words[2]), Symbol(words[3]), Symbol(words[4]), Symbol(words[5])]
  {
    hide Symbol;
    SymbolsPrefix(words, 1);
    SymbolsPrefix(words, 2);
    SymbolsPrefix(words, 3);
    SymbolsPrefix(words, 4);
    SymbolsPrefix(words, 5);
    SymbolsPrefix(words, 6);
    assert words[..6] == words && words[..0] == [];
  }

  lemma SymbolsPrefix(words: seq<Word>, i: nat)
    requires 0 < i <= |words|
    ensures Symbols(words[..i]) == Symbols(words[..i - 1]) + [Symbol(words[i - 1])]
  {
    hide Symbol;
    assert words[..i][..i - 1] == words[..i - 1];
  }

  /** Six words of checksum after a prefix of one character, and nothing else. */
  lemma SampleDecodes(c: CaseMap, p: Byte, words: seq<Word>)
    requires Unicode(c) && 33 <= p <= 126 && !('A' as int <= p <= 'Z' as int) && |words| == 6
    requires Run(1, [p / 32, 0, p % 32] + words) == 1
    ensures Decoded(c, Text([p], words)) == Ok(([p], []))
  {
    hide Run;
    hide Text;
    hide Decoded;
    DecodedText(c, [p], words);
    assert Expanded([p]) == [p / 32, 0, p % 32];
    assert words[..|words| - BURST] == [];
    NothingRegrouped();
  }

  lemma NothingRegrouped()
    ensures ToBytes([]) == Some([])
  {
    BytesToWordsToBytes([]);
    assert ToWords([]) == [];
  }

  /** The two shortest samples of the proposal, a12uel5l and ?1ezyfcl: a prefix each and no data. */
  lemma SampleTexts(c: CaseMap)
    requires Unicode(c)
    ensures Decoded(c, [0x61, 0x31, 0x32, 0x75, 0x65, 0x6c, 0x35, 0x6c]) == Ok(([0x61], []))
    ensures Decoded(c, [0x3f, 0x31, 0x65, 0x7a, 0x79, 0x66, 0x63, 0x6c]) == Ok(([0x3f], []))
  {
    hide Run;
    hide Decoded;
    hide Symbols;
    SampleRegisters();
    SampleSymbols();
    assert [3, 0, 1] + [10, 28, 25, 31, 20, 31] == [3, 0, 1, 10, 28, 25, 31, 20, 31];
    assert [1, 0, 31] + [25, 2, 4, 9, 24, 31] == [1, 0, 31, 25, 2, 4, 9, 24, 31];
    SampleDecodes(c, 0x61, [10, 28, 25, 31, 20, 31]);
    SampleDecodes(c, 0x3f, [25, 2, 4, 9, 24, 31]);
    assert Text([0x61], [10, 28, 25, 31, 20, 31]) == [0x61, 0x31, 0x32, 0x75, 0x65, 0x6c, 0x35, 0x6c];
    assert Text([0x3f], [25, 2, 4, 9, 24, 31]) == [0x3f, 0x31, 0x65, 0x7a, 0x79, 0x66, 0x63, 0x6c];
  }

  // ---------------------------------------------------------------------------
  // The answer on every text
  // ---------------------------------------------------------------------------

  /** A character of the data part. */
  ghost predicate IsSymbol(b: Byte) {
    exists w: Word :: Symbol(w) == b
  }

  /** The lowered text splits at its last separator, with something in front. */
  ghost predicate SplitsAs(s: Bytes, h: Bytes, rest: Bytes) {
    s == h + [0x31] + rest && h != [] && 0x31 !in rest
  }

  lemma {:induction false} ReadsExactly(rest: Bytes)
    ensures WordsOf(rest).Some? <==> forall i :: 0 <= i < |rest| ==> IsSymbol(rest[i])
  {
    hide Symbol;
    hide WordFrom;
    if rest != [] {
      var n := |rest| - 1;
      ReadsExactly(rest[..n]);
      assert WordFrom(rest[n], 0).Some? <==> IsSymbol(rest[n]) by {
        if WordFrom(rest[n], 0).Some? {
          assert Symbol(WordFrom(rest[n], 0).value) == rest[n];
        }
      }
      assert (forall i :: 0 <= i < |rest| ==> IsSymbol(rest[i])) <==> (forall i :: 0 <= i < n ==> IsSymbol(rest[..n][i])) && IsSymbol(rest[n]);
    }
  }

  /** What the part behind the checks of form answers: the checksum over prefix and data, then the padding. */
  lemma DataAnswer(h: Bytes, words: seq<Word>, data: Bytes)
    requires h != [] && |words| >= 6 && AllPrintable(h)
    ensures var r := DecodedLower(h + [0x31] + Symbols(words));
      if Run(1, High(h) + [0] + LowHalf(h) + words) != 1 then r == Err(BadChecksum)
      else
        && (r == Ok((h, data)) <==> Regroups(data, words[..|words| - 6]))
        && (r.Ok? || r == Err(NonCanonicalPadding)) && (r.Ok? ==> r.value.0 == h)
  {
    hide Run;
    hide ToBytes;
    hide WordsOf;
    hide LastSeparator;
    hide Symbols;
    hide AllPrintable;
    hide Regroups;
    SymbolsPlain(words);
    SeparatorUnique(h, Symbols(words));
    AroundSeparator(h, Symbols(words));
    WordsOfSymbols(words);
    RegroupsExactly(data, words[..|words| - 6]);
  }

  /** The first check of form that fails. */
  lemma FormAnswer(s: Bytes, h: Bytes, rest: Bytes)
    requires SplitsAs(s, h, rest)
    ensures var r := DecodedLower(s);
      if |rest| < 6 then r == Err(DataTooShort)
      else if !(forall i :: 0 <= i < |h| ==> 33 <= h[i] <= 126) then r == Err(InvalidPrefixCharacter)
      else if !(forall i :: 0 <= i < |rest| ==> IsSymbol(rest[i])) then r == Err(InvalidDataCharacter)
      else r != Err(DataTooShort) && r != Err(InvalidPrefixCharacter) && r != Err(InvalidDataCharacter) && r != Err(MissingPrefix)
           && exists words :: rest == Symbols(words)
  {
    hide ChecksumHolds;
    hide ToBytes;
    hide WordsOf;
    hide LastSeparator;
    hide Symbols;
    hide IsSymbol;
    SeparatorUnique(h, rest);
    AroundSeparator(h, rest);
    ReadsExactly(rest);
    if WordsOf(rest).Some? {
      SymbolsOfWords(rest);
    }
  }

  /** No separator but perhaps at the very start. */
  lemma NoPrefixAnswer(s: Bytes)
    requires forall i :: 0 < i < |s| ==> s[i] != 0x31
    ensures DecodedLower(s) == Err(MissingPrefix)
  {
    hide WordsOf;
    hide ToBytes;
    hide ChecksumHolds;
    hide LastSeparator;
  }

  /** Every text has a separator behind its start or none, and one behind the start splits it. */
  lemma SplitCases(s: Bytes)
    ensures (forall i :: 0 < i < |s| ==> s[i] != 0x31) || exists h, rest :: SplitsAs(s, h, rest)
  {
    hide LastSeparator;
    match LastSeparator(s)
    case None =>
    case Some(k) =>
      if k > 0 {
        assert s == s[..k] + [0x31] + s[k + 1..];
        assert SplitsAs(s, s[..k], s[k + 1..]);
      } else {
        assert forall i :: 0 < i < |s| ==> s[i] == s[1..][i - 1];
      }
  }

  /**
    The decoder on every text, by the first check that fails. Past the checks of form, `words` are the
    data symbols, six of them checksum.
  */
  lemma DecodesExactly(c: CaseMap, input: Bytes, h: Bytes, rest: Bytes, words: seq<Word>, data: Bytes)
    ensures var s, r := c.lower(input), Decoded(c, input);
      if input == [] then r == Err(EmptyString)
      else if input != c.upper(input) && input != s then r == Err(MixedCase)
      else
        && ((forall i :: 0 < i < |s| ==> s[i] != 0x31) ==> r == Err(MissingPrefix))
        && (SplitsAs(s, h, rest) ==>
              if |rest| < 6 then r == Err(DataTooShort)
              else if !(forall i :: 0 <= i < |h| ==> 33 <= h[i] <= 126) then r == Err(InvalidPrefixCharacter)
              else if !(forall i :: 0 <= i < |rest| ==> IsSymbol(rest[i])) then r == Err(InvalidDataCharacter)
              else
                (exists w :: rest == Symbols(w))
                && (rest == Symbols(words) ==>
                      if Run(1, High(h) + [0] + LowHalf(h) + words) != 1 then r == Err(BadChecksum)
                      else (r == Ok((h, data)) <==> Regroups(data, words[..|words| - 6])) && (r.Ok? || r == Err(NonCanonicalPadding))))
    ensures (forall i :: 0 < i < |c.lower(input)| ==> c.lower(input)[i] != 0x31) || exists h', rest' :: SplitsAs(c.lower(input), h', rest')
  {
    SplitCases(c.lower(input));
    hide Run;
    hide DecodedLower;
    hide Symbols;
    hide IsSymbol;
    hide Regroups;
    var s := c.lower(input);
    if forall i :: 0 < i < |s| ==> s[i] != 0x31 {
      NoPrefixAnswer(s);
    }
    if SplitsAs(s, h, rest) {
      FormAnswer(s, h, rest);
      if rest == Symbols(words) && |rest| >= 6 && AllPrintable(h) {
        DataAnswer(h, words, data);
      }
    }
  }

  /** What the encoder writes: the lowered prefix, the separator, the data in five-bit groups, six checksum symbols. */
  lemma EncodesExactly(c: CaseMap, prefix: Bytes, bytes: Bytes)
    ensures var h, r := c.lower(prefix), Encoded(c, prefix, bytes);
      if prefix == [] then r == Err(EmptyPrefix)
      else if !(forall i :: 0 <= i < |h| ==> 33 <= h[i] <= 126) then r == Err(InvalidPrefix)
      else r.Ok? && exists words ::
        |words| >= 6 && r.value == h + [0x31] + Symbols(words) && Regroups(bytes, words[..|words| - 6])
        && Run(1, High(h) + [0] + LowHalf(h) + words) == 1
  {
    hide Run;
    hide Symbols;
    hide Regroups;
    hide ToWords;
    hide CheckWords;
    var h, data := c.lower(prefix), ToWords(bytes);
    if prefix != [] && AllPrintable(h) {
      var check := CheckWords(Register(h, data));
      var words := data + check;
      ChecksumWorks(h, data, check);
      assert words[..|words| - 6] == data;
      RegroupsExactly(bytes, data);
      assert Expanded(h) + words == High(h) + [0] + LowHalf(h) + words;
    }
  }
}
