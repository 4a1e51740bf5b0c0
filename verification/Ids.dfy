/**
  Crockford base-32 identifiers: the same regrouping of octets into five-bit words as bech32, run
  on a 32-bit accumulator that is never masked, with an alphabet that has aliases.
*/
module Ids {
  import opened Common
  import opened Radix
  import opened Regroup
  import Hex

  datatype Error =
    | EncodeWrongByteLength(length: nat)
    | DecodeWrongLength(length: nat)
    | InvalidCharacter(c: char, index: nat)
    | NonZeroPadBits
    | NotCanonicalUuid
    | MissingSeparator
    | PrefixMismatch(expected: string, actual: string)

  const ENCODED_LENGTH: nat := 26
  const UUID_LENGTH: nat := 16

  const ALPHABET: string := "0123456789abcdefghjkmnpqrstvwxyz"

  function DecodeSymbol(c: char): Option<Word> {
    if '0' <= c <= '9' then Some(c as int - '0' as int)
    else if 'a' <= c <= 'h' then Some(c as int - 'a' as int + 10)
    else if 'A' <= c <= 'H' then Some(c as int - 'A' as int + 10)
    else if 'j' <= c <= 'k' then Some(c as int - 'j' as int + 18)
    else if 'J' <= c <= 'K' then Some(c as int - 'J' as int + 18)
    else if 'm' <= c <= 'n' then Some(c as int - 'm' as int + 20)
    else if 'M' <= c <= 'N' then Some(c as int - 'M' as int + 20)
    else if 'p' <= c <= 't' then Some(c as int - 'p' as int + 22)
    else if 'P' <= c <= 'T' then Some(c as int - 'P' as int + 22)
    else if 'v' <= c <= 'z' then Some(c as int - 'v' as int + 27)
    else if 'V' <= c <= 'Z' then Some(c as int - 'V' as int + 27)
    else if c in "iIlL" then Some(1)
    else if c in "oO" then Some(0)
    else None
  }

  lemma SymbolRoundTrip(w: Word)
    ensures DecodeSymbol(ALPHABET[w]) == Some(w)
  {
  }

  function Symbols(words: seq<Word>): (s: string)
    ensures |s| == |words|
  {
    if words == [] then [] else Symbols(words[..|words| - 1]) + [ALPHABET[words[|words| - 1]]]
  }

  /** The words of a symbol string, or the first character that is none. */
  function WordsOf(s: string): (r: Result<seq<Word>, Error>)
    ensures r.Ok? ==> |r.value| == |s|
  {
    if s == [] then Ok([])
    else
      var front :- WordsOf(s[..|s| - 1]);
      match DecodeSymbol(s[|s| - 1])
      case None => Err(InvalidCharacter(s[|s| - 1], |s| - 1))
      case Some(w) => Ok(front + [w])
  }

  lemma {:induction false} WordsOfSymbols(words: seq<Word>)
    ensures WordsOf(Symbols(words)) == Ok(words)
  {
    hide DecodeSymbol;
    if words != [] {
      var n := |words| - 1;
      WordsOfSymbols(words[..n]);
      SymbolRoundTrip(words[n]);
      assert Symbols(words)[..n] == Symbols(words[..n]);
      assert words == words[..n] + [words[n]];
    }
  }

  /** The symbols an accepted string stands for, aliases and capitals resolved. */
  function Canonical(s: string): string
    requires WordsOf(s).Ok?
  {
    Symbols(WordsOf(s).value)
  }

  function Encoded(bytes: Bytes): string {
    Symbols(ToWords(bytes))
  }

  /** Exactly a UUID's bytes are encoded. */
  function EncodeBytes(bytes: Bytes): Result<string, Error> {
    if |bytes| != UUID_LENGTH then Err(EncodeWrongByteLength(|bytes|)) else Ok(Encoded(bytes))
  }

  function Decoded(s: string): Result<Bytes, Error> {
    if |s| != ENCODED_LENGTH then Err(DecodeWrongLength(|s|))
    else
      var words :- WordsOf(s);
      match ToBytes(words)
      case None => Err(NonZeroPadBits)
      case Some(bytes) => Ok(bytes)
  }

  // ---------------------------------------------------------------------------
  // The loops
  // ---------------------------------------------------------------------------

  const U32: nat := 0x1_0000_0000

  /** Bits past the accumulator's 32 are lost, and were already emitted. */
  lemma Wrap(read: nat, emitted: nat, bits: nat, count: nat)
    requires count <= 32 && Carrying(read, emitted, bits, Pow(2, count))
    ensures Carrying(read, emitted, bits % U32, Pow(2, count))
  {
    hide Carrying;
    PowAdd(2, count, 32 - count);
    PowPositive(2, 32 - count);
    Power32();
    Mask(read, emitted, bits, Pow(2, count), Pow(2, 32 - count), U32);
  }

  lemma Power32()
    ensures Pow(2, 32) == U32
  {
    PowAdd(2, 8, 8);
    PowAdd(2, 16, 16);
  }

  method EncodeVariableLength(bytes: Bytes) returns (out: string)
    ensures out == Encoded(bytes)
  {
    hide Carrying;
    hide Value;
    var bits: nat, count: nat := 0, 0;
    out := [];
    ghost var words: seq<Word> := [];
    Powers();
    NothingRead();
    for i := 0 to |bytes|
      invariant count < 5 && 8 * i == 5 * |words| + count
      invariant Carrying(Value(256, bytes[..i]), Value(32, words), bits, Pow(2, count))
      invariant out == Symbols(words)
    {
      Read(8, 256, bytes, i, Value(32, words), bits, count);
      Wrap(Value(256, bytes[..i + 1]), Value(32, words), bits * 256 + bytes[i], count + 8);
      bits := (bits * 256 + bytes[i]) % U32;
      count := count + 8;
      ghost var read := Value(256, bytes[..i + 1]);
      while count >= 5
        invariant count < 13 && 8 * (i + 1) == 5 * |words| + count
        invariant Carrying(read, Value(32, words), bits, Pow(2, count))
        invariant out == Symbols(words)
      {
        count := count - 5;
        Write(5, 32, read, words, bits, count);
        var word: Word := bits / Pow(2, count) % 32;
        out := out + [ALPHABET[word]];
        SymbolsSnoc(words, word);
        words := words + [word];
      }
    }
    assert bytes[..|bytes|] == bytes;
    if count > 0 {
      LastWord(bytes, words, bits, count);
      var word: Word := bits * Pow(2, 5 - count) % 32;
      out := out + [ALPHABET[word]];
      SymbolsSnoc(words, word);
    } else {
      Mask(Value(256, bytes), Value(32, words), bits, 1, 1, 1);
      NoPad(bytes, words);
    }
  }

  lemma NothingRead()
    ensures Carrying(Value(256, []), Value(32, []), 0, Pow(2, 0))
    ensures Carrying(Value(32, []), Value(256, []), 0, Pow(2, 0))
  {
  }

  lemma SymbolsSnoc(words: seq<Word>, w: Word)
    ensures Symbols(words + [w]) == Symbols(words) + [ALPHABET[w]]
  {
    assert (words + [w])[..|words|] == words;
  }

  lemma LastWord(bytes: Bytes, words: seq<Word>, bits: nat, count: nat)
    requires 0 < count < 5 && 8 * |bytes| == 5 * |words| + count
    requires Carrying(Value(256, bytes), Value(32, words), bits, Pow(2, count))
    ensures words + [bits * Pow(2, 5 - count) % 32] == ToWords(bytes)
  {
    hide Carrying;
    hide Value;
    var p, b := Pow(2, count), Pow(2, 5 - count);
    PowPositive(2, count);
    PowPositive(2, 5 - count);
    PowAdd(2, count, 5 - count);
    Powers();
    Mask(Value(256, bytes), Value(32, words), bits, p, 1, p);
    PadWord(bytes, words, bits % p, count);
    ModAbsorb(bits, p, b, 0);
    ModAbsorb(bits % p, p, b, 0);
    RemSmall(bits % p, p);
  }

  /** One more word in the accumulator. */
  lemma TakeSymbol(words: seq<Word>, w: Word, emitted: nat, bits: nat, count: nat)
    requires count < 8 && Carrying(Value(32, words), emitted, bits, Pow(2, count))
    ensures Carrying(Value(32, words + [w]), emitted, (bits * 32 + w) % U32, Pow(2, count + 5))
  {
    hide Carrying;
    hide Value;
    hide Pow;
    Powers();
    var longer := words + [w];
    assert longer[..|words|] == words && longer[..|words| + 1] == longer;
    Read(5, 32, longer, |words|, emitted, bits, count);
    Wrap(Value(32, longer), emitted, bits * 32 + w, count + 5);
  }

  /** What the two bits left over decide. */
  lemma PadBits(words: seq<Word>, out: Bytes, bits: nat)
    requires 5 * |words| == 8 * |out| + 2 && Carrying(Value(32, words), Value(256, out), bits, Pow(2, 2))
    ensures ToBytes(words) == if bits % 4 != 0 then None else Some(out)
  {
    hide Carrying;
    hide Value;
    hide ToBytes;
    FourIsTwoBits();
    Mask(Value(32, words), Value(256, out), bits, 4, 1, 4);
    Leftover(words, out, bits % 4, 2);
  }

  method DecodeBytes(encoded: string) returns (r: Result<Bytes, Error>)
    ensures r == Decoded(encoded)
  {
    hide Carrying;
    hide Value;
    hide ToBytes;
    hide DecodeSymbol;
    hide WordsOf;
    hide Pow;
    if |encoded| != ENCODED_LENGTH {
      return Err(DecodeWrongLength(|encoded|));
    }
    var out := new Byte[UUID_LENGTH](_ => 0);
    var bits: nat, count: nat, outIndex: nat := 0, 0, 0;
    ghost var words: seq<Word> := [];
    Powers();
    NothingRead();
    WordsOfNext(encoded, 0);
    for i := 0 to |encoded|
      invariant count < 8 && 5 * i == 8 * outIndex + count && outIndex <= UUID_LENGTH
      invariant |words| == i && WordsOf(encoded[..i]) == Ok(words)
      invariant Carrying(Value(32, words), Value(256, out[..outIndex]), bits, Pow(2, count))
    {
      WordsOfNext(encoded, i);
      var symbol := DecodeSymbol(encoded[i]);
      if symbol.None? {
        WordsOfPrefix(encoded, i + 1);
        return Err(InvalidCharacter(encoded[i], i));
      }
      TakeSymbol(words, symbol.value, Value(256, out[..outIndex]), bits, count);
      bits := (bits * 32 + symbol.value) % U32;
      words := words + [symbol.value];
      count := count + 5;
      if count >= 8 {
        count := count - 8;
        Write(8, 256, Value(32, words), out[..outIndex], bits, count);
        out[outIndex] := bits / Pow(2, count) % 256;
        assert out[..outIndex + 1] == out[..outIndex] + [out[outIndex]];
        outIndex := outIndex + 1;
      }
    }
    assert encoded[..|encoded|] == encoded;
    assert count == 2 && out[..outIndex] == out[..];
    PadBits(words, out[..], bits);
    if count != 2 || bits % 4 != 0 {
      return Err(NonZeroPadBits);
    }
    return Ok(out[..]);
  }

  lemma WordsOfNext(s: string, i: nat)
    requires i < |s|
    ensures s[..0] == [] && WordsOf([]) == Ok([])
    ensures WordsOf(s[..i + 1]) ==
      match WordsOf(s[..i])
      case Err(e) => Err(e)
      case Ok(words) =>
        match DecodeSymbol(s[i])
        case None => Err(InvalidCharacter(s[i], i))
        case Some(w) => Ok(words + [w])
  {
    assert s[..i + 1][..i] == s[..i];
  }

  lemma FourIsTwoBits()
    ensures Pow(2, 2) == 4
  {
  }

  lemma {:induction false} WordsOfPrefix(s: string, i: nat)
    requires i <= |s| && WordsOf(s[..i]).Err?
    ensures WordsOf(s) == WordsOf(s[..i])
    decreases |s| - i
  {
    hide DecodeSymbol;
    if i == |s| {
      assert s[..i] == s;
    } else {
      assert s[..i + 1][..i] == s[..i];
      WordsOfPrefix(s, i + 1);
    }
  }

  // ---------------------------------------------------------------------------
  // Round trips
  // ---------------------------------------------------------------------------

  /** What is encoded decodes to the same bytes. */
  lemma EncodeDecode(bytes: Bytes)
    requires EncodeBytes(bytes).Ok?
    ensures Decoded(EncodeBytes(bytes).value) == Ok(bytes)
  {
    hide WordsOf;
    hide ToWords;
    WordsOfSymbols(ToWords(bytes));
    BytesToWordsToBytes(bytes);
  }

  /** Decoding accepts aliases and capitals; encoding again resolves them. */
  lemma DecodeEncode(s: string)
    requires Decoded(s).Ok?
    ensures EncodeBytes(Decoded(s).value) == Ok(Canonical(s))
  {
    hide ToWords;
    WordsToBytesToWords(WordsOf(s).value);
  }

  /** Two accepted strings name one identifier exactly when they read the same once aliases are resolved. */
  lemma SameIdExactly(s: string, t: string)
    requires Decoded(s).Ok? && Decoded(t).Ok?
    ensures Decoded(s) == Decoded(t) <==> Canonical(s) == Canonical(t)
  {
    hide ToBytes;
    hide WordsOf;
    hide Symbols;
    DecodeEncode(s);
    DecodeEncode(t);
    WordsOfSymbols(WordsOf(s).value);
    WordsOfSymbols(WordsOf(t).value);
  }

  // ---------------------------------------------------------------------------
  // Prefixed identifiers
  // ---------------------------------------------------------------------------

  function Hyphens(s: string): nat {
    if s == [] then 0 else (if s[0] == '-' then 1 else 0) + Hyphens(s[1..])
  }

  function Stripped(s: string): string {
    if s == [] then [] else (if s[0] == '-' then [] else [s[0]]) + Stripped(s[1..])
  }

  function UuidBytes(uuid: string): (r: Result<Bytes, Error>)
    ensures r.Ok? ==> |r.value| == UUID_LENGTH
  {
    var digits := Hex.Decode(Stripped(uuid));
    if |Stripped(uuid)| != 2 * UUID_LENGTH || digits.None? || Hyphens(uuid) != 4 then Err(NotCanonicalUuid)
    else Ok(digits.value)
  }

  /** The hyphenated 8-4-4-4-12 form of 32 characters. */
  function Hyphenated(h: string): string
    requires |h| == 32
  {
    h[..8] + "-" + h[8..12] + "-" + h[12..16] + "-" + h[16..20] + "-" + h[20..]
  }

  function UuidString(bytes: Bytes): string
    requires |bytes| == UUID_LENGTH
  {
    Hyphenated(Hex.Encode(bytes))
  }

  function EncodePrefixed(prefix: string, uuid: string): Result<string, Error> {
    var bytes :- UuidBytes(uuid);
    Ok(prefix + "_" + Encoded(bytes))
  }

  /** Index of the first `_`. */
  function FirstUnderscore(s: string): (r: Option<nat>)
    ensures r.Some? ==> r.value < |s| && s[r.value] == '_' && '_' !in s[..r.value]
    ensures r.None? <==> '_' !in s
  {
    if s == [] then None
    else if s[0] == '_' then Some(0)
    else
      match FirstUnderscore(s[1..])
      case None => None
      case Some(i) => assert s[..i + 1] == [s[0]] + s[1..][..i]; Some(i + 1)
  }

  function DecodePrefixed(prefix: string, encoded: string): Result<string, Error> {
    match FirstUnderscore(encoded)
    case None => Err(MissingSeparator)
    case Some(sep) =>
      if encoded[..sep] != prefix then Err(PrefixMismatch(prefix, encoded[..sep]))
      else
        var bytes :- Decoded(encoded[sep + 1..]);
        DecodeEncode(encoded[sep + 1..]);
        Ok(UuidString(bytes))
  }

  lemma {:induction false} UnderscoreSplits(prefix: string, rest: string)
    ensures FirstUnderscore(prefix + "_" + rest) ==
      match FirstUnderscore(prefix)
      case None => Some(|prefix|)
      case Some(i) => Some(i)
  {
    var s := prefix + "_" + rest;
    if prefix != [] && prefix[0] != '_' {
      UnderscoreSplits(prefix[1..], rest);
      assert s[1..] == prefix[1..] + "_" + rest;
    }
  }

  /** An identifier comes back under its own prefix exactly when the prefix holds no underscore. */
  lemma PrefixedRoundTrip(prefix: string, uuid: string)
    requires UuidBytes(uuid).Ok?
    ensures var back := DecodePrefixed(prefix, EncodePrefixed(prefix, uuid).value);
      if '_' in prefix then back == Err(PrefixMismatch(prefix, prefix[..FirstUnderscore(prefix).value]))
      else back == Ok(UuidString(UuidBytes(uuid).value))
  {
    hide Decoded;
    hide Encoded;
    hide UuidBytes;
    hide UuidString;
    hide FirstUnderscore;
    var bytes := UuidBytes(uuid).value;
    UnderscoreSplits(prefix, Encoded(bytes));
    EncodeDecode(bytes);
    if '_' in prefix {
      Prefixes(prefix, Encoded(bytes), FirstUnderscore(prefix).value);
    } else {
      Prefixes(prefix, Encoded(bytes), |prefix|);
    }
  }

  lemma Prefixes(prefix: string, rest: string, i: nat)
    requires i <= |prefix|
    ensures var s := prefix + "_" + rest;
      s[..i] == prefix[..i] && s[..|prefix|] == prefix && s[|prefix| + 1..] == rest && (s[..i] == prefix <==> i == |prefix|)
  {
  }

  lemma {:induction false} StripAppend(s: string, t: string)
    ensures Stripped(s + t) == Stripped(s) + Stripped(t)
    ensures Hyphens(s + t) == Hyphens(s) + Hyphens(t)
  {
    if s == [] {
      assert s + t == t;
    } else {
      assert (s + t)[1..] == s[1..] + t;
      StripAppend(s[1..], t);
    }
  }

  lemma {:induction false} StripPlain(s: string)
    requires '-' !in s
    ensures Stripped(s) == s && Hyphens(s) == 0
  {
    if s != [] {
      StripPlain(s[1..]);
      assert s == [s[0]] + s[1..];
    }
  }

  lemma {:induction false} HexPlain(bytes: Bytes)
    ensures '-' !in Hex.Encode(bytes)
  {
    if bytes != [] {
      HexPlain(bytes[1..]);
    }
  }

  lemma HyphenatedParts(h: string)
    requires |h| == 32 && '-' !in h
    ensures Stripped(Hyphenated(h)) == h && Hyphens(Hyphenated(h)) == 4
  {
    hide Stripped;
    hide Hyphens;
    var a, b, c, d, e := h[..8], h[8..12], h[12..16], h[16..20], h[20..];
    StripPlain(a);
    JoinPart(a, b);
    JoinPart(a + "-" + b, c);
    JoinPart(a + "-" + b + "-" + c, d);
    JoinPart(a + "-" + b + "-" + c + "-" + d, e);
    assert a + b + c + d + e == h;
  }

  lemma JoinPart(x: string, y: string)
    requires '-' !in y
    ensures Stripped(x + "-" + y) == Stripped(x) + y
    ensures Hyphens(x + "-" + y) == Hyphens(x) + 1
  {
    hide Stripped;
    hide Hyphens;
    StripHyphen();
    StripPlain(y);
    StripAppend(x, "-");
    StripAppend(x + "-", y);
    assert Stripped(x) + "" + y == Stripped(x) + y;
  }

  lemma StripHyphen()
    ensures Stripped("-") == "" && Hyphens("-") == 1
  {
    assert "-"[1..] == "";
  }

  /** The canonical spelling of a UUID survives the whole trip, under any prefix without an underscore. */
  lemma CanonicalUuidRoundTrip(prefix: string, bytes: Bytes)
    requires |bytes| == UUID_LENGTH && '_' !in prefix
    ensures EncodePrefixed(prefix, UuidString(bytes)).Ok?
    ensures DecodePrefixed(prefix, EncodePrefixed(prefix, UuidString(bytes)).value) == Ok(UuidString(bytes))
  {
    hide Stripped;
    hide Hyphens;
    hide Hyphenated;
    hide DecodePrefixed;
    HexPlain(bytes);
    Hex.DecodeEncode(bytes);
    HyphenatedParts(Hex.Encode(bytes));
    PrefixedRoundTrip(prefix, UuidString(bytes));
  }

  // ---------------------------------------------------------------------------
  // The format on every input
  // ---------------------------------------------------------------------------

  /** Crockford's alphabet: figures, then small letters without i, l, o and u. */
  function RangeSymbol(w: Word): int {
    if w < 10 then '0' as int + w
    else if w < 18 then 'a' as int + w - 10
    else if w < 20 then 'j' as int + w - 18
    else if w < 22 then 'm' as int + w - 20
    else if w < 27 then 'p' as int + w - 22
    else 'v' as int + w - 27
  }

  lemma AlphabetRanges(w: Word)
    ensures ALPHABET[w] as int == RangeSymbol(w)
  {
  }

  lemma RangeRead(c: char, w: Word)
    ensures DecodeSymbol(c) == Some(w) <==>
      Hex.LowerChar(c) as int == RangeSymbol(w) || (w == 0 && (c == 'o' || c == 'O')) || (w == 1 && (c == 'i' || c == 'I' || c == 'l' || c == 'L'))
  {
  }

  /** What a character is read as: a symbol in either case, or an alias of zero or one. */
  lemma SymbolRead(c: char, w: Word)
    ensures DecodeSymbol(c) == Some(w) <==>
      ALPHABET[w] == Hex.LowerChar(c) || (w == 0 && (c == 'o' || c == 'O')) || (w == 1 && (c == 'i' || c == 'I' || c == 'l' || c == 'L'))
  {
    hide DecodeSymbol;
    hide Hex.LowerChar;
    hide RangeSymbol;
    AlphabetRanges(w);
    RangeRead(c, w);
  }

  /** The first character that is no symbol is at `i`. */
  predicate FirstBad(s: string, i: int) {
    0 <= i < |s| && DecodeSymbol(s[i]).None? && forall j :: 0 <= j < i ==> DecodeSymbol(s[j]).Some?
  }

  /** Every character is read as its word. */
  predicate ReadAs(s: string, words: seq<Word>) {
    |words| == |s| && forall i :: 0 <= i < |s| ==> DecodeSymbol(s[i]) == Some(words[i])
  }

  lemma {:induction false} WordsRead(s: string, words: seq<Word>, i: int)
    ensures ReadAs(s, words) ==> WordsOf(s) == Ok(words)
    ensures FirstBad(s, i) ==> WordsOf(s) == Err(InvalidCharacter(s[i], i))
    ensures WordsOf(s).Ok? ==> ReadAs(s, WordsOf(s).value)
    ensures WordsOf(s).Err? ==> exists j :: FirstBad(s, j)
  {
    hide DecodeSymbol;
    if s != [] {
      var n := |s| - 1;
      WordsRead(s[..n], if |words| == |s| then words[..n] else [], i);
      if ReadAs(s, words) {
        assert words == words[..n] + [words[n]];
      }
      if WordsOf(s[..n]).Err? {
        var j :| FirstBad(s[..n], j);
        assert FirstBad(s, j);
      } else if DecodeSymbol(s[n]).None? {
        assert forall j :: 0 <= j < n ==> s[j] == s[..n][j];
        assert FirstBad(s, n);
      }
    }
  }

  /** Two bits are left over after sixteen bytes: they are the low bits of the last word. */
  lemma LeftoverBits(words: seq<Word>, bytes: Bytes)
    requires |words| == ENCODED_LENGTH
    ensures ToBytes(words).Some? <==> words[25] % 4 == 0
    ensures Regroups(bytes, words) ==> |bytes| == 16
  {
    hide Value;
    FourIsTwoBits();
    ValueOfLast(words);
    assert Value(32, words) == 4 * (8 * Value(32, words[..25])) + words[25];
  }

  lemma ValueOfLast(words: seq<Word>)
    requires words != []
    ensures Value(32, words) == Value(32, words[..|words| - 1]) * 32 + words[|words| - 1]
  {
  }

  /** Every string of symbols is read as words, or has a first character that is none. */
  lemma ReadCases(s: string)
    ensures (exists words :: ReadAs(s, words)) || exists i :: FirstBad(s, i)
  {
    hide DecodeSymbol;
    hide WordsOf;
    WordsRead(s, [], 0);
  }

  /** The decoder on every string, by the first check that fails. */
  lemma DecodesExactly(s: string, words: seq<Word>, i: int, bytes: Bytes)
    ensures var r := Decoded(s);
      if |s| != 26 then r == Err(DecodeWrongLength(|s|))
      else if FirstBad(s, i) then r == Err(InvalidCharacter(s[i], i))
      else ReadAs(s, words) ==>
        if words[25] % 4 != 0 then r == Err(NonZeroPadBits)
        else r.Ok? && |r.value| == 16 && (r == Ok(bytes) <==> Regroups(bytes, words))
    ensures (exists w :: ReadAs(s, w)) || exists k :: FirstBad(s, k)
  {
    ReadCases(s);
    hide DecodeSymbol;
    hide WordsOf;
    hide ToBytes;
    hide Regroups;
    WordsRead(s, words, i);
    if ReadAs(s, words) && |s| == 26 {
      LeftoverBits(words, []);
      RegroupsExactly(bytes, words);
      if Decoded(s).Ok? {
        RegroupsExactly(Decoded(s).value, words);
        LeftoverBits(words, Decoded(s).value);
      }
    }
  }

  lemma {:induction false} SymbolsAt(words: seq<Word>, i: nat)
    requires i < |words|
    ensures Symbols(words)[i] == ALPHABET[words[i]]
  {
    if i < |words| - 1 {
      SymbolsAt(words[..|words| - 1], i);
    }
  }

  /** The encoder: 26 symbols for the bits of exactly sixteen bytes. */
  lemma EncodesExactly(bytes: Bytes, words: seq<Word>)
    ensures |bytes| != 16 ==> EncodeBytes(bytes) == Err(EncodeWrongByteLength(|bytes|))
    ensures |bytes| == 16 ==>
      EncodeBytes(bytes).Ok? && |EncodeBytes(bytes).value| == 26
      && (Regroups(bytes, words) ==> |words| == 26 && forall i :: 0 <= i < 26 ==> EncodeBytes(bytes).value[i] == ALPHABET[words[i]])
  {
    hide Symbols;
    hide Regroups;
    hide Value;
    hide Fixed;
    RegroupsExactly(bytes, words);
    if |bytes| == 16 && Regroups(bytes, words) {
      forall i | 0 <= i < |words|
        ensures Symbols(words)[i] == ALPHABET[words[i]]
      {
        SymbolsAt(words, i);
      }
    }
  }

  /** A UUID is 32 hexadecimal digits of either case among exactly four hyphens, wherever these stand. */
  lemma UuidExactly(uuid: string, bytes: Bytes)
    ensures UuidBytes(uuid) == Ok(bytes) <==> Hyphens(uuid) == 4 && |bytes| == 16 && Hex.Lower(Stripped(uuid)) == Hex.Encode(bytes)
    ensures UuidBytes(uuid).Err? ==> UuidBytes(uuid) == Err(NotCanonicalUuid)
  {
    hide Hex.Decode;
    hide Hex.Encode;
    hide Hex.Lower;
    hide Stripped;
    hide Hyphens;
    Hex.DecodesExactly(Stripped(uuid), bytes);
  }

  /** The canonical text of a UUID: groups of 8, 4, 4, 4 and 12 digits. */
  lemma UuidText(bytes: Bytes)
    requires |bytes| == 16
    ensures var s, h := UuidString(bytes), Hex.Encode(bytes);
      && |s| == 36 && s[8] == s[13] == s[18] == s[23] == '-'
      && s[..8] == h[..8] && s[9..13] == h[8..12] && s[14..18] == h[12..16] && s[19..23] == h[16..20] && s[24..] == h[20..]
  {
    hide Hex.Encode;
  }

  /** A prefixed identifier: what stands before the first underscore is the prefix, the rest is decoded. */
  lemma PrefixedExactly(prefix: string, head: string, rest: string, s: string)
    ensures '_' !in s ==> DecodePrefixed(prefix, s) == Err(MissingSeparator)
    ensures '_' !in head && head != prefix ==> DecodePrefixed(prefix, head + "_" + rest) == Err(PrefixMismatch(prefix, head))
    ensures '_' !in head && head == prefix && Decoded(rest).Err? ==> DecodePrefixed(prefix, head + "_" + rest) == Err(Decoded(rest).error)
    ensures '_' !in head && head == prefix && Decoded(rest).Ok? ==>
      |Decoded(rest).value| == 16 && DecodePrefixed(prefix, head + "_" + rest) == Ok(UuidString(Decoded(rest).value))
  {
    hide Decoded;
    hide UuidString;
    hide FirstUnderscore;
    if Decoded(rest).Ok? {
      DecodeEncode(rest);
    }
    if '_' !in head {
      UnderscoreSplits(head, rest);
      Prefixes(head, rest, |head|);
    }
  }
}
