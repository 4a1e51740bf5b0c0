/** Hexadecimal text: two lower-case digits per byte out, either case in. */
module Hex {
  import opened Common

  function Digit(n: nat): (c: char)
    requires n < 16
  {
    (if n < 10 then n + '0' as int else n - 10 + 'a' as int) as char
  }

  function DigitValue(c: char): (r: Option<nat>)
    ensures r.Some? ==> r.value < 16
  {
    if '0' <= c <= '9' then Some(c as int - '0' as int)
    else if 'a' <= c <= 'f' then Some(c as int - 'a' as int + 10)
    else if 'A' <= c <= 'F' then Some(c as int - 'A' as int + 10)
    else None
  }

  function LowerChar(c: char): char {
    if 'A' <= c <= 'Z' then (c as int + 32) as char else c
  }

  function Lower(s: string): (r: string)
    ensures |r| == |s|
  {
    if s == [] then [] else [LowerChar(s[0])] + Lower(s[1..])
  }

  function Encode(bytes: Bytes): (s: string)
    ensures |s| == 2 * |bytes|
  {
    if bytes == [] then [] else [Digit(bytes[0] / 16), Digit(bytes[0] % 16)] + Encode(bytes[1..])
  }

  /** The bytes of an even number of digits; `None` for an odd length or a character that is no digit. */
  function Decode(s: string): (r: Option<Bytes>)
    ensures r.Some? ==> |s| == 2 * |r.value|
  {
    if s == [] then Some([])
    else if |s| == 1 then None
    else
      match (DigitValue(s[0]), DigitValue(s[1]), Decode(s[2..]))
      case (Some(high), Some(low), Some(rest)) => Some([high * 16 + low] + rest)
      case _ => None
  }

  lemma DigitRoundTrip(n: nat)
    requires n < 16
    ensures DigitValue(Digit(n)) == Some(n)
  {
  }

  lemma DigitLower(c: char)
    requires DigitValue(c).Some?
    ensures Digit(DigitValue(c).value) == LowerChar(c)
  {
  }

  lemma {:induction false} DecodeEncode(bytes: Bytes)
    ensures Decode(Encode(bytes)) == Some(bytes)
  {
    hide Digit;
    hide DigitValue;
    if bytes != [] {
      DigitRoundTrip(bytes[0] / 16);
      DigitRoundTrip(bytes[0] % 16);
      DecodeEncode(bytes[1..]);
      assert Encode(bytes)[2..] == Encode(bytes[1..]);
      assert bytes[0] / 16 * 16 + bytes[0] % 16 == bytes[0];
      assert bytes == [bytes[0]] + bytes[1..];
    }
  }

  lemma LowerTwo(s: string)
    requires |s| >= 2
    ensures Lower(s) == [LowerChar(s[0]), LowerChar(s[1])] + Lower(s[2..])
  {
    assert s[1..][1..] == s[2..];
  }

  lemma {:induction false} EncodeDecode(s: string)
    requires Decode(s).Some?
    ensures Encode(Decode(s).value) == Lower(s)
  {
    hide Digit;
    hide DigitValue;
    hide LowerChar;
    if s != [] {
      DigitLower(s[0]);
      DigitLower(s[1]);
      EncodeDecode(s[2..]);
      var high, low := DigitValue(s[0]).value, DigitValue(s[1]).value;
      assert Decode(s).value == [high * 16 + low] + Decode(s[2..]).value;
      assert (high * 16 + low) / 16 == high && (high * 16 + low) % 16 == low;
      assert Decode(s).value[1..] == Decode(s[2..]).value;
      assert Encode(Decode(s).value) == [Digit(high), Digit(low)] + Encode(Decode(s[2..]).value);
      LowerTwo(s);
    }
  }

  /** The two digits of every byte, the high half first. */
  lemma {:induction false} EncodesAs(bytes: Bytes, i: nat)
    requires i < |bytes|
    ensures Encode(bytes)[2 * i] == "0123456789abcdef"[bytes[i] / 16]
    ensures Encode(bytes)[2 * i + 1] == "0123456789abcdef"[bytes[i] % 16]
  {
    if i > 0 {
      EncodesAs(bytes[1..], i - 1);
    }
  }

  lemma LowerCharStays(c: char)
    ensures DigitValue(LowerChar(c)) == DigitValue(c)
  {
  }

  lemma {:induction false} LowerReads(s: string)
    ensures Decode(Lower(s)) == Decode(s)
  {
    hide DigitValue;
    hide LowerChar;
    if |s| >= 2 {
      LowerTwo(s);
      LowerReads(s[2..]);
      LowerCharStays(s[0]);
      LowerCharStays(s[1]);
      assert Lower(s)[2..] == Lower(s[2..]);
    }
  }

  /** A text reads as some bytes exactly when, capitals A to Z apart, it is what they are written as. */
  lemma DecodesExactly(s: string, bytes: Bytes)
    ensures Decode(s) == Some(bytes) <==> Lower(s) == Encode(bytes)
  {
    hide Decode;
    hide Lower;
    hide Encode;
    LowerReads(s);
    DecodeEncode(bytes);
    if Decode(s).Some? {
      EncodeDecode(s);
    }
  }
}
