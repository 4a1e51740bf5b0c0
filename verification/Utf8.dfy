/** UTF-8, as section 3.9 of the Unicode Standard defines it: the bytes a Rust string holds. */
module Utf8 {
  import opened Common

  function EncodeScalar(c: char): (b: Bytes)
    ensures 1 <= |b| <= 4
  {
    var n := c as int;
    if n < 0x80 then [n]
    else if n < 0x800 then [0xC0 + n / 0x40, 0x80 + n % 0x40]
    else if n < 0x1_0000 then [0xE0 + n / 0x1000, 0x80 + n / 0x40 % 0x40, 0x80 + n % 0x40]
    else [0xF0 + n / 0x4_0000, 0x80 + n / 0x1000 % 0x40, 0x80 + n / 0x40 % 0x40, 0x80 + n % 0x40]
  }

  function Encode(s: string): Bytes {
    if s == [] then [] else EncodeScalar(s[0]) + Encode(s[1..])
  }

  predicate IsContinuation(b: Byte) {
    0x80 <= b < 0xC0
  }

  /** A scalar value: a code point that is not a surrogate. */
  predicate IsScalar(n: int) {
    0 <= n < 0xD800 || 0xE000 <= n < 0x11_0000
  }

  /** The six low bits of a continuation byte. */
  function Low(b: Byte): int {
    (b as int) - 0x80
  }

  function Join2(b: Bytes): int
    requires |b| >= 2
  {
    (b[0] as int - 0xC0) * 0x40 + Low(b[1])
  }

  function Join3(b: Bytes): int
    requires |b| >= 3
  {
    (b[0] as int - 0xE0) * 0x1000 + Low(b[1]) * 0x40 + Low(b[2])
  }

  function Join4(b: Bytes): int
    requires |b| >= 4
  {
    (b[0] as int - 0xF0) * 0x4_0000 + Low(b[1]) * 0x1000 + Low(b[2]) * 0x40 + Low(b[3])
  }

  /** The length of the well-formed sequence at the front of `b`, or 0. */
  function ScalarLength(b: Bytes): (k: nat)
    ensures k <= |b| && k <= 4
  {
    if |b| == 0 then 0
    else if b[0] < 0x80 then 1
    else if 0xC2 <= b[0] < 0xE0 && |b| >= 2 && IsContinuation(b[1]) then 2
    else if 0xE0 <= b[0] < 0xF0 && |b| >= 3 && IsContinuation(b[1]) && IsContinuation(b[2])
            && Join3(b) >= 0x800 && IsScalar(Join3(b)) then 3
    else if 0xF0 <= b[0] < 0xF5 && |b| >= 4 && IsContinuation(b[1]) && IsContinuation(b[2]) && IsContinuation(b[3])
            && Join4(b) >= 0x1_0000 && IsScalar(Join4(b)) then 4
    else 0
  }

  /** The scalar value at the front of `b`, with the rest; `None` for ill-formed, overlong or surrogate sequences. */
  function DecodeScalar(b: Bytes): (r: Option<(char, Bytes)>)
    ensures r.Some? ==> |r.value.1| < |b|
  {
    var k := ScalarLength(b);
    if k == 0 then None
    else if k == 1 then Some((b[0] as char, b[1..]))
    else if k == 2 then Some((Join2(b) as char, b[2..]))
    else if k == 3 then Some((Join3(b) as char, b[3..]))
    else Some((Join4(b) as char, b[4..]))
  }

  function Decode(b: Bytes): (r: Option<string>)
    decreases |b|
  {
    if b == [] then Some([])
    else
      match DecodeScalar(b)
      case None => None
      case Some((c, rest)) =>
        match Decode(rest)
        case None => None
        case Some(s) => Some([c] + s)
  }

  /** Six bits at a time: the quotients that the byte layouts use, and how they rejoin. */
  lemma SixBitGroups(n: nat)
    ensures n == n / 0x40 * 0x40 + n % 0x40
    ensures n / 0x40 == n / 0x1000 * 0x40 + n / 0x40 % 0x40
    ensures n / 0x1000 == n / 0x4_0000 * 0x40 + n / 0x1000 % 0x40
  {
    assert n / 0x40 / 0x40 == n / 0x1000;
    assert n / 0x1000 / 0x40 == n / 0x4_0000;
  }

  lemma JoinSixBits(high: nat, low: nat)
    requires low < 0x40
    ensures (high * 0x40 + low) / 0x40 == high && (high * 0x40 + low) % 0x40 == low
  {
  }

  lemma JoinEncoded(c: char)
    ensures var e := EncodeScalar(c); var n := c as int;
      && (|e| == 2 ==> Join2(e) == n)
      && (|e| == 3 ==> Join3(e) == n)
      && (|e| == 4 ==> Join4(e) == n)
  {
    SixBitGroups(c as int);
  }

  lemma EncodedLength(c: char)
    ensures ScalarLength(EncodeScalar(c)) == |EncodeScalar(c)|
  {
    hide Join2;
    hide Join3;
    hide Join4;
    JoinEncoded(c);
  }

  lemma ScalarLengthPrefix(e: Bytes, rest: Bytes)
    requires ScalarLength(e) == |e| > 0
    ensures ScalarLength(e + rest) == |e|
    ensures |e| == 2 ==> Join2(e + rest) == Join2(e)
    ensures |e| == 3 ==> Join3(e + rest) == Join3(e)
    ensures |e| == 4 ==> Join4(e + rest) == Join4(e)
  {
    var b := e + rest;
    assert b[0] == e[0];
    assert |e| >= 2 ==> b[1] == e[1];
    assert |e| >= 3 ==> b[2] == e[2];
    assert |e| >= 4 ==> b[3] == e[3];
  }

  lemma DecodeEncodeScalar(c: char, rest: Bytes)
    ensures DecodeScalar(EncodeScalar(c) + rest) == Some((c, rest))
  {
    var e := EncodeScalar(c);
    JoinEncoded(c);
    EncodedLength(c);
    ScalarLengthPrefix(e, rest);
    assert (e + rest)[|e|..] == rest;
  }

  lemma EncodeJoined(b: Bytes)
    requires |b| == ScalarLength(b) > 0
    ensures EncodeScalar(DecodeScalar(b).value.0) == b
  {
    if |b| == 2 {
      JoinSixBits(b[0] as int - 0xC0, Low(b[1]));
    } else if |b| == 3 {
      EncodeJoined3(b);
    } else if |b| == 4 {
      EncodeJoined4(b);
    }
  }

  lemma EncodeJoined3(b: Bytes)
    requires |b| == 3 == ScalarLength(b)
    ensures EncodeScalar(Join3(b) as char) == b
  {
    var high := (b[0] as int - 0xE0) * 0x40 + Low(b[1]);
    JoinSixBits(b[0] as int - 0xE0, Low(b[1]));
    JoinSixBits(high, Low(b[2]));
    SixBitGroups(Join3(b));
  }

  lemma EncodeJoined4(b: Bytes)
    requires |b| == 4 == ScalarLength(b)
    ensures EncodeScalar(Join4(b) as char) == b
  {
    var high := (b[0] as int - 0xF0) * 0x40 + Low(b[1]);
    JoinSixBits(b[0] as int - 0xF0, Low(b[1]));
    JoinSixBits(high, Low(b[2]));
    JoinSixBits(high * 0x40 + Low(b[2]), Low(b[3]));
    SixBitGroups(Join4(b));
  }

  lemma EncodeDecodeScalar(b: Bytes)
    requires DecodeScalar(b).Some?
    ensures EncodeScalar(DecodeScalar(b).value.0) + DecodeScalar(b).value.1 == b
  {
    var k := ScalarLength(b);
    var e := b[..k];
    assert ScalarLength(e) == k;
    EncodeJoined(e);
    assert e + b[k..] == b;
  }

  lemma {:induction false} DecodeEncode(s: string)
    ensures Decode(Encode(s)) == Some(s)
  {
    if s != [] {
      DecodeEncodeScalar(s[0], Encode(s[1..]));
      DecodeEncode(s[1..]);
      assert s == [s[0]] + s[1..];
    }
  }

  lemma {:induction false} EncodeDecode(b: Bytes)
    requires Decode(b).Some?
    ensures Encode(Decode(b).value) == b
    decreases |b|
  {
    if b != [] {
      EncodeDecodeScalar(b);
      var (c, rest) := DecodeScalar(b).value;
      EncodeDecode(rest);
      var s := Decode(b).value;
      assert s[0] == c && s[1..] == Decode(rest).value;
    }
  }

  /** The byte layouts of table 3-6: a lead byte that counts the bytes, six bits in each that follows, in the fewest bytes. */
  lemma ScalarLayout(c: char)
    ensures var b: seq<int>, n := EncodeScalar(c), c as int;
      && (forall i :: 1 <= i < |b| ==> 0x80 <= b[i] <= 0xbf)
      && if n <= 0x7f then b == [n]
         else if n <= 0x7ff then |b| == 2 && 0xc0 <= b[0] <= 0xdf && n == (b[0] - 0xc0) * 64 + (b[1] - 0x80)
         else if n <= 0xffff then |b| == 3 && 0xe0 <= b[0] <= 0xef && n == (b[0] - 0xe0) * 4096 + (b[1] - 0x80) * 64 + (b[2] - 0x80)
         else |b| == 4 && 0xf0 <= b[0] <= 0xf4
              && n == (b[0] - 0xf0) * 262144 + (b[1] - 0x80) * 4096 + (b[2] - 0x80) * 64 + (b[3] - 0x80)
  {
    SixBitGroups(c as int);
  }

  /** Texts are written scalar by scalar. */
  lemma {:induction false} WrittenInOrder(s: string, t: string)
    ensures Encode(s + t) == Encode(s) + Encode(t)
  {
    if s == [] {
      assert s + t == t;
    } else {
      WrittenInOrder(s[1..], t);
      assert (s + t)[1..] == s[1..] + t;
      AppendAssociative(EncodeScalar(s[0]), Encode(s[1..]), Encode(t));
    }
  }

  /** The decoder accepts what is written and nothing else. */
  lemma DecodesExactly(b: Bytes, s: string)
    ensures Decode(b) == Some(s) <==> b == Encode(s)
  {
    DecodeEncode(s);
    if Decode(b).Some? {
      EncodeDecode(b);
    }
  }
}
