/**
 Validation and decoding of UTF-8, against the encoding of RFC 3629.
 */
module Utf8 {
  import opened Bytes
  import opened Common

  type Unichar = bv32

  predicate UnicharIsValid(ch: Unichar): (valid: bool)
    ensures valid ==> ch < 0x110000
  {
    && !(ch >= 0x110000)
    && !((ch & 0xFFFFF800) == 0xD800)
    && !(ch >= 0xFDD0 && ch <= 0xFDEF)
    && !((ch & 0xFFFE) == 0xFFFE)
  }

  /** The scalar values of Unicode but for the noncharacters U+FDD0 to U+FDEF and the last two of every plane. */
  lemma ValidUnichars(ch: Unichar)
    ensures UnicharIsValid(ch) <==>
            && (ch < 0xD800 || 0xDFFF < ch < 0x110000)
            && !(0xFDD0 <= ch <= 0xFDEF) && (ch & 0xFFFF) != 0xFFFE && (ch & 0xFFFF) != 0xFFFF
  {
  }

  // ----- the encoding, section 3 of RFC 3629

  function Continuation(x: Unichar): Byte {
    (0x80 | (x & 0x3F)) as Byte
  }

  /** The six bits before the last six. */
  function Second(x: Unichar): Byte {
    Continuation(x >> 6)
  }

  function Third(x: Unichar): Byte {
    Continuation(x >> 12)
  }

  /** The first bytes of two, three and four. */
  function First2(x: Unichar): Byte
    requires x < 0x800
  {
    (0xC0 | (x >> 6)) as Byte
  }

  function First3(x: Unichar): Byte
    requires x < 0x10000
  {
    (0xE0 | (x >> 12)) as Byte
  }

  function First4(x: Unichar): Byte
    requires x < 0x200000
  {
    (0xF0 | (x >> 18)) as Byte
  }

  function Encode(ch: Unichar): (s: seq<Byte>)
    requires ch < 0x110000
    ensures |s| > 0
  {
    if ch < 0x80 then [ch as Byte]
    else if ch < 0x800 then [First2(ch), Continuation(ch)]
    else if ch < 0x10000 then [First3(ch), Second(ch), Continuation(ch)]
    else [First4(ch), Third(ch), Second(ch), Continuation(ch)]
  }

  /** The same in numbers: the digits of the character to the base 64. */
  lemma EncodingDigits(ch: Unichar)
    requires ch < 0x110000
    ensures ch < 0x80 ==> Encode(ch) == [ch as Byte]
    ensures 0x80 <= ch < 0x800 ==> Encode(ch) == [0xC0 + (ch / 64) as Byte, 0x80 + (ch % 64) as Byte]
    ensures 0x800 <= ch < 0x10000 ==>
              Encode(ch) == [0xE0 + (ch / 4096) as Byte, 0x80 + (ch / 64 % 64) as Byte, 0x80 + (ch % 64) as Byte]
    ensures 0x10000 <= ch ==>
              Encode(ch) == [0xF0 + (ch / 262144) as Byte, 0x80 + (ch / 4096 % 64) as Byte, 0x80 + (ch / 64 % 64) as Byte, 0x80 + (ch % 64) as Byte]
  {
  }

  /** The examples of section 7 of RFC 3629, and U+00E9. */
  lemma EncodingExamples()
    ensures Encode(0x41) == [0x41] && Encode(0x2262) == [0xE2, 0x89, 0xA2] && Encode(0x0391) == [0xCE, 0x91] && Encode(0x2E) == [0x2E]
    ensures Encode(0xD55C) == [0xED, 0x95, 0x9C] && Encode(0xAD6D) == [0xEA, 0xB5, 0xAD] && Encode(0xC5B4) == [0xEC, 0x96, 0xB4]
    ensures Encode(0x65E5) == [0xE6, 0x97, 0xA5] && Encode(0x672C) == [0xE6, 0x9C, 0xAC] && Encode(0x8A9E) == [0xE8, 0xAA, 0x9E]
    ensures Encode(0x233B4) == [0xF0, 0xA3, 0x8E, 0xB4] && Encode(0xE9) == [0xC3, 0xA9]
  {
  }

  // ----- one character

  /** What is read at a position of a C string. */
  function At(s: seq<Byte>, i: nat): Byte {
    if i < |s| then s[i] else 0
  }

  /** utf8_encoded_expected_len, from the first byte */
  function ExpectedLen(c: Byte): nat {
    if c < 0x80 then 1
    else if (c & 0xe0) == 0xc0 then 2
    else if (c & 0xf0) == 0xe0 then 3
    else if (c & 0xf8) == 0xf0 then 4
    else if (c & 0xfc) == 0xf8 then 5
    else if (c & 0xfe) == 0xfc then 6
    else 0
  }

  function UnicharToEncodedLen(ch: Unichar): nat {
    if ch < 0x80 then 1
    else if ch < 0x800 then 2
    else if ch < 0x10000 then 3
    else if ch < 0x200000 then 4
    else if ch < 0x4000000 then 5
    else 6
  }

  predicate IsContinuation(b: Byte) {
    (b & 0xc0) == 0x80
  }

  /** The bits of the first byte that belong to the character. */
  function Lead(c: Byte, len: nat): Unichar {
    if len == 1 then c as Unichar
    else if len == 2 then c as Unichar & 0x1f
    else if len == 3 then c as Unichar & 0x0f
    else if len == 4 then c as Unichar & 0x07
    else if len == 5 then c as Unichar & 0x03
    else c as Unichar & 0x01
  }

  function Shifted(u: Unichar, b: Byte): Unichar {
    (u << 6) | (b as Unichar & 0x3f)
  }

  /** The first n bytes of s put together. */
  function Gathered(s: seq<Byte>, len: nat, n: nat): Unichar
    requires 0 < n
  {
    if n == 1 then Lead(At(s, 0), len) else Shifted(Gathered(s, len, n - 1), At(s, n - 1))
  }

  /** Which bits of the bytes are put together, in numbers. */
  lemma BitsOfBytes(u: Unichar, b: Byte)
    ensures Shifted(u, b) == 64 * u + b as Unichar % 64
    ensures Lead(b, 1) == b as Unichar && Lead(b, 2) == b as Unichar % 32 && Lead(b, 3) == b as Unichar % 16
    ensures Lead(b, 4) == b as Unichar % 8 && Lead(b, 5) == b as Unichar % 4 && Lead(b, 6) == b as Unichar % 2
  {
  }

  predicate Continues(s: seq<Byte>, n: nat) {
    forall i :: 1 <= i < n ==> IsContinuation(At(s, i))
  }

  /** utf8_encoded_to_unichar */
  method EncodedToUnichar(str: CString) returns (r: int, ch: Unichar)
    ensures var n := ExpectedLen(At(str, 0));
            r == (if n > 0 && Continues(str, n) then 0 else -EINVAL) && (r == 0 ==> ch == Gathered(str, n, n))
  {
    hide ExpectedLen, Lead, Shifted, IsContinuation;
    var len := ExpectedLen(At(str, 0));
    if len == 0 {
      return -EINVAL, 0;
    }
    ch := Lead(At(str, 0), len);
    if len == 1 {
      return 0, ch;
    }
    for i := 1 to len
      invariant ch == Gathered(str, len, i) && Continues(str, i)
    {
      if !IsContinuation(At(str, i)) {
        return -EINVAL, 0;
      }
      ch := Shifted(ch, At(str, i));
    }
    r := 0;
  }

  // ----- decoding undoes encoding, length by length

  lemma EncodeDecode2(ch: Unichar)
    requires 0x80 <= ch < 0x800
    ensures var b0, b1 := First2(ch), Continuation(ch);
            ExpectedLen(b0) == 2 && IsContinuation(b1) && Shifted(Lead(b0, 2), b1) == ch
  {
  }

  lemma EncodeDecode3(ch: Unichar)
    requires 0x800 <= ch < 0x10000
    ensures var b0, b1, b2 := First3(ch), Second(ch), Continuation(ch);
            && ExpectedLen(b0) == 3 && IsContinuation(b1) && IsContinuation(b2)
            && Shifted(Shifted(Lead(b0, 3), b1), b2) == ch
  {
  }

  lemma EncodeDecode4(ch: Unichar)
    requires 0x10000 <= ch < 0x110000
    ensures var b0, b1, b2, b3 := First4(ch), Third(ch), Second(ch), Continuation(ch);
            && ExpectedLen(b0) == 4 && IsContinuation(b1) && IsContinuation(b2) && IsContinuation(b3)
            && Shifted(Shifted(Shifted(Lead(b0, 4), b1), b2), b3) == ch
  {
  }

  lemma DecodeEncode2(b0: Byte, b1: Byte)
    requires ExpectedLen(b0) == 2 && IsContinuation(b1)
    ensures var u := Shifted(Lead(b0, 2), b1);
            u < 0x800 && b0 == First2(u) && b1 == Continuation(u)
  {
  }

  lemma DecodeEncode3(b0: Byte, b1: Byte, b2: Byte)
    requires ExpectedLen(b0) == 3 && IsContinuation(b1) && IsContinuation(b2)
    ensures var u := Shifted(Shifted(Lead(b0, 3), b1), b2);
            u < 0x10000 && b0 == First3(u) && b1 == Second(u) && b2 == Continuation(u)
  {
  }

  lemma DecodeEncode4(b0: Byte, b1: Byte, b2: Byte, b3: Byte)
    requires ExpectedLen(b0) == 4 && IsContinuation(b1) && IsContinuation(b2) && IsContinuation(b3)
    ensures var u := Shifted(Shifted(Shifted(Lead(b0, 4), b1), b2), b3);
            && u < 0x200000 && b0 == First4(u)
            && b1 == Third(u) && b2 == Second(u) && b3 == Continuation(u)
  {
  }

  lemma Gathered2(s: seq<Byte>)
    ensures Gathered(s, 2, 2) == Shifted(Lead(At(s, 0), 2), At(s, 1))
  {
    assert Gathered(s, 2, 1) == Lead(At(s, 0), 2);
  }

  lemma Gathered3(s: seq<Byte>)
    ensures Gathered(s, 3, 3) == Shifted(Shifted(Lead(At(s, 0), 3), At(s, 1)), At(s, 2))
  {
    assert Gathered(s, 3, 2) == Shifted(Gathered(s, 3, 1), At(s, 1));
  }

  lemma Gathered4(s: seq<Byte>)
    ensures Gathered(s, 4, 4) == Shifted(Shifted(Shifted(Lead(At(s, 0), 4), At(s, 1)), At(s, 2)), At(s, 3))
  {
    assert Gathered(s, 4, 3) == Shifted(Gathered(s, 4, 2), At(s, 2));
    assert Gathered(s, 4, 2) == Shifted(Gathered(s, 4, 1), At(s, 1));
  }

  /** What the validator accepts at the start of s. */
  predicate Accepted(s: seq<Byte>) {
    var n := ExpectedLen(At(s, 0));
    n > 0 && Continues(s, n) && UnicharToEncodedLen(Gathered(s, n, n)) == n && (n > 1 ==> UnicharIsValid(Gathered(s, n, n)))
  }

  lemma Encoded2(s: seq<Byte>, ch: Unichar)
    requires 0x80 <= ch < 0x800 && Encode(ch) <= s
    ensures |Encode(ch)| == 2 && ExpectedLen(At(s, 0)) == 2 && Continues(s, 2) && Gathered(s, 2, 2) == ch && UnicharToEncodedLen(ch) == 2
  {
    hide ExpectedLen, IsContinuation, Shifted, Lead, Continuation, Second, Third, First2, First3, First4, Gathered;
    StartsWith(s, Encode(ch));
    EncodeDecode2(ch);
    Gathered2(s);
  }

  lemma Encoded3(s: seq<Byte>, ch: Unichar)
    requires 0x800 <= ch < 0x10000 && Encode(ch) <= s
    ensures |Encode(ch)| == 3 && ExpectedLen(At(s, 0)) == 3 && Continues(s, 3) && Gathered(s, 3, 3) == ch && UnicharToEncodedLen(ch) == 3
  {
    hide ExpectedLen, IsContinuation, Shifted, Lead, Continuation, Second, Third, First2, First3, First4, Gathered;
    StartsWith(s, Encode(ch));
    EncodeDecode3(ch);
    Gathered3(s);
  }

  lemma FourBytes(ch: Unichar)
    requires 0x10000 <= ch < 0x110000
    ensures Encode(ch) == [First4(ch), Third(ch), Second(ch), Continuation(ch)] && UnicharToEncodedLen(ch) == 4
  {
    hide First4, Third, Second, Continuation;
  }

  lemma Encoded4(s: seq<Byte>, ch: Unichar)
    requires 0x10000 <= ch < 0x110000 && Encode(ch) <= s
    ensures |Encode(ch)| == 4 && ExpectedLen(At(s, 0)) == 4 && Continues(s, 4) && Gathered(s, 4, 4) == ch && UnicharToEncodedLen(ch) == 4
  {
    hide ExpectedLen, IsContinuation, Shifted, Lead, Continuation, Second, Third, First2, First3, First4, Gathered, Encode, UnicharToEncodedLen;
    FourBytes(ch);
    StartsWith(s, Encode(ch));
    EncodeDecode4(ch);
    Gathered4(s);
  }

  /** A string that starts with the encoding of a valid character is accepted, and that character is recovered. */
  lemma EncodedIsAccepted(s: seq<Byte>, ch: Unichar)
    requires UnicharIsValid(ch) && Encode(ch) <= s
    ensures var n := |Encode(ch)|; ExpectedLen(At(s, 0)) == n && Gathered(s, n, n) == ch && Accepted(s)
  {
    hide ExpectedLen, UnicharIsValid, Gathered, UnicharToEncodedLen, Encode, Continues;
    if ch < 0x80 {
      AsciiGathered(s, ch);
    } else if ch < 0x800 {
      Encoded2(s, ch);
    } else if ch < 0x10000 {
      Encoded3(s, ch);
    } else {
      Encoded4(s, ch);
    }
  }

  lemma StartsWith(s: seq<Byte>, t: seq<Byte>)
    requires t <= s
    ensures forall i :: 0 <= i < |t| ==> At(s, i) == t[i]
  {
  }

  lemma AsciiGathered(s: seq<Byte>, ch: Unichar)
    requires ch < 0x80 && Encode(ch) <= s
    ensures |Encode(ch)| == 1 && ExpectedLen(At(s, 0)) == 1 && Continues(s, 1) && Gathered(s, 1, 1) == ch && UnicharToEncodedLen(ch) == 1
  {
    StartsWith(s, Encode(ch));
  }

  lemma Accepted2(s: seq<Byte>)
    requires |s| >= 2 && ExpectedLen(s[0]) == 2 && Continues(s, 2) && UnicharToEncodedLen(Gathered(s, 2, 2)) == 2
    ensures Gathered(s, 2, 2) < 0x800 && Encode(Gathered(s, 2, 2)) == s[..2]
  {
    hide ExpectedLen, IsContinuation, Shifted, Lead, Continuation, Second, Third, First2, First3, First4, Gathered;
    Gathered2(s);
    DecodeEncode2(s[0], s[1]);
  }

  lemma Accepted3(s: seq<Byte>)
    requires |s| >= 3 && ExpectedLen(s[0]) == 3 && Continues(s, 3) && UnicharToEncodedLen(Gathered(s, 3, 3)) == 3
    ensures Gathered(s, 3, 3) < 0x10000 && Encode(Gathered(s, 3, 3)) == s[..3]
  {
    hide ExpectedLen, IsContinuation, Shifted, Lead, Continuation, Second, Third, First2, First3, First4, Gathered;
    Gathered3(s);
    DecodeEncode3(s[0], s[1], s[2]);
  }

  lemma Accepted4(s: seq<Byte>)
    requires |s| >= 4 && ExpectedLen(s[0]) == 4 && Continues(s, 4) && UnicharToEncodedLen(Gathered(s, 4, 4)) == 4
    requires Gathered(s, 4, 4) < 0x110000
    ensures Encode(Gathered(s, 4, 4)) == s[..4]
  {
    hide ExpectedLen, IsContinuation, Shifted, Lead, Continuation, Second, Third, First2, First3, First4, Gathered;
    Gathered4(s);
    DecodeEncode4(s[0], s[1], s[2], s[3]);
  }

  lemma LongForms(ch: Unichar)
    requires UnicharToEncodedLen(ch) > 4
    ensures !UnicharIsValid(ch)
  {
  }

  /** What is accepted is the encoding of the valid character that is recovered; it has up to four bytes. */
  lemma AcceptedIsEncoded(s: CString)
    requires s != [] && Accepted(s)
    ensures var n := ExpectedLen(s[0]);
            var ch := Gathered(s, n, n);
            n <= 4 && n <= |s| && UnicharIsValid(ch) && Encode(ch) == s[..n]
  {
    hide ExpectedLen, UnicharIsValid, Gathered, UnicharToEncodedLen, Encode, Continues;
    var n := ExpectedLen(s[0]);
    NotPastTheEnd(s, n);
    if n == 1 {
      AsciiAccepted(s);
    } else if n == 2 {
      Accepted2(s);
    } else if n == 3 {
      Accepted3(s);
    } else if n == 4 {
      Accepted4(s);
    } else {
      LongForms(Gathered(s, n, n));
    }
  }

  lemma AsciiAccepted(s: CString)
    requires s != [] && ExpectedLen(s[0]) == 1
    ensures var ch := Gathered(s, 1, 1); ch < 0x80 && UnicharIsValid(ch) && Encode(ch) == [s[0]] == s[..1]
  {
  }

  lemma NotPastTheEnd(s: CString, n: nat)
    requires s != [] && Continues(s, n)
    ensures n <= |s|
  {
    assert !IsContinuation(At(s, |s|));
  }

  // ----- utf8_encoded_valid_unichar and utf8_is_valid

  /** s starts with the encoding of a valid character. */
  predicate Starts(s: seq<Byte>, ch: Unichar) {
    UnicharIsValid(ch) && Encode(ch) <= s
  }

  /** The validator finds the encoding of a valid character at the start of the string, just when there is one. */
  lemma AcceptedJustWhenEncoded(s: CString)
    requires s != []
    ensures Accepted(s) <==> exists ch {:trigger Starts(s, ch)} :: Starts(s, ch)
  {
    hide ExpectedLen, UnicharIsValid, Gathered, Encode, Accepted;
    if Accepted(s) {
      AcceptedIsEncoded(s);
      var n := ExpectedLen(s[0]);
      assert Starts(s, Gathered(s, n, n));
    }
    forall ch | Starts(s, ch) ensures Accepted(s) {
      EncodedIsAccepted(s, ch);
    }
  }

  /** No two valid characters have encodings of which one starts the other. */
  lemma EncodingIsPrefixFree(s: seq<Byte>, a: Unichar, b: Unichar)
    requires UnicharIsValid(a) && UnicharIsValid(b) && Encode(a) <= s && Encode(b) <= s
    ensures a == b
  {
    hide ExpectedLen, UnicharIsValid, Gathered, Encode, Accepted;
    EncodedIsAccepted(s, a);
    EncodedIsAccepted(s, b);
  }

  lemma NulLength()
    ensures ExpectedLen(0) == 1
  {
  }

  /** utf8_encoded_valid_unichar; the NUL that ends a string counts as a character. */
  method EncodedValidUnichar(str: CString) returns (r: int)
    ensures r == if str == [] then 1 else if Accepted(str) then ExpectedLen(str[0]) else -EINVAL
  {
    hide ExpectedLen, UnicharIsValid, UnicharToEncodedLen, Gathered, IsContinuation;
    var len := ExpectedLen(At(str, 0));
    NulLength();
    if len == 0 {
      return -EINVAL;
    }
    if len == 1 {
      if str != [] {
        AsciiAccepted(str);
        AsciiLength(Gathered(str, 1, 1));
      }
      return 1;
    }
    for i := 0 to len
      invariant forall j :: 0 <= j < i ==> (At(str, j) & 0x80) == 0x80
    {
      if (At(str, i) & 0x80) != 0x80 {
        HighBit(str, len, i);
        return -EINVAL;
      }
    }
    var ch;
    r, ch := EncodedToUnichar(str);
    if r < 0 {
      return;
    }
    if UnicharToEncodedLen(ch) != len {
      return -EINVAL;
    }
    if !UnicharIsValid(ch) {
      return -EINVAL;
    }
    r := len;
  }

  lemma AsciiLength(ch: Unichar)
    requires ch < 0x80
    ensures UnicharToEncodedLen(ch) == 1
  {
  }

  /** The check of the high bits rejects nothing that the rest would accept. */
  lemma HighBit(s: CString, len: nat, i: nat)
    requires s != [] && len == ExpectedLen(s[0]) > 1 && i < len && (At(s, i) & 0x80) != 0x80
    ensures !Continues(s, len)
  {
    if i > 0 {
      assert !IsContinuation(At(s, i));
    }
  }

  function EncodeAll(text: seq<Unichar>): seq<Byte>
    requires forall i :: 0 <= i < |text| ==> UnicharIsValid(text[i])
  {
    if text == [] then [] else assert UnicharIsValid(text[0]); Encode(text[0]) + EncodeAll(text[1..])
  }

  ghost predicate IsEncoded(s: seq<Byte>, text: seq<Unichar>) {
    (forall i :: 0 <= i < |text| ==> UnicharIsValid(text[i])) && s == EncodeAll(text)
  }

  ghost predicate WellFormed(s: seq<Byte>) {
    exists text :: IsEncoded(s, text)
  }

  /** utf8_is_valid accepts just the encodings of texts of valid characters. */
  method Utf8IsValid(str: CString) returns (valid: bool)
    ensures valid <==> WellFormed(str)
  {
    hide ExpectedLen, UnicharIsValid, Gathered, Encode, Accepted, IsEncoded, WellFormed;
    var p: CString := str;
    while p != []
      invariant WellFormed(p) <==> WellFormed(str)
      decreases |p|
    {
      var len := EncodedValidUnichar(p);
      WellFormedStep(p);
      if len < 0 {
        return false;
      }
      p := p[len..];
    }
    NothingIsWellFormed();
    valid := true;
  }

  lemma NothingIsWellFormed()
    ensures WellFormed([])
  {
    assert IsEncoded([], []);
  }

  lemma WellFormedStep(s: CString)
    requires s != []
    ensures Accepted(s) ==> 0 < ExpectedLen(s[0]) <= |s|
    ensures WellFormed(s) <==> Accepted(s) && WellFormed(s[ExpectedLen(s[0])..])
  {
    hide ExpectedLen, UnicharIsValid, Gathered, Encode, Accepted;
    if Accepted(s) {
      AcceptedIsEncoded(s);
      var n := ExpectedLen(s[0]);
      var ch := Gathered(s, n, n);
      assert s == Encode(ch) + s[n..];
      if WellFormed(s[n..]) {
        var rest :| IsEncoded(s[n..], rest);
        assert ([ch] + rest)[1..] == rest;
        assert IsEncoded(s, [ch] + rest);
      }
    }
    if WellFormed(s) {
      var text :| IsEncoded(s, text);
      EncodedIsAccepted(s, text[0]);
      var n := |Encode(text[0])|;
      assert s[n..] == EncodeAll(text[1..]);
      assert IsEncoded(s[n..], text[1..]);
    }
  }

  /** A text is determined by its encoding. */
  lemma {:induction false} TextIsUnique(s: seq<Byte>, a: seq<Unichar>, b: seq<Unichar>)
    requires IsEncoded(s, a) && IsEncoded(s, b)
    ensures a == b
    decreases |a|
  {
    hide UnicharIsValid, Encode;
    if a != [] && b != [] {
      EncodingIsPrefixFree(s, a[0], b[0]);
      var n := |Encode(a[0])|;
      assert s[n..] == EncodeAll(a[1..]) == EncodeAll(b[1..]);
      TextIsUnique(s[n..], a[1..], b[1..]);
      assert a == [a[0]] + a[1..] && b == [b[0]] + b[1..];
    }
  }
}
