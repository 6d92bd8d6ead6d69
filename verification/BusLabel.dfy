/**
 Strings as labels of object paths, and back.
 */
module BusLabel {
  import opened Bytes

  const UNDERSCORE: Byte := 95

  predicate IsLetter(c: Byte) {
    (c >= 65 && c <= 90) || (c >= 97 && c <= 122)
  }

  predicate IsDigit(c: Byte) {
    c >= 48 && c <= 57
  }

  /** hexchar */
  function HexChar(x: Byte): Byte {
    if x & 15 < 10 then 48 + (x & 15) else 87 + (x & 15)
  }

  /** hexchar(c >> 4) */
  function HighChar(c: Byte): Byte {
    HexChar(c >> 4)
  }

  /** Where unhexchar succeeds. */
  predicate IsHex(c: Byte) {
    IsDigit(c) || (c >= 97 && c <= 102) || (c >= 65 && c <= 70)
  }

  /** unhexchar */
  function UnhexChar(c: Byte): Byte
    requires IsHex(c)
  {
    if IsDigit(c) then c - 48 else if c >= 97 then c - 87 else c - 55
  }

  function Joined(a: Byte, b: Byte): Byte {
    (a << 4) | b
  }

  /** What bus_label_escape does to one character. */
  function EscapeChar(c: Byte, first: bool): (r: seq<Byte>)
    ensures 1 <= |r| <= 3
  {
    if !IsLetter(c) && !(!first && IsDigit(c)) then [UNDERSCORE, HighChar(c), HexChar(c)] else [c]
  }

  /** 0 to 9, a to f */
  function HexDigit(x: Byte): Byte
    requires x < 16
  {
    match x
    case 0 => 0x30 case 1 => 0x31 case 2 => 0x32 case 3 => 0x33
    case 4 => 0x34 case 5 => 0x35 case 6 => 0x36 case 7 => 0x37
    case 8 => 0x38 case 9 => 0x39 case 10 => 0x61 case 11 => 0x62
    case 12 => 0x63 case 13 => 0x64 case 14 => 0x65 case _ => 0x66
  }

  /** A to Z, a to z and, but for the first character, 0 to 9 are left alone; others become codes of two hex digits. */
  lemma EscapedChars(c: Byte, first: bool)
    ensures EscapeChar(c, first) ==
            if 0x41 <= c <= 0x5a || 0x61 <= c <= 0x7a || (!first && 0x30 <= c <= 0x39) then [c]
            else [0x5f, HexDigit(c / 16), HexDigit(c % 16)]
  {
  }

  function EscapeFrom(s: seq<Byte>, first: bool): (r: seq<Byte>)
    ensures |s| <= |r| <= 3 * |s|
  {
    if s == [] then [] else EscapeChar(s[0], first) + EscapeFrom(s[1..], false)
  }

  function Escaped(s: seq<Byte>): seq<Byte> {
    if s == [] then [UNDERSCORE] else EscapeFrom(s, true)
  }

  /** f starts with an escape code. */
  predicate StartsCode(f: seq<Byte>) {
    |f| >= 3 && f[0] == UNDERSCORE && IsHex(f[1]) && IsHex(f[2])
  }

  function UnescapeFrom(f: seq<Byte>): (r: seq<Byte>)
    ensures |r| <= |f|
  {
    if f == [] then []
    else if StartsCode(f) then [Joined(UnhexChar(f[1]), UnhexChar(f[2]))] + UnescapeFrom(f[3..])
    else [f[0]] + UnescapeFrom(f[1..])
  }

  function Unescaped(f: seq<Byte>): seq<Byte> {
    if f == [UNDERSCORE] then [] else UnescapeFrom(f)
  }

  // ----- the two are inverse

  lemma HexRoundTrip(c: Byte)
    ensures IsHex(HighChar(c)) && IsHex(HexChar(c)) && Joined(UnhexChar(HighChar(c)), UnhexChar(HexChar(c))) == c
  {
  }

  /** What the digits of a code stand for, the letters also in upper case. */
  lemma HexValues(x: Byte, y: Byte)
    requires x < 16 && y < 16
    ensures IsHex(HexDigit(x)) && UnhexChar(HexDigit(x)) == x
    ensures x >= 10 ==> IsHex(HexDigit(x) - 0x20) && UnhexChar(HexDigit(x) - 0x20) == x
    ensures Joined(x, y) == 16 * x + y
  {
  }

  /** And there are no other digits. */
  lemma OnlyHexDigits(c: Byte)
    ensures IsHex(c) <==> 0x30 <= c <= 0x39 || 0x41 <= c <= 0x46 || 0x61 <= c <= 0x66
  {
  }

  /** "a.1" becomes "a_2e1", "1" becomes "_31", and the empty string "_". */
  lemma LabelExamples()
    ensures Escaped([0x61, 0x2e, 0x31]) == [0x61, 0x5f, 0x32, 0x65, 0x31]
    ensures Escaped([0x31]) == [0x5f, 0x33, 0x31] && Escaped([]) == [0x5f]
  {
    hide EscapeChar;
    NothingToEscape();
    EscapedChars(0x61, true);
    EscapedChars(0x2e, false);
    EscapedChars(0x31, false);
    EscapedChars(0x31, true);
    var s: seq<Byte>, t: seq<Byte>, u: seq<Byte> := [0x61, 0x2e, 0x31], [0x2e, 0x31], [0x31];
    EscapeStep(s, true);
    EscapeStep(t, false);
    EscapeStep(u, false);
    EscapeStep(u, true);
    assert s[1..] == t && t[1..] == u && u[1..] == [];
    assert HexDigit(0x2e / 16) == 0x32 && HexDigit(0x2e % 16) == 0x65 && HexDigit(0x31 / 16) == 0x33 && HexDigit(0x31 % 16) == 0x31;
  }

  lemma CharRoundTrip(c: Byte, first: bool, rest: seq<Byte>)
    ensures UnescapeFrom(EscapeChar(c, first) + rest) == [c] + UnescapeFrom(rest)
  {
    hide HexChar, HighChar, IsHex, UnhexChar, Joined;
    HexRoundTrip(c);
    var f := EscapeChar(c, first) + rest;
    if |EscapeChar(c, first)| == 3 {
      assert f[3..] == rest;
    } else {
      assert f[1..] == rest;
    }
  }

  lemma {:induction false} RoundTripFrom(s: seq<Byte>, first: bool)
    ensures UnescapeFrom(EscapeFrom(s, first)) == s
  {
    hide EscapeChar;
    if s != [] {
      CharRoundTrip(s[0], first, EscapeFrom(s[1..], false));
      RoundTripFrom(s[1..], false);
    }
  }

  /** Unescaping an escaped string gives the string back, also when it is empty. */
  lemma RoundTrip(s: seq<Byte>)
    ensures Unescaped(Escaped(s)) == s
  {
    if s != [] {
      RoundTripFrom(s, true);
      assert EscapeFrom(s, true) != [UNDERSCORE] by {
        LoneUnderscore(s);
      }
    }
  }

  lemma LoneUnderscore(s: seq<Byte>)
    requires s != []
    ensures EscapeFrom(s, true) != [UNDERSCORE]
  {
    assert EscapeFrom(s, true)[0] == EscapeChar(s[0], true)[0];
  }

  /** Different strings get different labels. */
  lemma EscapeIsInjective(s: seq<Byte>, t: seq<Byte>)
    requires Escaped(s) == Escaped(t)
    ensures s == t
  {
    RoundTrip(s);
    RoundTrip(t);
  }

  predicate LabelChar(c: Byte) {
    IsLetter(c) || IsDigit(c) || c == UNDERSCORE
  }

  /** An element of an object path, as the D-Bus specification has it under "Valid Object Paths". */
  predicate ValidLabel(f: seq<Byte>) {
    f != [] && forall i :: 0 <= i < |f| ==> LabelChar(f[i])
  }

  lemma LabelChars(c: Byte, first: bool)
    ensures forall i :: 0 <= i < |EscapeChar(c, first)| ==> LabelChar(EscapeChar(c, first)[i])
    ensures first ==> !IsDigit(EscapeChar(c, first)[0])
  {
    HexLabel(c >> 4);
    HexLabel(c);
  }

  lemma HexLabel(x: Byte)
    ensures LabelChar(HexChar(x))
  {
  }

  lemma {:induction false} LabelCharsFrom(s: seq<Byte>, first: bool)
    ensures forall i :: 0 <= i < |EscapeFrom(s, first)| ==> LabelChar(EscapeFrom(s, first)[i])
  {
    hide EscapeChar, LabelChar;
    if s != [] {
      LabelChars(s[0], first);
      LabelCharsFrom(s[1..], false);
    }
  }

  /** What comes out is a valid label that does not start with a digit, and of bounded length. */
  lemma EscapedIsLabel(s: seq<Byte>)
    ensures ValidLabel(Escaped(s)) && !IsDigit(Escaped(s)[0])
    ensures |Escaped(s)| <= if s == [] then 1 else 3 * |s|
  {
    hide EscapeChar, LabelChar;
    if s != [] {
      LabelCharsFrom(s, true);
      LabelChars(s[0], true);
    } else {
      UnderscoreIsLabel();
    }
  }

  lemma UnderscoreIsLabel()
    ensures LabelChar(UNDERSCORE) && !IsDigit(UNDERSCORE)
  {
  }

  // ----- the functions

  /** bus_label_escape; the label is the first n bytes of r. */
  method LabelEscape(s: CString) returns (r: array<Byte>, ghost n: nat)
    ensures fresh(r) && n < r.Length == (if s == [] then 2 else 3 * |s| + 1)
    ensures r[..n] == Escaped(s) && r[n] == 0
  {
    hide EscapeChar, EscapeFrom;
    if s == [] {
      r := new Byte[] [UNDERSCORE, 0];
      n := 1;
      return;
    }
    r := new Byte[3 * |s| + 1];
    var f: nat, t: nat := 0, 0;
    assert s[0..] == s && r[..0] + EscapeFrom(s, true) == EscapeFrom(s, true);
    while f < |s|
      invariant f <= |s| && t <= 3 * f && fresh(r) && r.Length == 3 * |s| + 1
      invariant r[..t] + EscapeFrom(s[f..], f == 0) == Escaped(s)
    {
      EscapeStep(s[f..], f == 0);
      Regrouped(r[..t], EscapeChar(s[f], f == 0), EscapeFrom(s[f + 1..], false));
      t := PutEscaped(r, t, s[f], f == 0);
      f := f + 1;
    }
    n := t;
    assert s[f..] == [] && EscapeFrom([], false) == [] by {
      NothingToEscape();
    }
    assert r[..t] + [] == r[..t];
    r[t] := 0;
  }

  /** One turn of the loop of bus_label_escape. */
  method PutEscaped(r: array<Byte>, t: nat, c: Byte, first: bool) returns (u: nat)
    requires t + 3 <= r.Length
    modifies r
    ensures u == t + |EscapeChar(c, first)| && r[..u] == old(r[..t]) + EscapeChar(c, first)
  {
    hide HexChar, HighChar, IsLetter, IsDigit;
    if !IsLetter(c) && !(!first && IsDigit(c)) {
      r[t], r[t + 1], r[t + 2] := UNDERSCORE, HighChar(c), HexChar(c);
      u := t + 3;
    } else {
      r[t] := c;
      u := t + 1;
    }
  }

  lemma NothingToEscape()
    ensures EscapeFrom([], false) == []
  {
  }

  lemma EscapeStep(s: seq<Byte>, first: bool)
    requires s != []
    ensures EscapeFrom(s, first) == EscapeChar(s[0], first) + EscapeFrom(s[1..], false)
  {
    hide EscapeChar;
  }

  /** bus_label_unescape_n; the string is the first n bytes of r. */
  method LabelUnescapeN(f: seq<Byte>) returns (r: array<Byte>, ghost n: nat)
    ensures fresh(r) && r.Length == (if f == [UNDERSCORE] then 1 else |f| + 1)
    ensures n < r.Length && r[..n] == Unescaped(f) && r[n] == 0
  {
    hide StartsCode, FirstUnescaped, UnescapeFrom;
    if |f| == 1 && f[0] == UNDERSCORE {
      r := new Byte[] [0];
      n := 0;
      assert f == [UNDERSCORE];
      return;
    }
    r := new Byte[|f| + 1];
    n := UnescapeLoop(r, f);
  }

  /** The loop of bus_label_unescape_n, with the NUL behind it. */
  method UnescapeLoop(r: array<Byte>, f: seq<Byte>) returns (t: nat)
    requires |f| < r.Length
    modifies r
    ensures t < r.Length && r[..t] == UnescapeFrom(f) && r[t] == 0
  {
    hide StartsCode, FirstUnescaped, UnescapeFrom;
    var i := 0;
    t := 0;
    assert f[0..] == f;
    while i < |f|
      invariant t <= i <= |f|
      invariant r[..t] + UnescapeFrom(f[i..]) == UnescapeFrom(f)
    {
      ghost var done, rest := r[..t], f[i..];
      UnescapeStep(rest);
      i := PutUnescaped(r, t, f, i);
      t := t + 1;
      Regrouped(done, [FirstUnescaped(rest)], UnescapeFrom(f[i..]));
    }
    NothingToUnescape();
    assert f[i..] == [] && r[..t] + [] == r[..t];
    r[t] := 0;
  }

  /** One turn of the loop of bus_label_unescape_n. */
  method PutUnescaped(r: array<Byte>, t: nat, f: seq<Byte>, i0: nat) returns (i: nat)
    requires t <= i0 < |f| && |f| < r.Length
    modifies r
    ensures i0 < i <= |f| && f[i..] == f[i0..][if StartsCode(f[i0..]) then 3 else 1..]
    ensures r[..t + 1] == old(r[..t]) + [FirstUnescaped(f[i0..])]
  {
    hide IsHex, UnhexChar, Joined;
    i := i0;
    if f[i] == UNDERSCORE {
      if |f| - i < 3 || !IsHex(f[i + 1]) || !IsHex(f[i + 2]) {
        r[t] := UNDERSCORE;
      } else {
        r[t] := Joined(UnhexChar(f[i + 1]), UnhexChar(f[i + 2]));
        i := i + 2;
      }
    } else {
      r[t] := f[i];
    }
    i := i + 1;
  }

  function FirstUnescaped(f: seq<Byte>): Byte
    requires f != []
  {
    if StartsCode(f) then Joined(UnhexChar(f[1]), UnhexChar(f[2])) else f[0]
  }

  lemma UnescapeStep(f: seq<Byte>)
    requires f != []
    ensures UnescapeFrom(f) == [FirstUnescaped(f)] + UnescapeFrom(f[if StartsCode(f) then 3 else 1..])
  {
    hide IsHex, UnhexChar, Joined;
  }

  lemma NothingToUnescape()
    ensures UnescapeFrom([]) == []
  {
  }
}
