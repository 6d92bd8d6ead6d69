/**
 Escaping a string into a buffer of fixed size, with an ellipsis in place of
 what does not fit, and no escape sequence ever cut in two.
 */
module Cellescape {
  import opened Bytes
  import opened Utf8

  const BACKSLASH: Byte := 92

  /** octchar */
  function OctChar(x: Byte): Byte {
    48 + (x & 7)
  }

  /** The character after the backslash of a two character sequence, or 0 if there is none. */
  function ShortEscape(c: Byte): Byte {
    match c
    case 7 => 97
    case 8 => 98
    case 12 => 102
    case 10 => 110
    case 13 => 114
    case 9 => 116
    case 11 => 118
    case 92 => 92
    case 34 => 34
    case 39 => 39
    case _ => 0
  }

  function Escape(c: Byte): (s: seq<Byte>)
    ensures 1 <= |s| <= 4
  {
    if ShortEscape(c) != 0 then [BACKSLASH, ShortEscape(c)]
    else if c < 32 || c >= 127 then [BACKSLASH, OctChar(c >> 6), OctChar(c >> 3), OctChar(c)]
    else [c]
  }

  /**
   Which sequence belongs to which character: \a, \b, \f, \n, \r, \t, \v, a backslash and quotation marks after
   another backslash, other printable characters as they are, and the rest in octal.
   */
  lemma Escapes(c: Byte)
    ensures c == 0x07 ==> Escape(c) == [0x5c, 0x61]
    ensures c == 0x08 ==> Escape(c) == [0x5c, 0x62]
    ensures c == 0x0c ==> Escape(c) == [0x5c, 0x66]
    ensures c == 0x0a ==> Escape(c) == [0x5c, 0x6e]
    ensures c == 0x0d ==> Escape(c) == [0x5c, 0x72]
    ensures c == 0x09 ==> Escape(c) == [0x5c, 0x74]
    ensures c == 0x0b ==> Escape(c) == [0x5c, 0x76]
    ensures c == 0x5c || c == 0x22 || c == 0x27 ==> Escape(c) == [0x5c, c]
    ensures 0x20 <= c <= 0x7e && c != 0x5c && c != 0x22 && c != 0x27 ==> Escape(c) == [c]
    ensures c < 0x07 || 0x0d < c < 0x20 || c > 0x7e ==> Escape(c) == [0x5c, 0x30 + c / 64, 0x30 + c / 8 % 8, 0x30 + c % 8]
  {
  }

  /** What comes out is printable ASCII. */
  lemma EscapeIsPrintable(c: Byte)
    ensures forall i :: 0 <= i < |Escape(c)| ==> 32 <= Escape(c)[i] < 127
  {
    assert 48 <= OctChar(c >> 6) <= 55 && 48 <= OctChar(c >> 3) <= 55 && 48 <= OctChar(c) <= 55;
  }

  /** The whole string escaped. */
  function Full(s: seq<Byte>): seq<Byte> {
    if s == [] then [] else Full(s[..|s| - 1]) + Escape(s[|s| - 1])
  }

  lemma FullStep(s: seq<Byte>, n: nat)
    requires n < |s|
    ensures Full(s[..n + 1]) == Full(s[..n]) + Escape(s[n])
  {
    assert s[..n + 1][..n] == s[..n];
  }

  lemma {:induction false} FullMonotone(s: seq<Byte>, m: nat, n: nat)
    requires m <= n <= |s|
    ensures |Full(s[..m])| + (n - m) <= |Full(s[..n])|
  {
    if m < n {
      FullStep(s, n - 1);
      FullMonotone(s, m, n - 1);
    }
  }

  // ----- an escaped string can be read in one way only

  lemma OctalDigits(a: Byte, b: Byte)
    requires OctChar(a >> 6) == OctChar(b >> 6) && OctChar(a >> 3) == OctChar(b >> 3) && OctChar(a) == OctChar(b)
    ensures a == b
  {
  }

  /** A short sequence gives its character away, and does not look like an octal one. */
  lemma ShortSequences(a: Byte, b: Byte)
    ensures ShortEscape(a) == ShortEscape(b) != 0 ==> a == b
    ensures ShortEscape(a) != 0 ==> ShortEscape(a) != OctChar(b >> 6)
    ensures ShortEscape(a) == 0 ==> a != BACKSLASH
  {
    assert 48 <= OctChar(b >> 6) <= 55;
  }

  /** No escape sequence starts another. */
  lemma EscapeIsPrefixFree(a: Byte, b: Byte, x: seq<Byte>, y: seq<Byte>)
    requires Escape(a) + x == Escape(b) + y
    ensures a == b && x == y
  {
    hide OctChar, ShortEscape;
    var s, t := Escape(a) + x, Escape(b) + y;
    ShortSequences(a, b);
    ShortSequences(b, a);
    assert s[0] == Escape(a)[0] && t[0] == Escape(b)[0];
    if |Escape(a)| > 1 && |Escape(b)| > 1 {
      assert s[1] == Escape(a)[1] && t[1] == Escape(b)[1];
      if |Escape(a)| == |Escape(b)| == 4 {
        assert s[2] == Escape(a)[2] && t[2] == Escape(b)[2] && s[3] == Escape(a)[3] && t[3] == Escape(b)[3];
        OctalDigits(a, b);
      }
    }
    assert a == b;
    assert x == s[|Escape(a)|..] && y == t[|Escape(b)|..];
  }

  lemma LastEscaped(s: seq<Byte>)
    requires s != []
    ensures Full(s) == Full(s[..|s| - 1]) + Escape(s[|s| - 1])
  {
    hide Escape;
  }

  lemma NothingEscaped()
    ensures Full([]) == []
  {
  }

  lemma {:induction false} FullFromFront(s: seq<Byte>)
    requires s != []
    ensures Full(s) == Escape(s[0]) + Full(s[1..])
  {
    hide Escape, Full;
    var k := |s| - 1;
    LastEscaped(s);
    if k == 0 {
      assert s[..0] == [] && s[1..] == [];
      NothingEscaped();
    } else {
      FullFromFront(s[..k]);
      LastEscaped(s[1..]);
      assert s[..k][1..] == s[1..][..k - 1];
      Regrouped(Escape(s[0]), Full(s[1..][..k - 1]), Escape(s[k]));
    }
  }

  /** Different strings look different. */
  lemma {:induction false} FullIsInjective(s: seq<Byte>, t: seq<Byte>)
    requires Full(s) == Full(t)
    ensures s == t
    decreases |s|
  {
    hide Escape;
    if s != [] && t != [] {
      FullFromFront(s);
      FullFromFront(t);
      EscapeIsPrefixFree(s[0], t[0], Full(s[1..]), Full(t[1..]));
      FullIsInjective(s[1..], t[1..]);
      assert s == [s[0]] + s[1..] && t == [t[0]] + t[1..];
    }
  }

  // ----- what fits

  /** n characters are the most whose escapes fit into room. */
  ghost predicate Longest(s: seq<Byte>, room: nat, n: nat): (r: bool)
    ensures r ==> n <= |s|
  {
    n <= |s| && |Full(s[..n])| <= room && (n < |s| ==> |Full(s[..n + 1])| > room)
  }

  lemma LongestIsUnique(s: seq<Byte>, room: nat, m: nat, n: nat)
    requires Longest(s, room, m) && Longest(s, room, n)
    ensures m == n
  {
    if m < n {
      FullMonotone(s, m + 1, n);
    } else if n < m {
      FullMonotone(s, n + 1, m);
    }
  }

  /** write_ellipsis; utf8 says what is_locale_utf8 would. */
  function Ellipsis(utf8: bool): (e: seq<Byte>)
    ensures |e| == 3
  {
    if utf8 then [0xe2, 0x80, 0xa6] else [46, 46, 46]
  }

  /** Three dots, or the character U+2026. */
  lemma EllipsisIs()
    ensures Ellipsis(false) == [0x2e, 0x2e, 0x2e]
    ensures Ellipsis(true) == Encode(0x2026)
  {
  }

  /** The text is what cellescape makes of s for a buffer of len bytes. */
  ghost predicate Cell(s: seq<Byte>, len: nat, utf8: bool, text: seq<Byte>) {
    if |Full(s)| < len then text == Full(s)
    else if len >= 4 then exists n: nat :: Longest(s, len - 4, n) && text == Full(s[..n]) + Ellipsis(utf8)
    else text == [46, 46][..if len > 0 then len - 1 else 0]
  }

  /** There is one such text. */
  lemma CellIsUnique(s: seq<Byte>, len: nat, utf8: bool, a: seq<Byte>, b: seq<Byte>)
    requires Cell(s, len, utf8, a) && Cell(s, len, utf8, b)
    ensures a == b
  {
    hide Longest, Full;
    if |Full(s)| >= len >= 4 {
      var m: nat :| Longest(s, len - 4, m) && a == Full(s[..m]) + Ellipsis(utf8);
      var n: nat :| Longest(s, len - 4, n) && b == Full(s[..n]) + Ellipsis(utf8);
      LongestIsUnique(s, len - 4, m, n);
    }
  }

  /** "abcdefgh" in a buffer of six bytes is "ab...". */
  lemma CellExample(s: seq<Byte>, text: seq<Byte>)
    requires s == [0x61, 0x62, 0x63, 0x64, 0x65, 0x66, 0x67, 0x68] && Cell(s, 6, false, text)
    ensures text == [0x61, 0x62, 0x2e, 0x2e, 0x2e]
  {
    hide Full, Escape, Longest;
    FullMonotone(s, 0, 8);
    assert s[..8] == s;
    EmptyPrefix(s);
    FullStep(s, 0);
    FullStep(s, 1);
    FullStep(s, 2);
    Escapes(0x61);
    Escapes(0x62);
    Escapes(0x63);
    assert Full(s[..2]) == [0x61, 0x62] && |Full(s[..3])| == 3;
    TwoFit(s);
    var n: nat :| Longest(s, 2, n) && text == Full(s[..n]) + Ellipsis(false);
    LongestIsUnique(s, 2, n, 2);
  }

  lemma TwoFit(s: seq<Byte>)
    requires |s| == 8 && |Full(s[..2])| == 2 && |Full(s[..3])| == 3
    ensures Longest(s, 2, 2)
  {
    hide Full;
  }

  // ----- the buffer

  /** cescape_char; the length of the sequence put into buf */
  method CescapeChar(c: Byte, buf: array<Byte>) returns (w: nat)
    requires buf.Length >= 4
    modifies buf
    ensures w == |Escape(c)| && buf[..w] == Escape(c)
  {
    hide OctChar;
    var e := ShortEscape(c);
    if e != 0 {
      buf[0], buf[1] := BACKSLASH, e;
      w := 2;
    } else if c < 32 || c >= 127 {
      buf[0], buf[1], buf[2], buf[3] := BACKSLASH, OctChar(c >> 6), OctChar(c >> 3), OctChar(c);
      w := 4;
    } else {
      buf[0] := c;
      w := 1;
    }
  }

  /** The widths of the last four of the first n characters, in a ring; 0 where there is none. */
  ghost predicate Ring(widths: seq<nat>, s: seq<Byte>, n: nat)
    requires |widths| == 4 && n <= |s|
  {
    forall d {:trigger Slot(n, d)} :: 1 <= d <= 4 ==> widths[Slot(n, d)] == if d <= n then |Escape(s[n - d])| else 0
  }

  function Slot(n: nat, d: nat): nat {
    (n - d) % 4
  }

  /** The slot for the n-th character. */
  function Turn(n: nat): (k: nat)
    ensures k < 4
  {
    n % 4
  }

  lemma NextTurn(n: nat)
    ensures Turn(n + 1) == (Turn(n) + 1) % 4
  {
  }

  lemma RingStep(widths: seq<nat>, s: seq<Byte>, n: nat)
    requires |widths| == 4 && n < |s| && Ring(widths, s, n)
    ensures Ring(widths[Turn(n) := |Escape(s[n])|], s, n + 1)
  {
    hide Escape;
    var w := widths[Turn(n) := |Escape(s[n])|];
    forall d {:trigger Slot(n + 1, d)} | 1 <= d <= 4 ensures w[Slot(n + 1, d)] == if d <= n + 1 then |Escape(s[n + 1 - d])| else 0 {
      if d > 1 {
        assert Slot(n + 1, d) == Slot(n, d - 1) != Turn(n);
      }
    }
  }

  /** The second loop of cellescape: steps back over the last characters until there is room for the ellipsis. */
  method BackOff(widths: array<nat>, len: nat, ghost s: seq<Byte>, ghost n: nat, i0: nat, k0: nat) returns (i: nat, ghost m: nat)
    requires widths.Length == 4 && n < |s| && Ring(widths[..], s, n) && k0 == Turn(n)
    requires i0 == |Full(s[..n])| < len <= |Full(s[..n + 1])|
    ensures if len >= 4 then exists k: nat :: Longest(s, len - 4, k) && i == |Full(s[..k])| else i == 0
    ensures m <= n && i == |Full(s[..m])| && (len >= 4 ==> Longest(s, len - 4, m))
  {
    hide Full, Escape, Ring, Turn;
    var k := k0;
    i, m := i0, n;
    EmptyPrefix(s);
    var j := 0;
    while j < 4
      invariant m == n - j >= 0 && k == Turn(m) && i == |Full(s[..m])| && i + j < len
      invariant j > 0 ==> |Full(s[..m + 1])| + 4 > len
    {
      if i + 4 <= len {
        break;
      }
      k := if k == 0 then 3 else k - 1;
      RingEntry(widths[..], s, n, m);
      if widths[k] == 0 {
        break;
      }
      FullStep(s, m - 1);
      i := i - widths[k];
      m := m - 1;
      j := j + 1;
    }
  }

  /** The slot before that of the m-th character holds the width of the character before it, if there is one. */
  lemma RingEntry(widths: seq<nat>, s: seq<Byte>, n: nat, m: nat)
    requires |widths| == 4 && n <= |s| && Ring(widths, s, n) && m <= n <= m + 3
    ensures var k := if Turn(m) == 0 then 3 else Turn(m) - 1;
            && widths[k] == (if m > 0 then |Escape(s[m - 1])| else 0)
            && (m > 0 ==> k == Turn(m - 1))
  {
    hide Escape;
    assert Slot(n, n - m + 1) == if Turn(m) == 0 then 3 else Turn(m) - 1;
  }

  lemma EndsInCell(s: seq<Byte>, len: nat, utf8: bool, m: nat, text: seq<Byte>)
    requires |Full(s)| >= len > 0 && m <= |s| && |Full(s[..m])| < len
    requires if len >= 4 then Longest(s, len - 4, m) else |Full(s[..m])| == 0
    requires text == Full(s[..m]) + if |Full(s[..m])| + 4 <= len then Ellipsis(utf8) else [46, 46][..len - |Full(s[..m])| - 1]
    ensures Cell(s, len, utf8, text) && |text| < len
  {
    hide Full;
  }

  lemma DoesNotFit(s: seq<Byte>, n: nat, len: nat)
    requires n < |s| && |Full(s[..n + 1])| >= len
    ensures |Full(s)| >= len
  {
    FullMonotone(s, n + 1, |s|);
    assert s[..|s|] == s;
  }

  lemma EmptyPrefix(s: seq<Byte>)
    ensures Full(s[..0]) == []
  {
  }

  method CellEscape(buf: array<Byte>, len: nat, s: CString, utf8: bool) returns (ghost text: seq<Byte>)
    requires 0 < len <= buf.Length
    modifies buf
    ensures Cell(s, len, utf8, text) && |text| < len
    ensures buf[..|text| + 1] == text + [0] && buf[len..] == old(buf[len..])
  {
    hide Escape, Full, Ring, Longest, Ellipsis, Turn, Cell;
    var widths := new nat[4];
    widths[0], widths[1], widths[2], widths[3] := 0, 0, 0, 0;
    var four := new Byte[4];
    var i, n, k: nat := 0, 0, 0;
    EmptyStart(widths[..], s);
    while n < |s|
      invariant n <= |s| && i == |Full(s[..n])| < len && buf[..i] == Full(s[..n]) && buf[len..] == old(buf[len..])
      invariant k == Turn(n) && Ring(widths[..], s, n)
    {
      var w := CescapeChar(s[n], four);
      FullStep(s, n);
      if i + w + 1 > len {
        text := Ellipsize(buf, len, s, utf8, widths, n, i, k);
        return;
      }
      CopyTo(buf, i, four[..w]);
      RingStep(widths[..], s, n);
      NextTurn(n);
      i := i + w;
      widths[k] := w;
      k := (k + 1) % 4;
      n := n + 1;
    }
    assert s[..n] == s;
    text := Full(s);
    buf[i] := 0;
    FitsInCell(s, len, utf8);
  }

  lemma FitsInCell(s: seq<Byte>, len: nat, utf8: bool)
    requires |Full(s)| < len
    ensures Cell(s, len, utf8, Full(s))
  {
  }

  /** The part of cellescape behind the loop, where the n-th character did not fit any more. */
  method Ellipsize(buf: array<Byte>, len: nat, ghost s: seq<Byte>, utf8: bool, widths: array<nat>, ghost n: nat, i0: nat, k: nat)
    returns (ghost text: seq<Byte>)
    requires 0 < len <= buf.Length && widths.Length == 4 && n < |s| && Ring(widths[..], s, n) && k == Turn(n)
    requires i0 == |Full(s[..n])| < len <= |Full(s[..n + 1])| && buf[..i0] == Full(s[..n])
    modifies buf
    ensures Cell(s, len, utf8, text) && |text| < len
    ensures buf[..|text| + 1] == text + [0] && buf[len..] == old(buf[len..])
  {
    hide Full, Ring, Longest, Ellipsis, Cell;
    var i;
    ghost var m;
    i, m := BackOff(widths, len, s, n, i0, k);
    DoesNotFit(s, n, len);
    FullPrefix(s, m, n);
    assert buf[..i] == Full(s[..m]);
    text := WriteEnd(buf, len, i, utf8);
    EndsInCell(s, len, utf8, m, text);
  }

  /** The end of cellescape, when the string did not fit: as much of an ellipsis as there is room for, and the NUL. */
  method WriteEnd(buf: array<Byte>, len: nat, i: nat, utf8: bool) returns (ghost text: seq<Byte>)
    requires i < len <= buf.Length
    modifies buf
    ensures text == old(buf[..i]) + if i + 4 <= len then Ellipsis(utf8) else [46, 46][..len - i - 1]
    ensures buf[..|text| + 1] == text + [0] && buf[len..] == old(buf[len..])
  {
    ghost var start := buf[..i];
    var at := i;
    if at + 4 <= len {
      CopyTo(buf, at, Ellipsis(utf8));
      at := at + 3;
      text := start + Ellipsis(utf8);
    } else {
      text := start + [46, 46][..len - i - 1];
      if at + 3 <= len {
        buf[at] := 46;
        at := at + 1;
        buf[at] := 46;
        at := at + 1;
      } else if at + 2 <= len {
        buf[at] := 46;
        at := at + 1;
      }
    }
    buf[at] := 0;
  }

  lemma {:induction false} FullPrefix(s: seq<Byte>, m: nat, n: nat)
    requires m <= n <= |s|
    ensures |Full(s[..m])| <= |Full(s[..n])| && Full(s[..n])[..|Full(s[..m])|] == Full(s[..m])
  {
    hide Escape;
    if m < n {
      FullStep(s, n - 1);
      FullPrefix(s, m, n - 1);
    }
  }

  lemma EmptyStart(widths: seq<nat>, s: seq<Byte>)
    requires widths == [0, 0, 0, 0]
    ensures Ring(widths, s, 0) && Full(s[..0]) == [] && Turn(0) == 0
  {
  }
}
