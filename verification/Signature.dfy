/**
 Type signatures: the types they name, and their recognition.
 */
module Signature {
  import opened Common

  // ----- types and their signatures

  datatype Type =
    | Basic(code: char)
    | Variant
    | Array(elem: Type)
    | Struct(members: seq<Type>)
    | DictEntry(key: Type, value: Type)

  /** A type and the number of characters it takes. */
  datatype Parsed = Parsed(ty: Type, length: nat)

  datatype Members = Members(types: seq<Type>, length: nat)

  /** The complete types at the start of a signature, and whether they are all of it. */
  datatype Elements = Elements(types: seq<Type>, complete: bool)

  /** BYTE, BOOLEAN */
  predicate IsByte(c: char) {
    c == 'y' || c == 'b'
  }

  /** INT16, UINT16 */
  predicate IsShort(c: char) {
    c == 'n' || c == 'q'
  }

  /** INT32, UINT32, UNIX_FD */
  predicate IsWord(c: char) {
    c == 'i' || c == 'u' || c == 'h'
  }

  /** INT64, UINT64, DOUBLE */
  predicate IsLong(c: char) {
    c == 'x' || c == 't' || c == 'd'
  }

  /** STRING, OBJECT_PATH, SIGNATURE */
  predicate IsText(c: char) {
    c == 's' || c == 'o' || c == 'g'
  }

  /** bus_type_is_basic */
  predicate IsBasic(c: char) {
    IsByte(c) || IsShort(c) || IsWord(c) || IsLong(c) || IsText(c)
  }

  /** signature_element_length_internal; besides the length it tells the type that was recognized. */
  function Element(s: string, allowDictEntry: bool, arrayDepth: nat, structDepth: nat): (r: Option<Parsed>)
    ensures r.Some? ==> 0 < r.value.length <= |s|
    decreases |s|, 0
  {
    if s == "" then None
    else if IsBasic(s[0]) then Some(Parsed(Basic(s[0]), 1))
    else if s[0] == 'v' then Some(Parsed(Variant, 1))
    else if s[0] == 'a' then
      if arrayDepth >= 32 then None else
        match Element(s[1..], true, arrayDepth + 1, structDepth)
        case None => None
        case Some(e) => Some(Parsed(Array(e.ty), e.length + 1))
    else if s[0] == '(' then
      if structDepth >= 32 then None else
        match MembersUntil(s[1..], ')', arrayDepth, structDepth + 1)
        case None => None
        case Some(m) => if m.length < 1 then None else Some(Parsed(Struct(m.types), m.length + 2))
    else if s[0] == '{' && allowDictEntry then
      if structDepth >= 32 then None else
        match MembersUntil(s[1..], '}', arrayDepth, structDepth + 1)
        case None => None
        case Some(m) =>
          if |m.types| == 2 && m.types[0].Basic? then Some(Parsed(DictEntry(m.types[0], m.types[1]), m.length + 2)) else None
    else None
  }

  /** The loops of signature_element_length_internal, up to the closing character. */
  function MembersUntil(s: string, close: char, arrayDepth: nat, structDepth: nat): (r: Option<Members>)
    ensures r.Some? ==> r.value.length < |s| && s[r.value.length] == close
    decreases |s|, 1
  {
    if s != "" && s[0] == close then Some(Members([], 0)) else
      match Element(s, false, arrayDepth, structDepth)
      case None => None
      case Some(e) =>
        match MembersUntil(s[e.length..], close, arrayDepth, structDepth)
        case None => None
        case Some(m) => Some(Members([e.ty] + m.types, e.length + m.length))
  }

  function Parse(s: string): Elements
    decreases |s|
  {
    if s == "" then Elements([], true) else
      match Element(s, true, 0, 0)
      case None => Elements([], false)
      case Some(e) => var rest := Parse(s[e.length..]); Elements([e.ty] + rest.types, rest.complete)
  }

  // ----- a recognized type is recognized anywhere

  lemma SameStart(s: string, u: string, n: nat, k: nat)
    requires k <= n <= |s| && n <= |u| && u[..n] == s[..n]
    ensures u[..k] == s[..k] && u[k..][..n - k] == s[k..][..n - k]
    ensures n > 0 ==> u[0] == s[0]
  {
    assert u[..k] == u[..n][..k] && s[..k] == s[..n][..k];
    assert u[k..][..n - k] == u[..n][k..] && s[k..][..n - k] == s[..n][k..];
    assert n > 0 ==> u[..n][0] == u[0] && s[..n][0] == s[0];
  }

  lemma ContainerCodes()
    ensures !IsBasic('v') && !IsBasic('a') && !IsBasic('(') && !IsBasic('{') && !IsBasic(')') && !IsBasic('}')
  {
  }

  /** The characters of a type determine it, and less deeply nested it is accepted as well. */
  lemma {:induction false} ElementAnywhere(s: string, u: string, allow: bool, allow2: bool, ad: nat, ad2: nat, sd: nat, sd2: nat)
    requires Element(s, allow, ad, sd).Some?
    requires var n := Element(s, allow, ad, sd).value.length; n <= |u| && u[..n] == s[..n]
    requires (allow ==> allow2) && ad2 <= ad && sd2 <= sd
    ensures Element(u, allow2, ad2, sd2) == Element(s, allow, ad, sd)
    decreases |s|, 0
  {
    hide MembersUntil, IsBasic;
    var n := Element(s, allow, ad, sd).value.length;
    SameStart(s, u, n, 1);
    if IsBasic(s[0]) || s[0] == 'v' {
    } else if s[0] == 'a' {
      ElementAnywhere(s[1..], u[1..], true, true, ad + 1, ad2 + 1, sd, sd2);
    } else {
      MembersAnywhere(s[1..], u[1..], if s[0] == '(' then ')' else '}', ad, ad2, sd + 1, sd2 + 1);
    }
  }

  lemma {:induction false} MembersAnywhere(s: string, u: string, close: char, ad: nat, ad2: nat, sd: nat, sd2: nat)
    requires MembersUntil(s, close, ad, sd).Some?
    requires var n := MembersUntil(s, close, ad, sd).value.length; n < |u| && u[..n + 1] == s[..n + 1]
    requires ad2 <= ad && sd2 <= sd
    ensures MembersUntil(u, close, ad2, sd2) == MembersUntil(s, close, ad, sd)
    decreases |s|, 1
  {
    hide Element;
    var n := MembersUntil(s, close, ad, sd).value.length;
    SameStart(s, u, n + 1, 0);
    if s[0] != close {
      var k := Element(s, false, ad, sd).value.length;
      SameStart(s, u, n + 1, k);
      ElementAnywhere(s, u, false, false, ad, ad2, sd, sd2);
      MembersAnywhere(s[k..], u[k..], close, ad, ad2, sd, sd2);
    }
  }

  /** The characters before the closing one are a signature of their own. */
  lemma {:induction false} MembersParsed(s: string, close: char, ad: nat, sd: nat)
    requires MembersUntil(s, close, ad, sd).Some?
    ensures var m := MembersUntil(s, close, ad, sd).value; Parse(s[..m.length]) == Elements(m.types, true)
    decreases |s|
  {
    hide Element;
    var m := MembersUntil(s, close, ad, sd).value;
    if s[0] != close {
      var k := Element(s, false, ad, sd).value.length;
      ElementAnywhere(s, s[..m.length], false, true, ad, 0, sd, 0);
      MembersParsed(s[k..], close, ad, sd);
      assert s[..m.length][k..] == s[k..][..m.length - k];
    }
  }

  lemma OneParsed(s: string, ad: nat, sd: nat)
    requires Element(s, true, ad, sd).Some?
    ensures var e := Element(s, true, ad, sd).value; Parse(s[..e.length]) == Elements([e.ty], true)
  {
    hide Element;
    var e := Element(s, true, ad, sd).value;
    ElementAnywhere(s, s[..e.length], true, true, ad, 0, sd, 0);
    assert s[..e.length][e.length..] == "";
  }

  /** What the first character says about a type. */
  lemma FirstCharacter(s: string)
    requires Element(s, true, 0, 0).Some?
    ensures var t := Element(s, true, 0, 0).value.ty;
            && (s[0] == 'a' <==> t.Array?) && (s[0] == '(' <==> t.Struct?) && (s[0] == '{' <==> t.DictEntry?)
            && (s[0] == 'v' <==> t.Variant?) && (t.Basic? ==> IsBasic(s[0]) && t.code == s[0])
  {
    hide IsBasic, MembersUntil;
    ContainerCodes();
  }

  /** What is inside a container at the start of a signature. */
  lemma ContainerParsed(s: string)
    requires Element(s, true, 0, 0).Some?
    ensures var e := Element(s, true, 0, 0).value;
            var n := e.length;
            && (e.ty.Array? ==> n >= 2 && Parse(s[1..n]) == Elements([e.ty.elem], true))
            && (e.ty.Struct? ==> n >= 3 && Parse(s[1..n - 1]) == Elements(e.ty.members, true))
            && (e.ty.DictEntry? ==> n >= 3 && Parse(s[1..n - 1]) == Elements([e.ty.key, e.ty.value], true))
  {
    hide IsBasic, MembersUntil, Parse;
    FirstCharacter(s);
    var e := Element(s, true, 0, 0).value;
    if s[0] == 'a' {
      OneParsed(s[1..], 1, 0);
      assert s[1..][..e.length - 1] == s[1..e.length];
    } else if s[0] == '(' || s[0] == '{' {
      var close := if s[0] == '(' then ')' else '}';
      MembersParsed(s[1..], close, 0, 1);
      NoMembers(s[1..], close, 0, 1);
      assert s[1..][..e.length - 2] == s[1..e.length - 1];
    }
  }

  lemma NoMembers(s: string, close: char, ad: nat, sd: nat)
    requires MembersUntil(s, close, ad, sd).Some?
    ensures var m := MembersUntil(s, close, ad, sd).value; m.length == 0 <==> m.types == []
  {
    hide Element;
  }

  // ----- the texts of types

  /** The signature of a type. */
  function Text(t: Type): (s: string)
    ensures s != ""
    decreases t
  {
    match t
    case Basic(c) => [c]
    case Variant => "v"
    case Array(e) => "a" + Text(e)
    case Struct(ms) => "(" + Texts(ms) + ")"
    case DictEntry(k, v) => "{" + (Text(k) + Text(v)) + "}"
  }

  function Texts(ts: seq<Type>): string
    decreases ts
  {
    if ts == [] then "" else Text(ts[0]) + Texts(ts[1..])
  }

  /**
   The types that a signature may name: at most 32 arrays and at most 32 structures and dictionary entries around any
   type, no empty structure, dictionary entries only as elements of arrays (or where allowed) and with a basic key.
   */
  predicate WellFormed(t: Type, allowDictEntry: bool, arrayDepth: nat, structDepth: nat)
    decreases t
  {
    match t
    case Basic(c) => IsBasic(c)
    case Variant => true
    case Array(e) => arrayDepth < 32 && WellFormed(e, true, arrayDepth + 1, structDepth)
    case Struct(ms) => structDepth < 32 && ms != [] && AllWellFormed(ms, false, arrayDepth, structDepth + 1)
    case DictEntry(k, v) =>
      && allowDictEntry && structDepth < 32 && k.Basic? && IsBasic(k.code)
      && WellFormed(v, false, arrayDepth, structDepth + 1)
  }

  predicate AllWellFormed(ts: seq<Type>, allowDictEntry: bool, arrayDepth: nat, structDepth: nat)
    decreases ts
  {
    ts == [] || (WellFormed(ts[0], allowDictEntry, arrayDepth, structDepth) && AllWellFormed(ts[1..], allowDictEntry, arrayDepth, structDepth))
  }

  /** No type starts with a closing character. */
  lemma NotClosing(t: Type, allow: bool, ad: nat, sd: nat)
    requires WellFormed(t, allow, ad, sd)
    ensures Text(t)[0] != ')' && Text(t)[0] != '}'
  {
    hide IsBasic;
    ContainerCodes();
  }

  lemma Regrouped(a: string, b: string, c: string)
    ensures a + b + c == a + (b + c)
    ensures (a + b)[|a|..] == b && (a + b)[..|a|] == a
  {
  }

  lemma OneText(t: Type)
    ensures Texts([t]) == Text(t)
  {
    hide Text;
    assert [t][1..] == [];
  }

  lemma PairText(k: Type, v: Type)
    ensures Texts([k, v]) == Text(k) + Text(v)
  {
    hide Text;
    assert [k, v][1..] == [v];
    OneText(v);
  }

  lemma PairWellFormed(k: Type, v: Type, ad: nat, sd: nat)
    ensures AllWellFormed([k, v], false, ad, sd) <==> WellFormed(k, false, ad, sd) && WellFormed(v, false, ad, sd)
  {
    hide WellFormed;
    assert [k, v][1..] == [v];
    assert AllWellFormed([v], false, ad, sd) <==> WellFormed(v, false, ad, sd);
  }

  lemma TextsNotEmpty(ts: seq<Type>)
    requires ts != []
    ensures |Texts(ts)| >= 1
  {
  }

  /** A member goes in front of those that follow. */
  lemma NextMember(t: Type, tail: string, close: char, ad: nat, sd: nat, m: Members)
    requires WellFormed(t, false, ad, sd) && (close == ')' || close == '}')
    requires Element(Text(t) + tail, false, ad, sd) == Some(Parsed(t, |Text(t)|))
    requires MembersUntil(tail, close, ad, sd) == Some(m)
    ensures MembersUntil(Text(t) + tail, close, ad, sd) == Some(Members([t] + m.types, |Text(t)| + m.length))
  {
    hide Element, WellFormed, Text;
    NotClosing(t, false, ad, sd);
    Regrouped(Text(t), tail, "");
  }

  lemma NoMoreMembers(close: char, rest: string, ad: nat, sd: nat)
    ensures MembersUntil([close] + rest, close, ad, sd) == Some(Members([], 0))
  {
  }

  lemma SimpleRecognized(t: Type, rest: string, allow: bool, ad: nat, sd: nat)
    requires WellFormed(t, allow, ad, sd) && (t.Basic? || t.Variant?)
    ensures Element(Text(t) + rest, allow, ad, sd) == Some(Parsed(t, |Text(t)|))
  {
    hide IsBasic, MembersUntil;
    ContainerCodes();
  }

  lemma ArrayRecognized(e: Type, rest: string, allow: bool, ad: nat, sd: nat)
    requires ad < 32 && Element(Text(e) + rest, true, ad + 1, sd) == Some(Parsed(e, |Text(e)|))
    ensures Element("a" + Text(e) + rest, allow, ad, sd) == Some(Parsed(Array(e), |Text(e)| + 1))
  {
    hide IsBasic, MembersUntil, Text;
    ContainerCodes();
    var s := "a" + Text(e) + rest;
    assert s[1..] == Text(e) + rest;
  }

  lemma StructRecognized(ms: seq<Type>, inside: string, rest: string, allow: bool, ad: nat, sd: nat)
    requires sd < 32 && inside != "" && MembersUntil(inside + (")" + rest), ')', ad, sd + 1) == Some(Members(ms, |inside|))
    ensures Element("(" + inside + ")" + rest, allow, ad, sd) == Some(Parsed(Struct(ms), |inside| + 2))
  {
    hide IsBasic, MembersUntil;
    ContainerCodes();
    var s := "(" + inside + ")" + rest;
    assert s[1..] == inside + (")" + rest);
  }

  lemma DictEntryRecognized(k: Type, v: Type, inside: string, rest: string, ad: nat, sd: nat)
    requires sd < 32 && k.Basic? && MembersUntil(inside + ("}" + rest), '}', ad, sd + 1) == Some(Members([k, v], |inside|))
    ensures Element("{" + inside + "}" + rest, true, ad, sd) == Some(Parsed(DictEntry(k, v), |inside| + 2))
  {
    hide IsBasic, MembersUntil;
    ContainerCodes();
    var s := "{" + inside + "}" + rest;
    assert s[1..] == inside + ("}" + rest);
  }

  /** The signature of a well-formed type is recognized, whatever follows. */
  lemma {:induction false} TextIsElement(t: Type, rest: string, allow: bool, ad: nat, sd: nat)
    requires WellFormed(t, allow, ad, sd)
    ensures Element(Text(t) + rest, allow, ad, sd) == Some(Parsed(t, |Text(t)|))
    decreases t
  {
    hide IsBasic, MembersUntil, Element;
    match t
    case Basic(_) =>
      SimpleRecognized(t, rest, allow, ad, sd);
    case Variant =>
      SimpleRecognized(t, rest, allow, ad, sd);
    case Array(e) =>
      TextIsElement(e, rest, true, ad + 1, sd);
      ArrayRecognized(e, rest, allow, ad, sd);
    case Struct(ms) =>
      hide Texts;
      TextsNotEmpty(ms);
      TextsAreMembers(ms, ')', rest, ad, sd + 1);
      StructRecognized(ms, Texts(ms), rest, allow, ad, sd);
    case DictEntry(k, v) =>
      var tail := "}" + rest;
      TextIsElement(k, Text(v) + tail, false, ad, sd + 1);
      TextIsElement(v, tail, false, ad, sd + 1);
      NoMoreMembers('}', rest, ad, sd + 1);
      NextMember(v, tail, '}', ad, sd + 1, Members([], 0));
      assert [v] + [] == [v] && [k] + [v] == [k, v];
      NextMember(k, Text(v) + tail, '}', ad, sd + 1, Members([v], |Text(v)|));
      Regrouped(Text(k), Text(v), tail);
      DictEntryRecognized(k, v, Text(k) + Text(v), rest, ad, sd);
  }

  lemma {:induction false} TextsAreMembers(ts: seq<Type>, close: char, rest: string, ad: nat, sd: nat)
    requires AllWellFormed(ts, false, ad, sd) && (close == ')' || close == '}')
    ensures MembersUntil(Texts(ts) + ([close] + rest), close, ad, sd) == Some(Members(ts, |Texts(ts)|))
    decreases ts
  {
    hide IsBasic, Element, WellFormed, Text, MembersUntil;
    var tail := [close] + rest;
    if ts == [] {
      NoMoreMembers(close, rest, ad, sd);
      assert "" + tail == tail;
    } else {
      var more := Texts(ts[1..]) + tail;
      TextIsElement(ts[0], more, false, ad, sd);
      TextsAreMembers(ts[1..], close, rest, ad, sd);
      NextMember(ts[0], more, close, ad, sd, Members(ts[1..], |Texts(ts[1..])|));
      Regrouped(Text(ts[0]), Texts(ts[1..]), tail);
      assert ts == [ts[0]] + ts[1..];
    }
  }

  lemma StructIsText(s: string, allow: bool, ad: nat, sd: nat)
    requires Element(s, allow, ad, sd).Some? && s[0] == '('
    requires var m := MembersUntil(s[1..], ')', ad, sd + 1);
             m.Some? ==> AllWellFormed(m.value.types, false, ad, sd + 1) && s[1..][..m.value.length] == Texts(m.value.types)
    ensures var e := Element(s, allow, ad, sd).value; WellFormed(e.ty, allow, ad, sd) && s[..e.length] == Text(e.ty)
  {
    hide IsBasic, MembersUntil, AllWellFormed, Texts;
    ContainerCodes();
    NoMembers(s[1..], ')', ad, sd + 1);
    var e := Element(s, allow, ad, sd).value;
    assert s[..e.length] == "(" + s[1..][..e.length - 2] + ")";
  }

  lemma DictEntryIsText(s: string, allow: bool, ad: nat, sd: nat)
    requires Element(s, allow, ad, sd).Some? && s[0] == '{'
    requires var m := MembersUntil(s[1..], '}', ad, sd + 1);
             m.Some? ==> AllWellFormed(m.value.types, false, ad, sd + 1) && s[1..][..m.value.length] == Texts(m.value.types)
    ensures var e := Element(s, allow, ad, sd).value; WellFormed(e.ty, allow, ad, sd) && s[..e.length] == Text(e.ty)
  {
    hide IsBasic, MembersUntil, AllWellFormed, Texts;
    ContainerCodes();
    var e := Element(s, allow, ad, sd).value;
    var k, v := e.ty.key, e.ty.value;
    assert MembersUntil(s[1..], '}', ad, sd + 1).value.types == [k, v];
    PairText(k, v);
    PairWellFormed(k, v, ad, sd + 1);
    assert s[..e.length] == "{" + s[1..][..e.length - 2] + "}";
  }

  /** What is recognized is the signature of a well-formed type. */
  lemma {:induction false} ElementIsText(s: string, allow: bool, ad: nat, sd: nat)
    requires Element(s, allow, ad, sd).Some?
    ensures var e := Element(s, allow, ad, sd).value; WellFormed(e.ty, allow, ad, sd) && s[..e.length] == Text(e.ty)
    decreases |s|, 0
  {
    hide IsBasic, MembersUntil, AllWellFormed, Texts;
    ContainerCodes();
    var e := Element(s, allow, ad, sd).value;
    if s[0] == '(' {
      MembersAreTexts(s[1..], ')', ad, sd + 1);
      StructIsText(s, allow, ad, sd);
    } else if s[0] == '{' {
      MembersAreTexts(s[1..], '}', ad, sd + 1);
      DictEntryIsText(s, allow, ad, sd);
    } else if s[0] == 'a' {
      ElementIsText(s[1..], true, ad + 1, sd);
      assert s[..e.length] == "a" + s[1..][..e.length - 1];
    }
  }

  lemma {:induction false} MembersAreTexts(s: string, close: char, ad: nat, sd: nat)
    requires MembersUntil(s, close, ad, sd).Some?
    ensures var m := MembersUntil(s, close, ad, sd).value; AllWellFormed(m.types, false, ad, sd) && s[..m.length] == Texts(m.types)
    decreases |s|, 1
  {
    hide Element, WellFormed, Text;
    var m := MembersUntil(s, close, ad, sd).value;
    if s[0] != close {
      var k := Element(s, false, ad, sd).value.length;
      ElementIsText(s, false, ad, sd);
      MembersAreTexts(s[k..], close, ad, sd);
      assert s[..m.length] == s[..k] + s[k..][..m.length - k];
      assert m.types[1..] == MembersUntil(s[k..], close, ad, sd).value.types;
    }
  }

  /** The signatures that are parsed completely are those of sequences of well-formed types. */
  lemma {:induction false} CompleteIsTexts(s: string)
    requires Parse(s).complete
    ensures AllWellFormed(Parse(s).types, true, 0, 0) && s == Texts(Parse(s).types)
    decreases |s|
  {
    hide Element, WellFormed, Text;
    if s != "" {
      var k := Element(s, true, 0, 0).value.length;
      ElementIsText(s, true, 0, 0);
      CompleteIsTexts(s[k..]);
      assert s == s[..k] + s[k..];
      assert Parse(s).types[1..] == Parse(s[k..]).types;
    }
  }

  lemma {:induction false} TextsAreComplete(ts: seq<Type>)
    requires AllWellFormed(ts, true, 0, 0)
    ensures Parse(Texts(ts)) == Elements(ts, true)
    decreases ts
  {
    hide Element, WellFormed, Text;
    if ts != [] {
      TextIsElement(ts[0], Texts(ts[1..]), true, 0, 0);
      Regrouped(Text(ts[0]), Texts(ts[1..]), "");
      TextsAreComplete(ts[1..]);
    }
  }
}
