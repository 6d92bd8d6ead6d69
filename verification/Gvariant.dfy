/**
 The layout of GVariant values, computed straight from the text of a type
 signature, against the layout of the types the text stands for.
 */
module Gvariant {
  import opened Common
  import opened Signature

  // ----- alignment, size and layout of types

  function BasicAlignment(c: char): (a: nat)
    ensures a in {1, 2, 4, 8}
  {
    if IsShort(c) then 2 else if IsWord(c) then 4 else if IsLong(c) then 8 else 1
  }

  predicate BasicIsFixed(c: char) {
    !IsText(c)
  }

  function Max(a: nat, b: nat): nat {
    if a > b then a else b
  }

  /** The alignment of a type: for a container the greatest of its members'. */
  function Alignment(t: Type): (a: nat)
    ensures a in {1, 2, 4, 8}
    decreases t
  {
    match t
    case Basic(c) => BasicAlignment(c)
    case Variant => 8
    case Array(e) => Alignment(e)
    case Struct(ms) => Alignments(ms)
    case DictEntry(k, v) => Max(Alignment(k), Alignment(v))
  }

  function Alignments(ts: seq<Type>): (a: nat)
    ensures a in {1, 2, 4, 8}
    decreases ts
  {
    if ts == [] then 1 else Max(Alignment(ts[0]), Alignments(ts[1..]))
  }

  /** Types whose values all have one size. */
  predicate Fixed(t: Type)
    decreases t
  {
    match t
    case Basic(c) => BasicIsFixed(c)
    case Variant => false
    case Array(_) => false
    case Struct(ms) => AllFixed(ms)
    case DictEntry(k, v) => Fixed(k) && Fixed(v)
  }

  predicate AllFixed(ts: seq<Type>)
    decreases ts
  {
    forall t :: t in ts ==> Fixed(t)
  }

  /** n is a multiple of ali. */
  predicate Aligned(n: nat, ali: nat)
    requires ali in {1, 2, 4, 8}
  {
    if ali == 8 then n % 8 == 0 else if ali == 4 then n % 4 == 0 else ali == 2 ==> n % 2 == 0
  }

  function Masked8(n: nat): (r: nat)
    ensures r % 8 == 0 && r <= n < r + 8
  {
    n - n % 8
  }

  function Masked4(n: nat): (r: nat)
    ensures r % 4 == 0 && r <= n < r + 4
  {
    n - n % 4
  }

  function Masked2(n: nat): (r: nat)
    ensures r % 2 == 0 && r <= n < r + 2
  {
    n - n % 2
  }

  /** n & ~(ali - 1) */
  function Masked(n: nat, ali: nat): (r: nat)
    requires ali in {1, 2, 4, 8}
    ensures Aligned(r, ali) && r <= n < r + ali
  {
    if ali == 8 then Masked8(n) else if ali == 4 then Masked4(n) else if ali == 2 then Masked2(n) else n
  }

  /** ALIGN_TO */
  function AlignTo(l: nat, ali: nat): (r: nat)
    requires ali in {1, 2, 4, 8}
    ensures Aligned(r, ali) && l <= r < l + ali
  {
    Masked(l + ali - 1, ali)
  }

  function Size(t: Type): nat
    requires Fixed(t)
    decreases t, 0
  {
    match t
    case Basic(c) => BasicAlignment(c)
    case Struct(ms) => Sizes(ms)
    case DictEntry(k, v) => AlignTo(AlignTo(Size(k), Alignment(v)) + Size(v), Alignment(t))
  }

  /** Where the last of the types ends, when each in turn starts as early as its alignment lets it. */
  function End(ts: seq<Type>): nat
    requires AllFixed(ts)
    decreases ts, 1
  {
    if ts == [] then 0 else
      var last := ts[|ts| - 1];
      AlignTo(End(ts[..|ts| - 1]), Alignment(last)) + Size(last)
  }

  function Sizes(ts: seq<Type>): nat
    requires AllFixed(ts)
    decreases ts, 2
  {
    AlignTo(End(ts), Alignments(ts))
  }

  /** The i-th type is at a multiple of its alignment, and ends before the next one or before the end. */
  ghost predicate Placed(ts: seq<Type>, offsets: seq<nat>, size: nat, i: nat)
    requires AllFixed(ts) && i < |ts| == |offsets|
  {
    && Aligned(offsets[i], Alignment(ts[i]))
    && offsets[i] + Size(ts[i]) <= if i + 1 < |ts| then offsets[i + 1] else size
  }

  /** Each type at an aligned place of its own, in the given order, and all within size. */
  ghost predicate Layout(ts: seq<Type>, offsets: seq<nat>, size: nat)
    requires AllFixed(ts)
  {
    |offsets| == |ts| && forall i {:trigger Placed(ts, offsets, size, i)} :: 0 <= i < |ts| ==> Placed(ts, offsets, size, i)
  }

  lemma {:induction false} AlignmentsIsGreatest(ts: seq<Type>)
    ensures forall t :: t in ts ==> Alignment(t) <= Alignments(ts)
    ensures Alignments(ts) == 1 || exists t :: t in ts && Alignment(t) == Alignments(ts)
  {
    hide Alignment;
    if ts != [] {
      AlignmentsIsGreatest(ts[1..]);
      assert forall t :: t in ts <==> t == ts[0] || t in ts[1..];
      if Alignments(ts) != 1 {
        assert ts[0] in ts;
        if Alignments(ts) != Alignment(ts[0]) {
          var t :| t in ts[1..] && Alignment(t) == Alignments(ts[1..]);
          assert t in ts && Alignment(t) == Alignments(ts);
        }
      }
    }
  }

  lemma Multiples8(m: nat, r: nat)
    requires m % 8 == 0 && r % 8 == 0 && r < m + 8
    ensures r <= m
  {
  }

  lemma Multiples4(m: nat, r: nat)
    requires m % 4 == 0 && r % 4 == 0 && r < m + 4
    ensures r <= m
  {
  }

  /** ALIGN_TO rounds up to the next multiple, and no further. */
  lemma AlignToLeast(l: nat, ali: nat, m: nat)
    requires ali in {1, 2, 4, 8} && Aligned(m, ali) && m >= l
    ensures AlignTo(l, ali) <= m
  {
    hide AlignTo;
    var r := AlignTo(l, ali);
    if ali == 8 {
      Multiples8(m, r);
    } else if ali == 4 {
      Multiples4(m, r);
    }
  }

  /** The earliest places. */
  function Offsets(ts: seq<Type>): (o: seq<nat>)
    requires AllFixed(ts)
    ensures |o| == |ts|
  {
    if ts == [] then [] else
      var init := ts[..|ts| - 1];
      Offsets(init) + [AlignTo(End(init), Alignment(ts[|ts| - 1]))]
  }

  lemma {:induction false} EarliestLayout(ts: seq<Type>, size: nat)
    requires AllFixed(ts) && End(ts) <= size
    ensures Layout(ts, Offsets(ts), size)
  {
    hide AlignTo, Aligned, Alignment, Size;
    if ts != [] {
      var k := |ts| - 1;
      var o := Offsets(ts);
      EarliestLayout(ts[..k], o[k]);
      assert o[..k] == Offsets(ts[..k]);
      forall i {:trigger Placed(ts, o, size, i)} | 0 <= i < |ts| ensures Placed(ts, o, size, i) {
        if i < k {
          assert ts[..k][i] == ts[i] && o[..k][i] == o[i];
          assert Placed(ts[..k], o[..k], o[k], i);
        }
      }
    }
  }

  lemma {:induction false} NoEarlierLayout(ts: seq<Type>, offsets: seq<nat>, size: nat)
    requires AllFixed(ts) && Layout(ts, offsets, size)
    ensures End(ts) <= size
  {
    hide AlignTo, Aligned, Alignment, Size;
    if ts != [] {
      var k := |ts| - 1;
      assert Placed(ts, offsets, size, k);
      forall i {:trigger Placed(ts[..k], offsets[..k], offsets[k], i)} | 0 <= i < k
        ensures Placed(ts[..k], offsets[..k], offsets[k], i)
      {
        assert Placed(ts, offsets, size, i);
      }
      NoEarlierLayout(ts[..k], offsets[..k], offsets[k]);
      AlignToLeast(End(ts[..k]), Alignment(ts[k]), offsets[k]);
    }
  }

  /** The size of a fixed size container is the least multiple of its alignment that some layout of its members fits in. */
  lemma SizesIsLeast(ts: seq<Type>)
    requires AllFixed(ts)
    ensures Layout(ts, Offsets(ts), Sizes(ts)) && Aligned(Sizes(ts), Alignments(ts))
    ensures forall offsets: seq<nat>, size: nat :: Layout(ts, offsets, size) && Aligned(size, Alignments(ts)) ==> Sizes(ts) <= size
  {
    EarliestLayout(ts, Sizes(ts));
    forall offsets: seq<nat>, size: nat | Layout(ts, offsets, size) && Aligned(size, Alignments(ts)) ensures Sizes(ts) <= size {
      NoEarlierLayout(ts, offsets, size);
      AlignToLeast(End(ts), Alignments(ts), size);
    }
  }

  lemma AlignmentsOfNone()
    ensures Alignments([]) == 1
  {
  }

  lemma AlignmentsOfOne(t: Type)
    ensures Alignments([t]) == Alignment(t)
  {
    hide Alignment;
    assert Alignments([t]) == Max(Alignment(t), Alignments([t][1..]));
  }

  lemma AlignmentsOfTwo(k: Type, v: Type)
    ensures Alignments([k, v]) == Max(Alignment(k), Alignment(v))
  {
    hide Alignment;
    assert [k, v][1..] == [v];
    AlignmentsOfOne(v);
  }

  lemma AllFixedTwo(k: Type, v: Type)
    ensures AllFixed([k, v]) <==> Fixed(k) && Fixed(v)
  {
    hide Fixed;
    assert [k, v][0] in [k, v] && [k, v][1] in [k, v];
  }

  /** A dictionary entry is laid out as a structure of its key and its value. */
  lemma DictEntryAsPair(k: Type, v: Type)
    requires Fixed(DictEntry(k, v))
    ensures AllFixed([k, v]) && Sizes([k, v]) == Size(DictEntry(k, v))
  {
    hide AlignTo, Alignment, Alignments, AllFixed, End, Size;
    AllFixedTwo(k, v);
    AlignmentsOfTwo(k, v);
    EndOfTwo(k, v);
    DictEntryAlignment(k, v);
    DictEntrySize(k, v);
  }

  lemma EndOfTwo(k: Type, v: Type)
    requires AllFixed([k, v]) && Fixed(k) && Fixed(v)
    ensures End([k, v]) == AlignTo(Size(k), Alignment(v)) + Size(v)
  {
    hide AlignTo, Alignment, Size, Fixed;
    assert [k, v][..1] == [k] && [k][..0] == [];
    AlignToLeast(0, Alignment(k), 0);
    assert End([k]) == AlignTo(End([k][..0]), Alignment(k)) + Size(k);
  }

  lemma DictEntryAlignment(k: Type, v: Type)
    ensures Alignment(DictEntry(k, v)) == Max(Alignment(k), Alignment(v))
  {
  }

  lemma DictEntrySize(k: Type, v: Type)
    requires Fixed(DictEntry(k, v)) && Fixed(k) && Fixed(v)
    ensures Size(DictEntry(k, v)) == AlignTo(AlignTo(Size(k), Alignment(v)) + Size(v), Alignment(DictEntry(k, v)))
  {
    hide AlignTo, Alignment, Fixed, AllFixed, Sizes, End, Alignments, BasicAlignment, Masked, Aligned;
  }

  // ----- the same, computed from the text

  function AlignmentResult(e: Elements, least: nat): int {
    var a := Max(least, Alignments(e.types));
    if e.complete || a == 8 then a else -EINVAL
  }

  function FixedResult(e: Elements): int {
    if !AllFixed(e.types) then 0 else if e.complete then 1 else -EINVAL
  }

  function SizeResult(e: Elements): int {
    if e.complete && AllFixed(e.types) then Sizes(e.types) else -EINVAL
  }

  /** signature_element_length */
  method SignatureElementLength(s: string) returns (r: int, n: nat)
    ensures match Element(s, true, 0, 0) case None => r == -EINVAL case Some(e) => r == 0 && n == e.length
  {
    hide Element;
    match Element(s, true, 0, 0) {
      case None => r, n := -EINVAL, 0;
      case Some(e) => r, n := 0, e.length;
    }
  }

  /** What the recursive call on the inside of a container gives. */
  lemma NestedAlignment(s: string)
    requires Element(s, true, 0, 0).Some?
    ensures var e := Element(s, true, 0, 0).value;
            var n := e.length;
            && (IsBasic(s[0]) ==> Alignment(e.ty) == BasicAlignment(s[0])) && (s[0] == 'v' ==> Alignment(e.ty) == 8)
            && (s[0] == 'a' ==> n >= 2 && AlignmentResult(Parse(s[1..n]), 1) == Alignment(e.ty))
            && (s[0] == '(' || s[0] == '{' ==> n >= 3 && AlignmentResult(Parse(s[1..n - 1]), 1) == Alignment(e.ty))
  {
    hide Element, Parse;
    FirstCharacter(s);
    ContainerParsed(s);
    var t := Element(s, true, 0, 0).value.ty;
    if t.Array? {
      AlignmentsOfOne(t.elem);
    } else if t.DictEntry? {
      AlignmentsOfTwo(t.key, t.value);
    }
  }

  /** What the alignment of the first type does to the alignment of all. */
  lemma NextAlignment(s: string, least: nat)
    requires Element(s, true, 0, 0).Some? && least in {1, 2, 4, 8}
    ensures var e := Element(s, true, 0, 0).value;
            AlignmentResult(Parse(s), least) == AlignmentResult(Parse(s[e.length..]), Max(least, Alignment(e.ty)))
  {
    hide Element;
  }

  /** bus_gvariant_get_alignment: the greatest alignment, unless a malformed part comes before alignment 8 is reached. */
  method GetAlignment(signature: string) returns (r: int)
    ensures r == AlignmentResult(Parse(signature), 1)
    decreases |signature|
  {
    hide Element, Alignment, Alignments;
    AlignmentsOfNone();
    var alignment: nat := 1;
    var p := signature;
    while p != "" && alignment < 8
      invariant alignment in {1, 2, 4, 8} && |p| <= |signature|
      invariant AlignmentResult(Parse(p), alignment) == AlignmentResult(Parse(signature), 1)
      decreases |p|
    {
      var r, n := SignatureElementLength(p);
      if r < 0 {
        return r;
      }
      FirstCharacter(p);
      NestedAlignment(p);
      NextAlignment(p, alignment);
      ghost var t := Element(p, true, 0, 0).value.ty;
      var a: int;
      if IsByte(p[0]) || IsText(p[0]) {
        a := 1;
      } else if IsShort(p[0]) {
        a := 2;
      } else if IsWord(p[0]) {
        a := 4;
      } else if IsLong(p[0]) || p[0] == 'v' {
        a := 8;
      } else if p[0] == 'a' {
        a := GetAlignment(p[1..n]);
      } else {
        a := GetAlignment(p[1..n - 1]);
      }
      assert a == Alignment(t);
      if a < 0 {
        return a;
      }
      if a > alignment {
        alignment := a;
      }
      p := p[n..];
    }
    r := alignment;
  }

  /** What the recursive call on the inside of a container gives. */
  lemma NestedFixed(s: string)
    requires Element(s, true, 0, 0).Some?
    ensures var e := Element(s, true, 0, 0).value;
            var n := e.length;
            && (IsBasic(s[0]) ==> (Fixed(e.ty) <==> !IsText(s[0]))) && (s[0] == 'v' || s[0] == 'a' ==> !Fixed(e.ty))
            && (s[0] == '(' || s[0] == '{' ==> n >= 3 && FixedResult(Parse(s[1..n - 1])) == if Fixed(e.ty) then 1 else 0)
  {
    hide Element, Parse, AllFixed;
    FirstCharacter(s);
    ContainerParsed(s);
    var t := Element(s, true, 0, 0).value.ty;
    if t.DictEntry? {
      AllFixedTwo(t.key, t.value);
    }
  }

  lemma NextFixed(s: string)
    requires Element(s, true, 0, 0).Some?
    ensures var e := Element(s, true, 0, 0).value;
            FixedResult(Parse(s)) == if Fixed(e.ty) then FixedResult(Parse(s[e.length..])) else 0
  {
    hide Element, Fixed;
    var e := Element(s, true, 0, 0).value;
    AllFixedFirst(e.ty, Parse(s[e.length..]).types);
  }

  lemma AllFixedFirst(t: Type, ts: seq<Type>)
    ensures AllFixed([t] + ts) <==> Fixed(t) && AllFixed(ts)
  {
    hide Fixed;
    assert forall x :: x in [t] + ts <==> x == t || x in ts;
  }

  /** bus_gvariant_is_fixed_size: 0 from the first type of variable size on, or else an error for a malformed signature. */
  method IsFixedSize(signature: string) returns (r: int)
    ensures r == FixedResult(Parse(signature))
    decreases |signature|
  {
    hide Element, Fixed;
    var p := signature;
    while p != ""
      invariant |p| <= |signature| && FixedResult(Parse(p)) == FixedResult(Parse(signature))
      decreases |p|
    {
      var n;
      r, n := SignatureElementLength(p);
      if r < 0 {
        return;
      }
      FirstCharacter(p);
      NestedFixed(p);
      NextFixed(p);
      if IsText(p[0]) || p[0] == 'a' || p[0] == 'v' {
        return 0;
      } else if p[0] == '(' || p[0] == '{' {
        r := IsFixedSize(p[1..n - 1]);
        if r <= 0 {
          return;
        }
      }
      p := p[n..];
    }
    r := 1;
  }

  /** What the recursive calls for the first type give. */
  lemma NestedSize(s: string)
    requires Element(s, true, 0, 0).Some?
    ensures var e := Element(s, true, 0, 0).value;
            var n := e.length;
            && AlignmentResult(Parse(s[..n]), 1) == Alignment(e.ty)
            && (IsBasic(s[0]) && !IsText(s[0]) ==> Fixed(e.ty) && Size(e.ty) == BasicAlignment(s[0]))
            && (IsText(s[0]) || s[0] == 'v' || s[0] == 'a' ==> !Fixed(e.ty))
            && (s[0] == '(' || s[0] == '{' ==> n >= 3 && SizeResult(Parse(s[1..n - 1])) == if Fixed(e.ty) then Size(e.ty) else -EINVAL)
  {
    hide Element, Parse, AllFixed, Sizes, Alignment;
    FirstCharacter(s);
    ContainerParsed(s);
    OneParsed(s, 0, 0);
    var t := Element(s, true, 0, 0).value.ty;
    AlignmentsOfOne(t);
    if t.DictEntry? {
      AllFixedTwo(t.key, t.value);
      if Fixed(t) {
        DictEntryAsPair(t.key, t.value);
      }
    }
  }

  /** The signature whose first types are those of done, and s what follows. */
  function Continued(done: seq<Type>, s: string): Elements {
    Elements(done + Parse(s).types, Parse(s).complete)
  }

  lemma NextSize(done: seq<Type>, s: string)
    requires Element(s, true, 0, 0).Some? && AllFixed(done)
    ensures var e := Element(s, true, 0, 0).value;
            && Continued(done, s) == Continued(done + [e.ty], s[e.length..])
            && (!Fixed(e.ty) ==> SizeResult(Continued(done, s)) == -EINVAL)
            && (Fixed(e.ty) ==>
                AllFixed(done + [e.ty]) && End(done + [e.ty]) == AlignTo(End(done), Alignment(e.ty)) + Size(e.ty))
  {
    hide Element, Fixed, Size, Alignment, AlignTo, Sizes;
    var e := Element(s, true, 0, 0).value;
    var rest := Parse(s[e.length..]).types;
    assert done + ([e.ty] + rest) == done + [e.ty] + rest;
    assert e.ty in done + ([e.ty] + rest);
    assert (done + [e.ty])[..|done|] == done;
  }

  lemma FirstOrLast(s: string, done: seq<Type>)
    ensures Continued([], s) == Parse(s) && Continued(done, "") == Elements(done, true)
    ensures s != "" && Element(s, true, 0, 0).None? ==> SizeResult(Continued(done, s)) == -EINVAL
    ensures AlignmentResult(Elements(done, true), 1) == Alignments(done)
  {
    hide Element, Alignments;
  }

  /** bus_gvariant_get_size: the size if all types are of fixed size, or else an error. */
  method GetSize(signature: string) returns (r: int)
    ensures r == SizeResult(Parse(signature))
    decreases |signature|
  {
    hide Element, Fixed, Alignment, Size, AlignTo, AlignmentResult, Parse, Continued;
    var sum: nat := 0;
    var p := signature;
    ghost var done: seq<Type> := [];
    FirstOrLast(p, done);
    while p != ""
      invariant |p| <= |signature| && AllFixed(done) && sum == End(done)
      invariant Continued(done, p) == Parse(signature)
      decreases |p|
    {
      var n;
      r, n := SignatureElementLength(p);
      if r < 0 {
        FirstOrLast(p, done);
        return;
      }
      FirstCharacter(p);
      NestedSize(p);
      NextSize(done, p);
      r := GetAlignment(p[..n]);
      if r < 0 {
        return;
      }
      sum := AlignTo(sum, r);
      if IsByte(p[0]) {
        sum := sum + 1;
      } else if IsShort(p[0]) {
        sum := sum + 2;
      } else if IsWord(p[0]) {
        sum := sum + 4;
      } else if IsLong(p[0]) {
        sum := sum + 8;
      } else if p[0] == '(' || p[0] == '{' {
        if n == 2 {
          r := 1;
        } else {
          r := GetSize(p[1..n - 1]);
          if r < 0 {
            return;
          }
        }
        sum := sum + r;
      } else {
        return -EINVAL;
      }
      done := done + [Element(p, true, 0, 0).value.ty];
      p := p[n..];
    }
    FirstOrLast(p, done);
    r := GetAlignment(signature);
    if r < 0 {
      return;
    }
    r := AlignTo(sum, r);
  }

  // ----- the codes

  /** The codes of basic types. */
  lemma BasicCodes(c: char)
    ensures IsBasic(c) <==> c in {'y', 'b', 'n', 'q', 'i', 'u', 'h', 'x', 't', 'd', 's', 'o', 'g'}
  {
  }

  /** The parts of a signature of one character. */
  lemma OneCode(c: char)
    ensures Parse([c]) == if IsBasic(c) then Elements([Basic(c)], true) else if c == 'v' then Elements([Variant], true) else Elements([], false)
  {
    hide IsBasic;
    ContainerCodes();
    assert [c][1..] == "";
    assert Parse("") == Elements([], true);
    assert Element("", true, 1, 0) == None && MembersUntil("", ')', 0, 1) == None && MembersUntil("", '}', 0, 1) == None;
    assert [Basic(c)] + [] == [Basic(c)] && [Variant] + [] == [Variant];
  }

  lemma OneBasic(c: char)
    requires IsBasic(c)
    ensures AlignmentResult(Elements([Basic(c)], true), 1) == BasicAlignment(c)
    ensures SizeResult(Elements([Basic(c)], true)) == if IsText(c) then -EINVAL else BasicAlignment(c)
  {
    hide AlignTo;
    AlignmentsOfOne(Basic(c));
    assert [Basic(c)][..0] == [];
    AlignToLeast(0, BasicAlignment(c), 0);
    AlignToLeast(BasicAlignment(c), BasicAlignment(c), BasicAlignment(c));
    assert Basic(c) in [Basic(c)];
    OneFixed(Basic(c));
    assert !IsText(c) ==> End([Basic(c)]) == AlignTo(End([]), BasicAlignment(c)) + BasicAlignment(c);
  }

  lemma OneFixed(t: Type)
    ensures AllFixed([t]) <==> Fixed(t)
  {
    hide Fixed;
    assert t in [t];
  }

  /** The size and the alignment of every single code. */
  method CodeLayout(c: char) returns (size: int, alignment: int)
    ensures c in {'y', 'b'} ==> size == 1 && alignment == 1
    ensures c in {'n', 'q'} ==> size == 2 && alignment == 2
    ensures c in {'i', 'u', 'h'} ==> size == 4 && alignment == 4
    ensures c in {'x', 't', 'd'} ==> size == 8 && alignment == 8
    ensures c in {'s', 'o', 'g'} ==> size == -EINVAL && alignment == 1
    ensures c == 'v' ==> size == -EINVAL && alignment == 8
    ensures c !in {'y', 'b', 'n', 'q', 'i', 'u', 'h', 'x', 't', 'd', 's', 'o', 'g', 'v'} ==> size == -EINVAL && alignment == -EINVAL
  {
    hide Parse, AlignmentResult, SizeResult;
    OneCode(c);
    BasicCodes(c);
    if IsBasic(c) {
      OneBasic(c);
    }
    NoBasic();
    size := GetSize([c]);
    alignment := GetAlignment([c]);
  }

  lemma NoBasic()
    ensures AlignmentResult(Elements([Variant], true), 1) == 8 && SizeResult(Elements([Variant], true)) == -EINVAL
    ensures AlignmentResult(Elements([], false), 1) == -EINVAL && SizeResult(Elements([], false)) == -EINVAL
  {
    AlignmentsOfOne(Variant);
    AlignmentsOfNone();
    assert Variant in [Variant];
  }

  /** An array has the alignment of its elements, and no fixed size. */
  lemma ArrayLayout(e: Type)
    requires WellFormed(Array(e), true, 0, 0)
    ensures SizeResult(Parse("a" + Text(e))) == -EINVAL
    ensures AlignmentResult(Parse("a" + Text(e)), 1) == AlignmentResult(Parse(Text(e)), 1)
  {
    hide Parse, Element;
    TextIsElement(Array(e), "", true, 0, 0);
    assert Text(Array(e)) + "" == "a" + Text(e);
    OneParsed("a" + Text(e), 0, 0);
    assert ("a" + Text(e))[..|Text(Array(e))|] == "a" + Text(e);
    TextIsElement(e, "", true, 1, 0);
    assert Text(e) + "" == Text(e);
    OneParsed(Text(e), 1, 0);
    assert Text(e)[..|Text(e)|] == Text(e);
    AlignmentsOfOne(Array(e));
    AlignmentsOfOne(e);
    OneFixed(Array(e));
  }

  /** is_fixed_size answers yes just when get_size gives a size. */
  lemma FixedJustWhenSized(s: string)
    ensures FixedResult(Parse(s)) == 1 <==> SizeResult(Parse(s)) >= 0
  {
  }

  /** The unit type, whose size get_size means to be 1, never gets that far: it is not accepted as a type. */
  lemma UnitTypeIsMalformed(s: string)
    requires |s| >= 2 && s[..2] == "()"
    ensures Element(s, true, 0, 0) == None && SizeResult(Parse(s)) == -EINVAL
  {
    assert s[0] == s[..2][0] == '(' && s[1..][0] == s[..2][1] == ')';
    assert MembersUntil(s[1..], ')', 0, 1) == Some(Members([], 0));
  }

  // ----- framing offsets

  predicate WordFits(sz: nat, extra: nat, w: nat) {
    match w
    case 1 => sz + extra <= 0xFF
    case 2 => sz + extra * 2 <= 0xFFFF
    case 4 => sz + extra * 4 <= 0xFFFF_FFFF
    case 8 => true
    case _ => false
  }

  /** bus_gvariant_determine_word_size, where the sums are those of a 64-bit size_t */
  function DetermineWordSize(sz: nat, extra: nat): (w: nat)
    ensures w in {1, 2, 4, 8}
  {
    if Wrapped(sz + extra) <= 0xFF then 1
    else if Wrapped(sz + Wrapped(extra * 2)) <= 0xFFFF then 2
    else if Wrapped(sz + Wrapped(extra * 4)) <= 0xFFFF_FFFF then 4
    else 8
  }

  /** w is the least width in which sz bytes and extra offsets of that width can be addressed. */
  ghost predicate IsLeastWordSize(sz: nat, extra: nat, w: nat) {
    WordFits(sz, extra, w) && forall v :: WordFits(sz, extra, v) ==> w <= v
  }

  /** Every sum that determine_word_size compares exceeds its limit, after wrapping. */
  predicate AllSumsLarge(sz: nat, extra: nat) {
    Wrapped(sz + extra) > 0xFF && Wrapped(sz + extra * 2) > 0xFFFF && Wrapped(sz + extra * 4) > 0xFFFF_FFFF
  }

  /** The answer is the least width that fits just when the sums do not wrap around, or are all large in spite of it. */
  lemma LeastWordSize(sz: nat, extra: nat)
    requires sz < TWO_64 && extra < TWO_64
    ensures IsLeastWordSize(sz, extra, DetermineWordSize(sz, extra))
            <==> sz + extra * 4 < TWO_64 || AllSumsLarge(sz, extra)
  {
    WrappedSum(extra * 2, sz);
    WrappedSum(extra * 4, sz);
    if sz + extra * 4 < TWO_64 {
      NoWrapIsLeast(sz, extra);
    } else {
      OnlyEightFits(sz, extra);
    }
  }

  lemma NoWrapIsLeast(sz: nat, extra: nat)
    requires sz + extra * 4 < TWO_64
    ensures IsLeastWordSize(sz, extra, DetermineWordSize(sz, extra))
  {
    hide Wrapped;
    Unwrapped(sz + extra);
    Unwrapped(extra * 2);
    Unwrapped(sz + extra * 2);
    Unwrapped(extra * 4);
    Unwrapped(sz + extra * 4);
  }

  lemma Unwrapped(n: nat)
    requires n < TWO_64
    ensures Wrapped(n) == n
  {
  }

  lemma OnlyEightFits(sz: nat, extra: nat)
    requires sz + extra * 4 >= TWO_64
    ensures forall v :: WordFits(sz, extra, v) <==> v == 8
  {
  }

  /** Otherwise it may be too small. */
  lemma WordSizeWrapsAround()
    ensures DetermineWordSize(TWO_64 - 1, 1) == 1 && !WordFits(TWO_64 - 1, 1, 1)
  {
  }

  type Octet = n: nat | n < 256

  function Power256(n: nat): (r: nat)
    ensures r > 0
  {
    if n == 0 then 1 else 256 * Power256(n - 1)
  }

  function LittleEndianBytes(value: nat, n: nat): (r: seq<Octet>)
    ensures |r| == n
  {
    if n == 0 then [] else [value % 256] + LittleEndianBytes(value / 256, n - 1)
  }

  function LittleEndianValue(s: seq<Octet>): nat {
    if s == [] then 0 else s[0] + 256 * LittleEndianValue(s[1..])
  }

  lemma {:induction false} ReadAfterWrite(value: nat, n: nat)
    requires value < Power256(n)
    ensures LittleEndianValue(LittleEndianBytes(value, n)) == value
  {
    if n > 0 {
      ReadAfterWrite(value / 256, n - 1);
      assert LittleEndianBytes(value, n)[1..] == LittleEndianBytes(value / 256, n - 1);
    }
  }

  lemma {:induction false} WriteAfterRead(s: seq<Octet>)
    ensures LittleEndianValue(s) < Power256(|s|) && LittleEndianBytes(LittleEndianValue(s), |s|) == s
  {
    if s != [] {
      WriteAfterRead(s[1..]);
      var v := LittleEndianValue(s[1..]);
      assert (s[0] + 256 * v) / 256 == v && (s[0] + 256 * v) % 256 == s[0];
    }
  }

  /** bus_gvariant_write_word_le */
  method WriteWordLe(p: array<Octet>, at: nat, sz: nat, value: nat)
    requires sz in {1, 2, 4, 8} && at + sz <= p.Length && value < Power256(sz)
    modifies p
    ensures p[..] == old(p[..at]) + LittleEndianBytes(value, sz) + old(p[at + sz..])
  {
    var x := LittleEndianBytes(value, sz);
    forall i | 0 <= i < sz {
      p[at + i] := x[i];
    }
  }

  /** le16toh and le32toh of the bytes in memory. */
  function Value16(b0: nat, b1: nat): nat {
    b0 + 0x100 * b1
  }

  function Value32(b0: nat, b1: nat, b2: nat, b3: nat): nat {
    b0 + 0x100 * b1 + 0x1_0000 * b2 + 0x100_0000 * b3
  }

  /** bus_gvariant_read_word_le; every case puts the bytes of its width together. */
  method ReadWordLe(p: array<Octet>, at: nat, sz: nat) returns (value: nat)
    requires sz in {1, 2, 4, 8} && at + sz <= p.Length
    ensures value == LittleEndianValue(p[at..at + sz])
  {
    if sz == 1 {
      value := p[at];
      ValueOfOne(p[at..at + 1]);
    } else if sz == 2 {
      value := Value16(p[at], p[at + 1]);
      ValueOfTwo(p[at..at + 2]);
    } else if sz == 4 {
      value := Value32(p[at], p[at + 1], p[at + 2], p[at + 3]);
      ValueOfFour(p[at..at + 4]);
    } else {
      value := Value32(p[at], p[at + 1], p[at + 2], p[at + 3])
             + TWO_32 * Value32(p[at + 4], p[at + 5], p[at + 6], p[at + 7]);
      ValueOfFour(p[at..at + 8][..4]);
      ValueOfFour(p[at..at + 8][4..]);
      ValueOfHalves(p[at..at + 8]);
    }
  }

  lemma ValueOfOne(s: seq<Octet>)
    requires |s| == 1
    ensures LittleEndianValue(s) == s[0]
  {
    assert s[1..] == [];
  }

  lemma ValueOfTwo(s: seq<Octet>)
    requires |s| == 2
    ensures LittleEndianValue(s) == Value16(s[0], s[1])
  {
    ValueOfOne(s[1..]);
  }

  lemma ValueOfFour(s: seq<Octet>)
    requires |s| == 4
    ensures LittleEndianValue(s) == Value32(s[0], s[1], s[2], s[3])
  {
    ValueOfTwo(s[2..]);
    assert s[1..][1..] == s[2..];
    assert LittleEndianValue(s[1..]) == s[1] + 256 * LittleEndianValue(s[2..]);
  }

  lemma ValueOfHalves(s: seq<Octet>)
    requires |s| == 8
    ensures LittleEndianValue(s) == LittleEndianValue(s[..4]) + TWO_32 * LittleEndianValue(s[4..])
  {
    ValueSplit(s, 4);
    assert Power256(4) == TWO_32;
  }

  lemma {:induction false} ValueSplit(s: seq<Octet>, n: nat)
    requires n <= |s|
    ensures LittleEndianValue(s) == LittleEndianValue(s[..n]) + Power256(n) * LittleEndianValue(s[n..])
  {
    if n == 0 {
      assert s[0..] == s;
    } else {
      ValueSplit(s[1..], n - 1);
      assert s[1..][..n - 1] == s[..n][1..] && s[1..][n - 1..] == s[n..];
      Distributed(LittleEndianValue(s[1..][..n - 1]), Power256(n - 1), LittleEndianValue(s[n..]));
    }
  }

  lemma Distributed(low: nat, p: nat, high: nat)
    ensures 256 * (low + p * high) == 256 * low + 256 * p * high
  {
  }

  /** A word that was written is read back, whatever the width. */
  method WriteThenRead(p: array<Octet>, at: nat, sz: nat, value: nat) returns (r: nat)
    requires sz in {1, 2, 4, 8} && at + sz <= p.Length && value < Power256(sz)
    modifies p
    ensures r == value
  {
    WriteWordLe(p, at, sz, value);
    assert p[at..at + sz] == LittleEndianBytes(value, sz);
    ReadAfterWrite(value, sz);
    r := ReadWordLe(p, at, sz);
  }
}
