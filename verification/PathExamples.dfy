/**
 Some paths, written out.
 */
module PathExamples {
  import opened Bytes
  import opened Paths
  import opened HashFuncs

  const FOO: seq<Byte> := [102, 111, 111]
  const BAR: seq<Byte> := [98, 97, 114]

  /** "foo" */
  lemma Foo()
    ensures Components(FOO) == [FOO] && !Absolute(FOO)
  {
    hide Components;
    NoName();
    NameThen(FOO, []);
    assert FOO + [] == FOO && [FOO] + [] == [FOO];
  }

  lemma NoName()
    ensures Components([]) == []
  {
  }

  /** "/foo" */
  lemma SlashFoo(p: seq<Byte>)
    requires p == [47, 102, 111, 111]
    ensures Absolute(p) && Components(p) == [FOO]
  {
    hide Components;
    Foo();
    SlashThen(FOO);
    assert [SLASH] + FOO == p;
  }

  /** "bar/" */
  lemma BarSlash(p: seq<Byte>)
    requires p == [98, 97, 114, 47]
    ensures !Absolute(p) && Components(p) == [BAR]
  {
    hide Components;
    NoName();
    SlashThen([]);
    NameThen(BAR, [SLASH]);
    assert [SLASH] + [] == [SLASH];
    assert BAR + [SLASH] == p && [BAR] + [] == [BAR];
  }

  /** "//foo//bar/" */
  lemma FooBar(p: seq<Byte>)
    requires p == [47, 47, 102, 111, 111, 47, 47, 98, 97, 114, 47]
    ensures Absolute(p) && Components(p) == [FOO, BAR]
  {
    hide Components, SlashFree;
    var q: seq<Byte> := [98, 97, 114, 47];
    BarSlash(q);
    TwoSlashes(q);
    FooIsName();
    NameThen(FOO, [47, 47] + q);
    TwoSlashes(FOO + ([47, 47] + q));
    assert p == [47, 47] + (FOO + ([47, 47] + q));
    assert [FOO] + [BAR] == [FOO, BAR];
  }

  lemma FooIsName()
    ensures SlashFree(FOO)
  {
  }

  /** It is hashed as "/foo/bar". */
  lemma FooBarHashed(p: seq<Byte>)
    requires p == [47, 47, 102, 111, 111, 47, 47, 98, 97, 114, 47]
    ensures Canonical(p) == [47, 102, 111, 111, 47, 98, 97, 114]
  {
    hide Components;
    FooBar(p);
    assert [FOO, BAR][1..] == [BAR];
    assert Joined([FOO, BAR]) == FOO + [SLASH] + BAR;
  }

  lemma TwoSlashes(q: seq<Byte>)
    requires !Absolute(q)
    ensures Absolute([47, 47] + q) && Components([47, 47] + q) == Components(q)
  {
    var s := [47, 47] + q;
    LeadingSlashes(s);
    assert s[1..][1..] == q && SlashSpan(q) == 0;
    assert SlashSpan(s[1..]) == 1 && SlashSpan(s) == 2;
    assert s[2..] == q;
  }

  /** path_compare: "foo" before "/foo" before "//foo//bar/"; "/foo" before "/g". */
  lemma Compared(foo: seq<Byte>, p: seq<Byte>, g: seq<Byte>)
    requires foo == [47, 102, 111, 111] && p == [47, 47, 102, 111, 111, 47, 47, 98, 97, 114, 47] && g == [47, 103]
    ensures ComparePaths(FOO, foo) == -1 && ComparePaths(foo, p) == -1 && ComparePaths(foo, g) == -1
  {
    hide Components, CompareNames;
    Foo();
    SlashFoo(foo);
    FooBar(p);
    SlashG(g);
    assert [FOO] < [FOO, BAR];
    ComparePathsSorts(FOO, foo);
    ComparePathsSorts(foo, p);
    assert NameBefore(FOO, [103], 0);
    assert NameBefore(Components(foo)[0], Components(g)[0], 0);
    ComparePathsSorts(foo, g);
  }

  /** "/g" */
  lemma SlashG(p: seq<Byte>)
    requires p == [47, 103]
    ensures Absolute(p) && Components(p) == [[103]]
  {
    hide Components;
    NoName();
    NameThen([103], []);
    SlashThen([103]);
    assert [103] + [] == [103 as Byte] && [[103 as Byte]] + [] == [[103 as Byte]];
    assert [SLASH] + [103] == p;
  }
}
