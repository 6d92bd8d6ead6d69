/**
 Paths: their order, their prefixes, and what they contribute to a hash. All
 of it looks at the components of a path only, so duplicate and trailing
 slashes make no difference.
 */
module Paths {
  import opened Bytes
  import opened Common

  const SLASH: Byte := 47

  // ----- what a path means

  /** strspn(s, "/") */
  function SlashSpan(s: seq<Byte>): (n: nat)
    ensures n <= |s| && (n < |s| ==> s[n] != SLASH)
  {
    if s != [] && s[0] == SLASH then 1 + SlashSpan(s[1..]) else 0
  }

  /** strcspn(s, "/") */
  function NameSpan(s: seq<Byte>): (n: nat)
    ensures n <= |s| && (n < |s| ==> s[n] == SLASH) && SlashFree(s[..n]) && (s != [] && s[0] != SLASH ==> n > 0)
  {
    if s != [] && s[0] != SLASH then
      var n := NameSpan(s[1..]);
      assert s[..n + 1] == [s[0]] + s[1..][..n];
      1 + n
    else 0
  }

  predicate SlashFree(s: seq<Byte>) {
    forall i :: 0 <= i < |s| ==> s[i] != SLASH
  }

  predicate Absolute(s: seq<Byte>) {
    s != [] && s[0] == SLASH
  }

  predicate IsName(s: seq<Byte>) {
    s != [] && SlashFree(s)
  }

  /** The names between the slashes. */
  function Components(s: seq<Byte>): (c: seq<seq<Byte>>)
    ensures forall i :: 0 <= i < |c| ==> IsName(c[i])
    decreases |s|
  {
    var t := s[SlashSpan(s)..];
    if t == [] then [] else
      var n := NameSpan(t);
      [t[..n]] + Components(t[n..])
  }

  lemma LeadingSlashes(s: seq<Byte>)
    ensures Components(s[SlashSpan(s)..]) == Components(s)
  {
    var t := s[SlashSpan(s)..];
    assert SlashSpan(t) == 0;
    assert t[0..] == t;
  }

  // ----- path_compare

  function Sign(d: int): int {
    if d > 0 then 1 else if d < 0 then -1 else 0
  }

  /** memcmp over the common length. C fixes only its sign, and only its sign is looked at here. */
  function Memcmp(a: seq<Byte>, b: seq<Byte>): int {
    if a == [] || b == [] then 0
    else if a[0] != b[0] then (if a[0] > b[0] then 1 else -1)
    else Memcmp(a[1..], b[1..])
  }

  /** Names in byte order, a name before the longer ones it starts. */
  function CompareNames(a: seq<Byte>, b: seq<Byte>): int {
    if a == [] || b == [] then Sign(|a| - |b|)
    else if a[0] != b[0] then (if a[0] > b[0] then 1 else -1)
    else CompareNames(a[1..], b[1..])
  }

  /** Paths by their components, a path before the longer ones it starts. */
  function CompareComponents(a: seq<seq<Byte>>, b: seq<seq<Byte>>): int {
    if a == [] || b == [] then Sign(|a| - |b|)
    else if CompareNames(a[0], b[0]) != 0 then CompareNames(a[0], b[0])
    else CompareComponents(a[1..], b[1..])
  }

  function ComparePaths(a: seq<Byte>, b: seq<Byte>): int {
    if Absolute(a) != Absolute(b) then (if Absolute(b) then -1 else 1)
    else CompareComponents(Components(a), Components(b))
  }

  lemma {:induction false} CompareNamesByMemcmp(a: seq<Byte>, b: seq<Byte>)
    ensures CompareNames(a, b) == if Memcmp(a, b) != 0 then Sign(Memcmp(a, b)) else Sign(|a| - |b|)
  {
    if a != [] && b != [] {
      CompareNamesByMemcmp(a[1..], b[1..]);
    }
  }

  lemma {:induction false} MemcmpCommon(a: seq<Byte>, b: seq<Byte>, n: nat)
    requires n == if |a| < |b| then |a| else |b|
    ensures Memcmp(a[..n], b[..n]) == Memcmp(a, b)
  {
    if n > 0 {
      MemcmpCommon(a[1..], b[1..], n - 1);
      assert a[..n][1..] == a[1..][..n - 1] && b[..n][1..] == b[1..][..n - 1];
    }
  }

  /** The names agree before byte j, where a ends and b does not, or has the smaller byte. */
  predicate NameBefore(a: seq<Byte>, b: seq<Byte>, j: nat) {
    && j <= |a| && j < |b| && a[..j] == b[..j]
    && (j == |a| || a[j] < b[j])
  }

  /**
   How paths are sorted: relative before absolute ones; a path before the longer ones it starts; or else by the first
   names that differ, byte by byte.
   */
  ghost predicate SortsBefore(a: seq<Byte>, b: seq<Byte>) {
    || (!Absolute(a) && Absolute(b))
    || (Absolute(a) == Absolute(b) && Components(a) < Components(b))
    || (Absolute(a) == Absolute(b) && exists i: nat, j: nat {:trigger NameBefore(Components(a)[i], Components(b)[i], j)} ::
          && i < |Components(a)| && i < |Components(b)| && Components(a)[..i] == Components(b)[..i]
          && NameBefore(Components(a)[i], Components(b)[i], j))
  }

  lemma {:induction false} NameBeforeIs(a: seq<Byte>, b: seq<Byte>)
    ensures CompareNames(a, b) == -1 <==> exists j: nat :: NameBefore(a, b, j)
  {
    if b == [] {
    } else if a == [] {
      assert NameBefore(a, b, 0);
    } else if a[0] != b[0] {
      if a[0] < b[0] {
        assert NameBefore(a, b, 0);
      }
      forall j: nat | NameBefore(a, b, j) ensures j == 0 {
        SameHead(a, b, j);
      }
    } else {
      NameBeforeIs(a[1..], b[1..]);
      forall j: nat | NameBefore(a[1..], b[1..], j) ensures NameBefore(a, b, j + 1) {
        assert a[..j + 1] == [a[0]] + a[1..][..j] && b[..j + 1] == [b[0]] + b[1..][..j];
      }
      forall j: nat | NameBefore(a, b, j) ensures j > 0 && NameBefore(a[1..], b[1..], j - 1) {
        if j > 0 {
          assert a[1..][..j - 1] == a[..j][1..] && b[1..][..j - 1] == b[..j][1..];
        }
      }
    }
  }

  lemma SameHead<T>(a: seq<T>, b: seq<T>, j: nat)
    requires j <= |a| && j <= |b| && a[..j] == b[..j]
    ensures j > 0 ==> a[0] == b[0]
  {
    if j > 0 {
      assert a[..j][0] == a[0] && b[..j][0] == b[0];
    }
  }

  /** The i-th names are the first that differ, and a's comes before b's. */
  ghost predicate DecidedAt(a: seq<seq<Byte>>, b: seq<seq<Byte>>, i: nat) {
    i < |a| && i < |b| && a[..i] == b[..i] && CompareNames(a[i], b[i]) == -1
  }

  lemma {:induction false} ComponentsBefore(a: seq<seq<Byte>>, b: seq<seq<Byte>>)
    ensures CompareComponents(a, b) == -1 <==> a < b || exists i: nat :: DecidedAt(a, b, i)
  {
    hide CompareNames;
    if a == [] || b == [] {
    } else {
      CompareNamesOrder(a[0], b[0]);
      if a[0] != b[0] {
        if CompareNames(a[0], b[0]) == -1 {
          assert DecidedAt(a, b, 0);
        }
        forall i: nat | DecidedAt(a, b, i) ensures i == 0 {
          SameHead(a, b, i);
        }
      } else {
        ComponentsBefore(a[1..], b[1..]);
        assert a == [a[0]] + a[1..] && b == [b[0]] + b[1..];
        assert a < b <==> a[1..] < b[1..];
        forall i: nat | DecidedAt(a[1..], b[1..], i) ensures DecidedAt(a, b, i + 1) {
          assert a[..i + 1] == [a[0]] + a[1..][..i] && b[..i + 1] == [b[0]] + b[1..][..i];
        }
        forall i: nat | DecidedAt(a, b, i) ensures i > 0 && DecidedAt(a[1..], b[1..], i - 1) {
          if i > 0 {
            assert a[1..][..i - 1] == a[..i][1..] && b[1..][..i - 1] == b[..i][1..];
          }
        }
      }
    }
  }

  /** That is the order of path_compare. */
  lemma ComparePathsSorts(a: seq<Byte>, b: seq<Byte>)
    ensures ComparePaths(a, b) == -1 <==> SortsBefore(a, b)
  {
    hide Components, CompareNames;
    var c, d := Components(a), Components(b);
    ComponentsBefore(c, d);
    forall i: nat | i < |c| && i < |d| ensures CompareNames(c[i], d[i]) == -1 <==> exists j: nat :: NameBefore(c[i], d[i], j) {
      NameBeforeIs(c[i], d[i]);
    }
    if Absolute(a) == Absolute(b) && SortsBefore(a, b) && !(c < d) {
      var i: nat, j: nat :| i < |c| && i < |d| && c[..i] == d[..i] && NameBefore(c[i], d[i], j);
      assert DecidedAt(c, d, i);
    }
    if Absolute(a) == Absolute(b) && !(c < d) && CompareComponents(c, d) == -1 {
      var i: nat :| DecidedAt(c, d, i);
      var j: nat :| NameBefore(c[i], d[i], j);
    }
  }

  lemma ComparePathsIs(a: seq<Byte>, b: seq<Byte>)
    ensures ComparePaths(a, b) == if SortsBefore(a, b) then -1 else if SortsBefore(b, a) then 1 else 0
  {
    hide ComparePaths, SortsBefore;
    ComparePathsSorts(a, b);
    ComparePathsSorts(b, a);
    ComparePathsOrder(a, b);
  }

  /** path_compare */
  method PathCompare(a: CString, b: CString) returns (r: int)
    ensures r == ComparePaths(a, b)
    ensures r == if SortsBefore(a, b) then -1 else if SortsBefore(b, a) then 1 else 0
  {
    hide CompareComponents, Components, SortsBefore;
    ComparePathsIs(a, b);
    var d := (if a != [] && a[0] == SLASH then 1 else 0) - (if b != [] && b[0] == SLASH then 1 else 0);
    if d != 0 {
      return d;
    }
    r := CompareLoop(a, b);
  }

  /** The loop of path_compare. The parameters a0 and b0 are the strings, a and b what is left of them. */
  method CompareLoop(a0: seq<Byte>, b0: seq<Byte>) returns (r: int)
    ensures r == CompareComponents(Components(a0), Components(b0))
  {
    hide Memcmp, CompareNames, Components;
    var a, b := a0, b0;
    while true
      invariant CompareComponents(Components(a), Components(b)) == CompareComponents(Components(a0), Components(b0))
      decreases |a|
    {
      LeadingSlashes(a);
      LeadingSlashes(b);
      a := a[SlashSpan(a)..];
      b := b[SlashSpan(b)..];
      NextComponent(a);
      NextComponent(b);
      if a == [] && b == [] {
        return 0;
      }
      if a == [] {
        return -1;
      }
      if b == [] {
        return 1;
      }
      var j, k := NameSpan(a), NameSpan(b);
      var m := if j < k then j else k;
      var d := Memcmp(a[..m], b[..m]);
      MemcmpCommon(a[..j], b[..k], m);
      assert a[..j][..m] == a[..m] && b[..k][..m] == b[..m];
      CompareNamesByMemcmp(a[..j], b[..k]);
      if d != 0 {
        return (if d > 0 then 1 else 0) - (if d < 0 then 1 else 0);
      }
      d := (if j > k then 1 else 0) - (if j < k then 1 else 0);
      if d != 0 {
        return d;
      }
      a := a[j..];
      b := b[k..];
    }
  }

  // ----- path_compare is a total order on absoluteness and components

  lemma {:induction false} CompareNamesOrder(a: seq<Byte>, b: seq<Byte>)
    ensures CompareNames(a, b) in {-1, 0, 1} && CompareNames(b, a) == -CompareNames(a, b)
    ensures CompareNames(a, b) == 0 <==> a == b
  {
    if a != [] && b != [] {
      CompareNamesOrder(a[1..], b[1..]);
      assert a == [a[0]] + a[1..] && b == [b[0]] + b[1..];
    }
  }

  lemma {:induction false} CompareNamesTransitive(a: seq<Byte>, b: seq<Byte>, c: seq<Byte>)
    requires CompareNames(a, b) <= 0 && CompareNames(b, c) <= 0
    ensures CompareNames(a, c) <= 0
  {
    if a != [] && b != [] && c != [] && a[0] == b[0] == c[0] {
      CompareNamesTransitive(a[1..], b[1..], c[1..]);
    }
  }

  lemma {:induction false} CompareComponentsOrder(a: seq<seq<Byte>>, b: seq<seq<Byte>>)
    ensures CompareComponents(a, b) in {-1, 0, 1} && CompareComponents(b, a) == -CompareComponents(a, b)
    ensures CompareComponents(a, b) == 0 <==> a == b
  {
    if a != [] && b != [] {
      CompareNamesOrder(a[0], b[0]);
      CompareComponentsOrder(a[1..], b[1..]);
      assert a == [a[0]] + a[1..] && b == [b[0]] + b[1..];
    }
  }

  lemma {:induction false} CompareComponentsTransitive(a: seq<seq<Byte>>, b: seq<seq<Byte>>, c: seq<seq<Byte>>)
    requires CompareComponents(a, b) <= 0 && CompareComponents(b, c) <= 0
    ensures CompareComponents(a, c) <= 0
  {
    if a != [] && b != [] && c != [] {
      CompareNamesOrder(a[0], b[0]);
      CompareNamesOrder(b[0], c[0]);
      CompareNamesTransitive(a[0], b[0], c[0]);
      if a[0] == b[0] == c[0] {
        CompareComponentsTransitive(a[1..], b[1..], c[1..]);
      } else {
        CompareNamesOrder(a[0], c[0]);
        CompareNamesOrder(c[0], b[0]);
      }
    }
  }

  /** path_compare gives -1, 0 or 1, is antisymmetric, and 0 just for equal absoluteness and components. */
  lemma ComparePathsOrder(a: seq<Byte>, b: seq<Byte>)
    ensures ComparePaths(a, b) in {-1, 0, 1} && ComparePaths(b, a) == -ComparePaths(a, b)
    ensures ComparePaths(a, b) == 0 <==> Absolute(a) == Absolute(b) && Components(a) == Components(b)
  {
    CompareComponentsOrder(Components(a), Components(b));
  }

  lemma ComparePathsTransitive(a: seq<Byte>, b: seq<Byte>, c: seq<Byte>)
    requires ComparePaths(a, b) <= 0 && ComparePaths(b, c) <= 0
    ensures ComparePaths(a, c) <= 0
  {
    if Absolute(a) == Absolute(b) == Absolute(c) {
      CompareComponentsTransitive(Components(a), Components(b), Components(c));
    }
  }

  // ----- path_startswith

  /** The components of prefix start those of path. */
  predicate StartsWith(path: seq<Byte>, prefix: seq<Byte>) {
    Absolute(path) == Absolute(prefix) && Components(prefix) <= Components(path)
  }

  predicate IsSuffix(a: seq<Byte>, b: seq<Byte>) {
    |a| <= |b| && a == b[|b| - |a|..]
  }

  lemma SuffixDrop(a: seq<Byte>, b: seq<Byte>, k: nat)
    requires (a == b || IsSuffix(a, b)) && k <= |a|
    ensures IsSuffix(a[k..], b) && a[0..] == a
  {
  }

  /** path_startswith: what is left of the path, a suffix of it that starts with the next component, or NULL. */
  method PathStartsWith(path0: CString, prefix0: CString) returns (r: Option<seq<Byte>>)
    ensures r.Some? <==> StartsWith(path0, prefix0)
    ensures r.Some? ==> Components(r.value) == Components(path0)[|Components(prefix0)|..]
    ensures r.Some? ==> IsSuffix(r.value, path0) && !Absolute(r.value)
  {
    hide Components, Memcmp, SlashSpan, NameSpan, SlashFree, IsSuffix;
    var path: seq<Byte>, prefix: seq<Byte> := path0, prefix0;
    if Absolute(path) != Absolute(prefix) {
      return None;
    }
    ghost var matched: seq<seq<Byte>> := [];
    SuffixDrop(path, path0, 0);
    while true
      invariant IsSuffix(path, path0)
      invariant Components(path0) == matched + Components(path) && Components(prefix0) == matched + Components(prefix)
      decreases |path|
    {
      LeadingSlashes(path);
      LeadingSlashes(prefix);
      SuffixDrop(path, path0, SlashSpan(path));
      path := path[SlashSpan(path)..];
      prefix := prefix[SlashSpan(prefix)..];
      NextComponent(path);
      NextComponent(prefix);
      SameStart(matched, Components(prefix), Components(path));
      if prefix == [] {
        return Some(path);
      }
      if path == [] {
        return None;
      }
      var a, b := NameSpan(path), NameSpan(prefix);
      if a != b {
        return None;
      }
      SameMemory(path[..a], prefix[..a]);
      if Memcmp(path[..a], prefix[..a]) != 0 {
        return None;
      }
      Regrouped(matched, path[..a], Components(path[a..]), Components(prefix[b..]));
      matched := matched + [path[..a]];
      SuffixDrop(path, path0, a);
      path := path[a..];
      prefix := prefix[b..];
    }
  }

  lemma Regrouped(m: seq<seq<Byte>>, name: seq<Byte>, a: seq<seq<Byte>>, b: seq<seq<Byte>>)
    ensures m + ([name] + a) == m + [name] + a && m + ([name] + b) == m + [name] + b
  {
  }

  lemma SameStart(m: seq<seq<Byte>>, a: seq<seq<Byte>>, b: seq<seq<Byte>>)
    ensures m + a <= m + b <==> a <= b
    ensures a != [] && b != [] && a[0] != b[0] ==> !(a <= b)
    ensures (m + b)[|m|..] == b
  {
    if a <= b {
      assert b == a + b[|a|..];
      assert m + b == (m + a) + b[|a|..];
    }
    if m + a <= m + b {
      assert a == (m + a)[|m|..] && b == (m + b)[|m|..];
      assert b == a + b[|a|..] by {
        assert forall i :: 0 <= i < |a| ==> a[i] == (m + a)[|m| + i] == (m + b)[|m| + i] == b[i];
      }
    }
  }

  /** At a component, the next one is what strcspn spans. */
  lemma NextComponent(s: seq<Byte>)
    requires !Absolute(s)
    ensures s == [] ==> Components(s) == []
    ensures s != [] ==> Components(s) == [s[..NameSpan(s)]] + Components(s[NameSpan(s)..])
  {
    assert SlashSpan(s) == 0;
    assert s[0..] == s;
  }

  lemma {:induction false} SameMemory(a: seq<Byte>, b: seq<Byte>)
    requires |a| == |b|
    ensures Memcmp(a, b) == 0 <==> a == b
  {
    CompareNamesByMemcmp(a, b);
    CompareNamesOrder(a, b);
  }

  /** Two paths start each other just when path_compare finds them equal. */
  lemma StartsWithBothWays(a: seq<Byte>, b: seq<Byte>)
    ensures StartsWith(a, b) && StartsWith(b, a) <==> ComparePaths(a, b) == 0
  {
    ComparePathsOrder(a, b);
  }
}
