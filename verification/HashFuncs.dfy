/**
 The hash and compare functions for strings and for paths, and that they meet
 what a hashmap needs of them.
 */
module HashFuncs {
  import opened Bytes
  import opened Common
  import opened HashOps
  import opened Paths
  import opened SipHash

  // ----- path_hash_func

  /** The components with one slash between them. */
  function Joined(c: seq<seq<Byte>>): seq<Byte> {
    if c == [] then [] else if |c| == 1 then c[0] else c[0] + [SLASH] + Joined(c[1..])
  }

  /** The path in its shortest form: one initial slash if there are any, one slash between names, none at the end. */
  function Canonical(s: seq<Byte>): seq<Byte> {
    (if Absolute(s) then [SLASH] else []) + Joined(Components(s))
  }

  method PathHashFunc(p: CString, state: Siphash)
    requires state.Valid() && |p| < TWO_64
    modifies state
    ensures state.Valid() && state.key == old(state.key) && state.fed == old(state.fed) + Canonical(p)
  {
    hide Components, Joined, Siphash.Valid;
    var q: seq<Byte> := p;
    ghost var before := state.fed + if Absolute(p) then [SLASH] else [];
    LeadingSlashes(q);
    var n := SlashSpan(q);
    if n > 0 {
      state.Compress(q[..1]);
      assert q[..1] == [SLASH];
      q := q[n..];
    } else {
      assert q[0..] == q;
    }
    assert state.fed == before;
    ghost var goal := before + Joined(Components(p));
    assert goal == old(state.fed) + Canonical(p);
    while true
      invariant |q| <= |p| && !Absolute(q)
      invariant state.Valid() && state.key == old(state.key)
      invariant state.fed + Joined(Components(q)) == goal
      decreases |q|
    {
      n := NameSpan(q);
      JoinedStep(q);
      if n == 0 {
        assert state.fed + [] == state.fed;
        break;
      }
      ghost var fed, name := state.fed, q[..n];
      state.Compress(q[..n]);
      q := q[n..];
      n := SlashSpan(q);
      LeadingSlashes(q);
      NoComponents(q);
      if n == |q| {
        Regrouped(fed, name, [], []);
        break;
      }
      state.Compress(q[..1]);
      assert q[..1] == [SLASH];
      q := q[n..];
      Regrouped(fed, name, [SLASH], Joined(Components(q)));
    }
  }

  lemma Regrouped(a: seq<Byte>, b: seq<Byte>, c: seq<Byte>, d: seq<Byte>)
    ensures a + (b + (c + d)) == a + b + c + d && a + (b + []) == a + b
  {
  }

  lemma NoComponents(q: seq<Byte>)
    ensures SlashSpan(q) == |q| <==> Components(q) == []
  {
    var t := q[SlashSpan(q)..];
  }

  lemma JoinedStep(q: seq<Byte>)
    requires !Absolute(q)
    ensures q == [] ==> Joined(Components(q)) == []
    ensures q != [] ==>
              var t := q[NameSpan(q)..];
              Joined(Components(q)) == q[..NameSpan(q)] + (if SlashSpan(t) == |t| then [] else [SLASH] + Joined(Components(t[SlashSpan(t)..])))
  {
    hide Components;
    NextComponent(q);
    if q != [] {
      var t := q[NameSpan(q)..];
      LeadingSlashes(t);
      var u := t[SlashSpan(t)..];
      NextComponent(u);
      assert Components(q)[1..] == Components(u);
    }
  }

  lemma {:induction false} NameSpanIs(c: seq<Byte>, t: seq<Byte>)
    requires SlashFree(c) && (t == [] || Absolute(t))
    ensures NameSpan(c + t) == |c|
  {
    if c == [] {
      assert c + t == t;
    } else {
      NameSpanIs(c[1..], t);
      assert (c + t)[1..] == c[1..] + t;
    }
  }

  lemma NameThen(c: seq<Byte>, t: seq<Byte>)
    requires IsName(c) && (t == [] || Absolute(t))
    ensures !Absolute(c + t) && Components(c + t) == [c] + Components(t)
  {
    NameSpanIs(c, t);
    assert (c + t)[..|c|] == c && (c + t)[|c|..] == t;
    NextComponent(c + t);
  }

  lemma SlashThen(t: seq<Byte>)
    requires !Absolute(t)
    ensures Components([SLASH] + t) == Components(t)
  {
    var s := [SLASH] + t;
    assert s[1..] == t && SlashSpan(t) == 0;
    LeadingSlashes(s);
    assert SlashSpan(s) == 1;
  }

  /** Splitting undoes joining. */
  lemma {:induction false} ComponentsOfJoined(c: seq<seq<Byte>>)
    requires forall i :: 0 <= i < |c| ==> IsName(c[i])
    ensures Components(Joined(c)) == c && !Absolute(Joined(c))
  {
    hide Components, SlashFree;
    if c == [] {
      NextComponent([]);
    } else if |c| == 1 {
      NameThen(c[0], []);
      NextComponent([]);
      assert c[0] + [] == c[0] && [c[0]] + [] == c;
    } else {
      ComponentsOfJoined(c[1..]);
      SlashThen(Joined(c[1..]));
      NameThen(c[0], [SLASH] + Joined(c[1..]));
      assert c[0] + ([SLASH] + Joined(c[1..])) == c[0] + [SLASH] + Joined(c[1..]);
      assert [c[0]] + c[1..] == c;
    }
  }

  /** The canonical form is a path that path_compare does not tell from the original. */
  lemma CanonicalIsSamePath(s: seq<Byte>)
    ensures Absolute(Canonical(s)) == Absolute(s) && Components(Canonical(s)) == Components(s)
    ensures ComparePaths(s, Canonical(s)) == 0
  {
    var j := Joined(Components(s));
    ComponentsOfJoined(Components(s));
    if Absolute(s) {
      SlashThen(j);
    } else {
      assert [] + j == j;
    }
    ComparePathsOrder(s, Canonical(s));
  }

  /** Two paths give the hash function the same bytes just when path_compare finds them equal. */
  lemma SameBytesWhenEqual(a: seq<Byte>, b: seq<Byte>)
    ensures Canonical(a) == Canonical(b) <==> ComparePaths(a, b) == 0
  {
    CanonicalIsSamePath(a);
    CanonicalIsSamePath(b);
    ComparePathsOrder(a, b);
  }

  // ----- string_hash_func

  method StringHashFunc(p: CString, state: Siphash)
    requires state.Valid() && |p| + 1 < TWO_64
    modifies state
    ensures state.Valid() && state.key == old(state.key) && state.fed == old(state.fed) + p + [0]
  {
    hide AbsorbWords, LittleEndian, Initial, Tail;
    assert old(state.fed) + (p + [0]) == old(state.fed) + p + [0];
    state.Compress(p + [0]);
  }

  /** strcmp, of which C fixes only the sign. */
  function Strcmp(a: CString, b: CString): int {
    CompareNames(a, b)
  }

  // ----- the callbacks of a hashmap

  /** path_hash_ops over a memory that holds the string at every address. */
  function PathHashOps(memory: Ptr -> CString): Ops {
    Ops((seed: Seed, p: Ptr) => SipHash24(seed, Canonical(memory(p))) as nat, (a: Ptr, b: Ptr) => ComparePaths(memory(a), memory(b)))
  }

  function StringHashOps(memory: Ptr -> CString): Ops {
    Ops((seed: Seed, p: Ptr) => SipHash24(seed, memory(p) + [0]) as nat, (a: Ptr, b: Ptr) => Strcmp(memory(a), memory(b)))
  }

  /** The part of bucket_hash before the remainder is taken, with path_hash_func as the callback. */
  method PathHash(memory: Ptr -> CString, key: Seed, p: Ptr) returns (hash: nat)
    requires |memory(p)| < TWO_64
    ensures hash == PathHashOps(memory).hash(key, p)
  {
    hide SipHash24, AbsorbWords, LittleEndian, Canonical;
    var state := new Siphash(key);
    PathHashFunc(memory(p), state);
    assert [] + Canonical(memory(p)) == Canonical(memory(p));
    var h := state.Finalize();
    hash := h as nat;
  }

  /** The part of bucket_hash before the remainder is taken, with string_hash_func as the callback. */
  method StringHash(memory: Ptr -> CString, key: Seed, p: Ptr) returns (hash: nat)
    requires |memory(p)| + 1 < TWO_64
    ensures hash == StringHashOps(memory).hash(key, p)
  {
    hide SipHash24, AbsorbWords, LittleEndian;
    var state := new Siphash(key);
    StringHashFunc(memory(p), state);
    assert [] + memory(p) + [0] == memory(p) + [0];
    var h := state.Finalize();
    hash := h as nat;
  }

  /** Paths may be the keys of a hashmap: equal ones hash equally under every hash key. */
  lemma PathHashOpsLawful(memory: Ptr -> CString)
    ensures PathHashOps(memory).Lawful()
  {
    hide SipHash24, Canonical, ComparePaths;
    var o := PathHashOps(memory);
    forall a: Ptr, b: Ptr ensures o.Same(a, b) <==> Canonical(memory(a)) == Canonical(memory(b)) {
      SameBytesWhenEqual(memory(a), memory(b));
    }
  }

  lemma StringHashOpsLawful(memory: Ptr -> CString)
    ensures StringHashOps(memory).Lawful()
  {
    hide SipHash24, CompareNames;
    var o := StringHashOps(memory);
    forall a: Ptr, b: Ptr ensures o.Same(a, b) <==> memory(a) == memory(b) {
      CompareNamesOrder(memory(a), memory(b));
    }
  }
}
