/**
 The storage of a table as a value: buckets, DIB bytes, the two swap slots and
 the ends of the insertion-order list. The in-place methods of HashmapBase are
 proved equal to the functions of this module.
 */
module Table {
  import opened HashOps
  import opened Ring

  const UINT_MAX: nat := 0xFFFF_FFFF

  /** Indices at and above IDX_SWAP_BEGIN do not denote buckets. */
  const IDX_SWAP_BEGIN: nat := UINT_MAX - 3
  const IDX_PUT: nat := IDX_SWAP_BEGIN
  const IDX_TMP: nat := IDX_SWAP_BEGIN + 1
  const IDX_FIRST: nat := UINT_MAX - 1
  const IDX_NIL: nat := UINT_MAX

  const DIB_RAW_OVERFLOW: nat := 0xfd
  const DIB_RAW_REHASH: nat := 0xfe
  const DIB_RAW_FREE: nat := 0xff
  const DIB_FREE: nat := UINT_MAX

  datatype Entry = Entry(key: Ptr, value: Ptr, next: nat, prev: nat) {
    function Stored(): Pair { Pair(key, value) }
  }

  const ZERO_ENTRY: Entry := Entry(NULL, NULL, 0, 0)

  datatype Pair = Pair(key: Ptr, value: Ptr)

  /**
   A table of n buckets. `entries` covers the buckets and the two swap slots,
   which bucket_at_virtual addresses alike.
   */
  datatype Table = Table(n: nat, entries: map<nat, Entry>, dibs: seq<nat>, head: nat, tail: nat) {

    predicate Has(idx: nat) {
      idx < n || idx == IDX_PUT || idx == IDX_TMP
    }

    ghost predicate Sized() {
      && 0 < n == |dibs| <= IDX_SWAP_BEGIN
      && forall idx: nat :: Has(idx) <==> idx in entries
    }

    /** idx denotes a bucket, or a swap slot if those are in use. */
    predicate Reaches(swap: bool, idx: nat) {
      idx < n || (swap && (idx == IDX_PUT || idx == IDX_TMP))
    }

    /** The links of the entry at idx lead to places that exist. */
    predicate LinksInside(swap: bool, idx: nat)
      requires idx in entries
    {
      && (entries[idx].next == IDX_NIL || Reaches(swap, entries[idx].next))
      && (entries[idx].prev == IDX_NIL || Reaches(swap, entries[idx].prev))
    }

    /** bucket_move_entry: copies an entry and, in an ordered table, redirects its neighbours and the list ends. */
    function Move(ordered: bool, from: nat, to: nat): (u: Table)
      requires from in entries && to in entries
      ensures u.entries.Keys == entries.Keys && u.n == n && u.dibs == dibs
    {
      this.(entries := MoveEntry(entries, ordered, from, to),
            head := if ordered then Renamed(head, from, to) else head,
            tail := if ordered then Renamed(tail, from, to) else tail)
    }

    /** bucket_set_dib: the displacement byte saturates. */
    function SetDib(idx: nat, dib: nat): Table
      requires idx < |dibs|
    {
      this.(dibs := dibs[idx := RawDib(dib)])
    }
  }

  /** Sets the previous link of the entry at idx, if there is one. */
  function WithPrev(m: map<nat, Entry>, idx: nat, prev: nat): map<nat, Entry> {
    if idx in m then m[idx := m[idx].(prev := prev)] else m
  }

  function WithNext(m: map<nat, Entry>, idx: nat, next: nat): map<nat, Entry> {
    if idx in m then m[idx := m[idx].(next := next)] else m
  }

  function MoveEntry(m: map<nat, Entry>, ordered: bool, from: nat, to: nat): (r: map<nat, Entry>)
    requires from in m && to in m
    ensures r.Keys == m.Keys
  {
    var m1 := m[to := m[from]];
    if !ordered then m1 else
      var m2 := WithPrev(m1, m1[to].next, to);
      WithNext(m2, m2[to].prev, to)
  }

  function RawDib(dib: nat): nat {
    if dib == DIB_FREE then DIB_RAW_FREE else if dib < DIB_RAW_OVERFLOW then dib else DIB_RAW_OVERFLOW
  }

  ghost function Below(n: nat): (s: set<nat>)
    ensures forall i: nat :: i in s <==> i < n
  {
    if n == 0 then {} else Below(n - 1) + {n - 1}
  }

  /** The buckets of a table of size n and the two swap slots. */
  ghost function Indices(n: nat): (s: set<nat>)
    ensures forall i: nat :: i in s <==> i < n || i == IDX_PUT || i == IDX_TMP
  {
    Below(n) + {IDX_PUT, IDX_TMP}
  }

  // ----- the insertion-order list

  ghost predicate Distinct<T>(s: seq<T>) {
    forall i, j :: 0 <= i < j < |s| ==> s[i] != s[j]
  }

  /** The index an entry at `idx` has after the move from -> to. */
  function Renamed(idx: nat, from: nat, to: nat): nat {
    if idx == from then to else idx
  }

  /** The places of `order` after the move from -> to. */
  function Rename(order: seq<nat>, from: nat, to: nat): (r: seq<nat>)
    ensures |r| == |order|
    ensures forall k :: 0 <= k < |order| ==> r[k] == Renamed(order[k], from, to)
  {
    seq(|order|, k requires 0 <= k < |order| => Renamed(order[k], from, to))
  }

  function Successor(order: seq<nat>, k: nat): nat
    requires k < |order|
  {
    if k + 1 < |order| then order[k + 1] else IDX_NIL
  }

  function Predecessor(order: seq<nat>, k: nat): nat
    requires k < |order|
  {
    if k > 0 then order[k - 1] else IDX_NIL
  }

  /** `order` lists, oldest first, every place that holds an entry. */
  ghost predicate Places(t: Table, order: seq<nat>) {
    Distinct(order) && forall k :: 0 <= k < |order| ==> order[k] in t.entries
  }

  ghost predicate LinkedAt(t: Table, order: seq<nat>, k: nat)
    requires k < |order| && order[k] in t.entries
  {
    t.entries[order[k]].next == Successor(order, k) && t.entries[order[k]].prev == Predecessor(order, k)
  }

  /** The links thread the places of `order` into one doubly linked list. */
  ghost predicate Linked(t: Table, order: seq<nat>)
    requires Places(t, order)
  {
    && t.head == (if |order| > 0 then order[0] else IDX_NIL)
    && t.tail == (if |order| > 0 then order[|order| - 1] else IDX_NIL)
    && forall k {:trigger LinkedAt(t, order, k)} :: 0 <= k < |order| ==> LinkedAt(t, order, k)
  }

  /** The stored pairs, oldest first. */
  ghost function Contents(t: Table, order: seq<nat>): (c: seq<Pair>)
    requires Places(t, order)
    ensures |c| == |order|
    ensures forall k :: 0 <= k < |order| ==> c[k] == t.entries[order[k]].Stored()
  {
    seq(|order|, k requires 0 <= k < |order| => t.entries[order[k]].Stored())
  }

  lemma LinkedInside(t: Table, order: seq<nat>, k: nat)
    requires t.Sized() && Places(t, order) && Linked(t, order) && k < |order|
    ensures t.LinksInside(true, order[k])
    ensures var e := t.entries[order[k]];
            (e.next == IDX_NIL || e.next in order) && (e.prev == IDX_NIL || e.prev in order)
  {
    assert LinkedAt(t, order, k);
  }

  lemma LinkedInBuckets(t: Table, order: seq<nat>, idx: nat)
    requires t.Sized() && Places(t, order) && Linked(t, order) && idx in order
    requires IDX_PUT !in order && IDX_TMP !in order
    ensures t.LinksInside(false, idx)
  {
    var k :| 0 <= k < |order| && order[k] == idx;
    LinkedInside(t, order, k);
  }

  /** u is t after an entry was copied from one place to another: dibs and all other pairs are as before. */
  ghost predicate Copied(t: Table, u: Table, from: nat, to: nat) {
    && from in t.entries && to in t.entries
    && u.n == t.n && u.dibs == t.dibs && u.entries.Keys == t.entries.Keys
    && u.entries[to].Stored() == t.entries[from].Stored()
    && forall i :: i in t.entries && i != to ==> u.entries[i].Stored() == t.entries[i].Stored()
  }

  /** The links a move leaves behind: the copy has those of the original, its two neighbours lead to the copy. */
  ghost predicate Relinked(t: Table, u: Table, from: nat, to: nat)
    requires from in t.entries && to in t.entries && u.entries.Keys == t.entries.Keys
  {
    var e := t.entries[from];
    && u.entries[to].next == e.next && u.entries[to].prev == e.prev
    && (forall i :: i in t.entries && i != to ==>
        && u.entries[i].next == (if i == e.prev then to else t.entries[i].next)
        && u.entries[i].prev == (if i == e.next then to else t.entries[i].prev))
    && u.head == Renamed(t.head, from, to) && u.tail == Renamed(t.tail, from, to)
  }

  lemma MoveCopies(t: Table, ordered: bool, from: nat, to: nat)
    requires t.Sized() && from in t.entries && to in t.entries
    ensures Copied(t, t.Move(ordered, from, to), from, to)
  {
  }

  lemma MoveRelinks(t: Table, from: nat, to: nat)
    requires t.Sized() && from in t.entries && to in t.entries && t.LinksInside(true, from)
    requires t.entries[from].next != to && t.entries[from].prev != to
    ensures Relinked(t, t.Move(true, from, to), from, to)
  {
  }

  lemma RenamePlaces(t: Table, u: Table, order: seq<nat>, from: nat, to: nat)
    requires Places(t, order) && from in order && to !in order && Copied(t, u, from, to)
    ensures var o := Rename(order, from, to);
            && Places(u, o) && Contents(u, o) == Contents(t, order)
            && to in o && from !in o
            && forall i :: i != from && i != to ==> (i in o <==> i in order)
  {
    var o := Rename(order, from, to);
    var f :| 0 <= f < |order| && order[f] == from;
    assert o[f] == to;
    forall i | i != from && i != to ensures i in o <==> i in order {
      if i in order {
        var k :| 0 <= k < |order| && order[k] == i;
        assert o[k] == i;
      }
    }
    assert Places(u, o);
    forall k | 0 <= k < |o| ensures Contents(u, o)[k] == Contents(t, order)[k] {
    }
  }

  lemma RenameLinks(t: Table, u: Table, order: seq<nat>, f: nat, to: nat)
    requires t.Sized() && Places(t, order) && Linked(t, order)
    requires f < |order| && to !in order && Copied(t, u, order[f], to) && Relinked(t, u, order[f], to)
    requires Places(u, Rename(order, order[f], to))
    ensures Linked(u, Rename(order, order[f], to))
  {
    var o := Rename(order, order[f], to);
    forall k | 0 <= k < |o|
      ensures LinkedAt(u, o, k)
    {
      RenameLinksAt(t, u, order, f, to, k);
    }
  }

  lemma RenameLinksAt(t: Table, u: Table, order: seq<nat>, f: nat, to: nat, k: nat)
    requires t.Sized() && Places(t, order) && Linked(t, order)
    requires f < |order| && k < |order| && to !in order && Copied(t, u, order[f], to) && Relinked(t, u, order[f], to)
    ensures var o := Rename(order, order[f], to);
            o[k] in u.entries && LinkedAt(u, o, k)
  {
    var e := t.entries[order[f]];
    assert LinkedAt(t, order, f) && LinkedAt(t, order, k);
    assert order[k] == e.prev <==> k + 1 == f;
    assert order[k] == e.next <==> k == f + 1;
  }

  /** A move to a place outside the list renames one place of the list and changes nothing else. */
  lemma MoveKeepsList(t: Table, ordered: bool, order: seq<nat>, from: nat, to: nat)
    requires t.Sized() && Places(t, order) && (ordered ==> Linked(t, order))
    requires from in order && to in t.entries && to !in order
    ensures ordered ==> t.LinksInside(true, from)
    ensures var u, o := t.Move(ordered, from, to), Rename(order, from, to);
            && u.Sized() && Copied(t, u, from, to)
            && Places(u, o) && (ordered ==> Linked(u, o))
            && Contents(u, o) == Contents(t, order)
            && to in o && from !in o
            && forall i :: i != from && i != to ==> (i in o <==> i in order)
  {
    var f :| 0 <= f < |order| && order[f] == from;
    if ordered {
      LinkedInside(t, order, f);
      assert LinkedAt(t, order, f);
    }
    var u := t.Move(ordered, from, to);
    MoveCopies(t, ordered, from, to);
    RenamePlaces(t, u, order, from, to);
    if ordered {
      MoveRelinks(t, from, to);
      RenameLinks(t, u, order, f, to);
    }
  }
}
