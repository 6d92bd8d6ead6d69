/**
 Backward-shift removal: unlinking an entry opens a hole, shifting its
 successors one bucket back moves the hole on, and the hole is closed in front
 of the first bucket that is free or holds an entry in its own bucket.
 */
module Removal {
  import opened HashOps
  import opened Ring
  import opened Table
  import opened RobinHood

  // ----- the list

  /** base_remove_entry: the neighbours of the entry at idx, or the ends of the list, bypass it. */
  function Unlink(t: Table, ordered: bool, idx: nat): (u: Table)
    requires idx in t.entries
    ensures u.n == t.n && u.dibs == t.dibs && u.entries.Keys == t.entries.Keys
  {
    if !ordered then t else
      var e := t.entries[idx];
      t.(entries := WithNext(WithPrev(t.entries, e.next, e.prev), e.prev, e.next),
         tail := if e.next == IDX_NIL then e.prev else t.tail,
         head := if e.prev == IDX_NIL then e.next else t.head)
  }

  function Without<T>(s: seq<T>, k: nat): (r: seq<T>)
    requires k < |s|
    ensures |r| == |s| - 1
    ensures forall j :: 0 <= j < |r| ==> r[j] == s[if j < k then j else j + 1]
  {
    s[..k] + s[k + 1..]
  }

  /** The links of u are those of t, except that the neighbours of the entry at idx bypass it. */
  ghost predicate Bypassed(t: Table, u: Table, idx: nat)
    requires idx in t.entries && u.entries.Keys == t.entries.Keys
  {
    var e := t.entries[idx];
    && (forall i :: i in t.entries ==>
        && u.entries[i].next == (if i == e.prev then e.next else t.entries[i].next)
        && u.entries[i].prev == (if i == e.next then e.prev else t.entries[i].prev))
    && u.tail == (if e.next == IDX_NIL then e.prev else t.tail)
    && u.head == (if e.prev == IDX_NIL then e.next else t.head)
  }

  lemma UnlinkBypasses(t: Table, idx: nat)
    requires t.Sized() && idx in t.entries
    ensures Bypassed(t, Unlink(t, true, idx), idx)
  {
  }

  lemma UnlinkKeepsPairs(t: Table, ordered: bool, idx: nat)
    requires t.Sized() && idx in t.entries
    ensures var u := Unlink(t, ordered, idx);
            u.Sized() && forall i :: i in t.entries ==> u.entries[i].Stored() == t.entries[i].Stored()
  {
  }

  lemma BypassLinks(t: Table, u: Table, order: seq<nat>, k: nat)
    requires t.Sized() && Places(t, order) && Linked(t, order) && k < |order|
    requires u.entries.Keys == t.entries.Keys && Bypassed(t, u, order[k])
    requires Places(u, Without(order, k))
    ensures Linked(u, Without(order, k))
  {
    var o := Without(order, k);
    assert LinkedAt(t, order, k);
    forall j | 0 <= j < |o| ensures LinkedAt(u, o, j) {
      BypassLinksAt(t, u, order, k, j);
    }
    if |o| > 0 {
      assert LinkedAt(t, order, 0) && LinkedAt(t, order, |order| - 1);
    }
  }

  lemma BypassLinksAt(t: Table, u: Table, order: seq<nat>, k: nat, j: nat)
    requires t.Sized() && Places(t, order) && Linked(t, order) && k < |order| && j < |order| - 1
    requires u.entries.Keys == t.entries.Keys && Bypassed(t, u, order[k])
    ensures Without(order, k)[j] in u.entries && LinkedAt(u, Without(order, k), j)
  {
    var o := Without(order, k);
    var i := if j < k then j else j + 1;
    var e := t.entries[order[k]];
    assert LinkedAt(t, order, k) && LinkedAt(t, order, i);
    assert order[i] == e.prev <==> i + 1 == k;
    assert order[i] == e.next <==> i == k + 1;
  }

  lemma UnlinkKeepsList(t: Table, ordered: bool, order: seq<nat>, k: nat)
    requires t.Sized() && Places(t, order) && (ordered ==> Linked(t, order)) && k < |order|
    ensures var u, o := Unlink(t, ordered, order[k]), Without(order, k);
            && Places(u, o) && (ordered ==> Linked(u, o))
            && Contents(u, o) == Without(Contents(t, order), k)
            && forall i :: i in o <==> i in order && i != order[k]
  {
    var idx := order[k];
    var u, o := Unlink(t, ordered, idx), Without(order, k);
    UnlinkKeepsPairs(t, ordered, idx);
    forall i ensures i in o <==> i in order && i != idx {
      if i in order && i != idx {
        var j :| 0 <= j < |order| && order[j] == i;
        assert o[if j < k then j else j - 1] == i;
      }
    }
    assert Places(u, o);
    if ordered {
      UnlinkBypasses(t, idx);
      BypassLinks(t, u, order, k);
    }
    assert Contents(u, o) == Without(Contents(t, order), k);
  }

  // ----- the hole

  /** The profile of a table whose bucket `hole` still has the DIB byte of an entry that is gone. */
  ghost function HoledProfile(c: Config, t: Table, hole: nat): (d: seq<int>)
    requires t.Sized() && hole < t.n
    ensures |d| == t.n
  {
    Profile(c, t)[hole := -1]
  }

  /** The invariant in the middle of a removal. `d` was the displacement of the entry that left the hole. */
  ghost predicate Holed(c: Config, t: Table, order: seq<nat>, hole: nat, d: nat) {
    && t.Sized() && hole < t.n && Settled(t, hole)
    && Places(t, order) && hole !in order && IDX_PUT !in order && IDX_TMP !in order
    && (c.ordered ==> Linked(t, order))
    && (forall idx {:trigger BucketOk(c, t, order, idx)} :: 0 <= idx < t.n && idx != hole ==> BucketOk(c, t, order, idx))
    && IsHoledRing(HoledProfile(c, t, hole), hole, d)
  }

  lemma OpenHoleAt(c: Config, t: Table, order: seq<nat>, k: nat)
    requires Core(c, t, order) && k < |order| && IDX_PUT !in order
    requires order[k] < t.n && Settled(t, order[k])
    ensures var u, o := Unlink(t, c.ordered, order[k]), Without(order, k);
            && Holed(c, u, o, order[k], Displacement(c, t, order[k]))
            && Profile(c, u) == Profile(c, t)
            && Contents(u, o) == Without(Contents(t, order), k)
  {
    var idx := order[k];
    var u, o := Unlink(t, c.ordered, idx), Without(order, k);
    UnlinkKeepsList(t, c.ordered, order, k);
    UnlinkKeepsPairs(t, c.ordered, idx);
    forall i | 0 <= i < t.n
      ensures i != idx ==> BucketOk(c, u, o, i)
      ensures Displacement(c, u, i) == Displacement(c, t, i)
    {
      assert BucketOk(c, t, order, i);
      assert u.entries[i].Stored() == t.entries[i].Stored();
    }
    assert Profile(c, u) == Profile(c, t);
    OpenHole(Profile(c, t), idx);
  }

  lemma RemovalReady(c: Config, t: Table, order: seq<nat>, k: nat)
    requires Core(c, t, order) && IDX_PUT !in order && k < |order|
    requires order[k] < t.n && t.dibs[order[k]] != DIB_RAW_REHASH
    ensures t.Sized() && Places(t, order) && t.Reaches(false, order[k])
    ensures Settled(t, order[k]) && Displacement(c, t, order[k]) >= 0
    ensures c.ordered ==> t.LinksInside(false, order[k])
  {
    assert BucketOk(c, t, order, order[k]);
    if c.ordered {
      LinkedInBuckets(t, order, order[k]);
    }
  }

  /** One step of the shift: the entry after the hole moves into it. */
  function ShiftBack(t: Table, ordered: bool, left: nat, prev: nat, dib: nat): Table
    requires left in t.entries && prev in t.entries && prev < |t.dibs|
  {
    t.Move(ordered, left, prev).SetDib(prev, dib)
  }

  lemma ShiftBuckets(c: Config, t: Table, u: Table, order: seq<nat>, o: seq<nat>, hole: nat, d: nat)
    requires Holed(c, t, order, hole, d)
    requires var left := Next(t.n, hole); left != hole && Displacement(c, t, left) >= 1
    requires u.Sized() && u.n == t.n && u.dibs == t.dibs[hole := RawDib(Displacement(c, t, Next(t.n, hole)) - 1)]
    requires u.entries[hole].Stored() == t.entries[Next(t.n, hole)].Stored()
    requires forall i :: i in t.entries && i != hole ==> u.entries[i].Stored() == t.entries[i].Stored()
    requires hole in o && forall i :: i != hole && i != Next(t.n, hole) ==> (i in o <==> i in order)
    ensures var left := Next(t.n, hole);
            && (forall i :: 0 <= i < t.n && i != left ==> BucketOk(c, u, o, i))
            && HoledProfile(c, u, left) == HoledProfile(c, t, hole)[hole := Displacement(c, t, left) - 1][left := -1]
  {
    hide Linked, Places, IsHoledRing;
    var left := Next(t.n, hole);
    var dib := Displacement(c, t, left);
    forall i | 0 <= i < t.n && i != left
      ensures BucketOk(c, u, o, i)
      ensures Displacement(c, u, i) == if i == hole then dib - 1 else Displacement(c, t, i)
    {
      assert i != hole ==> BucketOk(c, t, order, i);
    }
    assert HoledProfile(c, u, left) == HoledProfile(c, t, hole)[hole := dib - 1][left := -1];
  }

  lemma ShiftKeepsList(t: Table, ordered: bool, order: seq<nat>, left: nat, prev: nat, dib: nat)
    requires t.Sized() && Places(t, order) && (ordered ==> Linked(t, order))
    requires left < t.n && prev < t.n && left in order && prev !in order
    ensures ordered ==> t.LinksInside(true, left)
    ensures var u, o := ShiftBack(t, ordered, left, prev, dib), Rename(order, left, prev);
            && u.Sized() && Copied(t, u.(dibs := t.dibs), left, prev)
            && Places(u, o) && (ordered ==> Linked(u, o)) && Contents(u, o) == Contents(t, order)
            && prev in o && left !in o
            && forall i :: i != left && i != prev ==> (i in o <==> i in order)
  {
    MoveKeepsList(t, ordered, order, left, prev);
    var t1 := t.Move(ordered, left, prev);
    ListIgnoresDibs(t1, t1.SetDib(prev, dib), ordered, Rename(order, left, prev));
  }

  lemma ShiftKeepsHoled(c: Config, t: Table, u: Table, order: seq<nat>, o: seq<nat>, hole: nat, d: nat, left: nat, dib: nat)
    requires Holed(c, t, order, hole, d)
    requires left == Next(t.n, hole) && left != hole && dib == Displacement(c, t, left) && dib >= 1
    requires u == ShiftBack(t, c.ordered, left, hole, dib - 1) && o == Rename(order, left, hole)
    ensures left in order
    ensures Holed(c, u, o, left, dib)
    ensures HoledProfile(c, u, left) == HoledProfile(c, t, hole)[hole := dib - 1][left := -1]
    ensures dib - 1 <= d
  {
    hide Linked, IsHoledRing;
    assert BucketOk(c, t, order, left);
    hide BucketOk;
    ShiftKeepsList(t, c.ordered, order, left, hole, dib - 1);
    ShiftBuckets(c, t, u, order, o, hole, d);
    ShiftHole(HoledProfile(c, t, hole), hole, d);
  }

  /** bucket_mark_free */
  function MarkFree(t: Table, idx: nat): Table
    requires idx < |t.dibs|
  {
    t.(entries := t.entries[idx := ZERO_ENTRY]).SetDib(idx, DIB_FREE)
  }

  lemma CloseHoleAt(c: Config, t: Table, order: seq<nat>, hole: nat, d: nat)
    requires Holed(c, t, order, hole, d)
    requires HoledProfile(c, t, hole)[Next(t.n, hole)] <= 0
    ensures var u := MarkFree(t, hole);
            && Core(c, u, order)
            && Contents(u, order) == Contents(t, order)
            && Profile(c, u) == HoledProfile(c, t, hole)
  {
    var u := MarkFree(t, hole);
    forall i | 0 <= i < t.n
      ensures BucketOk(c, u, order, i)
      ensures Displacement(c, u, i) == if i == hole then -1 else Displacement(c, t, i)
    {
      assert i != hole ==> BucketOk(c, t, order, i);
    }
    assert Profile(c, u) == HoledProfile(c, t, hole);
    CloseHole(HoledProfile(c, t, hole), hole, d);
    if c.ordered {
      forall k | 0 <= k < |order| ensures LinkedAt(u, order, k) {
        assert LinkedAt(t, order, k);
      }
    }
    assert Contents(u, order) == Contents(t, order);
  }

  // ----- where the entries go

  /** The place of an entry after the first r buckets from `base` on have each been shifted one bucket back. */
  function ShiftedPlace(n: nat, base: nat, r: nat, place: nat): nat
    requires base < n
  {
    if place < n && Distance(n, place, base) < r then Prev(n, place) else place
  }

  function Shifted(n: nat, base: nat, r: nat, order: seq<nat>): (o: seq<nat>)
    requires base < n
    ensures |o| == |order|
    ensures forall k :: 0 <= k < |o| ==> o[k] == ShiftedPlace(n, base, r, order[k])
  {
    seq(|order|, k requires 0 <= k < |order| => ShiftedPlace(n, base, r, order[k]))
  }

  lemma ShiftOneMore(n: nat, base: nat, r: nat, order: seq<nat>)
    requires base < n && r + 1 < n
    requires Prev(n, base) !in order
    ensures var left := Ahead(n, base, r);
            Rename(Shifted(n, base, r, order), left, Prev(n, left)) == Shifted(n, base, r + 1, order)
  {
    var left := Ahead(n, base, r);
    var a, b := Rename(Shifted(n, base, r, order), left, Prev(n, left)), Shifted(n, base, r + 1, order);
    forall k | 0 <= k < |order| ensures a[k] == b[k] {
    }
  }

  /**
   The displacements in the middle of a shift that has handled r buckets from `base` on, out of p:
   those still to handle are positive, and the stop bucket lies p steps after `base`.
   */
  ghost predicate StopsAt(profile: seq<int>, base: nat, r: nat, p: nat, d: nat) {
    && base < |profile| && r <= p < |profile|
    && (forall q {:trigger Ahead(|profile|, base, q)} :: r <= q < p ==> profile[Ahead(|profile|, base, q)] >= 1)
    && profile[Ahead(|profile|, base, p)] <= 0
    && (Prev(|profile|, Ahead(|profile|, base, r)) == Ahead(|profile|, base, p) ==> d == 0)
  }

  lemma StopsAtStep(profile: seq<int>, base: nat, r: nat, p: nat, d: nat, left: nat, hole: nat)
    requires StopsAt(profile, base, r, p, d) && r < p
    requires left == Ahead(|profile|, base, r) && hole == Prev(|profile|, left)
    requires profile[left] - 1 <= d
    ensures profile[left] >= 1 && left != hole && Next(|profile|, left) == Ahead(|profile|, base, r + 1)
    ensures StopsAt(profile[hole := profile[left] - 1][left := -1], base, r + 1, p, profile[left])
  {
    var e := profile[hole := profile[left] - 1][left := -1];
    forall q {:trigger Ahead(|e|, base, q)} | r + 1 <= q < p ensures e[Ahead(|e|, base, q)] >= 1 {
      assert profile[Ahead(|profile|, base, q)] >= 1;
    }
  }

  /**
   The shift of base_remove_entry, in the middle. t0 and o0 are the storage and
   the list after the removed entry was unlinked. The hole is in front of the bucket to handle next.
   */
  ghost predicate Shifting(c: Config, t0: Table, o0: seq<nat>, t: Table, order: seq<nat>, base: nat, r: nat, p: nat, d: nat) {
    && t.Sized() && base < t.n && r <= p < t.n
    && Places(t0, o0) && Prev(t.n, base) !in o0
    && order == Shifted(t.n, base, r, o0)
    && Holed(c, t, order, Prev(t.n, Ahead(t.n, base, r)), d)
    && StopsAt(HoledProfile(c, t, Prev(t.n, Ahead(t.n, base, r))), base, r, p, d)
    && Contents(t, order) == Contents(t0, o0)
    && |t0.dibs| == t.n && (forall i :: 0 <= i < t.n ==> SameClass(t0.dibs[i], t.dibs[i]))
  }

  /** A scan for the stop bucket that has passed p buckets from `base` on. */
  ghost predicate Passed(c: Config, t: Table, base: nat, p: nat)
    requires t.Sized() && base < t.n && p <= t.n
  {
    forall q {:trigger Ahead(t.n, base, q)} :: 0 <= q < p ==> Displacement(c, t, Ahead(t.n, base, q)) >= 1
  }

  // ----- the search for the stop bucket

  lemma StartPassing(c: Config, t: Table, base: nat, stop: nat)
    requires t.Sized() && base < t.n && stop < t.n
    ensures Passed(c, t, base, 0) && Ahead(t.n, base, 0) == base
  {
  }

  /** A DIB byte tells whether the search ends, and if not, there is a bucket to go on to. */
  lemma PassOrStop(c: Config, t: Table, order: seq<nat>, idx: nat, p: nat, stop: nat)
    requires Core(c, t, order) && NonePending(t) && idx < t.n && stop < t.n && Displacement(c, t, stop) <= 0
    requires p <= Distance(t.n, stop, Next(t.n, idx)) && Passed(c, t, Next(t.n, idx), p)
    ensures var base := Next(t.n, idx);
            var right := Ahead(t.n, base, p);
            && p < t.n && (right == idx <==> p == t.n - 1)
            && (t.dibs[right] == 0 || t.dibs[right] == DIB_RAW_FREE ==> Displacement(c, t, right) <= 0)
            && (t.dibs[right] != 0 && t.dibs[right] != DIB_RAW_FREE ==>
                right != idx && Passed(c, t, base, p + 1) && p + 1 <= Distance(t.n, stop, base) && Next(t.n, right) == Ahead(t.n, base, p + 1))
  {
    var right := Ahead(t.n, Next(t.n, idx), p);
    assert BucketOk(c, t, order, right);
  }

  // ----- the shift

  lemma StartShifting(c: Config, t: Table, u: Table, order: seq<nat>, o: seq<nat>, k: nat, base: nat, p: nat)
    requires Core(c, t, order) && k < |order| && IDX_PUT !in order && p < t.n
    requires order[k] < t.n && Settled(t, order[k]) && base == Next(t.n, order[k])
    requires Passed(c, t, base, p) && Displacement(c, t, Ahead(t.n, base, p)) <= 0
    requires u == Unlink(t, c.ordered, order[k]) && o == Without(order, k)
    ensures u.n == t.n && Places(u, o)
    ensures Shifting(c, u, o, u, o, base, 0, p, Displacement(c, t, order[k]))
    ensures Contents(u, o) == Without(Contents(t, order), k)
  {
    OpenHoleAt(c, t, order, k);
    assert Ahead(t.n, base, 0) == base && Prev(t.n, base) == order[k];
    assert Shifted(t.n, base, 0, o) == o;
    var profile := HoledProfile(c, u, order[k]);
    forall q {:trigger Ahead(t.n, base, q)} | 0 <= q < p ensures profile[Ahead(t.n, base, q)] >= 1 {
      assert Ahead(t.n, base, q) != order[k];
    }
  }

  /** The entry to shift next is there, can be moved, and is not in its own bucket (the assertion `dib != 0`). */
  lemma ShiftReady(c: Config, t0: Table, o0: seq<nat>, t: Table, order: seq<nat>, base: nat, r: nat, p: nat, d: nat)
    requires Shifting(c, t0, o0, t, order, base, r, p, d) && r < p
    ensures var left := Ahead(t.n, base, r);
            && left in order && left != Prev(t.n, left) && Next(t.n, left) == Ahead(t.n, base, r + 1)
            && DibOk(c, t, left) && Displacement(c, t, left) >= 1
            && t.Reaches(false, left) && t.Reaches(false, Prev(t.n, left))
            && (c.ordered ==> t.LinksInside(false, left))
  {
    var left := Ahead(t.n, base, r);
    assert HoledProfile(c, t, Prev(t.n, left))[left] >= 1;
    assert BucketOk(c, t, order, left);
    if c.ordered {
      LinkedInBuckets(t, order, left);
    }
  }

  lemma ShiftAdvances(c: Config, t0: Table, o0: seq<nat>, t: Table, u: Table, order: seq<nat>, o: seq<nat>, base: nat, r: nat, p: nat, d: nat, left: nat, dib: nat)
    requires Shifting(c, t0, o0, t, order, base, r, p, d) && r < p && left == Ahead(t.n, base, r)
    requires var prev := Prev(t.n, left);
             && dib == Displacement(c, t, left) && 1 <= dib && dib - 1 <= d
             && left != prev && Next(t.n, left) == Ahead(t.n, base, r + 1)
             && u.Sized() && u.n == t.n && u.dibs == t.dibs[prev := RawDib(dib - 1)]
             && o == Rename(order, left, prev) && Places(u, o) && Contents(u, o) == Contents(t, order)
             && Holed(c, u, o, left, dib)
             && HoledProfile(c, u, left) == HoledProfile(c, t, prev)[prev := dib - 1][left := -1]
    ensures Shifting(c, t0, o0, u, o, base, r + 1, p, dib)
  {
    hide BucketOk, Linked, Places, IsHoledRing;
    var prev := Prev(t.n, left);
    ShiftOneMore(t.n, base, r, o0);
    StopsAtStep(HoledProfile(c, t, prev), base, r, p, d, left, prev);
    assert Prev(t.n, Ahead(t.n, base, r + 1)) == left;
  }

  lemma ShiftStep(c: Config, t0: Table, o0: seq<nat>, t: Table, u: Table, order: seq<nat>, o: seq<nat>, base: nat, r: nat, p: nat, d: nat, left: nat, prev: nat)
    requires Shifting(c, t0, o0, t, order, base, r, p, d) && r < p
    requires left == Ahead(t.n, base, r) && prev == Prev(t.n, left) && Displacement(c, t, left) >= 1
    requires u == ShiftBack(t, c.ordered, left, prev, Displacement(c, t, left) - 1) && o == Rename(order, left, prev)
    ensures Shifting(c, t0, o0, u, o, base, r + 1, p, Displacement(c, t, left))
  {
    hide BucketOk, Linked, Places, IsHoledRing, Displacement, Shifted, HoledProfile, StopsAt;
    var dib := Displacement(c, t, left);
    ShiftReady(c, t0, o0, t, order, base, r, p, d);
    ShiftKeepsHoled(c, t, u, order, o, prev, d, left, dib);
    ShiftKeepsList(t, c.ordered, order, left, prev, dib - 1);
    ShiftAdvances(c, t0, o0, t, u, order, o, base, r, p, d, left, dib);
  }

  /** What a removal has done: the entry is gone, the p entries before the first stop bucket are one bucket further back. */
  ghost predicate Removed(c: Config, t: Table, order: seq<nat>, u: Table, o: seq<nat>, k: nat, p: nat) {
    && Places(t, order) && k < |order| && t.Sized() && order[k] < t.n && p < t.n
    && Passed(c, t, Next(t.n, order[k]), p) && Displacement(c, t, Ahead(t.n, Next(t.n, order[k]), p)) <= 0
    && Core(c, u, o) && IDX_PUT !in o && u.n == t.n
    && Contents(u, o) == Without(Contents(t, order), k)
    && o == Shifted(t.n, Next(t.n, order[k]), p, Without(order, k))
    && (forall i :: 0 <= i < t.n && u.dibs[i] != DIB_RAW_FREE ==> SameClass(t.dibs[i], u.dibs[i]))
    && exists f :: 0 <= f < u.n && u.dibs[f] == DIB_RAW_FREE
  }

  lemma EndShifting(c: Config, t: Table, order: seq<nat>, k: nat, t0: Table, o0: seq<nat>, t1: Table, o: seq<nat>, base: nat, p: nat, d: nat)
    requires Places(t, order) && k < |order| && order[k] < t.n && t.Sized()
    requires base == Next(t.n, order[k]) && p < t.n && Passed(c, t, base, p) && Displacement(c, t, Ahead(t.n, base, p)) <= 0
    requires t0 == Unlink(t, c.ordered, order[k]) && o0 == Without(order, k) && Places(t0, o0)
    requires Contents(t0, o0) == Without(Contents(t, order), k)
    requires t1.n == t.n && Shifting(c, t0, o0, t1, o, base, p, p, d)
    ensures Removed(c, t, order, MarkFree(t1, Prev(t.n, Ahead(t.n, base, p))), o, k, p)
  {
    var hole := Prev(t.n, Ahead(t.n, base, p));
    CloseHoleAt(c, t1, o, hole, d);
    assert MarkFree(t1, hole).dibs[hole] == DIB_RAW_FREE;
  }
}
