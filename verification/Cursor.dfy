/**
 Iteration positions, and why they survive the removal of the entry that was
 returned last: a backward shift moves the next entry by at most one bucket,
 which its key gives away.
 */
module Cursor {
  import opened HashOps
  import opened Ring
  import opened Table
  import opened RobinHood
  import opened Removal
  import opened State

  // ----- ordered tables

  /** An iterator that will return the k-th oldest entry next. */
  ghost predicate OrderedCursor(t: Table, order: seq<nat>, idx: nat, nextKey: Ptr, k: nat) {
    if idx == IDX_FIRST then k == 0
    else if idx == IDX_NIL then k == |order|
    else
      && k < |order| && order[k] < t.n && order[k] in t.entries
      && idx < t.n && nextKey == t.entries[order[k]].key
      && (idx == order[k] || (Prev(t.n, idx) == order[k] && idx in t.entries && t.entries[idx].key != nextKey))
  }

  /** As the iterator leaves it: no shift has happened since. */
  ghost predicate ExactOrderedCursor(t: Table, order: seq<nat>, idx: nat, nextKey: Ptr, k: nat) {
    && OrderedCursor(t, order, idx, nextKey, k)
    && idx != IDX_FIRST && (idx != IDX_NIL ==> idx == order[k])
  }

  /** The iterator has returned bucket idx, that of the k-th oldest entry, or IDX_NIL behind the newest. */
  ghost predicate Visiting(t: Table, order: seq<nat>, idx: nat, cursor: nat, nextKey: Ptr, k: nat) {
    if k < |order| then idx == order[k] && idx < t.n && ExactOrderedCursor(t, order, cursor, nextKey, k + 1)
    else k == |order| && idx == IDX_NIL && cursor == IDX_NIL
  }

  lemma VisitingEnds(c: Config, t: Table, order: seq<nat>, idx: nat, cursor: nat, nextKey: Ptr, k: nat)
    requires Quiet(c, t, order) && Visiting(t, order, idx, cursor, nextKey, k)
    ensures k <= |order| && (idx == IDX_NIL <==> k == |order|)
    ensures idx != IDX_NIL ==> idx == order[k] && idx < t.n
  {
  }

  lemma StartOrdered(t: Table, order: seq<nat>, nextKey: Ptr)
    ensures OrderedCursor(t, order, IDX_FIRST, nextKey, 0)
  {
  }

  lemma ExactIsCursor(t: Table, order: seq<nat>, idx: nat, nextKey: Ptr, k: nat)
    requires ExactOrderedCursor(t, order, idx, nextKey, k)
    ensures OrderedCursor(t, order, idx, nextKey, k)
  {
  }

  /** Looking up the key of a stored pair finds that pair. */
  lemma FindsItself(c: Config, t: Table, order: seq<nat>, k: nat)
    requires c.ops.Lawful() && Quiet(c, t, order) && k < |order|
    ensures Lookup(c.ops, Contents(t, order), Contents(t, order)[k].key) == k
  {
    LookupIs(c.ops, Contents(t, order), Contents(t, order)[k].key, k);
  }

  lemma EmptyHead(c: Config, t: Table, order: seq<nat>)
    requires Quiet(c, t, order) && c.ordered
    ensures t.head == IDX_NIL <==> |order| == 0
    ensures |order| > 0 ==> t.head == order[0]
  {
    if |order| > 0 {
      InBucket(c, t, order, 0);
    }
  }

  lemma NextInBuckets(c: Config, t: Table, order: seq<nat>, k: nat)
    requires Quiet(c, t, order) && c.ordered && k < |order|
    ensures order[k] < t.n && t.entries[order[k]].next == Successor(order, k)
    ensures k + 1 < |order| ==> order[k + 1] < t.n
  {
    InBucket(c, t, order, k);
    assert LinkedAt(t, order, k);
    if k + 1 < |order| {
      InBucket(c, t, order, k + 1);
    }
  }

  /** The key of an entry tells in which bucket it is; but a NULL key is also what a free bucket shows. */
  lemma KeyLocates(c: Config, t: Table, order: seq<nat>, k: nat, idx: nat)
    requires c.ops.Lawful() && Quiet(c, t, order) && k < |order| && idx < t.n
    ensures order[k] < t.n
    ensures t.entries[idx].key == t.entries[order[k]].key <==>
            idx == order[k] || (t.dibs[idx] == DIB_RAW_FREE && t.entries[order[k]].key == NULL)
    ensures idx == order[k] ==> t.dibs[idx] != DIB_RAW_FREE
    ensures t.dibs[idx] == DIB_RAW_FREE ==> t.entries[idx].key == NULL
  {
    InBucket(c, t, order, k);
    var items := Contents(t, order);
    assert BucketOk(c, t, order, idx);
    assert c.ops.Same(items[k].key, items[k].key);
    if idx != order[k] && idx in order {
      var j :| 0 <= j < |order| && order[j] == idx;
      assert j != k;
    }
  }

  lemma WithoutAt(order: seq<nat>, k: nat, m: nat)
    requires k < |order| && m < |order| && m != k
    ensures Without(order, k)[if m < k then m else m - 1] == order[m]
  {
  }

  /** Where the entry of bucket lo is after the removal of the entry in bucket order[k]. */
  lemma NextAfterRemoval(c: Config, t: Table, order: seq<nat>, u: Table, o: seq<nat>, k: nat, p: nat, lo: nat) returns (j: nat)
    requires Quiet(c, t, order) && Removed(c, t, order, u, o, k, p)
    requires lo < t.n && lo != order[k] && t.dibs[lo] != DIB_RAW_FREE
    ensures j < |o| && o[j] == ShiftedPlace(t.n, Next(t.n, order[k]), p, lo) && o[j] < u.n
    ensures u.dibs[o[j]] != DIB_RAW_FREE && u.entries[o[j]].key == t.entries[lo].key
  {
    hide Linked, IsRing;
    assert BucketOk(c, t, order, lo);
    var m :| 0 <= m < |order| && order[m] == lo;
    j := if m < k then m else m - 1;
    WithoutAt(order, k, m);
    assert Contents(u, o)[j] == Contents(t, order)[m];
    assert BucketOk(c, u, o, o[j]);
  }

  /** The iterator takes a free bucket for the next entry. */
  predicate Misled(t: Table, idx: nat, nextKey: Ptr)
    requires t.Sized()
  {
    idx < t.n && t.dibs[idx] == DIB_RAW_FREE && t.entries[idx].key == nextKey
  }

  /** Bucket idx is the last of the p buckets that a removal shifts. */
  predicate LastShifted(n: nat, hole: nat, p: nat, idx: nat)
    requires hole < n && p <= n
  {
    p > 0 && idx == Ahead(n, Next(n, hole), p - 1)
  }

  /** Of the other buckets in use, a removal leaves just the last one free that it shifts. */
  lemma FreedBucket(c: Config, t: Table, order: seq<nat>, u: Table, o: seq<nat>, k: nat, p: nat, idx: nat)
    requires Quiet(c, t, order) && Removed(c, t, order, u, o, k, p)
    requires idx < t.n && idx != order[k] && t.dibs[idx] != DIB_RAW_FREE
    ensures u.n == t.n && u.Sized()
    ensures u.dibs[idx] == DIB_RAW_FREE <==> LastShifted(t.n, order[k], p, idx)
  {
    hide Linked, IsRing, Displacement;
    var n, base := t.n, Next(t.n, order[k]);
    assert BucketOk(c, u, o, idx);
    if LastShifted(n, order[k], p, idx) {
      forall j | 0 <= j < |o| ensures o[j] != idx {
        assert o[j] == ShiftedPlace(n, base, p, Without(order, k)[j]);
      }
    } else {
      var w := if Distance(n, idx, base) < p then Next(n, idx) else idx;
      if w != idx {
        assert Ahead(n, base, Distance(n, w, base)) == w;
        InUseShifted(c, t, base, p, w);
      }
      var j := NextAfterRemoval(c, t, order, u, o, k, p, w);
      assert o[j] == idx;
    }
  }

  lemma InUseShifted(c: Config, t: Table, base: nat, p: nat, w: nat)
    requires t.Sized() && base < t.n && w < t.n && p <= t.n && Passed(c, t, base, p) && Distance(t.n, w, base) < p
    ensures t.dibs[w] != DIB_RAW_FREE
  {
    assert Displacement(c, t, Ahead(t.n, base, Distance(t.n, w, base))) >= 1;
  }

  /**
   After the removal of the entry returned last, the iterator still finds the next one, unless the
   key of that is NULL and the remembered bucket is the last one that the removal shifts.
   */
  lemma OrderedCursorSurvives(c: Config, t: Table, order: seq<nat>, u: Table, o: seq<nat>, k: nat, p: nat, idx: nat, nextKey: Ptr)
    requires c.ops.Lawful() && Quiet(c, t, order) && Removed(c, t, order, u, o, k, p)
    requires ExactOrderedCursor(t, order, idx, nextKey, k + 1)
    ensures u.n == t.n && u.Sized()
    ensures OrderedCursor(u, o, idx, nextKey, k) <==> idx == IDX_NIL || nextKey != NULL || !LastShifted(t.n, order[k], p, idx)
    ensures OrderedCursor(u, o, idx, nextKey, k) <==> !Misled(u, idx, nextKey)
  {
    hide Linked, IsRing, Displacement;
    if idx != IDX_NIL {
      InBucket(c, t, order, k + 1);
      FreedBucket(c, t, order, u, o, k, p, idx);
      RemovedQuiet(c, t, order, u, o, k, p);
      KeyLocates(c, u, o, k, idx);
      assert Contents(u, o)[k] == Without(Contents(t, order), k)[k] == Contents(t, order)[k + 1];
      assert o[k] == ShiftedPlace(t.n, Next(t.n, order[k]), p, order[k + 1]);
    }
  }

  // ----- plain tables and sets

  /** An iterator that has everything in front of bucket `lo` behind it, with bucket lo in use unless the end is reached. */
  ghost predicate PlainCursor(t: Table, idx: nat, nextKey: Ptr, lo: nat) {
    t.Sized() &&
    if idx == IDX_FIRST then lo == 0
    else if idx == IDX_NIL then lo == t.n
    else
      && lo < t.n && t.dibs[lo] != DIB_RAW_FREE && nextKey == t.entries[lo].key
      && 0 < idx < t.n && (idx == lo || (idx == lo + 1 && t.entries[idx].key != nextKey))
  }

  /** All buckets from `from` on, below `to`, are free. */
  ghost predicate FreeBetween(t: Table, from: nat, to: nat) {
    forall i :: from <= i < to && i < |t.dibs| ==> t.dibs[i] == DIB_RAW_FREE
  }

  /** As the iterator leaves it after returning bucket cur: bucket lo is the next in use. */
  ghost predicate ExactPlainCursor(t: Table, idx: nat, nextKey: Ptr, cur: nat, lo: nat) {
    && PlainCursor(t, idx, nextKey, lo) && idx != IDX_FIRST && (idx != IDX_NIL ==> idx == lo)
    && cur < lo && FreeBetween(t, cur + 1, lo)
  }

  /** The first bucket in use holds an entry, if there is any. */
  lemma FirstOfAll(c: Config, t: Table, order: seq<nat>, idx: nat) returns (k: nat)
    requires Quiet(c, t, order) && |order| > 0
    requires if idx == IDX_NIL then FreeBetween(t, 0, t.n)
             else idx < t.n && t.dibs[idx] != DIB_RAW_FREE && FreeBetween(t, 0, idx)
    ensures idx != IDX_NIL && k < |order| && order[k] == idx
    ensures forall j :: 0 <= j < |order| ==> order[j] >= idx
  {
    InBucket(c, t, order, 0);
    assert BucketOk(c, t, order, idx);
    k :| 0 <= k < |order| && order[k] == idx;
    forall j | 0 <= j < |order| ensures order[j] >= idx {
      InBucket(c, t, order, j);
    }
  }

  /**
   The same for a plain table, where the next entry is in bucket lo' then, which is lo or, after a shift, the bucket
   before.
   */
  lemma PlainCursorSurvives(c: Config, t: Table, order: seq<nat>, u: Table, o: seq<nat>, k: nat, p: nat, idx: nat, nextKey: Ptr, lo: nat, lo': nat)
    requires c.ops.Lawful() && Quiet(c, t, order) && Removed(c, t, order, u, o, k, p)
    requires ExactPlainCursor(t, idx, nextKey, order[k], lo)
    requires lo' == if p > 0 && order[k] + 1 < t.n then order[k] else lo
    ensures u.n == t.n && u.Sized()
    ensures PlainCursor(u, idx, nextKey, lo') <==> idx == IDX_NIL || nextKey != NULL || !LastShifted(t.n, order[k], p, idx)
    ensures PlainCursor(u, idx, nextKey, lo') <==> !Misled(u, idx, nextKey)
  {
    hide Displacement;
    var cur, base := order[k], Next(t.n, order[k]);
    if p > 0 && cur + 1 < t.n {
      NextIsShifted(c, t, base, p, cur, lo);
    }
    RemovedQuiet(c, t, order, u, o, k, p);
    if idx != IDX_NIL {
      var j := NextAfterRemoval(c, t, order, u, o, k, p, lo);
      assert o[j] == lo';
      KeyLocates(c, u, o, j, idx);
      FreedBucket(c, t, order, u, o, k, p, idx);
    }
  }

  /** Where anything is shifted, the next entry is. */
  lemma NextIsShifted(c: Config, t: Table, base: nat, p: nat, cur: nat, lo: nat)
    requires t.Sized() && base == cur + 1 < t.n && 0 < p <= t.n && Passed(c, t, base, p)
    requires cur < lo && FreeBetween(t, cur + 1, lo)
    ensures lo == cur + 1
  {
    assert Ahead(t.n, base, 0) == base;
    InUseShifted(c, t, base, p, base);
  }

  /** What lay in front of the iterator still does. */
  lemma AheadStaysAhead(c: Config, t: Table, order: seq<nat>, u: Table, o: seq<nat>, k: nat, p: nat, lo: nat, lo': nat)
    requires Quiet(c, t, order) && Removed(c, t, order, u, o, k, p)
    requires order[k] < lo && FreeBetween(t, order[k] + 1, lo)
    requires lo' == if p > 0 && order[k] + 1 < t.n then order[k] else lo
    ensures forall j :: 0 <= j < |o| && Without(order, k)[j] >= lo ==> o[j] >= lo'
  {
    hide Displacement, Core;
    var cur, base := order[k], Next(t.n, order[k]);
    if p > 0 && cur + 1 < t.n {
      NextIsShifted(c, t, base, p, cur, lo);
    }
    forall j | 0 <= j < |o| && Without(order, k)[j] >= lo ensures o[j] >= lo' {
      assert o[j] == ShiftedPlace(t.n, base, p, Without(order, k)[j]);
    }
  }
}
