/**
 Iterating a table, with removal of the current entry allowed, and the
 operations that act on the first entry.
 */
module HashmapIterate {
  import opened Common
  import opened HashOps
  import opened Ring
  import opened Table
  import opened RobinHood
  import opened Removal
  import opened State
  import opened Growth
  import opened Cursor
  import opened Hashmap
  import opened PlainLoop
  import opened NullKeyLoop
  import opened MisledLoop

  class Iterator {
    var idx: nat
    var nextKey: Ptr

    /** ITERATOR_FIRST */
    constructor ()
      ensures idx == IDX_FIRST && nextKey == NULL
    {
      idx, nextKey := IDX_FIRST, NULL;
    }
  }

  /** skip_free_buckets: the first bucket from `from` on that is in use, or IDX_NIL. */
  method SkipFreeBuckets(h: HashmapBase, from: nat) returns (idx: nat)
    requires h.Valid()
    ensures if idx == IDX_NIL then FreeBetween(h.table, from, h.table.n)
            else from <= idx < h.table.n && h.table.dibs[idx] != DIB_RAW_FREE && FreeBetween(h.table, from, idx)
  {
    idx := from;
    while idx < h.dibs.Length
      invariant from <= idx && FreeBetween(h.table, from, idx)
    {
      if h.dibs[idx] != DIB_RAW_FREE {
        return;
      }
      idx := idx + 1;
    }
    idx := IDX_NIL;
  }

  /** hashmap_iterate_in_insertion_order: returns the bucket of the k-th oldest entry, and moves on. */
  method IterateInInsertionOrder(h: HashmapBase, i: Iterator, ghost k: nat) returns (idx: nat)
    requires h.Valid() && h.kind == ORDERED && OrderedCursor(h.table, h.order, i.idx, i.nextKey, k)
    modifies i
    ensures Visiting(h.table, h.order, idx, i.idx, i.nextKey, k)
  {
    if i.idx == IDX_NIL || (i.idx == IDX_FIRST && h.iterateListHead == IDX_NIL) {
      EmptyHead(h.Cfg(), h.table, h.order);
      i.idx := IDX_NIL;
      return IDX_NIL;
    }
    EmptyHead(h.Cfg(), h.table, h.order);
    if i.idx == IDX_FIRST {
      idx := h.iterateListHead;
    } else {
      idx := i.idx;
      if h.buckets[idx].key != i.nextKey {
        idx := h.PrevIdx(idx);
      }
    }
    assert idx == h.order[k];
    NextInBuckets(h.Cfg(), h.table, h.order, k);
    var next := h.buckets[idx].next;
    if next != IDX_NIL {
      i.idx := next;
      i.nextKey := h.buckets[next].key;
    } else {
      i.idx := IDX_NIL;
    }
  }

  /** Moves the iterator to the first bucket in use from `lo` on, which may be one bucket before the remembered one. */
  method LocateInternal(h: HashmapBase, i: Iterator, ghost lo: nat)
    requires h.Valid() && PlainCursor(h.table, i.idx, i.nextKey, lo) && i.idx != IDX_NIL
    modifies i, h`idxLowestEntry
    ensures h.Valid()
    ensures i.idx == IDX_NIL ==> FreeBetween(h.table, lo, h.table.n)
    ensures i.idx != IDX_NIL ==> lo <= i.idx < h.table.n && h.table.dibs[i.idx] != DIB_RAW_FREE && FreeBetween(h.table, lo, i.idx)
  {
    hide Quiet, CapacityOk;
    if i.idx == IDX_FIRST {
      if h.hasIndirect {
        i.idx := SkipFreeBuckets(h, h.idxLowestEntry);
        h.idxLowestEntry := i.idx;
      } else {
        i.idx := SkipFreeBuckets(h, 0);
      }
    } else {
      if h.buckets[i.idx].key != i.nextKey {
        i.idx := i.idx - 1;
      }
      assert h.buckets[i.idx].key == i.nextKey;
    }
  }

  /** hashmap_iterate_in_internal_order: returns the first bucket in use from `lo` on, and moves on to lo'. */
  method IterateInInternalOrder(h: HashmapBase, i: Iterator, ghost lo: nat) returns (idx: nat, ghost lo': nat)
    requires h.Valid() && PlainCursor(h.table, i.idx, i.nextKey, lo)
    modifies i, h`idxLowestEntry
    ensures h.Valid()
    ensures idx == IDX_NIL ==> i.idx == IDX_NIL && FreeBetween(h.table, lo, h.table.n)
    ensures idx != IDX_NIL ==> lo <= idx < h.table.n && h.table.dibs[idx] != DIB_RAW_FREE && FreeBetween(h.table, lo, idx)
    ensures idx != IDX_NIL ==> ExactPlainCursor(h.table, i.idx, i.nextKey, idx, lo')
  {
    hide Quiet, CapacityOk, LowestOk;
    lo' := lo;
    if i.idx == IDX_NIL {
      return IDX_NIL, lo';
    }
    LocateInternal(h, i, lo);
    idx := i.idx;
    if idx == IDX_NIL {
      return IDX_NIL, lo';
    }
    i.idx := SkipFreeBuckets(h, idx + 1);
    if i.idx != IDX_NIL {
      i.nextKey := h.buckets[i.idx].key;
      lo' := i.idx;
    } else {
      lo' := h.table.n;
    }
  }

  /** hashmap_iterate_entry on a fresh iterator: the first entry, which is the oldest one of an ordered table. */
  method FindFirstEntry(h: HashmapBase) returns (idx: nat, ghost k: nat)
    requires h.Valid()
    modifies h`idxLowestEntry
    ensures h.Valid()
    ensures idx == IDX_NIL <==> |h.order| == 0
    ensures idx != IDX_NIL ==> k < |h.order| && h.order[k] == idx < h.table.n
    ensures idx != IDX_NIL && h.kind == ORDERED ==> k == 0
    ensures idx != IDX_NIL && h.kind != ORDERED ==> forall j :: 0 <= j < |h.order| ==> h.order[j] >= idx
  {
    hide CapacityOk, LowestOk, Visiting;
    k := 0;
    if h.NEntries() == 0 {
      return IDX_NIL, k;
    }
    var i := new Iterator();
    if h.kind == ORDERED {
      StartOrdered(h.table, h.order, i.nextKey);
      idx := IterateInInsertionOrder(h, i, 0);
      VisitingEnds(h.Cfg(), h.table, h.order, idx, i.idx, i.nextKey, 0);
    } else {
      ghost var lo';
      idx, lo' := IterateInInternalOrder(h, i, 0);
      k := FirstOfAll(h.Cfg(), h.table, h.order, idx);
    }
  }

  /** The position of the entry in the last bucket in use. */
  function LastBucketOf(order: seq<nat>): (k: nat)
    requires order != []
    ensures k < |order| && forall j :: 0 <= j < |order| ==> order[j] <= order[k]
  {
    var m := |order| - 1;
    if m == 0 then 0 else
      var k := LastBucketOf(order[..m]);
      if order[k] <= order[m] then m else k
  }

  /** The position of the entry that is taken off last: the newest one, or for plain tables and sets that in the last bucket in use. */
  function LastTaken(kind: HashmapType, order: seq<nat>): (k: nat)
    requires order != []
    ensures k < |order|
  {
    if kind == ORDERED then |order| - 1 else LastBucketOf(order)
  }

  /** The k-th of several entries is not the one to be taken off last, and its removal does not change which one is. */
  ghost predicate NotTheLast(kind: HashmapType, order: seq<nat>, o: seq<nat>, k: nat) {
    && |order| > 1 && |o| == |order| - 1
    && var last := LastTaken(kind, order);
       k != last && LastTaken(kind, o) == if k < last then last - 1 else last
  }

  lemma LastBucketIs(order: seq<nat>, k: nat)
    requires Distinct(order) && k < |order| && forall j :: 0 <= j < |order| ==> order[j] <= order[k]
    ensures LastBucketOf(order) == k
  {
  }

  /** The removal of the first entry moves no other one behind the last. */
  lemma LastStaysLast(c: Config, t: Table, order: seq<nat>, u: Table, o: seq<nat>, k: nat, p: nat, last: nat, m: nat, j: nat)
    requires Quiet(c, t, order) && Removed(c, t, order, u, o, k, p) && k < |order| && |o| == |order| - 1
    requires last < |order| && last != k && forall i :: 0 <= i < |order| ==> order[k] <= order[i] <= order[last]
    requires m == (if k < last then last - 1 else last) && j < |o|
    ensures o[j] <= o[m]
  {
    hide Core, Quiet, Displacement, Removed;
    PlaceAfter(c, t, order, u, o, k, p, j);
    PlaceAfter(c, t, order, u, o, k, p, m);
    var i := if j < k then j else j + 1;
    assert Without(order, k)[j] == order[i] && Without(order, k)[m] == order[last];
  }

  /** Taking off the first entry leaves the last one in its role. */
  lemma FirstIsNotTheLast(c: Config, t: Table, order: seq<nat>, u: Table, o: seq<nat>, k: nat, p: nat, kind: HashmapType)
    requires Quiet(c, t, order) && Removed(c, t, order, u, o, k, p) && |order| > 1
    requires if kind == ORDERED then k == 0 else forall j :: 0 <= j < |order| ==> order[j] >= order[k]
    ensures NotTheLast(kind, order, o, k)
  {
    hide Core, Quiet, Displacement, LastBucketOf;
    QuietIsCore(c, t, order);
    RemovedQuiet(c, t, order, u, o, k, p);
    QuietIsCore(c, u, o);
    assert k < |order| && |o| == |order| - 1;
    hide Removed;
    if kind != ORDERED {
      var last := LastBucketOf(order);
      var other := if k == 0 then 1 else 0;
      assert order[other] > order[k];
      var m := if k < last then last - 1 else last;
      forall j | 0 <= j < |o| ensures o[j] <= o[m] {
        LastStaysLast(c, t, order, u, o, k, p, last, m, j);
      }
      LastBucketIs(o, m);
    }
  }

  /** internal_hashmap_first_key_and_value: the key and value of the first entry, which is removed if asked for. */
  method FirstKeyAndValue(h: HashmapBase, remove: bool) returns (value: Ptr, key: Ptr, ghost k: nat)
    requires h.Valid()
    modifies h, h.buckets, h.dibs
    ensures h.Valid() && h.buckets == old(h.buckets) && h.dibs == old(h.dibs) && h.StorageRoom() == old(h.StorageRoom())
    ensures var items := old(h.Items());
            if items == [] then value == NULL && key == NULL && h.Items() == []
            else
              && k < |items| && value == EntryValue(h.kind, items[k]) && key == items[k].key
              && (h.kind == ORDERED ==> k == 0)
              && h.Items() == if remove then Without(items, k) else items
    ensures old(h.Items()) != [] ==> value == match h.kind
                                             case PLAIN => old(h.Items())[k].value
                                             case ORDERED => old(h.Items())[k].value
                                             case SET => old(h.Items())[k].key
    ensures remove && |old(h.order)| > 1 ==> NotTheLast(h.kind, old(h.order), h.order, k)
  {
    hide Quiet, CapacityOk, LowestOk, Removed, NotTheLast;
    var idx;
    idx, k := FindFirstEntry(h);
    if idx == IDX_NIL {
      assert h.Items() == [];
      return NULL, NULL, k;
    }
    var p := h.buckets[idx].Stored();
    assert p == h.Items()[k];
    key, value := p.key, EntryValue(h.kind, p);
    if remove {
      ghost var c, t, o := h.Cfg(), h.table, h.order;
      ghost var q := h.RemoveEntry(idx, k);
      if |o| > 1 {
        FirstIsNotTheLast(c, t, o, h.table, h.order, k, q, h.kind);
      }
    }
  }

  lemma WithoutAsBag<T>(s: seq<T>, k: nat)
    requires k < |s|
    ensures multiset(s) == multiset(Without(s, k)) + multiset{s[k]}
  {
    assert s == s[..k] + [s[k]] + s[k + 1..];
  }

  /** All values but that of the pair `last` are there. */
  ghost predicate OthersHaveValues(kind: HashmapType, items: seq<Pair>, last: Pair) {
    forall p :: p in items && p != last ==> EntryValue(kind, p) != NULL
  }

  ghost predicate AllHaveValues(kind: HashmapType, items: seq<Pair>) {
    forall p :: p in items ==> EntryValue(kind, p) != NULL
  }

  /**
   The loop of hashmap_clear_with_destructor, in the middle: the stolen entries had values, which are destroyed;
   the one to be taken off last is still there if any is.
   */
  ghost predicate Clearing(kind: HashmapType, items: seq<Pair>, now: seq<Pair>, order: seq<nat>, stolen: seq<Pair>, destroyed: seq<Ptr>, last: Pair) {
    && |now| == |order|
    && multiset(items) == multiset(now) + multiset(stolen)
    && |destroyed| == |stolen|
    && (forall j :: 0 <= j < |destroyed| ==> destroyed[j] == EntryValue(kind, stolen[j]) != NULL)
    && (kind == ORDERED ==> items == stolen + now)
    && (now != [] ==> now[LastTaken(kind, order)] == last)
  }

  lemma BagStep(items: seq<Pair>, now: seq<Pair>, stolen: seq<Pair>, k: nat)
    requires k < |now| && multiset(items) == multiset(now) + multiset(stolen)
    ensures multiset(items) == multiset(Without(now, k)) + multiset(stolen + [now[k]])
  {
    WithoutAsBag(now, k);
  }

  lemma ListStep(items: seq<Pair>, now: seq<Pair>, stolen: seq<Pair>)
    requires now != [] && items == stolen + now
    ensures items == stolen + [now[0]] + Without(now, 0)
  {
    assert now == [now[0]] + Without(now, 0);
  }

  /** One entry is taken off, and has a value. */
  lemma ClearingStep(kind: HashmapType, items: seq<Pair>, now: seq<Pair>, order: seq<nat>, stolen: seq<Pair>, destroyed: seq<Ptr>, last: Pair,
                     k: nat, o: seq<nat>)
    requires Clearing(kind, items, now, order, stolen, destroyed, last)
    requires k < |now| && |o| == |now| - 1 && (kind == ORDERED ==> k == 0) && (|order| > 1 ==> NotTheLast(kind, order, o, k))
    requires EntryValue(kind, now[k]) != NULL
    ensures Clearing(kind, items, Without(now, k), o, stolen + [now[k]], destroyed + [EntryValue(kind, now[k])], last)
  {
    hide LastTaken, EntryValue;
    BagStep(items, now, stolen, k);
    if kind == ORDERED {
      ListStep(items, now, stolen);
    }
  }

  lemma LastOfOne(kind: HashmapType, order: seq<nat>)
    requires |order| == 1
    ensures LastTaken(kind, order) == 0
  {
  }

  /** What the loop has done when it ends at the k-th entry for want of a value. */
  lemma ClearingStops(kind: HashmapType, items: seq<Pair>, now: seq<Pair>, stolen: seq<Pair>, p: Pair, last: Pair)
    requires Distinct(items) && multiset(items) == multiset(now) + multiset(stolen + [p])
    requires EntryValue(kind, p) == NULL && AllHaveValues(kind, stolen)
    requires now == [] ==> p == last
    requires now != [] ==> last in now
    ensures p in items && (now == [] <==> OthersHaveValues(kind, items, last))
  {
    assert p in multiset(items) && (last in now ==> last in multiset(items));
    if now != [] {
      DistinctBag(items);
      assert multiset(items)[last] == 1 && multiset(items)[p] == 1;
      assert last in multiset(now);
      assert p in multiset(stolen + [p]);
      assert p != last;
    } else {
      forall q | q in items && q != last ensures EntryValue(kind, q) != NULL {
        assert q in multiset(items) && q in multiset(stolen + [p]);
        assert q in stolen + [p];
      }
    }
  }

  ghost predicate NoNullKeys(items: seq<Pair>) {
    forall p :: p in items ==> p.key != NULL
  }

  /** Sets store no values: an entry is its own value. */
  lemma KeysAreValues(items: seq<Pair>)
    ensures AllHaveValues(SET, items) <==> NoNullKeys(items)
  {
  }

  lemma AllAndOthers(kind: HashmapType, items: seq<Pair>, last: Pair)
    requires AllHaveValues(kind, items)
    ensures OthersHaveValues(kind, items, last)
  {
  }

  lemma StartClearing(kind: HashmapType, items: seq<Pair>, order: seq<nat>, last: Pair)
    requires |items| == |order| && (items != [] ==> items[LastTaken(kind, order)] == last)
    ensures Clearing(kind, items, items, order, [], [], last)
  {
    hide LastTaken;
    assert items == [] + items;
  }

  lemma BagSizes(a: seq<Pair>, b: seq<Pair>, s: seq<Pair>)
    requires multiset(s) == multiset(a) + multiset(b)
    ensures |s| == |a| + |b| && forall p :: p in s <==> p in a || p in b
  {
    assert |multiset(s)| == |s| && |multiset(a)| == |a| && |multiset(b)| == |b|;
    forall p ensures p in s <==> p in a || p in b {
      assert p in s <==> p in multiset(s);
      assert p in a <==> p in multiset(a);
      assert p in b <==> p in multiset(b);
    }
  }

  /** What the loop of hashmap_clear_with_destructor has done in the end. */
  ghost predicate Cleared(kind: HashmapType, items: seq<Pair>, now: seq<Pair>, stolen: seq<Pair>, destroyed: seq<Ptr>) {
    && multiset(items) == multiset(now) + multiset(stolen)
    && (kind == ORDERED ==> items == stolen + now)
    && |destroyed| <= |stolen|
    && (forall j :: 0 <= j < |destroyed| ==> destroyed[j] == EntryValue(kind, stolen[j]) != NULL)
    && (if |stolen| == |destroyed| then now == [] else |stolen| == |destroyed| + 1 && EntryValue(kind, stolen[|destroyed|]) == NULL)
    && (|destroyed| == |items| <==> AllHaveValues(kind, items))
  }

  /** The loop ends at an entry without a value. */
  lemma EndedEarly(kind: HashmapType, items: seq<Pair>, now: seq<Pair>, order: seq<nat>, stolen: seq<Pair>, destroyed: seq<Ptr>, last: Pair,
                   k: nat, o: seq<nat>)
    requires Clearing(kind, items, now, order, stolen, destroyed, last) && Distinct(items)
    requires k < |now| && |o| == |now| - 1 && (kind == ORDERED ==> k == 0) && (|order| > 1 ==> NotTheLast(kind, order, o, k))
    requires EntryValue(kind, now[k]) == NULL
    ensures Cleared(kind, items, Without(now, k), stolen + [now[k]], destroyed)
    ensures Without(now, k) == [] <==> OthersHaveValues(kind, items, last)
  {
    hide LastTaken, EntryValue, AllHaveValues, OthersHaveValues;
    var now' := Without(now, k);
    BagStep(items, now, stolen, k);
    BagSizes(now, stolen, items);
    if kind == ORDERED {
      ListStep(items, now, stolen);
    }
    assert now[k] in items;
    if now' == [] {
      LastOfOne(kind, order);
    } else {
      var l := LastTaken(kind, order);
      assert now'[if k < l then l - 1 else l] == now[l] == last;
    }
    StolenHaveValues(kind, stolen, destroyed);
    ClearingStops(kind, items, now', stolen, now[k], last);
    SomeHasNoValue(kind, items, now[k]);
  }

  lemma SomeHasNoValue(kind: HashmapType, items: seq<Pair>, p: Pair)
    requires p in items && EntryValue(kind, p) == NULL
    ensures !AllHaveValues(kind, items)
  {
  }

  lemma StolenHaveValues(kind: HashmapType, stolen: seq<Pair>, destroyed: seq<Ptr>)
    requires |destroyed| == |stolen| && forall j :: 0 <= j < |destroyed| ==> destroyed[j] == EntryValue(kind, stolen[j]) != NULL
    ensures AllHaveValues(kind, stolen)
  {
    forall q | q in stolen ensures EntryValue(kind, q) != NULL {
      var j :| 0 <= j < |stolen| && stolen[j] == q;
      assert destroyed[j] != NULL;
    }
  }

  /** The loop ends because no entry is left. */
  lemma EndedEmpty(kind: HashmapType, items: seq<Pair>, order: seq<nat>, stolen: seq<Pair>, destroyed: seq<Ptr>, last: Pair)
    requires Clearing(kind, items, [], order, stolen, destroyed, last)
    ensures Cleared(kind, items, [], stolen, destroyed) && OthersHaveValues(kind, items, last)
  {
    BagSizes([], stolen, items);
    StolenHaveValues(kind, stolen, destroyed);
  }

  lemma DistinctBag(items: seq<Pair>)
    requires Distinct(items)
    ensures forall p :: p in items ==> multiset(items)[p] == 1
  {
    if items != [] {
      var k := |items| - 1;
      DistinctBag(items[..k]);
      assert items == items[..k] + [items[k]];
    }
  }

  /**
   hashmap_clear_with_destructor: entries are taken off the front and their values destroyed until a value is NULL,
   which is taken for the end of the table. `stolen` are the entries taken off, each once and in an ordered table oldest
   first. All values are destroyed if and only if none is NULL. The table is emptied if and only if no value but that of
   the entry to be taken off last is NULL.
   */
  method ClearWithDestructor(h: HashmapBase) returns (destroyed: seq<Ptr>, ghost stolen: seq<Pair>)
    requires h.Valid()
    modifies h, h.buckets, h.dibs
    ensures h.Valid()
    ensures multiset(old(h.Items())) == multiset(h.Items()) + multiset(stolen)
    ensures h.kind == ORDERED ==> old(h.Items()) == stolen + h.Items()
    ensures |destroyed| <= |stolen| && forall j :: 0 <= j < |destroyed| ==> destroyed[j] == EntryValue(h.kind, stolen[j]) != NULL
    ensures if |stolen| == |destroyed| then h.Items() == []
            else |stolen| == |destroyed| + 1 && EntryValue(h.kind, stolen[|destroyed|]) == NULL
    ensures |destroyed| == |old(h.Items())| <==> AllHaveValues(h.kind, old(h.Items()))
    ensures h.Items() == [] <==>
            old(h.Items()) == [] || OthersHaveValues(h.kind, old(h.Items()), old(h.Items())[LastTaken(h.kind, old(h.order))])
    ensures h.kind == SET && NoNullKeys(old(h.Items())) ==> h.Items() == [] && |destroyed| == |old(h.Items())|
  {
    hide Quiet, CapacityOk, LowestOk, Contents, LastTaken, NotTheLast, OthersHaveValues, AllHaveValues, NoNullKeys, Clearing;
    ghost var kind, items, last := h.kind, h.Items(), Pair(NULL, NULL);
    PairsDistinct(h.Cfg(), h.table, h.order);
    if items != [] {
      last := items[LastTaken(kind, h.order)];
    }
    if kind == SET && NoNullKeys(items) {
      KeysAreValues(items);
      AllAndOthers(kind, items, last);
    }
    destroyed, stolen := [], [];
    StartClearing(kind, items, h.order, last);
    while true
      invariant h.Valid() && h.buckets == old(h.buckets) && h.dibs == old(h.dibs)
      invariant Clearing(kind, items, h.Items(), h.order, stolen, destroyed, last)
      decreases |h.Items()|
    {
      ghost var now, order, before := h.Items(), h.order, stolen;
      var item, key, k := FirstKeyAndValue(h, true);
      if now != [] {
        stolen := before + [now[k]];
      }
      if item == NULL {
        if now != [] {
          EndedEarly(kind, items, now, order, before, destroyed, last, k, h.order);
        } else {
          EndedEmpty(kind, items, order, stolen, destroyed, last);
        }
        break;
      }
      ClearingStep(kind, items, now, order, before, destroyed, last, k, h.order);
      destroyed := destroyed + [item];
    }
  }

  // ----- whole iterations

  /** The pairs that are not doomed, in order. */
  function Kept(items: seq<Pair>, doomed: Pair -> bool): (r: seq<Pair>) {
    if items == [] then []
    else
      var last := items[|items| - 1];
      Kept(items[..|items| - 1], doomed) + if doomed(last) then [] else [last]
  }

  /**
   The loop has visited some pairs; the table holds those it kept and those to come, and the k-th pair is the next
   to come.
   */
  ghost predicate Visited(items: seq<Pair>, doomed: Pair -> bool, visited: seq<Pair>, now: seq<Pair>, k: nat) {
    && |visited| <= |items| && visited == items[..|visited|]
    && now == Kept(visited, doomed) + items[|visited|..] && k == |Kept(visited, doomed)|
  }

  lemma VisitedStep(items: seq<Pair>, doomed: Pair -> bool, visited: seq<Pair>, now: seq<Pair>, k: nat)
    requires Visited(items, doomed, visited, now, k) && k < |now|
    ensures |visited| < |items|
    ensures now[k] == items[|visited|] && (k + 1 < |now| ==> |visited| + 1 < |items| && now[k + 1] == items[|visited| + 1])
    ensures if doomed(now[k]) then Visited(items, doomed, visited + [now[k]], Without(now, k), k)
            else Visited(items, doomed, visited + [now[k]], now, k + 1)
  {
    var m := |visited|;
    assert now[k] == items[m] && (k + 1 < |now| ==> now[k + 1] == items[m + 1]);
    assert (visited + [now[k]])[..m] == visited;
    assert items[m..] == [items[m]] + items[m + 1..];
  }

  /**
   The body of the loop: the current entry, the k-th oldest, is removed if it is doomed; then the iterator moves on,
   unless it takes a free bucket for the next entry.
   */
  method VisitOrdered(h: HashmapBase, i: Iterator, idx: nat, ghost k: nat, doomed: Pair -> bool)
    returns (p: Pair, next: nat, misled: bool)
    requires h.Valid() && h.kind == ORDERED && k < |h.order|
    requires Visiting(h.table, h.order, idx, i.idx, i.nextKey, k)
    modifies h, h.buckets, h.dibs, i
    ensures h.Valid() && h.buckets == old(h.buckets) && h.dibs == old(h.dibs) && h.Cfg() == old(h.Cfg())
    ensures p == old(h.Items())[k]
    ensures h.Items() == if doomed(p) then Without(old(h.Items()), k) else old(h.Items())
    ensures !misled ==> Visiting(h.table, h.order, next, i.idx, i.nextKey, if doomed(p) then k else k + 1)
    ensures misled ==> doomed(p) && k + 1 < |old(h.Items())| && old(h.Items())[k + 1].key == NULL
    ensures old(NullAtHome(h.Cfg(), h.table)) ==> !misled && NullAtHome(h.Cfg(), h.table)
  {
    hide Quiet, LowestOk, CapacityOk, Lookup, Removed, OrderedCursor, ExactOrderedCursor, NullAtHome;
    ghost var c, t, o := h.Cfg(), h.table, h.order;
    misled := false;
    p := h.buckets[idx].Stored();
    assert p == h.Items()[k];
    if doomed(p) {
      FindsItself(c, t, o, k);
      var _, q := h.Remove(p.key);
      AfterVisit(c, t, o, h.table, h.order, k, q, idx, i.idx, i.nextKey);
      misled := i.idx != IDX_NIL && h.dibs[i.idx] == DIB_RAW_FREE && h.buckets[i.idx].key == i.nextKey;
      next := IDX_NIL;
      if !misled {
        next := IterateInInsertionOrder(h, i, k);
      }
    } else {
      ExactIsCursor(t, o, i.idx, i.nextKey, k + 1);
      next := IterateInInsertionOrder(h, i, k + 1);
    }
  }

  /** Where the iterator is after the removal of the current entry of an ordered table. */
  lemma AfterVisit(c: Config, t: Table, order: seq<nat>, u: Table, o: seq<nat>, k: nat, p: nat, idx: nat, cursor: nat, nextKey: Ptr)
    requires c.ops.Lawful() && Quiet(c, t, order) && Removed(c, t, order, u, o, k, p)
    requires Visiting(t, order, idx, cursor, nextKey, k)
    ensures u.n == t.n && u.Sized() && (cursor == IDX_NIL || cursor < u.n)
    ensures OrderedCursor(u, o, cursor, nextKey, k) <==> !Misled(u, cursor, nextKey)
    ensures Misled(u, cursor, nextKey) ==> k + 1 < |order| && Contents(t, order)[k + 1].key == NULL
    ensures NullAtHome(c, t) ==> !Misled(u, cursor, nextKey) && NullAtHome(c, u)
  {
    hide Core, Displacement;
    OrderedCursorSurvives(c, t, order, u, o, k, p, cursor, nextKey);
    if cursor != IDX_NIL {
      QuietIsCore(c, t, order);
      InBucket(c, t, order, k + 1);
      if NullAtHome(c, t) {
        NullStaysAtHome(c, t, order, u, o, k, p);
        assert nextKey == NULL ==> HasNull(t, cursor);
        if nextKey == NULL {
          HomeIsNotShifted(c, t, order[k], p, cursor);
        }
      }
    } else if NullAtHome(c, t) {
      NullStaysAtHome(c, t, order, u, o, k, p);
    }
  }

  /**
   ORDERED_HASHMAP_FOREACH over a body that removes the current entry if it is
   doomed: every entry is visited exactly once, in insertion order, and just the doomed ones are gone. The exception
   is a loop that is misled: it has removed an entry right before one whose key is NULL, has achieved everything up to
   there, and goes on with a free bucket. If the entry with that key is in its own bucket, no loop is misled.
   */
  method OrderedForeach(h: HashmapBase, doomed: Pair -> bool) returns (visited: seq<Pair>, misled: bool)
    requires h.Valid() && h.kind == ORDERED
    modifies h, h.buckets, h.dibs
    ensures h.Valid() && |visited| <= |old(h.Items())| && visited == old(h.Items())[..|visited|]
    ensures h.Items() == Kept(visited, doomed) + old(h.Items())[|visited|..]
    ensures !misled ==> visited == old(h.Items()) && h.Items() == Kept(old(h.Items()), doomed)
    ensures misled ==>
              && 0 < |visited| < |old(h.Items())| && doomed(visited[|visited| - 1])
              && old(h.Items())[|visited|].key == NULL
    ensures old(NullAtHome(h.Cfg(), h.table)) ==> !misled
  {
    hide Quiet, LowestOk, CapacityOk, OrderedCursor, Visiting, Visited, NullAtHome, Contents, Kept, HashmapBase.Rep;
    ghost var c, items, home := h.Cfg(), h.Items(), NullAtHome(h.Cfg(), h.table);
    var i := new Iterator();
    visited, misled := [], false;
    ghost var k: nat := 0;
    StartVisited(items, doomed);
    StartOrdered(h.table, h.order, i.nextKey);
    var idx := IterateInInsertionOrder(h, i, k);
    while idx != IDX_NIL
      invariant h.Valid() && fresh(i) && h.buckets == old(h.buckets) && h.dibs == old(h.dibs) && h.Cfg() == c
      invariant Visited(items, doomed, visited, h.Items(), k)
      invariant Visiting(h.table, h.order, idx, i.idx, i.nextKey, k)
      invariant home ==> NullAtHome(c, h.table)
      decreases |items| - |visited|
    {
      VisitingEnds(h.Cfg(), h.table, h.order, idx, i.idx, i.nextKey, k);
      VisitedStep(items, doomed, visited, h.Items(), k);
      var p, next;
      p, next, misled := VisitOrdered(h, i, idx, k, doomed);
      visited, idx := visited + [p], next;
      k := if doomed(p) then k else k + 1;
      if misled {
        VisitedSoFar(items, doomed, visited, h.Items(), k);
        return;
      }
    }
    VisitingEnds(h.Cfg(), h.table, h.order, idx, i.idx, i.nextKey, k);
    EndVisited(items, doomed, visited, h.Items(), k);
  }

  lemma VisitedSoFar(items: seq<Pair>, doomed: Pair -> bool, visited: seq<Pair>, now: seq<Pair>, k: nat)
    requires Visited(items, doomed, visited, now, k)
    ensures |visited| <= |items| && visited == items[..|visited|] && now == Kept(visited, doomed) + items[|visited|..]
  {
  }

  lemma StartVisited(items: seq<Pair>, doomed: Pair -> bool)
    ensures Visited(items, doomed, [], items, 0)
  {
  }

  lemma EndVisited(items: seq<Pair>, doomed: Pair -> bool, visited: seq<Pair>, now: seq<Pair>, k: nat)
    requires Visited(items, doomed, visited, now, k) && k == |now|
    ensures visited == items && now == Kept(items, doomed) && items[|visited|..] == []
  {
  }

  /** Where the iterator is after the removal of the current entry of a plain table. */
  lemma AfterPlainVisit(c: Config, t: Table, order: seq<nat>, u: Table, o: seq<nat>, k: nat, p: nat, cursor: nat, nextKey: Ptr,
                        lo: nat, lo': nat, lo'': nat)
    requires c.ops.Lawful() && Quiet(c, t, order) && Removed(c, t, order, u, o, k, p)
    requires ExactPlainCursor(t, cursor, nextKey, order[k], lo') && lo <= order[k] && FreeBetween(t, lo, order[k])
    requires lo'' == if p > 0 && order[k] + 1 < t.n then order[k] else lo'
    ensures u.n == t.n && u.Sized() && (cursor == IDX_NIL || cursor < u.n)
    ensures PlainCursor(u, cursor, nextKey, lo'') <==> !Misled(u, cursor, nextKey)
    ensures forall j :: 0 <= j < |o| && Without(order, k)[j] >= lo' ==> o[j] >= lo''
    ensures NeverMisled(c, t, lo) ==> !Misled(u, cursor, nextKey) && NeverMisled(c, u, lo'')
  {
    hide Core, Displacement, NeverMisled, Quiet, Removed;
    PlainCursorSurvives(c, t, order, u, o, k, p, cursor, nextKey, lo', lo'');
    AheadStaysAhead(c, t, order, u, o, k, p, lo', lo'');
    if NeverMisled(c, t, lo) {
      HarmlessRemoved(c, t, order, u, o, k, p, lo, lo'');
      if cursor != IDX_NIL && nextKey == NULL {
        NotMisled(c, t, order, u, o, k, p, lo, lo');
      }
    }
  }

  /** The body of the loop for a plain table. */
  method VisitPlain(h: HashmapBase, i: Iterator, idx: nat, doomed: Body, ghost g: Outlook, ghost stage: Stage, visit: nat,
                    ghost visited: seq<Pair>, ghost lo: nat, ghost lo': nat) returns (p: Pair, misled: bool, ghost lo'': nat, ghost stage': Stage)
    requires h.Valid() && h.kind != ORDERED && visit == |visited| && g.doomed == doomed
    requires lo <= idx < h.table.n && h.table.dibs[idx] != DIB_RAW_FREE && FreeBetween(h.table, lo, idx)
    requires ExactPlainCursor(h.table, i.idx, i.nextKey, idx, lo')
    requires Progress(g, h.Cfg(), h.table, h.order, visited, lo)
    modifies h, h.buckets, h.dibs
    ensures h.Valid() && h.buckets == old(h.buckets) && h.dibs == old(h.dibs) && h.Cfg() == old(h.Cfg())
    ensures h.table.n == old(h.table.n)
    ensures !misled ==> PlainCursor(h.table, i.idx, i.nextKey, lo'')
    ensures Progress(g, h.Cfg(), h.table, h.order, visited + [p], lo'')
    ensures |h.order| < old(|h.order|) || (|h.order| == old(|h.order|) && lo < lo'')
    ensures old(NeverMisled(h.Cfg(), h.table, lo)) ==> !misled && NeverMisled(h.Cfg(), h.table, lo'')
    ensures NoneDoomed(g.items, doomed) || g.twice.Some? ==> !misled
    ensures old(AtStage(stage, h.Cfg(), h.table, lo, doomed)) ==> misled || AtStage(stage', h.Cfg(), h.table, lo'', doomed)
  {
    hide Quiet, LowestOk, CapacityOk, Lookup, Removed, Progress, NeverMisled, NoneDoomed, AtStage;
    ghost var c, t, o := h.Cfg(), h.table, h.order;
    ghost var k := NothingBetween(c, t, o, lo, idx, i.idx, i.nextKey, lo');
    misled, stage' := false, stage;
    p := h.buckets[idx].Stored();
    assert p == h.Items()[k];
    if doomed(visit, p) {
      FindsItself(c, t, o, k);
      SomeDoomed(g, c, t, o, visited, lo, k);
      var _, q := h.Remove(p.key);
      lo'' := if q > 0 && o[k] + 1 < t.n then o[k] else lo';
      AfterPlainVisit(c, t, o, h.table, h.order, k, q, i.idx, i.nextKey, lo, lo', lo'');
      if AtStage(stage, c, t, lo, doomed) {
        stage' := StageAfter(stage, c, t, o, h.table, h.order, k, q, lo, doomed, visit, i.idx, i.nextKey, lo', lo'');
      }
      if g.twice.Some? {
        TwiceNotMisled(g, c, t, o, h.table, h.order, k, q, visited, lo, i.idx, i.nextKey, lo');
      }
      ProgressRemoved(g, c, t, o, h.table, h.order, k, q, visited, lo, lo', lo'');
      misled := i.idx != IDX_NIL && h.dibs[i.idx] == DIB_RAW_FREE && h.buckets[i.idx].key == i.nextKey;
    } else {
      lo'' := lo';
      ProgressKept(g, c, t, o, visited, lo, k, lo');
      if NeverMisled(c, t, lo) {
        HarmlessKept(c, t, lo, lo');
      }
      if AtStage(stage, c, t, lo, doomed) {
        StageKept(stage, c, t, o, lo, doomed, k, visit, lo');
      }
    }
  }

  lemma SomeDoomed(g: Outlook, c: Config, t: Table, order: seq<nat>, visited: seq<Pair>, lo: nat, k: nat)
    requires Progress(g, c, t, order, visited, lo) && k < |order| && g.doomed(|visited|, Contents(t, order)[k])
    ensures !NoneDoomed(g.items, g.doomed)
  {
    assert Contents(t, order)[k] in Contents(t, order);
  }

  /**
   HASHMAP_FOREACH over a body that may remove the current entry at any visit: no entry is skipped, and
   just the pairs that some visit removed are gone. Every entry is visited exactly once if nothing is
   removed. No choice of removals makes the loop come back to an entry, if and only if one of the first and
   the last bucket is free or holds an entry in its own bucket: otherwise removing just the last entry but
   one does. If the loop is misled to a free bucket, it is followed up to there; no choice of removals misleads
   it, if and only if an entry with a NULL key, if there is one, is harmless (the other half is MisleadIsPossible).
   */
  method PlainForeach(h: HashmapBase, doomed: Body) returns (visited: seq<Pair>, misled: bool)
    requires h.Valid() && h.kind != ORDERED
    modifies h, h.buckets, h.dibs
    ensures h.Valid()
    ensures forall p :: p in visited ==> p in old(h.Items())
    ensures !misled ==> forall p :: p in old(h.Items()) ==> p in visited
    ensures forall p :: p in h.Items() <==> p in old(h.Items()) && !DoomedIn(doomed, visited, p)
    ensures old(NoneDoomed(h.Items(), doomed) || !MayRevisit(h.Cfg(), h.table)) ==> Distinct(visited)
    ensures old(RevisitsFor(h.Cfg(), h.table, doomed)) ==> !misled && !Distinct(visited)
    ensures old(NoneDoomed(h.Items(), doomed) || NeverMisled(h.Cfg(), h.table, 0)) ==> !misled
    ensures old(MisleadsFor(h.Cfg(), h.table, doomed)) ==> misled
  {
    hide Quiet, LowestOk, CapacityOk, Progress, Distinct, NoneDoomed, NeverMisled, AtStage, Contents, MayRevisit, RevisitsFor;
    hide FirstOutlook, Truthful, DoomedIn;
    ghost var c, t, o := h.Cfg(), h.table, h.order;
    QuietIsCore(c, t, o);
    ghost var g := FirstOutlook(c, t, o, doomed);
    ghost var harmless, harmful, stage := NeverMisled(c, t, 0), MisleadsFor(c, t, doomed), InLast(0);
    if harmful {
      stage :| AtStage(stage, c, t, 0, doomed);
    }
    var i := new Iterator();
    visited, misled := [], false;
    StartProgress(g, c, t, o);
    ghost var lo: nat, lo': nat := 0, 0;
    var idx;
    idx, lo' := IterateInInternalOrder(h, i, lo);
    while idx != IDX_NIL
      invariant h.Valid() && fresh(i) && h.buckets == old(h.buckets) && h.dibs == old(h.dibs) && h.kind != ORDERED && h.Cfg() == c
      invariant Progress(g, c, h.table, h.order, visited, lo) && (harmless ==> NeverMisled(c, h.table, lo))
      invariant harmful ==> AtStage(stage, c, h.table, lo, doomed)
      invariant idx == IDX_NIL ==> FreeBetween(h.table, lo, h.table.n)
      invariant idx != IDX_NIL ==> lo <= idx < h.table.n && h.table.dibs[idx] != DIB_RAW_FREE && FreeBetween(h.table, lo, idx)
      invariant idx != IDX_NIL ==> ExactPlainCursor(h.table, i.idx, i.nextKey, idx, lo')
      decreases |h.order|, h.table.n - lo
    {
      var p;
      p, misled, lo, stage := VisitPlain(h, i, idx, doomed, g, stage, |visited|, visited, lo, lo');
      visited := visited + [p];
      if misled {
        CutShort(g, c, h.table, h.order, visited, lo);
        return;
      }
      idx, lo' := IterateInInternalOrder(h, i, lo);
    }
    if harmful {
      StageIsNotLast(stage, c, h.table, h.order, lo, doomed);
    }
    EndProgress(g, c, h.table, h.order, visited, lo);
  }
}
