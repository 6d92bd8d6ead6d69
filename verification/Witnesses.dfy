/**
 Tables on which the operations do what their users may not expect.
 */
module Witnesses {
  import opened Common
  import opened HashOps
  import opened Ring
  import opened Table
  import opened RobinHood
  import opened Removal
  import opened State
  import opened Growth
  import opened Hashmap
  import opened Cursor
  import opened PlainLoop
  import opened NullKeyLoop
  import opened HashmapIterate

  /** Callbacks under which every key has the same home, and keys are compared by address. */
  function Colliding(home: nat): Ops {
    Ops((seed: Seed, key: Ptr) => home, (a: Ptr, b: Ptr) => a - b)
  }

  lemma CollidingLawful(home: nat)
    ensures Colliding(home).Lawful()
  {
  }

  /** Three entries of a table of four buckets that all belong to bucket 2 are in the buckets 2, 3 and 0. */
  lemma ThreeOfFour(c: Config, t: Table, order: seq<nat>)
    requires Quiet(c, t, order) && c.ops == Colliding(2) && t.n == 4 && |order| == 3
    ensures MayRevisit(c, t)
  {
    InBucket(c, t, order, 0);
    InBucket(c, t, order, 1);
    InBucket(c, t, order, 2);
    assert BucketOk(c, t, order, 0) && BucketOk(c, t, order, 1) && BucketOk(c, t, order, 2) && BucketOk(c, t, order, 3);
    var d := Profile(c, t);
    assert Next(4, 2) == 3 && Next(4, 3) == 0 && Next(4, 0) == 1;
    assert d[3] <= d[2] + 1 && d[0] <= d[3] + 1 && d[1] <= d[0] + 1;
  }

  /** Two entries of a table of two buckets that both belong to bucket 0. */
  lemma TwoOfTwo(c: Config, t: Table, order: seq<nat>)
    requires Quiet(c, t, order) && c.ops == Colliding(0) && t.n == 2 && |order| == 2
    ensures Displacement(c, t, 0) == 0 && Displacement(c, t, 1) == 1
  {
    InBucket(c, t, order, 0);
    InBucket(c, t, order, 1);
    assert BucketOk(c, t, order, 0) && BucketOk(c, t, order, 1);
  }

  lemma DirectKeeps(kind: HashmapType, w: nat, nBuckets: nat, nEntries: nat)
    requires WordSize(w) && nEntries < DirectBuckets(kind, w)
    ensures PlanResize(kind, w, false, nBuckets, nEntries, 1) == Keep
  {
    hide DirectBuckets, CellSize, Wanted, WantedBytes, Log2uRoundUp;
    DirectStorageFits(kind, w);
  }

  /** Puts a new key into a set with room in direct storage. */
  method AddToSet(h: HashmapBase, key: Ptr, seed: Seed)
    requires h.Valid() && h.kind == SET && !h.hasIndirect && |h.Items()| < DirectBuckets(SET, h.wordSize)
    requires Lookup(h.ops, h.Items(), key) == |h.Items()|
    modifies h, h.buckets, h.dibs
    ensures h.Valid() && h.Items() == old(h.Items()) + [Pair(key, NULL)] && !h.hasIndirect
    ensures (h.buckets == old(h.buckets) || fresh(h.buckets)) && (h.dibs == old(h.dibs) || fresh(h.dibs))
  {
    hide Quiet, CapacityOk, LowestOk, Contents, PlanResize, Lookup;
    DirectKeeps(SET, h.wordSize, h.buckets.Length, h.NEntries());
    var r := h.SetPut(key, seed, true);
    assert !h.StorageRoom().indirect;
  }

  lemma NewKey(home: nat, items: seq<Pair>, key: Ptr)
    requires forall p :: p in items ==> p.key != key
    ensures Lookup(Colliding(home), items, key) == |items|
  {
    LookupNone(Colliding(home), items, key);
  }

  /** A set of three keys with the same home, the third of four buckets. */
  method ThreeKeys(seed: Seed) returns (h: HashmapBase)
    ensures h.Valid() && fresh(h) && fresh(h.buckets) && fresh(h.dibs)
    ensures h.kind == SET && h.ops == Colliding(2) && h.table.n == 4
    ensures h.Items() == [Pair(1, NULL), Pair(2, NULL), Pair(3, NULL)]
  {
    hide Quiet, LowestOk, Contents, Lookup;
    CollidingLawful(2);
    assert DirectBuckets(SET, 8) == 4;
    h := new HashmapBase(Colliding(2), SET, 8, seed);
    NewKey(2, h.Items(), 1);
    AddToSet(h, 1, seed);
    NewKey(2, h.Items(), 2);
    AddToSet(h, 2, seed);
    NewKey(2, h.Items(), 3);
    AddToSet(h, 3, seed);
  }

  /** A loop over a set that visits an entry twice. */
  method VisitedTwice(seed: Seed) returns (visited: seq<Pair>)
    ensures !Distinct(visited)
  {
    hide Quiet, LowestOk, CapacityOk, Contents, MayRevisit, Distinct, NoneDoomed, DoomedIn;
    var h := ThreeKeys(seed);
    ThreeOfFour(h.Cfg(), h.table, h.order);
    NoNullIsHarmless(h.Cfg(), h.table, h.order);
    var last := h.buckets[2].Stored();
    var misled;
    visited, misled := PlainForeach(h, (i: nat, p: Pair) => p == last);
  }

  /** Puts a new key into a map, ordered or not. */
  method AddToMap(h: HashmapBase, key: Ptr, value: Ptr, seed: Seed)
    requires h.Valid() && h.kind != SET && EntriesAddressable(h.kind, h.wordSize, |h.Items()| + 1)
    requires Lookup(h.ops, h.Items(), key) == |h.Items()|
    modifies h, h.buckets, h.dibs
    ensures h.Valid() && h.Items() == old(h.Items()) + [Pair(key, value)]
    ensures !old(h.hasIndirect) && |old(h.Items())| < DirectBuckets(h.kind, h.wordSize) ==> !h.hasIndirect
    ensures (h.buckets == old(h.buckets) || fresh(h.buckets)) && (h.dibs == old(h.dibs) || fresh(h.dibs))
  {
    hide Quiet, LowestOk, Contents, PlanResize, Lookup, CapacityOk, WantedBytes, DirectBuckets;
    AddressableJustWhenDefined(h.kind, h.wordSize, h.hasIndirect, h.buckets.Length, h.shift, h.NEntries(), 1);
    if !h.hasIndirect && |h.Items()| < DirectBuckets(h.kind, h.wordSize) {
      DirectKeeps(h.kind, h.wordSize, h.buckets.Length, h.NEntries());
    }
    var r := h.HashmapPut(key, value, seed, true);
    assert h.StorageRoom().indirect == h.hasIndirect;
  }

  lemma FewAddressable(kind: HashmapType, n: nat)
    requires n <= 2
    ensures EntriesAddressable(kind, 8, n)
  {
  }

  /** hashmap_clear_with_destructor on an ordered table whose oldest value is NULL leaves the other entry behind. */
  method LeftBehind(seed: Seed) returns (h: HashmapBase, destroyed: seq<Ptr>)
    ensures h.Valid() && h.Items() == [Pair(2, 7)] && destroyed == []
  {
    hide Quiet, CapacityOk, LowestOk, Contents, Lookup, LastTaken, EntriesAddressable, DirectBuckets, OthersHaveValues, AllHaveValues;
    CollidingLawful(0);
    FewAddressable(ORDERED, 1);
    FewAddressable(ORDERED, 2);
    h := new HashmapBase(Colliding(0), ORDERED, 8, seed);
    NewKey(0, h.Items(), 1);
    AddToMap(h, 1, NULL, seed);
    NewKey(0, h.Items(), 2);
    AddToMap(h, 2, 7, seed);
    ghost var items := h.Items();
    assert items == [Pair(1, NULL), Pair(2, 7)];
    ghost var stolen;
    destroyed, stolen := ClearWithDestructor(h);
    assert items[0] == Pair(1, NULL) && EntryValue(ORDERED, items[0]) == NULL;
    FirstHasNone(items, stolen, h.Items(), destroyed);
  }

  lemma FirstHasNone(items: seq<Pair>, stolen: seq<Pair>, now: seq<Pair>, destroyed: seq<Ptr>)
    requires |items| == 2 && items[0].value == NULL && items == stolen + now && |destroyed| <= |stolen|
    requires forall j :: 0 <= j < |destroyed| ==> destroyed[j] == stolen[j].value != NULL
    requires if |stolen| == |destroyed| then now == [] else |stolen| == |destroyed| + 1 && stolen[|destroyed|].value == NULL
    ensures destroyed == [] && now == items[1..]
  {
  }

  /** The search for the stop bucket in a full table of two buckets ends where it began. */
  method StopsAtItself(seed: Seed) returns (right: nat)
    ensures right == 0
  {
    hide Quiet, LowestOk, Lookup, Contents, EntriesAddressable, Displacement;
    CollidingLawful(0);
    FewAddressable(PLAIN, 1);
    FewAddressable(PLAIN, 2);
    assert DirectBuckets(PLAIN, 8) == 2;
    var h := new HashmapBase(Colliding(0), PLAIN, 8, seed);
    NewKey(0, h.Items(), 1);
    AddToMap(h, 1, 7, seed);
    NewKey(0, h.Items(), 2);
    AddToMap(h, 2, 7, seed);
    TwoOfTwo(h.Cfg(), h.table, h.order);
    QuietIsCore(h.Cfg(), h.table, h.order);
    ghost var p;
    right, p := h.FindStopBucket(0, 0);
    assert Ahead(2, 1, 0) == 1;
  }

  /** Callbacks under which the NULL key belongs to bucket 1 and all others to bucket 0. */
  function NullApart(): Ops {
    Ops((seed: Seed, key: Ptr) => if key == NULL then 1 else 0, (a: Ptr, b: Ptr) => a - b)
  }

  lemma NullApartLawful()
    ensures NullApart().Lawful()
  {
  }

  lemma NewKeyApart(items: seq<Pair>, key: Ptr)
    requires forall p :: p in items ==> p.key != key
    ensures Lookup(NullApart(), items, key) == |items|
  {
    LookupNone(NullApart(), items, key);
  }

  /** Displacements of two entries that belong to bucket 0 of four and of one that belongs to bucket 1. */
  lemma ThirdOfRing(d: seq<int>, a: nat, b: nat, z: nat)
    requires |d| == 4 && IsRing(d) && a < 4 && b < 4 && z < 4 && a != b && a != z && b != z
    requires d[a] == a && d[b] == b && d[z] == if z == 0 then 3 else z - 1
    requires forall i :: 0 <= i < 4 && i != a && i != b && i != z ==> d[i] == -1
    ensures z == 2 && a + b == 1
  {
    assert Next(4, 3) == 0 && Next(4, 0) == 1 && Next(4, 1) == 2 && Next(4, 2) == 3;
    assert d[0] <= d[3] + 1 && d[1] <= d[0] + 1 && d[2] <= d[1] + 1 && d[3] <= d[2] + 1;
  }

  lemma InItsPlace(c: Config, t: Table, order: seq<nat>, k: nat)
    requires Quiet(c, t, order) && c.ops == NullApart() && t.n == 4 && k < |order|
    ensures t.Sized() && Places(t, order) && order[k] < 4 && t.dibs[order[k]] != DIB_RAW_FREE
    ensures t.entries[order[k]].key == Contents(t, order)[k].key
    ensures Displacement(c, t, order[k]) == Distance(4, order[k], if t.entries[order[k]].key == NULL then 1 else 0)
  {
    InBucket(c, t, order, k);
    assert BucketOk(c, t, order, order[k]);
  }

  lemma InNoPlace(c: Config, t: Table, order: seq<nat>)
    requires Quiet(c, t, order)
    ensures t.Sized() && forall i :: 0 <= i < t.n && i !in order ==> Displacement(c, t, i) == -1 && t.dibs[i] == DIB_RAW_FREE
  {
    forall i | 0 <= i < t.n && i !in order ensures Displacement(c, t, i) == -1 && t.dibs[i] == DIB_RAW_FREE {
      assert BucketOk(c, t, order, i);
    }
  }

  /** The entry with the NULL key stands behind the two others, one bucket behind its own. */
  lemma NullIsThird(c: Config, t: Table, order: seq<nat>) returns (k: nat)
    requires Quiet(c, t, order) && c.ops == NullApart() && t.n == 4 && |order| == 3
    requires forall k :: 0 <= k < 3 ==> Contents(t, order)[k].key == [1, 2, NULL][k]
    ensures k < 2 && order[k] == 1 && order[2] == 2 && t.entries[2].key == NULL && Displacement(c, t, 2) == 1 && Displacement(c, t, 3) <= 0
    ensures t.dibs[0] != DIB_RAW_FREE && t.dibs[1] != DIB_RAW_FREE && t.dibs[2] != DIB_RAW_FREE && t.dibs[3] == DIB_RAW_FREE
  {
    hide Core, Quiet, Displacement, Config.Home;
    QuietIsCore(c, t, order);
    InItsPlace(c, t, order, 0);
    InItsPlace(c, t, order, 1);
    InItsPlace(c, t, order, 2);
    InNoPlace(c, t, order);
    ThirdOfRing(Profile(c, t), order[0], order[1], order[2]);
    k := if order[0] == 1 then 0 else 1;
  }

  /** The removal of the second entry shifts that with the NULL key, and leaves the bucket free that it was in. */
  lemma NullShifts(c: Config, t: Table, order: seq<nat>, u: Table, o: seq<nat>, k: nat, p: nat)
    requires c.ops.Lawful() && Quiet(c, t, order) && Removed(c, t, order, u, o, k, p) && t.n == 4 && |order| == 3
    requires order[k] == 1 && order[2] == 2 && Displacement(c, t, 2) == 1 && Displacement(c, t, 3) <= 0
    ensures u.n == 4 && u.Sized() && u.dibs[2] == DIB_RAW_FREE && u.entries[2].key == NULL
  {
    hide Displacement, Linked, IsRing;
    assert Ahead(4, 2, 0) == 2 && Ahead(4, 2, 1) == 3;
    assert p == 1;
    forall j | 0 <= j < |o| ensures o[j] != 2 {
      assert o[j] == ShiftedPlace(4, 2, 1, Without(order, k)[j]);
    }
    assert BucketOk(c, u, o, 2);
  }

  /**
   A removal during the iteration that leads the iterator to a free bucket: what it takes for the next entry, since
   the key is NULL as remembered, is none, and the one entry still to come has the NULL key.
   */
  method NullKeyMisleads(seed: Seed) returns (h: HashmapBase, i: Iterator)
    ensures h.Valid() && Pair(NULL, NULL) in h.Items()
    ensures i.idx < h.table.n && h.dibs[i.idx] == DIB_RAW_FREE && h.buckets[i.idx].key == i.nextKey
  {
    hide Quiet, LowestOk, CapacityOk, Lookup, Displacement, Removed;
    ghost var k;
    h, i, k := SecondOfThree(seed);
    ghost var t, o := h.table, h.order;
    FindsItself(h.Cfg(), t, o, k);
    var _, p := h.Remove(h.buckets[1].key);
    NullShifts(h.Cfg(), t, o, h.table, h.order, k, p);
  }

  /** A loop over such a set at its second entry. */
  method SecondOfThree(seed: Seed) returns (h: HashmapBase, i: Iterator, ghost k: nat)
    ensures h.Valid() && fresh(h) && fresh(h.buckets) && fresh(h.dibs) && fresh(i)
    ensures h.table.n == 4 && h.Items() == [Pair(1, NULL), Pair(2, NULL), Pair(NULL, NULL)]
    ensures k < 2 && h.order[k] == 1 && h.order[2] == 2 && Displacement(h.Cfg(), h.table, 2) == 1 && Displacement(h.Cfg(), h.table, 3) <= 0
    ensures i.idx == 2 && i.nextKey == NULL
  {
    hide Quiet, LowestOk, CapacityOk, Displacement, Contents;
    h := NullAmongThree(seed);
    k := NullIsThird(h.Cfg(), h.table, h.order);
    i := new Iterator();
    var idx;
    ghost var lo;
    idx, lo := IterateInInternalOrder(h, i, 0);
    idx, lo := IterateInInternalOrder(h, i, lo);
    assert idx == 1;
  }

  method NullAmongThree(seed: Seed) returns (h: HashmapBase)
    ensures h.Valid() && fresh(h) && fresh(h.buckets) && fresh(h.dibs)
    ensures h.kind == SET && h.ops == NullApart() && h.table.n == 4
    ensures h.Items() == [Pair(1, NULL), Pair(2, NULL), Pair(NULL, NULL)]
  {
    hide Quiet, LowestOk, Contents, Lookup;
    NullApartLawful();
    assert DirectBuckets(SET, 8) == 4;
    h := new HashmapBase(NullApart(), SET, 8, seed);
    NewKeyApart(h.Items(), 1);
    AddToSet(h, 1, seed);
    NewKeyApart(h.Items(), 2);
    AddToSet(h, 2, seed);
    NewKeyApart(h.Items(), NULL);
    AddToSet(h, NULL, seed);
  }
}
