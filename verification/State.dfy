/**
 What a table means to its user: the stored pairs, oldest first, under keys that
 compare pairwise different. The lookup that stops early is exact on every valid state.
 */
module State {
  import opened HashOps
  import opened Ring
  import opened Table
  import opened RobinHood
  import opened Removal
  import opened Rehash

  // ----- the abstract contents

  /** No key is stored twice. */
  ghost predicate UniqueKeys(ops: Ops, items: seq<Pair>) {
    forall i, j :: 0 <= i < j < |items| ==> !ops.Same(items[i].key, items[j].key)
  }

  /** The position of the pair stored under a key that compares equal, or the number of pairs. */
  function Lookup(ops: Ops, items: seq<Pair>, key: Ptr): (k: nat)
    ensures k <= |items|
    ensures k < |items| ==> ops.Same(items[k].key, key)
    ensures forall j :: 0 <= j < k ==> !ops.Same(items[j].key, key)
  {
    if items == [] then 0
    else if ops.Same(items[0].key, key) then 0
    else 1 + Lookup(ops, items[1..], key)
  }

  lemma LookupIs(ops: Ops, items: seq<Pair>, key: Ptr, k: nat)
    requires ops.Lawful() && UniqueKeys(ops, items)
    requires k < |items| && ops.Same(items[k].key, key)
    ensures Lookup(ops, items, key) == k
  {
    var l := Lookup(ops, items, key);
    assert ops.Same(items[l].key, key) && ops.Same(key, items[k].key);
    assert ops.Same(items[l].key, items[k].key);
  }

  lemma LookupNone(ops: Ops, items: seq<Pair>, key: Ptr)
    requires forall k :: 0 <= k < |items| ==> !ops.Same(items[k].key, key)
    ensures Lookup(ops, items, key) == |items|
  {
  }

  lemma AppendKeepsUnique(ops: Ops, items: seq<Pair>, p: Pair)
    requires ops.Lawful() && UniqueKeys(ops, items)
    requires Lookup(ops, items, p.key) == |items|
    ensures UniqueKeys(ops, items + [p])
  {
  }

  lemma WithoutKeepsUnique(ops: Ops, items: seq<Pair>, k: nat)
    requires UniqueKeys(ops, items) && k < |items|
    ensures UniqueKeys(ops, Without(items, k))
  {
  }

  lemma LookupFound(ops: Ops, items: seq<Pair>, key: Ptr)
    ensures Lookup(ops, items, key) < |items| <==> exists k :: 0 <= k < |items| && ops.Same(items[k].key, key)
  {
  }

  // ----- valid states

  /** A bucket at which a backward shift may stop. */
  ghost predicate IsStop(c: Config, t: Table, idx: nat) {
    t.Sized() && idx < t.n && Displacement(c, t, idx) <= 0
  }

  /** The state between operations: nothing in hand, nothing pending, and a bucket to stop at. */
  ghost predicate Quiet(c: Config, t: Table, order: seq<nat>) {
    && Core(c, t, order) && IDX_PUT !in order
    && NonePending(t)
    && (exists stop: nat :: IsStop(c, t, stop))
    && UniqueKeys(c.ops, Contents(t, order))
  }

  /** Freshly initialized storage of n buckets. */
  ghost function Emptied(n: nat): (t: Table)
    ensures t.n == n == |t.dibs|
  {
    Table(n, map idx | idx in Indices(n) :: ZERO_ENTRY, seq(n, i => DIB_RAW_FREE), IDX_NIL, IDX_NIL)
  }

  lemma EmptiedQuiet(c: Config, n: nat)
    requires 0 < n <= IDX_SWAP_BEGIN
    ensures Quiet(c, Emptied(n), []) && Contents(Emptied(n), []) == []
  {
    var t := Emptied(n);
    assert t.Sized();
    forall i | 0 <= i < n ensures BucketOk(c, t, [], i) && Displacement(c, t, i) == -1 {
    }
    assert IsStop(c, t, 0);
  }

  /** Below idx_lowest_entry all buckets are free. */
  ghost predicate LowestOk(lowest: nat, dibs: seq<nat>) {
    forall i :: 0 <= i < |dibs| && i < lowest ==> dibs[i] == DIB_RAW_FREE
  }

  lemma QuietIsCore(c: Config, t: Table, order: seq<nat>)
    requires Quiet(c, t, order)
    ensures Core(c, t, order) && t.Sized() && Places(t, order) && IDX_PUT !in order
    ensures UniqueKeys(c.ops, Contents(t, order))
    ensures NonePending(t)
  {
  }

  lemma TailInBuckets(c: Config, t: Table, order: seq<nat>)
    requires Quiet(c, t, order)
    ensures c.ordered ==> t.tail == IDX_NIL || t.tail < t.n
  {
    if c.ordered && |order| > 0 {
      InBucket(c, t, order, |order| - 1);
    }
  }

  /** Enlarged storage is ready for the rehash loop. */
  lemma EnlargedRehashing(c: Config, c': Config, t: Table, order: seq<nat>, n: nat)
    requires Core(c, t, order) && IDX_PUT !in order && c'.ordered == c.ordered
    requires t.n <= n <= IDX_SWAP_BEGIN
    ensures Rehashing(c', Enlarged(t, n), order, Contents(t, order), t.n, 0, 0)
    ensures Enlarged(t, n).Sized()
  {
    EnlargedCore(c, c', t, order, n);
    StartRehashing(c', Enlarged(t, n), order, t.n);
  }

  lemma EnlargedLowest(t: Table, n: nat, lowest: nat)
    requires t.Sized() && t.n <= n && LowestOk(lowest, t.dibs)
    ensures LowestOk(lowest, Enlarged(t, n).dibs)
  {
  }

  lemma LowestBelow(lowest: nat, dibs: seq<nat>, idx: nat)
    requires LowestOk(lowest, dibs) && idx < |dibs| && dibs[idx] != DIB_RAW_FREE
    ensures lowest <= idx
    ensures LowestOk(lowest, dibs[idx := 0]) && LowestOk(lowest, dibs[idx := DIB_RAW_FREE])
  {
  }

  lemma FilledKeepsLowest(lowest: nat, dibs: seq<nat>, dibs': seq<nat>, filled: nat)
    requires LowestOk(lowest, dibs) && OneMoreSettled(dibs, dibs', filled)
    ensures LowestOk(if lowest > filled then filled else lowest, dibs')
  {
    forall i | 0 <= i < |dibs'| && i < lowest && i < filled ensures dibs'[i] == DIB_RAW_FREE {
      assert SameClass(dibs[i], dibs'[i]);
    }
  }

  lemma InBucket(c: Config, t: Table, order: seq<nat>, k: nat)
    requires Core(c, t, order) && IDX_PUT !in order && k < |order|
    ensures order[k] < t.n && t.dibs[order[k]] != DIB_RAW_FREE
  {
    assert BucketOk(c, t, order, order[k]);
  }

  /** Entries never outnumber buckets. */
  lemma EntriesFit(c: Config, t: Table, order: seq<nat>)
    requires Core(c, t, order) && IDX_PUT !in order
    ensures |order| <= t.n
  {
    DistinctCount(order);
    BelowCount(t.n);
    forall i | i in Members(order) ensures i in Below(t.n) {
      var k :| 0 <= k < |order| && order[k] == i;
      InBucket(c, t, order, k);
    }
    SubsetCount(Members(order), Below(t.n));
  }

  lemma FreeBucket(c: Config, t: Table, order: seq<nat>) returns (f: nat)
    requires Core(c, t, order) && |order| < t.n
    ensures IsStop(c, t, f) && t.dibs[f] == DIB_RAW_FREE
  {
    if forall i :: 0 <= i < t.n ==> t.dibs[i] != DIB_RAW_FREE {
      DistinctCount(order);
      BelowCount(t.n);
      forall i | i in Below(t.n) ensures i in Members(order) {
        assert BucketOk(c, t, order, i);
      }
      SubsetCount(Below(t.n), Members(order));
      assert false;
    }
    f :| f < t.n && t.dibs[f] == DIB_RAW_FREE;
  }

  lemma RehashedQuiet(c: Config, t: Table, order: seq<nat>, items: seq<Pair>, oldN: nat, nRehashed: nat)
    requires Rehashing(c, t, order, items, oldN, oldN, nRehashed) && IDX_PUT !in order
    requires |items| < t.n && UniqueKeys(c.ops, items)
    ensures Quiet(c, t, order) && Contents(t, order) == items && nRehashed == |order| == |items|
  {
    AllRehashed(c, t, order, items, oldN, nRehashed);
    assert |Contents(t, order)| == |items|;
    var f := FreeBucket(c, t, order);
  }

  lemma RemovalStop(c: Config, t: Table, order: seq<nat>, k: nat) returns (stop: nat)
    requires Quiet(c, t, order) && k < |order|
    ensures Core(c, t, order) && IDX_PUT !in order && NonePending(t) && order[k] < t.n
    ensures stop < t.n && Displacement(c, t, stop) <= 0
  {
    InBucket(c, t, order, k);
    stop :| IsStop(c, t, stop);
  }

  lemma RemovedQuiet(c: Config, t: Table, order: seq<nat>, u: Table, o: seq<nat>, k: nat, p: nat)
    requires Quiet(c, t, order) && Removed(c, t, order, u, o, k, p)
    ensures Quiet(c, u, o) && Contents(u, o) == Without(Contents(t, order), k) && u.n == t.n
  {
    var f :| 0 <= f < u.n && u.dibs[f] == DIB_RAW_FREE;
    assert IsStop(c, u, f);
    WithoutKeepsUnique(c.ops, Contents(t, order), k);
    forall i | 0 <= i < |u.dibs| ensures u.dibs[i] != DIB_RAW_REHASH {
      assert u.dibs[i] != DIB_RAW_FREE ==> SameClass(t.dibs[i], u.dibs[i]);
    }
  }

  lemma RemovedLowest(c: Config, t: Table, order: seq<nat>, u: Table, o: seq<nat>, k: nat, p: nat, lowest: nat)
    requires LowestOk(lowest, t.dibs) && Removed(c, t, order, u, o, k, p)
    ensures LowestOk(lowest, u.dibs)
  {
    forall i | 0 <= i < |u.dibs| && i < lowest ensures u.dibs[i] == DIB_RAW_FREE {
      assert u.dibs[i] != DIB_RAW_FREE ==> SameClass(t.dibs[i], u.dibs[i]);
    }
  }

  /** After an insertion the bucket behind the one that was filled last is a stop bucket. */
  lemma InsertedQuiet(c: Config, t: Table, order: seq<nat>, u: Table, o: seq<nat>, filled: nat)
    requires Core(c, t, order) && Probed(c, t, order, u, o, filled)
    requires NonePending(t)
    requires UniqueKeys(c.ops, Contents(t, order))
    ensures OneMoreSettled(t.dibs, u.dibs, filled)
    ensures IDX_PUT !in o && Quiet(c, u, o) && Contents(u, o) == Contents(t, order) && |o| == |order| && u.n == t.n
  {
    assert |Contents(u, o)| == |Contents(t, order)|;
    assert IDX_PUT !in o by {
      assert t.dibs[filled] != DIB_RAW_REHASH;
    }
    assert IsStop(c, u, Next(u.n, filled));
    forall i | 0 <= i < |u.dibs| ensures u.dibs[i] != DIB_RAW_REHASH {
      assert i == filled || SameClass(t.dibs[i], u.dibs[i]);
    }
  }

  // ----- the early end of a lookup

  /** None of the first `distance` buckets from `home` on holds a key that compares equal at the displacement looked for. */
  ghost predicate Unmatched(c: Config, t: Table, home: nat, key: Ptr, distance: nat)
    requires t.Sized() && home < t.n && distance <= t.n
  {
    forall j {:trigger Ahead(t.n, home, j)} :: 0 <= j < distance ==>
      !(Displacement(c, t, Ahead(t.n, home, j)) == j && c.ops.Same(t.entries[Ahead(t.n, home, j)].key, key))
  }

  /** What a lookup relies on at every bucket. */
  lemma ScanReady(c: Config, t: Table, order: seq<nat>, idx: nat)
    requires Quiet(c, t, order) && idx < t.n
    ensures t.Sized() && (t.dibs[idx] == DIB_RAW_FREE || DibOk(c, t, idx))
    ensures t.dibs[idx] == DIB_RAW_FREE ==> Displacement(c, t, idx) == -1
  {
    assert BucketOk(c, t, order, idx);
  }

  lemma NothingUnmatched(c: Config, t: Table, home: nat, key: Ptr)
    requires t.Sized() && home < t.n
    ensures Unmatched(c, t, home, key, 0)
  {
  }

  lemma ScanOn(c: Config, t: Table, home: nat, key: Ptr, distance: nat)
    requires t.Sized() && home < t.n && distance < t.n && Unmatched(c, t, home, key, distance)
    requires Displacement(c, t, Ahead(t.n, home, distance)) != distance
             || !c.ops.Same(t.entries[Ahead(t.n, home, distance)].key, key)
    ensures Unmatched(c, t, home, key, distance + 1)
    ensures Ahead(t.n, home, distance + 1) == Next(t.n, Ahead(t.n, home, distance))
  {
  }

  /** Stopping at a free bucket or at "dib < distance" never misses a key that is present. */
  lemma EarlyStopIsExact(c: Config, t: Table, order: seq<nat>, key: Ptr, distance: nat)
    requires c.ops.Lawful() && Quiet(c, t, order) && distance <= t.n
    requires Unmatched(c, t, c.Home(t.n, key), key, distance)
    requires Displacement(c, t, Ahead(t.n, c.Home(t.n, key), distance)) < distance
    ensures Lookup(c.ops, Contents(t, order), key) == |order|
  {
    var home := c.Home(t.n, key);
    forall k | 0 <= k < |order| ensures !c.ops.Same(Contents(t, order)[k].key, key) {
      if c.ops.Same(Contents(t, order)[k].key, key) {
        InBucket(c, t, order, k);
        var b := order[k];
        assert BucketOk(c, t, order, b);
        assert c.Home(t.n, t.entries[b].key) == home;
        var m := Distance(t.n, b, home);
        assert Displacement(c, t, b) == m && Ahead(t.n, home, m) == b;
        if distance <= m {
          RunDown(Profile(c, t), home, m, distance);
        }
        assert false;
      }
    }
  }

  /** A match is the pair that the abstract lookup finds. */
  lemma MatchIsLookup(c: Config, t: Table, order: seq<nat>, key: Ptr, idx: nat) returns (k: nat)
    requires c.ops.Lawful() && Quiet(c, t, order) && idx < t.n
    requires t.dibs[idx] != DIB_RAW_FREE && c.ops.Same(t.entries[idx].key, key)
    ensures k < |order| && order[k] == idx && Lookup(c.ops, Contents(t, order), key) == k
  {
    assert BucketOk(c, t, order, idx);
    k :| 0 <= k < |order| && order[k] == idx;
    LookupIs(c.ops, Contents(t, order), key, k);
  }
}
