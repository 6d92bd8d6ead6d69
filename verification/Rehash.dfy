/**
 The in-place rehash of resize_buckets: all entries of the old table are marked
 as pending under the new hash key and bucket count, and are settled one by one,
 each possibly making another pending entry homeless.
 */
module Rehash {
  import opened HashOps
  import opened Ring
  import opened Table
  import opened RobinHood

  /** The old storage inside the new one: entries keep their buckets, every one of them is pending. */
  ghost function Enlarged(t: Table, n: nat): (u: Table)
    requires |t.dibs| == t.n <= n
    ensures |u.dibs| == u.n == n
  {
    Table(n,
          map idx | idx in Indices(n) :: if idx in t.entries then t.entries[idx] else ZERO_ENTRY,
          seq(n, idx requires 0 <= idx < n =>
            if idx < t.n && t.dibs[idx] != DIB_RAW_FREE then DIB_RAW_REHASH else DIB_RAW_FREE),
          t.head, t.tail)
  }

  lemma EnlargedCore(c: Config, c': Config, t: Table, order: seq<nat>, n: nat)
    requires Core(c, t, order) && IDX_PUT !in order && c'.ordered == c.ordered
    requires t.n <= n <= IDX_SWAP_BEGIN
    ensures var u := Enlarged(t, n);
            && Core(c', u, order) && Contents(u, order) == Contents(t, order)
            && forall i :: 0 <= i < n ==> !Settled(u, i)
  {
    var u := Enlarged(t, n);
    assert u.Sized();
    forall i | 0 <= i < n ensures BucketOk(c', u, order, i) && Displacement(c', u, i) == -1 {
      if i < t.n {
        assert BucketOk(c, t, order, i);
      } else {
        assert i !in order;
      }
    }
    forall k | 0 <= k < |order| ensures order[k] in u.entries && u.entries[order[k]] == t.entries[order[k]] {
    }
    if c.ordered {
      forall k | 0 <= k < |order| ensures LinkedAt(u, order, k) {
        assert LinkedAt(t, order, k);
      }
    }
    assert Contents(u, order) == Contents(t, order);
  }

  // ----- counting

  ghost function SettledSet(t: Table): set<nat>
    requires |t.dibs| == t.n
  {
    set idx: nat | idx < t.n && t.dibs[idx] < DIB_RAW_REHASH
  }

  ghost function Members(s: seq<nat>): set<nat> {
    set x | x in s
  }

  lemma {:induction false} DistinctCount(s: seq<nat>)
    requires Distinct(s)
    ensures |Members(s)| == |s|
  {
    if s != [] {
      var rest := s[1..];
      DistinctCount(rest);
      assert s[0] !in rest;
      assert Members(s) == Members(rest) + {s[0]};
    }
  }

  lemma SubsetCount(a: set<nat>, b: set<nat>)
    requires a <= b
    ensures |a| <= |b|
    ensures |a| == |b| ==> a == b
  {
    assert b == a + (b - a);
    assert |b| == |a| + |b - a|;
  }

  /** With an entry in hand and no more entries than buckets, some bucket is free. */
  lemma FindRoom(c: Config, t: Table, order: seq<nat>) returns (room: nat)
    requires Core(c, t, order) && IDX_PUT in order && |order| <= t.n
    ensures room < t.n && t.dibs[room] == DIB_RAW_FREE && Profile(c, t)[room] == -1
  {
    if forall i :: 0 <= i < t.n ==> t.dibs[i] != DIB_RAW_FREE {
      var used := Members(order);
      DistinctCount(order);
      forall i | i in Below(t.n) + {IDX_PUT} ensures i in used {
        assert i < t.n ==> BucketOk(c, t, order, i);
      }
      BelowCount(t.n);
      SubsetCount(Below(t.n) + {IDX_PUT}, used);
      assert false;
    }
    room :| room < t.n && t.dibs[room] == DIB_RAW_FREE;
  }

  lemma {:induction false} BelowCount(n: nat)
    ensures |Below(n)| == n
  {
    if n > 0 {
      BelowCount(n - 1);
      assert Below(n) == Below(n - 1) + {n - 1};
    }
  }

  // ----- the loop over the old buckets

  /**
   The state in front of bucket idx of the rehash loop: nothing below idx is
   pending any more, and nRehashed counts the settled entries.
   In the do/while loop, one entry may be in hand (in slot IDX_PUT).
   */
  ghost predicate Rehashing(c: Config, t: Table, order: seq<nat>, items: seq<Pair>, oldN: nat, idx: nat, nRehashed: nat) {
    && Core(c, t, order) && Contents(t, order) == items
    && idx <= oldN <= t.n
    && (forall i :: 0 <= i < idx || oldN <= i < t.n ==> t.dibs[i] != DIB_RAW_REHASH)
    && nRehashed == |SettledSet(t)|
  }

  lemma StartRehashing(c: Config, t: Table, order: seq<nat>, oldN: nat)
    requires Core(c, t, order) && oldN <= t.n
    requires forall i :: 0 <= i < t.n ==> !Settled(t, i)
    requires forall i :: oldN <= i < t.n ==> t.dibs[i] != DIB_RAW_REHASH
    ensures Rehashing(c, t, order, Contents(t, order), oldN, 0, 0)
  {
    forall i ensures i !in SettledSet(t) {
      assert 0 <= i < t.n ==> !Settled(t, i);
    }
    assert SettledSet(t) == {};
  }

  lemma LoopFacts(c: Config, t: Table, order: seq<nat>, items: seq<Pair>, oldN: nat, idx: nat, nRehashed: nat)
    requires Rehashing(c, t, order, items, oldN, idx, nRehashed)
    ensures Core(c, t, order) && t.Sized() && Places(t, order) && |order| == |items| && oldN <= t.n
    ensures idx < oldN && IDX_PUT !in order && t.dibs[idx] == DIB_RAW_REHASH && c.ordered ==> t.LinksInside(true, idx)
  {
    assert |Contents(t, order)| == |items|;
    if idx < oldN && IDX_PUT !in order && t.dibs[idx] == DIB_RAW_REHASH && c.ordered {
      assert BucketOk(c, t, order, idx);
      TakeUpKeepsList(t, true, order, idx);
    }
  }

  lemma SkipBucket(c: Config, t: Table, order: seq<nat>, items: seq<Pair>, oldN: nat, idx: nat, nRehashed: nat)
    requires Rehashing(c, t, order, items, oldN, idx, nRehashed) && idx < oldN
    requires t.dibs[idx] != DIB_RAW_REHASH
    ensures Rehashing(c, t, order, items, oldN, idx + 1, nRehashed)
  {
  }

  /** By luck the pending entry is in its own bucket already. */
  lemma SettleInPlace(c: Config, t: Table, u: Table, order: seq<nat>, items: seq<Pair>, oldN: nat, idx: nat, nRehashed: nat)
    requires Rehashing(c, t, order, items, oldN, idx, nRehashed) && idx < oldN
    requires t.dibs[idx] == DIB_RAW_REHASH && c.Home(t.n, t.entries[idx].key) == idx
    requires u == t.(dibs := t.dibs[idx := 0])
    ensures Rehashing(c, u, order, items, oldN, idx + 1, nRehashed + 1)
  {
    ListIgnoresDibs(t, u, c.ordered, order);
    forall i | 0 <= i < t.n
      ensures BucketOk(c, u, order, i)
      ensures Displacement(c, u, i) == if i == idx then 0 else Displacement(c, t, i)
    {
      assert BucketOk(c, t, order, i);
    }
    assert Profile(c, u) == Profile(c, t)[idx := 0];
    PlaceKeepsRing(Profile(c, t), idx, 0);
    assert SettledSet(u) == SettledSet(t) + {idx};
  }

  /** The pending entry of bucket idx is taken into hand, and its bucket is cleared. */
  function TakeUp(t: Table, ordered: bool, idx: nat): Table
    requires idx in t.entries && IDX_PUT in t.entries && idx < |t.dibs|
  {
    var u := t.(dibs := t.dibs[idx := DIB_RAW_FREE]).Move(ordered, idx, IDX_PUT);
    u.(entries := u.entries[idx := ZERO_ENTRY])
  }

  lemma TakeUpKeepsList(t: Table, ordered: bool, order: seq<nat>, idx: nat)
    requires t.Sized() && Places(t, order) && (ordered ==> Linked(t, order))
    requires idx < t.n && idx in order && IDX_PUT !in order && IDX_TMP !in order
    ensures ordered ==> t.LinksInside(true, idx)
    ensures var u, o := TakeUp(t, ordered, idx), Rename(order, idx, IDX_PUT);
            && u.Sized() && Places(u, o) && (ordered ==> Linked(u, o)) && Contents(u, o) == Contents(t, order)
            && IDX_PUT in o && IDX_TMP !in o && idx !in o
            && (forall i :: i != idx && i != IDX_PUT ==> (i in o <==> i in order))
            && (forall i :: 0 <= i < t.n && i != idx ==> u.entries[i].Stored() == t.entries[i].Stored())
  {
    var t0 := t.(dibs := t.dibs[idx := DIB_RAW_FREE]);
    ListIgnoresDibs(t, t0, ordered, order);
    MoveKeepsList(t0, ordered, order, idx, IDX_PUT);
    var t1, o := t0.Move(ordered, idx, IDX_PUT), Rename(order, idx, IDX_PUT);
    var u := t1.(entries := t1.entries[idx := ZERO_ENTRY]);
    if ordered {
      forall k | 0 <= k < |o| ensures LinkedAt(u, o, k) {
        assert LinkedAt(t1, o, k);
      }
    }
    assert Contents(u, o) == Contents(t1, o);
  }

  lemma TakeUpPending(c: Config, t: Table, u: Table, order: seq<nat>, o: seq<nat>, items: seq<Pair>, oldN: nat, idx: nat, nRehashed: nat)
    requires Rehashing(c, t, order, items, oldN, idx, nRehashed) && idx < oldN
    requires IDX_PUT !in order && t.dibs[idx] == DIB_RAW_REHASH
    requires u == TakeUp(t, c.ordered, idx) && o == Rename(order, idx, IDX_PUT)
    ensures Rehashing(c, u, o, items, oldN, idx + 1, nRehashed) && IDX_PUT in o
    ensures u.n == t.n && u.dibs == t.dibs[idx := DIB_RAW_FREE] && IDX_PUT in u.entries
    ensures u.entries[IDX_PUT].key == t.entries[idx].key
  {
    assert BucketOk(c, t, order, idx);
    TakeUpKeepsList(t, c.ordered, order, idx);
    forall i | 0 <= i < t.n
      ensures BucketOk(c, u, o, i) && Displacement(c, u, i) == Displacement(c, t, i)
    {
      assert BucketOk(c, t, order, i);
    }
    assert Profile(c, u) == Profile(c, t);
    assert SettledSet(u) == SettledSet(t);
  }

  lemma SettledBound(c: Config, t: Table, order: seq<nat>)
    requires Core(c, t, order)
    ensures |SettledSet(t)| <= |order|
    ensures IDX_PUT in order ==> |SettledSet(t)| < |order|
  {
    var used := Members(order);
    DistinctCount(order);
    forall i | i in SettledSet(t) ensures i in used && i != IDX_PUT {
      assert BucketOk(c, t, order, i);
    }
    if IDX_PUT in order {
      SubsetCount(SettledSet(t) + {IDX_PUT}, used);
    } else {
      SubsetCount(SettledSet(t), used);
    }
  }

  /** A round of the do/while loop can start: there is room, and an entry that does not count as rehashed. */
  lemma RoundReady(c: Config, t: Table, order: seq<nat>, items: seq<Pair>, oldN: nat, idx: nat, nRehashed: nat) returns (room: nat)
    requires Rehashing(c, t, order, items, oldN, idx, nRehashed) && IDX_PUT in order && |order| <= t.n
    ensures Core(c, t, order) && nRehashed < |order|
    ensures room < t.n && Profile(c, t)[room] == -1
  {
    SettledBound(c, t, order);
    room := FindRoom(c, t, order);
  }

  /** One round of the do/while loop settles one more entry, and the number of pending entries drops if it displaced one. */
  lemma RoundSettles(c: Config, t: Table, u: Table, order: seq<nat>, o: seq<nat>, items: seq<Pair>, oldN: nat, idx: nat, nRehashed: nat, filled: nat)
    requires Rehashing(c, t, order, items, oldN, idx, nRehashed)
    requires Probed(c, t, order, u, o, filled)
    ensures Rehashing(c, u, o, items, oldN, idx, nRehashed + 1)
    ensures |o| == |order| && u.n == t.n && OneMoreSettled(t.dibs, u.dibs, filled) && IDX_PUT in u.entries
  {
    assert |Contents(u, o)| == |items|;
    assert SettledSet(u) == SettledSet(t) + {filled};
    forall i | 0 <= i < idx || oldN <= i < u.n ensures u.dibs[i] != DIB_RAW_REHASH {
      assert i == filled || SameClass(t.dibs[i], u.dibs[i]);
    }
  }

  /** After the loop every entry has been rehashed: the assertion n_rehashed == n_entries. */
  lemma AllRehashed(c: Config, t: Table, order: seq<nat>, items: seq<Pair>, oldN: nat, nRehashed: nat)
    requires Rehashing(c, t, order, items, oldN, oldN, nRehashed) && IDX_PUT !in order
    ensures nRehashed == |order|
    ensures NonePending(t)
  {
    var used := Members(order);
    DistinctCount(order);
    forall i ensures i in used <==> i in SettledSet(t) {
      if i in used {
        assert i < t.n;
        assert BucketOk(c, t, order, i);
      }
      if i in SettledSet(t) {
        assert BucketOk(c, t, order, i);
      }
    }
    assert used == SettledSet(t);
  }
}
