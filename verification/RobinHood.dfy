/**
 The invariant of a Robin Hood table in the middle of an operation, and the
 steps that keep it: filling a bucket, exchanging the entry in hand for a
 settled or a pending one, and shifting an entry back.
 */
module RobinHood {
  import opened HashOps
  import opened Ring
  import opened Table

  /** What does not change while an operation runs: the callbacks, the hash key, and whether links are kept. */
  datatype Config = Config(ops: Ops, seed: Seed, ordered: bool) {
    function Home(n: nat, key: Ptr): (r: nat)
      requires n > 0
      ensures r < n
    {
      ops.Home(seed, n, key)
    }
  }

  predicate Settled(t: Table, idx: nat)
    requires idx < |t.dibs|
  {
    t.dibs[idx] < DIB_RAW_REHASH
  }

  ghost function Displacement(c: Config, t: Table, idx: nat): (r: int)
    requires t.Sized() && idx < t.n
    ensures -1 <= r < t.n
  {
    if Settled(t, idx) then Distance(t.n, idx, c.Home(t.n, t.entries[idx].key)) else -1
  }

  ghost function Profile(c: Config, t: Table): (d: seq<int>)
    requires t.Sized()
    ensures |d| == t.n
    ensures forall i :: 0 <= i < t.n ==> d[i] == Displacement(c, t, i)
  {
    seq(t.n, i requires 0 <= i < t.n => Displacement(c, t, i))
  }

  /** The bucket is settled and its DIB byte is the saturated displacement of its entry. */
  ghost predicate DibOk(c: Config, t: Table, idx: nat) {
    t.Sized() && idx < t.n && Settled(t, idx) && t.dibs[idx] == RawDib(Displacement(c, t, idx))
  }

  /** A bucket is in use exactly when its DIB byte says so, the byte is the saturated displacement, free buckets are zeroed. */
  ghost predicate BucketOk(c: Config, t: Table, order: seq<nat>, idx: nat)
    requires t.Sized() && idx < t.n
  {
    && t.dibs[idx] <= DIB_RAW_FREE
    && (idx in order <==> t.dibs[idx] != DIB_RAW_FREE)
    && (Settled(t, idx) ==> t.dibs[idx] == RawDib(Displacement(c, t, idx)))
    && (t.dibs[idx] == DIB_RAW_FREE ==> t.entries[idx].key == NULL)
  }

  /** `order` lists the places in use, buckets and possibly the slot IDX_PUT, oldest entry first. */
  ghost predicate Core(c: Config, t: Table, order: seq<nat>) {
    && t.Sized()
    && Places(t, order) && IDX_TMP !in order
    && (c.ordered ==> Linked(t, order))
    && (forall idx {:trigger BucketOk(c, t, order, idx)} :: 0 <= idx < t.n ==> BucketOk(c, t, order, idx))
    && IsRing(Profile(c, t))
  }

  /** No entry is waiting to be rehashed. */
  ghost predicate NonePending(t: Table) {
    forall i :: 0 <= i < |t.dibs| ==> t.dibs[i] != DIB_RAW_REHASH
  }

  /** u has the entry of t's slot IDX_PUT installed in bucket idx with the given displacement. */
  ghost predicate Installed(t: Table, u: Table, idx: nat, distance: nat)
    requires t.Sized() && idx < t.n
  {
    && u.Sized() && u.n == t.n
    && u.dibs == t.dibs[idx := RawDib(distance)]
    && u.entries[idx].Stored() == t.entries[IDX_PUT].Stored()
    && forall i :: 0 <= i < t.n && i != idx ==> u.entries[i].Stored() == t.entries[i].Stored()
  }

  lemma InstallKeepsCore(c: Config, t: Table, u: Table, order: seq<nat>, o: seq<nat>, idx: nat, distance: nat)
    requires Core(c, t, order) && idx < t.n && Installed(t, u, idx, distance)
    requires Places(u, o) && IDX_TMP !in o && (c.ordered ==> Linked(u, o))
    requires idx in o && forall i :: 0 <= i < t.n && i != idx ==> (i in o <==> i in order)
    requires distance == Distance(t.n, idx, c.Home(t.n, t.entries[IDX_PUT].key))
    requires Profile(c, t)[idx] < distance <= Profile(c, t)[Prev(t.n, idx)] + 1
    ensures Core(c, u, o)
    ensures Profile(c, u) == Profile(c, t)[idx := distance]
  {
    forall i | 0 <= i < t.n
      ensures BucketOk(c, u, o, i)
      ensures Displacement(c, u, i) == if i == idx then distance else Displacement(c, t, i)
    {
      assert BucketOk(c, t, order, i);
    }
    assert Profile(c, u) == Profile(c, t)[idx := distance];
    PlaceKeepsRing(Profile(c, t), idx, distance);
  }

  /** The end of hashmap_put_robin_hood on a free bucket. */
  lemma FillFree(c: Config, t: Table, order: seq<nat>, idx: nat, distance: nat)
    requires Core(c, t, order) && idx < t.n && t.dibs[idx] == DIB_RAW_FREE && IDX_PUT in order
    requires distance == Distance(t.n, idx, c.Home(t.n, t.entries[IDX_PUT].key))
    requires distance <= Profile(c, t)[Prev(t.n, idx)] + 1
    ensures c.ordered ==> t.LinksInside(true, IDX_PUT)
    ensures var u, o := t.SetDib(idx, distance).Move(c.ordered, IDX_PUT, idx), Rename(order, IDX_PUT, idx);
            && Core(c, u, o) && IDX_PUT !in o
            && Contents(u, o) == Contents(t, order)
            && Profile(c, u) == Profile(c, t)[idx := distance]
  {
    assert BucketOk(c, t, order, idx);
    var t1 := t.SetDib(idx, distance);
    assert Places(t1, order) && (c.ordered ==> Linked(t1, order)) by { ListIgnoresDibs(t, t1, c.ordered, order); }
    MoveKeepsList(t1, c.ordered, order, IDX_PUT, idx);
    InstallKeepsCore(c, t, t1.Move(c.ordered, IDX_PUT, idx), order, Rename(order, IDX_PUT, idx), idx, distance);
    assert Contents(t1, order) == Contents(t, order);
  }

  lemma ListIgnoresDibs(t: Table, u: Table, ordered: bool, order: seq<nat>)
    requires Places(t, order) && (ordered ==> Linked(t, order))
    requires u == t.(dibs := u.dibs)
    ensures Places(u, order) && (ordered ==> Linked(u, order))
    ensures Contents(u, order) == Contents(t, order)
  {
    if ordered {
      forall k | 0 <= k < |order| ensures LinkedAt(u, order, k) {
        assert LinkedAt(t, order, k);
      }
    }
  }

  /** The places in use after the entry of a bucket and the entry of IDX_PUT have changed places through IDX_TMP. */
  function Exchange(order: seq<nat>, idx: nat): (o: seq<nat>)
    ensures |o| == |order|
  {
    Rename(Rename(Rename(order, idx, IDX_TMP), IDX_PUT, idx), IDX_TMP, IDX_PUT)
  }

  /** The table after the three moves of an exchange. */
  function Exchanged(t: Table, ordered: bool, idx: nat): (u: Table)
    requires idx in t.entries && IDX_PUT in t.entries && IDX_TMP in t.entries
    ensures u.entries.Keys == t.entries.Keys && u.n == t.n && u.dibs == t.dibs
  {
    t.Move(ordered, idx, IDX_TMP).Move(ordered, IDX_PUT, idx).Move(ordered, IDX_TMP, IDX_PUT)
  }

  lemma ExchangeCopies(t: Table, ordered: bool, idx: nat)
    requires t.Sized() && idx < t.n
    ensures var u := Exchanged(t, ordered, idx);
            && u.Sized()
            && u.entries[idx].Stored() == t.entries[IDX_PUT].Stored()
            && u.entries[IDX_PUT].Stored() == t.entries[idx].Stored()
            && (forall i :: 0 <= i < t.n && i != idx ==> u.entries[i].Stored() == t.entries[i].Stored())
  {
    MoveCopies(t, ordered, idx, IDX_TMP);
    var t1 := t.Move(ordered, idx, IDX_TMP);
    MoveCopies(t1, ordered, IDX_PUT, idx);
    var t2 := t1.Move(ordered, IDX_PUT, idx);
    MoveCopies(t2, ordered, IDX_TMP, IDX_PUT);
  }

  lemma ExchangeKeepsList(t: Table, ordered: bool, order: seq<nat>, idx: nat)
    requires t.Sized() && Places(t, order) && (ordered ==> Linked(t, order))
    requires idx < t.n && idx in order && IDX_PUT in order && IDX_TMP !in order
    ensures var u, o := Exchanged(t, ordered, idx), Exchange(order, idx);
            && Places(u, o) && (ordered ==> Linked(u, o)) && Contents(u, o) == Contents(t, order)
            && idx in o && IDX_PUT in o && IDX_TMP !in o
            && (forall i :: 0 <= i < t.n && i != idx ==> (i in o <==> i in order))
  {
    MoveKeepsList(t, ordered, order, idx, IDX_TMP);
    var t1, o1 := t.Move(ordered, idx, IDX_TMP), Rename(order, idx, IDX_TMP);
    MoveKeepsList(t1, ordered, o1, IDX_PUT, idx);
    var t2, o2 := t1.Move(ordered, IDX_PUT, idx), Rename(o1, IDX_PUT, idx);
    MoveKeepsList(t2, ordered, o2, IDX_TMP, IDX_PUT);
  }

  /** Each of the three moves of an exchange finds its links leading to existing places. */
  lemma ExchangeLinksInside(t: Table, order: seq<nat>, idx: nat)
    requires t.Sized() && Places(t, order) && Linked(t, order)
    requires idx < t.n && idx in order && IDX_PUT in order && IDX_TMP !in order
    ensures t.LinksInside(true, idx)
    ensures t.Move(true, idx, IDX_TMP).LinksInside(true, IDX_PUT)
    ensures t.Move(true, idx, IDX_TMP).Move(true, IDX_PUT, idx).LinksInside(true, IDX_TMP)
  {
    MoveKeepsList(t, true, order, idx, IDX_TMP);
    var t1, o1 := t.Move(true, idx, IDX_TMP), Rename(order, idx, IDX_TMP);
    MoveKeepsList(t1, true, o1, IDX_PUT, idx);
    var t2, o2 := t1.Move(true, IDX_PUT, idx), Rename(o1, IDX_PUT, idx);
    MoveKeepsList(t2, true, o2, IDX_TMP, IDX_PUT);
  }

  /** Swapping the entry in hand with the wealthier, or still pending, entry of a bucket. */
  lemma ExchangeKeepsCore(c: Config, t: Table, order: seq<nat>, idx: nat, distance: nat)
    requires Core(c, t, order) && idx < t.n && t.dibs[idx] != DIB_RAW_FREE && IDX_PUT in order
    requires distance == Distance(t.n, idx, c.Home(t.n, t.entries[IDX_PUT].key))
    requires Profile(c, t)[idx] < distance <= Profile(c, t)[Prev(t.n, idx)] + 1
    ensures var u, o := Exchanged(t, c.ordered, idx).SetDib(idx, distance), Exchange(order, idx);
            && Core(c, u, o) && IDX_PUT in o
            && Contents(u, o) == Contents(t, order)
            && Profile(c, u) == Profile(c, t)[idx := distance]
            && u.entries[IDX_PUT].Stored() == t.entries[idx].Stored()
  {
    assert BucketOk(c, t, order, idx);
    ExchangeCopies(t, c.ordered, idx);
    ExchangeKeepsList(t, c.ordered, order, idx);
    var t3, o := Exchanged(t, c.ordered, idx), Exchange(order, idx);
    var u := t3.SetDib(idx, distance);
    ListIgnoresDibs(t3, u, c.ordered, o);
    InstallKeepsCore(c, t, u, order, o, idx, distance);
  }

  /** What putting the entry in hand into bucket `filled` means for the DIB bytes: one more bucket is settled. */
  ghost predicate OneMoreSettled(dibs: seq<nat>, dibs': seq<nat>, filled: nat) {
    && filled < |dibs| == |dibs'|
    && dibs[filled] >= DIB_RAW_REHASH && dibs'[filled] < DIB_RAW_REHASH
    && forall i :: 0 <= i < |dibs| && i != filled ==> SameClass(dibs[i], dibs'[i])
  }

  /** Both free, both pending, or both settled. */
  ghost predicate SameClass(raw: nat, raw': nat) {
    raw == raw' || (raw < DIB_RAW_REHASH && raw' < DIB_RAW_REHASH)
  }

  /**
   The scan of hashmap_put_robin_hood, started on table t0 with list o0, has reached
   bucket idx with an entry in hand that would be displaced by `distance` there.
   Bucket `room` is unsettled and still ahead.
   */
  ghost predicate Probing(c: Config, t0: Table, o0: seq<nat>, t: Table, order: seq<nat>, idx: nat, distance: nat, room: nat) {
    && Core(c, t, order) && IDX_PUT in order
    && Places(t0, o0) && Contents(t, order) == Contents(t0, o0)
    && t.n == |t0.dibs| && idx < t.n && room < t.n
    && (forall i :: 0 <= i < t.n ==> SameClass(t0.dibs[i], t.dibs[i]))
    && distance == Distance(t.n, idx, c.Home(t.n, t.entries[IDX_PUT].key))
    && distance <= Profile(c, t)[Prev(t.n, idx)] + 1
    && Profile(c, t)[room] == -1
  }

  lemma StartProbing(c: Config, t: Table, order: seq<nat>, idx: nat, room: nat)
    requires Core(c, t, order) && IDX_PUT in order
    requires idx == c.Home(t.n, t.entries[IDX_PUT].key)
    requires room < t.n && Profile(c, t)[room] == -1
    ensures Probing(c, t, order, t, order, idx, 0, room)
  {
  }

  /** The entry in slot IDX_PUT can be moved into bucket idx. */
  ghost predicate Fillable(t: Table, ordered: bool, idx: nat) {
    && t.Sized() && idx < t.n
    && (ordered ==> t.LinksInside(true, IDX_PUT))
  }

  /** The entry in slot IDX_PUT and the entry of bucket idx can change places. */
  ghost predicate Exchangeable(t: Table, ordered: bool, order: seq<nat>, idx: nat) {
    && t.Sized() && idx < t.n
    && Places(t, order) && IDX_PUT in order && idx in order && IDX_TMP !in order
    && (ordered ==> Linked(t, order))
  }

  /** What the scan relies on at every bucket. */
  lemma ProbeReady(c: Config, t0: Table, o0: seq<nat>, t: Table, order: seq<nat>, idx: nat, distance: nat, room: nat)
    requires Probing(c, t0, o0, t, order, idx, distance, room)
    ensures t.Sized() && idx < t.n && t.dibs[idx] <= DIB_RAW_FREE
    ensures IDX_PUT in t.entries && IDX_TMP in t.entries && idx in t.entries && idx < |t.dibs|
    ensures t.dibs[idx] < DIB_RAW_REHASH ==> DibOk(c, t, idx) && Displacement(c, t, idx) >= 0
    ensures Fillable(t, c.ordered, idx)
    ensures t.dibs[idx] != DIB_RAW_FREE ==> Exchangeable(t, c.ordered, order, idx)
  {
    assert BucketOk(c, t, order, idx);
    if c.ordered {
      var k :| 0 <= k < |order| && order[k] == IDX_PUT;
      LinkedInside(t, order, k);
    }
  }

  /** Past a bucket that is at least as displaced as the entry in hand. */
  lemma ProbeOn(c: Config, t0: Table, o0: seq<nat>, t: Table, order: seq<nat>, idx: nat, distance: nat, room: nat)
    requires Probing(c, t0, o0, t, order, idx, distance, room)
    requires distance <= Displacement(c, t, idx)
    ensures Probing(c, t0, o0, t, order, Next(t.n, idx), distance + 1, room)
    ensures Distance(t.n, room, Next(t.n, idx)) < Distance(t.n, room, idx)
  {
    HeadRoom(Profile(c, t), idx, room);
  }

  /** Robin Hood: the wealthier entry comes to hand. */
  lemma ProbeSwap(c: Config, t0: Table, o0: seq<nat>, t: Table, u: Table, order: seq<nat>, o: seq<nat>, idx: nat, distance: nat, room: nat)
    requires Probing(c, t0, o0, t, order, idx, distance, room)
    requires 0 <= Displacement(c, t, idx) < distance
    requires u == Exchanged(t, c.ordered, idx).SetDib(idx, distance) && o == Exchange(order, idx)
    ensures Probing(c, t0, o0, u, o, idx, Displacement(c, t, idx), room)
    ensures Displacement(c, u, idx) == distance && u.n == t.n
  {
    assert BucketOk(c, t, order, idx);
    ExchangeKeepsCore(c, t, order, idx, distance);
    assert Profile(c, t)[Next(t.n, Prev(t.n, idx))] <= Profile(c, t)[Prev(t.n, idx)] + 1;
  }

  /** What the scan leaves behind: the bucket it ended at is settled, and the bucket after that one is a stop bucket. */
  ghost predicate Probed(c: Config, t0: Table, o0: seq<nat>, t: Table, order: seq<nat>, filled: nat) {
    && Core(c, t, order)
    && Places(t0, o0) && Contents(t, order) == Contents(t0, o0)
    && t.n == |t0.dibs| && OneMoreSettled(t0.dibs, t.dibs, filled)
    && (IDX_PUT in order <==> t0.dibs[filled] == DIB_RAW_REHASH)
    && Displacement(c, t, Next(t.n, filled)) <= 0
  }

  lemma ProbeFill(c: Config, t0: Table, o0: seq<nat>, t: Table, u: Table, order: seq<nat>, o: seq<nat>, idx: nat, distance: nat, room: nat)
    requires Probing(c, t0, o0, t, order, idx, distance, room)
    requires t.dibs[idx] == DIB_RAW_FREE
    requires u == t.SetDib(idx, distance).Move(c.ordered, IDX_PUT, idx) && o == Rename(order, IDX_PUT, idx)
    ensures Probed(c, t0, o0, u, o, idx) && IDX_PUT !in o
  {
    FillFree(c, t, order, idx, distance);
    assert Profile(c, t)[Next(t.n, idx)] <= 0;
  }

  lemma ProbeEvict(c: Config, t0: Table, o0: seq<nat>, t: Table, u: Table, order: seq<nat>, o: seq<nat>, idx: nat, distance: nat, room: nat)
    requires Probing(c, t0, o0, t, order, idx, distance, room)
    requires t.dibs[idx] == DIB_RAW_REHASH
    requires u == Exchanged(t, c.ordered, idx).SetDib(idx, distance) && o == Exchange(order, idx)
    ensures Probed(c, t0, o0, u, o, idx) && IDX_PUT in o
  {
    assert BucketOk(c, t, order, idx);
    ExchangeKeepsCore(c, t, order, idx, distance);
    assert Profile(c, t)[Next(t.n, idx)] <= 0;
  }
}
