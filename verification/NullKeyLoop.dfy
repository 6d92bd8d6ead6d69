/**
 Loops over a plain table in which an entry has a NULL key: a free bucket shows
 that key too, and may be taken for the next entry after a removal.
 */
module NullKeyLoop {
  import opened HashOps
  import opened Ring
  import opened Table
  import opened RobinHood
  import opened Removal
  import opened State
  import opened Cursor
  import opened PlainLoop

  ghost predicate HasNull(t: Table, b: nat)
    requires t.Sized() && b < t.n
  {
    t.dibs[b] != DIB_RAW_FREE && t.entries[b].key == NULL
  }

  /** The entry with the NULL key in bucket b misleads no loop that has come to bucket lo, whatever is removed. */
  ghost predicate Harmless(c: Config, t: Table, lo: nat, b: nat)
    requires t.Sized() && b < t.n
  {
    || Displacement(c, t, b) <= 0
    || (b + 1 < t.n && Displacement(c, t, b) <= b + 1
        && (b < lo || b == 0 || Displacement(c, t, b + 1) >= Displacement(c, t, b) || Displacement(c, t, b + 1) >= b))
  }

  ghost predicate NeverMisled(c: Config, t: Table, lo: nat) {
    t.Sized() && forall b {:trigger HasNull(t, b)} :: 0 <= b < t.n && HasNull(t, b) ==> Harmless(c, t, lo, b)
  }

  lemma HarmlessKept(c: Config, t: Table, lo: nat, lo': nat)
    requires NeverMisled(c, t, lo) && lo <= lo'
    ensures NeverMisled(c, t, lo')
  {
    hide Displacement;
  }

  /** The removal of the first entry in front of the loop does not mislead it. */
  lemma NotMisled(c: Config, t: Table, order: seq<nat>, u: Table, o: seq<nat>, k: nat, p: nat, lo: nat, lo': nat)
    requires Quiet(c, t, order) && Removed(c, t, order, u, o, k, p) && NeverMisled(c, t, lo)
    requires lo <= order[k] < lo' < t.n && FreeBetween(t, order[k] + 1, lo') && HasNull(t, lo')
    ensures !LastShifted(t.n, order[k], p, lo')
  {
    hide Displacement, Quiet, Core;
    var base := order[k] + 1;
    assert Next(t.n, order[k]) == base && Ahead(t.n, base, 0) == base;
    if p > 0 {
      InUseShifted(c, t, base, p, base);
      assert lo' == base && Displacement(c, t, base) >= 1;
    }
    assert Harmless(c, t, lo, lo');
  }

  /** Where the entry with the NULL key was before a removal. */
  lemma NullBefore(c: Config, t: Table, order: seq<nat>, u: Table, o: seq<nat>, k: nat, p: nat, b': nat) returns (b: nat)
    requires Quiet(c, t, order) && Removed(c, t, order, u, o, k, p) && u.Sized() && b' < u.n && HasNull(u, b')
    ensures b < t.n && b != order[k] && HasNull(t, b) && b' == ShiftedPlace(t.n, Next(t.n, order[k]), p, b)
    ensures Displacement(c, t, b) >= 0
    ensures Displacement(c, u, b') == if b' == b then Displacement(c, t, b) else Displacement(c, t, b) - 1
  {
    hide Linked, IsRing, Displacement;
    RemovedQuiet(c, t, order, u, o, k, p);
    assert BucketOk(c, u, o, b');
    var j :| 0 <= j < |o| && o[j] == b';
    PlaceAfter(c, t, order, u, o, k, p, j);
    b := Without(order, k)[j];
    var i := if j < k then j else j + 1;
    InBucket(c, t, order, i);
  }

  /** The displacement of the entry behind another one after a removal, if both are displaced. */
  lemma FollowerAfter(c: Config, t: Table, order: seq<nat>, u: Table, o: seq<nat>, k: nat, p: nat, b: nat)
    requires Quiet(c, t, order) && Removed(c, t, order, u, o, k, p)
    requires order[k] < b && b + 1 < t.n && Displacement(c, t, b + 1) >= 1
    ensures u.n == t.n && u.Sized()
    ensures if Distance(t.n, b, Next(t.n, order[k])) < p then Displacement(c, u, b) == Displacement(c, t, b + 1) - 1
            else Displacement(c, u, b + 1) == Displacement(c, t, b + 1)
  {
    hide Quiet, Core, Displacement;
    RemovedQuiet(c, t, order, u, o, k, p);
    QuietIsCore(c, u, o);
    var n, base := t.n, Next(t.n, order[k]);
    assert base == order[k] + 1 && Ahead(n, base, b - base) == b && Ahead(n, base, b + 1 - base) == b + 1;
    var i := InUse(c, t, order, b + 1);
    var j := if i < k then i else i - 1;
    WithoutAt(order, k, i);
    PlaceAfter(c, t, order, u, o, k, p, j);
  }

  /** No removal makes the entry with the NULL key harmful. */
  lemma HarmlessRemoved(c: Config, t: Table, order: seq<nat>, u: Table, o: seq<nat>, k: nat, p: nat, lo: nat, lo': nat)
    requires Quiet(c, t, order) && Removed(c, t, order, u, o, k, p) && NeverMisled(c, t, lo)
    requires lo <= order[k] && FreeBetween(t, lo, order[k]) && (lo' == order[k] || order[k] < lo')
    ensures NeverMisled(c, u, lo')
  {
    hide Quiet, Core, Displacement;
    RemovedQuiet(c, t, order, u, o, k, p);
    QuietIsCore(c, u, o);
    forall b' {:trigger HasNull(u, b')} | 0 <= b' < u.n && HasNull(u, b') ensures Harmless(c, u, lo', b') {
      var b := NullBefore(c, t, order, u, o, k, p, b');
      assert Harmless(c, t, lo, b);
      var d := Displacement(c, t, b);
      if d >= 1 && b > order[k] && b + 1 < t.n && Displacement(c, t, b + 1) >= 1 {
        FollowerAfter(c, t, order, u, o, k, p, b);
      }
      assert d >= 1 && lo <= b ==> b > order[k];
    }
  }

  /** An entry with the NULL key that is in its own bucket is never shifted. */
  ghost predicate NullAtHome(c: Config, t: Table) {
    t.Sized() && forall b {:trigger HasNull(t, b)} :: 0 <= b < t.n && HasNull(t, b) ==> Displacement(c, t, b) <= 0
  }

  lemma NullStaysAtHome(c: Config, t: Table, order: seq<nat>, u: Table, o: seq<nat>, k: nat, p: nat)
    requires Quiet(c, t, order) && Removed(c, t, order, u, o, k, p) && NullAtHome(c, t)
    ensures NullAtHome(c, u)
  {
    hide Quiet, Core, Displacement;
    RemovedQuiet(c, t, order, u, o, k, p);
    QuietIsCore(c, u, o);
    forall b' {:trigger HasNull(u, b')} | 0 <= b' < u.n && HasNull(u, b') ensures Displacement(c, u, b') <= 0 {
      var b := NullBefore(c, t, order, u, o, k, p, b');
    }
  }

  lemma HomeIsNotShifted(c: Config, t: Table, hole: nat, p: nat, b: nat)
    requires t.Sized() && hole < t.n && p <= t.n && Passed(c, t, Next(t.n, hole), p) && b < t.n && Displacement(c, t, b) <= 0
    ensures !LastShifted(t.n, hole, p, b)
  {
    hide Displacement;
  }

  lemma NoNullIsHarmless(c: Config, t: Table, order: seq<nat>)
    requires Quiet(c, t, order) && forall p :: p in Contents(t, order) ==> p.key != NULL
    ensures NeverMisled(c, t, 0) && NullAtHome(c, t)
  {
    hide Displacement, Linked, IsRing;
    forall b | 0 <= b < t.n && t.dibs[b] != DIB_RAW_FREE ensures !HasNull(t, b) {
      assert BucketOk(c, t, order, b);
      var k :| 0 <= k < |order| && order[k] == b;
      assert Contents(t, order)[k] in Contents(t, order);
    }
  }

  /** The removal that carries an entry across the end of the table does not mislead the loop. */
  lemma TwiceNotMisled(g: Outlook, c: Config, t: Table, order: seq<nat>, u: Table, o: seq<nat>, k: nat, p: nat, visited: seq<Pair>, lo: nat,
                       cursor: nat, nextKey: Ptr, lo': nat)
    requires c.ops.Lawful() && Quiet(c, t, order) && Removed(c, t, order, u, o, k, p) && Progress(g, c, t, order, visited, lo) && g.twice.Some?
    requires g.doomed(|visited|, Contents(t, order)[k]) && ExactPlainCursor(t, cursor, nextKey, order[k], lo')
    ensures u.n == t.n && u.Sized() && !Misled(u, cursor, nextKey)
  {
    hide Core, Quiet, Displacement, SomeAhead;
    QuietIsCore(c, t, order);
    PairsDistinct(c, t, order);
    var now := Contents(t, order);
    assert now[k] in now && now[k] == g.twice.value;
    var j := LastButOne(c, t, order);
    assert j == k;
    assert Ahead(t.n, t.n - 1, 0) == t.n - 1 && Ahead(t.n, t.n - 1, 1) == 0;
    assert p >= 2;
    PlainCursorSurvives(c, t, order, u, o, k, p, cursor, nextKey, lo', if p > 0 && order[k] + 1 < t.n then order[k] else lo');
  }

  /** What is visited is never again in front of a loop that is cut short; what it removed is gone. */
  lemma CutShort(g: Outlook, c: Config, t: Table, order: seq<nat>, visited: seq<Pair>, lo: nat)
    requires Progress(g, c, t, order, visited, lo)
    ensures forall p :: p in visited ==> p in g.items
    ensures forall p :: p in Contents(t, order) <==> p in g.items && !DoomedIn(g.doomed, visited, p)
    ensures g.once ==> Distinct(visited)
  {
  }
}
