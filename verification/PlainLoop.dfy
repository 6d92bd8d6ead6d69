/**
 Loops over a plain table that may remove the current entry: what such a loop
 has achieved at any moment, and when it may come back to an entry.
 */
module PlainLoop {
  import opened Common
  import opened HashOps
  import opened Ring
  import opened Table
  import opened RobinHood
  import opened Removal
  import opened State
  import opened Cursor

  /** A backward shift may carry an entry across the end of the table, from the first bucket to the last one. */
  ghost predicate MayRevisit(c: Config, t: Table) {
    t.Sized() && t.n > 0 && Displacement(c, t, 0) >= 1 && Displacement(c, t, t.n - 1) >= 1
  }

  /** What the body of a loop does: whether it removes the pair of its i-th visit. */
  type Body = (nat, Pair) -> bool

  /** Some visit to p was one that removes it. */
  ghost predicate DoomedIn(doomed: Body, visited: seq<Pair>, p: Pair) {
    exists i :: 0 <= i < |visited| && visited[i] == p && doomed(i, p)
  }

  ghost predicate NoneDoomed(items: seq<Pair>, doomed: Body) {
    forall i: nat, p: Pair :: p in items ==> !doomed(i, p)
  }

  ghost predicate OnlyDoomed(doomed: Body, p: Pair) {
    forall i: nat, q: Pair :: doomed(i, q) <==> q == p
  }

  /** There is a way across the end of the table, and just the pair in the last bucket but one is removed. */
  ghost predicate RevisitsFor(c: Config, t: Table, doomed: Body) {
    MayRevisit(c, t) && t.n >= 2 && OnlyDoomed(doomed, t.entries[t.n - 2].Stored())
  }

  // ----- where entries are after a removal

  /** The place of the j-th of the other entries before the removal of the k-th. */
  lemma PlaceAfter(c: Config, t: Table, order: seq<nat>, u: Table, o: seq<nat>, k: nat, p: nat, j: nat)
    requires Quiet(c, t, order) && Removed(c, t, order, u, o, k, p) && j < |o|
    ensures var w := Without(order, k)[j];
            && w < t.n && w != order[k] && o[j] < u.n && o[j] == ShiftedPlace(t.n, Next(t.n, order[k]), p, w)
            && u.entries[o[j]].key == t.entries[w].key
            && Displacement(c, t, w) >= 0
            && Displacement(c, u, o[j]) == if o[j] == w then Displacement(c, t, w) else Displacement(c, t, w) - 1
  {
    hide Linked, IsRing;
    var i := if j < k then j else j + 1;
    InBucket(c, t, order, i);
    RemovedQuiet(c, t, order, u, o, k, p);
    InBucket(c, u, o, j);
    assert Contents(u, o)[j] == Without(Contents(t, order), k)[j] == Contents(t, order)[i];
    assert t.dibs[order[i]] != DIB_RAW_REHASH && u.dibs[o[j]] != DIB_RAW_REHASH;
    assert BucketOk(c, t, order, order[i]) && BucketOk(c, u, o, o[j]);
  }

  /** Without a way across the end of the table, a removal leaves entries behind it where they were or further back. */
  lemma BehindStaysBehind(c: Config, t: Table, order: seq<nat>, u: Table, o: seq<nat>, k: nat, p: nat, j: nat)
    requires Quiet(c, t, order) && Removed(c, t, order, u, o, k, p) && j < |o| && !MayRevisit(c, t)
    requires Without(order, k)[j] < order[k]
    ensures o[j] < if order[k] + 1 < t.n then order[k] else t.n
  {
    hide Quiet, Core, Displacement;
    PlaceAfter(c, t, order, u, o, k, p, j);
    var n, w, base := t.n, Without(order, k)[j], Next(t.n, order[k]);
    if w == 0 && base != 0 && Distance(n, 0, base) < p {
      CrossingNeedsWay(c, t, base, p);
    }
  }

  /** A shift that gets as far as the first bucket has passed the last one too. */
  lemma CrossingNeedsWay(c: Config, t: Table, base: nat, p: nat)
    requires t.Sized() && 0 < base < t.n && p <= t.n && Passed(c, t, base, p) && Distance(t.n, 0, base) < p
    ensures MayRevisit(c, t)
  {
    hide Displacement;
    assert Ahead(t.n, base, Distance(t.n, 0, base)) == 0;
    assert Ahead(t.n, base, Distance(t.n, t.n - 1, base)) == t.n - 1;
  }

  lemma InUse(c: Config, t: Table, order: seq<nat>, idx: nat) returns (k: nat)
    requires Quiet(c, t, order) && idx < t.n && Displacement(c, t, idx) >= 0
    ensures k < |order| && order[k] == idx
  {
    assert BucketOk(c, t, order, idx);
    k :| 0 <= k < |order| && order[k] == idx;
  }

  lemma RingAt(c: Config, t: Table, order: seq<nat>, idx: nat)
    requires Quiet(c, t, order) && idx < t.n
    ensures Displacement(c, t, Next(t.n, idx)) <= Displacement(c, t, idx) + 1
  {
    hide Displacement;
    var d := Profile(c, t);
    assert d[Next(|d|, idx)] <= d[idx] + 1;
  }

  /** No removal in front of the last bucket opens a way across the end of the table. */
  lemma NoWayOpens(c: Config, t: Table, order: seq<nat>, u: Table, o: seq<nat>, k: nat, p: nat)
    requires Quiet(c, t, order) && Removed(c, t, order, u, o, k, p) && !MayRevisit(c, t) && order[k] + 1 < t.n
    ensures !MayRevisit(c, u)
  {
    hide Core, Quiet, Displacement;
    RemovedQuiet(c, t, order, u, o, k, p);
    QuietIsCore(c, u, o);
    var n, base := t.n, order[k] + 1;
    if MayRevisit(c, u) {
      var i := InUse(c, u, o, 0);
      var j := InUse(c, u, o, n - 1);
      PlaceAfter(c, t, order, u, o, k, p, i);
      PlaceAfter(c, t, order, u, o, k, p, j);
      RingAt(c, t, order, 0);
      if Displacement(c, t, n - 1) <= 0 {
        assert Without(order, k)[j] == 0;
        CrossingNeedsWay(c, t, base, p);
      }
    }
  }

  /** The removal of the last entry but one carries an entry across the end of the table, if there is a way. */
  lemma EntryCrosses(c: Config, t: Table, order: seq<nat>, u: Table, o: seq<nat>, k: nat, p: nat) returns (j: nat)
    requires Quiet(c, t, order) && Removed(c, t, order, u, o, k, p) && MayRevisit(c, t) && order[k] == t.n - 2
    ensures j < |o| && Without(order, k)[j] == 0 && o[j] == t.n - 1 && t.n >= 3
  {
    hide Core, Quiet, Displacement;
    var n := t.n;
    assert Ahead(n, n - 1, 0) == n - 1 && Ahead(n, n - 1, 1) == 0;
    assert n >= 3 && p >= 2;
    var i := InUse(c, t, order, 0);
    j := if i < k then i else i - 1;
    WithoutAt(order, k, i);
    PlaceAfter(c, t, order, u, o, k, p, j);
  }

  /** Where there is a way across the end of the table, there is a body that makes the loop come back. */
  lemma RevisitIsPossible(c: Config, t: Table, order: seq<nat>) returns (doomed: Body)
    requires Quiet(c, t, order) && MayRevisit(c, t)
    ensures RevisitsFor(c, t, doomed)
  {
    hide Core, Displacement;
    var stop: nat :| IsStop(c, t, stop);
    assert stop != 0 && stop != t.n - 1;
    var last := t.entries[t.n - 2].Stored();
    doomed := (i: nat, p: Pair) => p == last;
  }

  // ----- the progress of a loop

  /**
   What is known about a loop from its start: the pairs stored then, the body, whether visiting an
   entry twice is ruled out, and the pair whose only removal makes the loop visit some entry twice, if there is one.
   */
  datatype Outlook = Outlook(items: seq<Pair>, doomed: Body, once: bool, twice: Option<Pair>)

  ghost predicate Truthful(g: Outlook, c: Config, t: Table, order: seq<nat>) {
    && t.Sized() && Places(t, order)
    && g.items == Contents(t, order)
    && (g.once ==> NoneDoomed(g.items, g.doomed) || !MayRevisit(c, t))
    && (g.twice.Some? ==> RevisitsFor(c, t, g.doomed) && g.twice.value == t.entries[t.n - 2].Stored())
  }

  ghost function FirstOutlook(c: Config, t: Table, order: seq<nat>, doomed: Body): (g: Outlook)
    requires t.Sized() && Places(t, order)
    ensures Truthful(g, c, t, order) && g.doomed == doomed && g.items == Contents(t, order)
    ensures g.once <==> NoneDoomed(Contents(t, order), doomed) || !MayRevisit(c, t)
    ensures g.twice.Some? <==> RevisitsFor(c, t, doomed)
  {
    Outlook(Contents(t, order), doomed, NoneDoomed(Contents(t, order), doomed) || !MayRevisit(c, t),
            if RevisitsFor(c, t, doomed) then Some(t.entries[t.n - 2].Stored()) else None)
  }

  /** Every visited entry is behind the loop. */
  ghost predicate AllBehind(now: seq<Pair>, order: seq<nat>, visited: seq<Pair>, lo: nat)
    requires |now| == |order|
  {
    Distinct(visited) && forall j {:trigger order[j]} :: 0 <= j < |order| && now[j] in visited ==> order[j] < lo
  }

  /** Some entry has been visited twice, or is in front of the loop again. */
  ghost predicate SomeAhead(now: seq<Pair>, order: seq<nat>, visited: seq<Pair>, lo: nat)
    requires |now| == |order|
  {
    !Distinct(visited) || exists j {:trigger order[j]} :: 0 <= j < |order| && now[j] in visited && order[j] >= lo
  }

  /** The fatal removal is still to come. */
  ghost predicate Coming(c: Config, t: Table, order: seq<nat>, visited: seq<Pair>, lo: nat, p: Pair)
    requires t.Sized() && Places(t, order)
  {
    var now := Contents(t, order);
    && MayRevisit(c, t) && t.n >= 2 && lo <= t.n - 2 && t.entries[t.n - 2].Stored() == p
    && forall j {:trigger order[j]} :: 0 <= j < |order| && order[j] < lo ==> now[j] in visited
  }

  /** Whatever has not been visited lies in front of the loop, and just the pairs that some visit removed are gone. */
  ghost predicate Accounted(items: seq<Pair>, doomed: Body, now: seq<Pair>, order: seq<nat>, visited: seq<Pair>, lo: nat) {
    && |now| == |order|
    && (forall p :: p in visited ==> p in items)
    && (forall p :: p in now ==> p in items && !DoomedIn(doomed, visited, p))
    && (forall p :: p in items ==> p in now || DoomedIn(doomed, visited, p))
    && (forall j {:trigger order[j]} :: 0 <= j < |order| && now[j] !in visited ==> order[j] >= lo)
  }

  ghost predicate OnceSoFar(g: Outlook, c: Config, t: Table, order: seq<nat>, visited: seq<Pair>, lo: nat)
    requires t.Sized() && Places(t, order)
  {
    AllBehind(Contents(t, order), order, visited, lo) && (lo >= t.n || NoneDoomed(g.items, g.doomed) || !MayRevisit(c, t))
  }

  ghost predicate TwiceForSure(c: Config, t: Table, order: seq<nat>, visited: seq<Pair>, lo: nat, p: Pair)
    requires t.Sized() && Places(t, order)
  {
    Coming(c, t, order, visited, lo, p) || (p !in Contents(t, order) && SomeAhead(Contents(t, order), order, visited, lo))
  }

  /** What the loop has achieved. */
  ghost predicate Progress(g: Outlook, c: Config, t: Table, order: seq<nat>, visited: seq<Pair>, lo: nat) {
    && t.Sized() && Places(t, order)
    && Accounted(g.items, g.doomed, Contents(t, order), order, visited, lo)
    && (g.once ==> OnceSoFar(g, c, t, order, visited, lo))
    && (g.twice.Some? ==> OnlyDoomed(g.doomed, g.twice.value) && TwiceForSure(c, t, order, visited, lo, g.twice.value))
  }

  lemma StartProgress(g: Outlook, c: Config, t: Table, order: seq<nat>)
    requires Quiet(c, t, order) && Truthful(g, c, t, order)
    ensures Progress(g, c, t, order, [], 0)
  {
    hide Displacement;
    if g.twice.Some? {
      var stop: nat :| IsStop(c, t, stop);
      assert stop != 0 && stop != t.n - 1;
    }
  }

  /** The k-th entry is the first one in front of the loop; the next one is in bucket lo' or behind. */
  ghost predicate FirstAhead(order: seq<nat>, lo: nat, k: nat, lo': nat) {
    && k < |order| && lo <= order[k] < lo'
    && (forall j {:trigger order[j]} :: 0 <= j < |order| && j != k && order[j] >= lo ==> order[j] >= lo')
  }

  /** A bucket that the iterator returns holds the first entry in front of the loop. */
  lemma NothingBetween(c: Config, t: Table, order: seq<nat>, lo: nat, idx: nat, cursor: nat, nextKey: Ptr, lo': nat) returns (k: nat)
    requires Quiet(c, t, order) && lo <= idx < t.n && t.dibs[idx] != DIB_RAW_FREE
    requires FreeBetween(t, lo, idx) && ExactPlainCursor(t, cursor, nextKey, idx, lo')
    ensures FirstAhead(order, lo, k, lo') && order[k] == idx
  {
    assert BucketOk(c, t, order, idx);
    k :| 0 <= k < |order| && order[k] == idx;
    forall j {:trigger order[j]} | 0 <= j < |order| && j != k && order[j] >= lo ensures order[j] >= lo' {
      InBucket(c, t, order, j);
    }
  }

  lemma AccountedKept(items: seq<Pair>, doomed: Body, now: seq<Pair>, order: seq<nat>, visited: seq<Pair>, lo: nat, k: nat, lo': nat)
    requires Accounted(items, doomed, now, order, visited, lo) && Distinct(now)
    requires FirstAhead(order, lo, k, lo') && !doomed(|visited|, now[k])
    ensures Accounted(items, doomed, now, order, visited + [now[k]], lo')
  {
    hide DoomedIn;
    DoomedStep(doomed, visited, now[k]);
  }

  lemma AccountedRemoved(items: seq<Pair>, doomed: Body, now: seq<Pair>, order: seq<nat>, visited: seq<Pair>, lo: nat, k: nat, lo': nat,
                         now': seq<Pair>, o: seq<nat>, lo'': nat)
    requires Accounted(items, doomed, now, order, visited, lo) && Distinct(now)
    requires FirstAhead(order, lo, k, lo') && doomed(|visited|, now[k])
    requires now' == Without(now, k) && |o| == |now'|
    requires forall j :: 0 <= j < |o| && Without(order, k)[j] >= lo' ==> o[j] >= lo''
    ensures Accounted(items, doomed, now', o, visited + [now[k]], lo'')
  {
    hide DoomedIn;
    var v := visited + [now[k]];
    DoomedStep(doomed, visited, now[k]);
    WithoutMembers(now, k);
    forall j {:trigger o[j]} | 0 <= j < |o| && now'[j] !in v ensures o[j] >= lo'' {
      var i := if j < k then j else j + 1;
      assert now'[j] == now[i] && Without(order, k)[j] == order[i];
    }
  }

  lemma WithoutMembers(s: seq<Pair>, k: nat)
    requires k < |s| && Distinct(s)
    ensures forall p :: p in Without(s, k) <==> p in s && p != s[k]
  {
    forall p ensures p in Without(s, k) <==> p in s && p != s[k] {
      if p in s && p != s[k] {
        var i :| 0 <= i < |s| && s[i] == p;
        assert Without(s, k)[if i < k then i else i - 1] == p;
      }
    }
  }

  lemma OnceKept(g: Outlook, c: Config, t: Table, order: seq<nat>, visited: seq<Pair>, lo: nat, k: nat, lo': nat)
    requires t.Sized() && Places(t, order) && OnceSoFar(g, c, t, order, visited, lo)
    requires FirstAhead(order, lo, k, lo') && Distinct(Contents(t, order))
    ensures OnceSoFar(g, c, t, order, visited + [Contents(t, order)[k]], lo')
  {
    hide MayRevisit, NoneDoomed;
  }

  lemma OnceRemoved(g: Outlook, c: Config, t: Table, order: seq<nat>, u: Table, o: seq<nat>, k: nat, p: nat,
                    visited: seq<Pair>, lo: nat, lo': nat, lo'': nat)
    requires Quiet(c, t, order) && Removed(c, t, order, u, o, k, p) && OnceSoFar(g, c, t, order, visited, lo)
    requires FirstAhead(order, lo, k, lo') && Distinct(Contents(t, order))
    requires Contents(t, order)[k] in g.items && g.doomed(|visited|, Contents(t, order)[k])
    requires lo'' == if p > 0 && order[k] + 1 < t.n then order[k] else lo'
    ensures u.Sized() && Places(u, o) && OnceSoFar(g, c, u, o, visited + [Contents(t, order)[k]], lo'')
  {
    hide Core, MayRevisit, Quiet;
    var now := Contents(t, order);
    var v := visited + [now[k]];
    RemovedQuiet(c, t, order, u, o, k, p);
    QuietIsCore(c, t, order);
    QuietIsCore(c, u, o);
    InBucket(c, t, order, k);
    WithoutMembers(now, k);
    assert !MayRevisit(c, t);
    forall j {:trigger o[j]} | 0 <= j < |o| && Contents(u, o)[j] in v ensures o[j] < lo'' {
      var i := if j < k then j else j + 1;
      assert Contents(u, o)[j] == now[i] && now[i] != now[k];
      BehindStaysBehind(c, t, order, u, o, k, p, j);
    }
    if order[k] + 1 < t.n {
      NoWayOpens(c, t, order, u, o, k, p);
    }
  }

  lemma TwiceKept(c: Config, t: Table, order: seq<nat>, visited: seq<Pair>, lo: nat, k: nat, lo': nat, p: Pair)
    requires c.ops.Lawful() && Quiet(c, t, order) && TwiceForSure(c, t, order, visited, lo, p)
    requires FirstAhead(order, lo, k, lo') && Contents(t, order)[k] != p
    ensures TwiceForSure(c, t, order, visited + [Contents(t, order)[k]], lo', p)
  {
    hide Core, MayRevisit, Quiet;
    QuietIsCore(c, t, order);
    var now := Contents(t, order);
    var v := visited + [now[k]];
    if Coming(c, t, order, visited, lo, p) {
      var i := LastButOne(c, t, order);
      forall j {:trigger order[j]} | 0 <= j < |order| && order[j] < lo' ensures now[j] in v {
        assert j == k || order[j] < lo;
      }
    } else if !Distinct(visited) || now[k] in visited {
      VisitedAgain(visited, now[k]);
    } else {
      var j :| 0 <= j < |order| && now[j] in visited && order[j] >= lo;
      assert now[j] in v && order[j] >= lo';
    }
  }

  lemma VisitedAgain(visited: seq<Pair>, p: Pair)
    requires !Distinct(visited) || p in visited
    ensures !Distinct(visited + [p])
  {
    var v := visited + [p];
    if p in visited {
      var i :| 0 <= i < |visited| && visited[i] == p;
      assert v[i] == v[|visited|];
    } else {
      var i, j :| 0 <= i < j < |visited| && visited[i] == visited[j];
      assert v[i] == v[j];
    }
  }

  lemma TwiceRemoved(c: Config, t: Table, order: seq<nat>, u: Table, o: seq<nat>, k: nat, p: nat,
                     visited: seq<Pair>, lo: nat, lo': nat, lo'': nat)
    requires c.ops.Lawful() && Quiet(c, t, order) && Removed(c, t, order, u, o, k, p)
    requires TwiceForSure(c, t, order, visited, lo, Contents(t, order)[k])
    requires FirstAhead(order, lo, k, lo') && Distinct(Contents(t, order))
    requires lo'' == if p > 0 && order[k] + 1 < t.n then order[k] else lo'
    ensures u.Sized() && Places(u, o) && TwiceForSure(c, u, o, visited + [Contents(t, order)[k]], lo'', Contents(t, order)[k])
  {
    hide Core, MayRevisit, Quiet;
    var now := Contents(t, order);
    var v := visited + [now[k]];
    RemovedQuiet(c, t, order, u, o, k, p);
    QuietIsCore(c, u, o);
    WithoutMembers(now, k);
    var i := LastButOne(c, t, order);
    assert i == k;
    var j := EntryCrosses(c, t, order, u, o, k, p);
    var m := if j < k then j else j + 1;
    assert order[m] == 0 && order[m] < lo;
    assert Contents(u, o)[j] == now[m] && now[m] in v && o[j] >= lo'';
  }

  /** Visiting the first entry in front of the loop without removing it. */
  lemma ProgressKept(g: Outlook, c: Config, t: Table, order: seq<nat>, visited: seq<Pair>, lo: nat, k: nat, lo': nat)
    requires c.ops.Lawful() && Quiet(c, t, order) && Progress(g, c, t, order, visited, lo)
    requires FirstAhead(order, lo, k, lo') && !g.doomed(|visited|, Contents(t, order)[k])
    ensures Progress(g, c, t, order, visited + [Contents(t, order)[k]], lo')
  {
    hide Quiet, Accounted, OnceSoFar, TwiceForSure;
    var now := Contents(t, order);
    PairsDistinct(c, t, order);
    AccountedKept(g.items, g.doomed, now, order, visited, lo, k, lo');
    if g.once {
      OnceKept(g, c, t, order, visited, lo, k, lo');
    }
    if g.twice.Some? {
      TwiceKept(c, t, order, visited, lo, k, lo', g.twice.value);
    }
  }

  /**
   Visiting the first entry in front of the loop and removing it. lo' would have been the next bucket;
   lo'' is where the loop goes on.
   */
  lemma ProgressRemoved(g: Outlook, c: Config, t: Table, order: seq<nat>, u: Table, o: seq<nat>, k: nat, p: nat,
                        visited: seq<Pair>, lo: nat, lo': nat, lo'': nat)
    requires c.ops.Lawful() && Quiet(c, t, order) && Removed(c, t, order, u, o, k, p) && Progress(g, c, t, order, visited, lo)
    requires FirstAhead(order, lo, k, lo') && g.doomed(|visited|, Contents(t, order)[k])
    requires forall j :: 0 <= j < |o| && Without(order, k)[j] >= lo' ==> o[j] >= lo''
    requires lo'' == if p > 0 && order[k] + 1 < t.n then order[k] else lo'
    ensures Progress(g, c, u, o, visited + [Contents(t, order)[k]], lo'')
  {
    hide Quiet, Core, OnceSoFar, TwiceForSure;
    var now := Contents(t, order);
    PairsDistinct(c, t, order);
    RemovedQuiet(c, t, order, u, o, k, p);
    QuietIsCore(c, u, o);
    AccountedRemoved(g.items, g.doomed, now, order, visited, lo, k, lo', Contents(u, o), o, lo'');
    hide Accounted;
    if g.once {
      OnceRemoved(g, c, t, order, u, o, k, p, visited, lo, lo', lo'');
    }
    if g.twice.Some? {
      TwiceRemoved(c, t, order, u, o, k, p, visited, lo, lo', lo'');
    }
  }

  /** A loop that has run out of entries. */
  lemma EndProgress(g: Outlook, c: Config, t: Table, order: seq<nat>, visited: seq<Pair>, lo: nat)
    requires c.ops.Lawful() && Quiet(c, t, order) && Progress(g, c, t, order, visited, lo) && FreeBetween(t, lo, t.n)
    ensures forall p :: p in g.items <==> p in visited
    ensures forall p :: p in Contents(t, order) <==> p in g.items && !DoomedIn(g.doomed, visited, p)
    ensures (g.once ==> Distinct(visited)) && (g.twice.Some? ==> !Distinct(visited))
  {
    hide Core, MayRevisit, Quiet, OnlyDoomed;
    QuietIsCore(c, t, order);
    var now := Contents(t, order);
    forall j {:trigger order[j]} | 0 <= j < |order| ensures order[j] < lo {
      InBucket(c, t, order, j);
    }
    if g.twice.Some? && Coming(c, t, order, visited, lo, g.twice.value) {
      var j := LastButOne(c, t, order);
    }
  }

  /** If there is a way across the end of the table, the last bucket but one is in use. */
  lemma LastButOne(c: Config, t: Table, order: seq<nat>) returns (j: nat)
    requires Quiet(c, t, order) && MayRevisit(c, t) && t.n >= 2
    ensures j < |order| && order[j] == t.n - 2 && Contents(t, order)[j] == t.entries[t.n - 2].Stored()
  {
    assert Next(t.n, t.n - 2) == t.n - 1 && Profile(c, t)[t.n - 1] <= Profile(c, t)[t.n - 2] + 1;
    assert BucketOk(c, t, order, t.n - 2);
    j :| 0 <= j < |order| && order[j] == t.n - 2;
  }

  lemma DoomedStep(doomed: Body, visited: seq<Pair>, q: Pair)
    ensures forall p :: DoomedIn(doomed, visited + [q], p) <==> DoomedIn(doomed, visited, p) || (p == q && doomed(|visited|, p))
  {
    var v := visited + [q];
    forall p ensures DoomedIn(doomed, v, p) <==> DoomedIn(doomed, visited, p) || (p == q && doomed(|visited|, p)) {
      if DoomedIn(doomed, visited, p) {
        var i :| 0 <= i < |visited| && visited[i] == p && doomed(i, p);
        assert v[i] == p;
      }
      if p == q && doomed(|visited|, p) {
        assert v[|visited|] == p;
      }
    }
  }

  /** Stored pairs differ pairwise, since their keys do. */
  lemma PairsDistinct(c: Config, t: Table, order: seq<nat>)
    requires c.ops.Lawful() && Quiet(c, t, order)
    ensures Distinct(Contents(t, order))
  {
    var items := Contents(t, order);
    forall i, j | 0 <= i < j < |items| ensures items[i] != items[j] {
      assert c.ops.Same(items[i].key, items[i].key);
    }
  }
}
