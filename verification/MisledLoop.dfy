/**
 How a loop over a plain table comes to take a free bucket for an entry with a
 NULL key, whenever that entry is not harmless.
 */
module MisledLoop {
  import opened HashOps
  import opened Ring
  import opened Table
  import opened RobinHood
  import opened Removal
  import opened State
  import opened Cursor
  import opened PlainLoop
  import opened NullKeyLoop

  // ----- what a removal does to the buckets

  /** Bucket x of u holds what bucket w of t does. */
  ghost predicate SameBucket(t: Table, w: nat, u: Table, x: nat)
    requires t.Sized() && u.Sized() && w < t.n && x < u.n
  {
    && (u.dibs[x] == DIB_RAW_FREE <==> t.dibs[w] == DIB_RAW_FREE)
    && (t.dibs[w] != DIB_RAW_FREE ==> u.entries[x].Stored() == t.entries[w].Stored())
  }

  /** The place after a removal of the entry in a bucket in use. */
  lemma Moved(c: Config, t: Table, order: seq<nat>, u: Table, o: seq<nat>, k: nat, p: nat, w: nat) returns (x: nat)
    requires Quiet(c, t, order) && Removed(c, t, order, u, o, k, p)
    requires w < t.n && w != order[k] && t.dibs[w] != DIB_RAW_FREE
    ensures u.n == t.n && u.Sized() && x == ShiftedPlace(t.n, Next(t.n, order[k]), p, w) && x < u.n
    ensures u.dibs[x] != DIB_RAW_FREE && SameBucket(t, w, u, x)
    ensures Displacement(c, u, x) == if x == w then Displacement(c, t, w) else Displacement(c, t, w) - 1
  {
    hide Linked, IsRing, Displacement;
    var j := NextAfterRemoval(c, t, order, u, o, k, p, w);
    x := o[j];
    assert BucketOk(c, t, order, w);
    var m :| 0 <= m < |order| && order[m] == w;
    var i := if m < k then m else m - 1;
    WithoutAt(order, k, m);
    PlaceAfter(c, t, order, u, o, k, p, i);
    assert Contents(u, o)[i] == Contents(t, order)[m];
  }

  /** The entry in bucket w has moved back by one, to bucket x. */
  ghost predicate MovedBack(c: Config, t: Table, w: nat, u: Table, x: nat)
    requires t.Sized() && u.Sized() && w < t.n && x < u.n
  {
    SameBucket(t, w, u, x) && u.dibs[x] != DIB_RAW_FREE && Displacement(c, u, x) == Displacement(c, t, w) - 1
  }

  /** The entry in the next bucket has moved back to bucket x. */
  ghost predicate CameBack(c: Config, t: Table, u: Table, x: nat)
    requires t.Sized() && u.Sized() && x + 1 < t.n && x < u.n
  {
    MovedBack(c, t, x + 1, u, x)
  }

  ghost predicate Unmoved(c: Config, t: Table, u: Table, x: nat)
    requires t.Sized() && u.Sized() && x < t.n && x < u.n
  {
    SameBucket(t, x, u, x) && Displacement(c, u, x) == Displacement(c, t, x)
  }

  /** The entry in the q-th bucket behind the hole. */
  lemma ShiftedEntry(c: Config, t: Table, order: seq<nat>, u: Table, o: seq<nat>, k: nat, p: nat, q: nat)
    requires Quiet(c, t, order) && Removed(c, t, order, u, o, k, p) && q < p
    ensures u.n == t.n && u.Sized() && MovedBack(c, t, Ahead(t.n, order[k], q + 1), u, Ahead(t.n, order[k], q))
  {
    hide Core, Quiet, Displacement, SameBucket;
    QuietIsCore(c, t, order);
    var n, base, w := t.n, Next(t.n, order[k]), Ahead(t.n, order[k], q + 1);
    assert w == Ahead(n, base, q) && Distance(n, w, base) == q;
    InUseShifted(c, t, base, p, w);
    var x := Moved(c, t, order, u, o, k, p, w);
    assert x == Ahead(n, order[k], q);
  }

  lemma LastIsFree(c: Config, t: Table, order: seq<nat>, u: Table, o: seq<nat>, k: nat, p: nat)
    requires Quiet(c, t, order) && Removed(c, t, order, u, o, k, p)
    ensures u.n == t.n && u.Sized() && u.dibs[Ahead(t.n, order[k], p)] == DIB_RAW_FREE
    ensures Displacement(c, u, Ahead(t.n, order[k], p)) <= 0
  {
    hide Linked, IsRing;
    var last := Ahead(t.n, order[k], p);
    assert BucketOk(c, u, o, last);
    forall j | 0 <= j < |o| ensures o[j] != last {
      assert o[j] == ShiftedPlace(t.n, Next(t.n, order[k]), p, Without(order, k)[j]);
    }
  }

  lemma Untouched(c: Config, t: Table, order: seq<nat>, u: Table, o: seq<nat>, k: nat, p: nat, x: nat)
    requires Quiet(c, t, order) && Removed(c, t, order, u, o, k, p) && x < t.n && Distance(t.n, x, order[k]) > p
    ensures u.n == t.n && u.Sized() && Unmoved(c, t, u, x)
  {
    hide Linked, IsRing;
    if t.dibs[x] != DIB_RAW_FREE {
      hide Displacement;
      var y := Moved(c, t, order, u, o, k, p, x);
    } else {
      assert BucketOk(c, t, order, x) && BucketOk(c, u, o, x);
      forall j | 0 <= j < |o| ensures o[j] != x {
        assert o[j] == ShiftedPlace(t.n, Next(t.n, order[k]), p, Without(order, k)[j]);
      }
    }
  }

  /** A removal in front of displaced entries up to bucket b takes them all along. */
  lemma AllShifted(c: Config, t: Table, order: seq<nat>, u: Table, o: seq<nat>, k: nat, p: nat, b: nat)
    requires Quiet(c, t, order) && Removed(c, t, order, u, o, k, p)
    requires order[k] <= b < t.n && AllDisplaced(c, t, order[k] + 1, b + 1)
    ensures p >= b - order[k] && u.n == t.n && u.Sized()
    ensures forall x {:trigger CameBack(c, t, u, x)} :: order[k] <= x < b ==> CameBack(c, t, u, x)
    ensures if p > b - order[k] then Displacement(c, u, b) == Displacement(c, t, Next(t.n, b)) - 1
            else u.dibs[b] == DIB_RAW_FREE && Displacement(c, u, b) <= 0
    ensures Displacement(c, t, Next(t.n, b)) <= 0 ==> p == b - order[k]
  {
    hide Core, Quiet, Displacement, SameBucket;
    QuietIsCore(c, t, order);
    InBucket(c, t, order, k);
    var n, cur := t.n, order[k];
    var stop := Ahead(n, Next(n, cur), p);
    assert stop == cur + 1 + p || stop == cur + 1 + p - n;
    LastIsFree(c, t, order, u, o, k, p);
    forall x {:trigger CameBack(c, t, u, x)} | cur <= x < b ensures CameBack(c, t, u, x) {
      ShiftedEntry(c, t, order, u, o, k, p, x - cur);
      assert Ahead(n, cur, x - cur) == x && Ahead(n, cur, x - cur + 1) == x + 1;
    }
    assert Ahead(n, cur, b - cur) == b;
    if p > b - cur {
      ShiftedEntry(c, t, order, u, o, k, p, b - cur);
      assert Ahead(n, cur, b - cur + 1) == Next(n, b) == Ahead(n, Next(n, cur), b - cur);
    }
  }

  // ----- the loop that is going to be misled

  /** The body decides by the pair alone. */
  ghost predicate Steady(doomed: Body) {
    forall i: nat, p: Pair :: doomed(i, p) <==> doomed(0, p)
  }

  ghost predicate Doom(doomed: Body, t: Table, x: nat)
    requires t.Sized() && x < t.n
  {
    doomed(0, t.entries[x].Stored())
  }

  ghost predicate AllDoomed(doomed: Body, t: Table, from: nat, to: nat)
    requires t.Sized()
  {
    forall x {:trigger Doom(doomed, t, x)} :: from <= x < to && x < t.n && t.dibs[x] != DIB_RAW_FREE ==> Doom(doomed, t, x)
  }

  ghost predicate AllSpared(doomed: Body, t: Table, from: nat, to: nat)
    requires t.Sized()
  {
    forall x {:trigger Doom(doomed, t, x)} :: from <= x < to && x < t.n && t.dibs[x] != DIB_RAW_FREE ==> !Doom(doomed, t, x)
  }

  ghost predicate AllDisplaced(c: Config, t: Table, from: nat, to: nat)
    requires t.Sized()
  {
    forall x {:trigger Displacement(c, t, x)} :: from <= x < to && x < t.n ==> Displacement(c, t, x) >= 1
  }

  /**
   Where a loop at bucket lo stands that is going to be misled by the entry with the NULL key.
   Soon: that is in bucket b, and more displaced than m, which the one behind it is not; the m + 1 entries before it are
   doomed, so that in the end it is displaced and the one behind it is not.
   InLast: it is in the last bucket; the entries before the stop bucket s are doomed, so that nothing displaced is behind
   it in the end, and so is the one in the last bucket but one.
   Across: it is in bucket b and displaced from before the last bucket but one. The other entries before the stop bucket
   s are doomed, so that it comes to the first bucket with nothing displaced behind it; and so are the two in the last
   buckets, the first of which takes it to the last bucket then.
   */
  datatype Stage = Soon(b: nat, m: nat) | InLast(s: nat) | Across(b: nat, s: nat)

  ghost predicate AtSoon(c: Config, t: Table, lo: nat, doomed: Body, b: nat, m: nat)
    requires t.Sized()
  {
    && m < b < t.n && lo + m < b && HasNull(t, b)
    && Displacement(c, t, b) > m >= Displacement(c, t, Next(t.n, b))
    && AllDoomed(doomed, t, b - 1 - m, b) && AllSpared(doomed, t, lo, b - 1 - m)
  }

  ghost predicate AtInLast(c: Config, t: Table, lo: nat, doomed: Body, s: nat)
    requires t.Sized()
  {
    && s + 1 < t.n && lo + 1 < t.n && HasNull(t, t.n - 1) && Displacement(c, t, t.n - 1) >= 1
    && Displacement(c, t, s) <= 0 && (lo > 0 ==> Displacement(c, t, 0) <= 0)
    && AllDoomed(doomed, t, 0, s) && AllSpared(doomed, t, s, t.n - 2) && AllDoomed(doomed, t, t.n - 2, t.n - 1)
  }

  ghost predicate AtAcross(c: Config, t: Table, lo: nat, doomed: Body, b: nat, s: nat)
    requires t.Sized()
  {
    && b < s && s + 1 < t.n && lo + 1 < t.n && HasNull(t, b) && Displacement(c, t, b) >= b + 2 && Displacement(c, t, t.n - 1) >= 1
    && Displacement(c, t, s) <= 0 && (lo > 0 ==> b == 0) && (lo > 1 ==> Displacement(c, t, 1) <= 0)
    && AllDoomed(doomed, t, 0, b) && AllSpared(doomed, t, b, b + 1) && AllDoomed(doomed, t, b + 1, s)
    && AllSpared(doomed, t, s, t.n - 2) && AllDoomed(doomed, t, t.n - 2, t.n)
  }

  ghost predicate AtStage(g: Stage, c: Config, t: Table, lo: nat, doomed: Body) {
    && t.Sized() && Steady(doomed)
    && match g
       case Soon(b, m) => AtSoon(c, t, lo, doomed, b, m)
       case InLast(s) => AtInLast(c, t, lo, doomed, s)
       case Across(b, s) => AtAcross(c, t, lo, doomed, b, s)
  }

  lemma {:induction false} RunBack(c: Config, t: Table, order: seq<nat>, b: nat, i: nat)
    requires Quiet(c, t, order) && i <= b < t.n
    ensures Displacement(c, t, b - i) >= Displacement(c, t, b) - i
  {
    hide Core, Quiet, Displacement;
    if i > 0 {
      RunBack(c, t, order, b, i - 1);
      QuietIsCore(c, t, order);
      RingAt(c, t, order, b - i);
    }
  }

  lemma DisplacedInUse(c: Config, t: Table, x: nat)
    requires t.Sized() && x < t.n && Displacement(c, t, x) >= 0
    ensures t.dibs[x] != DIB_RAW_FREE
  {
  }

  lemma FreeIsNotDisplaced(c: Config, t: Table, x: nat)
    requires t.Sized() && x < t.n && t.dibs[x] == DIB_RAW_FREE
    ensures Displacement(c, t, x) <= 0
  {
  }

  // ----- entries before the doomed ones

  lemma SoonKept(c: Config, t: Table, order: seq<nat>, lo: nat, doomed: Body, b: nat, m: nat, cur: nat, lo': nat)
    requires Quiet(c, t, order) && AtSoon(c, t, lo, doomed, b, m)
    requires lo <= cur < t.n && t.dibs[cur] != DIB_RAW_FREE && FreeBetween(t, lo, cur) && !Doom(doomed, t, cur)
    requires cur < lo' && FreeBetween(t, cur + 1, lo')
    ensures AtSoon(c, t, lo', doomed, b, m)
  {
    hide Core, Quiet, Displacement;
    QuietIsCore(c, t, order);
    RunBack(c, t, order, b, m + 1);
    DisplacedInUse(c, t, b - 1 - m);
  }

  lemma SoonRemoved(c: Config, t: Table, order: seq<nat>, u: Table, o: seq<nat>, k: nat, p: nat, lo: nat, doomed: Body, b: nat, m: nat)
    requires Quiet(c, t, order) && Removed(c, t, order, u, o, k, p) && AtSoon(c, t, lo, doomed, b, m)
    requires lo <= order[k] && FreeBetween(t, lo, order[k]) && Doom(doomed, t, order[k])
    ensures order[k] == b - 1 - m && p > 0 && u.n == t.n && u.Sized()
    ensures m > 0 ==> AtSoon(c, u, order[k], doomed, b - 1, m - 1)
    ensures m == 0 ==> u.dibs[b] == DIB_RAW_FREE
  {
    hide Core, Quiet, Displacement;
    var cur := order[k];
    RunBack(c, t, order, b, m + 1);
    DisplacedInUse(c, t, b - 1 - m);
    QuietIsCore(c, t, order);
    InBucket(c, t, order, k);
    assert cur == b - 1 - m;
    forall x {:trigger Displacement(c, t, x)} | cur + 1 <= x < b + 1 ensures Displacement(c, t, x) >= 1 {
      RunBack(c, t, order, b, b - x);
    }
    AllShifted(c, t, order, u, o, k, p, b);
    if m > 0 {
      assert Next(t.n, b - 1) == b;
      assert CameBack(c, t, u, b - 1);
      forall x {:trigger Doom(doomed, u, x)} | cur <= x < b - 1 ensures Doom(doomed, u, x) {
        assert CameBack(c, t, u, x);
        assert Doom(doomed, t, x + 1);
      }
    }
  }

  // ----- entries that are removed in front of a stop bucket

  /** A removal in front of a stop bucket shifts nothing beyond it. */
  lemma ShiftedBefore(c: Config, t: Table, order: seq<nat>, u: Table, o: seq<nat>, k: nat, p: nat, s: nat)
    requires Quiet(c, t, order) && Removed(c, t, order, u, o, k, p)
    requires order[k] < s < t.n && Displacement(c, t, s) <= 0
    ensures order[k] + p < s && u.n == t.n && u.Sized()
    ensures forall x {:trigger CameBack(c, t, u, x)} :: order[k] <= x < order[k] + p ==> CameBack(c, t, u, x)
    ensures u.dibs[order[k] + p] == DIB_RAW_FREE && Displacement(c, u, order[k] + p) <= 0
    ensures forall x {:trigger Unmoved(c, t, u, x)} :: 0 <= x < t.n && (x < order[k] || x > order[k] + p) ==> Unmoved(c, t, u, x)
  {
    hide Core, Quiet, Displacement, SameBucket;
    QuietIsCore(c, t, order);
    var n, cur := t.n, order[k];
    assert Ahead(n, Next(n, cur), s - cur - 1) == s;
    LastIsFree(c, t, order, u, o, k, p);
    assert Ahead(n, cur, p) == cur + p;
    forall x {:trigger CameBack(c, t, u, x)} | cur <= x < cur + p ensures CameBack(c, t, u, x) {
      ShiftedEntry(c, t, order, u, o, k, p, x - cur);
      assert Ahead(n, cur, x - cur) == x && Ahead(n, cur, x - cur + 1) == x + 1;
    }
    forall x {:trigger Unmoved(c, t, u, x)} | 0 <= x < t.n && (x < cur || x > cur + p) ensures Unmoved(c, t, u, x) {
      Untouched(c, t, order, u, o, k, p, x);
    }
  }

  /** What is doomed or spared stays so, wherever a shift moves it. */
  lemma DoomedShifted(c: Config, t: Table, u: Table, cur: nat, p: nat, doomed: Body, from: nat, to: nat, from': nat, to': nat)
    requires t.Sized() && u.Sized() && u.n == t.n && cur + p < t.n && u.dibs[cur + p] == DIB_RAW_FREE
    requires forall x {:trigger CameBack(c, t, u, x)} :: cur <= x < cur + p ==> CameBack(c, t, u, x)
    requires forall x {:trigger Unmoved(c, t, u, x)} :: 0 <= x < t.n && (x < cur || x > cur + p) ==> Unmoved(c, t, u, x)
    requires AllDoomed(doomed, t, from, to)
    requires from <= from' || (from == from' + 1 && cur <= from' <= cur + p)
    requires to' < to || (to' == to && (to <= cur || cur + p < to))
    ensures AllDoomed(doomed, u, from', to')
  {
    hide Displacement;
    forall x {:trigger Doom(doomed, u, x)} | from' <= x < to' && x < u.n && u.dibs[x] != DIB_RAW_FREE ensures Doom(doomed, u, x) {
      if cur <= x < cur + p {
        assert CameBack(c, t, u, x) && Doom(doomed, t, x + 1);
      } else {
        assert Unmoved(c, t, u, x) && Doom(doomed, t, x);
      }
    }
  }

  lemma SparedBehind(c: Config, t: Table, u: Table, doomed: Body, from: nat, to: nat)
    requires t.Sized() && u.Sized() && u.n == t.n && AllSpared(doomed, t, from, to)
    requires forall x {:trigger Unmoved(c, t, u, x)} :: from <= x < to && x < t.n ==> Unmoved(c, t, u, x)
    ensures AllSpared(doomed, u, from, to)
  {
    hide Displacement;
    forall x {:trigger Doom(doomed, u, x)} | from <= x < to && x < u.n && u.dibs[x] != DIB_RAW_FREE ensures !Doom(doomed, u, x) {
      assert Unmoved(c, t, u, x) && !Doom(doomed, t, x);
    }
  }

  lemma InLastRemoved(c: Config, t: Table, order: seq<nat>, u: Table, o: seq<nat>, k: nat, p: nat, lo: nat, doomed: Body, s: nat, lo': nat, lo'': nat)
    requires Quiet(c, t, order) && Removed(c, t, order, u, o, k, p) && AtInLast(c, t, lo, doomed, s)
    requires lo <= order[k] < s && order[k] < lo' && FreeBetween(t, lo, order[k]) && FreeBetween(t, order[k] + 1, lo')
    requires lo'' == if p > 0 && order[k] + 1 < t.n then order[k] else lo'
    ensures u.Sized() && AtInLast(c, u, lo'', doomed, s)
  {
    hide Core, Quiet, Displacement, AllDoomed, AllSpared, Doom;
    QuietIsCore(c, t, order);
    var n, cur := t.n, order[k];
    ShiftedBefore(c, t, order, u, o, k, p, s);
    assert Unmoved(c, t, u, n - 1) && Unmoved(c, t, u, s);
    BeforeLast(c, t, order);
    DoomedShifted(c, t, u, cur, p, doomed, 0, s, 0, s);
    DoomedShifted(c, t, u, cur, p, doomed, n - 2, n - 1, n - 2, n - 1);
    SparedBehind(c, t, u, doomed, s, n - 2);
    if cur > 0 {
      assert Unmoved(c, t, u, 0);
      if lo == 0 {
        FreeIsNotDisplaced(c, t, 0);
      }
    }
  }

  /** Before a displaced entry in the last bucket, the last bucket but one is in use. */
  lemma BeforeLast(c: Config, t: Table, order: seq<nat>)
    requires Quiet(c, t, order) && t.n >= 2 && Displacement(c, t, t.n - 1) >= 1
    ensures t.dibs[t.n - 2] != DIB_RAW_FREE
  {
    hide Core, Quiet, Displacement;
    QuietIsCore(c, t, order);
    RunBack(c, t, order, t.n - 1, 1);
    DisplacedInUse(c, t, t.n - 2);
  }

  lemma InLastKept(c: Config, t: Table, order: seq<nat>, lo: nat, doomed: Body, s: nat, cur: nat, lo': nat)
    requires Quiet(c, t, order) && AtInLast(c, t, lo, doomed, s)
    requires lo <= cur < t.n && t.dibs[cur] != DIB_RAW_FREE && FreeBetween(t, lo, cur) && !Doom(doomed, t, cur)
    requires cur < lo' && FreeBetween(t, cur + 1, lo')
    ensures AtInLast(c, t, lo', doomed, s)
  {
    hide Core, Quiet, Displacement;
    QuietIsCore(c, t, order);
    BeforeLast(c, t, order);
    if lo == 0 && s > 0 {
      FreeIsNotDisplaced(c, t, 0);
    }
  }

  /** Behind the stop bucket, the loop is to be misled soon. */
  lemma InLastIsSoon(c: Config, t: Table, order: seq<nat>, lo: nat, doomed: Body, s: nat, cur: nat)
    requires Quiet(c, t, order) && AtInLast(c, t, lo, doomed, s)
    requires lo <= cur < t.n && s <= cur && FreeBetween(t, lo, cur)
    ensures AtSoon(c, t, lo, doomed, t.n - 1, 0)
  {
    hide Core, Quiet, Displacement;
    QuietIsCore(c, t, order);
    if lo == 0 && s > 0 {
      FreeIsNotDisplaced(c, t, 0);
    }
  }

  lemma AcrossRemoved(c: Config, t: Table, order: seq<nat>, u: Table, o: seq<nat>, k: nat, p: nat, lo: nat, doomed: Body, b: nat, s: nat,
                      lo': nat, lo'': nat) returns (b': nat)
    requires Quiet(c, t, order) && Removed(c, t, order, u, o, k, p) && AtAcross(c, t, lo, doomed, b, s)
    requires lo <= order[k] < s && order[k] < lo' && FreeBetween(t, lo, order[k]) && FreeBetween(t, order[k] + 1, lo')
    requires Doom(doomed, t, order[k])
    requires lo'' == if p > 0 && order[k] + 1 < t.n then order[k] else lo'
    ensures u.Sized() && AtAcross(c, u, lo'', doomed, b', s)
  {
    hide Core, Quiet, Displacement, AllDoomed;
    QuietIsCore(c, t, order);
    InBucket(c, t, order, k);
    var n, cur := t.n, order[k];
    ShiftedBefore(c, t, order, u, o, k, p, s);
    assert Unmoved(c, t, u, n - 1) && Unmoved(c, t, u, s);
    DoomedShifted(c, t, u, cur, p, doomed, n - 2, n, n - 2, n);
    SparedBehind(c, t, u, doomed, s, n - 2);
    BeforeLast(c, t, order);
    if b > 0 {
      RunBack(c, t, order, b, b);
      DisplacedInUse(c, t, 0);
      assert cur == 0;
      ReachesBucket(c, t, order, u, o, k, p, b);
      assert CameBack(c, t, u, b - 1);
      b' := b - 1;
      DoomedShifted(c, t, u, cur, p, doomed, 0, b, 0, b');
      DoomedShifted(c, t, u, cur, p, doomed, b + 1, s, b' + 1, s);
      assert Doom(doomed, u, b') <==> Doom(doomed, t, b);
    } else {
      assert cur != 0;
      b' := 0;
      assert Unmoved(c, t, u, 0) && (Doom(doomed, u, 0) <==> Doom(doomed, t, 0));
      DoomedShifted(c, t, u, cur, p, doomed, 0, 0, 0, 0);
      DoomedShifted(c, t, u, cur, p, doomed, 1, s, 1, s);
      if cur > 1 {
        assert Unmoved(c, t, u, 1);
        if lo <= 1 {
          FreeIsNotDisplaced(c, t, 1);
        }
      }
    }
  }

  /** A removal in the first bucket takes along all that are more displaced than they are far from it. */
  lemma ReachesBucket(c: Config, t: Table, order: seq<nat>, u: Table, o: seq<nat>, k: nat, p: nat, b: nat)
    requires Quiet(c, t, order) && Removed(c, t, order, u, o, k, p) && order[k] == 0 < b < t.n && Displacement(c, t, b) >= b + 2
    ensures b < p || (b == p && Displacement(c, t, Next(t.n, b)) <= 0)
  {
    hide Core, Quiet, Displacement;
    QuietIsCore(c, t, order);
    forall x {:trigger Displacement(c, t, x)} | 1 <= x < b + 1 ensures Displacement(c, t, x) >= 1 {
      RunBack(c, t, order, b, b - x);
    }
    AllShifted(c, t, order, u, o, k, p, b);
    assert Next(t.n, 0) == 1 && Ahead(t.n, 1, b) == Next(t.n, b);
  }

  lemma AcrossKept(c: Config, t: Table, order: seq<nat>, lo: nat, doomed: Body, b: nat, s: nat, cur: nat, lo': nat)
    requires Quiet(c, t, order) && AtAcross(c, t, lo, doomed, b, s)
    requires lo <= cur < t.n && t.dibs[cur] != DIB_RAW_FREE && FreeBetween(t, lo, cur) && !Doom(doomed, t, cur)
    requires cur < lo' && FreeBetween(t, cur + 1, lo')
    ensures AtAcross(c, t, lo', doomed, b, s)
  {
    hide Core, Quiet, Displacement;
    QuietIsCore(c, t, order);
    BeforeLast(c, t, order);
    RunBack(c, t, order, b, b);
    DisplacedInUse(c, t, 0);
    if lo <= 1 && lo' > 1 && t.dibs[1] == DIB_RAW_FREE {
      FreeIsNotDisplaced(c, t, 1);
    }
  }

  /** Behind the stop bucket, the removal of the last entry but one takes the entry with the NULL key to the last bucket. */
  lemma AcrossTheEnd(c: Config, t: Table, order: seq<nat>, u: Table, o: seq<nat>, k: nat, p: nat, lo: nat, doomed: Body, b: nat, s: nat)
    requires Quiet(c, t, order) && Removed(c, t, order, u, o, k, p) && AtAcross(c, t, lo, doomed, b, s)
    requires lo <= order[k] && s <= order[k] && FreeBetween(t, lo, order[k]) && Doom(doomed, t, order[k])
    ensures u.n == t.n && u.Sized() && order[k] == t.n - 2 && p > 0 && AtSoon(c, u, order[k], doomed, t.n - 1, 0)
  {
    hide Core, Quiet, Displacement;
    QuietIsCore(c, t, order);
    InBucket(c, t, order, k);
    var n, cur := t.n, order[k];
    BeforeLast(c, t, order);
    RunBack(c, t, order, b, b);
    DisplacedInUse(c, t, 0);
    assert b == 0 && cur == n - 2;
    if s > 1 && lo == 1 {
      FreeIsNotDisplaced(c, t, 1);
    }
    assert Ahead(n, n - 1, 0) == n - 1 && Ahead(n, n - 1, 1) == 0 && Ahead(n, n - 1, 2) == 1;
    assert p == 2;
    assert Ahead(n, n - 2, 0) == n - 2 && Ahead(n, n - 2, 1) == n - 1 && Ahead(n, n - 2, 2) == 0;
    ShiftedEntry(c, t, order, u, o, k, p, 0);
    ShiftedEntry(c, t, order, u, o, k, p, 1);
    LastIsFree(c, t, order, u, o, k, p);
    DisplacedInUse(c, t, n - 1);
    assert Doom(doomed, t, n - 1) <==> Doom(doomed, u, n - 2);
  }

  // ----- the whole loop

  /** A visit of the loop: bucket cur is the next one in use, and lo' would be the one after it. */
  ghost predicate VisitAt(t: Table, lo: nat, cur: nat, lo': nat)
    requires t.Sized()
  {
    lo <= cur < t.n && t.dibs[cur] != DIB_RAW_FREE && FreeBetween(t, lo, cur) && cur < lo' && FreeBetween(t, cur + 1, lo')
  }

  lemma StageKept(g: Stage, c: Config, t: Table, order: seq<nat>, lo: nat, doomed: Body, k: nat, visit: nat, lo': nat)
    requires Quiet(c, t, order) && k < |order| && AtStage(g, c, t, lo, doomed) && VisitAt(t, lo, order[k], lo')
    requires !doomed(visit, Contents(t, order)[k])
    ensures AtStage(g, c, t, lo', doomed)
  {
    hide Core, Quiet, AtSoon, AtInLast, AtAcross;
    QuietIsCore(c, t, order);
    assert !Doom(doomed, t, order[k]);
    match g
    case Soon(b, m) => SoonKept(c, t, order, lo, doomed, b, m, order[k], lo');
    case InLast(s) => InLastKept(c, t, order, lo, doomed, s, order[k], lo');
    case Across(b, s) => AcrossKept(c, t, order, lo, doomed, b, s, order[k], lo');
  }

  /** The next entry has the NULL key, and its bucket is free after the removal. */
  ghost predicate MisledAt(t: Table, u: Table, cur: nat)
    requires t.Sized() && u.Sized() && u.n == t.n
  {
    cur + 1 < t.n && HasNull(t, cur + 1) && u.dibs[cur + 1] == DIB_RAW_FREE
  }

  lemma StageRemoved(g: Stage, c: Config, t: Table, order: seq<nat>, u: Table, o: seq<nat>, k: nat, p: nat, lo: nat, doomed: Body,
                     visit: nat, lo': nat, lo'': nat) returns (g': Stage)
    requires Quiet(c, t, order) && Removed(c, t, order, u, o, k, p) && AtStage(g, c, t, lo, doomed) && VisitAt(t, lo, order[k], lo')
    requires doomed(visit, Contents(t, order)[k])
    requires lo'' == if p > 0 && order[k] + 1 < t.n then order[k] else lo'
    ensures u.n == t.n && u.Sized()
    ensures MisledAt(t, u, order[k]) || AtStage(g', c, u, lo'', doomed)
  {
    hide Core, Quiet, AtAcross, Displacement;
    RemovedQuiet(c, t, order, u, o, k, p);
    QuietIsCore(c, t, order);
    QuietIsCore(c, u, o);
    assert Doom(doomed, t, order[k]);
    g' := g;
    match g
    case Soon(b, m) =>
      SoonRemoved(c, t, order, u, o, k, p, lo, doomed, b, m);
      if m > 0 {
        g' := Soon(b - 1, m - 1);
      }
    case InLast(s) =>
      if order[k] < s {
        InLastRemoved(c, t, order, u, o, k, p, lo, doomed, s, lo', lo'');
      } else {
        InLastIsSoon(c, t, order, lo, doomed, s, order[k]);
        SoonRemoved(c, t, order, u, o, k, p, lo, doomed, t.n - 1, 0);
      }
    case Across(b, s) =>
      if order[k] < s {
        var b' := AcrossRemoved(c, t, order, u, o, k, p, lo, doomed, b, s, lo', lo'');
        g' := Across(b', s);
      } else {
        AcrossTheEnd(c, t, order, u, o, k, p, lo, doomed, b, s);
        g' := Soon(t.n - 1, 0);
      }
  }

  lemma StageAfter(g: Stage, c: Config, t: Table, order: seq<nat>, u: Table, o: seq<nat>, k: nat, p: nat, lo: nat, doomed: Body,
                   visit: nat, cursor: nat, nextKey: Ptr, lo': nat, lo'': nat) returns (g': Stage)
    requires Quiet(c, t, order) && Removed(c, t, order, u, o, k, p) && AtStage(g, c, t, lo, doomed) && VisitAt(t, lo, order[k], lo')
    requires doomed(visit, Contents(t, order)[k]) && ExactPlainCursor(t, cursor, nextKey, order[k], lo')
    requires lo'' == if p > 0 && order[k] + 1 < t.n then order[k] else lo'
    ensures u.n == t.n && u.Sized()
    ensures Misled(u, cursor, nextKey) || AtStage(g', c, u, lo'', doomed)
  {
    hide Core, AtStage;
    g' := StageRemoved(g, c, t, order, u, o, k, p, lo, doomed, visit, lo', lo'');
    if MisledAt(t, u, order[k]) {
      RemovedQuiet(c, t, order, u, o, k, p);
      KeyOfFree(c, u, o, order[k] + 1);
    }
  }

  lemma KeyOfFree(c: Config, t: Table, order: seq<nat>, x: nat)
    requires Quiet(c, t, order) && x < t.n && t.dibs[x] == DIB_RAW_FREE
    ensures t.entries[x].key == NULL
  {
    assert BucketOk(c, t, order, x);
  }

  /** Such a loop does not come to an end before it is misled. */
  lemma StageIsNotLast(g: Stage, c: Config, t: Table, order: seq<nat>, lo: nat, doomed: Body)
    requires Quiet(c, t, order) && AtStage(g, c, t, lo, doomed)
    ensures !FreeBetween(t, lo, t.n)
  {
    hide Core, Displacement;
    if g.Soon? {
      assert t.dibs[g.b] != DIB_RAW_FREE;
    } else {
      DisplacedInUse(c, t, t.n - 1);
      assert t.dibs[t.n - 1] != DIB_RAW_FREE;
    }
  }

  /** The body makes the loop over the table go wrong. */
  ghost predicate MisleadsFor(c: Config, t: Table, doomed: Body) {
    exists g: Stage :: AtStage(g, c, t, 0, doomed)
  }

  /** The buckets whose entries are doomed at the start. */
  predicate Planned(g: Stage, n: nat, x: nat) {
    match g
    case Soon(b, m) => b - 1 - m <= x < b
    case InLast(s) => x < s || x + 2 == n
    case Across(b, s) => (x < s && x != b) || x + 2 >= n
  }

  /** The body that removes just the pairs of those buckets. */
  ghost function Removing(t: Table, g: Stage): Body
    requires t.Sized()
  {
    (i: nat, p: Pair) =>
      exists x: nat {:trigger Planned(g, t.n, x)} :: x < t.n && Planned(g, t.n, x) && t.dibs[x] != DIB_RAW_FREE && t.entries[x].Stored() == p
  }

  /** The doomed entries are the planned ones. */
  lemma DoomedAsPlanned(c: Config, t: Table, order: seq<nat>, g: Stage)
    requires c.ops.Lawful() && Quiet(c, t, order)
    ensures Steady(Removing(t, g))
    ensures forall x {:trigger Doom(Removing(t, g), t, x)} :: 0 <= x < t.n && t.dibs[x] != DIB_RAW_FREE ==>
              (Doom(Removing(t, g), t, x) <==> Planned(g, t.n, x))
  {
    hide Core, Linked, IsRing, Displacement, Planned;
    forall x {:trigger Doom(Removing(t, g), t, x)} | 0 <= x < t.n && t.dibs[x] != DIB_RAW_FREE
      ensures Doom(Removing(t, g), t, x) <==> Planned(g, t.n, x)
    {
      forall y | 0 <= y < t.n && y != x && t.dibs[y] != DIB_RAW_FREE ensures t.entries[y].Stored() != t.entries[x].Stored() {
        PairsApart(c, t, order, x, y);
      }
    }
  }

  lemma PairsApart(c: Config, t: Table, order: seq<nat>, x: nat, y: nat)
    requires c.ops.Lawful() && Quiet(c, t, order) && x < t.n && y < t.n && x != y
    requires t.dibs[x] != DIB_RAW_FREE && t.dibs[y] != DIB_RAW_FREE
    ensures t.entries[y].Stored() != t.entries[x].Stored()
  {
    hide Linked, IsRing;
    PairsDistinct(c, t, order);
    assert BucketOk(c, t, order, x) && BucketOk(c, t, order, y);
    var i :| 0 <= i < |order| && order[i] == x;
    var j :| 0 <= j < |order| && order[j] == y;
    assert Contents(t, order)[i] == t.entries[x].Stored() && Contents(t, order)[j] == t.entries[y].Stored();
  }

  lemma StartSoon(c: Config, t: Table, order: seq<nat>, b: nat, m: nat)
    requires c.ops.Lawful() && Quiet(c, t, order) && m < b < t.n && HasNull(t, b)
    requires Displacement(c, t, b) > m >= Displacement(c, t, Next(t.n, b))
    ensures MisleadsFor(c, t, Removing(t, Soon(b, m)))
  {
    hide Core, Quiet, Displacement, Steady, Removing;
    QuietIsCore(c, t, order);
    DoomedAsPlanned(c, t, order, Soon(b, m));
    assert AtStage(Soon(b, m), c, t, 0, Removing(t, Soon(b, m)));
  }

  lemma StartInLast(c: Config, t: Table, order: seq<nat>, s: nat)
    requires c.ops.Lawful() && Quiet(c, t, order) && s < t.n && Displacement(c, t, s) <= 0
    requires HasNull(t, t.n - 1) && Displacement(c, t, t.n - 1) >= 1
    ensures MisleadsFor(c, t, Removing(t, InLast(s)))
  {
    hide Core, Quiet, Displacement, Steady, Removing;
    QuietIsCore(c, t, order);
    DoomedAsPlanned(c, t, order, InLast(s));
    assert AtStage(InLast(s), c, t, 0, Removing(t, InLast(s)));
  }

  lemma StartAcross(c: Config, t: Table, order: seq<nat>, b: nat, s: nat)
    requires c.ops.Lawful() && Quiet(c, t, order) && s < t.n && Displacement(c, t, s) <= 0
    requires b + 1 < t.n && HasNull(t, b) && Displacement(c, t, b) >= b + 2
    ensures MisleadsFor(c, t, Removing(t, Across(b, s)))
  {
    hide Core, Quiet, Displacement, Steady, Removing;
    QuietIsCore(c, t, order);
    AcrossStop(c, t, order, b, s);
    DoomedAsPlanned(c, t, order, Across(b, s));
    assert AtStage(Across(b, s), c, t, 0, Removing(t, Across(b, s)));
  }

  /** Where an entry with a NULL key is not harmless, some choice of removals misleads the loop. */
  lemma MisleadIsPossible(c: Config, t: Table, order: seq<nat>) returns (doomed: Body)
    requires c.ops.Lawful() && Quiet(c, t, order) && !NeverMisled(c, t, 0)
    ensures MisleadsFor(c, t, doomed)
  {
    QuietIsCore(c, t, order);
    var b: nat :| b < t.n && HasNull(t, b) && !Harmless(c, t, 0, b);
    var s: nat :| IsStop(c, t, s);
    hide Core, Quiet, Displacement, MisleadsFor;
    if b == t.n - 1 {
      StartInLast(c, t, order, s);
      doomed := Removing(t, InLast(s));
    } else if Displacement(c, t, b) >= b + 2 {
      StartAcross(c, t, order, b, s);
      doomed := Removing(t, Across(b, s));
    } else {
      var m := if Displacement(c, t, b + 1) > 0 then Displacement(c, t, b + 1) else 0;
      StartSoon(c, t, order, b, m);
      doomed := Removing(t, Soon(b, m));
    }
  }

  lemma AcrossStop(c: Config, t: Table, order: seq<nat>, b: nat, s: nat)
    requires Quiet(c, t, order) && b + 1 < t.n && Displacement(c, t, b) >= b + 2 && s < t.n && Displacement(c, t, s) <= 0
    ensures b < s && s + 1 < t.n && Displacement(c, t, t.n - 1) >= 1
  {
    hide Core, Quiet, Displacement;
    QuietIsCore(c, t, order);
    RunBack(c, t, order, b, b);
    RingAt(c, t, order, t.n - 1);
    assert Next(t.n, t.n - 1) == 0;
    if s <= b {
      RunBack(c, t, order, b, b - s);
    }
  }
}
