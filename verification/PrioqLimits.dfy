/**
 A queue of more than 2^31 + 1 items, where shuffle_down comes around because its indexes wrap around.
 */
module PrioqLimits {
  import opened Common
  import opened HashOps
  import opened Prioq

  const ByAddress: Order := Order((a: Ptr, b: Ptr) => a - b)

  /** The items on which shuffle_down comes around: 1, 3, 7, ..., 2^30 - 1, each a child of the one before, and 2^31. */
  ghost predicate OnCycle(i: nat) {
    i == MANY || exists k {:trigger Pow2(k)} :: 1 <= k <= 30 && i == Pow2(k) - 1
  }

  lemma {:induction false} PowersRise(k: nat, m: nat)
    requires k <= m
    ensures Pow2(k) <= Pow2(m) && (k < m ==> 2 * Pow2(k) <= Pow2(m))
  {
    if k < m {
      PowersRise(k, m - 1);
    }
  }

  lemma Pow2Of30()
    ensures Pow2(1) == 2 && Pow2(30) == 0x4000_0000
  {
    assert Pow2(10) == 1024;
    assert Pow2(20) == 0x10_0000;
  }

  /** Just one of the two items that shuffle_down takes for the children of an item on the cycle is on it. */
  lemma CycleGoesOn(i: nat) returns (s: nat, other: nat)
    requires i == 0 || OnCycle(i)
    ensures (LeftChild(i) == s && RightChild(i) == other) || (LeftChild(i) == other && RightChild(i) == s)
    ensures OnCycle(s) && !OnCycle(other) && 0 < s <= MANY && 0 < other <= MANY && s != i
  {
    hide LeftChild, RightChild;
    Pow2Of30();
    var k := 0;
    if 0 < i && i != MANY {
      k :| 1 <= k <= 30 && i == Pow2(k) - 1;
      PowersRise(k, 30);
      PowersRise(1, k);
    }
    if i < MANY {
      ChildrenRight(i);
    } else {
      ChildrenWrong(i);
    }
    s, other := LeftChild(i), RightChild(i);
    if k == 30 {
      s, other := other, s;
    } else if k > 0 {
      PowersRise(k, 29);
      assert s == Pow2(k + 1) - 1;
    } else {
      assert s == Pow2(1) - 1;
    }
    forall m | 1 <= m <= 30 ensures other != Pow2(m) - 1 {
      PowersRise(m, 30);
    }
  }

  /** An item of the cycle is a child of the root or of an item of the cycle. */
  lemma CycleComesFrom(j: nat)
    requires OnCycle(j)
    ensures 0 < j <= MANY && (Parent(j) == 0 || OnCycle(Parent(j)))
  {
    Pow2Of30();
    if j != MANY {
      var k :| 1 <= k <= 30 && j == Pow2(k) - 1;
      PowersRise(k, 30);
      assert Parent(j) == Pow2(k - 1) - 1;
    } else {
      assert Parent(j) == Pow2(30) - 1;
    }
  }

  /** The item that is shuffled down comes behind all others, and those of the cycle come before the others. */
  ghost predicate Circling(q: seq<Item>, i: nat) {
    && MANY < |q| && (i == 0 || OnCycle(i)) && i < |q| && q[i].data == 3
    && forall j :: 0 < j < |q| && j != i ==> q[j].data == if OnCycle(j) then 1 else 2
  }

  lemma CirclesOn(q: seq<Item>, i: nat)
    requires Circling(q, i)
    ensures var s := NextDown(ByAddress, q, i); s != i && Circling(Swapped(q, i, s), s)
  {
    hide OnCycle, LeftChild, RightChild;
    var s, other := CycleGoesOn(i);
    assert q[s].data == 1;
    assert other != i ==> q[other].data == 2;
  }

  /** The items and the place of the item shuffled down after a number of turns of shuffle_down. */
  function AfterTurns(o: Order, q: seq<Item>, i: nat, turns: nat): (r: (seq<Item>, nat))
    requires i < |q|
    ensures r.1 < |r.0| == |q|
  {
    if turns == 0 then (q, i)
    else
      var (r, j) := AfterTurns(o, q, i, turns - 1);
      var s := NextDown(o, r, j);
      (Swapped(r, j, s), s)
  }

  lemma {:induction false} CirclesForever(q: seq<Item>, i: nat, turns: nat)
    requires Circling(q, i)
    ensures var (r, j) := AfterTurns(ByAddress, q, i, turns); Circling(r, j)
  {
    if turns > 0 {
      CirclesForever(q, i, turns - 1);
      var (r, j) := AfterTurns(ByAddress, q, i, turns - 1);
      CirclesOn(r, j);
    }
  }

  /** Every queue of more than 2^31 + 1 items may be one on which prioq_pop never comes to an end. */
  lemma PopNeverEnds(n: nat) returns (q: seq<Item>)
    requires MANY + 1 < n < TWO_32
    ensures ByAddress.Lawful() && |q| == n && Heap(ByAddress, q) && CellsOk(q)
    ensures forall turns: nat :: var (r, j) := AfterTurns(ByAddress, Replaced(q, 0), 0, turns); NextDown(ByAddress, r, j) != j
  {
    hide OnCycle;
    q := seq(n, (i: nat) => Item(if i == n - 1 then 3 else if i == 0 || OnCycle(i) then 1 else 2, null));
    forall j {:trigger EdgeOk(ByAddress, q, j)} | 0 < j < n ensures EdgeOk(ByAddress, q, j) {
      if OnCycle(j) {
        CycleComesFrom(j);
      }
    }
    forall j | j == n - 1 ensures !OnCycle(j) {
      if OnCycle(j) {
        CycleComesFrom(j);
      }
    }
    forall turns: nat ensures var (r, j) := AfterTurns(ByAddress, Replaced(q, 0), 0, turns); NextDown(ByAddress, r, j) != j {
      CirclesForever(Replaced(q, 0), 0, turns);
      var (r, j) := AfterTurns(ByAddress, Replaced(q, 0), 0, turns);
      CirclesOn(r, j);
    }
  }
}
