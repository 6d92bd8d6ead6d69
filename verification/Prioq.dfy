/**
 The priority queue: a binary heap whose items may each have a cell, kept by
 the caller, that always holds the item's index.
 */
module Prioq {
  import opened Common
  import opened HashOps

  const PRIOQ_IDX_NULL: nat := 0xFFFF_FFFF

  /** An index kept by the caller. */
  class Cell {
    var value: nat
  }

  datatype Item = Item(data: Ptr, idx: Cell?)

  /** compare_func, as in C. */
  datatype Order = Order(compare: (Ptr, Ptr) -> int) {

    predicate AtMost(a: Ptr, b: Ptr) {
      compare(a, b) <= 0
    }

    /** The sign of compare is a total preorder. */
    ghost predicate Lawful() {
      && (forall a: Ptr, b: Ptr :: compare(a, b) <= 0 <==> compare(b, a) >= 0)
      && (forall a: Ptr, b: Ptr, c: Ptr :: AtMost(a, b) && AtMost(b, c) ==> AtMost(a, c))
    }
  }

  // ----- heaps as sequences

  function Parent(i: nat): nat
    requires i > 0
  {
    (i - 1) / 2
  }

  /** The item at i is not before its parent. */
  ghost predicate EdgeOk(o: Order, q: seq<Item>, i: nat)
    requires 0 < i < |q|
  {
    o.AtMost(q[Parent(i)].data, q[i].data)
  }

  ghost predicate Heap(o: Order, q: seq<Item>) {
    forall i {:trigger EdgeOk(o, q, i)} :: 0 < i < |q| ==> EdgeOk(o, q, i)
  }

  /** The children of i are not before the parent of i. */
  ghost predicate BridgeOk(o: Order, q: seq<Item>, i: nat)
    requires i < |q|
  {
    i > 0 ==> forall j {:trigger q[j]} :: 0 < j < |q| && Parent(j) == i ==> o.AtMost(q[Parent(i)].data, q[j].data)
  }

  /** A heap but for the item at i, which may be before its parent. */
  ghost predicate HeapAbove(o: Order, q: seq<Item>, i: nat) {
    && i < |q|
    && (forall j {:trigger EdgeOk(o, q, j)} :: 0 < j < |q| && j != i ==> EdgeOk(o, q, j))
    && BridgeOk(o, q, i)
  }

  /** A heap but for the item at i, which may be before its parent or behind its children. */
  ghost predicate HeapAround(o: Order, q: seq<Item>, i: nat) {
    && i < |q|
    && (forall j {:trigger EdgeOk(o, q, j)} :: 0 < j < |q| && j != i && Parent(j) != i ==> EdgeOk(o, q, j))
    && BridgeOk(o, q, i)
  }

  function Swapped<T>(q: seq<T>, j: nat, k: nat): (r: seq<T>)
    requires j < |q| && k < |q|
    ensures |r| == |q|
  {
    q[j := q[k]][k := q[j]]
  }

  lemma SwappedBag<T>(q: seq<T>, j: nat, k: nat)
    requires j < |q| && k < |q|
    ensures multiset(Swapped(q, j, k)) == multiset(q)
  {
  }

  /** Moving a too small item up one level. */
  lemma UpStep(o: Order, q: seq<Item>, i: nat)
    requires o.Lawful() && HeapAbove(o, q, i) && i > 0 && !EdgeOk(o, q, i)
    ensures HeapAbove(o, Swapped(q, i, Parent(i)), Parent(i))
  {
    var k := Parent(i);
    var r := Swapped(q, i, k);
    forall j {:trigger EdgeOk(o, r, j)} | 0 < j < |r| && j != k ensures EdgeOk(o, r, j) {
      if j != i {
        assert EdgeOk(o, q, j);
      }
    }
    if k > 0 {
      assert EdgeOk(o, q, k);
      forall j {:trigger r[j]} | 0 < j < |r| && Parent(j) == k ensures o.AtMost(r[Parent(k)].data, r[j].data) {
        if j != i {
          assert EdgeOk(o, q, j);
        }
      }
    }
  }

  /** Moving a too large item down one level, past its smaller child s. */
  lemma DownStep(o: Order, q: seq<Item>, i: nat, s: nat)
    requires o.Lawful() && HeapAround(o, q, i) && 0 < s < |q| && Parent(s) == i && !EdgeOk(o, q, s)
    requires forall j :: 0 < j < |q| && Parent(j) == i ==> o.AtMost(q[s].data, q[j].data)
    ensures HeapAround(o, Swapped(q, i, s), s)
  {
    var r := Swapped(q, i, s);
    forall j {:trigger EdgeOk(o, r, j)} | 0 < j < |r| && j != s && Parent(j) != s ensures EdgeOk(o, r, j) {
      if j != i && Parent(j) != i {
        assert EdgeOk(o, q, j);
      }
    }
    forall j {:trigger r[j]} | 0 < j < |r| && Parent(j) == s ensures o.AtMost(r[Parent(s)].data, r[j].data) {
      assert EdgeOk(o, q, j);
    }
  }

  /** When no child is smaller, only the edge to the parent may be wrong. */
  lemma DownDone(o: Order, q: seq<Item>, i: nat)
    requires HeapAround(o, q, i)
    requires forall j :: 0 < j < |q| && Parent(j) == i ==> EdgeOk(o, q, j)
    ensures HeapAbove(o, q, i)
  {
  }

  lemma UpDone(o: Order, q: seq<Item>, i: nat)
    requires HeapAbove(o, q, i) && (i > 0 ==> EdgeOk(o, q, i))
    ensures Heap(o, q)
  {
  }

  /** An item appended at the end may only be before its parent. */
  lemma AppendedHeap(o: Order, q: seq<Item>, x: Item)
    requires Heap(o, q)
    ensures HeapAbove(o, q + [x], |q|)
  {
    var r := q + [x];
    forall j {:trigger EdgeOk(o, r, j)} | 0 < j < |r| && j != |q| ensures EdgeOk(o, r, j) {
      assert EdgeOk(o, q, j);
    }
  }

  /** The last item takes the place of another. */
  function Replaced(q: seq<Item>, k: nat): (r: seq<Item>)
    requires k + 1 < |q|
    ensures |r| == |q| - 1 && forall i :: 0 <= i < |r| ==> r[i] == q[if i == k then |q| - 1 else i]
  {
    q[..|q| - 1][k := q[|q| - 1]]
  }

  lemma ReplacedHeap(o: Order, q: seq<Item>, k: nat)
    requires o.Lawful() && Heap(o, q) && k + 1 < |q|
    ensures HeapAround(o, Replaced(q, k), k)
  {
    var r := Replaced(q, k);
    forall j {:trigger EdgeOk(o, r, j)} | 0 < j < |r| && j != k && Parent(j) != k ensures EdgeOk(o, r, j) {
      assert EdgeOk(o, q, j);
    }
    if k > 0 {
      assert EdgeOk(o, q, k);
      forall j {:trigger r[j]} | 0 < j < |r| && Parent(j) == k ensures o.AtMost(r[Parent(k)].data, r[j].data) {
        assert EdgeOk(o, q, j);
      }
    }
  }

  lemma ReplacedBag(q: seq<Item>, k: nat)
    requires k + 1 < |q|
    ensures multiset(Replaced(q, k)) == multiset(q) - multiset{q[k]}
  {
    assert q == q[..|q| - 1] + [q[|q| - 1]];
  }

  /** The root comes first. */
  lemma {:induction false} RootIsLeast(o: Order, q: seq<Item>, i: nat)
    requires o.Lawful() && Heap(o, q) && i < |q|
    ensures o.AtMost(q[0].data, q[i].data)
  {
    if i > 0 {
      assert EdgeOk(o, q, i);
      RootIsLeast(o, q, Parent(i));
    } else {
      AtMostReflexive(o, q[0].data);
    }
  }

  lemma AtMostReflexive(o: Order, a: Ptr)
    requires o.Lawful()
    ensures o.AtMost(a, a)
  {
    assert o.compare(a, a) <= 0 <==> o.compare(a, a) >= 0;
  }

  // ----- unsigned arithmetic

  /** The number of items that prioq_put makes room for when n are in use: the product wraps around. */
  function NewCapacity(n: nat): (r: nat)
    ensures r < TWO_32
  {
    var twice := Wrapped32((n + 1) * 2);
    if twice > 16 then twice else 16
  }

  /** The new array holds the items and one more just as long as the product does not wrap around. */
  lemma CapacitySuffices(n: nat)
    requires n < TWO_32
    ensures NewCapacity(n) > n <==> (n + 1) * 2 < TWO_32
  {
  }

  /** The capacity of a queue that has been full k times after the first allocation. */
  function CapacityAfter(k: nat): nat {
    if k == 0 then NewCapacity(0) else NewCapacity(CapacityAfter(k - 1))
  }

  lemma {:induction false} CapacityDoubles(k: nat)
    requires k <= 27
    ensures CapacityAfter(k) == 18 * Pow2(k) - 2 && Pow2(k) <= 0x800_0000
  {
    hide NewCapacity;
    PowerBound(k);
    if k > 0 {
      CapacityDoubles(k - 1);
      OneDoubling(Pow2(k - 1));
    } else {
      OneDoubling(0);
    }
  }

  lemma OneDoubling(p: nat)
    requires p <= 0x400_0000
    ensures NewCapacity(0) == 16 && (p > 0 ==> NewCapacity(18 * p - 2) == 36 * p - 2)
  {
  }

  lemma {:induction false} PowerBound(k: nat)
    requires k <= 27
    ensures Pow2(k) * Pow2(27 - k) == 0x800_0000 && Pow2(k) <= 0x800_0000
  {
    if k == 0 {
      assert Pow2(9) == 512;
      assert Pow2(18) == 0x4_0000;
      assert Pow2(27) == 0x800_0000;
    } else {
      PowerBound(k - 1);
      Halved(Pow2(k - 1), Pow2(27 - k));
    }
  }

  lemma Halved(a: nat, b: nat)
    requires a * (2 * b) == 0x800_0000 && b > 0
    ensures (2 * a) * b == 0x800_0000 && 2 * a <= 0x800_0000
  {
    assert (2 * a) * b == 2 * (a * b) == a * (2 * b);
  }

  /** A queue that fills up 28 times is cut down to a fraction of its items. */
  lemma CapacityWraps()
    ensures CapacityAfter(27) == 2415919102 && CapacityAfter(28) == 536870910
  {
    CapacityDoubles(27);
    PowerBound(27);
    assert Pow2(0) == 1;
  }

  /** The right child of an item as shuffle_down computes it, and its left child. */
  function RightChild(i: nat): nat {
    Wrapped32((i + 1) * 2)
  }

  function LeftChild(i: nat): nat {
    Wrapped32(RightChild(i) + TWO_32 - 1)
  }

  /** The item with which the one at i changes places in a turn of shuffle_down, or i itself if the loop ends. */
  function NextDown(o: Order, q: seq<Item>, i: nat): (s: nat)
    requires i < |q|
    ensures s < |q|
  {
    var j, k := LeftChild(i), RightChild(i);
    if j >= |q| then i
    else
      var s := if o.compare(q[j].data, q[i].data) < 0 then j else i;
      if k < |q| && o.compare(q[k].data, q[s].data) < 0 then k else s
  }

  /** The number of items up to which the children are computed right for every item. */
  const MANY: nat := 0x8000_0000

  /** Below 2^31 the children are right; the last such item has none, for an index is below 2^32. */
  lemma ChildrenRight(i: nat)
    requires i < MANY
    ensures i < MANY - 1 ==> RightChild(i) == (i + 1) * 2 && LeftChild(i) == (i + 1) * 2 - 1
    ensures i == MANY - 1 ==> LeftChild(i) == TWO_32 - 1
  {
  }

  /** From 2^31 on, where an item has no children, those of the item 2^31 before are taken for them. */
  lemma ChildrenWrong(i: nat)
    requires MANY <= i < TWO_32 - 1
    ensures LeftChild(i) == (i - MANY + 1) * 2 - 1 && RightChild(i) == (i - MANY + 1) * 2
  {
  }

  /** From i on, shuffle_down comes to no item whose children it computes wrong, or ends there. */
  ghost predicate ShufflesRight(o: Order, q: seq<Item>, i: nat)
    requires i < |q|
    decreases |q| - i
  {
    var s := NextDown(o, q, i);
    s == i || (i < MANY && i < s && ShufflesRight(o, Swapped(q, i, s), s))
  }

  /** The k-th item can be taken off. */
  ghost predicate Removable(o: Order, q: seq<Item>, k: nat)
    requires k < |q|
  {
    k + 1 == |q| || ShufflesRight(o, Replaced(q, k), k)
  }

  /** d is i or a descendant of it. */
  predicate Below(i: nat, d: nat)
    decreases d
  {
    d == i || (d > i && Below(i, Parent(d)))
  }

  lemma {:induction false} ChildBelow(i: nat, s: nat, d: nat)
    requires 0 < s && Parent(s) == i && Below(s, d)
    ensures Below(i, d)
    decreases d
  {
    if d != s {
      ChildBelow(i, s, Parent(d));
    }
  }

  /** It is enough that i and its descendants are below 2^31. */
  lemma {:induction false} LowShuffleRight(o: Order, q: seq<Item>, i: nat)
    requires o.Lawful() && i < |q| < TWO_32 && forall d :: MANY <= d < |q| ==> !Below(i, d)
    ensures ShufflesRight(o, q, i)
    decreases |q| - i
  {
    hide NextDown;
    assert Below(i, i);
    NextDownRight(o, q, i);
    var s := NextDown(o, q, i);
    if s != i {
      forall d | MANY <= d < |q| ensures !Below(s, d) {
        if Below(s, d) {
          ChildBelow(i, s, d);
        }
      }
      LowShuffleRight(o, Swapped(q, i, s), s);
    }
  }

  /** In particular any item of at most 2^31 + 1 can be taken off. */
  lemma FewRemovable(o: Order, q: seq<Item>, k: nat)
    requires o.Lawful() && k < |q| <= MANY + 1
    ensures Removable(o, q, k)
  {
    if k + 1 < |q| {
      LowShuffleRight(o, Replaced(q, k), k);
    }
  }

  // ----- the queue

  /** Every cell of an item holds the item's index. In particular no two items share a cell. */
  ghost predicate CellsOk(q: seq<Item>)
    reads set x | x in q && x.idx != null :: x.idx
  {
    forall i :: 0 <= i < |q| && q[i].idx != null ==> q[i].idx.value == i
  }

  ghost function CellsOf(q: seq<Item>): set<object> {
    set x | x in q && x.idx != null :: x.idx
  }

  class Prioq {
    const order: Order
    var nItems: nat
    var items: array<Item>

    /** The items in use. */
    ghost var queue: seq<Item>

    ghost predicate Rep()
      reads this, items
    {
      nItems == |queue| <= items.Length < TWO_32 && queue == items[..nItems]
    }

    ghost predicate Valid()
      reads this, items, CellsOf(queue)
    {
      Rep() && order.Lawful() && Heap(order, queue) && CellsOk(queue)
    }

    /** prioq_new */
    constructor (order: Order)
      requires order.Lawful()
      ensures Valid() && fresh(items) && queue == [] && this.order == order
    {
      this.order := order;
      nItems, queue := 0, [];
      items := new Item[0];
    }

    method Swap(j: nat, k: nat)
      requires Rep() && j < nItems && k < nItems && j != k && CellsOk(queue)
      modifies this`queue, items, CellsOf(queue)
      ensures Rep() && queue == Swapped(old(queue), j, k) && CellsOk(queue)
    {
      items[j], items[k] := items[k], items[j];
      queue := Swapped(queue, j, k);
      if items[j].idx != null {
        items[j].idx.value := j;
      }
      if items[k].idx != null {
        items[k].idx.value := k;
      }
    }

    method ShuffleUp(idx0: nat) returns (idx: nat)
      requires Rep() && order.Lawful() && HeapAbove(order, queue, idx0) && CellsOk(queue)
      modifies this`queue, items, CellsOf(queue)
      ensures Valid() && multiset(queue) == multiset(old(queue))
    {
      idx := idx0;
      while idx > 0
        invariant Rep() && HeapAbove(order, queue, idx) && CellsOk(queue)
        invariant multiset(queue) == multiset(old(queue))
        invariant CellsOf(queue) == CellsOf(old(queue))
      {
        var k := (idx - 1) / 2;
        if order.compare(items[k].data, items[idx].data) <= 0 {
          break;
        }
        UpStep(order, queue, idx);
        SwappedBag(queue, idx, k);
        SameCells(queue, Swapped(queue, idx, k));
        Swap(idx, k);
        idx := k;
      }
      UpDone(order, queue, idx);
    }

    /** The part of shuffle_down that finds the smallest of an item and what it takes for its children. */
    method SmallestOfThree(idx: nat) returns (s: nat)
      requires Rep() && idx < nItems
      ensures s == NextDown(order, queue, idx)
    {
      var k := RightChild(idx);
      var j := LeftChild(idx);
      if j >= nItems {
        return idx;
      }
      s := if order.compare(items[j].data, items[idx].data) < 0 then j else idx;
      if k < nItems && order.compare(items[k].data, items[s].data) < 0 {
        s := k;
      }
    }

    method ShuffleDown(idx0: nat) returns (idx: nat)
      requires Rep() && order.Lawful() && HeapAround(order, queue, idx0) && CellsOk(queue)
      requires ShufflesRight(order, queue, idx0)
      modifies this`queue, items, CellsOf(queue)
      ensures Rep() && HeapAbove(order, queue, idx) && CellsOk(queue)
      ensures multiset(queue) == multiset(old(queue)) && CellsOf(queue) == CellsOf(old(queue))
    {
      hide HeapAbove, HeapAround, EdgeOk, BridgeOk, NextDown;
      idx := idx0;
      AroundInside(order, queue, idx);
      while true
        invariant Rep() && HeapAround(order, queue, idx) && CellsOk(queue) && idx < nItems == |old(queue)|
        invariant ShufflesRight(order, queue, idx)
        invariant multiset(queue) == multiset(old(queue))
        invariant CellsOf(queue) == CellsOf(old(queue))
        decreases nItems - idx
      {
        NextDownRight(order, queue, idx);
        var s := SmallestOfThree(idx);
        if s == idx {
          break;
        }
        DownStep(order, queue, idx, s);
        SwappedBag(queue, idx, s);
        SameCells(queue, Swapped(queue, idx, s));
        Swap(idx, s);
        idx := s;
      }
      DownDone(order, queue, idx);
    }

    /** The part of prioq_put that fills the next free slot. */
    method Append(x: Item) returns (k: nat)
      requires Rep() && nItems < items.Length && CellsOk(queue)
      requires x.idx != null ==> x.idx !in CellsOf(queue)
      modifies this`nItems, this`queue, items, x.idx
      ensures Rep() && queue == old(queue) + [x] && CellsOk(queue) && k == old(nItems)
    {
      ghost var q := queue;
      k := nItems;
      nItems := nItems + 1;
      items[k] := x;
      queue := q + [x];
      if x.idx != null {
        x.idx.value := k;
      }
    }

    /** prioq_put: 0, or -ENOMEM if the items had to be reallocated and `memory` was not to be had. */
    method Put(data: Ptr, idx: Cell?, memory: bool) returns (r: int)
      requires Valid() && (nItems == items.Length && memory ==> (nItems + 1) * 2 < TWO_32)
      requires idx != null ==> idx !in CellsOf(queue)
      modifies this, items, CellsOf(queue), idx
      ensures Valid() && (items == old(items) || fresh(items))
      ensures r == if old(nItems) < old(items.Length) || memory then 0 else -ENOMEM
      ensures items.Length == if old(nItems) == old(items.Length) && memory then NewCapacity(old(nItems)) else old(items.Length)
      ensures if r == 0 then multiset(queue) == multiset(old(queue)) + multiset{Item(data, idx)} else queue == old(queue)
    {
      hide Heap, HeapAbove, EdgeOk;
      if nItems >= items.Length {
        if !memory {
          return -ENOMEM;
        }
        Reallocate(data);
      }
      AppendedHeap(order, queue, Item(data, idx));
      var k := Append(Item(data, idx));
      var _ := ShuffleUp(k);
      r := 0;
    }

    /** Makes room for more items; the new ones are left as they come. */
    method Reallocate(filler: Ptr)
      requires Valid() && nItems == items.Length && (nItems + 1) * 2 < TWO_32
      modifies this`items
      ensures Valid() && fresh(items) && nItems < items.Length == NewCapacity(nItems)
    {
      hide NewCapacity;
      CapacitySuffices(nItems);
      var n := NewCapacity(nItems);
      var used := items[..nItems];
      items := new Item[n](i => if 0 <= i < |used| then used[i] else Item(filler, null));
      assert items[..nItems] == used;
    }

    /** The part of remove_item that puts the last item in the place of the k-th. */
    method MoveLast(k: nat)
      requires Rep() && k + 1 < nItems && CellsOk(queue)
      modifies this`nItems, this`queue, items, CellsOf(queue)
      ensures Rep() && queue == Replaced(old(queue), k) && CellsOk(queue)
    {
      ghost var q := queue;
      items[k] := items[nItems - 1];
      nItems := nItems - 1;
      queue := Replaced(q, k);
      if items[k].idx != null {
        items[k].idx.value := k;
      }
    }

    /** The part of remove_item that takes the last item off. */
    method DropLast()
      requires Valid() && nItems > 0
      modifies this`nItems, this`queue
      ensures Valid() && queue == old(queue)[..|old(queue)| - 1] && multiset(queue) == multiset(old(queue)) - multiset{old(queue)[|old(queue)| - 1]}
    {
      hide Heap;
      ghost var q := queue;
      nItems := nItems - 1;
      queue := q[..nItems];
      LastRemoved(order, q);
      CellsOfFirst(q, nItems);
    }

    /** remove_item: the last item takes the place of the k-th, and is shuffled down, then up. */
    method RemoveItem(k: nat)
      requires Valid() && k < nItems && Removable(order, queue, k)
      modifies this`nItems, this`queue, items, CellsOf(queue)
      ensures Valid() && multiset(queue) == multiset(old(queue)) - multiset{old(queue)[k]}
    {
      hide Heap, HeapAbove, HeapAround, EdgeOk, BridgeOk, Replaced, CellsOk, ShufflesRight;
      if k == nItems - 1 {
        DropLast();
      } else {
        ReplacedHeap(order, queue, k);
        ReplacedBag(queue, k);
        ReplacedCells(queue, k);
        MoveLast(k);
        var j := ShuffleDown(k);
        var _ := ShuffleUp(j);
      }
    }

    /** find_item: by the caller's cell if there is one, or else by a linear scan; nItems if there is no such item. */
    method FindItem(data: Ptr, idx: Cell?) returns (k: nat)
      requires Valid()
      ensures k == FindIndex(queue, data, idx)
    {
      if nItems <= 0 {
        return nItems;
      }
      if idx != null {
        if idx.value == PRIOQ_IDX_NULL || idx.value >= nItems {
          return nItems;
        }
        return if items[idx.value].data != data then nItems else idx.value;
      }
      k := 0;
      while k < nItems
        invariant k <= nItems && forall j :: 0 <= j < k ==> queue[j].data != data
      {
        if items[k].data == data {
          break;
        }
        k := k + 1;
      }
      FirstIndexIs(queue, data, k);
    }

    /** prioq_remove: 1 if the item was found and removed, 0 if there is no such item. */
    method Remove(data: Ptr, idx: Cell?) returns (r: int)
      requires Valid() && (FindIndex(queue, data, idx) < nItems ==> Removable(order, queue, FindIndex(queue, data, idx)))
      modifies this`nItems, this`queue, items, CellsOf(queue)
      ensures Valid()
      ensures var q := old(queue);
              var k := old(FindIndex(queue, data, idx));
              if k < |q| then r == 1 && q[k].data == data && multiset(queue) == multiset(q) - multiset{q[k]}
              else r == 0 && queue == q
    {
      var k := FindItem(data, idx);
      if k == nItems {
        return 0;
      }
      RemoveItem(k);
      r := 1;
    }

    /** prioq_peek: an item that no other item comes before, or NULL. */
    method Peek() returns (data: Ptr)
      requires Valid()
      ensures if queue == [] then data == NULL else data == queue[0].data && forall i :: 0 <= i < |queue| ==> order.AtMost(data, queue[i].data)
    {
      if nItems <= 0 {
        return NULL;
      }
      forall i | 0 <= i < |queue| ensures order.AtMost(queue[0].data, queue[i].data) {
        RootIsLeast(order, queue, i);
      }
      data := items[0].data;
    }

    /** prioq_pop: takes the item off that prioq_peek would show. */
    method Pop() returns (data: Ptr)
      requires Valid() && (nItems > 0 ==> Removable(order, queue, 0))
      modifies this`nItems, this`queue, items, CellsOf(queue)
      ensures Valid()
      ensures if old(queue) == [] then data == NULL && queue == []
              else
                && data == old(queue)[0].data && (forall i :: 0 <= i < |old(queue)| ==> order.AtMost(data, old(queue)[i].data))
                && multiset(queue) == multiset(old(queue)) - multiset{old(queue)[0]}
    {
      data := Peek();
      if nItems <= 0 {
        return;
      }
      RemoveItem(0);
    }
  }

  /** Items in order, none of them behind any that still is in the queue. */
  ghost predicate Drained(o: Order, popped: seq<Item>, q: seq<Item>) {
    && (forall i, j :: 0 <= i < j < |popped| ==> o.AtMost(popped[i].data, popped[j].data))
    && (forall i, x :: 0 <= i < |popped| && x in q ==> o.AtMost(popped[i].data, x.data))
  }

  lemma DrainedStep(o: Order, popped: seq<Item>, q: seq<Item>, r: seq<Item>)
    requires Drained(o, popped, q) && q != [] && multiset(r) == multiset(q) - multiset{q[0]}
    requires forall i :: 0 <= i < |q| ==> o.AtMost(q[0].data, q[i].data)
    ensures Drained(o, popped + [q[0]], r)
    ensures multiset(popped + [q[0]]) + multiset(r) == multiset(popped) + multiset(q)
  {
    FewerItems(q, r, q[0]);
    assert q[0] in multiset(q);
  }

  function Datas(q: seq<Item>): (d: seq<Ptr>)
    ensures |d| == |q| && forall i :: 0 <= i < |q| ==> d[i] == q[i].data
  {
    seq(|q|, i requires 0 <= i < |q| => q[i].data)
  }

  lemma DatasStep(q: seq<Item>, x: Item)
    ensures Datas(q + [x]) == Datas(q) + [x.data]
  {
  }

  /** Draining a queue by prioq_pop gives its items in order, each once. */
  method Drain(p: Prioq) returns (sorted: seq<Ptr>, ghost popped: seq<Item>)
    requires p.Valid() && p.nItems <= MANY + 1
    modifies p`nItems, p`queue, p.items, CellsOf(p.queue)
    ensures p.Valid() && p.queue == []
    ensures sorted == Datas(popped) && multiset(popped) == multiset(old(p.queue))
    ensures forall i, j :: 0 <= i < j < |sorted| ==> p.order.AtMost(sorted[i], sorted[j])
  {
    hide Heap, CellsOk, Drained, Datas;
    sorted, popped := [], [];
    NothingDrained(p.order, p.queue);
    while p.nItems > 0
      invariant p.Valid() && CellsOf(p.queue) <= CellsOf(old(p.queue)) && p.nItems <= MANY + 1
      invariant sorted == Datas(popped) && Drained(p.order, popped, p.queue)
      invariant multiset(popped) + multiset(p.queue) == multiset(old(p.queue))
      decreases |p.queue|
    {
      ghost var q := p.queue;
      FewRemovable(p.order, q, 0);
      var data := p.Pop();
      FewerItems(q, p.queue, q[0]);
      DrainedStep(p.order, popped, q, p.queue);
      DatasStep(popped, q[0]);
      sorted, popped := sorted + [data], popped + [q[0]];
    }
    DrainedInOrder(p.order, popped, p.queue);
  }

  lemma NothingDrained(o: Order, q: seq<Item>)
    ensures Drained(o, [], q) && Datas([]) == []
  {
  }

  lemma DrainedInOrder(o: Order, popped: seq<Item>, q: seq<Item>)
    requires Drained(o, popped, q)
    ensures forall i, j :: 0 <= i < j < |popped| ==> o.AtMost(Datas(popped)[i], Datas(popped)[j])
  {
  }

  lemma FewerItems(q: seq<Item>, r: seq<Item>, x: Item)
    requires x in q && multiset(r) == multiset(q) - multiset{x}
    ensures |r| == |q| - 1 && CellsOf(r) <= CellsOf(q) && forall y :: y in r ==> y in q
  {
    assert |multiset(q)| == |q| && |multiset(r)| == |r|;
    assert x in multiset(q);
    forall y | y in r ensures y in q {
      assert y in multiset(r);
      assert y in multiset(q);
    }
  }

  // ----- finding items

  function FirstIndex(q: seq<Item>, data: Ptr): (k: nat)
    ensures k <= |q| && (k < |q| ==> q[k].data == data) && forall j :: 0 <= j < k ==> q[j].data != data
  {
    if q == [] || q[0].data == data then 0 else 1 + FirstIndex(q[1..], data)
  }

  lemma FirstIndexIs(q: seq<Item>, data: Ptr, k: nat)
    requires k <= |q| && (k < |q| ==> q[k].data == data) && forall j :: 0 <= j < k ==> q[j].data != data
    ensures k == FirstIndex(q, data)
  {
  }

  /** Where find_item finds an item. */
  function FindIndex(q: seq<Item>, data: Ptr, idx: Cell?): (k: nat)
    reads idx
    ensures k <= |q|
  {
    if idx == null then FirstIndex(q, data)
    else if idx.value == PRIOQ_IDX_NULL || idx.value >= |q| || q[idx.value].data != data then |q|
    else idx.value
  }

  /** A registered item is found through its cell, just where it is; and where data is unique, the linear scan agrees. */
  lemma RegisteredIsFound(q: seq<Item>, i: nat)
    requires CellsOk(q) && i < |q| <= PRIOQ_IDX_NULL && q[i].idx != null
    ensures FindIndex(q, q[i].data, q[i].idx) == i
    ensures FindIndex(q, q[i].data, null) <= i
    ensures (forall j :: 0 <= j < |q| && j != i ==> q[j].data != q[i].data) ==> FindIndex(q, q[i].data, null) == i
  {
  }

  // ----- steps of the shuffles

  lemma AroundInside(o: Order, q: seq<Item>, i: nat)
    requires HeapAround(o, q, i)
    ensures i < |q|
  {
  }

  /** Where the children are computed right, the loop of shuffle_down goes on with the smaller child, or ends rightly. */
  lemma NextDownRight(o: Order, q: seq<Item>, i: nat)
    requires o.Lawful() && i < |q| < TWO_32 && (i < MANY || NextDown(o, q, i) == i)
    ensures var s := NextDown(o, q, i);
            && (s == i ==> forall j :: 0 < j < |q| && Parent(j) == i ==> EdgeOk(o, q, j))
            && (s != i ==> i < s && Parent(s) == i && !EdgeOk(o, q, s))
            && (s != i ==> forall j :: 0 < j < |q| && Parent(j) == i ==> o.AtMost(q[s].data, q[j].data))
  {
    hide RightChild, LeftChild, EdgeOk;
    if i < MANY {
      ChildrenRight(i);
    }
    if i < MANY && LeftChild(i) < |q| {
      SmallerChild(o, q, i, NextDown(o, q, i));
    }
  }

  /** What the comparisons of shuffle_down find out. */
  lemma SmallerChild(o: Order, q: seq<Item>, i: nat, s: nat)
    requires o.Lawful() && i < |q| && s < |q|
    requires var k := (i + 1) * 2;
             && k - 1 < |q|
             && var s0 := if o.compare(q[k - 1].data, q[i].data) < 0 then k - 1 else i;
                s == if k < |q| && o.compare(q[k].data, q[s0].data) < 0 then k else s0
    ensures s == i ==> forall j :: 0 < j < |q| && Parent(j) == i ==> EdgeOk(o, q, j)
    ensures s != i ==> 0 < s && Parent(s) == i && !EdgeOk(o, q, s)
    ensures s != i ==> forall j :: 0 < j < |q| && Parent(j) == i ==> o.AtMost(q[s].data, q[j].data)
  {
    var k := (i + 1) * 2;
    assert forall j :: 0 < j < |q| && Parent(j) == i ==> j == k - 1 || j == k;
    AtMostReflexive(o, q[s].data);
    Comparable(o, q[k - 1].data, q[i].data);
    if k < |q| {
      Comparable(o, q[k].data, q[i].data);
      Comparable(o, q[k].data, q[k - 1].data);
    }
  }

  lemma Comparable(o: Order, a: Ptr, b: Ptr)
    requires o.Lawful()
    ensures o.compare(a, b) >= 0 <==> o.AtMost(b, a)
    ensures o.compare(a, b) < 0 ==> !o.AtMost(b, a)
    ensures o.AtMost(a, b) || o.AtMost(b, a)
  {
    assert o.compare(b, a) <= 0 <==> o.compare(a, b) >= 0;
  }

  lemma LastRemoved(o: Order, q: seq<Item>)
    requires Heap(o, q) && |q| > 0
    ensures Heap(o, q[..|q| - 1]) && multiset(q[..|q| - 1]) == multiset(q) - multiset{q[|q| - 1]}
  {
    var r := q[..|q| - 1];
    forall j {:trigger EdgeOk(o, r, j)} | 0 < j < |r| ensures EdgeOk(o, r, j) {
      assert EdgeOk(o, q, j);
    }
    assert q == r + [q[|q| - 1]];
  }

  lemma CellsOfFirst(q: seq<Item>, n: nat)
    requires n <= |q| && CellsOk(q)
    ensures CellsOk(q[..n])
  {
  }

  lemma ReplacedCells(q: seq<Item>, k: nat)
    requires k + 1 < |q|
    ensures CellsOf(Replaced(q, k)) <= CellsOf(q)
  {
  }

  lemma SameCells(q: seq<Item>, r: seq<Item>)
    requires multiset(q) == multiset(r)
    ensures CellsOf(q) == CellsOf(r)
  {
    forall x ensures x in q <==> x in r {
      assert x in q <==> x in multiset(q);
      assert x in r <==> x in multiset(r);
    }
  }

  // ----- the queue as a bag

  datatype Op =
    | Put(data: Ptr, idx: Cell?, memory: bool)
    | Remove(data: Ptr, idx: Cell?)
    | Pop

  datatype Answer = Code(r: int) | Data(p: Ptr)

  /** The items, and the number for which there is room. */
  datatype Machine = Machine(bag: multiset<Item>, room: nat)

  /** No item of the bag comes before x. */
  ghost predicate Least(o: Order, bag: multiset<Item>, x: Item) {
    forall y :: y in bag ==> o.AtMost(x.data, y.data)
  }

  ghost predicate Holds(bag: multiset<Item>, data: Ptr) {
    exists x :: x in bag && x.data == data
  }

  /** Some item of the bag is registered with the cell. */
  ghost predicate Held(bag: multiset<Item>, idx: Cell) {
    exists x :: x in bag && x.idx == idx
  }

  /** prioq_put on the bag: it fails just when there is neither room nor memory. */
  ghost predicate StepPut(s: Machine, data: Ptr, idx: Cell?, memory: bool, a: Answer, s': Machine) {
    if |s.bag| >= s.room && !memory then a == Code(-ENOMEM) && s' == s
    else
      && a == Code(0) && s'.bag == s.bag + multiset{Item(data, idx)}
      && s'.room == if |s.bag| < s.room then s.room else NewCapacity(|s.bag|)
  }

  /**
   prioq_remove on the bag. A removal through a cell takes the very item that was registered with it, one without a
   cell some item with that data. (A stale cell may lead to another item with the same data.)
   */
  ghost predicate StepRemove(s: Machine, data: Ptr, idx: Cell?, a: Answer, s': Machine) {
    s'.room == s.room &&
    if a == Code(0) then s'.bag == s.bag && (if idx == null then !Holds(s.bag, data) else Item(data, idx) !in s.bag)
    else
      a == Code(1) && exists x ::
        && x in s.bag && x.data == data && s'.bag == s.bag - multiset{x}
        && (idx != null && Item(data, idx) in s.bag ==> x == Item(data, idx))
  }

  ghost predicate StepPop(o: Order, s: Machine, a: Answer, s': Machine) {
    s'.room == s.room &&
    if s.bag == multiset{} then a == Data(NULL) && s'.bag == s.bag
    else exists x :: x in s.bag && Least(o, s.bag, x) && a == Data(x.data) && s'.bag == s.bag - multiset{x}
  }

  ghost predicate Step(o: Order, s: Machine, op: Op, a: Answer, s': Machine) {
    match op
    case Put(data, idx, memory) => StepPut(s, data, idx, memory, a, s')
    case Remove(data, idx) => StepRemove(s, data, idx, a, s')
    case Pop => StepPop(o, s, a, s')
  }

  /** What the source asks of its callers of a put: the cell is not in use, and the new size of the array does not wrap around. */
  ghost predicate PutAllowed(s: Machine, idx: Cell?, memory: bool) {
    && (idx != null ==> !Held(s.bag, idx))
    && (|s.bag| >= s.room && memory ==> (|s.bag| + 1) * 2 < TWO_32)
  }

  /** The same for all operations on a queue; what is taken off can be taken off. */
  ghost predicate Allowed(p: Prioq, op: Op)
    reads p, CellOfRemoval(op)
  {
    match op
    case Put(_, idx, memory) => PutAllowed(Abstract(p), idx, memory)
    case Remove(data, idx) => var k := FindIndex(p.queue, data, idx); k < |p.queue| ==> Removable(p.order, p.queue, k)
    case Pop => p.queue != [] ==> Removable(p.order, p.queue, 0)
  }

  function CellOfRemoval(op: Op): set<object> {
    if op.Remove? && op.idx != null then {op.idx} else {}
  }

  /** What is known of the bag only: something can be taken off if there are at most 2^31 + 1 items. */
  ghost predicate Admissible(s: Machine, op: Op) {
    match op
    case Put(_, idx, memory) => PutAllowed(s, idx, memory)
    case Remove(data, _) => Holds(s.bag, data) ==> |s.bag| <= MANY + 1
    case Pop => |s.bag| <= MANY + 1
  }

  lemma AdmissibleIsAllowed(p: Prioq, op: Op)
    requires p.Valid() && Admissible(Abstract(p), op)
    ensures Allowed(p, op)
  {
    hide PutAllowed, Removable;
    var q := p.queue;
    assert |multiset(q)| == |q|;
    if op.Remove? && FindIndex(q, op.data, op.idx) < |q| {
      var k := FindIndex(q, op.data, op.idx);
      assert q[k] in multiset(q) && q[k].data == op.data;
      FewRemovable(p.order, q, k);
    } else if op.Pop? && q != [] {
      FewRemovable(p.order, q, 0);
    }
  }

  ghost function Abstract(p: Prioq): Machine
    reads p
  {
    Machine(multiset(p.queue), p.items.Length)
  }

  /** What an operation may modify. */
  function CellOf(op: Op): set<object> {
    if op.Put? && op.idx != null then {op.idx} else {}
  }

  /** An operation adds no cell but the one it puts in. */
  lemma StepCells(o: Order, q: seq<Item>, room: nat, op: Op, a: Answer, r: seq<Item>, room': nat)
    requires Step(o, Machine(multiset(q), room), op, a, Machine(multiset(r), room'))
    ensures CellsOf(r) <= CellsOf(q) + CellOf(op)
  {
    hide Holds, Least, NewCapacity;
    forall x | x in r && x.idx != null ensures x.idx in CellsOf(q) + CellOf(op) {
      assert x in multiset(r);
      assert x in multiset(q) || (op.Put? && x == Item(op.data, op.idx));
      assert x in multiset(q) ==> x in q;
    }
  }

  method ExecutePut(p: Prioq, data: Ptr, idx: Cell?, memory: bool) returns (a: Answer)
    requires p.Valid() && PutAllowed(Abstract(p), idx, memory)
    modifies p, p.items, CellsOf(p.queue), idx
    ensures p.Valid() && (p.items == old(p.items) || fresh(p.items))
    ensures StepPut(old(Abstract(p)), data, idx, memory, a, Abstract(p))
  {
    hide Heap, CellsOk, NewCapacity;
    assert |multiset(p.queue)| == |p.queue| == p.nItems;
    if idx != null {
      HeldCells(p.queue, idx);
    }
    var r := p.Put(data, idx, memory);
    a := Code(r);
  }

  method ExecuteRemove(p: Prioq, data: Ptr, idx: Cell?) returns (a: Answer)
    requires p.Valid() && Allowed(p, Op.Remove(data, idx))
    modifies p`nItems, p`queue, p.items, CellsOf(p.queue)
    ensures p.Valid() && StepRemove(old(Abstract(p)), data, idx, a, Abstract(p))
  {
    hide Heap, CellsOk, FindIndex, Removable, StepRemove;
    ghost var q, k, room := p.queue, FindIndex(p.queue, data, idx), p.items.Length;
    FoundInBag(q, data, idx);
    var r := p.Remove(data, idx);
    a := Code(r);
    if k < |q| {
      RemovedFromBag(Machine(multiset(q), room), data, idx, q[k], Abstract(p));
    } else {
      NothingRemoved(Machine(multiset(q), room), data, idx);
    }
  }

  lemma RemovedFromBag(s: Machine, data: Ptr, idx: Cell?, x: Item, s': Machine)
    requires x in s.bag && x.data == data && s' == s.(bag := s.bag - multiset{x})
    requires idx != null && Item(data, idx) in s.bag ==> x == Item(data, idx)
    ensures StepRemove(s, data, idx, Code(1), s')
  {
  }

  lemma NothingRemoved(s: Machine, data: Ptr, idx: Cell?)
    requires if idx == null then !Holds(s.bag, data) else Item(data, idx) !in s.bag
    ensures StepRemove(s, data, idx, Code(0), s)
  {
  }

  method ExecutePop(p: Prioq) returns (a: Answer)
    requires p.Valid() && Allowed(p, Op.Pop)
    modifies p`nItems, p`queue, p.items, CellsOf(p.queue)
    ensures p.Valid() && StepPop(p.order, old(Abstract(p)), a, Abstract(p))
  {
    hide Heap, CellsOk, Least, Removable;
    ghost var q := p.queue;
    var data := p.Pop();
    a := Data(data);
    LeastOfQueue(p.order, q);
  }

  method ExecuteOne(p: Prioq, op: Op) returns (a: Answer)
    requires p.Valid() && Allowed(p, op)
    modifies p, p.items, CellsOf(p.queue), CellOf(op)
    ensures p.Valid() && (p.items == old(p.items) || fresh(p.items))
    ensures Step(p.order, old(Abstract(p)), op, a, Abstract(p))
  {
    hide Prioq.Valid, StepPut, StepRemove, StepPop, Removable, FindIndex, PutAllowed;
    match op
    case Put(data, idx, memory) => a := ExecutePut(p, data, idx, memory);
    case Remove(data, idx) => a := ExecuteRemove(p, data, idx);
    case Pop => a := ExecutePop(p);
  }

  /** Every operation on a queue is one of the bag of its items. */
  method Execute(p: Prioq, op: Op) returns (a: Answer)
    requires p.Valid() && Allowed(p, op)
    modifies p, p.items, CellsOf(p.queue), CellOf(op)
    ensures p.Valid() && (p.items == old(p.items) || fresh(p.items))
    ensures Step(p.order, old(Abstract(p)), op, a, Abstract(p))
    ensures CellsOf(p.queue) <= CellsOf(old(p.queue)) + CellOf(op)
  {
    hide Heap, CellsOk, Allowed, Step;
    ghost var q, room := p.queue, p.items.Length;
    a := ExecuteOne(p, op);
    StepCells(p.order, q, room, op, a, p.queue, p.items.Length);
  }

  lemma HeldCells(q: seq<Item>, idx: Cell)
    ensures Held(multiset(q), idx) <==> idx in CellsOf(q)
  {
    if idx in CellsOf(q) {
      var x :| x in q && x.idx == idx;
      assert x in multiset(q);
    }
  }

  lemma LeastOfQueue(o: Order, q: seq<Item>)
    ensures q != [] && (forall i :: 0 <= i < |q| ==> o.AtMost(q[0].data, q[i].data)) ==> Least(o, multiset(q), q[0])
    ensures q == [] <==> multiset(q) == multiset{}
  {
    assert q != [] ==> q[0] in multiset(q);
  }

  /** What find_item finds, in terms of the bag. */
  lemma FoundInBag(q: seq<Item>, data: Ptr, idx: Cell?)
    requires CellsOk(q) && |q| <= PRIOQ_IDX_NULL
    ensures var k := FindIndex(q, data, idx);
            && (k < |q| ==> q[k] in multiset(q) && q[k].data == data)
            && (k < |q| && idx != null && Item(data, idx) in multiset(q) ==> q[k] == Item(data, idx))
            && (k == |q| ==> if idx == null then !Holds(multiset(q), data) else Item(data, idx) !in multiset(q))
  {
    var k := FindIndex(q, data, idx);
    if idx != null && Item(data, idx) in multiset(q) {
      var i :| 0 <= i < |q| && q[i] == Item(data, idx);
      RegisteredIsFound(q, i);
    }
    if k == |q| && idx == null {
      forall x | x in multiset(q) ensures x.data != data {
        var i :| 0 <= i < |q| && q[i] == x;
      }
    }
  }

  // ----- whole runs

  /** The cells that a run puts in. */
  ghost function PutCells(run: seq<Op>): set<object> {
    set op | op in run && op.Put? && op.idx != null :: op.idx
  }

  lemma CellIsPut(run: seq<Op>, n: nat)
    requires n < |run|
    ensures CellOf(run[n]) <= PutCells(run)
  {
  }

  ghost predicate StepAt(o: Order, trace: seq<Machine>, run: seq<Op>, answers: seq<Answer>, j: nat)
    requires j < |run| && |trace| == |run| + 1 && |answers| == |run|
  {
    Step(o, trace[j], run[j], answers[j], trace[j + 1])
  }

  /** A run of the bag. */
  ghost predicate IsRun(o: Order, trace: seq<Machine>, run: seq<Op>, answers: seq<Answer>): (r: bool)
    ensures r ==> |trace| == |run| + 1 && |answers| == |run|
  {
    && |trace| == |run| + 1 && |answers| == |run|
    && forall j {:trigger StepAt(o, trace, run, answers, j)} :: 0 <= j < |run| ==> StepAt(o, trace, run, answers, j)
  }

  lemma NothingRun(o: Order, s: Machine)
    ensures IsRun(o, [s], [], [])
  {
  }

  lemma ExtendRun(o: Order, trace: seq<Machine>, run: seq<Op>, answers: seq<Answer>, op: Op, a: Answer, s: Machine)
    requires IsRun(o, trace, run, answers) && Step(o, trace[|run|], op, a, s)
    ensures IsRun(o, trace + [s], run + [op], answers + [a])
  {
    hide Step;
    forall j {:trigger StepAt(o, trace + [s], run + [op], answers + [a], j)} | 0 <= j < |run| + 1
      ensures StepAt(o, trace + [s], run + [op], answers + [a], j)
    {
      if j < |run| {
        assert StepAt(o, trace, run, answers, j);
      }
    }
  }

  function PutCount(run: seq<Op>): nat {
    if run == [] then 0 else PutCount(run[..|run| - 1]) + if run[|run| - 1].Put? then 1 else 0
  }

  lemma {:induction false} PutCountMonotonic(run: seq<Op>, n: nat)
    requires n < |run|
    ensures PutCount(run[..n]) + (if run[n].Put? then 1 else 0) <= PutCount(run)
    decreases |run|
  {
    var k := |run| - 1;
    if n < k {
      assert run[..k][..n] == run[..n];
      PutCountMonotonic(run[..k], n);
    }
  }

  /** The cell that an operation puts in. */
  function PutCell(op: Op): Cell? {
    if op.Put? then op.idx else null
  }

  /** No cell is put in twice, or is in use already. */
  ghost predicate CellsApart(s: Machine, run: seq<Op>) {
    && (forall i :: 0 <= i < |run| && PutCell(run[i]) != null ==> !Held(s.bag, PutCell(run[i])))
    && forall i, j :: 0 <= i < j < |run| && PutCell(run[i]) != null ==> PutCell(run[i]) != PutCell(run[j])
  }

  lemma Smaller(bag: multiset<Item>, x: Item)
    requires x in bag
    ensures |bag - multiset{x}| == |bag| - 1 && forall y :: y in bag - multiset{x} ==> y in bag
  {
  }

  lemma Larger(bag: multiset<Item>, x: Item)
    ensures |bag + multiset{x}| == |bag| + 1 && forall y :: y in bag + multiset{x} ==> y in bag || y == x
  {
  }

  lemma StepGrowsByPuts(o: Order, s: Machine, op: Op, a: Answer, s': Machine, idx: Cell?)
    requires Step(o, s, op, a, s')
    ensures |s'.bag| <= |s.bag| + if op.Put? then 1 else 0
    ensures idx != null && Held(s'.bag, idx) ==> Held(s.bag, idx) || PutCell(op) == idx
  {
    hide Holds, Least, NewCapacity;
    if s'.bag != s.bag {
      match op
      case Put(data, cell, _) =>
        Larger(s.bag, Item(data, cell));
      case Remove(data, cell) =>
        var x :| x in s.bag && x.data == data && s'.bag == s.bag - multiset{x};
        Smaller(s.bag, x);
      case Pop =>
        var x :| x in s.bag && Least(o, s.bag, x) && s'.bag == s.bag - multiset{x};
        Smaller(s.bag, x);
    }
    if idx != null && Held(s'.bag, idx) {
      var y :| y in s'.bag && y.idx == idx;
      assert y in s.bag || (op.Put? && y == Item(op.data, op.idx));
    }
  }

  lemma {:induction false} RunGrowsByPuts(o: Order, trace: seq<Machine>, run: seq<Op>, answers: seq<Answer>, n: nat, idx: Cell?)
    requires IsRun(o, trace, run, answers) && n <= |run|
    ensures |trace[n].bag| <= |trace[0].bag| + PutCount(run[..n])
    ensures idx != null && Held(trace[n].bag, idx) ==> Held(trace[0].bag, idx) || exists i :: 0 <= i < n && PutCell(run[i]) == idx
  {
    hide Step, Held;
    if n > 0 {
      RunGrowsByPuts(o, trace, run, answers, n - 1, idx);
      assert StepAt(o, trace, run, answers, n - 1);
      StepGrowsByPuts(o, trace[n - 1], run[n - 1], answers[n - 1], trace[n], idx);
      assert run[..n][..n - 1] == run[..n - 1];
    }
  }

  /** What Run asks for holds if fewer than 2^31 items come together and no cell is put in twice. */
  lemma FewPutsAdmissible(o: Order, run: seq<Op>, n: nat, trace: seq<Machine>, answers: seq<Answer>)
    requires n < |run| && IsRun(o, trace, run[..n], answers)
    requires |trace[0].bag| + PutCount(run) < MANY && CellsApart(trace[0], run)
    ensures Admissible(trace[n], run[n])
  {
    hide Held, IsRun, Holds;
    RunGrowsByPuts(o, trace, run[..n], answers, n, PutCell(run[n]));
    assert run[..n][..n] == run[..n];
    PutCountMonotonic(run, n);
  }

  /**
   Every run of put, remove and pop on a queue is a run of the bag of its items with the same answers, and keeps heap
   order and cells, if in whatever state the bag comes to an operation, the operation is admissible. In particular a
   cell may be used again once no item is registered with it.
   */
  method Run(p: Prioq, run: seq<Op>) returns (answers: seq<Answer>, ghost trace: seq<Machine>)
    requires p.Valid()
    requires forall n: nat, trace: seq<Machine>, answers: seq<Answer> {:trigger IsRun(p.order, trace, run[..n], answers)} ::
               n < |run| && IsRun(p.order, trace, run[..n], answers) && trace[0] == Abstract(p) ==> Admissible(trace[n], run[n])
    modifies p, p.items, CellsOf(p.queue), PutCells(run)
    ensures p.Valid() && IsRun(p.order, trace, run, answers)
    ensures trace[0] == old(Abstract(p)) && trace[|run|] == Abstract(p)
  {
    hide Heap, CellsOk, Step, Admissible, IsRun, CellOf, Prioq.Valid, Prioq.Rep;
    answers, trace := [], [Abstract(p)];
    NothingRun(p.order, trace[0]);
    assert run[..0] == [];
    var n := 0;
    while n < |run|
      invariant 0 <= n <= |run| && p.Valid() && (p.items == old(p.items) || fresh(p.items))
      invariant IsRun(p.order, trace, run[..n], answers)
      invariant trace[0] == old(Abstract(p)) && trace[n] == Abstract(p) && old(allocated(trace))
      invariant CellsOf(p.queue) <= CellsOf(old(p.queue)) + PutCells(run)
    {
      assert IsRun(p.order, trace, run[..n], answers) && trace[0] == old(Abstract(p));
      assert Admissible(trace[n], run[n]);
      CellIsPut(run, n);
      AdmissibleIsAllowed(p, run[n]);
      var a := Execute(p, run[n]);
      ExtendRun(p.order, trace, run[..n], answers, run[n], a, Abstract(p));
      ghost var r := p.queue;
      assert old(allocated(multiset(r))) by {
        forall x: Item | x in multiset(r) ensures old(allocated(x)) {
          assert x.idx != null ==> x.idx in CellsOf(r);
        }
      }
      assert run[..n + 1] == run[..n] + [run[n]];
      answers, trace := answers + [a], trace + [Abstract(p)];
      n := n + 1;
    }
    assert run[..n] == run;
  }
}
