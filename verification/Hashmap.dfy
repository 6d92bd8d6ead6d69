/**
 The hash table itself: open addressing, linear probing, Robin Hood insertion,
 backward-shift removal, in-place rehash, and an insertion-order list threaded
 through the buckets.
 */
module Hashmap {
  import opened Common
  import opened HashOps
  import opened Ring
  import opened Table
  import opened RobinHood
  import opened Removal
  import opened Rehash
  import opened State
  import opened Insertion
  import opened Growth

  /** What putting a new entry returns, given the plan for the resize and whether the allocator has memory. */
  function PutResult(plan: Plan, memory: bool): int {
    match plan
    case Keep => 1
    case TooLarge => -ENOMEM
    case Grow(_) => if memory then 1 else -ENOMEM
  }

  /** entry_value: a set's entries are their own values. */
  function EntryValue(kind: HashmapType, p: Pair): Ptr {
    if kind == SET then p.key else p.value
  }

  /** The answer to a lookup: the value of the pair with an equal key, which for a set is the key as stored, or NULL. */
  ghost predicate Answers(ops: Ops, kind: HashmapType, items: seq<Pair>, key: Ptr, answer: Ptr) {
    && (forall k :: 0 <= k < |items| && ops.Same(items[k].key, key) ==> answer == match kind
                                                                                 case PLAIN => items[k].value
                                                                                 case ORDERED => items[k].value
                                                                                 case SET => items[k].key)
    && ((forall k :: 0 <= k < |items| ==> !ops.Same(items[k].key, key)) ==> answer == NULL)
  }

  lemma LookupAnswers(ops: Ops, kind: HashmapType, items: seq<Pair>, key: Ptr)
    requires ops.Lawful() && UniqueKeys(ops, items)
    ensures Answers(ops, kind, items, key, ValueAt(kind, items, Lookup(ops, items, key)))
  {
    hide Lookup;
    forall k | 0 <= k < |items| && ops.Same(items[k].key, key) ensures Lookup(ops, items, key) == k {
      LookupIs(ops, items, key, k);
    }
  }

  /** What a lookup by key gives: the value found, or NULL. */
  function ValueAt(kind: HashmapType, items: seq<Pair>, k: nat): Ptr {
    if k < |items| then EntryValue(kind, items[k]) else NULL
  }

  /** Storage for the two swap slots, which lives on the stack of the caller. */
  class SwapEntries {
    var put: Entry
    var tmp: Entry

    constructor ()
      ensures put == ZERO_ENTRY && tmp == ZERO_ENTRY
    {
      put, tmp := ZERO_ENTRY, ZERO_ENTRY;
    }
  }

  class HashmapBase {
    const ops: Ops
    const kind: HashmapType
    /** The size of a pointer, 4 or 8 bytes. */
    const wordSize: nat
    const sharedHashKey: Seed

    var hasIndirect: bool
    var indirectHashKey: Seed
    var nIndirectEntries: nat
    var nDirectEntries: nat
    var idxLowestEntry: nat
    var buckets: array<Entry>
    var dibs: array<nat>
    var iterateListHead: nat
    var iterateListTail: nat

    /** The storage, the swap slots in use and the list ends as one value. */
    ghost var table: Table

    /** The places in use, oldest entry first. */
    ghost var order: seq<nat>

    /** Indirect storage has 2^shift bytes. */
    ghost var shift: nat

    // ----- the invariant

    ghost predicate Valid()
      reads this, buckets, dibs
    {
      && Rep(null) && WordSize(wordSize) && ops.Lawful()
      && Quiet(Cfg(), table, order)
      && NEntries() == |order|
      && CapacityOk(kind, wordSize, hasIndirect, table.n, shift)
      && (hasIndirect ==> LowestOk(idxLowestEntry, table.dibs))
    }

    /** The stored pairs, oldest first. */
    ghost function Items(): seq<Pair>
      requires Valid()
      reads this, buckets, dibs
    {
      Contents(table, order)
    }

    /** hashmap_base_new: an empty table in direct storage. */
    constructor (ops: Ops, kind: HashmapType, wordSize: nat, sharedHashKey: Seed)
      requires WordSize(wordSize) && ops.Lawful()
      ensures Valid() && fresh(buckets) && fresh(dibs)
      ensures this.ops == ops && this.kind == kind && this.wordSize == wordSize && this.sharedHashKey == sharedHashKey
      ensures Items() == [] && !hasIndirect
    {
      this.ops, this.kind, this.wordSize, this.sharedHashKey := ops, kind, wordSize, sharedHashKey;
      hasIndirect, indirectHashKey := false, sharedHashKey;
      nIndirectEntries, nDirectEntries, idxLowestEntry := 0, 0, 0;
      shift := 0;
      var n := DirectBuckets(kind, wordSize);
      buckets := new Entry[n](i => ZERO_ENTRY);
      dibs := new nat[n](i => DIB_RAW_FREE);
      iterateListHead, iterateListTail := IDX_NIL, IDX_NIL;
      table, order := Emptied(n), [];
      new;
      DirectStorageFits(kind, wordSize);
      EmptiedQuiet(Cfg(), n);
    }

    // ----- accessors

    function NEntries(): nat
      reads this
    {
      if hasIndirect then nIndirectEntries else nDirectEntries
    }

    function HashKey(): Seed
      reads this`hasIndirect, this`indirectHashKey
    {
      if hasIndirect then indirectHashKey else sharedHashKey
    }

    ghost function Cfg(): Config
      reads this`hasIndirect, this`indirectHashKey
    {
      Config(ops, HashKey(), kind == ORDERED)
    }

    /** The fields and arrays hold what `table` says, and so do the swap slots if there are any. */
    ghost predicate Rep(swap: SwapEntries?)
      reads this, buckets, dibs, swap
    {
      && table.Sized()
      && buckets.Length == dibs.Length == table.n
      && table.dibs == dibs[..]
      && (forall i :: 0 <= i < table.n ==> table.entries[i] == buckets[i])
      && (swap != null ==> table.entries[IDX_PUT] == swap.put && table.entries[IDX_TMP] == swap.tmp)
      && table.head == iterateListHead && table.tail == iterateListTail
    }

    function BucketAtVirtual(swap: SwapEntries?, idx: nat): (e: Entry)
      requires Rep(swap) && table.Reaches(swap != null, idx)
      reads this, buckets, dibs, swap
      ensures e == table.entries[idx]
    {
      if idx < buckets.Length then buckets[idx]
      else if idx == IDX_PUT then swap.put
      else swap.tmp
    }

    function BucketHash(key: Ptr): nat
      requires 0 < buckets.Length
      reads this`hasIndirect, this`indirectHashKey, this`buckets
    {
      ops.Home(HashKey(), buckets.Length, key)
    }

    /** bucket_hash: the remainder of the keyed hash. */
    lemma BucketHashIs(key: Ptr)
      requires 0 < buckets.Length
      ensures BucketHash(key) == ops.hash(HashKey(), key) % buckets.Length
    {
    }

    function NextIdx(idx: nat): (r: nat)
      requires idx < buckets.Length
      reads this`buckets
      ensures r == Next(buckets.Length, idx)
    {
      StepsAreModular(buckets.Length, idx);
      (idx + 1) % buckets.Length
    }

    function PrevIdx(idx: nat): (r: nat)
      requires idx < buckets.Length
      reads this`buckets
      ensures r == Prev(buckets.Length, idx)
    {
      StepsAreModular(buckets.Length, idx);
      (buckets.Length + idx - 1) % buckets.Length
    }

    /** bucket_calculate_dib: a saturated byte is decoded by hashing the key again. */
    function BucketCalculateDib(idx: nat, rawDib: nat): nat
      requires idx < buckets.Length
      reads this, buckets
    {
      if rawDib == DIB_RAW_FREE then DIB_FREE
      else if rawDib < DIB_RAW_OVERFLOW then rawDib
      else Distance(buckets.Length, idx, BucketHash(buckets[idx].key))
    }

    /** Decoding the DIB byte of a settled entry gives its displacement. */
    lemma DecodeDib(swap: SwapEntries?, idx: nat)
      requires Rep(swap) && DibOk(Cfg(), table, idx)
      ensures BucketCalculateDib(idx, dibs[idx]) == Displacement(Cfg(), table, idx)
    {
    }

    // ----- single steps

    method Store(swap: SwapEntries?, idx: nat, e: Entry)
      requires Rep(swap) && table.Reaches(swap != null, idx)
      modifies this`table, buckets, if swap == null then {} else {swap}
      ensures Rep(swap) && table == old(table).(entries := old(table).entries[idx := e])
    {
      if idx < buckets.Length {
        buckets[idx] := e;
      } else if idx == IDX_PUT {
        swap.put := e;
      } else {
        swap.tmp := e;
      }
      table := table.(entries := table.entries[idx := e]);
    }

    method BucketSetDib(ghost swap: SwapEntries?, idx: nat, dib: nat)
      requires Rep(swap) && idx < buckets.Length
      modifies this`table, dibs
      ensures Rep(swap) && table == old(table).SetDib(idx, dib)
    {
      dibs[idx] := if dib != DIB_FREE then (if dib < DIB_RAW_OVERFLOW then dib else DIB_RAW_OVERFLOW)
                   else DIB_RAW_FREE;
      table := table.SetDib(idx, dib);
    }

    /** Sets iterate_previous of the entry at idx, unless idx is IDX_NIL. */
    method LinkPrevious(swap: SwapEntries?, idx: nat, prev: nat)
      requires Rep(swap) && (idx == IDX_NIL || table.Reaches(swap != null, idx))
      modifies this`table, buckets, if swap == null then {} else {swap}
      ensures Rep(swap) && table == old(table).(entries := WithPrev(old(table).entries, idx, prev))
    {
      if idx != IDX_NIL {
        Store(swap, idx, BucketAtVirtual(swap, idx).(prev := prev));
      }
    }

    method LinkNext(swap: SwapEntries?, idx: nat, next: nat)
      requires Rep(swap) && (idx == IDX_NIL || table.Reaches(swap != null, idx))
      modifies this`table, buckets, if swap == null then {} else {swap}
      ensures Rep(swap) && table == old(table).(entries := WithNext(old(table).entries, idx, next))
    {
      if idx != IDX_NIL {
        Store(swap, idx, BucketAtVirtual(swap, idx).(next := next));
      }
    }

    /** The ends of the list follow an entry that moves. */
    method RedirectEnds(ghost swap: SwapEntries?, from: nat, to: nat)
      requires Rep(swap)
      modifies this`table, this`iterateListHead, this`iterateListTail
      ensures Rep(swap)
      ensures table == old(table).(head := Renamed(old(table).head, from, to), tail := Renamed(old(table).tail, from, to))
    {
      if iterateListHead == from {
        iterateListHead := to;
      }
      if iterateListTail == from {
        iterateListTail := to;
      }
      table := table.(head := iterateListHead, tail := iterateListTail);
    }

    /** Moves an entry to another place; `order` follows it. */
    method BucketMoveEntry(swap: SwapEntries?, from: nat, to: nat)
      requires Rep(swap) && table.Reaches(swap != null, from) && table.Reaches(swap != null, to)
      requires from != to
      requires kind == ORDERED ==> table.LinksInside(swap != null, from)
      modifies this`table, this`order, this`iterateListHead, this`iterateListTail
      modifies buckets, if swap == null then {} else {swap}
      ensures Rep(swap) && table == old(table).Move(kind == ORDERED, from, to)
      ensures order == Rename(old(order), from, to)
    {
      Store(swap, to, BucketAtVirtual(swap, from));
      if kind == ORDERED {
        LinkPrevious(swap, BucketAtVirtual(swap, to).next, to);
        LinkNext(swap, BucketAtVirtual(swap, to).prev, to);
        RedirectEnds(swap, from, to);
      }
      order := Rename(order, from, to);
    }

    /** Puts the entry of slot IDX_PUT into a free bucket. */
    method FillBucket(swap: SwapEntries, idx: nat, distance: nat)
      requires Rep(swap) && Fillable(table, kind == ORDERED, idx)
      modifies this`table, this`order, this`iterateListHead, this`iterateListTail, buckets, dibs, swap
      ensures Rep(swap)
      ensures table == old(table).SetDib(idx, distance).Move(kind == ORDERED, IDX_PUT, idx)
      ensures order == Rename(old(order), IDX_PUT, idx)
    {
      BucketSetDib(swap, idx, distance);
      BucketMoveEntry(swap, IDX_PUT, idx);
    }

    /** Swaps the entry of slot IDX_PUT with the entry of a bucket, by way of IDX_TMP. */
    method SwapBucket(swap: SwapEntries, idx: nat, distance: nat)
      requires Rep(swap) && Exchangeable(table, kind == ORDERED, order, idx)
      modifies this`table, this`order, this`iterateListHead, this`iterateListTail, buckets, dibs, swap
      ensures Rep(swap)
      ensures table == Exchanged(old(table), kind == ORDERED, idx).SetDib(idx, distance)
      ensures order == Exchange(old(order), idx)
    {
      if kind == ORDERED {
        ExchangeLinksInside(table, order, idx);
      }
      BucketMoveEntry(swap, idx, IDX_TMP);
      BucketMoveEntry(swap, IDX_PUT, idx);
      BucketMoveEntry(swap, IDX_TMP, IDX_PUT);
      BucketSetDib(swap, idx, distance);
    }

    /** The end of the scan of hashmap_put_robin_hood, at a bucket that is free or whose entry is still to be rehashed. */
    method Land(idx: nat, distance: nat, swap: SwapEntries, ghost t0: Table, ghost o0: seq<nat>, ghost room: nat) returns (displaced: bool)
      requires Rep(swap) && idx < table.n && (dibs[idx] == DIB_RAW_FREE || dibs[idx] == DIB_RAW_REHASH)
      requires Probing(Cfg(), t0, o0, table, order, idx, distance, room)
      modifies this`table, this`order, this`iterateListHead, this`iterateListTail, this`idxLowestEntry, buckets, dibs, swap
      ensures Rep(swap) && Probed(Cfg(), t0, o0, table, order, idx)
      ensures displaced <==> IDX_PUT in order
      ensures idxLowestEntry == if hasIndirect && old(idxLowestEntry) > idx then idx else old(idxLowestEntry)
    {
      hide Core, Probing, Probed, Exchangeable, Fillable, Displacement, Profile, BucketOk, DibOk, Exchanged, Exchange, Rename, Table.Move, Table.SetDib;
      ghost var t, o := table, order;
      ProbeReady(Cfg(), t0, o0, t, o, idx, distance, room);
      displaced := dibs[idx] == DIB_RAW_REHASH;
      if displaced {
        SwapBucket(swap, idx, distance);
        ProbeEvict(Cfg(), t0, o0, t, table, o, order, idx, distance, room);
      } else {
        FillBucket(swap, idx, distance);
        ProbeFill(Cfg(), t0, o0, t, table, o, order, idx, distance, room);
      }
      if hasIndirect && idxLowestEntry > idx {
        idxLowestEntry := idx;
      }
    }

    /** The entry in slot IDX_PUT takes the bucket of a wealthier one, which comes to hand. */
    method TradePlaces(idx: nat, distance: nat, swap: SwapEntries, ghost t0: Table, ghost o0: seq<nat>, ghost room: nat)
      requires Rep(swap) && Probing(Cfg(), t0, o0, table, order, idx, distance, room) && idx < table.n
      requires Exchangeable(table, kind == ORDERED, order, idx) && 0 <= Displacement(Cfg(), table, idx) < distance
      modifies this`table, this`order, this`iterateListHead, this`iterateListTail, buckets, dibs, swap
      ensures Rep(swap) && table.n == old(table.n)
      ensures Probing(Cfg(), t0, o0, table, order, idx, old(Displacement(Cfg(), table, idx)), room)
      ensures Displacement(Cfg(), table, idx) == distance
    {
      hide Probing, Displacement, Exchanged, Exchange, Exchangeable, Table.SetDib;
      ghost var t, o := table, order;
      SwapBucket(swap, idx, distance);
      ProbeSwap(Cfg(), t0, o0, t, table, o, order, idx, distance, room);
    }

    /**
     Finds a bucket for the entry in slot IDX_PUT, starting the scan at idx0 and
     swapping with wealthier entries on the way. Returns true if a pending entry
     had to leave its bucket and is now in IDX_PUT.
     `room` witnesses that some bucket is unsettled; `filled` is the bucket where the scan ended.
     */
    method HashmapPutRobinHood(idx0: nat, swap: SwapEntries, ghost room: nat) returns (displaced: bool, ghost filled: nat)
      requires Rep(swap) && Core(Cfg(), table, order) && IDX_PUT in order
      requires idx0 == Cfg().Home(table.n, table.entries[IDX_PUT].key)
      requires room < table.n && Profile(Cfg(), table)[room] == -1
      modifies this`table, this`order, this`iterateListHead, this`iterateListTail, this`idxLowestEntry, buckets, dibs, swap
      ensures Rep(swap) && Probed(Cfg(), old(table), old(order), table, order, filled)
      ensures displaced <==> IDX_PUT in order
      ensures idxLowestEntry == if hasIndirect && old(idxLowestEntry) > filled then filled else old(idxLowestEntry)
    {
      hide BucketCalculateDib, Core, Probing, Probed, Exchangeable, Fillable, Displacement, Profile, BucketOk, DibOk, Exchanged, Exchange, Rename, Table.Move, Table.SetDib;
      ghost var c, t0, o0 := Cfg(), table, order;
      var idx: nat, distance: nat := idx0, 0;
      StartProbing(c, table, order, idx, room);
      while true
        invariant Rep(swap) && Probing(c, t0, o0, table, order, idx, distance, room)
        invariant idx < table.n && room < table.n && idxLowestEntry == old(idxLowestEntry)
        decreases Distance(table.n, room, idx)
      {
        ghost var t, o := table, order;
        ProbeReady(c, t0, o0, t, o, idx, distance, room);
        var rawDib := dibs[idx];
        if rawDib == DIB_RAW_FREE || rawDib == DIB_RAW_REHASH {
          displaced := Land(idx, distance, swap, t0, o0, room);
          return displaced, idx;
        }
        DecodeDib(swap, idx);
        var dib := BucketCalculateDib(idx, rawDib);
        if dib < distance {
          TradePlaces(idx, distance, swap, t0, o0, room);
          distance := dib;
        }
        ProbeOn(c, t0, o0, table, order, idx, distance, room);
        idx, distance := NextIdx(idx), distance + 1;
      }
    }

    // ----- removal

    method NEntriesDec()
      requires NEntries() > 0
      modifies this`nIndirectEntries, this`nDirectEntries
      ensures NEntries() == old(NEntries()) - 1
      ensures if hasIndirect then nDirectEntries == old(nDirectEntries) else nIndirectEntries == old(nIndirectEntries)
    {
      if hasIndirect {
        nIndirectEntries := nIndirectEntries - 1;
      } else {
        nDirectEntries := nDirectEntries - 1;
      }
    }

    method BucketMarkFree(ghost swap: SwapEntries?, idx: nat)
      requires Rep(swap) && idx < buckets.Length
      modifies this`table, buckets, dibs
      ensures Rep(swap) && table == MarkFree(old(table), idx)
    {
      buckets[idx] := ZERO_ENTRY;
      table := table.(entries := table.entries[idx := ZERO_ENTRY]);
      BucketSetDib(swap, idx, DIB_FREE);
    }

    /** The neighbours of the entry at idx, or the ends of the list, bypass it. */
    method UnlinkEntry(idx: nat, ghost k: nat)
      requires Rep(null) && table.Reaches(false, idx) && k < |order|
      requires kind == ORDERED ==> table.LinksInside(false, idx)
      modifies this`table, this`order, this`iterateListHead, this`iterateListTail, buckets
      ensures Rep(null) && table == Unlink(old(table), kind == ORDERED, idx) && order == Without(old(order), k)
    {
      order := Without(order, k);
      if kind == ORDERED {
        var e := buckets[idx];
        LinkPrevious(null, e.next, e.prev);
        LinkNext(null, e.prev, e.next);
        if e.next == IDX_NIL {
          iterateListTail := e.prev;
        }
        if e.prev == IDX_NIL {
          iterateListHead := e.next;
        }
        table := table.(head := iterateListHead, tail := iterateListTail);
      }
    }

    /**
     Finds the first bucket from `base` on that is free or holds an entry in its
     own bucket, and is `p` steps away. `stop` witnesses that there is such a bucket.
     */
    method FindStopBucket(idx: nat, ghost stop: nat) returns (right: nat, ghost p: nat)
      requires Rep(null) && Core(Cfg(), table, order) && NonePending(table)
      requires idx < table.n && stop < table.n && Displacement(Cfg(), table, stop) <= 0
      ensures p < table.n && right == Ahead(table.n, Next(table.n, idx), p)
      ensures Passed(Cfg(), table, Next(table.n, idx), p)
      ensures Displacement(Cfg(), table, right) <= 0
      ensures right == idx <==> p == table.n - 1
    {
      hide Core, NonePending, Displacement, Passed, Distance, Ahead;
      var left := idx;
      ghost var c, t, o, base := Cfg(), table, order, Next(table.n, idx);
      p, right := 0, NextIdx(left);
      StartPassing(c, t, base, stop);
      while true
        invariant p <= Distance(t.n, stop, base) && right == Ahead(t.n, base, p) && Passed(c, t, base, p)
        decreases t.n - p
      {
        var rawDib := dibs[right];
        PassOrStop(c, t, o, idx, p, stop);
        if rawDib == 0 || rawDib == DIB_RAW_FREE {
          break;
        }
        assert left != right;
        p, right := p + 1, NextIdx(right);
      }
    }

    /** One step of the shift: the entry in bucket left moves one bucket back. */
    method ShiftEntry(left: nat, prev: nat, ghost t0: Table, ghost o0: seq<nat>, ghost base: nat, ghost r: nat, ghost p: nat, ghost d: nat)
      returns (ghost dib: nat)
      requires Rep(null) && Shifting(Cfg(), t0, o0, table, order, base, r, p, d) && r < p
      requires left == Ahead(table.n, base, r) && prev == Prev(table.n, left)
      modifies this`table, this`order, this`iterateListHead, this`iterateListTail, buckets, dibs
      ensures Rep(null) && Shifting(Cfg(), t0, o0, table, order, base, r + 1, p, dib)
      ensures table.n == old(table.n) && Next(table.n, left) == Ahead(table.n, base, r + 1)
    {
      hide Shifting, DibOk, Displacement, Table.Move, Table.SetDib, Rename;
      ghost var t1, o1 := table, order;
      ShiftReady(Cfg(), t0, o0, t1, o1, base, r, p, d);
      DecodeDib(null, left);
      var oldDib := BucketCalculateDib(left, dibs[left]);
      assert oldDib != 0;
      BucketMoveEntry(null, left, prev);
      BucketSetDib(null, prev, oldDib - 1);
      ShiftStep(Cfg(), t0, o0, t1, table, o1, order, base, r, p, d, left, prev);
      dib := oldDib;
    }

    /** Shifts all entries between bucket idx and bucket `right` one bucket back, leaving the hole at `prev`. */
    method ShiftEntriesBack(idx: nat, right: nat, ghost p: nat, ghost d0: nat) returns (prev: nat, ghost d: nat)
      requires Rep(null) && idx < table.n
      requires p < table.n && Shifting(Cfg(), table, order, table, order, Next(table.n, idx), 0, p, d0)
      requires right == Ahead(table.n, Next(table.n, idx), p)
      modifies this`table, this`order, this`iterateListHead, this`iterateListTail, buckets, dibs
      ensures Rep(null) && Shifting(Cfg(), old(table), old(order), table, order, Next(table.n, idx), p, p, d)
      ensures table.n == old(table.n) && prev == Prev(table.n, right)
    {
      hide Core, Shifting;
      ghost var c, t0, o0, base := Cfg(), table, order, Next(table.n, idx);
      ghost var r: nat := 0;
      d := d0;
      var left := NextIdx(idx);
      prev := idx;
      while left != right
        invariant Rep(null) && Shifting(c, t0, o0, table, order, base, r, p, d)
        invariant table.n == t0.n && r <= p && left == Ahead(t0.n, base, r) && prev == Prev(t0.n, left)
        decreases p - r
      {
        d := ShiftEntry(left, prev, t0, o0, base, r, p, d);
        r := r + 1;
        prev, left := left, NextIdx(left);
      }
    }

    /** The part of base_remove_entry that takes the entry out of the list. */
    method OpenHole(idx: nat, ghost k: nat, ghost p: nat)
      requires Rep(null) && Core(Cfg(), table, order) && IDX_PUT !in order && NonePending(table)
      requires k < |order| && order[k] == idx < table.n && p < table.n && Displacement(Cfg(), table, idx) >= 0
      requires Passed(Cfg(), table, Next(table.n, idx), p) && Displacement(Cfg(), table, Ahead(table.n, Next(table.n, idx), p)) <= 0
      modifies this`table, this`order, this`iterateListHead, this`iterateListTail, buckets
      ensures Rep(null) && table == Unlink(old(table), kind == ORDERED, idx) && order == Without(old(order), k)
      ensures table.n == old(table.n) && Places(table, order) && Contents(table, order) == Without(old(Contents(table, order)), k)
      ensures Shifting(Cfg(), table, order, table, order, Next(table.n, idx), 0, p, Displacement(Cfg(), old(table), idx))
    {
      hide Core, Shifting, Passed, Places, Linked, Displacement, Settled, Unlink, Without, Contents;
      ghost var c, t, o := Cfg(), table, order;
      RemovalReady(c, t, o, k);
      UnlinkEntry(idx, k);
      StartShifting(c, t, table, o, order, k, Next(t.n, idx), p);
    }

    /** The part of base_remove_entry that moves entries: the one in bucket idx is gone, p others are one bucket back. */
    method ShiftOut(idx: nat, ghost k: nat, ghost stop: nat) returns (ghost p: nat)
      requires Rep(null) && Core(Cfg(), table, order) && IDX_PUT !in order && NonePending(table)
      requires k < |order| && order[k] == idx < table.n
      requires stop < table.n && Displacement(Cfg(), table, stop) <= 0
      modifies this`table, this`order, this`iterateListHead, this`iterateListTail, buckets, dibs
      ensures Rep(null) && Removed(Cfg(), old(table), old(order), table, order, k, p)
    {
      hide Core, Removed, Shifting, Passed, Places, Linked, Displacement, Settled, Unlink, Without, Contents, MarkFree;
      ghost var c, t, o := Cfg(), table, order;
      RemovalReady(c, t, o, k);
      var right;
      right, p := FindStopBucket(idx, stop);
      OpenHole(idx, k, p);
      ghost var t0, o0 := table, order;
      ghost var d;
      var prev;
      prev, d := ShiftEntriesBack(idx, right, p, Displacement(c, t, idx));
      EndShifting(c, t, o, k, t0, o0, table, order, Next(t.n, idx), p, d);
      BucketMarkFree(null, prev);
    }

    /** base_remove_entry: removes the entry in bucket idx, which is the k-th oldest; p entries shift back. */
    method BaseRemoveEntry(idx: nat, ghost k: nat, ghost stop: nat) returns (ghost p: nat)
      requires Rep(null) && Core(Cfg(), table, order) && IDX_PUT !in order
      requires NonePending(table)
      requires k < |order| && order[k] == idx < table.n && NEntries() > 0
      requires stop < table.n && Displacement(Cfg(), table, stop) <= 0
      modifies this`table, this`order, this`iterateListHead, this`iterateListTail, buckets, dibs
      modifies this`nIndirectEntries, this`nDirectEntries
      ensures Rep(null) && Removed(Cfg(), old(table), old(order), table, order, k, p)
      ensures NEntries() == old(NEntries()) - 1
      ensures if hasIndirect then nDirectEntries == old(nDirectEntries) else nIndirectEntries == old(nIndirectEntries)
    {
      hide Core, Removed;
      p := ShiftOut(idx, k, stop);
      NEntriesDec();
    }

    // ----- lookup

    /** base_bucket_scan: the bucket of the entry whose key compares equal, or IDX_NIL. */
    method BaseBucketScan(idx0: nat, key: Ptr) returns (r: nat, ghost k: nat)
      requires Valid() && idx0 == Cfg().Home(table.n, key)
      ensures k == Lookup(ops, Items(), key)
      ensures r == IDX_NIL <==> Lookup(ops, Items(), key) == |order|
      ensures r != IDX_NIL ==> r < table.n && r == order[Lookup(ops, Items(), key)]
    {
      hide Quiet, Unmatched, CapacityOk, LowestOk, Contents, DibOk, Displacement;
      ghost var c := Cfg();
      var idx, distance: nat := idx0, 0;
      assert Unmatched(c, table, idx0, key, 0) by { NothingUnmatched(c, table, idx0, key); }
      while true
        invariant distance <= table.n && idx == Ahead(table.n, idx0, distance)
        invariant Unmatched(c, table, idx0, key, distance)
        decreases table.n - distance
      {
        ScanReady(c, table, order, idx);
        if dibs[idx] == DIB_RAW_FREE {
          EarlyStopIsExact(c, table, order, key, distance);
          return IDX_NIL, |order|;
        }
        DecodeDib(null, idx);
        var dib := BucketCalculateDib(idx, dibs[idx]);
        if dib < distance {
          EarlyStopIsExact(c, table, order, key, distance);
          return IDX_NIL, |order|;
        }
        if dib == distance {
          if ops.compare(buckets[idx].key, key) == 0 {
            k := MatchIsLookup(c, table, order, key, idx);
            return idx, k;
          }
        }
        ScanOn(c, table, idx0, key, distance);
        idx, distance := NextIdx(idx), distance + 1;
      }
    }

    // ----- growth

    /** The entry of bucket idx, which is pending, is settled where it is. */
    method SettleBucket(ghost swap: SwapEntries?, idx: nat)
      requires Rep(swap) && idx < table.n
      modifies this`table, dibs
      ensures Rep(swap) && table == old(table).(dibs := old(table).dibs[idx := 0])
    {
      dibs[idx] := 0;
      table := table.(dibs := table.dibs[idx := 0]);
    }

    /** The entry of bucket idx is taken into slot IDX_PUT, and the bucket is cleared. */
    method TakeUpBucket(swap: SwapEntries, idx: nat)
      requires Rep(swap) && idx < table.n
      requires kind == ORDERED ==> table.LinksInside(true, idx)
      modifies this`table, this`order, this`iterateListHead, this`iterateListTail, buckets, dibs, swap
      ensures Rep(swap) && table == TakeUp(old(table), kind == ORDERED, idx)
      ensures order == Rename(old(order), idx, IDX_PUT)
    {
      dibs[idx] := DIB_RAW_FREE;
      table := table.(dibs := table.dibs[idx := DIB_RAW_FREE]);
      BucketMoveEntry(swap, idx, IDX_PUT);
      Store(swap, idx, ZERO_ENTRY);
    }

    /** One round of the do/while loop of resize_buckets: true and its home bucket if another entry is in slot IDX_PUT now. */
    method RehashOne(idx0: nat, swap: SwapEntries, nRehashed: nat, ghost items: seq<Pair>, ghost oldN: nat, ghost idx: nat)
      returns (again: bool, next: nat)
      requires Rep(swap) && hasIndirect && LowestOk(idxLowestEntry, table.dibs)
      requires Rehashing(Cfg(), table, order, items, oldN, idx, nRehashed) && IDX_PUT in order && |order| <= table.n
      requires idx0 == Cfg().Home(table.n, table.entries[IDX_PUT].key)
      modifies this`table, this`order, this`iterateListHead, this`iterateListTail, this`idxLowestEntry, buckets, dibs, swap
      ensures Rep(swap) && LowestOk(idxLowestEntry, table.dibs) && nRehashed < |order| == old(|order|) && table.n == old(table.n)
      ensures Rehashing(Cfg(), table, order, items, oldN, idx, nRehashed + 1)
      ensures again <==> IDX_PUT in order
      ensures again ==> next == Cfg().Home(table.n, table.entries[IDX_PUT].key)
    {
      hide Core, Rehashing, Probed, Profile, OneMoreSettled, LowestOk, Places, Linked, Contents, BucketOk, Displacement;
      ghost var c, t, o, lowest, filled := Cfg(), table, order, idxLowestEntry, 0;
      ghost var room := RoundReady(c, t, o, items, oldN, idx, nRehashed);
      again, filled := HashmapPutRobinHood(idx0, swap, room);
      RoundSettles(c, t, table, o, order, items, oldN, idx, nRehashed, filled);
      FilledKeepsLowest(lowest, t.dibs, table.dibs, filled);
      next := idx0;
      if again {
        next := BucketHash(swap.put.key);
      }
    }

    /** The do/while loop of resize_buckets: rehashes the entry in slot IDX_PUT and the entries displaced on the way. */
    method RehashHomeless(swap: SwapEntries, idx0: nat, nRehashed0: nat, ghost items: seq<Pair>, ghost oldN: nat, ghost idx: nat)
      returns (nRehashed: nat)
      requires Rep(swap) && hasIndirect && LowestOk(idxLowestEntry, table.dibs)
      requires Rehashing(Cfg(), table, order, items, oldN, idx, nRehashed0) && IDX_PUT in order && |order| <= table.n
      requires idx0 == Cfg().Home(table.n, table.entries[IDX_PUT].key)
      modifies this`table, this`order, this`iterateListHead, this`iterateListTail, this`idxLowestEntry, buckets, dibs, swap
      ensures Rep(swap) && LowestOk(idxLowestEntry, table.dibs)
      ensures Rehashing(Cfg(), table, order, items, oldN, idx, nRehashed) && IDX_PUT !in order
      ensures |order| == old(|order|) && table.n == old(table.n)
    {
      hide Core, Rehashing, LowestOk, Config.Home;
      ghost var c := Cfg();
      var optimalIdx, rehashNext := idx0, true;
      nRehashed := nRehashed0;
      while rehashNext
        invariant Rep(swap) && LowestOk(idxLowestEntry, table.dibs)
        invariant Rehashing(c, table, order, items, oldN, idx, nRehashed)
        invariant |order| == old(|order|) && table.n == old(table.n)
        invariant rehashNext <==> IDX_PUT in order
        invariant rehashNext ==> optimalIdx == c.Home(table.n, table.entries[IDX_PUT].key)
        decreases rehashNext, |order| - nRehashed
      {
        rehashNext, optimalIdx := RehashOne(optimalIdx, swap, nRehashed, items, oldN, idx);
        nRehashed := nRehashed + 1;
      }
    }

    /** The loop of resize_buckets over the old buckets. */
    method RehashEntries(oldN: nat, ghost items: seq<Pair>) returns (nRehashed: nat)
      requires Rep(null) && hasIndirect && LowestOk(idxLowestEntry, table.dibs) && IDX_PUT !in order
      requires Rehashing(Cfg(), table, order, items, oldN, 0, 0) && |order| <= table.n
      modifies this`table, this`order, this`iterateListHead, this`iterateListTail, this`idxLowestEntry, buckets, dibs
      ensures Rep(null) && LowestOk(idxLowestEntry, table.dibs) && IDX_PUT !in order
      ensures Rehashing(Cfg(), table, order, items, oldN, oldN, nRehashed)
      ensures table.n == old(table.n)
    {
      hide Core, Rehashing, LowestOk, TakeUp, Contents, Table.LinksInside, Places, Linked;
      ghost var c := Cfg();
      LoopFacts(c, table, order, items, oldN, 0, 0);
      var swap := new SwapEntries();
      UseSlots(swap, items, oldN);
      nRehashed := 0;
      var idx: nat := 0;
      while idx < oldN
        invariant idx <= oldN && Rep(swap) && LowestOk(idxLowestEntry, table.dibs) && IDX_PUT !in order
        invariant Rehashing(c, table, order, items, oldN, idx, nRehashed)
        invariant |order| == |items| <= table.n && table.n == old(table.n) && oldN <= table.n
      {
        LoopFacts(c, table, order, items, oldN, idx, nRehashed);
        nRehashed := RehashBucket(swap, idx, nRehashed, items, oldN);
        idx := idx + 1;
      }
    }

    /** Fresh swap slots come into use. */
    ghost method UseSlots(swap: SwapEntries, items: seq<Pair>, oldN: nat)
      requires Rep(null) && Rehashing(Cfg(), table, order, items, oldN, 0, 0) && IDX_PUT !in order
      modifies this`table
      ensures Rep(swap) && Rehashing(Cfg(), table, order, items, oldN, 0, 0)
      ensures table.n == old(table).n && table.dibs == old(table).dibs
    {
      SlotsIrrelevant(Cfg(), table, order, swap.put, swap.tmp);
      ghost var t := table;
      table := WithSlots(table, swap.put, swap.tmp);
      assert SettledSet(table) == SettledSet(t);
    }

    /** One round of the loop of resize_buckets. */
    method RehashBucket(swap: SwapEntries, idx: nat, nRehashed0: nat, ghost items: seq<Pair>, ghost oldN: nat) returns (nRehashed: nat)
      requires Rep(swap) && hasIndirect && LowestOk(idxLowestEntry, table.dibs) && IDX_PUT !in order
      requires Rehashing(Cfg(), table, order, items, oldN, idx, nRehashed0) && idx < oldN <= table.n && |order| == |items| <= table.n
      modifies this`table, this`order, this`iterateListHead, this`iterateListTail, this`idxLowestEntry, buckets, dibs, swap
      ensures Rep(swap) && LowestOk(idxLowestEntry, table.dibs) && IDX_PUT !in order
      ensures Rehashing(Cfg(), table, order, items, oldN, idx + 1, nRehashed)
      ensures |order| == old(|order|) && table.n == old(table.n)
    {
      hide Core, Rehashing, TakeUp, Table.LinksInside, LowestOk;
      ghost var c, t, o := Cfg(), table, order;
      LoopFacts(c, t, o, items, oldN, idx, nRehashed0);
      if dibs[idx] != DIB_RAW_REHASH {
        SkipBucket(c, t, o, items, oldN, idx, nRehashed0);
        return nRehashed0;
      }
      LowestBelow(idxLowestEntry, t.dibs, idx);
      var optimalIdx := BucketHash(buckets[idx].key);
      if optimalIdx == idx {
        SettleBucket(swap, idx);
        SettleInPlace(c, t, table, o, items, oldN, idx, nRehashed0);
        return nRehashed0 + 1;
      }
      TakeUpBucket(swap, idx);
      TakeUpPending(c, t, table, o, order, items, oldN, idx, nRehashed0);
      nRehashed := RehashHomeless(swap, optimalIdx, nRehashed0, items, oldN, idx + 1);
    }

    /** The buckets of the enlarged storage: the old ones, and zeroed new ones. */
    method GrownBuckets(n: nat) returns (newBuckets: array<Entry>)
      requires Rep(null) && table.n <= n <= IDX_SWAP_BEGIN
      ensures fresh(newBuckets) && newBuckets.Length == n
      ensures forall i :: 0 <= i < n ==> newBuckets[i] == Enlarged(table, n).entries[i]
    {
      var stored := buckets[..];
      newBuckets := new Entry[n](i => if 0 <= i < |stored| then stored[i] else ZERO_ENTRY);
    }

    /** The moved DIB array: what was in use is marked as pending. */
    method GrownDibs(n: nat) returns (newDibs: array<nat>)
      requires Rep(null) && table.n <= n <= IDX_SWAP_BEGIN
      requires NonePending(table)
      ensures fresh(newDibs) && newDibs.Length == n && newDibs[..] == Enlarged(table, n).dibs
    {
      newDibs := new nat[n](i => DIB_RAW_FREE);
      var idx := 0;
      while idx < dibs.Length
        invariant 0 <= idx <= dibs.Length <= n
        invariant forall i :: 0 <= i < idx ==> newDibs[i] == Enlarged(table, n).dibs[i]
        invariant forall i :: idx <= i < n ==> newDibs[i] == DIB_RAW_FREE
        invariant fresh(newDibs) && newDibs.Length == n && Rep(null) && table == old(table)
      {
        assert dibs[idx] == table.dibs[idx];
        newDibs[idx] := if dibs[idx] == DIB_RAW_FREE then DIB_RAW_FREE else DIB_RAW_REHASH;
        idx := idx + 1;
      }
    }

    /** The counters of indirect storage take over from those of direct storage. */
    method UpgradeCounters()
      modifies this`nIndirectEntries, this`idxLowestEntry, this`nDirectEntries
      ensures nIndirectEntries == old(NEntries())
      ensures idxLowestEntry == if hasIndirect then old(idxLowestEntry) else 0
    {
      if !hasIndirect {
        nIndirectEntries, idxLowestEntry, nDirectEntries := nDirectEntries, 0, 0;
      }
    }

    /** The reallocated storage is taken into use. */
    method TakeIntoUse(newBuckets: array<Entry>, newDibs: array<nat>, newShift: nat, newKey: Seed)
      requires Rep(null) && table.n <= newBuckets.Length == newDibs.Length <= IDX_SWAP_BEGIN
      requires forall i :: 0 <= i < newBuckets.Length ==> newBuckets[i] == Enlarged(table, newBuckets.Length).entries[i]
      requires newDibs[..] == Enlarged(table, newBuckets.Length).dibs
      modifies this`buckets, this`dibs, this`table, this`hasIndirect, this`shift, this`indirectHashKey
      modifies this`nIndirectEntries, this`idxLowestEntry, this`nDirectEntries
      ensures Rep(null) && table == Enlarged(old(table), newBuckets.Length)
      ensures buckets == newBuckets && dibs == newDibs && hasIndirect && shift == newShift && HashKey() == newKey
      ensures idxLowestEntry == (if old(hasIndirect) then old(idxLowestEntry) else 0) && NEntries() == old(NEntries())
    {
      UpgradeCounters();
      indirectHashKey, hasIndirect, shift := newKey, true, newShift;
      buckets, dibs, table := newBuckets, newDibs, Enlarged(table, newBuckets.Length);
    }

    /** The storage is enlarged to 2^newShift bytes under a new hash key, and every entry is marked as pending. */
    method EnlargeStorage(newShift: nat, newKey: Seed)
      requires Valid() && newShift < 32
      requires var n := Capacity(kind, wordSize, newShift); table.n <= n <= IDX_SWAP_BEGIN
      modifies this
      ensures fresh(buckets) && fresh(dibs) && Rep(null) && hasIndirect && IDX_PUT !in order
      ensures table.n == Capacity(kind, wordSize, newShift) && shift == newShift && order == old(order)
      ensures Rehashing(Cfg(), table, order, old(Items()), old(table.n), 0, 0)
      ensures LowestOk(idxLowestEntry, table.dibs) && NEntries() == old(NEntries()) && HashKey() == newKey
    {
      hide Core, Rehashing, Quiet, Contents, Displacement, Settled, Capacity, Pow2, CellSize, Enlarged;
      ghost var c, t := Cfg(), table;
      QuietIsCore(c, t, order);
      var n := Capacity(kind, wordSize, newShift);
      var newBuckets := GrownBuckets(n);
      var newDibs := GrownDibs(n);
      TakeIntoUse(newBuckets, newDibs, newShift, newKey);
      EnlargedRehashing(c, Cfg(), t, order, n);
      EnlargedLowest(t, n, idxLowestEntry);
    }

    /** What resize_buckets will do; 1U << 32 is undefined in C, so callers stay below 2^31 bytes. */
    function ResizePlan(entriesAdd: nat): Plan
      requires WordSize(wordSize)
      reads this, buckets
    {
      PlanResize(kind, wordSize, hasIndirect, buckets.Length, NEntries(), entriesAdd)
    }

    function StorageRoom(): Room
      reads this
    {
      Room(hasIndirect, buckets.Length)
    }

    predicate ShiftDefined(entriesAdd: nat)
      requires WordSize(wordSize)
      reads this, buckets
    {
      ResizePlan(entriesAdd).Grow? ==> ResizePlan(entriesAdd).shift < 32
    }

    /**
     resize_buckets. `newKey` is the hash key drawn for the new storage, and
     `memory` says whether the allocator has any.
     */
    method ResizeBuckets(entriesAdd: nat, newKey: Seed, memory: bool) returns (r: int)
      requires Valid() && entriesAdd < TWO_32 && ShiftDefined(entriesAdd)
      modifies this
      ensures Valid() && Items() == old(Items())
      ensures r == match old(ResizePlan(entriesAdd))
                   case Keep => 0
                   case TooLarge => -ENOMEM
                   case Grow(_) => if memory then 1 else -ENOMEM
      ensures r != 1 ==> unchanged(this)
      ensures r == 1 ==> fresh(buckets) && fresh(dibs) && hasIndirect && HashKey() == newKey
      ensures r == 1 ==> shift == old(ResizePlan(entriesAdd)).shift
      ensures r >= 0 ==> NEntries() + entriesAdd <= table.n
    {
      hide Quiet, Rehashing, Contents, PlanResize, Capacity, Wanted;
      var plan := ResizePlan(entriesAdd);
      QuietIsCore(Cfg(), table, order);
      EntriesFit(Cfg(), table, order);
      if plan.TooLarge? || (plan.Grow? && !memory) {
        return -ENOMEM;
      }
      PlanUnwrapped(kind, wordSize, hasIndirect, buckets.Length, NEntries(), entriesAdd);
      if plan.Keep? {
        KeptIsEnough(kind, wordSize, hasIndirect, buckets.Length, shift, NEntries(), entriesAdd);
        return 0;
      }
      ghost var items, n := Items(), NEntries();
      var oldN := buckets.Length;
      GrowthDoubles(kind, wordSize, hasIndirect, oldN, shift, n, entriesAdd, plan.shift);
      EnlargeStorage(plan.shift, newKey);
      var nRehashed := RehashEntries(oldN, items);
      RehashedQuiet(Cfg(), table, order, items, oldN, nRehashed);
      assert nRehashed == NEntries();
      return 1;
    }

    // ----- insertion

    /** The links of the entry in slot IDX_PUT, which is to be the newest. */
    method LinkBehindTail(swap: SwapEntries)
      requires Rep(swap) && (table.tail == IDX_NIL || table.tail < table.n)
      modifies this`table, buckets, swap
      ensures Rep(swap)
      ensures var e := old(table).entries[IDX_PUT].(next := IDX_NIL, prev := old(table).tail);
              table == old(table).(entries := WithNext(old(table).entries[IDX_PUT := e], old(table).tail, IDX_PUT))
    {
      swap.put := swap.put.(next := IDX_NIL, prev := iterateListTail);
      table := table.(entries := table.entries[IDX_PUT := swap.put]);
      LinkNext(swap, iterateListTail, IDX_PUT);
    }

    /** The part of hashmap_base_put_boldly that makes the entry in slot IDX_PUT the newest of the list. */
    method LinkInList(swap: SwapEntries)
      requires Rep(swap) && (table.tail == IDX_NIL || table.tail < table.n)
      modifies this`table, this`iterateListHead, this`iterateListTail, buckets, swap
      ensures Rep(swap) && table == Append(old(table), true)
    {
      hide WithNext;
      LinkBehindTail(swap);
      iterateListTail := IDX_PUT;
      if iterateListHead == IDX_NIL {
        iterateListHead := IDX_PUT;
      }
      table := table.(head := iterateListHead, tail := iterateListTail);
    }

    /** The entry that the caller placed in slot IDX_PUT becomes the newest of the list. */
    method LinkNewest(swap: SwapEntries)
      requires Rep(null)
      requires kind == ORDERED ==> table.tail == IDX_NIL || table.tail < table.n
      modifies this`table, this`order, this`iterateListHead, this`iterateListTail, buckets, swap
      ensures Rep(swap) && order == old(order) + [IDX_PUT]
      ensures table == Append(WithSlots(old(table), old(swap.put), old(swap.tmp)), kind == ORDERED)
    {
      table := WithSlots(table, swap.put, swap.tmp);
      order := order + [IDX_PUT];
      if kind == ORDERED {
        LinkInList(swap);
      }
    }

    method NEntriesInc()
      modifies this`nIndirectEntries, this`nDirectEntries
      ensures NEntries() == old(NEntries()) + 1
    {
      if hasIndirect {
        nIndirectEntries := nIndirectEntries + 1;
      } else {
        nDirectEntries := nDirectEntries + 1;
      }
    }

    /** The new entry in slot IDX_PUT enters the list and finds its bucket. */
    method PlaceNewest(idx: nat, swap: SwapEntries)
      requires Rep(null) && ops.Lawful() && Quiet(Cfg(), table, order) && |order| < table.n
      requires Lookup(ops, Contents(table, order), swap.put.key) == |order|
      requires idx == Cfg().Home(table.n, swap.put.key)
      requires hasIndirect ==> LowestOk(idxLowestEntry, table.dibs)
      modifies this`table, this`order, this`iterateListHead, this`iterateListTail, this`idxLowestEntry, buckets, dibs, swap
      ensures Rep(null) && Quiet(Cfg(), table, order) && table.n == old(table.n) && |order| == old(|order|) + 1
      ensures Contents(table, order) == old(Contents(table, order)) + [old(swap.put).Stored()]
      ensures hasIndirect ==> LowestOk(idxLowestEntry, table.dibs)
    {
      hide Quiet, Core, Profile, Probed, Contents, LowestOk, Append, WithSlots, Lookup, UniqueKeys, OneMoreSettled, NonePending;
      ghost var c, t, o, lowest := Cfg(), table, order, idxLowestEntry;
      TailInBuckets(c, t, o);
      LinkNewest(swap);
      ghost var t1, o1, filled := table, order, 0;
      ghost var room := ReadyToInsert(c, t, t1, o, o1, old(swap.put), old(swap.tmp));
      QuietIsCore(c, t, o);
      var displaced;
      displaced, filled := HashmapPutRobinHood(idx, swap, room);
      InsertedQuiet(c, t1, o1, table, order, filled);
      if hasIndirect {
        FilledKeepsLowest(lowest, t.dibs, table.dibs, filled);
      }
      assert !displaced;
    }

    /** hashmap_base_put_boldly once there is room: no check whether the key exists. */
    method InsertEntry(idx: nat, swap: SwapEntries)
      requires Valid() && NEntries() < table.n
      requires Lookup(ops, Items(), swap.put.key) == |Items()|
      requires idx == Cfg().Home(table.n, swap.put.key)
      modifies this`table, this`order, this`iterateListHead, this`iterateListTail, this`idxLowestEntry
      modifies this`nIndirectEntries, this`nDirectEntries, buckets, dibs, swap
      ensures Valid() && Items() == old(Items()) + [old(swap.put).Stored()]
    {
      hide Quiet, Contents, LowestOk, CapacityOk, Lookup;
      PlaceNewest(idx, swap);
      NEntriesInc();
    }

    /**
     hashmap_base_put_boldly: puts the entry in slot IDX_PUT, whose key is not in the table,
     after making room if `mayResize`.
     */
    method HashmapBasePutBoldly(idx0: nat, swap: SwapEntries, mayResize: bool, newKey: Seed, memory: bool) returns (r: int)
      requires Valid() && idx0 == Cfg().Home(table.n, swap.put.key)
      requires Lookup(ops, Items(), swap.put.key) == |Items()|
      requires if mayResize then ShiftDefined(1) else NEntries() < table.n
      modifies this, buckets, dibs, swap
      ensures Valid()
      ensures r == if mayResize then PutResult(old(ResizePlan(1)), memory) else 1
      ensures r in {1, -ENOMEM} && Items() == old(Items()) + if r == 1 then [old(swap.put).Stored()] else []
      ensures r != 1 ==> unchanged(this) && unchanged(buckets) && unchanged(dibs)
      ensures StorageRoom() == if r == 1 && mayResize then Resized(kind, wordSize, old(StorageRoom()), old(ResizePlan(1)))
                               else old(StorageRoom())
      ensures buckets == old(buckets) || fresh(buckets)
      ensures dibs == old(dibs) || fresh(dibs)
    {
      hide Quiet, LowestOk, Contents, Lookup, PlanResize, Capacity;
      var idx := idx0;
      if mayResize {
        r := ResizeBuckets(1, newKey, memory);
        if r < 0 {
          return r;
        }
        if r > 0 {
          idx := BucketHash(swap.put.key);
        }
      }
      assert NEntries() < table.n;
      InsertEntry(idx, swap);
      r := 1;
    }

    // ----- the operations of hashmaps, ordered hashmaps and sets

    /** hashmap_put: 1 if the pair was put, 0 if it was there, -EEXIST if the key has another value, or -ENOMEM. */
    method HashmapPut(key: Ptr, value: Ptr, newKey: Seed, memory: bool) returns (r: int)
      requires Valid() && (Lookup(ops, Items(), key) == |Items()| ==> ShiftDefined(1))
      modifies this, buckets, dibs
      ensures Valid()
      ensures var items := old(Items());
              var k := Lookup(ops, items, key);
              r == if k < |items| then (if items[k].value == value then 0 else -EEXIST)
                   else PutResult(old(ResizePlan(1)), memory)
      ensures r in {1, 0, -EEXIST, -ENOMEM} && Items() == old(Items()) + if r == 1 then [Pair(key, value)] else []
      ensures StorageRoom() == if r == 1 then Resized(kind, wordSize, old(StorageRoom()), old(ResizePlan(1))) else old(StorageRoom())
      ensures r != 1 ==> unchanged(this) && unchanged(buckets) && unchanged(dibs)
      ensures (buckets == old(buckets) || fresh(buckets)) && (dibs == old(dibs) || fresh(dibs))
    {
      hide Quiet, LowestOk, CapacityOk, Lookup, PlanResize, Resized;
      var hash := BucketHash(key);
      var idx, k := BaseBucketScan(hash, key);
      if idx != IDX_NIL {
        assert buckets[idx].Stored() == Items()[k];
        return if buckets[idx].value == value then 0 else -EEXIST;
      }
      var swap := new SwapEntries();
      swap.put := swap.put.(key := key, value := value);
      r := HashmapBasePutBoldly(hash, swap, true, newKey, memory);
    }

    /** set_put: as hashmap_put, but a key that is there already always gives 0. */
    method SetPut(key: Ptr, newKey: Seed, memory: bool) returns (r: int)
      requires Valid() && (Lookup(ops, Items(), key) == |Items()| ==> ShiftDefined(1))
      modifies this, buckets, dibs
      ensures Valid()
      ensures r == if Lookup(ops, old(Items()), key) < |old(Items())| then 0 else PutResult(old(ResizePlan(1)), memory)
      ensures r in {1, 0, -ENOMEM} && Items() == old(Items()) + if r == 1 then [Pair(key, NULL)] else []
      ensures StorageRoom() == if r == 1 then Resized(kind, wordSize, old(StorageRoom()), old(ResizePlan(1))) else old(StorageRoom())
      ensures r != 1 ==> unchanged(this) && unchanged(buckets) && unchanged(dibs)
      ensures (buckets == old(buckets) || fresh(buckets)) && (dibs == old(dibs) || fresh(dibs))
    {
      hide Quiet, LowestOk, CapacityOk, Lookup, PlanResize, Resized;
      var hash := BucketHash(key);
      var idx, k := BaseBucketScan(hash, key);
      if idx != IDX_NIL {
        return 0;
      }
      var swap := new SwapEntries();
      swap.put := swap.put.(key := key);
      r := HashmapBasePutBoldly(hash, swap, true, newKey, memory);
    }

    /** internal_hashmap_get */
    method Get(key: Ptr) returns (value: Ptr)
      requires Valid()
      ensures value == ValueAt(kind, Items(), Lookup(ops, Items(), key)) && Answers(ops, kind, Items(), key, value)
    {
      QuietIsCore(Cfg(), table, order);
      LookupAnswers(ops, kind, Items(), key);
      var idx, k := BaseBucketScan(BucketHash(key), key);
      if idx == IDX_NIL {
        return NULL;
      }
      assert buckets[idx].Stored() == Items()[k];
      return EntryValue(kind, buckets[idx].Stored());
    }

    /** internal_hashmap_contains */
    method Contains(key: Ptr) returns (found: bool)
      requires Valid()
      ensures found <==> exists k :: 0 <= k < |Items()| && ops.Same(Items()[k].key, key)
    {
      LookupFound(ops, Items(), key);
      var idx, k := BaseBucketScan(BucketHash(key), key);
      found := idx != IDX_NIL;
    }

    /** Removes the entry in bucket idx, the k-th oldest, from a valid table; p entries shift back. */
    method RemoveEntry(idx: nat, ghost k: nat) returns (ghost p: nat)
      requires Valid() && k < |order| && order[k] == idx
      modifies this`table, this`order, this`iterateListHead, this`iterateListTail, buckets, dibs
      modifies this`nIndirectEntries, this`nDirectEntries
      ensures Valid() && Items() == Without(old(Items()), k)
      ensures Removed(Cfg(), old(table), old(order), table, order, k, p)
    {
      hide Core, Quiet, Removed, LowestOk, CapacityOk;
      ghost var c, t, o := Cfg(), table, order;
      ghost var stop := RemovalStop(c, t, o, k);
      p := BaseRemoveEntry(idx, k, stop);
      RemovedQuiet(c, t, o, table, order, k, p);
      if hasIndirect {
        RemovedLowest(c, t, o, table, order, k, p, idxLowestEntry);
      }
    }

    /** internal_hashmap_remove: removes the entry whose key compares equal and gives its value. */
    method Remove(key: Ptr) returns (value: Ptr, ghost p: nat)
      requires Valid()
      modifies this`table, this`order, this`iterateListHead, this`iterateListTail, buckets, dibs
      modifies this`nIndirectEntries, this`nDirectEntries
      ensures Valid()
      ensures var items := old(Items());
              var k := Lookup(ops, items, key);
              && value == ValueAt(kind, items, k)
              && Items() == (if k < |items| then Without(items, k) else items)
              && (k < |items| ==> Removed(Cfg(), old(table), old(order), table, order, k, p))
              && (k == |items| ==> table == old(table) && order == old(order))
      ensures Answers(ops, kind, old(Items()), key, value)
    {
      hide Quiet, LowestOk, CapacityOk, Lookup, Removed, Answers, UniqueKeys;
      QuietIsCore(Cfg(), table, order);
      LookupAnswers(ops, kind, Items(), key);
      ghost var k;
      var idx;
      idx, k := BaseBucketScan(BucketHash(key), key);
      p := 0;
      if idx == IDX_NIL {
        return NULL, p;
      }
      assert buckets[idx].Stored() == Items()[k];
      value := EntryValue(kind, buckets[idx].Stored());
      p := RemoveEntry(idx, k);
    }

    /** internal_hashmap_size */
    method Size() returns (n: nat)
      requires Valid()
      ensures n == |Items()|
    {
      n := NEntries();
    }

    /** internal_hashmap_clear: back to empty direct storage. */
    method Clear()
      requires Valid()
      modifies this
      ensures Valid() && Items() == []
      ensures fresh(buckets) && fresh(dibs) && StorageRoom() == Room(false, DirectBuckets(kind, wordSize))
    {
      hide Quiet, LowestOk;
      DirectStorageFits(kind, wordSize);
      EmptiedQuiet(Config(ops, sharedHashKey, kind == ORDERED), DirectBuckets(kind, wordSize));
      hasIndirect, nDirectEntries := false, 0;
      ResetDirectStorage();
    }

    /** reset_direct_storage, and an empty list. */
    method ResetDirectStorage()
      requires DirectBuckets(kind, wordSize) <= IDX_SWAP_BEGIN && 0 < DirectBuckets(kind, wordSize)
      modifies this`buckets, this`dibs, this`table, this`order, this`iterateListHead, this`iterateListTail
      ensures fresh(buckets) && fresh(dibs) && buckets.Length == DirectBuckets(kind, wordSize)
      ensures Rep(null) && table == Emptied(DirectBuckets(kind, wordSize)) && order == []
    {
      var n := DirectBuckets(kind, wordSize);
      buckets := new Entry[n](i => ZERO_ENTRY);
      dibs := new nat[n](i => DIB_RAW_FREE);
      iterateListHead, iterateListTail := IDX_NIL, IDX_NIL;
      table, order := Emptied(n), [];
      assert table.dibs == dibs[..];
    }
  }
}
