/**
 When and how far a table grows: the sizes of entries and of direct storage,
 the load factor, and the rounding of the byte size up to a power of two.
 All quantities the source keeps in an `unsigned` are taken modulo 2^32 where they may wrap.
 */
module Growth {
  import opened Common
  import opened Table

  datatype HashmapType = PLAIN | ORDERED | SET

  /** INV_KEEP_FREE - 1: a table of m buckets may hold up to 4/5 m entries. */
  const LOAD_DIVISOR: nat := 4

  /** A pointer has 4 or 8 bytes. */
  predicate WordSize(w: nat) {
    w == 4 || w == 8
  }

  /** sizeof of the entry struct: key, value, two links; sets store the key only. */
  function EntrySize(kind: HashmapType, w: nat): nat {
    match kind
    case PLAIN => 2 * w
    case ORDERED => 2 * w + 8
    case SET => w
  }

  /** An entry and its DIB byte. */
  function CellSize(kind: HashmapType, w: nat): (r: nat)
    ensures r > 0
  {
    EntrySize(kind, w) + 1
  }

  /** The packed struct indirect_storage, whose room direct storage shares: a pointer, the hash key, three counters, padding. */
  function DirectStorageSize(w: nat): nat {
    w + 16 + 3 * 4 + 3
  }

  function DirectBuckets(kind: HashmapType, w: nat): nat {
    DirectStorageSize(w) / CellSize(kind, w)
  }

  /** The size of an entry of each type, and the room of direct storage in bytes and in entries, with pointers of 8 and of 4 bytes. */
  lemma DirectRoom()
    ensures EntrySize(PLAIN, 8) == 16 && EntrySize(ORDERED, 8) == 24 && EntrySize(SET, 8) == 8
    ensures EntrySize(PLAIN, 4) == 8 && EntrySize(ORDERED, 4) == 16 && EntrySize(SET, 4) == 4
    ensures DirectStorageSize(8) == 39 && DirectStorageSize(4) == 35
    ensures DirectBuckets(PLAIN, 8) == 2 && DirectBuckets(ORDERED, 8) == 1 && DirectBuckets(SET, 8) == 4
    ensures DirectBuckets(PLAIN, 4) == 3 && DirectBuckets(ORDERED, 4) == 2 && DirectBuckets(SET, 4) == 7
  {
  }

  /** log2u: the position of the highest bit set. */
  function Log2u(x: nat): nat
    requires x > 0
  {
    if x == 1 then 0 else 1 + Log2u(x / 2)
  }

  function Log2uRoundUp(x: nat): nat
    requires x > 0
  {
    if x == 1 then 0 else Log2u(x - 1) + 1
  }

  lemma {:induction false} Log2uBounds(x: nat)
    requires x > 0
    ensures Pow2(Log2u(x)) <= x < 2 * Pow2(Log2u(x))
  {
    if x > 1 {
      Log2uBounds(x / 2);
    }
  }

  /** log2u_round_up gives the least exponent that suffices. */
  lemma Log2uRoundUpIsLeast(x: nat, e: nat)
    requires x > 0
    ensures Pow2(e) >= x <==> e >= Log2uRoundUp(x)
  {
    if x > 1 {
      Log2uBounds(x - 1);
      if e >= Log2uRoundUp(x) {
        Pow2Monotonic(Log2uRoundUp(x), e);
      } else {
        Pow2Monotonic(e, Log2uRoundUp(x) - 1);
      }
    }
  }

  lemma {:induction false} Pow2Monotonic(a: nat, b: nat)
    requires a <= b
    ensures Pow2(a) <= Pow2(b)
  {
    if a < b {
      Pow2Monotonic(a, b - 1);
    }
  }

  lemma Pow2Of31()
    ensures Pow2(31) == 0x8000_0000
  {
    assert Pow2(8) == 256;
    assert Pow2(16) == 0x1_0000;
    assert Pow2(24) == 0x100_0000;
  }

  // ----- the plan of a resize

  datatype Plan =
    | Keep                // the table is large enough
    | TooLarge            // a size does not fit an unsigned: -ENOMEM
    | Grow(shift: nat)    // reallocate to 2^shift bytes

  /** What kind of storage a table has, and for how many buckets. */
  datatype Room = Room(indirect: bool, nBuckets: nat)

  /** The storage after a plan has been carried out. */
  function Resized(kind: HashmapType, w: nat, room: Room, plan: Plan): Room {
    if plan.Grow? then Room(true, Capacity(kind, w, plan.shift)) else room
  }

  /** The number of buckets that n entries ask for. */
  function Wanted(n: nat): nat {
    (n + n / LOAD_DIVISOR) % TWO_32
  }

  /** The byte size asked of the allocator before rounding. */
  function WantedBytes(kind: HashmapType, w: nat, wanted: nat): nat {
    var bytes := wanted * CellSize(kind, w);
    if bytes > 2 * DirectStorageSize(w) then bytes else 2 * DirectStorageSize(w)
  }

  /** The decisions of resize_buckets. */
  function PlanResize(kind: HashmapType, w: nat, indirect: bool, nBuckets: nat, nEntries: nat, entriesAdd: nat): Plan
    requires WordSize(w)
  {
    var n := (nEntries + entriesAdd) % TWO_32;
    if n < entriesAdd then TooLarge
    else if !indirect && n <= DirectBuckets(kind, w) then Keep
    else
      var wanted := Wanted(n);
      if wanted < n then TooLarge
      else if wanted > UINT_MAX / CellSize(kind, w) then TooLarge
      else if wanted <= nBuckets then Keep
      else Grow(Log2uRoundUp(WantedBytes(kind, w, wanted)))
  }

  /** The number of buckets that fit 2^shift bytes. */
  function Capacity(kind: HashmapType, w: nat, shift: nat): nat {
    Pow2(shift) / CellSize(kind, w)
  }

  /** A table in direct storage has the buckets that fit there; otherwise the buckets that fit its allocation. */
  predicate CapacityOk(kind: HashmapType, w: nat, indirect: bool, nBuckets: nat, shift: nat) {
    if indirect then shift < 32 && nBuckets == Capacity(kind, w, shift)
    else nBuckets == DirectBuckets(kind, w)
  }

  /** The shift 1U << shift is defined exactly when at most 2^31 bytes are asked for. */
  lemma ShiftDefined(kind: HashmapType, w: nat, wanted: nat)
    requires WordSize(w)
    ensures Log2uRoundUp(WantedBytes(kind, w, wanted)) < 32 <==> WantedBytes(kind, w, wanted) <= 0x8000_0000
  {
    Pow2Of31();
    Log2uRoundUpIsLeast(WantedBytes(kind, w, wanted), 31);
  }

  lemma DivideBounds(a: nat, q: nat)
    requires q > 0
    ensures (a / q) * q <= a < (a / q + 1) * q
  {
  }

  lemma DivideAtLeast(a: nat, q: nat, k: nat)
    requires q > 0 && k * q <= a
    ensures k <= a / q
  {
    DivideBounds(a, q);
    assert k * q < (a / q + 1) * q;
    ProductOrder(k, a / q + 1, q);
  }

  lemma ProductOrder(a: nat, b: nat, q: nat)
    requires a * q < b * q
    ensures a < b
  {
  }

  lemma ProductMonotonic(a: nat, b: nat, q: nat)
    requires a <= b
    ensures a * q <= b * q
  {
  }

  lemma QuotientBelow(a: nat, q: nat, wanted: nat, bytes: nat)
    requires q > 0 && wanted > a / q && wanted * q <= bytes
    ensures a < bytes
  {
    DivideBounds(a, q);
    ProductMonotonic(a / q + 1, wanted, q);
  }

  lemma TwiceQuotient(a: nat, q: nat, bytes: nat)
    requires q > 0 && 2 * a <= bytes
    ensures 2 * (a / q) <= bytes / q
  {
    var k := a / q;
    DivideBounds(a, q);
    assert (2 * k) * q == 2 * (k * q);
    DivideAtLeast(bytes, q, 2 * k);
  }

  lemma QuotientAtMost(a: nat, q: nat)
    requires q > 0
    ensures a / q <= a
  {
    var k := a / q;
    DivideBounds(a, q);
    ProductMonotonic(1, q, k);
    assert q * k == k * q;
  }

  /** A larger request than the present allocation holds at least doubles the number of cells of size q. */
  lemma PowersDouble(q: nat, shift: nat, newShift: nat, wanted: nat)
    requires q > 0 && wanted > Pow2(shift) / q && wanted * q <= Pow2(newShift)
    ensures Pow2(newShift) / q >= 2 * (Pow2(shift) / q)
  {
    QuotientBelow(Pow2(shift), q, wanted, Pow2(newShift));
    if newShift <= shift {
      Pow2Monotonic(newShift, shift);
    }
    Pow2Monotonic(shift + 1, newShift);
    TwiceQuotient(Pow2(shift), q, Pow2(newShift));
  }

  /** Leaving direct storage at least doubles the number of buckets. */
  lemma DirectDoubles(kind: HashmapType, w: nat, bytes: nat)
    requires WordSize(w) && bytes >= 2 * DirectStorageSize(w)
    ensures bytes / CellSize(kind, w) >= 2 * DirectBuckets(kind, w)
  {
    TwiceQuotient(DirectStorageSize(w), CellSize(kind, w), bytes);
  }

  /** The overflow check on n + n/4 is exact: it lets through just the sums that did not wrap. */
  lemma WantedUnwrapped(n: nat)
    requires n < TWO_32
    ensures Wanted(n) >= n <==> n + n / LOAD_DIVISOR < TWO_32
    ensures Wanted(n) >= n ==> Wanted(n) == n + n / LOAD_DIVISOR
  {
  }

  lemma BytesCover(kind: HashmapType, w: nat, wanted: nat)
    ensures WantedBytes(kind, w, wanted) >= wanted * CellSize(kind, w)
    ensures WantedBytes(kind, w, wanted) >= 2 * DirectStorageSize(w) > 0
  {
  }

  lemma GrowthFacts(kind: HashmapType, w: nat, indirect: bool, nBuckets: nat, nEntries: nat, entriesAdd: nat, newShift: nat)
    requires WordSize(w) && nEntries + entriesAdd < TWO_32
    requires PlanResize(kind, w, indirect, nBuckets, nEntries, entriesAdd) == Grow(newShift)
    ensures var wanted := Wanted(nEntries + entriesAdd);
            && wanted >= nEntries + entriesAdd && wanted > nBuckets
            && wanted * CellSize(kind, w) <= Pow2(newShift) && 2 * DirectStorageSize(w) <= Pow2(newShift)
  {
    hide Wanted, CellSize, WantedBytes, Log2uRoundUp, Pow2;
    var n := nEntries + entriesAdd;
    assert n % TWO_32 == n;
    var wanted := Wanted(n);
    BytesCover(kind, w, wanted);
    Log2uRoundUpIsLeast(WantedBytes(kind, w, wanted), newShift);
  }

  /**
   Growing at least doubles the number of buckets, so that the old and the new
   DIB arrays cannot overlap, covers the wanted number, and stays addressable.
   */
  lemma GrowthDoubles(kind: HashmapType, w: nat, indirect: bool, nBuckets: nat, shift: nat, nEntries: nat, entriesAdd: nat, newShift: nat)
    requires WordSize(w) && CapacityOk(kind, w, indirect, nBuckets, shift)
    requires nEntries <= nBuckets && nEntries + entriesAdd < TWO_32
    requires PlanResize(kind, w, indirect, nBuckets, nEntries, entriesAdd) == Grow(newShift) && newShift < 32
    ensures var n := Capacity(kind, w, newShift);
            && n >= 2 * nBuckets
            && n >= Wanted(nEntries + entriesAdd) == nEntries + entriesAdd + (nEntries + entriesAdd) / LOAD_DIVISOR
            && n <= IDX_SWAP_BEGIN
  {
    var q, wanted := CellSize(kind, w), Wanted(nEntries + entriesAdd);
    WantedUnwrapped(nEntries + entriesAdd);
    GrowthFacts(kind, w, indirect, nBuckets, nEntries, entriesAdd, newShift);
    DivideAtLeast(Pow2(newShift), q, wanted);
    if indirect {
      PowersDouble(q, shift, newShift, wanted);
    } else {
      DirectDoubles(kind, w, Pow2(newShift));
    }
    CapacityAddressable(kind, w, newShift);
  }

  lemma CapacityAddressable(kind: HashmapType, w: nat, shift: nat)
    requires shift < 32
    ensures Capacity(kind, w, shift) <= IDX_SWAP_BEGIN
  {
    Pow2Of31();
    Pow2Monotonic(shift, 31);
    QuotientAtMost(Pow2(shift), CellSize(kind, w));
  }

  /** In a buffer of at least twice the cells, the old DIB array ends before the new one begins. */
  lemma DibArraysApart(kind: HashmapType, w: nat, oldBuckets: nat, newBuckets: nat)
    requires WordSize(w) && newBuckets >= 2 * oldBuckets
    ensures EntrySize(kind, w) * oldBuckets + oldBuckets <= EntrySize(kind, w) * newBuckets
  {
    ProductMonotonic(2 * oldBuckets, newBuckets, EntrySize(kind, w));
    ProductMonotonic(1, EntrySize(kind, w), oldBuckets);
  }

  /** A table that is kept as it is has room for the entries to add. */
  lemma KeptIsEnough(kind: HashmapType, w: nat, indirect: bool, nBuckets: nat, shift: nat, nEntries: nat, entriesAdd: nat)
    requires WordSize(w) && CapacityOk(kind, w, indirect, nBuckets, shift)
    requires nEntries < TWO_32 && entriesAdd < TWO_32
    requires PlanResize(kind, w, indirect, nBuckets, nEntries, entriesAdd) == Keep
    ensures nEntries + entriesAdd <= nBuckets
  {
    hide CellSize, Wanted, WantedBytes, Log2uRoundUp, Capacity;
    SumUnwrapped(nEntries, entriesAdd);
  }

  /** The overflow check on the sum is exact. */
  lemma SumUnwrapped(n: nat, m: nat)
    requires n < TWO_32 && m < TWO_32
    ensures (n + m) % TWO_32 >= m <==> n + m < TWO_32
    ensures n + m < TWO_32 ==> (n + m) % TWO_32 == n + m
  {
  }

  lemma PlanUnwrapped(kind: HashmapType, w: nat, indirect: bool, nBuckets: nat, nEntries: nat, entriesAdd: nat)
    requires WordSize(w) && nEntries < TWO_32 && entriesAdd < TWO_32
    requires !PlanResize(kind, w, indirect, nBuckets, nEntries, entriesAdd).TooLarge?
    ensures nEntries + entriesAdd < TWO_32
  {
    hide CellSize, Wanted, WantedBytes, Log2uRoundUp;
    SumUnwrapped(nEntries, entriesAdd);
  }

  /** n entries, at the load factor, take at most 2^31 bytes. */
  predicate EntriesAddressable(kind: HashmapType, w: nat, n: nat) {
    var wanted := n + n / LOAD_DIVISOR;
    wanted < TWO_32 && WantedBytes(kind, w, wanted) <= 0x8000_0000
  }

  lemma AddressableMonotonic(kind: HashmapType, w: nat, m: nat, n: nat)
    requires m <= n && EntriesAddressable(kind, w, n)
    ensures EntriesAddressable(kind, w, m)
  {
    hide CellSize;
    ProductMonotonic(m + m / LOAD_DIVISOR, n + n / LOAD_DIVISOR, CellSize(kind, w));
  }

  lemma FewBytes(kind: HashmapType, w: nat, wanted: nat)
    requires WordSize(w)
    ensures WantedBytes(kind, w, wanted) <= 0x8000_0000 <==> wanted * CellSize(kind, w) <= 0x8000_0000
    ensures CellSize(kind, w) <= 25
  {
  }

  /** A table kept as it is has at most 2^31 bytes. */
  lemma BucketsAddressable(kind: HashmapType, w: nat, indirect: bool, nBuckets: nat, shift: nat)
    requires WordSize(w) && CapacityOk(kind, w, indirect, nBuckets, shift)
    ensures nBuckets * CellSize(kind, w) <= 0x8000_0000
  {
    hide CellSize, DirectStorageSize, Pow2;
    if indirect {
      Pow2Of31();
      Pow2Monotonic(shift, 31);
      DivideBounds(Pow2(shift), CellSize(kind, w));
    } else {
      DivideBounds(DirectStorageSize(w), CellSize(kind, w));
      DirectIsSmall(w);
    }
  }

  lemma DirectIsSmall(w: nat)
    requires WordSize(w)
    ensures DirectStorageSize(w) <= 39
  {
  }

  /** Just as long as the entries take at most 2^31 bytes, making room for more succeeds without an undefined shift. */
  lemma AddressableJustWhenDefined(kind: HashmapType, w: nat, indirect: bool, nBuckets: nat, shift: nat, nEntries: nat, entriesAdd: nat)
    requires WordSize(w) && CapacityOk(kind, w, indirect, nBuckets, shift) && nEntries + entriesAdd < TWO_32
    ensures var plan := PlanResize(kind, w, indirect, nBuckets, nEntries, entriesAdd);
            EntriesAddressable(kind, w, nEntries + entriesAdd) <==> plan.Keep? || (plan.Grow? && plan.shift < 32)
  {
    hide CellSize, WantedBytes, Log2uRoundUp, Capacity, DirectBuckets;
    var n := nEntries + entriesAdd;
    var cell, wanted := CellSize(kind, w), n + n / LOAD_DIVISOR;
    SumUnwrapped(nEntries, entriesAdd);
    WantedUnwrapped(n);
    FewBytes(kind, w, wanted);
    BucketsAddressable(kind, w, indirect, nBuckets, shift);
    if !indirect && n <= DirectBuckets(kind, w) {
      DirectIsAddressable(kind, w, n);
    } else if wanted < TWO_32 {
      ShiftDefined(kind, w, wanted);
      CellFacts(wanted, nBuckets, cell);
    }
  }

  /**
   The undefined shift is reached just when the wanted number of buckets is larger than the present one, passes
   the overflow checks, and takes more than 2^31 bytes.
   */
  lemma UndefinedShiftJustWhen(kind: HashmapType, w: nat, indirect: bool, nBuckets: nat, nEntries: nat, entriesAdd: nat)
    requires WordSize(w) && nEntries < TWO_32 && entriesAdd < TWO_32
    ensures var plan := PlanResize(kind, w, indirect, nBuckets, nEntries, entriesAdd);
            var n := nEntries + entriesAdd;
            plan.Grow? && plan.shift >= 32 <==>
              && nBuckets < n + n / LOAD_DIVISOR <= UINT_MAX / CellSize(kind, w)
              && (n + n / LOAD_DIVISOR) * CellSize(kind, w) > 0x8000_0000
  {
    hide CellSize, WantedBytes, Log2uRoundUp, DirectBuckets;
    var n := nEntries + entriesAdd;
    var cell, wanted := CellSize(kind, w), n + n / LOAD_DIVISOR;
    SumUnwrapped(nEntries, entriesAdd);
    DivideBounds(UINT_MAX, cell);
    if n >= TWO_32 {
      return;
    }
    WantedUnwrapped(n);
    FewBytes(kind, w, wanted);
    ShiftDefined(kind, w, wanted);
    QuotientAtMost(UINT_MAX, cell);
    if !indirect && n <= DirectBuckets(kind, w) {
      DirectIsAddressable(kind, w, n);
    }
  }

  /** A plain hashmap on a machine with 8 byte pointers gets there: its largest table, filled to the load limit. */
  lemma ShiftOverflows()
    ensures var n := Capacity(PLAIN, 8, 31);
            && CapacityOk(PLAIN, 8, true, n, 31) && n == 126322567
            && PlanResize(PLAIN, 8, true, n, 101058053, 1) == Keep
            && PlanResize(PLAIN, 8, true, n, 101058054, 1) == Grow(32)
  {
    hide CellSize, WantedBytes, Log2uRoundUp, Pow2;
    assert CellSize(PLAIN, 8) == 17 by {
      PlainCellSize();
    }
    Pow2Of31();
    WantsMore();
  }

  lemma PlainCellSize()
    ensures CellSize(PLAIN, 8) == 17
  {
  }

  lemma WantsMore()
    ensures Log2uRoundUp(WantedBytes(PLAIN, 8, 126322568)) == 32
  {
    hide Log2uRoundUp, Log2u;
    Pow2Of31();
    assert Pow2(32) == 2 * Pow2(31);
    hide Pow2;
    Log2uRoundUpIsLeast(WantedBytes(PLAIN, 8, 126322568), 31);
    Log2uRoundUpIsLeast(WantedBytes(PLAIN, 8, 126322568), 32);
  }

  lemma CellFacts(wanted: nat, nBuckets: nat, cell: nat)
    requires cell > 0
    ensures wanted <= nBuckets ==> wanted * cell <= nBuckets * cell
    ensures wanted > UINT_MAX / cell ==> wanted * cell > UINT_MAX
  {
    DivideBounds(UINT_MAX, cell);
    if wanted <= nBuckets {
      ProductMonotonic(wanted, nBuckets, cell);
    }
    if wanted > UINT_MAX / cell {
      ProductMonotonic(UINT_MAX / cell + 1, wanted, cell);
    }
  }

  lemma DirectIsAddressable(kind: HashmapType, w: nat, n: nat)
    requires WordSize(w) && n <= DirectBuckets(kind, w)
    ensures EntriesAddressable(kind, w, n)
  {
    DirectStorageFits(kind, w);
    FewBytes(kind, w, n + n / LOAD_DIVISOR);
    ProductMonotonic(n + n / LOAD_DIVISOR, 10, CellSize(kind, w));
  }

  /** Direct storage always has room for an entry, and fewer buckets than its 3-bit entry counter can count. */
  lemma DirectStorageFits(kind: HashmapType, w: nat)
    requires WordSize(w)
    ensures 1 <= DirectBuckets(kind, w) < 8
  {
  }
}
