/**
 Pointers, hash keys and the pair of callbacks a table is created with.
 */
module HashOps {
  import opened Bytes

  /** A C pointer, as an address. Keys are compared by address only where the source does so. */
  type Ptr = nat
  const NULL: Ptr := 0

  const HASH_KEY_SIZE: nat := 16

  /** The 16 byte key of the keyed hash function. */
  type Seed = s: seq<Byte> | |s| == HASH_KEY_SIZE witness seq(16, i => 0 as Byte)

  /** The hash callback already composed with the keyed hash function; compare is as in C. */
  datatype Ops = Ops(hash: (Seed, Ptr) -> nat, compare: (Ptr, Ptr) -> int) {

    predicate Same(a: Ptr, b: Ptr) {
      compare(a, b) == 0
    }

    /** What a table needs of its callbacks: compare decides an equivalence and the hash agrees with it. */
    ghost predicate Lawful() {
      && (forall a: Ptr :: Same(a, a))
      && (forall a: Ptr, b: Ptr :: Same(a, b) ==> Same(b, a))
      && (forall a: Ptr, b: Ptr, c: Ptr :: Same(a, b) && Same(b, c) ==> Same(a, c))
      && (forall seed: Seed, a: Ptr, b: Ptr :: Same(a, b) ==> hash(seed, a) == hash(seed, b))
    }

    /** The initial bucket of a key in a table of n buckets. */
    function Home(seed: Seed, n: nat, key: Ptr): (r: nat)
      requires n > 0
      ensures r < n
    {
      hash(seed, key) % n
    }
  }
}
