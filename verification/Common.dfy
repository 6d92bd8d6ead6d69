/**
 Optional values, error numbers and integer ranges that several modules share.
 */
module Common {

  datatype Option<T> = None | Some(value: T)

  const ENOMEM: int := 12
  const EEXIST: int := 17
  const EINVAL: int := 22

  const TWO_32: nat := 0x1_0000_0000
  const TWO_64: nat := 0x1_0000_0000_0000_0000

  /** What a 32-bit unsigned shows. */
  function Wrapped32(n: nat): (r: nat)
    ensures r < TWO_32
  {
    n % TWO_32
  }

  /** What a 64-bit counter shows. */
  function Wrapped(n: nat): (r: nat)
    ensures r < TWO_64
  {
    n % TWO_64
  }

  lemma WrappedSum(a: nat, b: nat)
    ensures Wrapped(Wrapped(a) + b) == Wrapped(a + b)
  {
  }

  function Pow2(n: nat): (r: nat)
    ensures r > 0
  {
    if n == 0 then 1 else 2 * Pow2(n - 1)
  }

  /** The pieces one after the other. */
  function Flattened<T>(pieces: seq<seq<T>>): seq<T> {
    if pieces == [] then [] else Flattened(pieces[..|pieces| - 1]) + pieces[|pieces| - 1]
  }
}
