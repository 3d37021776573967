/** Java's 32-bit integer hashing, with the wrap-around written out. */
module Hashing {

  const TwoTo31: int := 0x8000_0000
  const TwoTo32: int := 0x1_0000_0000

  /** A value of Java's `int` type. */
  predicate IsInt32(x: int)
  {
    -TwoTo31 <= x < TwoTo31
  }

  /** Reduces `x` to the Java `int` with the same low 32 bits, as `int`
      arithmetic does on overflow. */
  function Wrap32(x: int): (r: int)
    ensures IsInt32(r)
    ensures (x - r) % TwoTo32 == 0
    ensures IsInt32(x) ==> r == x
  {
    (x + TwoTo31) % TwoTo32 - TwoTo31
  }

  /** `Boolean.hashCode`: 1231 for true, 1237 for false. */
  function BooleanHash(b: bool): int
  {
    if b then 1231 else 1237
  }

  /** `Arrays.hashCode` over the hashes of the elements: start from 1 and,
      for each element in order, multiply by 31 and add the element's hash,
      in 32-bit arithmetic. */
  function ArraysHashCode(hashes: seq<int>): (h: int)
    ensures IsInt32(h)
  {
    if |hashes| == 0 then 1
    else Wrap32(31 * ArraysHashCode(hashes[..|hashes| - 1]) + hashes[|hashes| - 1])
  }
}
