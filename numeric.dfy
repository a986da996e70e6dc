/**
 * Compile-time configuration of the evolution program and the fixed-width
 * integer arithmetic it relies on (uint64_t, int, and the conversions between them).
 */
module Numeric {

  /** Number of genes of an individual built by Species::init. */
  const MaxNumWisdom: nat := 10
  /** Nominal population size; also the range [0, MaxSpecies - 1] of every uniform draw. */
  const MaxSpecies: nat := 5000
  /** Number of children produced, and of individuals culled, per generation. */
  const MaxSpeciesCross: nat := 20
  /** generation() stops when the best score exceeds this value. */
  const HaltThreshold: nat := 18446744071749127043

  const TwoTo31: int := 0x8000_0000
  const TwoTo32: int := 0x1_0000_0000
  const TwoTo64: int := 0x1_0000_0000_0000_0000

  /** The values of uint64_t. */
  type U64 = x: int | 0 <= x < 0x1_0000_0000_0000_0000

  /** The values of a 32-bit int. */
  type Int32 = x: int | -0x8000_0000 <= x < 0x8000_0000

  datatype Option<T> = None | Some(value: T)

  /** uint64_t addition: the mathematical sum, wrapped modulo 2^64. */
  function AddU64(a: U64, b: U64): (r: U64)
    ensures a + b < TwoTo64 ==> r == a + b
    ensures TwoTo64 <= a + b ==> r == a + b - TwoTo64
  {
    (a + b) % TwoTo64
  }

  /** Converting an int to uint64_t: non-negative values are kept, negative ones sign-extend. */
  function IntToU64(x: Int32): (r: U64)
    ensures 0 <= x ==> r == x
    ensures x < 0 ==> r == TwoTo64 + x
  {
    x % TwoTo64
  }

  /**
   * Storing a uint64_t into an int: the low 32 bits, read as two's complement.
   * The result is the unique int congruent to `x` modulo 2^32.
   */
  function U64ToInt(x: U64): (r: Int32)
    ensures (x - r) % TwoTo32 == 0
    ensures x < TwoTo31 ==> r == x
  {
    var low := x % TwoTo32;
    if low < TwoTo31 then low else low - TwoTo32
  }
}
