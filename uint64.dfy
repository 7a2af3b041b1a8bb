/** Go's `uint64`: the integers 0 .. 2^64-1, with `+` and `-` wrapping around modulo 2^64. */
module Uint64 {
  const Modulus: nat := 0x1_0000_0000_0000_0000
  const Max: nat := Modulus - 1

  newtype u64 = x: int | 0 <= x < 0x1_0000_0000_0000_0000

  /** `a + b` on uint64 (also what atomic.AddUint64 stores and returns). */
  function WrapAdd(a: u64, b: u64): (r: u64)
    ensures a as int + b as int < Modulus ==> r as int == a as int + b as int
    ensures a as int + b as int >= Modulus ==> r as int == a as int + b as int - Modulus
  {
    ((a as int + b as int) % Modulus) as u64
  }

  /** `a - b` on uint64. Dafny's `%` is Euclidean, so a negative difference wraps to the top of the range. */
  function WrapSub(a: u64, b: u64): (r: u64)
    ensures a >= b ==> r as int == a as int - b as int
    ensures a < b ==> r as int == a as int - b as int + Modulus
  {
    ((a as int - b as int) % Modulus) as u64
  }

  /** Subtracting what was added gives back the value before the addition, wrap-around included. */
  lemma SubUndoesAdd(a: u64, b: u64)
    ensures WrapSub(WrapAdd(a, b), b) == a
  {
  }
}
