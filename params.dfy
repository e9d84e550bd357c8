/** Scheme parameters, fixed at module level in every script of the KEM. */
module Params {
  /** Ring dimension: polynomials live in Z_Q[x]/(x^N + 1). */
  const N: int := 256
  /** Coefficient modulus. */
  const Q: int := 3329
  /** Number of ring elements in a vector (the matrix is K x K). */
  const K: int := 2
}
