/**
 * The protocol steps of the toy Kyber-style KEM, built on the sparse ring operations:
 * key generation t = A s + e, encapsulation u = A r + e1, v = t . r + e2 + m, and the
 * decoding half of decapsulation w = v - s . u, read back bit by bit with the band
 * [832, 2496] around Q / 2. Randomness is passed in: the sampled polynomials are
 * parameters, and the shapes the samplers give them are predicates.
 */
module Kyber {
  import opened Params
  import opened Negacyclic
  import opened SparsePoly

  /** A vector of K polynomials and a K x K matrix of polynomials (Python lists). */
  type Vec = seq<Poly>
  type Matrix = seq<Vec>

  predicate VecInRange(x: Vec) {
    |x| == K && forall i :: 0 <= i < K ==> InRange(x[i])
  }

  predicate MatrixInRange(A: Matrix) {
    |A| == K && forall i :: 0 <= i < K ==> VecInRange(A[i])
  }

  // ---------------------------------------------------------------------------
  // What the samplers produce
  // ---------------------------------------------------------------------------

  /** generate_matrix: every entry has 9 to 14 distinct exponents, coefficients in [1, 99]. */
  predicate MatrixSample(A: Matrix) {
    MatrixInRange(A) &&
    forall i, j :: 0 <= i < K && 0 <= j < K ==>
      9 <= |A[i][j]| <= 14 && forall k :: k in A[i][j] ==> 1 <= A[i][j][k] <= 99
  }

  /** A small polynomial: 5 to 9 distinct exponents, coefficients -1, 0, 1 stored as Q-1, 0, 1. */
  predicate SmallPoly(p: Poly) {
    InRange(p) && 5 <= |p| <= 9 && forall k :: k in p ==> p[k] == 0 || p[k] == 1 || p[k] == Q - 1
  }

  /** generate_vector: K small polynomials. */
  predicate VectorSample(x: Vec) {
    |x| == K && forall i :: 0 <= i < K ==> SmallPoly(x[i])
  }

  /** The e2 of encapsulate: one term, coefficient drawn from {1, 2, 0}. */
  predicate NoiseTerm(e2: Poly) {
    InRange(e2) && |e2| == 1 && forall k :: k in e2 ==> 0 <= e2[k] <= 2
  }

  /** The message of the demo: bits set to 1 and scaled by 1337 (= 1 * 1337 mod Q). */
  predicate ScaledMessage(m: Poly) {
    InRange(m) && forall k :: k in m ==> m[k] == 1337
  }

  // ---------------------------------------------------------------------------
  // Specifications of the loops
  // ---------------------------------------------------------------------------

  /**
   * The polynomial `element` after j passes of the loop that multiplies a row of A into
   * x: each pass computes add_polynomials(multiply_polynomials(row[j], x[j]), element).
   */
  function RowSum(row: Vec, x: Vec, j: int): (r: Poly)
    requires 0 <= j <= K && VecInRange(row) && VecInRange(x)
    ensures Valid(r)
    decreases j
  {
    if j == 0 then map[]
    else
      var rest := RowSum(row, x, j - 1);
      PolyAddValid(PolyMul(row[j - 1], x[j - 1]), rest);
      PolyAdd(PolyMul(row[j - 1], x[j - 1]), rest)
  }

  /**
   * The accumulator after i passes of the inner-product loop of encapsulate (v) and of
   * decapsulate (v_prime): each pass computes add_polynomials(acc, multiply_polynomials(x[i], y[i])).
   */
  function Inner(x: Vec, y: Vec, i: int): (r: Poly)
    requires 0 <= i <= K && VecInRange(x) && VecInRange(y)
    ensures Valid(r)
    decreases i
  {
    if i == 0 then map[]
    else
      var rest := Inner(x, y, i - 1);
      PolyAddValid(rest, PolyMul(x[i - 1], y[i - 1]));
      PolyAdd(rest, PolyMul(x[i - 1], y[i - 1]))
  }

  /** The vector the loop of generate_public_key returns: row i is RowSum(A[i], x, K) + e[i]. */
  function MatVec(A: Matrix, x: Vec, e: Vec): (t: Vec)
    requires MatrixInRange(A) && VecInRange(x) && |e| == K
    ensures |t| == K
  {
    seq(K, i requires 0 <= i < K => PolyAdd(RowSum(A[i], x, K), e[i]))
  }

  /** With e in range, so is A x + e: the public key can be multiplied again. */
  lemma MatVecInRange(A: Matrix, x: Vec, e: Vec)
    requires MatrixInRange(A) && VecInRange(x) && VecInRange(e)
    ensures VecInRange(MatVec(A, x, e))
  {
    forall i | 0 <= i < K ensures InRange(MatVec(A, x, e)[i]) {
      PolyAddValid(RowSum(A[i], x, K), e[i]);
    }
  }

  /** A^T: entry (i, j) is A[j][i]. */
  function Transpose(A: Matrix): (T: Matrix)
    requires |A| == K && forall i :: 0 <= i < K ==> |A[i]| == K
    ensures |T| == K && forall i :: 0 <= i < K ==> |T[i]| == K
    ensures forall i, j :: 0 <= i < K && 0 <= j < K ==> T[i][j] == A[j][i]
  {
    seq(K, i requires 0 <= i < K => seq(K, j requires 0 <= j < K => A[j][i]))
  }

  lemma TransposeInRange(A: Matrix)
    requires MatrixInRange(A)
    ensures MatrixInRange(Transpose(A))
  {
  }

  /** The exponents decapsulate decodes as bit 1: the stored value lies in [832, 2496]. */
  function Decode(w: Poly): set<int> {
    DecodeOn(w, w.Keys)
  }

  /** The part of Decode(w) among the exponents in S. */
  function DecodeOn(w: Poly, S: set<int>): set<int> {
    set k | k in S && k in w && 832 <= w[k] <= 2496
  }

  /** Looking at one more exponent adds it exactly when its value is in the band. */
  lemma DecodeOnStep(w: Poly, S: set<int>, key: int)
    requires key in w && key !in S
    ensures DecodeOn(w, S + {key})
         == DecodeOn(w, S) + (if 832 <= w[key] <= 2496 then {key} else {})
  {
  }

  // ---------------------------------------------------------------------------
  // The loops
  // ---------------------------------------------------------------------------

  /**
   * The loop of generate_public_key, t = A s + e; encapsulate runs the same loop for
   * u = A r + e1. Row i sums the products A[i][j] * x[j] and then adds e[i].
   */
  method MatrixVector(A: Matrix, x: Vec, e: Vec) returns (t: Vec)
    requires MatrixInRange(A) && VecInRange(x) && |e| == K
    ensures t == MatVec(A, x, e)
  {
    t := seq(K, i => map[]);
    for i := 0 to K
      invariant |t| == K
      invariant forall i' :: 0 <= i' < i ==> t[i'] == PolyAdd(RowSum(A[i'], x, K), e[i'])
    {
      var element: Poly := map[];
      for j := 0 to K
        invariant element == RowSum(A[i], x, j)
      {
        var product := Multiply(A[i][j], x[j]);
        element := Add(product, element);
      }
      var ti := Add(element, e[i]);
      t := t[i := ti];
    }
    assert t == MatVec(A, x, e);
  }

  /** The loop that accumulates sum_i x[i] * y[i] (v in encapsulate, v_prime in decapsulate). */
  method InnerProduct(x: Vec, y: Vec) returns (acc: Poly)
    requires VecInRange(x) && VecInRange(y)
    ensures acc == Inner(x, y, K)
  {
    acc := map[];
    for i := 0 to K
      invariant acc == Inner(x, y, i)
    {
      var product := Multiply(x[i], y[i]);
      acc := Add(acc, product);
    }
  }

  /** generate_public_key(A, s, e). */
  method GeneratePublicKey(A: Matrix, s: Vec, e: Vec) returns (t: Vec)
    requires MatrixSample(A) && VectorSample(s) && VectorSample(e)
    ensures t == MatVec(A, s, e) && VecInRange(t)
  {
    t := MatrixVector(A, s, e);
    MatVecInRange(A, s, e);
  }

  /**
   * encapsulate(A, t, ...) with its random draws r, e1 (generate_vector) and e2 (one
   * term with coefficient 0, 1 or 2) passed in: u = A r + e1 and v = t . r + e2 + message.
   */
  method Encapsulate(A: Matrix, t: Vec, r: Vec, e1: Vec, e2: Poly, message: Poly)
    returns (u: Vec, v: Poly)
    requires MatrixInRange(A) && VecInRange(t)
    requires VectorSample(r) && VectorSample(e1) && NoiseTerm(e2)
    ensures u == MatVec(A, r, e1)
    ensures v == PolyAdd(PolyAdd(Inner(t, r, K), e2), message)
  {
    u := MatrixVector(A, r, e1);
    v := InnerProduct(t, r);
    v := Add(v, e2);
    v := Add(v, message);
  }

  /**
   * encapsulate as the scheme it imitates defines it: u = A^T r + e1 instead of A r + e1,
   * the rest unchanged. This is the version for which decapsulation is exact.
   */
  method EncapsulateTransposed(A: Matrix, t: Vec, r: Vec, e1: Vec, e2: Poly, message: Poly)
    returns (u: Vec, v: Poly)
    requires MatrixInRange(A) && VecInRange(t)
    requires VectorSample(r) && VectorSample(e1) && NoiseTerm(e2)
    ensures MatrixInRange(Transpose(A))
    ensures u == MatVec(Transpose(A), r, e1)
    ensures v == PolyAdd(PolyAdd(Inner(t, r, K), e2), message)
  {
    TransposeInRange(A);
    u := MatrixVector(Transpose(A), r, e1);
    v := InnerProduct(t, r);
    v := Add(v, e2);
    v := Add(v, message);
  }

  /**
   * The decoding half of decapsulate(..., s, u, v, ...): w = v - sum_i s[i] * u[i], and
   * the exponents of w whose value is in [832, 2496] are the bits read as 1.
   */
  method Decapsulate(s: Vec, u: Vec, v: Poly) returns (bits: set<int>)
    requires VecInRange(s) && VecInRange(u)
    ensures bits == Decode(PolySub(v, Inner(s, u, K)))
  {
    var vPrime := InnerProduct(s, u);
    var w := Sub(v, vPrime);
    bits := DecodeBits(w);
  }

  /**
   * The loop of decapsulate over the items of w: a value in [832, 2496] (about Q/4 to
   * 3Q/4) is read as bit 1, and its exponent is collected.
   */
  method DecodeBits(w: Poly) returns (bits: set<int>)
    ensures bits == Decode(w)
  {
    bits := {};
    var rest := w.Keys;
    while rest != {}
      invariant rest <= w.Keys
      invariant bits == DecodeOn(w, w.Keys - rest)
      decreases rest
    {
      NonEmpty(rest);
      var key :| key in rest;
      var value := w[key];
      DecodeOnStep(w, w.Keys - rest, key);
      assert w.Keys - (rest - {key}) == (w.Keys - rest) + {key};
      if value >= 832 && value <= 2496 {
        bits := bits + {key};
      }
      rest := rest - {key};
    }
    assert w.Keys - rest == w.Keys;
  }
}
