/**
 * What decapsulation decodes. The three protocol steps are carried to exact integer
 * vectors through the dense view, and for K = 2 the polynomial w = v - s . u that
 * decapsulate thresholds is shown to be, modulo Q,
 *
 *   m + e2 + (e0 r0 + e1 r1) - (s0 f0 + s1 f1) + (A01 - A10)(s1 r0 - s0 r1)
 *
 * where f is the e1 of encapsulate. The last (cross) term is there because encapsulate
 * multiplies r by A and not by its transpose; it vanishes when A01 = A10. Then the
 * remaining noise is bounded by the sampler shapes and the band decoder returns the
 * message exactly.
 */
module Noise {
  import opened Params
  import opened Sums
  import opened Negacyclic
  import opened SparsePoly
  import opened Kyber

  /** K exact coefficient vectors, and a K x K matrix of them. */
  type CVec = seq<Coeffs>
  type CMat = seq<CVec>

  predicate Shaped(X: CVec) {
    |X| == K && forall i :: 0 <= i < K ==> |X[i]| == N
  }

  predicate MatShaped(AA: CMat) {
    |AA| == K && forall i :: 0 <= i < K ==> Shaped(AA[i])
  }

  /** X stands for the polynomial vector x: entry by entry, congruent to its dense view. */
  ghost predicate Represents(x: Vec, X: CVec) {
    |x| == K && Shaped(X) && forall i :: 0 <= i < K ==> Congruent(Dense(x[i]), X[i])
  }

  ghost predicate MatRepresents(A: Matrix, AA: CMat) {
    |A| == K && MatShaped(AA) && forall i :: 0 <= i < K ==> Represents(A[i], AA[i])
  }

  /** The dense views of a vector and of a matrix of polynomials. */
  function DenseVec(x: Vec): (X: CVec)
    requires |x| == K
    ensures Shaped(X) && forall i :: 0 <= i < K ==> X[i] == Dense(x[i])
  {
    seq(K, i requires 0 <= i < K => Dense(x[i]))
  }

  function DenseMat(A: Matrix): (AA: CMat)
    requires |A| == K && forall i :: 0 <= i < K ==> |A[i]| == K
    ensures MatShaped(AA) && forall i :: 0 <= i < K ==> AA[i] == DenseVec(A[i])
  {
    seq(K, i requires 0 <= i < K => DenseVec(A[i]))
  }

  lemma DenseRepresents(x: Vec)
    requires |x| == K
    ensures Represents(x, DenseVec(x))
  {
  }

  // ---------------------------------------------------------------------------
  // The protocol on exact vectors
  // ---------------------------------------------------------------------------

  /** RowSum on exact vectors: sum over j' < j of R[j'] * X[j'], in the loop's order. */
  function XRow(R: CVec, X: CVec, j: int): (r: Coeffs)
    requires Shaped(R) && Shaped(X) && 0 <= j <= K
    ensures |r| == N
    decreases j
  {
    if j == 0 then Zero() else IAdd(IMul(R[j - 1], X[j - 1]), XRow(R, X, j - 1))
  }

  /** Inner on exact vectors. */
  function XInner(X: CVec, Y: CVec, i: int): (r: Coeffs)
    requires Shaped(X) && Shaped(Y) && 0 <= i <= K
    ensures |r| == N
    decreases i
  {
    if i == 0 then Zero() else IAdd(XInner(X, Y, i - 1), IMul(X[i - 1], Y[i - 1]))
  }

  /** MatVec on exact vectors: A X + E. */
  function XMatVec(AA: CMat, X: CVec, E: CVec): (T: CVec)
    requires MatShaped(AA) && Shaped(X) && Shaped(E)
    ensures Shaped(T)
  {
    seq(K, i requires 0 <= i < K => IAdd(XRow(AA[i], X, K), E[i]))
  }

  /**
   * The w of decapsulate after generate_public_key(A, s, e) and an encapsulation whose u
   * is B r + f: v = t . r + e2 + m, u = B r + f, w = v - s . u.
   */
  function RoundTripWith(A: Matrix, B: Matrix, s: Vec, e: Vec, r: Vec, f: Vec, e2: Poly, m: Poly): (w: Poly)
    requires MatrixInRange(A) && MatrixInRange(B)
    requires VecInRange(s) && VecInRange(e) && VecInRange(r) && VecInRange(f)
    requires InRange(e2) && InRange(m)
    ensures Valid(w)
  {
    MatVecInRange(A, s, e);
    MatVecInRange(B, r, f);
    var t := MatVec(A, s, e);
    var u := MatVec(B, r, f);
    var v1 := PolyAdd(Inner(t, r, K), e2);
    PolyAddValid(Inner(t, r, K), e2);
    PolyAddValid(v1, m);
    var v := PolyAdd(v1, m);
    PolySubValid(v, Inner(s, u, K));
    PolySub(v, Inner(s, u, K))
  }

  /**
   * The w of decapsulate after generate_public_key(A, s, e) and encapsulate(A, t, r, f, e2, m)
   * as written: u = A r + f.
   */
  function RoundTrip(A: Matrix, s: Vec, e: Vec, r: Vec, f: Vec, e2: Poly, m: Poly): (w: Poly)
    requires MatrixInRange(A) && VecInRange(s) && VecInRange(e) && VecInRange(r) && VecInRange(f)
    requires InRange(e2) && InRange(m)
    ensures Valid(w)
  {
    RoundTripWith(A, A, s, e, r, f, e2, m)
  }

  /** The same w when encapsulation uses u = A^T r + f. */
  function RoundTripTransposed(A: Matrix, s: Vec, e: Vec, r: Vec, f: Vec, e2: Poly, m: Poly): (w: Poly)
    requires MatrixInRange(A) && VecInRange(s) && VecInRange(e) && VecInRange(r) && VecInRange(f)
    requires InRange(e2) && InRange(m)
    ensures Valid(w)
  {
    TransposeInRange(A);
    RoundTripWith(A, Transpose(A), s, e, r, f, e2, m)
  }

  /** The same composition on exact vectors. */
  function ExactW(AA: CMat, BB: CMat, S: CVec, E: CVec, R: CVec, F: CVec, E2: Coeffs, M: Coeffs): (w: Coeffs)
    requires MatShaped(AA) && MatShaped(BB) && Shaped(S) && Shaped(E) && Shaped(R) && Shaped(F)
    requires |E2| == N && |M| == N
    ensures |w| == N
  {
    var V := IAdd(IAdd(XInner(XMatVec(AA, S, E), R, K), E2), M);
    ISub(V, XInner(S, XMatVec(BB, R, F), K))
  }

  /** (A01 - A10)(s1 r0 - s0 r1): what u = A r instead of u = A^T r leaves in w. */
  function Cross(AA: CMat, S: CVec, R: CVec): (c: Coeffs)
    requires MatShaped(AA) && Shaped(S) && Shaped(R)
    ensures |c| == N
  {
    IMul(ISub(AA[0][1], AA[1][0]), ISub(IMul(S[1], R[0]), IMul(S[0], R[1])))
  }

  /** m + e2 + e . r - s . f: the message and the noise of a correctly built ciphertext. */
  function SmallNoise(S: CVec, E: CVec, R: CVec, F: CVec, E2: Coeffs, M: Coeffs): (n: Coeffs)
    requires Shaped(S) && Shaped(E) && Shaped(R) && Shaped(F)
    requires |E2| == N && |M| == N
    ensures |n| == N
  {
    IAdd(IAdd(M, E2), ISub(XInner(E, R, K), XInner(S, F, K)))
  }

  /** m + e2 + e . r - s . f + cross term. */
  function NoiseOf(AA: CMat, S: CVec, E: CVec, R: CVec, F: CVec, E2: Coeffs, M: Coeffs): (n: Coeffs)
    requires MatShaped(AA) && Shaped(S) && Shaped(E) && Shaped(R) && Shaped(F)
    requires |E2| == N && |M| == N
    ensures |n| == N
  {
    IAdd(SmallNoise(S, E, R, F, E2, M), Cross(AA, S, R))
  }

  // ---------------------------------------------------------------------------
  // From the sparse loops to exact vectors
  // ---------------------------------------------------------------------------

  lemma {:induction false} RowSumCongruent(row: Vec, x: Vec, R: CVec, X: CVec, j: int)
    requires VecInRange(row) && VecInRange(x) && Represents(row, R) && Represents(x, X) && 0 <= j <= K
    ensures Congruent(Dense(RowSum(row, x, j)), XRow(R, X, j))
    decreases j
  {
    if j > 0 {
      RowSumCongruent(row, x, R, X, j - 1);
      PolyMulCongruent(row[j - 1], x[j - 1], R[j - 1], X[j - 1]);
      PolyAddCongruent(PolyMul(row[j - 1], x[j - 1]), RowSum(row, x, j - 1),
                       IMul(R[j - 1], X[j - 1]), XRow(R, X, j - 1));
    }
  }

  lemma {:induction false} InnerCongruent(x: Vec, y: Vec, X: CVec, Y: CVec, i: int)
    requires VecInRange(x) && VecInRange(y) && Represents(x, X) && Represents(y, Y) && 0 <= i <= K
    ensures Congruent(Dense(Inner(x, y, i)), XInner(X, Y, i))
    decreases i
  {
    if i > 0 {
      InnerCongruent(x, y, X, Y, i - 1);
      PolyMulCongruent(x[i - 1], y[i - 1], X[i - 1], Y[i - 1]);
      PolyAddCongruent(Inner(x, y, i - 1), PolyMul(x[i - 1], y[i - 1]),
                       XInner(X, Y, i - 1), IMul(X[i - 1], Y[i - 1]));
    }
  }

  /** generate_public_key, and the u of encapsulate, mean A X + E. */
  lemma MatVecCongruent(A: Matrix, x: Vec, e: Vec, AA: CMat, X: CVec, E: CVec)
    requires MatrixInRange(A) && VecInRange(x) && |e| == K
    requires MatRepresents(A, AA) && Represents(x, X) && Represents(e, E)
    ensures Represents(MatVec(A, x, e), XMatVec(AA, X, E))
  {
    forall i | 0 <= i < K
      ensures Congruent(Dense(MatVec(A, x, e)[i]), XMatVec(AA, X, E)[i])
    {
      RowSumCongruent(A[i], x, AA[i], X, K);
      PolyAddCongruent(RowSum(A[i], x, K), e[i], XRow(AA[i], X, K), E[i]);
    }
  }

  /** The dense view of the round trip is congruent to the same composition on exact vectors. */
  lemma SchemeCongruent(A: Matrix, B: Matrix, s: Vec, e: Vec, r: Vec, f: Vec, e2: Poly, m: Poly,
                        AA: CMat, BB: CMat, S: CVec, E: CVec, R: CVec, F: CVec, E2: Coeffs, M: Coeffs)
    requires MatrixInRange(A) && MatrixInRange(B)
    requires VecInRange(s) && VecInRange(e) && VecInRange(r) && VecInRange(f)
    requires InRange(e2) && InRange(m)
    requires MatRepresents(A, AA) && MatRepresents(B, BB) && Represents(s, S) && Represents(e, E)
    requires Represents(r, R) && Represents(f, F)
    requires Congruent(Dense(e2), E2) && Congruent(Dense(m), M)
    ensures Congruent(Dense(RoundTripWith(A, B, s, e, r, f, e2, m)), ExactW(AA, BB, S, E, R, F, E2, M))
  {
    MatVecInRange(A, s, e);
    MatVecInRange(B, r, f);
    var t, u := MatVec(A, s, e), MatVec(B, r, f);
    var T, U := XMatVec(AA, S, E), XMatVec(BB, R, F);
    MatVecCongruent(A, s, e, AA, S, E);
    MatVecCongruent(B, r, f, BB, R, F);
    InnerCongruent(t, r, T, R, K);
    PolyAddCongruent(Inner(t, r, K), e2, XInner(T, R, K), E2);
    PolyAddCongruent(PolyAdd(Inner(t, r, K), e2), m, IAdd(XInner(T, R, K), E2), M);
    InnerCongruent(s, u, S, U, K);
    PolySubCongruent(PolyAdd(PolyAdd(Inner(t, r, K), e2), m), Inner(s, u, K),
                     IAdd(IAdd(XInner(T, R, K), E2), M), XInner(S, U, K));
  }

  // ---------------------------------------------------------------------------
  // The algebra for K = 2
  // ---------------------------------------------------------------------------

  /** s . r-side of v: (sum_j A_ij S_j + E_i) * Y, term by term. */
  lemma RowTimesAt(Ai: CVec, X: CVec, Ei: Coeffs, Y: Coeffs, t: int)
    requires Shaped(Ai) && Shaped(X) && |Ei| == N && |Y| == N && 0 <= t < N
    ensures IMul(IAdd(XRow(Ai, X, K), Ei), Y)[t]
         == IMul(Ai[1], IMul(X[1], Y))[t] + IMul(Ai[0], IMul(X[0], Y))[t] + IMul(Ei, Y)[t]
  {
    var P1, P0 := IMul(Ai[1], X[1]), IMul(Ai[0], X[0]);
    assert XRow(Ai, X, K) == IAdd(P1, IAdd(P0, Zero()));
    IMulAddAt(XRow(Ai, X, K), Ei, Y, t);
    IMulAddAt(P1, IAdd(P0, Zero()), Y, t);
    IMulAddAt(P0, Zero(), Y, t);
    IMulZeroAt(Y, t);
    IMulAssoc(Ai[1], X[1], Y);
    IMulAssoc(Ai[0], X[0], Y);
  }

  /** Y times a row moved inside: Y (A X) = A (Y X). */
  lemma MulSwap(Y: Coeffs, a: Coeffs, X: Coeffs)
    requires |Y| == N && |a| == N && |X| == N
    ensures IMul(Y, IMul(a, X)) == IMul(a, IMul(Y, X))
  {
    IMulAssoc(Y, a, X);
    IMulComm(Y, a);
    IMulAssoc(a, Y, X);
  }

  /** s . u-side: Y * (sum_j A_ij X_j + F_i), term by term. */
  lemma TimesRowAt(Y: Coeffs, Ai: CVec, X: CVec, Fi: Coeffs, t: int)
    requires Shaped(Ai) && Shaped(X) && |Fi| == N && |Y| == N && 0 <= t < N
    ensures IMul(Y, IAdd(XRow(Ai, X, K), Fi))[t]
         == IMul(Ai[1], IMul(Y, X[1]))[t] + IMul(Ai[0], IMul(Y, X[0]))[t] + IMul(Y, Fi)[t]
  {
    var P1, P0 := IMul(Ai[1], X[1]), IMul(Ai[0], X[0]);
    assert XRow(Ai, X, K) == IAdd(P1, IAdd(P0, Zero()));
    IMulAddRight(Y, XRow(Ai, X, K), Fi);
    IMulAddRight(Y, P1, IAdd(P0, Zero()));
    IMulAddRight(Y, P0, Zero());
    IMulZeroRight(Y);
    MulSwap(Y, Ai[1], X[1]);
    MulSwap(Y, Ai[0], X[0]);
  }

  lemma CrossAt(AA: CMat, S: CVec, R: CVec, t: int)
    requires MatShaped(AA) && Shaped(S) && Shaped(R) && 0 <= t < N
    ensures Cross(AA, S, R)[t]
         == IMul(AA[0][1], IMul(S[1], R[0]))[t] - IMul(AA[0][1], IMul(S[0], R[1]))[t]
          - IMul(AA[1][0], IMul(S[1], R[0]))[t] + IMul(AA[1][0], IMul(S[0], R[1]))[t]
  {
    var X, Y := IMul(S[1], R[0]), IMul(S[0], R[1]);
    IMulSubAt(AA[0][1], AA[1][0], ISub(X, Y), t);
    IMulSubRight(AA[0][1], X, Y);
    IMulSubRight(AA[1][0], X, Y);
  }

  lemma XInnerAt(X: CVec, Y: CVec, t: int)
    requires Shaped(X) && Shaped(Y) && 0 <= t < N
    ensures XInner(X, Y, K)[t] == IMul(X[0], Y[0])[t] + IMul(X[1], Y[1])[t]
  {
  }

  /**
   * For K = 2, v - s . u on exact vectors is the message plus the noise plus the cross
   * term: the A00 and A11 products cancel between t . r and s . u, the A01 and A10 ones
   * do not.
   */
  lemma ExactNoise(AA: CMat, S: CVec, E: CVec, R: CVec, F: CVec, E2: Coeffs, M: Coeffs)
    requires MatShaped(AA) && Shaped(S) && Shaped(E) && Shaped(R) && Shaped(F)
    requires |E2| == N && |M| == N
    ensures ExactW(AA, AA, S, E, R, F, E2, M) == NoiseOf(AA, S, E, R, F, E2, M)
  {
    forall t | 0 <= t < N ensures ExactW(AA, AA, S, E, R, F, E2, M)[t] == NoiseOf(AA, S, E, R, F, E2, M)[t] {
      ExactNoiseAt(AA, S, E, R, F, E2, M, t);
    }
    SameCoeffs(ExactW(AA, AA, S, E, R, F, E2, M), NoiseOf(AA, S, E, R, F, E2, M));
  }

  lemma ExactNoiseAt(AA: CMat, S: CVec, E: CVec, R: CVec, F: CVec, E2: Coeffs, M: Coeffs, t: int)
    requires MatShaped(AA) && Shaped(S) && Shaped(E) && Shaped(R) && Shaped(F)
    requires |E2| == N && |M| == N && 0 <= t < N
    ensures ExactW(AA, AA, S, E, R, F, E2, M)[t] == NoiseOf(AA, S, E, R, F, E2, M)[t]
  {
    var T, U := XMatVec(AA, S, E), XMatVec(AA, R, F);
    {
      XInnerAt(T, R, t);
      XInnerAt(S, U, t);
      XInnerAt(E, R, t);
      XInnerAt(S, F, t);
      RowTimesAt(AA[0], S, E[0], R[0], t);
      RowTimesAt(AA[1], S, E[1], R[1], t);
      TimesRowAt(S[0], AA[0], R, F[0], t);
      TimesRowAt(S[1], AA[1], R, F[1], t);
      CrossAt(AA, S, R, t);
    }
  }

  /**
   * For any exact vectors that stand for the inputs, the dense w is the noise expression
   * reduced modulo Q.
   */
  lemma NoiseRepresentation(A: Matrix, s: Vec, e: Vec, r: Vec, f: Vec, e2: Poly, m: Poly,
                       AA: CMat, S: CVec, E: CVec, R: CVec, F: CVec, E2: Coeffs, M: Coeffs)
    requires MatrixInRange(A) && VecInRange(s) && VecInRange(e) && VecInRange(r) && VecInRange(f)
    requires InRange(e2) && InRange(m)
    requires MatRepresents(A, AA) && Represents(s, S) && Represents(e, E)
    requires Represents(r, R) && Represents(f, F)
    requires Congruent(Dense(e2), E2) && Congruent(Dense(m), M)
    ensures Dense(RoundTrip(A, s, e, r, f, e2, m)) == Reduce(NoiseOf(AA, S, E, R, F, E2, M))
  {
    var w := RoundTrip(A, s, e, r, f, e2, m);
    SchemeCongruent(A, A, s, e, r, f, e2, m, AA, AA, S, E, R, F, E2, M);
    ExactNoise(AA, S, E, R, F, E2, M);
    CongruentReduce(Dense(w), NoiseOf(AA, S, E, R, F, E2, M));
    ReduceReduced(Dense(w));
  }

  /**
   * The dense w of decapsulate is m + e2 + e . r - s . e1 + (A01 - A10)(s1 r0 - s0 r1),
   * reduced modulo Q.
   */
  lemma NoiseDecomposition(A: Matrix, s: Vec, e: Vec, r: Vec, f: Vec, e2: Poly, m: Poly)
    requires MatrixInRange(A) && VecInRange(s) && VecInRange(e) && VecInRange(r) && VecInRange(f)
    requires InRange(e2) && InRange(m)
    ensures Dense(RoundTrip(A, s, e, r, f, e2, m))
         == Reduce(NoiseOf(DenseMat(A), DenseVec(s), DenseVec(e), DenseVec(r), DenseVec(f), Dense(e2), Dense(m)))
  {
    var AA := DenseMat(A);
    forall i | 0 <= i < K ensures Represents(A[i], AA[i]) {
      DenseRepresents(A[i]);
    }
    DenseRepresents(s);
    DenseRepresents(e);
    DenseRepresents(r);
    DenseRepresents(f);
    NoiseRepresentation(A, s, e, r, f, e2, m, AA, DenseVec(s), DenseVec(e), DenseVec(r), DenseVec(f), Dense(e2), Dense(m));
  }

  /** When A01 and A10 coincide the cross term is zero. */
  lemma CrossSymmetric(AA: CMat, S: CVec, R: CVec)
    requires MatShaped(AA) && Shaped(S) && Shaped(R)
    requires AA[0][1] == AA[1][0]
    ensures Cross(AA, S, R) == Zero()
  {
    assert ISub(AA[0][1], AA[1][0]) == Zero();
    IMulZeroLeft(ISub(IMul(S[1], R[0]), IMul(S[0], R[1])));
  }

  /** When A01 = A10 only m + e2 + e . r - s . f is left. */
  lemma CrossFree(AA: CMat, S: CVec, E: CVec, R: CVec, F: CVec, E2: Coeffs, M: Coeffs)
    requires MatShaped(AA) && Shaped(S) && Shaped(E) && Shaped(R) && Shaped(F)
    requires |E2| == N && |M| == N
    requires AA[0][1] == AA[1][0]
    ensures NoiseOf(AA, S, E, R, F, E2, M) == SmallNoise(S, E, R, F, E2, M)
  {
    CrossSymmetric(AA, S, R);
    var n, c := NoiseOf(AA, S, E, R, F, E2, M), SmallNoise(S, E, R, F, E2, M);
    forall t | 0 <= t < N ensures n[t] == c[t] {
    }
  }

  /** For a matrix with A01 = A10 (in the dense view), w is m + e2 + e . r - s . e1 reduced. */
  lemma SymmetricNoise(A: Matrix, s: Vec, e: Vec, r: Vec, f: Vec, e2: Poly, m: Poly)
    requires MatrixInRange(A) && VecInRange(s) && VecInRange(e) && VecInRange(r) && VecInRange(f)
    requires InRange(e2) && InRange(m)
    requires Dense(A[0][1]) == Dense(A[1][0])
    ensures Dense(RoundTrip(A, s, e, r, f, e2, m))
         == Reduce(SmallNoise(DenseVec(s), DenseVec(e), DenseVec(r), DenseVec(f), Dense(e2), Dense(m)))
  {
    NoiseDecomposition(A, s, e, r, f, e2, m);
    CrossFree(DenseMat(A), DenseVec(s), DenseVec(e), DenseVec(r), DenseVec(f), Dense(e2), Dense(m));
  }

  // ---------------------------------------------------------------------------
  // With u = A^T r + f the cross term is gone
  // ---------------------------------------------------------------------------

  /** The transpose of an exact matrix. */
  function XTranspose(AA: CMat): (BB: CMat)
    requires MatShaped(AA)
    ensures MatShaped(BB) && forall i, j :: 0 <= i < K && 0 <= j < K ==> BB[i][j] == AA[j][i]
  {
    seq(K, i requires 0 <= i < K => seq(K, j requires 0 <= j < K => AA[j][i]))
  }

  lemma TransposeRepresents(A: Matrix, AA: CMat)
    requires MatrixInRange(A) && MatRepresents(A, AA)
    ensures MatRepresents(Transpose(A), XTranspose(AA))
  {
    forall i | 0 <= i < K ensures Represents(Transpose(A)[i], XTranspose(AA)[i]) {
      forall j | 0 <= j < K ensures Congruent(Dense(Transpose(A)[i][j]), XTranspose(AA)[i][j]) {
        assert Represents(A[j], AA[j]);
      }
    }
  }

  /**
   * For K = 2, v - s . u with u = A^T r + f is exactly m + e2 + e . r - s . f: every
   * product A_ij s_j r_i of t . r meets the same product in s . u.
   */
  lemma ExactNoiseTransposed(AA: CMat, S: CVec, E: CVec, R: CVec, F: CVec, E2: Coeffs, M: Coeffs)
    requires MatShaped(AA) && Shaped(S) && Shaped(E) && Shaped(R) && Shaped(F)
    requires |E2| == N && |M| == N
    ensures ExactW(AA, XTranspose(AA), S, E, R, F, E2, M) == SmallNoise(S, E, R, F, E2, M)
  {
    var BB := XTranspose(AA);
    var W, C := ExactW(AA, BB, S, E, R, F, E2, M), SmallNoise(S, E, R, F, E2, M);
    assert BB[0][0] == AA[0][0] && BB[0][1] == AA[1][0] && BB[1][0] == AA[0][1] && BB[1][1] == AA[1][1];
    forall t | 0 <= t < N ensures W[t] == C[t] {
      ExactNoiseTransposedAt(AA, BB, S, E, R, F, E2, M, t);
    }
    SameCoeffs(W, C);
  }

  /** One coefficient, for any BB whose entries are those of A^T. */
  lemma ExactNoiseTransposedAt(AA: CMat, BB: CMat, S: CVec, E: CVec, R: CVec, F: CVec, E2: Coeffs, M: Coeffs, t: int)
    requires MatShaped(AA) && MatShaped(BB) && Shaped(S) && Shaped(E) && Shaped(R) && Shaped(F)
    requires BB[0][0] == AA[0][0] && BB[0][1] == AA[1][0] && BB[1][0] == AA[0][1] && BB[1][1] == AA[1][1]
    requires |E2| == N && |M| == N && 0 <= t < N
    ensures ExactW(AA, BB, S, E, R, F, E2, M)[t] == SmallNoise(S, E, R, F, E2, M)[t]
  {
    var T, U := XMatVec(AA, S, E), XMatVec(BB, R, F);
    XInnerAt(T, R, t);
    XInnerAt(S, U, t);
    XInnerAt(E, R, t);
    XInnerAt(S, F, t);
    RowTimesAt(AA[0], S, E[0], R[0], t);
    RowTimesAt(AA[1], S, E[1], R[1], t);
    TimesRowAt(S[0], BB[0], R, F[0], t);
    TimesRowAt(S[1], BB[1], R, F[1], t);
  }

  /**
   * With u = A^T r + f the dense w of decapsulate is m + e2 + e . r - s . f reduced modulo
   * Q, for any matrix A and any exact vectors standing for the inputs.
   */
  lemma TransposedNoise(A: Matrix, s: Vec, e: Vec, r: Vec, f: Vec, e2: Poly, m: Poly,
                        AA: CMat, S: CVec, E: CVec, R: CVec, F: CVec, E2: Coeffs, M: Coeffs)
    requires MatrixInRange(A) && VecInRange(s) && VecInRange(e) && VecInRange(r) && VecInRange(f)
    requires InRange(e2) && InRange(m)
    requires MatRepresents(A, AA) && Represents(s, S) && Represents(e, E)
    requires Represents(r, R) && Represents(f, F)
    requires Congruent(Dense(e2), E2) && Congruent(Dense(m), M)
    ensures Dense(RoundTripTransposed(A, s, e, r, f, e2, m)) == Reduce(SmallNoise(S, E, R, F, E2, M))
  {
    var w := RoundTripTransposed(A, s, e, r, f, e2, m);
    TransposeInRange(A);
    TransposeRepresents(A, AA);
    SchemeCongruent(A, Transpose(A), s, e, r, f, e2, m, AA, XTranspose(AA), S, E, R, F, E2, M);
    ExactNoiseTransposed(AA, S, E, R, F, E2, M);
    CongruentReduce(Dense(w), SmallNoise(S, E, R, F, E2, M));
    ReduceReduced(Dense(w));
  }
}
