/**
 * The dense side of the lattice attack script: a sparse polynomial written out as its
 * list of n coefficients, a vector of K polynomials as the concatenation of those lists,
 * and the key matrix A as the (K n) x (K n) integer matrix of multiplication by A in
 * Z_Q[x]/(x^N + 1). The ring operations and protocol steps of that script are the same
 * code as in the Kyber module and are not repeated here.
 */
module KyAttack {
  import opened Params
  import opened Sums
  import opened Negacyclic
  import opened SparsePoly
  import opened Kyber
  import opened Noise

  // ---------------------------------------------------------------------------
  // poly_to_coeffs and vector_to_coeffs
  // ---------------------------------------------------------------------------

  /** poly_to_coeffs(p, n): coefficient p[i] mod Q at position i, 0 where p has no term. */
  function CoeffList(p: Poly, n: nat): (c: seq<int>)
    ensures |c| == n
  {
    seq(n, i => if i in p then p[i] % Q else 0)
  }

  /** With n = N the coefficient list is the dense view of the polynomial. */
  lemma CoeffListDense(p: Poly)
    ensures CoeffList(p, N) == Dense(p)
  {
    forall i | 0 <= i < N ensures CoeffList(p, N)[i] == Dense(p)[i] {
    }
    SameCoeffs(CoeffList(p, N), Dense(p));
  }

  /** The loop of poly_to_coeffs: a zero-filled list, then one write per term of the polynomial. */
  method PolyToCoeffs(poly: Poly, n: nat) returns (coeffs: seq<int>)
    requires forall k :: k in poly ==> 0 <= k < n
    ensures coeffs == CoeffList(poly, n)
  {
    var a := new int[n](_ => 0);
    var rest := poly.Keys;
    while rest != {}
      invariant rest <= poly.Keys
      invariant forall i :: 0 <= i < n ==> a[i] == if i in poly && i !in rest then poly[i] % Q else 0
      decreases rest
    {
      NonEmpty(rest);
      var power :| power in rest;
      a[power] := poly[power] % Q;
      rest := rest - {power};
    }
    coeffs := a[..];
  }

  /** The list vector_to_coeffs(t, n) holds after its first i passes. */
  function CoeffVector(t: Vec, n: nat, i: nat): (c: seq<int>)
    requires i <= |t|
  {
    if i == 0 then [] else CoeffVector(t, n, i - 1) + CoeffList(t[i - 1], n)
  }

  /** vector_to_coeffs(t, n) has K n entries, and block j is poly_to_coeffs(t[j], n). */
  lemma CoeffVectorBlocks(t: Vec, n: nat)
    requires |t| == K
    ensures |CoeffVector(t, n, K)| == K * n
    ensures forall j, p :: 0 <= j < K && 0 <= p < n ==>
      CoeffVector(t, n, K)[j * n + p] == CoeffList(t[j], n)[p]
  {
    CoeffVectorAt(t, n, 0, 0);
    forall j, p | 0 <= j < K && 0 <= p < n ensures CoeffVector(t, n, K)[j * n + p] == CoeffList(t[j], n)[p] {
      CoeffVectorAt(t, n, j, p);
    }
  }

  /** Entry p of block j of vector_to_coeffs(t, n). */
  lemma CoeffVectorAt(t: Vec, n: nat, j: int, p: int)
    requires |t| == K && 0 <= j < K && 0 <= p
    ensures |CoeffVector(t, n, K)| == K * n
    ensures p < n ==> CoeffVector(t, n, K)[j * n + p] == CoeffList(t[j], n)[p]
  {
    var c := CoeffVector(t, n, K);
    assert CoeffVector(t, n, 1) == [] + CoeffList(t[0], n);
    assert [] + CoeffList(t[0], n) == CoeffList(t[0], n);
    assert c == CoeffList(t[0], n) + CoeffList(t[1], n);
    if j == 1 {
      assert j * n + p == n + p;
    }
  }


  /** The loop of vector_to_coeffs: extend the list by the coefficients of each polynomial. */
  method VectorToCoeffs(t: Vec, n: nat) returns (coeffs: seq<int>)
    requires |t| == K && forall i :: 0 <= i < K ==> forall k :: k in t[i] ==> 0 <= k < n
    ensures coeffs == CoeffVector(t, n, K)
  {
    coeffs := [];
    for i := 0 to K
      invariant coeffs == CoeffVector(t, n, i)
    {
      var block := PolyToCoeffs(t[i], n);
      coeffs := coeffs + block;
    }
  }

  // ---------------------------------------------------------------------------
  // matrix_A_to_coeff_matrix
  // ---------------------------------------------------------------------------

  /**
   * Row r, column c of the N x N matrix of multiplication by x: column c holds the
   * coefficients of x^c * x, so the entry is x[r - c], negated when r - c wraps below 0
   * (x^N = -1), reduced modulo Q.
   */
  function BlockEntry(x: Coeffs, r: int, c: int): int
    requires |x| == N && 0 <= r < N && 0 <= c < N
  {
    if c <= r then x[r - c] % Q else (-x[r - c + N]) % Q
  }

  /** The matrix matrix_A_to_coeff_matrix(A, n, q) returns: block (i, j) multiplies by A[i][j]. */
  function CoeffMatrixOf(A: Matrix): (M: seq<seq<int>>)
    requires |A| == K && forall i :: 0 <= i < K ==> |A[i]| == K
    ensures |M| == K * N && forall row :: 0 <= row < K * N ==> |M[row]| == K * N
  {
    seq(K * N, row requires 0 <= row < K * N =>
      seq(K * N, col requires 0 <= col < K * N =>
        BlockEntry(Dense(A[row / N][col / N]), row % N, col % N)))
  }

  /** Entry (r, c) of block (i, j) of the array. */
  function At(M: array2<int>, i: int, r: int, j: int, c: int): int
    reads M
    requires M.Length0 == K * N && M.Length1 == K * N
    requires 0 <= i < K && 0 <= r < N && 0 <= j < K && 0 <= c < N
  {
    M[i * N + r, j * N + c]
  }

  /** The pass l of the third loop that writes entry (r, c) of a block: l = (r - c) mod N. */
  function Pass(r: int, c: int): int {
    if c <= r then r - c else r - c + N
  }

  /** Entry (r, c) of block (i', j') is written before step (i, j, l, m) of the four loops. */
  predicate Written(i': int, j': int, r: int, c: int, i: int, j: int, l: int, m: int) {
    i' < i || (i' == i && (j' < j || (j' == j && (Pass(r, c) < l || (Pass(r, c) == l && c < m)))))
  }

  /** The array after the steps before (i, j, l, m): written entries final, the rest still 0. */
  predicate Filled(M: array2<int>, A: Matrix, i: int, j: int, l: int, m: int)
    reads M
    requires M.Length0 == K * N && M.Length1 == K * N
    requires |A| == K && forall i' :: 0 <= i' < K ==> |A[i']| == K
  {
    forall i', r, j', c :: 0 <= i' < K && 0 <= r < N && 0 <= j' < K && 0 <= c < N ==>
      At(M, i', r, j', c) == if Written(i', j', r, c, i, j, l, m) then BlockEntry(Dense(A[i'][j']), r, c) else 0
  }

  /** Step (i, j, l, m) writes exactly entry ((l + m) mod N, m) of block (i, j). */
  lemma StepCell(i: int, j: int, l: int, m: int, i': int, r: int, j': int, c: int)
    requires 0 <= l < N && 0 <= m < N && 0 <= r < N && 0 <= c < N
    ensures Written(i', j', r, c, i, j, l, m + 1)
        <==> Written(i', j', r, c, i, j, l, m) || (i' == i && j' == j && r == (l + m) % N && c == m)
  {
  }

  /** The value step (i, j, l, m) writes is the closed-form entry. */
  lemma StepValue(x: Coeffs, l: int, m: int)
    requires |x| == N && 0 <= l < N && 0 <= m < N
    ensures (0 + (if l + m >= N then -1 else 1) * x[l]) % Q == BlockEntry(x, (l + m) % N, m)
  {
  }

  /**
   * The four loops of matrix_A_to_coeff_matrix, with n = N and q = Q: for every term
   * index l of A[i][j] and column m, the entry at row (l + m) mod N of column m of block
   * (i, j) receives sign * coeffs[l] (sign -1 when l + m >= N), reduced modulo Q.
   */
  method CoeffMatrix(A: Matrix) returns (M: array2<int>)
    requires MatrixInRange(A)
    ensures M.Length0 == K * N && M.Length1 == K * N
    ensures forall row, col :: 0 <= row < K * N && 0 <= col < K * N ==>
      M[row, col] == CoeffMatrixOf(A)[row][col] && 0 <= M[row, col] < Q
  {
    M := new int[K * N, K * N]((_, _) => 0);
    for i := 0 to K
      invariant Filled(M, A, i, 0, 0, 0)
    {
      for j := 0 to K
        invariant Filled(M, A, i, j, 0, 0)
      {
        var coeffs := PolyToCoeffs(A[i][j], N);
        CoeffListDense(A[i][j]);
        for l := 0 to N
          invariant Filled(M, A, i, j, l, 0)
        {
          AddTerm(M, A, i, j, l, coeffs);
        }
      }
    }
    forall row, col | 0 <= row < K * N && 0 <= col < K * N
      ensures M[row, col] == CoeffMatrixOf(A)[row][col] && 0 <= M[row, col] < Q
    {
      assert M[row, col] == At(M, row / N, row % N, col / N, col % N);
    }
  }

  /**
   * The innermost loop of matrix_A_to_coeff_matrix for one term index l of
   * coeffs = poly_to_coeffs(A[i][j], n): column m of block (i, j) receives
   * sign * coeffs[l] at row (l + m) mod N.
   */
  method AddTerm(M: array2<int>, A: Matrix, i: int, j: int, l: int, coeffs: seq<int>)
    modifies M
    requires M.Length0 == K * N && M.Length1 == K * N
    requires |A| == K && forall i' :: 0 <= i' < K ==> |A[i']| == K
    requires 0 <= i < K && 0 <= j < K && 0 <= l < N && coeffs == Dense(A[i][j])
    requires Filled(M, A, i, j, l, 0)
    ensures Filled(M, A, i, j, l + 1, 0)
  {
    for m := 0 to N
      invariant Filled(M, A, i, j, l, m)
    {
      var target := (l + m) % N;
      var sign := if l + m >= N then -1 else 1;
      label Before:
      M[i * N + target, j * N + m] := (M[i * N + target, j * N + m] + sign * coeffs[l]) % Q;
      forall i', r, j', c | 0 <= i' < K && 0 <= r < N && 0 <= j' < K && 0 <= c < N
        ensures At(M, i', r, j', c) == if Written(i', j', r, c, i, j, l, m + 1)
          then BlockEntry(Dense(A[i'][j']), r, c) else 0
      {
        StepCell(i, j, l, m, i', r, j', c);
        if i' == i && r == target && j' == j && c == m {
          StepValue(Dense(A[i][j]), l, m);
        } else {
          assert At(M, i', r, j', c) == old@Before(At(M, i', r, j', c));
        }
      }
    }
  }

  // ---------------------------------------------------------------------------
  // The coefficient matrix multiplies
  // ---------------------------------------------------------------------------

  /** Summand col of row mr of a matrix times the vector v. */
  function RowTerm(mr: seq<int>, v: seq<int>): int -> int {
    col => if 0 <= col < |mr| && col < |v| then mr[col] * v[col] else 0
  }

  /** The matrix-vector product M v, reduced modulo Q. */
  function MatTimes(M: seq<seq<int>>, v: seq<int>): (w: seq<int>)
    ensures |w| == |M|
  {
    seq(|M|, row requires 0 <= row < |M| => Sum(RowTerm(M[row], v), 0, |M[row]|) % Q)
  }

  /** The polynomials sum_j A[i][j] * s[j] (A s without the noise e). */
  function Products(A: Matrix, s: Vec): (p: Vec)
    requires MatrixInRange(A) && VecInRange(s)
    ensures |p| == K
  {
    seq(K, i requires 0 <= i < K => RowSum(A[i], s, K))
  }

  /** Summand c of row r of one block times the matching block of the vector. */
  function BlockTerm(x: Coeffs, y: Coeffs, r: int): int -> int
    requires |x| == N && |y| == N && 0 <= r < N
  {
    c => if 0 <= c < N then BlockEntry(x, r, c) * y[c] else 0
  }

  /** Row r of the block of x times y is coefficient r of the negacyclic product x y. */
  lemma BlockRow(x: Coeffs, y: Coeffs, r: int)
    requires |x| == N && |y| == N && 0 <= r < N
    ensures Sum(BlockTerm(x, y, r), 0, N) % Q == IMul(x, y)[r] % Q
  {
    forall c | 0 <= c < N ensures BlockTerm(x, y, r)(c) % Q == ConvTerm(y, x, r)(c) % Q {
      var e := Ext(x, r - c);
      assert BlockEntry(x, r, c) == e % Q;
      MulCongruent(BlockEntry(x, r, c), e, y[c]);
      assert ConvTerm(y, x, r)(c) == e * y[c];
    }
    SumCongruent(BlockTerm(x, y, r), ConvTerm(y, x, r), 0, N);
    ConvSumComm(y, x, r);
  }

  /** Row I N + r of the coefficient matrix splits into one block row per column block. */
  lemma RowBlocks(A: Matrix, s: Vec, I: int, r: int)
    requires MatrixInRange(A) && VecInRange(s) && 0 <= I < K && 0 <= r < N
    ensures Sum(RowTerm(CoeffMatrixOf(A)[I * N + r], CoeffVector(s, N, K)), 0, K * N)
         == Sum(BlockTerm(Dense(A[I][0]), Dense(s[0]), r), 0, N)
          + Sum(BlockTerm(Dense(A[I][1]), Dense(s[1]), r), 0, N)
  {
    var F := RowTerm(CoeffMatrixOf(A)[I * N + r], CoeffVector(s, N, K));
    SumSplit(F, 0, N, K * N);
    BlockPart(A, s, I, r, 0);
    BlockPart(A, s, I, r, 1);
  }

  /** Row I N + r of the coefficient matrix, restricted to column block J, times block J of the vector. */
  lemma BlockPart(A: Matrix, s: Vec, I: int, r: int, J: int)
    requires MatrixInRange(A) && VecInRange(s) && 0 <= I < K && 0 <= r < N && 0 <= J < K
    ensures Sum(BlockTerm(Dense(A[I][J]), Dense(s[J]), r), 0, N)
         == Sum(RowTerm(CoeffMatrixOf(A)[I * N + r], CoeffVector(s, N, K)), J * N, J * N + N)
  {
    var F := RowTerm(CoeffMatrixOf(A)[I * N + r], CoeffVector(s, N, K));
    var G := BlockTerm(Dense(A[I][J]), Dense(s[J]), r);
    CoeffVectorBlocks(s, N);
    CoeffListDense(s[J]);
    forall c | 0 <= c < N ensures G(c) == F(c + J * N) {
      CoeffMatrixAt(A, I, r, J, c);
      assert CoeffVector(s, N, K)[J * N + c] == CoeffList(s[J], N)[c];
    }
    SumShift(F, G, 0, N, J * N);
  }

  /** Entry (I N + r, J N + c) of the coefficient matrix is entry (r, c) of block (I, J). */
  lemma CoeffMatrixAt(A: Matrix, I: int, r: int, J: int, c: int)
    requires |A| == K && forall i :: 0 <= i < K ==> |A[i]| == K
    requires 0 <= I < K && 0 <= r < N && 0 <= J < K && 0 <= c < N
    ensures 0 <= I * N + r < K * N && 0 <= J * N + c < K * N
    ensures CoeffMatrixOf(A)[I * N + r][J * N + c] == BlockEntry(Dense(A[I][J]), r, c)
  {
    BlockIndex(I, r);
    BlockIndex(J, c);
  }

  /** Every position of a K N vector is offset r of some block I. */
  lemma BlockOf(row: int) returns (I: int, r: int)
    requires 0 <= row < K * N
    ensures 0 <= I < K && 0 <= r < N && row == I * N + r
  {
    if row < N {
      I, r := 0, row;
    } else {
      I, r := 1, row - N;
    }
  }

  /** Position I N + r lies in block I at offset r. */
  lemma BlockIndex(I: int, r: int)
    requires 0 <= I < K && 0 <= r < N
    ensures 0 <= I * N + r < K * N && (I * N + r) / N == I && (I * N + r) % N == r
  {
    if I == 0 {
      assert I * N + r == r;
    } else {
      assert I * N + r == N + r;
    }
  }

  /** Equal-modulo-Q pieces assemble: the reduced total is the reduced coefficient d. */
  lemma Assemble(total: int, b0: int, b1: int, p0: int, p1: int, x: int, d: int)
    requires total == b0 + b1 && b0 % Q == p0 % Q && b1 % Q == p1 % Q
    requires x == p1 + p0 && d % Q == x % Q && 0 <= d < Q
    ensures total % Q == d
  {
    CongruentAdd(b0, p0, b1, p1);
  }

  /** Entry I N + r of M s: coefficient r of sum_j A[I][j] * s[j]. */
  lemma CoeffMatrixRow(A: Matrix, s: Vec, I: int, r: int)
    requires MatrixInRange(A) && VecInRange(s) && 0 <= I < K && 0 <= r < N
    ensures Sum(RowTerm(CoeffMatrixOf(A)[I * N + r], CoeffVector(s, N, K)), 0, K * N) % Q
         == Dense(RowSum(A[I], s, K))[r]
  {
    var x0, x1, y0, y1 := Dense(A[I][0]), Dense(A[I][1]), Dense(s[0]), Dense(s[1]);
    RowBlocks(A, s, I, r);
    BlockRow(x0, y0, r);
    BlockRow(x1, y1, r);
    var R, X := DenseVec(A[I]), DenseVec(s);
    DenseRepresents(A[I]);
    DenseRepresents(s);
    RowSumCongruent(A[I], s, R, X, K);
    var xr := XRow(R, X, K)[r];
    assert xr == IMul(x1, y1)[r] + IMul(x0, y0)[r];
    Assemble(Sum(RowTerm(CoeffMatrixOf(A)[I * N + r], CoeffVector(s, N, K)), 0, K * N),
             Sum(BlockTerm(x0, y0, r), 0, N), Sum(BlockTerm(x1, y1, r), 0, N),
             IMul(x0, y0)[r], IMul(x1, y1)[r], xr, Dense(RowSum(A[I], s, K))[r]);
  }

  /**
   * The coefficient matrix reproduces polynomial multiplication: M times
   * vector_to_coeffs(s), reduced modulo Q, is vector_to_coeffs of the K polynomials
   * sum_j A[i][j] * s[j].
   */
  lemma CoeffMatrixMultiplies(A: Matrix, s: Vec)
    requires MatrixInRange(A) && VecInRange(s)
    ensures MatTimes(CoeffMatrixOf(A), CoeffVector(s, N, K)) == CoeffVector(Products(A, s), N, K)
  {
    var lhs, rhs := MatTimes(CoeffMatrixOf(A), CoeffVector(s, N, K)), CoeffVector(Products(A, s), N, K);
    CoeffVectorAt(Products(A, s), N, 0, 0);
    forall row | 0 <= row < K * N ensures lhs[row] == rhs[row] {
      MultipliesAt(A, s, row);
    }
  }

  /** One entry of the equation of CoeffMatrixMultiplies. */
  lemma MultipliesAt(A: Matrix, s: Vec, row: int)
    requires MatrixInRange(A) && VecInRange(s) && 0 <= row < K * N
    ensures |CoeffVector(Products(A, s), N, K)| == K * N
    ensures MatTimes(CoeffMatrixOf(A), CoeffVector(s, N, K))[row] == CoeffVector(Products(A, s), N, K)[row]
  {
    var I, r := BlockOf(row);
    var P := Products(A, s);
    CoeffVectorAt(P, N, I, r);
    assert P[I] == RowSum(A[I], s, K);
    CoeffMatrixRow(A, s, I, r);
    CoeffListDense(P[I]);
  }

}
