/**
 * Decapsulation recovers the message. With u = A^T r + e1 (as in Kyber) it returns exactly
 * the exponents of the message bits for every key matrix: the remaining noise
 * e2 + e . r - s . f is small enough for the band [832, 2496] to tell 1337 from 0. With
 * u = A r + e1, as encapsulate is written, the same holds when A01 and A10 agree, and a
 * counterexample shows that it fails for other matrices the sampler can produce.
 */
module Correctness {
  import opened Params
  import opened Sums
  import opened Negacyclic
  import opened SparsePoly
  import opened Kyber
  import opened Noise

  // ---------------------------------------------------------------------------
  // The band decoder
  // ---------------------------------------------------------------------------

  /**
   * A coefficient 1337 b + n, with the noise n in [-505, 831], reduces into the band
   * [832, 2496] exactly when the bit b is 1.
   */
  lemma Band(x: int, b: int, n: int)
    requires b == 0 || b == 1
    requires -505 <= n <= 831 && x == 1337 * b + n
    ensures 832 <= x % Q <= 2496 <==> b == 1
  {
    if b == 1 || n >= 0 {
      assert x % Q == x;
    } else {
      assert x % Q == x + Q;
    }
  }

  /** On a valid polynomial, decoding reads the band off the dense coefficients. */
  lemma DecodeDense(w: Poly, k: int)
    requires Valid(w)
    ensures k in Decode(w) <==> 0 <= k < N && 832 <= Dense(w)[k] <= 2496
  {
    if k in w {
      assert Dense(w)[k] == w[k];
    }
  }

  /**
   * If w is, coefficient by coefficient and modulo Q, a scaled message plus noise in
   * [-505, 831], then the band decoder returns the exponents of the message.
   */
  lemma DecodeMessage(w: Poly, m: Poly, n: Coeffs)
    requires Valid(w) && ScaledMessage(m) && |n| == N
    requires Dense(w) == Reduce(IAdd(Dense(m), n))
    requires forall k :: 0 <= k < N ==> -505 <= n[k] <= 831
    ensures Decode(w) == m.Keys
  {
    var v := IAdd(Dense(m), n);
    forall k ensures k in Decode(w) <==> k in m.Keys {
      DecodeDense(w, k);
      if 0 <= k < N {
        ReduceAt(v, k);
        var b := if k in m then 1 else 0;
        assert Dense(m)[k] == 1337 * b;
        Band(v[k], b, n[k]);
      }
    }
  }

  // ---------------------------------------------------------------------------
  // Centred representatives of the sampled polynomials
  // ---------------------------------------------------------------------------

  /** Each coefficient moved into (-Q/2, Q/2]; Q - 1 becomes -1. */
  function Centred(x: Coeffs): (c: Coeffs)
    ensures |c| == |x| && Congruent(x, c)
  {
    seq(|x|, i requires 0 <= i < |x| => if x[i] > Q / 2 then x[i] - Q else x[i])
  }

  function CentredVec(x: Vec): (X: CVec)
    requires |x| == K
    ensures Shaped(X) && forall i :: 0 <= i < K ==> X[i] == Centred(Dense(x[i]))
  {
    seq(K, i requires 0 <= i < K => Centred(Dense(x[i])))
  }

  lemma CentredRepresents(x: Vec)
    requires |x| == K
    ensures Represents(x, CentredVec(x))
  {
  }

  /**
   * A polynomial of the small sampler has centred coefficients -1, 0 or 1, non-zero only
   * at its own exponents.
   */
  lemma SmallCentred(p: Poly)
    requires SmallPoly(p)
    ensures forall i :: 0 <= i < N ==> -1 <= Centred(Dense(p))[i] <= 1
    ensures forall i :: 0 <= i < N && Centred(Dense(p))[i] != 0 ==> i in p.Keys
  {
    forall i | 0 <= i < N
      ensures -1 <= Centred(Dense(p))[i] <= 1 && (Centred(Dense(p))[i] != 0 ==> i in p.Keys)
    {
      if i in p {
        assert Dense(p)[i] == p[i];
      }
    }
  }

  /** The inner product of two small vectors has coefficients in [-18, 18]. */
  lemma InnerSmall(x: Vec, y: Vec, t: int)
    requires VectorSample(x) && VectorSample(y) && 0 <= t < N
    ensures -18 <= XInner(CentredVec(x), CentredVec(y), K)[t] <= 18
  {
    var X, Y := CentredVec(x), CentredVec(y);
    XInnerAt(X, Y, t);
    SmallCentred(x[0]);
    SmallCentred(y[0]);
    SmallCentred(x[1]);
    SmallCentred(y[1]);
    ProductBound(X[0], Y[0], x[0].Keys, t);
    ProductBound(X[1], Y[1], x[1].Keys, t);
  }

  /** The one coefficient of e2 is its stored value, 0, 1 or 2. */
  lemma NoiseTermDense(e2: Poly, t: int)
    requires NoiseTerm(e2) && 0 <= t < N
    ensures 0 <= Dense(e2)[t] <= 2
  {
    if t in e2 {
      assert Dense(e2)[t] == e2[t];
    }
  }

  /**
   * With the samplers' shapes, the noise e2 + e . r - s . f of the symmetric case lies
   * in [-36, 38] at every coefficient.
   */
  lemma NoiseSmall(s: Vec, e: Vec, r: Vec, f: Vec, e2: Poly)
    requires VectorSample(s) && VectorSample(e) && VectorSample(r) && VectorSample(f)
    requires NoiseTerm(e2)
    ensures forall t :: 0 <= t < N ==>
      -36 <= IAdd(Dense(e2), ISub(XInner(CentredVec(e), CentredVec(r), K),
                                  XInner(CentredVec(s), CentredVec(f), K)))[t] <= 38
  {
    var er, sf := XInner(CentredVec(e), CentredVec(r), K), XInner(CentredVec(s), CentredVec(f), K);
    var n := IAdd(Dense(e2), ISub(er, sf));
    forall t | 0 <= t < N ensures -36 <= n[t] <= 38 {
      InnerSmall(e, r, t);
      InnerSmall(s, f, t);
      NoiseTermDense(e2, t);
    }
  }

  // ---------------------------------------------------------------------------
  // The round trip
  // ---------------------------------------------------------------------------

  /**
   * If the dense w is the message plus the noise e2 + e . r - s . f of sampled
   * polynomials, reduced modulo Q, the band decoder returns exactly the message's exponents.
   */
  lemma SmallNoiseDecodes(w: Poly, s: Vec, e: Vec, r: Vec, f: Vec, e2: Poly, m: Poly)
    requires Valid(w) && VectorSample(s) && VectorSample(e)
    requires VectorSample(r) && VectorSample(f) && NoiseTerm(e2) && ScaledMessage(m)
    requires Dense(w) == Reduce(SmallNoise(CentredVec(s), CentredVec(e), CentredVec(r), CentredVec(f), Dense(e2), Dense(m)))
    ensures Decode(w) == m.Keys
  {
    var S, E, R, F := CentredVec(s), CentredVec(e), CentredVec(r), CentredVec(f);
    var D := ISub(XInner(E, R, K), XInner(S, F, K));
    IAddAssoc(Dense(m), Dense(e2), D);
    NoiseSmall(s, e, r, f, e2);
    DecodeMessage(w, m, IAdd(Dense(e2), D));
  }

  /**
   * With a key matrix whose off-diagonal entries agree modulo Q and every other input
   * drawn as the samplers draw it, decapsulate(encapsulate(keygen)) returns exactly the
   * exponents of the message.
   */
  lemma DecapsulationRecoversMessage(A: Matrix, s: Vec, e: Vec, r: Vec, f: Vec, e2: Poly, m: Poly)
    requires MatrixInRange(A) && VectorSample(s) && VectorSample(e)
    requires VectorSample(r) && VectorSample(f) && NoiseTerm(e2) && ScaledMessage(m)
    requires Dense(A[0][1]) == Dense(A[1][0])
    ensures Decode(RoundTrip(A, s, e, r, f, e2, m)) == m.Keys
  {
    var w := RoundTrip(A, s, e, r, f, e2, m);
    var AA := DenseMat(A);
    var S, E, R, F := CentredVec(s), CentredVec(e), CentredVec(r), CentredVec(f);
    forall i | 0 <= i < K ensures Represents(A[i], AA[i]) {
      DenseRepresents(A[i]);
    }
    CentredRepresents(s);
    CentredRepresents(e);
    CentredRepresents(r);
    CentredRepresents(f);
    NoiseRepresentation(A, s, e, r, f, e2, m, AA, S, E, R, F, Dense(e2), Dense(m));
    CrossFree(AA, S, E, R, F, Dense(e2), Dense(m));
    SmallNoiseDecodes(w, s, e, r, f, e2, m);
  }

  /**
   * With u = A^T r + e1, for every key matrix and every other input drawn as the samplers
   * draw it, decapsulate(encapsulate(keygen)) returns exactly the exponents of the message.
   */
  lemma DecapsulationRecoversMessageTransposed(A: Matrix, s: Vec, e: Vec, r: Vec, f: Vec, e2: Poly, m: Poly)
    requires MatrixInRange(A) && VectorSample(s) && VectorSample(e)
    requires VectorSample(r) && VectorSample(f) && NoiseTerm(e2) && ScaledMessage(m)
    ensures Decode(RoundTripTransposed(A, s, e, r, f, e2, m)) == m.Keys
  {
    var w := RoundTripTransposed(A, s, e, r, f, e2, m);
    var AA := DenseMat(A);
    var S, E, R, F := CentredVec(s), CentredVec(e), CentredVec(r), CentredVec(f);
    forall i | 0 <= i < K ensures Represents(A[i], AA[i]) {
      DenseRepresents(A[i]);
    }
    CentredRepresents(s);
    CentredRepresents(e);
    CentredRepresents(r);
    CentredRepresents(f);
    TransposedNoise(A, s, e, r, f, e2, m, AA, S, E, R, F, Dense(e2), Dense(m));
    SmallNoiseDecodes(w, s, e, r, f, e2, m);
  }

  // ---------------------------------------------------------------------------
  // encapsulate as written: a counterexample
  // ---------------------------------------------------------------------------

  /** The exponents 0 .. n-1. */
  function Range(n: nat): (r: set<int>)
    ensures |r| == n && forall k :: k in r <==> 0 <= k < n
  {
    if n == 0 then {} else Range(n - 1) + {n - 1}
  }

  /** The dense coefficients c at x^0 .. x^(n-1), 0 above. */
  function DenseRun(n: nat, c: int): (x: Coeffs)
    ensures |x| == N
    ensures forall i :: 0 <= i < N ==> x[i] == if i < n then c else 0
  {
    seq(N, i => if i < n then c else 0)
  }

  /** A polynomial of the n terms x^0 .. x^(n-1), all with coefficient c. */
  lemma RunPoly(n: nat, c: int) returns (p: Poly)
    requires n <= N && 0 <= c < Q
    ensures InRange(p) && |p| == n && forall k :: k in p <==> 0 <= k < n
    ensures forall k :: k in p ==> p[k] == c
    ensures Dense(p) == DenseRun(n, c)
  {
    p := map k | k in Range(n) :: c;
    assert p.Keys == Range(n);
    forall i | 0 <= i < N ensures Dense(p)[i] == DenseRun(n, c)[i] {
      assert i in p <==> i in Range(n);
    }
    SameCoeffs(Dense(p), DenseRun(n, c));
  }

  /** Five terms with coefficient 0, a possible output of generate_vector. */
  lemma BlankPoly() returns (p: Poly)
    ensures SmallPoly(p) && Dense(p) == Zero()
  {
    p := RunPoly(5, 0);
    SameCoeffs(DenseRun(5, 0), Zero());
  }

  /** The same with coefficient 1 at x^0. */
  lemma UnitPoly() returns (p: Poly)
    ensures SmallPoly(p) && Dense(p) == Mono(0, 1)
  {
    var blank := RunPoly(5, 0);
    p := blank[0 := 1];
    assert p.Keys == blank.Keys;
    SameCoeffs(Dense(p), Mono(0, 1));
  }

  /** Multiplying by the constant polynomial 1 changes nothing. */
  lemma IMulOne(y: Coeffs)
    requires |y| == N
    ensures IMul(y, Mono(0, 1)) == y
  {
    IMulComm(y, Mono(0, 1));
    forall t | 0 <= t < N ensures IMul(Mono(0, 1), y)[t] == y[t] {
      IMulMonoAt(0, 1, y, t);
    }
    SameCoeffs(IMul(Mono(0, 1), y), y);
  }

  /** Coefficient 8 of 98 (1 + ... + x^8) times (1 + ... + x^8) is 9 * 98 = 882. */
  lemma RunProduct()
    ensures IMul(DenseRun(9, 98), DenseRun(9, 1))[8] == 882
  {
    var x, y := DenseRun(9, 98), DenseRun(9, 1);
    var F := ConvTerm(x, y, 8);
    IMulAt(x, y, 8);
    forall l | 0 <= l < N ensures F(l) == if l < 9 then 98 else 0 {
      RunTerm(l);
    }
    SumSplit(F, 0, 9, N);
    SumConst(F, 0, 9, 98);
    SumZero(F, 9, N);
  }

  /** Summand l of that coefficient: 98 * 1 for l <= 8, 0 above. */
  lemma RunTerm(l: int)
    requires 0 <= l < N
    ensures ConvTerm(DenseRun(9, 98), DenseRun(9, 1), 8)(l) == if l < 9 then 98 else 0
  {
    var x, y := DenseRun(9, 98), DenseRun(9, 1);
    if l < 9 {
      assert Ext(y, 8 - l) == y[8 - l] == 1;
    } else {
      assert x[l] == 0;
    }
  }

  /**
   * There are a key matrix, secrets, noise and a message that the samplers can all produce
   * for which decapsulate(encapsulate(keygen)) as written does not return the message:
   * with A01 = 99 (1 + ... + x^8), the other entries of A 1 + ... + x^8, s = (0, 1 + ... + x^8),
   * r = (1, 0), e = e1 = 0, e2 = 0 and m = 1337 x^100, the cross term (A01 - A10)(s1 r0 - s0 r1)
   * is 882 at x^8, inside the band [832, 2496], so exponent 8 is decoded as a set bit.
   */
  lemma EncapsulateWithoutTranspose()
    ensures exists A, s, e, r, f, e2, m :: Misdecoded(A, s, e, r, f, e2, m)
  {
    var A, s, z, r, e2, m := CexInputs();
  }

  /** The inputs of the counterexample, with the facts the samplers and the decoder give about them. */
  lemma CexInputs() returns (A: Matrix, s: Vec, z: Vec, r: Vec, e2: Poly, m: Poly)
    ensures Misdecoded(A, s, z, r, z, e2, m)
  {
    var one := RunPoly(9, 1);
    var many := RunPoly(9, 99);
    var blank := BlankPoly();
    var unit := UnitPoly();
    A := [[one, many], [one, one]];
    s, z, r := [blank, one], [blank, blank], [unit, blank];
    e2, m := map[0 := 0], map[100 := 1337];
    assert |e2| == 1;
    CexDecodes(A, s, z, r, e2, m);
  }

  /** The decoded exponents of the counterexample include 8, which the message does not. */
  lemma CexDecodes(A: Matrix, s: Vec, z: Vec, r: Vec, e2: Poly, m: Poly)
    requires MatrixSample(A) && VectorSample(s) && VectorSample(z) && VectorSample(r)
    requires NoiseTerm(e2) && ScaledMessage(m)
    requires Dense(A[0][1]) == DenseRun(9, 99) && Dense(A[1][0]) == DenseRun(9, 1)
    requires Dense(s[0]) == Zero() && Dense(s[1]) == DenseRun(9, 1)
    requires Dense(z[0]) == Zero() && Dense(z[1]) == Zero()
    requires Dense(r[0]) == Mono(0, 1) && Dense(r[1]) == Zero()
    requires 8 !in e2 && 8 !in m
    ensures Misdecoded(A, s, z, r, z, e2, m)
  {
    CexDecodesAt(A, s, z, r, e2, m);
  }

  lemma CexDecodesAt(A: Matrix, s: Vec, z: Vec, r: Vec, e2: Poly, m: Poly)
    requires MatrixInRange(A) && VecInRange(s) && VecInRange(z) && VecInRange(r) && InRange(e2) && InRange(m)
    requires Dense(A[0][1]) == DenseRun(9, 99) && Dense(A[1][0]) == DenseRun(9, 1)
    requires Dense(s[0]) == Zero() && Dense(s[1]) == DenseRun(9, 1)
    requires Dense(z[0]) == Zero() && Dense(z[1]) == Zero()
    requires Dense(r[0]) == Mono(0, 1) && Dense(r[1]) == Zero()
    requires 8 !in e2 && 8 !in m
    ensures 8 in Decode(RoundTrip(A, s, z, r, z, e2, m))
  {
    var w := RoundTrip(A, s, z, r, z, e2, m);
    NoiseDecomposition(A, s, z, r, z, e2, m);
    CexNoiseOf(A, s, z, r, e2, m);
    DecodeDense(w, 8);
  }

  lemma CexNoiseOf(A: Matrix, s: Vec, z: Vec, r: Vec, e2: Poly, m: Poly)
    requires |A| == K && |A[0]| == K && |A[1]| == K && |s| == K && |z| == K && |r| == K
    requires Dense(A[0][1]) == DenseRun(9, 99) && Dense(A[1][0]) == DenseRun(9, 1)
    requires Dense(s[0]) == Zero() && Dense(s[1]) == DenseRun(9, 1)
    requires Dense(z[0]) == Zero() && Dense(z[1]) == Zero()
    requires Dense(r[0]) == Mono(0, 1) && Dense(r[1]) == Zero()
    requires 8 !in e2 && 8 !in m
    ensures NoiseOf(DenseMat(A), DenseVec(s), DenseVec(z), DenseVec(r), DenseVec(z), Dense(e2), Dense(m))[8] == 882
  {
    var AA := DenseMat(A);
    assert AA[0] == DenseVec(A[0]) && AA[1] == DenseVec(A[1]);
    CexNoise(AA, DenseVec(s), DenseVec(z), DenseVec(r), Dense(e2), Dense(m));
  }

  /** Inputs the samplers can produce on which the round trip as written loses the message. */
  predicate Misdecoded(A: Matrix, s: Vec, e: Vec, r: Vec, f: Vec, e2: Poly, m: Poly) {
    MatrixSample(A) && VectorSample(s) && VectorSample(e) && VectorSample(r) && VectorSample(f) &&
    NoiseTerm(e2) && ScaledMessage(m) && Decode(RoundTrip(A, s, e, r, f, e2, m)) != m.Keys
  }

  /** The noise expression of the counterexample at x^8. */
  lemma CexNoise(AA: CMat, S: CVec, Z: CVec, R: CVec, E2: Coeffs, M: Coeffs)
    requires MatShaped(AA) && Shaped(S) && Shaped(Z) && Shaped(R) && |E2| == N && |M| == N
    requires AA[0][1] == DenseRun(9, 99) && AA[1][0] == DenseRun(9, 1)
    requires S[0] == Zero() && S[1] == DenseRun(9, 1) && Z[0] == Zero() && Z[1] == Zero()
    requires R[0] == Mono(0, 1) && R[1] == Zero() && E2[8] == 0 && M[8] == 0
    ensures NoiseOf(AA, S, Z, R, Z, E2, M)[8] == 882
  {
    CexSmall(S, Z, R, E2, M);
    CexCross(AA, S, R);
  }

  lemma CexSmall(S: CVec, Z: CVec, R: CVec, E2: Coeffs, M: Coeffs)
    requires Shaped(S) && Shaped(Z) && Shaped(R) && |E2| == N && |M| == N
    requires S[0] == Zero() && Z[0] == Zero() && Z[1] == Zero() && E2[8] == 0 && M[8] == 0
    ensures SmallNoise(S, Z, R, Z, E2, M)[8] == 0
  {
    XInnerAt(Z, R, 8);
    XInnerAt(S, Z, 8);
    IMulZeroAt(R[0], 8);
    IMulZeroAt(R[1], 8);
    IMulZeroAt(Z[0], 8);
    IMulZeroRight(S[1]);
  }

  lemma CexCross(AA: CMat, S: CVec, R: CVec)
    requires MatShaped(AA) && Shaped(S) && Shaped(R)
    requires AA[0][1] == DenseRun(9, 99) && AA[1][0] == DenseRun(9, 1)
    requires S[0] == Zero() && S[1] == DenseRun(9, 1) && R[0] == Mono(0, 1) && R[1] == Zero()
    ensures Cross(AA, S, R)[8] == 882
  {
    IMulOne(S[1]);
    IMulZeroLeft(R[1]);
    SameCoeffs(ISub(IMul(S[1], R[0]), IMul(S[0], R[1])), DenseRun(9, 1));
    SameCoeffs(ISub(AA[0][1], AA[1][0]), DenseRun(9, 98));
    RunProduct();
  }
}
