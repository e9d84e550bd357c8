/**
 * The third script of the KEM, the one that ends in a message-recovery attack. Its ring
 * multiplication reduces the exponent of every product modulo N and negates the value
 * when the exponents wrap; it is proved to build the same dict as the multiplication of
 * the Kyber module, so key generation and encapsulation mean the same t = A s + e and
 * u = A r + e1, v = t . r + e2 + m. Only e2 is drawn differently: one term whose
 * coefficient is taken from [0, bound) for a bound drawn from [100, 3000). The attack
 * reads v directly and rounds each coefficient to the nearest multiple of 1337.
 */
module FinalAttack {
  import opened Params
  import opened Negacyclic
  import opened SparsePoly
  import opened Kyber

  // ---------------------------------------------------------------------------
  // multiply_polynomials, second version
  // ---------------------------------------------------------------------------

  /**
   * The term this version's inner loop computes for the pair (key1, key2): the exponent is
   * (key1 + key2) mod N in every case, and the reduced product of the coefficients is
   * negated when key1 + key2 reaches N. It is the same term as in the Kyber scripts.
   */
  method WrappedTerm(key1: int, value1: int, key2: int, value2: int) returns (newKey: int, newVal: int)
    requires 0 <= key1 < N && 0 <= key2 < N
    ensures newKey == ProductExponent(key1, key2) && 0 <= newVal < Q
    ensures newVal % Q == (ProductSign(key1, key2) * ((value1 % Q) * (value2 % Q))) % Q
  {
    newKey := (key1 + key2) % N;
    newVal := (value1 * value2) % Q;
    ProductCongruent(value1, value2);
    if key1 + key2 >= N {
      NegCongruent(newVal, (value1 % Q) * (value2 % Q));
      newVal := (-newVal) % Q;
    }
  }

  /**
   * multiply_polynomials of this script: the same double loop over the terms of a and b,
   * with the exponent always reduced modulo N. It returns exactly the dict of the other
   * version, so the two multiplications agree everywhere, not only in the dense view.
   */
  method MultiplyWrapped(a: Poly, b: Poly) returns (result: Poly)
    requires InRange(a) && InRange(b)
    ensures result == PolyMul(a, b)
  {
    result := map[];
    ghost var doneA: set<int> := {};
    var restA := a.Keys;
    MulStart(a, b);
    while restA != {}
      invariant restA <= a.Keys && doneA == a.Keys - restA
      invariant Partial(result, Targets(doneA, b.Keys), IMul(DenseOn(a, doneA), Dense(b)))
      decreases restA
    {
      NonEmpty(restA);
      var key1 :| key1 in restA;
      var value1 := a[key1];
      result := WrappedRow(result, key1, value1, b, Targets(doneA, b.Keys), IMul(DenseOn(a, doneA), Dense(b)));
      OuterStep(result, a, b, doneA, key1);
      assert a.Keys - (restA - {key1}) == doneA + {key1};
      doneA := doneA + {key1};
      restA := restA - {key1};
    }
    MulResult(result, a, b);
  }

  /** The inner loop of this version for one term (key1, value1) of a. */
  method WrappedRow(result0: Poly, key1: int, value1: int, b: Poly, ghost keys: set<int>, ghost P: Coeffs)
    returns (result: Poly)
    requires 0 <= key1 < N && InRange(b) && Partial(result0, keys, P)
    ensures Partial(result, keys + Targets({key1}, b.Keys), IAdd(P, IMul(Mono(key1, value1 % Q), Dense(b))))
  {
    result := result0;
    ghost var doneB: set<int> := {};
    var restB := b.Keys;
    InnerStart(result, keys, P, key1, value1 % Q, b);
    while restB != {}
      invariant restB <= b.Keys && doneB == b.Keys - restB
      invariant Partial(result, keys + Targets({key1}, doneB), IAdd(P, IMul(Mono(key1, value1 % Q), DenseOn(b, doneB))))
      decreases restB
    {
      NonEmpty(restB);
      var key2 :| key2 in restB;
      var value2 := b[key2];
      var newKey, newVal := WrappedTerm(key1, value1, key2, value2);
      MulStep(result, keys, P, key1, value1 % Q, b, doneB, key2, newKey, newVal);
      if newKey in result {
        result := result[newKey := (result[newKey] + newVal) % Q];
      } else {
        result := result[newKey := newVal];
      }
      assert b.Keys - (restB - {key2}) == doneB + {key2};
      doneB := doneB + {key2};
      restB := restB - {key2};
    }
    RowEnd(result, keys, P, key1, value1 % Q, b, doneB);
  }

  /** For exponents in [0, N), (key1 + key2) mod N is where x^key1 * x^key2 lands. */
  lemma WrappedExponent(key1: int, key2: int)
    requires 0 <= key1 < N && 0 <= key2 < N
    ensures (key1 + key2) % N == ProductExponent(key1, key2)
    ensures ProductSign(key1, key2) == if key1 + key2 >= N then -1 else 1
  {
  }

  // ---------------------------------------------------------------------------
  // generate_public_key and encapsulate of this script
  // ---------------------------------------------------------------------------

  /** The e2 of this script: one term, coefficient drawn from range(bound), bound from [100, 3000). */
  predicate WideNoiseTerm(e2: Poly, bound: int) {
    InRange(e2) && |e2| == 1 && 100 <= bound < 3000 && forall k :: k in e2 ==> 0 <= e2[k] < bound
  }

  /** The loop of generate_public_key (and of u in encapsulate) with this script's multiplication. */
  method MatrixVectorWrapped(A: Matrix, x: Vec, e: Vec) returns (t: Vec)
    requires MatrixInRange(A) && VecInRange(x) && |e| == K
    ensures t == MatVec(A, x, e)
  {
    t := seq(K, i => map[]);
    for i := 0 to K
      invariant |t| == K
      invariant forall i' :: 0 <= i' < i ==> t[i'] == PolyAdd(RowSum(A[i'], x, K), e[i'])
    {
      var element: Poly := map[];
      for j := 0 to K
        invariant element == RowSum(A[i], x, j)
      {
        var product := MultiplyWrapped(A[i][j], x[j]);
        element := Add(product, element);
      }
      var ti := Add(element, e[i]);
      t := t[i := ti];
    }
  }

  /** The loop that accumulates v = sum_i t[i] * r[i] with this script's multiplication. */
  method InnerProductWrapped(x: Vec, y: Vec) returns (acc: Poly)
    requires VecInRange(x) && VecInRange(y)
    ensures acc == Inner(x, y, K)
  {
    acc := map[];
    for i := 0 to K
      invariant acc == Inner(x, y, i)
    {
      var product := MultiplyWrapped(x[i], y[i]);
      acc := Add(acc, product);
    }
  }

  /** generate_public_key of this script, t = A s + e. */
  method GeneratePublicKeyWrapped(A: Matrix, s: Vec, e: Vec) returns (t: Vec)
    requires MatrixSample(A) && VectorSample(s) && VectorSample(e)
    ensures t == MatVec(A, s, e) && VecInRange(t)
  {
    t := MatrixVectorWrapped(A, s, e);
    MatVecInRange(A, s, e);
  }

  /**
   * encapsulate(A, t, message) of this script with its draws passed in: r and e1 from
   * generate_vector, e2 a single term with coefficient in [0, bound).
   */
  method EncapsulateWrapped(A: Matrix, t: Vec, r: Vec, e1: Vec, e2: Poly, bound: int, message: Poly)
    returns (u: Vec, v: Poly)
    requires MatrixInRange(A) && VecInRange(t)
    requires VectorSample(r) && VectorSample(e1) && WideNoiseTerm(e2, bound)
    ensures u == MatVec(A, r, e1)
    ensures v == PolyAdd(PolyAdd(Inner(t, r, K), e2), message)
  {
    u := MatrixVectorWrapped(A, r, e1);
    v := InnerProductWrapped(t, r);
    v := Add(v, e2);
    v := Add(v, message);
  }

  // ---------------------------------------------------------------------------
  // attack_message
  // ---------------------------------------------------------------------------

  /** The message scale and the acceptance threshold, the defaults of attack_message. */
  const Scale: int := 1337
  const Threshold: int := 100

  function Abs(x: int): int {
    if x < 0 then -x else x
  }

  /**
   * round(c / 1337): the integer nearest to c / 1337. As 1337 is odd, c / 1337 is never
   * halfway between two integers, so no tie-breaking rule is ever used.
   */
  function RoundScaled(c: int): (m: int)
    ensures 2 * Scale * m - Scale < 2 * c < 2 * Scale * m + Scale
  {
    Parity(c, (2 * c + Scale) / (2 * Scale));
    (2 * c + Scale) / (2 * Scale)
  }

  /** An even number is never an odd multiple of 1337 away from an even one. */
  lemma Parity(c: int, m: int)
    ensures 2 * c != 2 * Scale * m - Scale && 2 * c != 2 * Scale * m + Scale
  {
  }

  /** Only one integer lies less than one half from c / 1337. */
  lemma RoundUnique(c: int, m: int)
    requires 2 * Scale * m - Scale < 2 * c < 2 * Scale * m + Scale
    ensures RoundScaled(c) == m
  {
  }

  /** The value attack_message stores for coefficient c: the multiple when c is within 100 of it, else 0. */
  function AttackValue(c: int): int {
    var multiple := RoundScaled(c);
    if Abs(c - multiple * Scale) < Threshold then multiple else 0
  }

  /** The dict attack_message returns: every exponent of v, with its decoded value. */
  function AttackOf(v: Poly): (r: Poly)
    ensures r.Keys == v.Keys
  {
    map k | k in v :: AttackValue(v[k])
  }

  /**
   * attack_message(v): for every term of v, round the coefficient to the nearest multiple
   * of 1337 and keep the multiple if the coefficient is within 100 of it, 0 otherwise.
   */
  method AttackMessage(v: Poly) returns (recovered: Poly)
    ensures recovered.Keys == v.Keys
    ensures forall k :: k in v ==> recovered[k] == AttackValue(v[k])
  {
    recovered := map[];
    var rest := v.Keys;
    while rest != {}
      invariant rest <= v.Keys
      invariant recovered.Keys == v.Keys - rest
      invariant forall k :: k in recovered ==> recovered[k] == AttackValue(v[k])
      decreases rest
    {
      NonEmpty(rest);
      var key :| key in rest;
      var coeff := v[key];
      var multiple := (2 * coeff + Scale) / (2 * Scale);
      var estimated := multiple * Scale;
      if Abs(coeff - estimated) < Threshold {
        recovered := recovered[key := multiple];
      } else {
        recovered := recovered[key := 0];
      }
      rest := rest - {key};
    }
  }

  /**
   * A coefficient within 99 of b * 1337 decodes to b: the attack reads a bit b scaled by
   * 1337 through any noise of absolute value below 100.
   */
  lemma AttackValueNear(c: int, b: int)
    requires Abs(c - b * Scale) < Threshold
    ensures AttackValue(c) == b
  {
    RoundUnique(c, b);
  }

  /** A non-zero decoded value b means the coefficient was within 99 of b * 1337. */
  lemma AttackValueSound(c: int)
    requires AttackValue(c) != 0
    ensures Abs(c - AttackValue(c) * Scale) < Threshold
  {
  }

  /** On reduced coefficients, in [0, Q), the decoded value is 0, 1 or 2. */
  lemma AttackValueRange(c: int)
    requires 0 <= c < Q
    ensures 0 <= AttackValue(c) <= 2
  {
  }

  /** For a v with reduced coefficients every decoded value is 0, 1 or 2. */
  lemma AttackOfRange(v: Poly)
    requires ReducedValues(v)
    ensures forall k :: k in AttackOf(v) ==> 0 <= AttackOf(v)[k] <= 2
  {
    forall k | k in AttackOf(v) ensures 0 <= AttackOf(v)[k] <= 2 {
      AttackValueRange(v[k]);
    }
  }

  /** The coefficient 1337 of a set message bit, read with no noise, decodes to 1. */
  lemma AttackScaledBit()
    ensures AttackValue(Scale) == 1 && AttackValue(0) == 0
  {
    AttackValueNear(Scale, 1);
    AttackValueNear(0, 0);
  }
}
