/**
 * Sparse polynomials as the scripts store them: a dict from exponent to coefficient,
 * modelled as a map. An absent exponent has coefficient 0. The three ring operations
 * are the scripts' dict loops; each is proved equal to a map-valued specification, and
 * that specification is proved to mean the ring operation of Z_Q[x]/(x^N + 1) on the
 * dense coefficient vector.
 */
module SparsePoly {
  import opened Params
  import opened Sums
  import opened Negacyclic

  type Poly = map<int, int>

  /** Every exponent lies in [0, N), the range the samplers draw from. */
  predicate InRange(p: Poly) {
    forall k :: k in p ==> 0 <= k < N
  }

  /** Every stored coefficient is reduced into [0, Q). */
  predicate ReducedValues(p: Poly) {
    forall k :: k in p ==> 0 <= p[k] < Q
  }

  predicate Valid(p: Poly) {
    InRange(p) && ReducedValues(p)
  }

  /** The dense coefficients of the terms of p whose exponents are in S. */
  function DenseOn(p: Poly, S: set<int>): (r: Coeffs)
    ensures |r| == N
    ensures forall i :: 0 <= i < N ==> r[i] == if i in p && i in S then p[i] % Q else 0
  {
    seq(N, i => if i in p && i in S then p[i] % Q else 0)
  }

  /** The dense coefficient vector of p: coefficient i reduced modulo Q, 0 when absent. */
  function Dense(p: Poly): (r: Coeffs)
    ensures |r| == N
    ensures forall i :: 0 <= i < N ==> r[i] == if i in p then p[i] % Q else 0
  {
    seq(N, i => if i in p then p[i] % Q else 0)
  }

  lemma DenseOnAll(p: Poly)
    ensures DenseOn(p, p.Keys) == Dense(p)
  {
  }

  lemma DenseOnEmpty(p: Poly)
    ensures DenseOn(p, {}) == Zero()
  {
  }

  /** Taking one more term of p in adds its monomial. */
  lemma DenseOnStep(p: Poly, S: set<int>, k: int)
    requires k in p && 0 <= k < N && k !in S
    ensures DenseOn(p, S + {k}) == IAdd(DenseOn(p, S), Mono(k, p[k] % Q))
  {
  }

  /** On a reduced polynomial the dense view reads the stored coefficient back. */
  lemma DenseReads(p: Poly, i: int)
    requires ReducedValues(p) && i in p && 0 <= i < N
    ensures Dense(p)[i] == p[i]
  {
  }

  /** A non-empty set has an element: the loops over a dict's keys pick the next one. */
  lemma NonEmpty(s: set<int>)
    requires s != {}
    ensures exists x :: x in s
  {
    if forall x :: x !in s {
      assert false;
    }
  }

  // ---------------------------------------------------------------------------
  // add_polynomials
  // ---------------------------------------------------------------------------

  /** The copy of a after the terms of b with exponents in S have been added in. */
  function AddOn(a: Poly, b: Poly, S: set<int>): Poly {
    map k | k in a.Keys + (S * b.Keys) ::
      if k in S && k in b then (if k in a then (a[k] + b[k]) % Q else b[k] % Q) else a[k]
  }

  /** The result of add_polynomials(a, b). */
  function PolyAdd(a: Poly, b: Poly): Poly {
    AddOn(a, b, b.Keys)
  }

  /**
   * add_polynomials: copy a, then fold every term of b in, reducing each touched
   * coefficient modulo Q. The map a itself is a value and stays as it was.
   */
  method Add(a: Poly, b: Poly) returns (result: Poly)
    ensures result == PolyAdd(a, b)
    ensures result.Keys == a.Keys + b.Keys
    ensures forall k :: k in a && k !in b ==> result[k] == a[k]
    ensures forall k :: k in a && k in b ==> result[k] == (a[k] + b[k]) % Q
    ensures forall k :: k !in a && k in b ==> result[k] == b[k] % Q
  {
    result := a;
    var rest := b.Keys;
    while rest != {}
      invariant rest <= b.Keys
      invariant result == AddOn(a, b, b.Keys - rest)
      decreases rest
    {
      NonEmpty(rest);
      var key :| key in rest;
      var value := b[key];
      AddOnStep(a, b, b.Keys - rest, key);
      if key in result {
        result := result[key := (result[key] + value) % Q];
      } else {
        result := result[key := value % Q];
      }
      assert b.Keys - (rest - {key}) == (b.Keys - rest) + {key};
      rest := rest - {key};
    }
  }

  /** Folding one more term of b into the copy of a updates exactly that exponent. */
  lemma AddOnStep(a: Poly, b: Poly, S: set<int>, key: int)
    requires key in b && key !in S
    ensures key in AddOn(a, b, S) <==> key in a
    ensures key in AddOn(a, b, S) ==> AddOn(a, b, S)[key] == a[key]
    ensures AddOn(a, b, S + {key})
         == AddOn(a, b, S)[key := if key in a then (a[key] + b[key]) % Q else b[key] % Q]
  {
  }

  /** In the dense view add_polynomials is addition in the ring. */
  lemma PolyAddDense(a: Poly, b: Poly)
    ensures Dense(PolyAdd(a, b)) == DAdd(Dense(a), Dense(b))
  {
    forall i | 0 <= i < N ensures Dense(PolyAdd(a, b))[i] == DAdd(Dense(a), Dense(b))[i] {
      PolyAddDenseAt(a, b, i);
    }
  }

  lemma PolyAddDenseAt(a: Poly, b: Poly, i: int)
    requires 0 <= i < N
    ensures Dense(PolyAdd(a, b))[i] == (Dense(a)[i] + Dense(b)[i]) % Q
  {
    var x, y := if i in a then a[i] else 0, if i in b then b[i] else 0;
    CongruentAdd(x, x % Q, y, y % Q);
  }

  /** Adding the empty polynomial returns a unchanged. */
  lemma PolyAddEmpty(a: Poly)
    ensures PolyAdd(a, map[]) == a
  {
  }

  /** Sums of polynomials with exponents in range, and with reduced coefficients, stay so. */
  lemma PolyAddValid(a: Poly, b: Poly)
    ensures InRange(a) && InRange(b) ==> InRange(PolyAdd(a, b))
    ensures ReducedValues(a) ==> ReducedValues(PolyAdd(a, b))
  {
  }

  // ---------------------------------------------------------------------------
  // sub_polynomials
  // ---------------------------------------------------------------------------

  /** The copy of a after the terms of b with exponents in S have been subtracted. */
  function SubOn(a: Poly, b: Poly, S: set<int>): Poly {
    map k | k in a.Keys + (S * b.Keys) ::
      if k in S && k in b then (if k in a then (Q + a[k] - b[k]) % Q else (Q - b[k]) % Q) else a[k]
  }

  /** The result of sub_polynomials(a, b). */
  function PolySub(a: Poly, b: Poly): Poly {
    SubOn(a, b, b.Keys)
  }

  /** sub_polynomials: copy a, then subtract every term of b modulo Q. */
  method Sub(a: Poly, b: Poly) returns (result: Poly)
    ensures result == PolySub(a, b)
    ensures result.Keys == a.Keys + b.Keys
    ensures forall k :: k in a && k !in b ==> result[k] == a[k]
    ensures forall k :: k in b ==> result[k] == (Q + (if k in a then a[k] else 0) - b[k]) % Q
  {
    result := a;
    var rest := b.Keys;
    while rest != {}
      invariant rest <= b.Keys
      invariant result == SubOn(a, b, b.Keys - rest)
      decreases rest
    {
      NonEmpty(rest);
      var key :| key in rest;
      SubOnStep(a, b, b.Keys - rest, key);
      if key in result {
        result := result[key := (Q + result[key] - b[key]) % Q];
      } else {
        result := result[key := (Q - b[key]) % Q];
      }
      assert b.Keys - (rest - {key}) == (b.Keys - rest) + {key};
      rest := rest - {key};
    }
  }

  /** Subtracting one more term of b from the copy of a updates exactly that exponent. */
  lemma SubOnStep(a: Poly, b: Poly, S: set<int>, key: int)
    requires key in b && key !in S
    ensures key in SubOn(a, b, S) <==> key in a
    ensures key in SubOn(a, b, S) ==> SubOn(a, b, S)[key] == a[key]
    ensures SubOn(a, b, S + {key})
         == SubOn(a, b, S)[key := if key in a then (Q + a[key] - b[key]) % Q else (Q - b[key]) % Q]
  {
  }

  /** In the dense view sub_polynomials is subtraction in the ring. */
  lemma PolySubDense(a: Poly, b: Poly)
    ensures Dense(PolySub(a, b)) == DSub(Dense(a), Dense(b))
  {
    forall i | 0 <= i < N ensures Dense(PolySub(a, b))[i] == DSub(Dense(a), Dense(b))[i] {
      PolySubDenseAt(a, b, i);
    }
  }

  lemma PolySubDenseAt(a: Poly, b: Poly, i: int)
    requires 0 <= i < N
    ensures Dense(PolySub(a, b))[i] == (Dense(a)[i] - Dense(b)[i]) % Q
  {
    var x, y := if i in a then a[i] else 0, if i in b then b[i] else 0;
    CongruentAdd(Q + x, x % Q, -y, -(y % Q));
    if i in b {
      var d := (Q + x - y) % Q;
      assert PolySub(a, b)[i] == d && d % Q == d;
    }
  }

  /** a - a has every exponent of a, each with coefficient 0: zero in the dense view. */
  lemma PolySubSelf(a: Poly)
    ensures PolySub(a, a) == map k | k in a :: 0
    ensures Dense(PolySub(a, a)) == Zero()
  {
  }

  lemma PolySubValid(a: Poly, b: Poly)
    ensures InRange(a) && InRange(b) ==> InRange(PolySub(a, b))
    ensures ReducedValues(a) ==> ReducedValues(PolySub(a, b))
  {
  }

  // ---------------------------------------------------------------------------
  // multiply_polynomials
  // ---------------------------------------------------------------------------

  /** The exponents that x^k1 * x^k2 lands on, for k1 in A and k2 in B. */
  function Targets(A: set<int>, B: set<int>): set<int> {
    set k1, k2 | k1 in A && k2 in B :: ProductExponent(k1, k2)
  }

  lemma TargetsInRange(a: Poly, b: Poly)
    requires InRange(a) && InRange(b)
    ensures forall t :: t in Targets(a.Keys, b.Keys) ==> 0 <= t < N
  {
  }

  /**
   * The result of multiply_polynomials(a, b): one entry for every exponent that some
   * pair of terms lands on, holding the coefficient of the ring product there.
   */
  function PolyMul(a: Poly, b: Poly): (r: Poly)
    requires InRange(a) && InRange(b)
    ensures Valid(r)
    ensures r.Keys == Targets(a.Keys, b.Keys)
  {
    var P := DMul(Dense(a), Dense(b));
    TargetsInRange(a, b);
    map t | t in Targets(a.Keys, b.Keys) :: P[t]
  }

  /** Adding new_val into the result dict at new_key, as the inner loop does. */
  function Accumulate(result: Poly, newKey: int, newVal: int): Poly {
    if newKey in result then result[newKey := (result[newKey] + newVal) % Q]
    else result[newKey := newVal]
  }

  /**
   * multiply_polynomials: for every pair of terms, the product of the coefficients lands
   * on the sum of the exponents; from N on, x^N = -1 moves it N down and negates it.
   */
  method Multiply(a: Poly, b: Poly) returns (result: Poly)
    requires InRange(a) && InRange(b)
    ensures result == PolyMul(a, b)
  {
    result := map[];
    ghost var doneA: set<int> := {};
    var restA := a.Keys;
    MulStart(a, b);
    while restA != {}
      invariant restA <= a.Keys && doneA == a.Keys - restA
      invariant Partial(result, Targets(doneA, b.Keys), IMul(DenseOn(a, doneA), Dense(b)))
      decreases restA
    {
      NonEmpty(restA);
      var key1 :| key1 in restA;
      var value1 := a[key1];
      result := MulRow(result, key1, value1, b, Targets(doneA, b.Keys), IMul(DenseOn(a, doneA), Dense(b)));
      OuterStep(result, a, b, doneA, key1);
      assert a.Keys - (restA - {key1}) == doneA + {key1};
      doneA := doneA + {key1};
      restA := restA - {key1};
    }
    MulResult(result, a, b);
  }

  /**
   * The inner loop of multiply_polynomials for one term (key1, value1) of a: every term of
   * b is multiplied by it and added into result. If result reduces the dense vector P, it
   * ends up reducing P + x^key1 * value1 * b, with the targets of the new pairs added.
   */
  method MulRow(result0: Poly, key1: int, value1: int, b: Poly, ghost keys: set<int>, ghost P: Coeffs)
    returns (result: Poly)
    requires 0 <= key1 < N && InRange(b) && Partial(result0, keys, P)
    ensures Partial(result, keys + Targets({key1}, b.Keys), IAdd(P, IMul(Mono(key1, value1 % Q), Dense(b))))
  {
    result := result0;
    ghost var doneB: set<int> := {};
    var restB := b.Keys;
    InnerStart(result, keys, P, key1, value1 % Q, b);
    while restB != {}
      invariant restB <= b.Keys && doneB == b.Keys - restB
      invariant Partial(result, keys + Targets({key1}, doneB), IAdd(P, IMul(Mono(key1, value1 % Q), DenseOn(b, doneB))))
      decreases restB
    {
      NonEmpty(restB);
      var key2 :| key2 in restB;
      var value2 := b[key2];
      var newKey, newVal := TermProduct(key1, value1, key2, value2);
      MulStep(result, keys, P, key1, value1 % Q, b, doneB, key2, newKey, newVal);
      if newKey in result {
        result := result[newKey := (result[newKey] + newVal) % Q];
      } else {
        result := result[newKey := newVal];
      }
      assert b.Keys - (restB - {key2}) == doneB + {key2};
      doneB := doneB + {key2};
      restB := restB - {key2};
    }
    RowEnd(result, keys, P, key1, value1 % Q, b, doneB);
  }

  /** The loop state: result is valid, has exactly the given exponents, and reduces acc. */
  ghost predicate Partial(result: Poly, keys: set<int>, acc: Coeffs) {
    Valid(result) && result.Keys == keys && |acc| == N && forall t :: 0 <= t < N ==> Agrees(result, acc, t)
  }

  /** Dense coefficient t of result is acc[t] reduced modulo Q. */
  ghost predicate Agrees(result: Poly, acc: Coeffs, t: int)
    requires |acc| == N && 0 <= t < N
  {
    Dense(result)[t] == acc[t] % Q
  }

  /**
   * The term the inner loop of multiply_polynomials computes for the pair (key1, key2):
   * its exponent is where x^key1 * x^key2 lands, and its value is the reduced product of
   * the coefficients, negated when the exponents wrap past N (x^N = -1).
   */
  method TermProduct(key1: int, value1: int, key2: int, value2: int) returns (newKey: int, newVal: int)
    requires 0 <= key1 < N && 0 <= key2 < N
    ensures newKey == ProductExponent(key1, key2) && 0 <= newVal < Q
    ensures newVal % Q == (ProductSign(key1, key2) * ((value1 % Q) * (value2 % Q))) % Q
  {
    newKey := key1 + key2;
    newVal := (value1 * value2) % Q;
    ProductCongruent(value1, value2);
    if newKey >= N {
      newKey := newKey % N;
      NegCongruent(newVal, (value1 % Q) * (value2 % Q));
      newVal := (-newVal) % Q;
    }
  }

  lemma ProductCongruent(v1: int, v2: int)
    ensures (v1 * v2) % Q == ((v1 % Q) * (v2 % Q)) % Q
  {
    MulCongruent(v1, v1 % Q, v2);
    MulCongruent(v2, v2 % Q, v1 % Q);
  }

  lemma NegCongruent(x: int, y: int)
    requires x % Q == y % Q
    ensures (-x) % Q == (-y) % Q
  {
    CongruentAdd(0, 0, -x, -y) by {
      var d := x / Q - y / Q;
      assert -x == -y + Q * (-d);
    }
  }

  lemma MulStart(a: Poly, b: Poly)
    ensures Partial(map[], Targets({}, b.Keys), IMul(DenseOn(a, {}), Dense(b)))
  {
    DenseOnEmpty(a);
    IMulZeroLeft(Dense(b));
    assert Targets({}, b.Keys) == {};
    var acc := IMul(DenseOn(a, {}), Dense(b));
    forall t | 0 <= t < N ensures Agrees(map[], acc, t) {
      assert acc[t] == 0;
    }
  }

  lemma InnerStart(result: Poly, keys: set<int>, P: Coeffs, key1: int, c1: int, b: Poly)
    requires 0 <= key1 < N && Partial(result, keys, P)
    ensures Partial(result, keys + Targets({key1}, {}), IAdd(P, IMul(Mono(key1, c1), DenseOn(b, {}))))
  {
    DenseOnEmpty(b);
    IMulZeroRight(Mono(key1, c1));
    assert IAdd(P, Zero()) == P;
    assert Targets({key1}, {}) == {};
  }

  /** One pass of the inner loop: the pair (key1, key2) is added into the result. */
  lemma MulStep(result: Poly, keys: set<int>, P: Coeffs, key1: int, c1: int, b: Poly, doneB: set<int>,
                key2: int, newKey: int, newVal: int)
    requires 0 <= key1 < N && InRange(b) && key2 in b && key2 !in doneB && |P| == N
    requires Partial(result, keys + Targets({key1}, doneB), IAdd(P, IMul(Mono(key1, c1), DenseOn(b, doneB))))
    requires newKey == ProductExponent(key1, key2)
    requires 0 <= newVal < Q && newVal % Q == (ProductSign(key1, key2) * (c1 * (b[key2] % Q))) % Q
    ensures newKey in result ==> Partial(result[newKey := (result[newKey] + newVal) % Q],
      keys + Targets({key1}, doneB + {key2}), IAdd(P, IMul(Mono(key1, c1), DenseOn(b, doneB + {key2}))))
    ensures newKey !in result ==> Partial(result[newKey := newVal],
      keys + Targets({key1}, doneB + {key2}), IAdd(P, IMul(Mono(key1, c1), DenseOn(b, doneB + {key2}))))
  {
    var acc, acc' := IAdd(P, IMul(Mono(key1, c1), DenseOn(b, doneB))), IAdd(P, IMul(Mono(key1, c1), DenseOn(b, doneB + {key2})));
    RowAccStep(P, key1, c1, b, doneB, key2);
    AccumulateAgrees(result, newKey, newVal, acc, acc', ProductSign(key1, key2) * (c1 * (b[key2] % Q)));
    TargetsStep(key1, doneB, key2);
    if newKey in result {
      assert Accumulate(result, newKey, newVal) == result[newKey := (result[newKey] + newVal) % Q];
    } else {
      assert Accumulate(result, newKey, newVal) == result[newKey := newVal];
    }
  }

  /** In the dense view, one more term of b adds the monomial x^key1 * x^key2 to the accumulator. */
  lemma RowAccStep(P: Coeffs, key1: int, c1: int, b: Poly, doneB: set<int>, key2: int)
    requires 0 <= key1 < N && InRange(b) && key2 in b && key2 !in doneB && |P| == N
    ensures forall t :: 0 <= t < N ==>
      IAdd(P, IMul(Mono(key1, c1), DenseOn(b, doneB + {key2})))[t]
        == IAdd(P, IMul(Mono(key1, c1), DenseOn(b, doneB)))[t]
           + (if t == ProductExponent(key1, key2) then ProductSign(key1, key2) * (c1 * (b[key2] % Q)) else 0)
  {
    var M1, Y, M2 := Mono(key1, c1), DenseOn(b, doneB), Mono(key2, b[key2] % Q);
    var v := ProductSign(key1, key2) * (c1 * (b[key2] % Q));
    DenseOnStep(b, doneB, key2);
    IMulAddRight(M1, Y, M2);
    IMulMono(key1, c1, key2, b[key2] % Q);
    forall t | 0 <= t < N
      ensures IAdd(P, IMul(M1, DenseOn(b, doneB + {key2})))[t] == IAdd(P, IMul(M1, Y))[t] + Mono(ProductExponent(key1, key2), v)[t]
    {
      AccStepAt(P, IMul(M1, Y), Mono(ProductExponent(key1, key2), v), t);
    }
  }

  lemma AccStepAt(P: Coeffs, X: Coeffs, M: Coeffs, t: int)
    requires |P| == N && |X| == N && |M| == N && 0 <= t < N
    ensures IAdd(P, IAdd(X, M))[t] == IAdd(P, X)[t] + M[t]
  {
  }

  /** Adding new_val at new_key adds the same amount, modulo Q, to that one dense coefficient. */
  lemma AccumulateAgrees(result: Poly, newKey: int, newVal: int, acc: Coeffs, acc': Coeffs, v: int)
    requires Partial(result, result.Keys, acc) && |acc'| == N
    requires 0 <= newKey < N && 0 <= newVal < Q && newVal % Q == v % Q
    requires forall t :: 0 <= t < N ==> acc'[t] == acc[t] + (if t == newKey then v else 0)
    ensures Partial(Accumulate(result, newKey, newVal), result.Keys + {newKey}, acc')
  {
    var r := Accumulate(result, newKey, newVal);
    forall t | 0 <= t < N ensures Agrees(r, acc', t) {
      assert Agrees(result, acc, t);
      if t == newKey {
        CongruentAdd(if t in result then result[t] else 0, acc[t], newVal, v);
      } else {
        assert Dense(r)[t] == Dense(result)[t];
      }
    }
  }

  /** Pairing key1 with one more exponent key2 adds exactly its target. */
  lemma TargetsStep(key1: int, B: set<int>, key2: int)
    ensures Targets({key1}, B + {key2}) == Targets({key1}, B) + {ProductExponent(key1, key2)}
  {
    var L, R := Targets({key1}, B + {key2}), Targets({key1}, B) + {ProductExponent(key1, key2)};
    forall t | t in L ensures t in R {
      var k1, k2 :| k1 in {key1} && k2 in B + {key2} && t == ProductExponent(k1, k2);
      if k2 != key2 {
        assert t in Targets({key1}, B);
      }
    }
    forall t | t in R ensures t in L {
      if t != ProductExponent(key1, key2) {
        var k1, k2 :| k1 in {key1} && k2 in B && t == ProductExponent(k1, k2);
        assert k2 in B + {key2};
      }
    }
  }

  /** Pairing one more exponent key1 of a with all of b. */
  lemma TargetsSplit(A: set<int>, key1: int, B: set<int>)
    ensures Targets(A + {key1}, B) == Targets(A, B) + Targets({key1}, B)
  {
    var L, R := Targets(A + {key1}, B), Targets(A, B) + Targets({key1}, B);
    forall t | t in L ensures t in R {
      var k1, k2 :| k1 in A + {key1} && k2 in B && t == ProductExponent(k1, k2);
      if k1 == key1 {
        assert t in Targets({key1}, B);
      } else {
        assert t in Targets(A, B);
      }
    }
    forall t | t in R ensures t in L {
      if t in Targets(A, B) {
        var k1, k2 :| k1 in A && k2 in B && t == ProductExponent(k1, k2);
        assert k1 in A + {key1};
      } else {
        var k1, k2 :| k1 in {key1} && k2 in B && t == ProductExponent(k1, k2);
        assert k1 in A + {key1};
      }
    }
  }

  /** Once key1 has met every term of b, it counts as a finished term of a. */
  lemma RowEnd(result: Poly, keys: set<int>, P: Coeffs, key1: int, c1: int, b: Poly, doneB: set<int>)
    requires 0 <= key1 < N && doneB == b.Keys - {} && |P| == N
    requires Partial(result, keys + Targets({key1}, doneB), IAdd(P, IMul(Mono(key1, c1), DenseOn(b, doneB))))
    ensures Partial(result, keys + Targets({key1}, b.Keys), IAdd(P, IMul(Mono(key1, c1), Dense(b))))
  {
    assert doneB == b.Keys;
    DenseOnAll(b);
  }

  lemma OuterStep(result: Poly, a: Poly, b: Poly, doneA: set<int>, key1: int)
    requires InRange(a) && key1 in a && key1 !in doneA
    requires Partial(result, Targets(doneA, b.Keys) + Targets({key1}, b.Keys),
                     IAdd(IMul(DenseOn(a, doneA), Dense(b)), IMul(Mono(key1, a[key1] % Q), Dense(b))))
    ensures Partial(result, Targets(doneA + {key1}, b.Keys), IMul(DenseOn(a, doneA + {key1}), Dense(b)))
  {
    DenseOnStep(a, doneA, key1);
    IMulAddLeft(DenseOn(a, doneA), Mono(key1, a[key1] % Q), Dense(b));
    TargetsSplit(doneA, key1, b.Keys);
  }

/** After both loops the result is the specified product. */
  lemma MulResult(result: Poly, a: Poly, b: Poly)
    requires InRange(a) && InRange(b)
    requires Partial(result, Targets(a.Keys - {}, b.Keys), IMul(DenseOn(a, a.Keys - {}), Dense(b)))
    ensures result == PolyMul(a, b)
  {
    assert a.Keys - {} == a.Keys;
    DenseOnAll(a);
    TargetsInRange(a, b);
    forall t | t in result ensures result[t] == PolyMul(a, b)[t] {
      DenseReads(result, t);
      assert Agrees(result, IMul(DenseOn(a, a.Keys - {}), Dense(b)), t);
    }
  }

  // ---------------------------------------------------------------------------
  // What multiply_polynomials computes
  // ---------------------------------------------------------------------------

  /** The pair (k1, k2) of exponents of a and b lands on one of the targets. */
  lemma TargetOf(a: Poly, b: Poly, k1: int, k2: int)
    requires k1 in a && k2 in b
    ensures ProductExponent(k1, k2) in Targets(a.Keys, b.Keys)
  {
  }

  /** The ring product can only be non-zero at an exponent some pair of terms lands on. */
  lemma MulSupport(a: Poly, b: Poly, t: int)
    requires InRange(a) && InRange(b) && 0 <= t < N
    ensures IMul(Dense(a), Dense(b))[t] != 0 ==> t in Targets(a.Keys, b.Keys)
  {
    var x, y := Dense(a), Dense(b);
    var F := ConvTerm(x, y, t);
    IMulAt(x, y, t);
    if forall l :: 0 <= l < N ==> F(l) == 0 {
      SumZero(F, 0, N);
    } else {
      var l :| 0 <= l < N && F(l) != 0;
      ConvTermAt(x, y, t, l);
      assert l in a;
      if t - l >= 0 {
        var m := t - l;
        assert y[m] != 0;
        TargetOf(a, b, l, m);
      } else {
        var m := t - l + N;
        assert Ext(y, t - l) == -y[m];
        TargetOf(a, b, l, m);
      }
    }
  }

  lemma PolyMulDenseAt(a: Poly, b: Poly, t: int)
    requires InRange(a) && InRange(b) && 0 <= t < N
    ensures Dense(PolyMul(a, b))[t] == DMul(Dense(a), Dense(b))[t]
  {
    MulSupport(a, b, t);
  }

  /** In the dense view multiply_polynomials is multiplication in Z_Q[x]/(x^N + 1). */
  lemma PolyMulDense(a: Poly, b: Poly)
    requires InRange(a) && InRange(b)
    ensures Dense(PolyMul(a, b)) == DMul(Dense(a), Dense(b))
  {
    forall t | 0 <= t < N ensures Dense(PolyMul(a, b))[t] == DMul(Dense(a), Dense(b))[t] {
      PolyMulDenseAt(a, b, t);
    }
  }

  /** x^k1 * x^k2 lands on the same exponent as x^k2 * x^k1. */
  lemma TargetsComm(A: set<int>, B: set<int>)
    ensures Targets(A, B) == Targets(B, A)
  {
    forall t | t in Targets(A, B) ensures t in Targets(B, A) {
      var k1, k2 :| k1 in A && k2 in B && t == ProductExponent(k1, k2);
      assert ProductExponent(k2, k1) == t;
    }
    forall t | t in Targets(B, A) ensures t in Targets(A, B) {
      var k2, k1 :| k2 in B && k1 in A && t == ProductExponent(k2, k1);
      assert ProductExponent(k1, k2) == t;
    }
  }

  /** multiply_polynomials(a, b) and multiply_polynomials(b, a) build the same dict. */
  lemma PolyMulComm(a: Poly, b: Poly)
    requires InRange(a) && InRange(b)
    ensures PolyMul(a, b) == PolyMul(b, a)
  {
    TargetsComm(a.Keys, b.Keys);
    DMulComm(Dense(a), Dense(b));
  }

  /** In the dense view multiplication distributes over add_polynomials. */
  lemma PolyMulAddDense(a: Poly, b: Poly, c: Poly)
    requires InRange(a) && InRange(b) && InRange(c)
    ensures InRange(PolyAdd(a, b))
    ensures Dense(PolyMul(PolyAdd(a, b), c)) == Dense(PolyAdd(PolyMul(a, c), PolyMul(b, c)))
  {
    PolyAddValid(a, b);
    PolyMulDense(PolyAdd(a, b), c);
    PolyAddDense(a, b);
    DMulAddLeft(Dense(a), Dense(b), Dense(c));
    PolyMulDense(a, c);
    PolyMulDense(b, c);
    PolyAddDense(PolyMul(a, c), PolyMul(b, c));
  }

  /** In the dense view multiply_polynomials is associative. */
  lemma PolyMulAssocDense(a: Poly, b: Poly, c: Poly)
    requires InRange(a) && InRange(b) && InRange(c)
    ensures Dense(PolyMul(PolyMul(a, b), c)) == Dense(PolyMul(a, PolyMul(b, c)))
  {
    PolyMulDense(PolyMul(a, b), c);
    PolyMulDense(a, b);
    PolyMulDense(a, PolyMul(b, c));
    PolyMulDense(b, c);
    DMulAssoc(Dense(a), Dense(b), Dense(c));
  }

  /** sub_polynomials undoes add_polynomials in the dense view. */
  lemma PolyAddSubCancel(a: Poly, b: Poly)
    ensures Dense(PolyAdd(PolySub(a, b), b)) == Dense(a)
  {
    PolyAddDense(PolySub(a, b), b);
    PolySubDense(a, b);
    DAddSubCancel(Dense(a), Dense(b));
    ReduceReduced(Dense(a));
  }

  /** Congruent dense inputs give congruent results: the exact-integer view of the operations. */
  lemma PolyAddCongruent(a: Poly, b: Poly, x: Coeffs, y: Coeffs)
    requires Congruent(Dense(a), x) && Congruent(Dense(b), y)
    ensures Congruent(Dense(PolyAdd(a, b)), IAdd(x, y))
  {
    PolyAddDense(a, b);
    ReduceCongruent(IAdd(Dense(a), Dense(b)));
    IAddCongruent(Dense(a), x, Dense(b), y);
    CongruentTrans(Dense(PolyAdd(a, b)), IAdd(Dense(a), Dense(b)), IAdd(x, y));
  }

  lemma PolySubCongruent(a: Poly, b: Poly, x: Coeffs, y: Coeffs)
    requires Congruent(Dense(a), x) && Congruent(Dense(b), y)
    ensures Congruent(Dense(PolySub(a, b)), ISub(x, y))
  {
    PolySubDense(a, b);
    ReduceCongruent(ISub(Dense(a), Dense(b)));
    ISubCongruent(Dense(a), x, Dense(b), y);
    CongruentTrans(Dense(PolySub(a, b)), ISub(Dense(a), Dense(b)), ISub(x, y));
  }

  lemma PolyMulCongruent(a: Poly, b: Poly, x: Coeffs, y: Coeffs)
    requires InRange(a) && InRange(b) && Congruent(Dense(a), x) && Congruent(Dense(b), y)
    ensures Congruent(Dense(PolyMul(a, b)), IMul(x, y))
  {
    PolyMulDense(a, b);
    DMulCongruent(Dense(a), Dense(b));
    IMulCongruent(Dense(a), x, Dense(b), y);
    CongruentTrans(Dense(PolyMul(a, b)), IMul(Dense(a), Dense(b)), IMul(x, y));
  }

  /** A single term: the dense view of {k: c} is the monomial c mod Q times x^k. */
  lemma DenseSingle(k: int, c: int)
    requires 0 <= k < N
    ensures Dense(map[k := c]) == Mono(k, c % Q)
  {
  }

  /** 3x^5 * 4x^254 = 12x^259 = -12x^3, stored as Q - 12. */
  lemma PolyMulWrapExample()
    ensures PolyMul(map[5 := 3], map[N - 2 := 4]) == map[3 := Q - 12]
  {
    var a, b := map[5 := 3], map[N - 2 := 4];
    assert Dense(a) == Mono(5, 3) by { DenseSingle(5, 3); }
    assert Dense(b) == Mono(N - 2, 4) by { DenseSingle(N - 2, 4); }
    IMulMono(5, 3, N - 2, 4);
    assert ProductExponent(5, N - 2) == 3 && ProductSign(5, N - 2) * (3 * 4) == -12;
    assert Targets(a.Keys, b.Keys) == {3} by {
      TargetOf(a, b, 5, N - 2);
    }
    assert DMul(Dense(a), Dense(b))[3] == Q - 12;
  }
}
