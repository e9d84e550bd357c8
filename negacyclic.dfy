/**
 * The ring Z_Q[x]/(x^N + 1) on dense coefficient vectors: the meaning that every sparse
 * polynomial of the scheme has. A vector of length N holds the coefficients of
 * x^0 .. x^(N-1). Products are first taken exactly over the integers (IMul) and then
 * reduced into [0, Q) (DMul); the ring laws are proved on the exact product and carried
 * over by congruence.
 */
module Negacyclic {
  import opened Params
  import opened Sums

  type Coeffs = seq<int>

  /** A dense ring element whose coefficients are all reduced into [0, Q). */
  predicate Reduced(x: Coeffs) {
    |x| == N && forall i :: 0 <= i < N ==> 0 <= x[i] < Q
  }

  /** The zero ring element. */
  function Zero(): (z: Coeffs)
    ensures Reduced(z)
  {
    seq(N, i => 0)
  }

  /** Coefficientwise reduction into [0, Q). */
  function Reduce(x: Coeffs): (r: Coeffs)
    ensures |r| == |x|
    ensures forall i :: 0 <= i < |x| ==> 0 <= r[i] < Q && r[i] % Q == x[i] % Q
  {
    seq(|x|, i requires 0 <= i < |x| => x[i] % Q)
  }

  /** Vectors that agree coefficient by coefficient are equal. */
  lemma SameCoeffs(x: Coeffs, y: Coeffs)
    requires |x| == N && |y| == N && forall i :: 0 <= i < N ==> x[i] == y[i]
    ensures x == y
  {
  }

  /** Addition of exact vectors is associative. */
  lemma IAddAssoc(x: Coeffs, y: Coeffs, z: Coeffs)
    requires |x| == N && |y| == N && |z| == N
    ensures IAdd(IAdd(x, y), z) == IAdd(x, IAdd(y, z))
  {
    forall i | 0 <= i < N ensures IAdd(IAdd(x, y), z)[i] == IAdd(x, IAdd(y, z))[i] {
    }
    SameCoeffs(IAdd(IAdd(x, y), z), IAdd(x, IAdd(y, z)));
  }

  /** One coefficient of a reduction. */
  lemma ReduceAt(x: Coeffs, i: int)
    requires 0 <= i < |x|
    ensures Reduce(x)[i] == x[i] % Q
  {
  }

  /** Two vectors of the same length that agree coefficientwise modulo Q. */
  ghost predicate Congruent(x: Coeffs, y: Coeffs) {
    |x| == |y| && forall i :: 0 <= i < |x| ==> x[i] % Q == y[i] % Q
  }

  /** Congruent vectors reduce to the same vector, and only they do. */
  lemma CongruentReduce(x: Coeffs, y: Coeffs)
    requires |x| == |y|
    ensures Congruent(x, y) <==> Reduce(x) == Reduce(y)
  {
    if Reduce(x) == Reduce(y) {
      forall i | 0 <= i < |x| ensures x[i] % Q == y[i] % Q {
        assert Reduce(x)[i] == Reduce(y)[i];
      }
    }
  }

  /** A reduced vector is its own reduction. */
  lemma ReduceReduced(x: Coeffs)
    requires Reduced(x)
    ensures Reduce(x) == x
  {
  }

  /** Exact coefficientwise sum and difference. */
  function IAdd(x: Coeffs, y: Coeffs): (r: Coeffs)
    requires |x| == N && |y| == N
    ensures |r| == N && forall i :: 0 <= i < N ==> r[i] == x[i] + y[i]
  {
    seq(N, i requires 0 <= i < N => x[i] + y[i])
  }

  function ISub(x: Coeffs, y: Coeffs): (r: Coeffs)
    requires |x| == N && |y| == N
    ensures |r| == N && forall i :: 0 <= i < N ==> r[i] == x[i] - y[i]
  {
    seq(N, i requires 0 <= i < N => x[i] - y[i])
  }

  /**
   * The coefficient of x^i for an exponent i in [-2N, 2N), reading the vector through
   * x^N = -1: the coefficient of x^(i + N) is minus that of x^i. (Only exponents in this
   * window ever arise from multiplying two elements; outside it the value is 0.)
   */
  function Ext(y: Coeffs, i: int): int
    requires |y| == N
  {
    if 0 <= i < N then y[i]
    else if -N <= i < 0 then -y[i + N]
    else if N <= i < 2 * N then -y[i - N]
    else if -2 * N <= i < -N then y[i + 2 * N]
    else 0
  }

  /** x^N = -1: shifting an exponent by N negates the coefficient. */
  lemma ExtAntiPeriodic(y: Coeffs, i: int)
    requires |y| == N && -2 * N <= i < N
    ensures Ext(y, i + N) == -Ext(y, i)
  {
  }

  /** Moving a factor N from one exponent to the other leaves a product of coefficients unchanged. */
  lemma ExtProductShift(p: Coeffs, r: Coeffs, a: int, b: int)
    requires |p| == N && |r| == N && -2 * N <= a < N && -2 * N <= b < N
    ensures Ext(p, a + N) * Ext(r, b) == Ext(p, a) * Ext(r, b + N)
  {
    ExtAntiPeriodic(p, a);
    ExtAntiPeriodic(r, b);
    var u, v := Ext(p, a), Ext(r, b);
    assert (-u) * v == u * (-v);
  }

  /** Summand l of the negacyclic product at exponent t: x_l times the coefficient of x^(t-l) in y. */
  function ConvTerm(x: Coeffs, y: Coeffs, t: int): int -> int
    requires |x| == N && |y| == N
  {
    l => if 0 <= l < N then x[l] * Ext(y, t - l) else 0
  }

  /** Exact (unreduced) coefficient of x^t in x*y modulo x^N + 1, for t in [0, N). */
  function ConvSum(x: Coeffs, y: Coeffs, t: int): int
    requires |x| == N && |y| == N
  {
    Sum(ConvTerm(x, y, t), 0, N)
  }

  /** Exact negacyclic product over the integers. */
  function IMul(x: Coeffs, y: Coeffs): (r: Coeffs)
    requires |x| == N && |y| == N
    ensures |r| == N
  {
    seq(N, t => ConvSum(x, y, t))
  }

  /** Ring operations of Z_Q[x]/(x^N + 1). */
  function DAdd(x: Coeffs, y: Coeffs): (r: Coeffs)
    requires |x| == N && |y| == N
    ensures Reduced(r)
  {
    Reduce(IAdd(x, y))
  }

  function DSub(x: Coeffs, y: Coeffs): (r: Coeffs)
    requires |x| == N && |y| == N
    ensures Reduced(r)
  {
    Reduce(ISub(x, y))
  }

  function DMul(x: Coeffs, y: Coeffs): (r: Coeffs)
    requires |x| == N && |y| == N
    ensures Reduced(r)
  {
    Reduce(IMul(x, y))
  }

  // ---------------------------------------------------------------------------
  // The exact product
  // ---------------------------------------------------------------------------

  /**
   * The exact product read at an exponent t - l in (-N, N) follows the same formula as
   * inside [0, N).
   */
  lemma ExtProduct(x: Coeffs, y: Coeffs, t: int, l: int)
    requires |x| == N && |y| == N && -N < t - l < N
    ensures Ext(IMul(x, y), t - l) == ConvSum(x, y, t - l)
  {
    if t - l < 0 {
      var F, G := ConvTerm(x, y, t - l + N), ConvTerm(x, y, t - l);
      forall m | 0 <= m < N ensures G(m) == -1 * F(m) {
        ExtAntiPeriodic(y, t - l - m);
      }
      SumScale(F, G, -1, 0, N);
      IMulAt(x, y, t - l + N);
    } else {
      IMulAt(x, y, t - l);
    }
  }

  /** The y-coefficient of x^m times the z-coefficient of x^(c-m). */
  function PairTerm(y: Coeffs, z: Coeffs, c: int): int -> int
    requires |y| == N && |z| == N
  {
    m => Ext(y, m) * Ext(z, c - m)
  }

  /** The negacyclic product is commutative. */
  lemma ConvSumComm(x: Coeffs, y: Coeffs, t: int)
    requires |x| == N && |y| == N && 0 <= t < N
    ensures ConvSum(x, y, t) == ConvSum(y, x, t)
  {
    CommMirror(x, y, t);
    SumMirror(PairTerm(y, x, t), t);
    CommWindow(y, x, t);
    PairSum(y, x, t);
  }

  /** Summing the terms of x*y at t is summing PairTerm(y, x, t) backwards. */
  lemma CommMirror(x: Coeffs, y: Coeffs, t: int)
    requires |x| == N && |y| == N
    ensures ConvSum(x, y, t) == Sum(Mirror(PairTerm(y, x, t), t), 0, N)
  {
    forall l | 0 <= l < N ensures ConvTerm(x, y, t)(l) == Mirror(PairTerm(y, x, t), t)(l) {
      var a, b := x[l], Ext(y, t - l);
      assert t - (t - l) == l;
      assert Mirror(PairTerm(y, x, t), t)(l) == b * a;
    }
    SumExt(ConvTerm(x, y, t), Mirror(PairTerm(y, x, t), t), 0, N);
  }

  /** x^N = -1 twice over: PairTerm repeats with period N below exponent zero. */
  lemma PairPeriodic(y: Coeffs, z: Coeffs, c: int, i: int)
    requires |y| == N && |z| == N && -N <= i < 0 && -N <= c - i < 2 * N
    ensures PairTerm(y, z, c)(i) == PairTerm(y, z, c)(i + N)
  {
    ExtProductShift(y, z, i, c - i - N);
    assert c - i - N + N == c - i;
  }

  /** The window [t - N + 1, t + 1) of PairTerm(y, z, t) sums like [0, N). */
  lemma CommWindow(y: Coeffs, z: Coeffs, t: int)
    requires |y| == N && |z| == N && 0 <= t < N
    ensures Sum(PairTerm(y, z, t), t - N + 1, t + 1) == Sum(PairTerm(y, z, t), 0, N)
  {
    var s := N - 1 - t;
    forall i | -s <= i < 0 ensures PairTerm(y, z, t)(i) == PairTerm(y, z, t)(i + N) {
      PairPeriodic(y, z, t, i);
    }
    assert Periodic(PairTerm(y, z, t), -s, 0, N);
    SumWindow(PairTerm(y, z, t), s);
    assert -s == t - N + 1 && N - s == t + 1;
  }

  /** Summing PairTerm(y, z, c) over [0, N) is the product y*z read at c. */
  lemma PairSum(y: Coeffs, z: Coeffs, c: int)
    requires |y| == N && |z| == N
    ensures Sum(PairTerm(y, z, c), 0, N) == ConvSum(y, z, c)
  {
    forall m | 0 <= m < N ensures PairTerm(y, z, c)(m) == ConvTerm(y, z, c)(m) {
    }
    SumExt(PairTerm(y, z, c), ConvTerm(y, z, c), 0, N);
  }

  lemma IMulComm(x: Coeffs, y: Coeffs)
    requires |x| == N && |y| == N
    ensures IMul(x, y) == IMul(y, x)
  {
    forall t | 0 <= t < N ensures IMul(x, y)[t] == IMul(y, x)[t] {
      IMulAt(x, y, t);
      IMulAt(y, x, t);
      ConvSumComm(x, y, t);
    }
  }

  /** The exact product is additive in its first factor. */
  lemma ConvSumAddLeft(x: Coeffs, y: Coeffs, z: Coeffs, t: int)
    requires |x| == N && |y| == N && |z| == N
    ensures ConvSum(IAdd(x, y), z, t) == ConvSum(x, z, t) + ConvSum(y, z, t)
  {
    forall l | 0 <= l < N
      ensures ConvTerm(IAdd(x, y), z, t)(l) == ConvTerm(x, z, t)(l) + ConvTerm(y, z, t)(l)
    {
      var e := Ext(z, t - l);
      assert (x[l] + y[l]) * e == x[l] * e + y[l] * e;
    }
    SumAdd(ConvTerm(x, z, t), ConvTerm(y, z, t), ConvTerm(IAdd(x, y), z, t), 0, N);
  }

  lemma ConvSumSubLeft(x: Coeffs, y: Coeffs, z: Coeffs, t: int)
    requires |x| == N && |y| == N && |z| == N
    ensures ConvSum(ISub(x, y), z, t) == ConvSum(x, z, t) - ConvSum(y, z, t)
  {
    forall l | 0 <= l < N
      ensures ConvTerm(x, z, t)(l) == ConvTerm(ISub(x, y), z, t)(l) + ConvTerm(y, z, t)(l)
    {
      var e := Ext(z, t - l);
      assert x[l] * e == (x[l] - y[l]) * e + y[l] * e;
    }
    SumAdd(ConvTerm(ISub(x, y), z, t), ConvTerm(y, z, t), ConvTerm(x, z, t), 0, N);
  }

  /** Coefficientwise congruent first factors give congruent products. */
  lemma ConvSumCongruentLeft(x: Coeffs, x': Coeffs, z: Coeffs, t: int)
    requires |x| == N && |z| == N && Congruent(x, x')
    ensures ConvSum(x, z, t) % Q == ConvSum(x', z, t) % Q
  {
    forall l | 0 <= l < N
      ensures ConvTerm(x, z, t)(l) % Q == ConvTerm(x', z, t)(l) % Q
    {
      MulCongruent(x[l], x'[l], Ext(z, t - l));
    }
    SumCongruent(ConvTerm(x, z, t), ConvTerm(x', z, t), 0, N);
  }

  /** Congruence modulo Q is preserved by multiplication with a common factor. */
  lemma MulCongruent(a: int, a': int, c: int)
    requires a % Q == a' % Q
    ensures (a * c) % Q == (a' * c) % Q
  {
    var d := a / Q - a' / Q;
    assert a == a' + Q * d;
    var e := d * c;
    assert a * c == a' * c + Q * e;
  }

  /** x_l times the y-coefficient of x^(m-l) times the z-coefficient of x^(t-m). */
  function TripleTerm(x: Coeffs, y: Coeffs, z: Coeffs, t: int): (int, int) -> int
    requires |x| == N && |y| == N && |z| == N
  {
    (m, l) => if 0 <= l < N then x[l] * Ext(y, m - l) * Ext(z, t - m) else 0
  }

  /** The exact product is associative. */
  lemma ConvSumAssoc(x: Coeffs, y: Coeffs, z: Coeffs, t: int)
    requires |x| == N && |y| == N && |z| == N && 0 <= t < N
    ensures ConvSum(IMul(x, y), z, t) == ConvSum(x, IMul(y, z), t)
  {
    AssocLeftSum(x, y, z, t);
    SumSwap(TripleTerm(x, y, z, t), 0, N, 0, N);
    AssocRightSum(x, y, z, t);
  }

  /** (x*y)*z at t is the double sum of TripleTerm, summed over l first. */
  lemma AssocLeftSum(x: Coeffs, y: Coeffs, z: Coeffs, t: int)
    requires |x| == N && |y| == N && |z| == N
    ensures ConvSum(IMul(x, y), z, t) == Sum(RowSums(TripleTerm(x, y, z, t), 0, N), 0, N)
  {
    var F := TripleTerm(x, y, z, t);
    forall m | 0 <= m < N ensures ConvTerm(IMul(x, y), z, t)(m) == RowSums(F, 0, N)(m) {
      AssocInner(x, y, z, t, m);
    }
    SumExt(ConvTerm(IMul(x, y), z, t), RowSums(F, 0, N), 0, N);
  }

  /** x*(y*z) at t is the double sum of TripleTerm, summed over m first. */
  lemma AssocRightSum(x: Coeffs, y: Coeffs, z: Coeffs, t: int)
    requires |x| == N && |y| == N && |z| == N && 0 <= t < N
    ensures Sum(ColSums(TripleTerm(x, y, z, t), 0, N), 0, N) == ConvSum(x, IMul(y, z), t)
  {
    var F := TripleTerm(x, y, z, t);
    forall l | 0 <= l < N ensures ColSums(F, 0, N)(l) == ConvTerm(x, IMul(y, z), t)(l) {
      AssocOuter(x, y, z, t, l);
    }
    SumExt(ColSums(F, 0, N), ConvTerm(x, IMul(y, z), t), 0, N);
  }

  /** Associativity, left side: summand m of (x*y)*z expands into a sum over l. */
  lemma AssocInner(x: Coeffs, y: Coeffs, z: Coeffs, t: int, m: int)
    requires |x| == N && |y| == N && |z| == N && 0 <= m < N
    ensures ConvTerm(IMul(x, y), z, t)(m) == Sum(Row(TripleTerm(x, y, z, t), m), 0, N)
  {
    TripleRowSum(x, y, z, t, m);
    ProductTermAt(x, y, z, t, m);
  }

  /** Summand m of (x*y)*z at exponent t. */
  lemma ProductTermAt(x: Coeffs, y: Coeffs, z: Coeffs, t: int, m: int)
    requires |x| == N && |y| == N && |z| == N && 0 <= m < N
    ensures ConvTerm(IMul(x, y), z, t)(m) == Ext(z, t - m) * ConvSum(x, y, m)
  {
    ConvTermAt(IMul(x, y), z, t, m);
    IMulAt(x, y, m);
  }

  lemma TripleRowSum(x: Coeffs, y: Coeffs, z: Coeffs, t: int, m: int)
    requires |x| == N && |y| == N && |z| == N
    ensures Sum(Row(TripleTerm(x, y, z, t), m), 0, N) == Ext(z, t - m) * ConvSum(x, y, m)
  {
    var c := Ext(z, t - m);
    var f := Row(TripleTerm(x, y, z, t), m);
    forall l | 0 <= l < N ensures f(l) == c * ConvTerm(x, y, m)(l) {
      TripleRowAt(x, y, z, t, m, l);
    }
    SumScale(ConvTerm(x, y, m), f, c, 0, N);
  }

  lemma TripleRowAt(x: Coeffs, y: Coeffs, z: Coeffs, t: int, m: int, l: int)
    requires |x| == N && |y| == N && |z| == N && 0 <= l < N
    ensures Row(TripleTerm(x, y, z, t), m)(l) == Ext(z, t - m) * ConvTerm(x, y, m)(l)
  {
    var a, b, c := x[l], Ext(y, m - l), Ext(z, t - m);
    assert Row(TripleTerm(x, y, z, t), m)(l) == a * b * c;
    assert ConvTerm(x, y, m)(l) == a * b;
  }

  /** Coefficient t of the exact product is the convolution sum at t. */
  lemma IMulAt(x: Coeffs, y: Coeffs, t: int)
    requires |x| == N && |y| == N && 0 <= t < N
    ensures IMul(x, y)[t] == ConvSum(x, y, t)
  {
  }

  /** Summand m of the product of w and z at exponent t. */
  lemma ConvTermAt(w: Coeffs, z: Coeffs, t: int, m: int)
    requires |w| == N && |z| == N && 0 <= m < N
    ensures ConvTerm(w, z, t)(m) == w[m] * Ext(z, t - m)
  {
  }

  /** Associativity, right side: summand l of x*(y*z) is x_l times a shifted-window sum. */
  lemma AssocOuter(x: Coeffs, y: Coeffs, z: Coeffs, t: int, l: int)
    requires |x| == N && |y| == N && |z| == N && 0 <= t < N && 0 <= l < N
    ensures Sum(Col(TripleTerm(x, y, z, t), l), 0, N) == ConvTerm(x, IMul(y, z), t)(l)
  {
    TripleColSum(x, y, z, t, l);
    ShiftedWindow(y, z, t, l);
    ExtProduct(y, z, t, l);
    ConvTermAt(x, IMul(y, z), t, l);
  }

  /** Column l of TripleTerm is x_l times PairTerm(y, z, t - l) delayed by l. */
  lemma TripleColSum(x: Coeffs, y: Coeffs, z: Coeffs, t: int, l: int)
    requires |x| == N && |y| == N && |z| == N && 0 <= l < N
    ensures Sum(Col(TripleTerm(x, y, z, t), l), 0, N)
         == x[l] * Sum(Shifted(PairTerm(y, z, t - l), l), 0, N)
  {
    var f, G := Col(TripleTerm(x, y, z, t), l), Shifted(PairTerm(y, z, t - l), l);
    forall m | 0 <= m < N ensures f(m) == x[l] * G(m) {
      TripleColAt(x, y, z, t, l, m);
    }
    SumScale(G, f, x[l], 0, N);
  }

  lemma TripleColAt(x: Coeffs, y: Coeffs, z: Coeffs, t: int, l: int, m: int)
    requires |x| == N && |y| == N && |z| == N && 0 <= l < N
    ensures Col(TripleTerm(x, y, z, t), l)(m) == x[l] * Shifted(PairTerm(y, z, t - l), l)(m)
  {
    var a, b := Ext(y, m - l), Ext(z, t - m);
    assert t - l - (m - l) == t - m;
    assert Col(TripleTerm(x, y, z, t), l)(m) == x[l] * a * b;
    assert Shifted(PairTerm(y, z, t - l), l)(m) == a * b;
  }

  /**
   * The inner sum of the associativity proof: summing over a shifted window of length N
   * gives the product y*z read at exponent t - l.
   */
  lemma ShiftedWindow(y: Coeffs, z: Coeffs, t: int, l: int)
    requires |y| == N && |z| == N && 0 <= t < N && 0 <= l < N
    ensures Sum(Shifted(PairTerm(y, z, t - l), l), 0, N) == ConvSum(y, z, t - l)
  {
    SumShifted(PairTerm(y, z, t - l), l);
    WindowWrap(y, z, t, l);
    WindowSum(y, z, t, l);
  }

  /** The window [-l, N - l) of PairTerm(y, z, t - l) sums like [0, N). */
  lemma WindowWrap(y: Coeffs, z: Coeffs, t: int, l: int)
    requires |y| == N && |z| == N && 0 <= t < N && 0 <= l < N
    ensures Sum(PairTerm(y, z, t - l), -l, N - l) == Sum(PairTerm(y, z, t - l), 0, N)
  {
    WindowPeriodic(y, z, t, l);
    SumWindow(PairTerm(y, z, t - l), l);
  }

  /** PairTerm(y, z, t - l) repeats with period N on [-l, 0). */
  lemma WindowPeriodic(y: Coeffs, z: Coeffs, t: int, l: int)
    requires |y| == N && |z| == N && 0 <= t < N && 0 <= l < N
    ensures Periodic(PairTerm(y, z, t - l), -l, 0, N)
  {
    var H := PairTerm(y, z, t - l);
    forall i | -l <= i < 0 ensures H(i) == H(i + N) {
      WindowPeriodicAt(y, z, t, l, i);
    }
  }

  lemma WindowPeriodicAt(y: Coeffs, z: Coeffs, t: int, l: int, i: int)
    requires |y| == N && |z| == N && 0 <= t < N && 0 <= l < N && -l <= i < 0
    ensures PairTerm(y, z, t - l)(i) == PairTerm(y, z, t - l)(i + N)
  {
    ExtProductShift(y, z, i, t - l - i - N);
    assert t - l - i - N + N == t - l - i;
  }

  /** Summing PairTerm(y, z, t - l) over [0, N) is the product y*z read at t - l. */
  lemma WindowSum(y: Coeffs, z: Coeffs, t: int, l: int)
    requires |y| == N && |z| == N
    ensures Sum(PairTerm(y, z, t - l), 0, N) == ConvSum(y, z, t - l)
  {
    var H, C := PairTerm(y, z, t - l), ConvTerm(y, z, t - l);
    forall m | 0 <= m < N ensures H(m) == C(m) {
    }
    SumExt(H, C, 0, N);
  }

  lemma IMulAssoc(x: Coeffs, y: Coeffs, z: Coeffs)
    requires |x| == N && |y| == N && |z| == N
    ensures IMul(IMul(x, y), z) == IMul(x, IMul(y, z))
  {
    forall t | 0 <= t < N ensures IMul(IMul(x, y), z)[t] == IMul(x, IMul(y, z))[t] {
      IMulAt(IMul(x, y), z, t);
      IMulAt(x, IMul(y, z), t);
      ConvSumAssoc(x, y, z, t);
    }
  }

  lemma IMulAddLeft(x: Coeffs, y: Coeffs, z: Coeffs)
    requires |x| == N && |y| == N && |z| == N
    ensures IMul(IAdd(x, y), z) == IAdd(IMul(x, z), IMul(y, z))
  {
    forall t | 0 <= t < N ensures IMul(IAdd(x, y), z)[t] == IAdd(IMul(x, z), IMul(y, z))[t] {
      IMulAddAt(x, y, z, t);
    }
  }

  lemma IMulSubLeft(x: Coeffs, y: Coeffs, z: Coeffs)
    requires |x| == N && |y| == N && |z| == N
    ensures IMul(ISub(x, y), z) == ISub(IMul(x, z), IMul(y, z))
  {
    forall t | 0 <= t < N ensures IMul(ISub(x, y), z)[t] == ISub(IMul(x, z), IMul(y, z))[t] {
      IMulSubAt(x, y, z, t);
    }
  }

  lemma IMulAddAt(x: Coeffs, y: Coeffs, z: Coeffs, t: int)
    requires |x| == N && |y| == N && |z| == N && 0 <= t < N
    ensures IMul(IAdd(x, y), z)[t] == IAdd(IMul(x, z), IMul(y, z))[t]
  {
    IMulAt(IAdd(x, y), z, t);
    IMulAt(x, z, t);
    IMulAt(y, z, t);
    ConvSumAddLeft(x, y, z, t);
  }

  lemma IMulSubAt(x: Coeffs, y: Coeffs, z: Coeffs, t: int)
    requires |x| == N && |y| == N && |z| == N && 0 <= t < N
    ensures IMul(ISub(x, y), z)[t] == ISub(IMul(x, z), IMul(y, z))[t]
  {
    IMulAt(ISub(x, y), z, t);
    IMulAt(x, z, t);
    IMulAt(y, z, t);
    ConvSumSubLeft(x, y, z, t);
  }

  /** Products of congruent factors are congruent. */
  lemma IMulCongruent(x: Coeffs, x': Coeffs, y: Coeffs, y': Coeffs)
    requires |x| == N && |y| == N && Congruent(x, x') && Congruent(y, y')
    ensures Congruent(IMul(x, y), IMul(x', y'))
  {
    forall t | 0 <= t < N ensures IMul(x, y)[t] % Q == IMul(x', y')[t] % Q {
      ConvSumCongruentLeft(x, x', y, t);
      ConvSumComm(x', y, t);
      ConvSumCongruentLeft(y, y', x', t);
      ConvSumComm(y', x', t);
    }
  }

  // ---------------------------------------------------------------------------
  // Monomials, zero and distributivity on the right
  // ---------------------------------------------------------------------------

  /** The monomial c * x^k. */
  function Mono(k: int, c: int): (r: Coeffs)
    requires 0 <= k < N
    ensures |r| == N && r[k] == c
    ensures forall i :: 0 <= i < N && i != k ==> r[i] == 0
  {
    seq(N, i => if i == k then c else 0)
  }

  /** Exponent and sign of x^k1 * x^k2 once x^N = -1 has been applied. */
  function ProductExponent(k1: int, k2: int): int {
    if k1 + k2 < N then k1 + k2 else k1 + k2 - N
  }

  function ProductSign(k1: int, k2: int): int {
    if k1 + k2 < N then 1 else -1
  }

  /** Multiplying by c * x^k moves every coefficient k places up, wrapping with a sign flip. */
  lemma IMulMonoAt(k: int, c: int, y: Coeffs, t: int)
    requires 0 <= k < N && |y| == N && 0 <= t < N
    ensures IMul(Mono(k, c), y)[t] == c * Ext(y, t - k)
  {
    IMulAt(Mono(k, c), y, t);
    var F, m := ConvTerm(Mono(k, c), y, t), Mono(k, c);
    forall l | 0 <= l < N && l != k ensures F(l) == 0 {
      assert m[l] == 0;
    }
    SumSingle(F, 0, N, k);
  }

  /** The coefficient of x^i in c * x^k, for an exponent i in [-N, N). */
  lemma ExtMono(k: int, c: int, i: int)
    requires 0 <= k < N && -N <= i < N
    ensures Ext(Mono(k, c), i) == if i == k then c else if i == k - N then -c else 0
  {
  }

  /** x^k1 * x^k2 is x^(k1+k2) below N and -x^(k1+k2-N) from N on. */
  lemma IMulMono(k1: int, c1: int, k2: int, c2: int)
    requires 0 <= k1 < N && 0 <= k2 < N
    ensures 0 <= ProductExponent(k1, k2) < N
    ensures IMul(Mono(k1, c1), Mono(k2, c2))
         == Mono(ProductExponent(k1, k2), ProductSign(k1, k2) * (c1 * c2))
  {
    var P, M := IMul(Mono(k1, c1), Mono(k2, c2)), Mono(ProductExponent(k1, k2), ProductSign(k1, k2) * (c1 * c2));
    forall t | 0 <= t < N ensures P[t] == M[t] {
      IMulMonoAt(k1, c1, Mono(k2, c2), t);
      ExtMono(k2, c2, t - k1);
      assert c1 * (-c2) == -1 * (c1 * c2);
    }
  }

  /** Zero annihilates. */
  lemma IMulZeroLeft(y: Coeffs)
    requires |y| == N
    ensures IMul(Zero(), y) == Zero()
  {
    forall t | 0 <= t < N ensures IMul(Zero(), y)[t] == 0 {
      IMulZeroAt(y, t);
    }
  }

  lemma IMulZeroAt(y: Coeffs, t: int)
    requires |y| == N && 0 <= t < N
    ensures IMul(Zero(), y)[t] == 0
  {
    IMulAt(Zero(), y, t);
    var F, z := ConvTerm(Zero(), y, t), Zero();
    forall l | 0 <= l < N ensures F(l) == 0 {
      assert z[l] == 0;
    }
    SumZero(F, 0, N);
  }

  lemma IMulZeroRight(x: Coeffs)
    requires |x| == N
    ensures IMul(x, Zero()) == Zero()
  {
    IMulComm(x, Zero());
    IMulZeroLeft(x);
  }

  lemma IMulAddRight(x: Coeffs, y: Coeffs, z: Coeffs)
    requires |x| == N && |y| == N && |z| == N
    ensures IMul(x, IAdd(y, z)) == IAdd(IMul(x, y), IMul(x, z))
  {
    IMulComm(x, IAdd(y, z));
    IMulAddLeft(y, z, x);
    IMulComm(y, x);
    IMulComm(z, x);
  }

  lemma IMulSubRight(x: Coeffs, y: Coeffs, z: Coeffs)
    requires |x| == N && |y| == N && |z| == N
    ensures IMul(x, ISub(y, z)) == ISub(IMul(x, y), IMul(x, z))
  {
    IMulComm(x, ISub(y, z));
    IMulSubLeft(y, z, x);
    IMulComm(y, x);
    IMulComm(z, x);
  }

  // ---------------------------------------------------------------------------
  // Congruence modulo Q is compatible with the operations
  // ---------------------------------------------------------------------------

  lemma CongruentTrans(x: Coeffs, y: Coeffs, z: Coeffs)
    requires Congruent(x, y) && Congruent(y, z)
    ensures Congruent(x, z)
  {
  }

  lemma CongruentSym(x: Coeffs, y: Coeffs)
    requires Congruent(x, y)
    ensures Congruent(y, x)
  {
  }

  /** A vector is congruent to its reduction. */
  lemma ReduceCongruent(x: Coeffs)
    ensures Congruent(Reduce(x), x)
  {
  }

  lemma IAddCongruent(x: Coeffs, x': Coeffs, y: Coeffs, y': Coeffs)
    requires |x| == N && |y| == N && Congruent(x, x') && Congruent(y, y')
    ensures Congruent(IAdd(x, y), IAdd(x', y'))
  {
    forall i | 0 <= i < N ensures (x[i] + y[i]) % Q == (x'[i] + y'[i]) % Q {
      CongruentAdd(x[i], x'[i], y[i], y'[i]);
    }
  }

  lemma ISubCongruent(x: Coeffs, x': Coeffs, y: Coeffs, y': Coeffs)
    requires |x| == N && |y| == N && Congruent(x, x') && Congruent(y, y')
    ensures Congruent(ISub(x, y), ISub(x', y'))
  {
    forall i | 0 <= i < N ensures (x[i] - y[i]) % Q == (x'[i] - y'[i]) % Q {
      CongruentAdd(x[i], x'[i], -y[i], -y'[i]);
    }
  }

  // ---------------------------------------------------------------------------
  // Laws of the ring Z_Q[x]/(x^N + 1)
  // ---------------------------------------------------------------------------

  lemma DAddComm(x: Coeffs, y: Coeffs)
    requires |x| == N && |y| == N
    ensures DAdd(x, y) == DAdd(y, x)
  {
    assert IAdd(x, y) == IAdd(y, x);
  }

  /** Adding zero reduces, and leaves a reduced vector as it is. */
  lemma DAddZero(x: Coeffs)
    requires |x| == N
    ensures DAdd(x, Zero()) == Reduce(x)
    ensures Reduced(x) ==> DAdd(x, Zero()) == x
  {
    assert IAdd(x, Zero()) == x;
  }

  /** Subtraction undoes addition: (x - y) + y is x, reduced. */
  lemma DAddSubCancel(x: Coeffs, y: Coeffs)
    requires |x| == N && |y| == N
    ensures DAdd(DSub(x, y), y) == Reduce(x)
  {
    forall i | 0 <= i < N ensures DAdd(DSub(x, y), y)[i] == Reduce(x)[i] {
      CongruentAdd(DSub(x, y)[i], x[i] - y[i], y[i], y[i]);
    }
  }

  /** Subtracting a vector from itself gives zero. */
  lemma DSubSelf(x: Coeffs)
    requires |x| == N
    ensures DSub(x, x) == Zero()
  {
    assert ISub(x, x) == Zero();
  }

  /** The reduced product is congruent to the exact one. */
  lemma DMulCongruent(x: Coeffs, y: Coeffs)
    requires |x| == N && |y| == N
    ensures Congruent(DMul(x, y), IMul(x, y))
  {
    ReduceCongruent(IMul(x, y));
  }

  lemma DMulComm(x: Coeffs, y: Coeffs)
    requires |x| == N && |y| == N
    ensures DMul(x, y) == DMul(y, x)
  {
    IMulComm(x, y);
  }

  lemma DMulAssoc(x: Coeffs, y: Coeffs, z: Coeffs)
    requires |x| == N && |y| == N && |z| == N
    ensures DMul(DMul(x, y), z) == DMul(x, DMul(y, z))
  {
    DMulCongruent(x, y);
    DMulCongruent(y, z);
    IMulCongruent(DMul(x, y), IMul(x, y), z, z);
    IMulCongruent(x, x, DMul(y, z), IMul(y, z));
    IMulAssoc(x, y, z);
    CongruentTrans(IMul(DMul(x, y), z), IMul(IMul(x, y), z), IMul(x, DMul(y, z)));
    CongruentReduce(IMul(DMul(x, y), z), IMul(x, DMul(y, z)));
  }

  /** Multiplication distributes over addition. */
  lemma DMulAddLeft(x: Coeffs, y: Coeffs, z: Coeffs)
    requires |x| == N && |y| == N && |z| == N
    ensures DMul(DAdd(x, y), z) == DAdd(DMul(x, z), DMul(y, z))
  {
    ReduceCongruent(IAdd(x, y));
    IMulCongruent(DAdd(x, y), IAdd(x, y), z, z);
    IMulAddLeft(x, y, z);
    DMulCongruent(x, z);
    DMulCongruent(y, z);
    IAddCongruent(DMul(x, z), IMul(x, z), DMul(y, z), IMul(y, z));
    CongruentTrans(IMul(DAdd(x, y), z), IAdd(IMul(x, z), IMul(y, z)), IAdd(DMul(x, z), DMul(y, z)));
    CongruentReduce(IMul(DAdd(x, y), z), IAdd(DMul(x, z), DMul(y, z)));
  }

  // ---------------------------------------------------------------------------
  // Size of a product of small vectors
  // ---------------------------------------------------------------------------

  /**
   * The product of two vectors with coefficients in {-1, 0, 1} has coefficients bounded
   * by the number of non-zero coefficients of the first factor.
   */
  lemma ProductBound(x: Coeffs, y: Coeffs, S: set<int>, t: int)
    requires |x| == N && |y| == N && 0 <= t < N
    requires forall l :: 0 <= l < N ==> -1 <= x[l] <= 1 && -1 <= y[l] <= 1
    requires forall l :: 0 <= l < N && x[l] != 0 ==> l in S
    ensures -|S| <= IMul(x, y)[t] <= |S|
  {
    var F := ConvTerm(x, y, t);
    forall l | 0 <= l < N ensures -1 <= F(l) <= 1 && (F(l) != 0 ==> l in S) {
      var c := Ext(y, t - l);
      assert -1 <= c <= 1;
      assert F(l) == x[l] * c;
      if x[l] == 0 {
      } else if x[l] == 1 {
      } else {
        assert F(l) == -c;
      }
    }
    SumBound(F, 0, N, S);
  }
}
