/** Finite sums over integer ranges, and the re-indexing facts the ring proofs use. */
module Sums {
  import opened Params

  /** f(lo) + f(lo + 1) + ... + f(hi - 1); zero for an empty range. */
  function Sum(f: int -> int, lo: int, hi: int): int
    decreases hi - lo
  {
    if lo >= hi then 0 else f(lo) + Sum(f, lo + 1, hi)
  }

  /** Sums of functions that agree on the range are equal. */
  lemma {:induction false} SumExt(f: int -> int, g: int -> int, lo: int, hi: int)
    requires forall i :: lo <= i < hi ==> f(i) == g(i)
    ensures Sum(f, lo, hi) == Sum(g, lo, hi)
    decreases hi - lo
  {
    if lo < hi {
      SumExt(f, g, lo + 1, hi);
    }
  }

  /** A sum can be peeled from the top as well as from the bottom. */
  lemma {:induction false} SumLast(f: int -> int, lo: int, hi: int)
    requires lo < hi
    ensures Sum(f, lo, hi) == Sum(f, lo, hi - 1) + f(hi - 1)
    decreases hi - lo
  {
    if lo < hi - 1 {
      SumLast(f, lo + 1, hi);
    }
  }

  /** A sum splits at any point of its range. */
  lemma {:induction false} SumSplit(f: int -> int, lo: int, mid: int, hi: int)
    requires lo <= mid <= hi
    ensures Sum(f, lo, hi) == Sum(f, lo, mid) + Sum(f, mid, hi)
    decreases mid - lo
  {
    if lo < mid {
      SumSplit(f, lo + 1, mid, hi);
    }
  }

  /** The sum of a function that is zero on the range is zero. */
  lemma {:induction false} SumZero(f: int -> int, lo: int, hi: int)
    requires forall i :: lo <= i < hi ==> f(i) == 0
    ensures Sum(f, lo, hi) == 0
    decreases hi - lo
  {
    if lo < hi {
      SumZero(f, lo + 1, hi);
    }
  }

  /** A sum of hi - lo equal summands c is c (hi - lo). */
  lemma {:induction false} SumConst(f: int -> int, lo: int, hi: int, c: int)
    requires lo <= hi && forall i :: lo <= i < hi ==> f(i) == c
    ensures Sum(f, lo, hi) == c * (hi - lo)
    decreases hi - lo
  {
    if lo < hi {
      SumConst(f, lo + 1, hi, c);
    }
  }

  /** Changing one summand changes the sum by the difference. */
  lemma {:induction false} SumPointUpdate(f: int -> int, g: int -> int, lo: int, hi: int, j: int)
    requires lo <= j < hi
    requires forall i :: lo <= i < hi && i != j ==> f(i) == g(i)
    ensures Sum(g, lo, hi) == Sum(f, lo, hi) + g(j) - f(j)
    decreases hi - lo
  {
    if lo == j {
      SumExt(f, g, lo + 1, hi);
    } else {
      SumPointUpdate(f, g, lo + 1, hi, j);
    }
  }

  /** A sum with a single non-zero summand is that summand. */
  lemma {:induction false} SumSingle(f: int -> int, lo: int, hi: int, j: int)
    requires lo <= j < hi
    requires forall i :: lo <= i < hi && i != j ==> f(i) == 0
    ensures Sum(f, lo, hi) == f(j)
    decreases hi - lo
  {
    if lo == j {
      SumZero(f, lo + 1, hi);
    } else {
      SumSingle(f, lo + 1, hi, j);
    }
  }

  /** The sum of a pointwise sum is the sum of the sums. */
  lemma {:induction false} SumAdd(f: int -> int, g: int -> int, h: int -> int, lo: int, hi: int)
    requires forall i :: lo <= i < hi ==> h(i) == f(i) + g(i)
    ensures Sum(h, lo, hi) == Sum(f, lo, hi) + Sum(g, lo, hi)
    decreases hi - lo
  {
    if lo < hi {
      SumAdd(f, g, h, lo + 1, hi);
    }
  }

  /** A constant factor moves out of a sum. */
  lemma {:induction false} SumScale(f: int -> int, g: int -> int, c: int, lo: int, hi: int)
    requires forall i :: lo <= i < hi ==> g(i) == c * f(i)
    ensures Sum(g, lo, hi) == c * Sum(f, lo, hi)
    decreases hi - lo
  {
    if lo < hi {
      SumScale(f, g, c, lo + 1, hi);
      assert Sum(g, lo, hi) == c * f(lo) + c * Sum(f, lo + 1, hi);
    }
  }

  /** Shifting the summation index: the sum of g over [lo, hi) where g(i) = f(i + d). */
  lemma {:induction false} SumShift(f: int -> int, g: int -> int, lo: int, hi: int, d: int)
    requires forall i :: lo <= i < hi ==> g(i) == f(i + d)
    ensures Sum(g, lo, hi) == Sum(f, lo + d, hi + d)
    decreases hi - lo
  {
    if lo < hi {
      SumShift(f, g, lo + 1, hi, d);
    }
  }

  /** Reversing the summation index: the sum of g over [0, n) where g(i) = f(c - i). */
  lemma {:induction false} SumReflect(f: int -> int, g: int -> int, n: int, c: int)
    requires forall i :: 0 <= i < n ==> g(i) == f(c - i)
    ensures Sum(g, 0, n) == Sum(f, c - n + 1, c + 1)
    decreases n
  {
    if 0 < n {
      SumReflect(f, g, n - 1, c);
      SumLast(g, 0, n);
      assert c - (n - 1) + 1 == c - n + 1 + 1;
    }
  }

  /** f read backwards from c, and f delayed by d. */
  function Mirror(f: int -> int, c: int): int -> int {
    i => f(c - i)
  }

  function Shifted(f: int -> int, d: int): int -> int {
    i => f(i - d)
  }

  lemma SumMirror(f: int -> int, c: int)
    ensures Sum(Mirror(f, c), 0, N) == Sum(f, c - N + 1, c + 1)
  {
    SumReflect(f, Mirror(f, c), N, c);
  }

  lemma SumShifted(f: int -> int, d: int)
    ensures Sum(Shifted(f, d), 0, N) == Sum(f, -d, N - d)
  {
    SumShift(f, Shifted(f, d), 0, N, -d);
  }

  /** f repeats with period p on [lo, hi). */
  ghost predicate Periodic(f: int -> int, lo: int, hi: int, p: int) {
    forall i :: lo <= i < hi ==> f(i) == f(i + p)
  }

  /**
   * A sum over a window of length N that starts s places below zero equals the sum
   * over [0, N) when the summand repeats with period N on the part below zero.
   */
  lemma SumWindow(f: int -> int, s: int)
    requires 0 <= s <= N && Periodic(f, -s, 0, N)
    ensures Sum(f, -s, N - s) == Sum(f, 0, N)
  {
    SumSplit(f, -s, 0, N - s);
    SumSplit(f, 0, N - s, N);
    SumShift(f, f, -s, 0, N);
  }

  /** Row i and column j of a function of two indices. */
  function Row(f: (int, int) -> int, i: int): int -> int {
    j => f(i, j)
  }

  function Col(f: (int, int) -> int, j: int): int -> int {
    i => f(i, j)
  }

  /** The sums of the rows (indexed by i) and of the columns (indexed by j) of f. */
  function RowSums(f: (int, int) -> int, lo2: int, hi2: int): int -> int {
    i => Sum(Row(f, i), lo2, hi2)
  }

  function ColSums(f: (int, int) -> int, lo1: int, hi1: int): int -> int {
    j => Sum(Col(f, j), lo1, hi1)
  }

  /** Exchanging the order of a double sum. */
  lemma {:induction false} SumSwap(f: (int, int) -> int, lo1: int, hi1: int, lo2: int, hi2: int)
    ensures Sum(RowSums(f, lo2, hi2), lo1, hi1) == Sum(ColSums(f, lo1, hi1), lo2, hi2)
    decreases hi1 - lo1
  {
    if lo1 >= hi1 {
      SumZero(ColSums(f, lo1, hi1), lo2, hi2);
    } else {
      SumSwap(f, lo1 + 1, hi1, lo2, hi2);
      assert Sum(RowSums(f, lo2, hi2), lo1, hi1)
          == Sum(Row(f, lo1), lo2, hi2) + Sum(ColSums(f, lo1 + 1, hi1), lo2, hi2);
      SumAdd(Row(f, lo1), ColSums(f, lo1 + 1, hi1), ColSums(f, lo1, hi1), lo2, hi2);
    }
  }

  /** Sums of termwise-congruent functions are congruent modulo Q. */
  lemma {:induction false} SumCongruent(f: int -> int, g: int -> int, lo: int, hi: int)
    requires forall i :: lo <= i < hi ==> f(i) % Q == g(i) % Q
    ensures Sum(f, lo, hi) % Q == Sum(g, lo, hi) % Q
    decreases hi - lo
  {
    if lo < hi {
      SumCongruent(f, g, lo + 1, hi);
      CongruentAdd(f(lo), g(lo), Sum(f, lo + 1, hi), Sum(g, lo + 1, hi));
    }
  }

  /**
   * A sum of terms in [-1, 1] that are non-zero only at indices of S is at most |S| in
   * absolute value.
   */
  lemma {:induction false} SumBound(f: int -> int, lo: int, hi: int, S: set<int>)
    requires forall l :: lo <= l < hi ==> -1 <= f(l) <= 1 && (f(l) != 0 ==> l in S)
    ensures -|S| <= Sum(f, lo, hi) <= |S|
    decreases hi - lo
  {
    if lo < hi {
      if lo in S {
        SumBound(f, lo + 1, hi, S - {lo});
        assert |S - {lo}| == |S| - 1;
      } else {
        SumBound(f, lo + 1, hi, S);
      }
    }
  }

  /** Congruence modulo Q is preserved by addition. */
  lemma CongruentAdd(a: int, a': int, b: int, b': int)
    requires a % Q == a' % Q && b % Q == b' % Q
    ensures (a + b) % Q == (a' + b') % Q
  {
  }
}
