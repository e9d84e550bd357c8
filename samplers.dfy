/**
 * generate_matrix and generate_vector with their random draws passed in. Each polynomial
 * is filled term by term from a list of distinct exponents (drawn without replacement)
 * and a list of coefficients; the builders are proved to give exactly the shapes that
 * key generation, encapsulation and the decoding theorems take as preconditions.
 */
module Samplers {
  import opened Params
  import opened SparsePoly
  import opened Kyber

  /** No exponent is drawn twice (np.random.choice with replace=False). */
  predicate Distinct(powers: seq<int>) {
    forall i, j :: 0 <= i < j < |powers| ==> powers[i] != powers[j]
  }

  /** The draws for one entry of generate_matrix: 9 to 14 exponents, coefficients in [1, 100). */
  predicate MatrixDraw(powers: seq<int>, coeffs: seq<int>) {
    9 <= |powers| <= 14 && |coeffs| == |powers| && Distinct(powers) &&
    forall j :: 0 <= j < |powers| ==> 0 <= powers[j] < N && 1 <= coeffs[j] < 100
  }

  /** The draws for one entry of generate_vector: 5 to 9 exponents, coefficients from [1, 0, -1]. */
  predicate VectorDraw(powers: seq<int>, signs: seq<int>) {
    5 <= |powers| <= 9 && |signs| == |powers| && Distinct(powers) &&
    forall j :: 0 <= j < |powers| ==> 0 <= powers[j] < N && -1 <= signs[j] <= 1
  }

  /**
   * The inner loop of both samplers, element[power_list[j]] = coeff_list[j]: one term per
   * drawn exponent, with its drawn coefficient and no other term.
   */
  method FillElement(powers: seq<int>, coeffs: seq<int>) returns (element: Poly)
    requires |coeffs| == |powers| && Distinct(powers)
    ensures |element| == |powers|
    ensures forall k :: k in element <==> k in powers
    ensures forall j :: 0 <= j < |powers| ==> powers[j] in element && element[powers[j]] == coeffs[j]
  {
    element := map[];
    for j := 0 to |powers|
      invariant |element| == j
      invariant forall k :: k in element <==> k in powers[..j]
      invariant forall j' :: 0 <= j' < j ==> powers[j'] in element && element[powers[j']] == coeffs[j']
    {
      assert forall i :: 0 <= i < j ==> powers[i] != powers[j];
      assert powers[j] !in element;
      element := element[powers[j] := coeffs[j]];
      assert powers[..j + 1] == powers[..j] + [powers[j]];
    }
    assert powers[..|powers|] == powers;
  }

  /** Every term of a filled element carries one of the drawn coefficients. */
  lemma FilledValues(element: Poly, powers: seq<int>, coeffs: seq<int>, k: int)
    requires |coeffs| == |powers| && k in element
    requires forall k :: k in element <==> k in powers
    requires forall j :: 0 <= j < |powers| ==> powers[j] in element && element[powers[j]] == coeffs[j]
    ensures exists j :: 0 <= j < |powers| && powers[j] == k && element[k] == coeffs[j]
  {
    var j :| 0 <= j < |powers| && powers[j] == k;
  }

  /** One entry of generate_matrix. */
  method MatrixElement(powers: seq<int>, coeffs: seq<int>) returns (element: Poly)
    requires MatrixDraw(powers, coeffs)
    ensures InRange(element) && 9 <= |element| <= 14
    ensures forall k :: k in element ==> 1 <= element[k] <= 99
    ensures forall j :: 0 <= j < |powers| ==> powers[j] in element && element[powers[j]] == coeffs[j]
  {
    element := FillElement(powers, coeffs);
    forall k | k in element ensures 0 <= k < N && 1 <= element[k] <= 99 {
      FilledValues(element, powers, coeffs, k);
    }
  }

  /** One entry of generate_vector: the signs are stored as (sign + Q) % Q. */
  method VectorElement(powers: seq<int>, signs: seq<int>) returns (element: Poly)
    requires VectorDraw(powers, signs)
    ensures SmallPoly(element)
    ensures forall j :: 0 <= j < |powers| ==> powers[j] in element && element[powers[j]] == (signs[j] + Q) % Q
  {
    var coeffs := seq(|signs|, j requires 0 <= j < |signs| => (signs[j] + Q) % Q);
    element := FillElement(powers, coeffs);
    forall k | k in element ensures 0 <= k < N && (element[k] == 0 || element[k] == 1 || element[k] == Q - 1) {
      FilledValues(element, powers, coeffs, k);
    }
  }

  /** generate_vector(name): K small polynomials, entry i built from the i-th draws. */
  method GenerateVector(powers: seq<seq<int>>, signs: seq<seq<int>>) returns (vec: Vec)
    requires |powers| == K && |signs| == K
    requires forall i :: 0 <= i < K ==> VectorDraw(powers[i], signs[i])
    ensures VectorSample(vec)
    ensures forall i, j :: 0 <= i < K && 0 <= j < |powers[i]| && j < |signs[i]| ==>
      powers[i][j] in vec[i] && vec[i][powers[i][j]] == (signs[i][j] + Q) % Q
  {
    vec := seq(K, i => map[]);
    for i := 0 to K
      invariant |vec| == K
      invariant forall i' :: 0 <= i' < i ==> SmallPoly(vec[i'])
      invariant forall i', j :: 0 <= i' < i && 0 <= j < |powers[i']| && j < |signs[i']| ==>
        powers[i'][j] in vec[i'] && vec[i'][powers[i'][j]] == (signs[i'][j] + Q) % Q
    {
      var element := VectorElement(powers[i], signs[i]);
      vec := vec[i := element];
    }
  }

  /** generate_matrix(): K x K entries, entry (i, j) built from the (i, j)-th draws. */
  method GenerateMatrix(powers: seq<seq<seq<int>>>, coeffs: seq<seq<seq<int>>>) returns (A: Matrix)
    requires |powers| == K && |coeffs| == K
    requires forall i :: 0 <= i < K ==> |powers[i]| == K && |coeffs[i]| == K
    requires forall i, j :: 0 <= i < K && 0 <= j < K ==> MatrixDraw(powers[i][j], coeffs[i][j])
    ensures MatrixSample(A)
    ensures forall i, j, l :: 0 <= i < K && 0 <= j < K && 0 <= l < |powers[i][j]| && l < |coeffs[i][j]| ==>
      powers[i][j][l] in A[i][j] && A[i][j][powers[i][j][l]] == coeffs[i][j][l]
  {
    A := seq(K, i => seq(K, j => map[]));
    for i := 0 to K
      invariant |A| == K && forall i' :: 0 <= i' < K ==> |A[i']| == K
      invariant forall i', j :: 0 <= i' < i && 0 <= j < K ==> MatrixEntry(A[i'][j], powers[i'][j], coeffs[i'][j])
    {
      for j := 0 to K
        invariant |A| == K && forall i' :: 0 <= i' < K ==> |A[i']| == K
        invariant forall i', j' :: 0 <= i' < i && 0 <= j' < K ==> MatrixEntry(A[i'][j'], powers[i'][j'], coeffs[i'][j'])
        invariant forall j' :: 0 <= j' < j ==> MatrixEntry(A[i][j'], powers[i][j'], coeffs[i][j'])
      {
        var element := MatrixElement(powers[i][j], coeffs[i][j]);
        A := A[i := A[i][j := element]];
      }
    }
  }

  /** What MatrixElement promises about one entry. */
  predicate MatrixEntry(element: Poly, powers: seq<int>, coeffs: seq<int>) {
    InRange(element) && 9 <= |element| <= 14 && (forall k :: k in element ==> 1 <= element[k] <= 99) &&
    |coeffs| == |powers| && forall l :: 0 <= l < |powers| ==> powers[l] in element && element[powers[l]] == coeffs[l]
  }
}
