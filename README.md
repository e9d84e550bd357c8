# A verified model of a toy Kyber-style KEM

The repository's `kyber/` scripts implement a small key-encapsulation scheme over the ring
Z_3329[x]/(x^256 + 1) with vectors of K = 2 polynomials. Polynomials are Python dicts from
exponent to coefficient. Three ring operations act on them: `add_polynomials`,
`sub_polynomials` and the negacyclic `multiply_polynomials` (x^256 = -1).

The protocol is built from those operations:

- `generate_public_key` computes t = A s + e;
- `encapsulate` computes u = A r + e1 and v = t . r + e2 + m;
- `decapsulate` computes w = v - s . u and reads bit 1 wherever a coefficient of w lies in [832, 2496].

`kyattack.py` adds the conversion to dense coefficient lists (`poly_to_coeffs`,
`vector_to_coeffs`) and the 512 x 512 multiplication matrix of A (`matrix_A_to_coeff_matrix`).
`final_kyber_attack.py` has a second `multiply_polynomials`, an `encapsulate` with a wide e2,
and `attack_message`, which reads a message bit off v by rounding to the nearest multiple of 1337.

The model keeps the scripts' imperative form. The dict loops are Dafny methods over `map<int, int>`,
each proved against a specification function. The coefficient matrix is filled in place in an
`array2`, and randomness is passed in as parameters. A dense view `Dense(p)` (length N, values
reduced into [0, Q), 0 for an absent exponent) connects the sparse loops to the ring
Z_Q[x]/(x^N + 1). Ring laws are proved on exact integer convolutions and then reduced modulo Q.

Modules:

- `Params`: N, Q, K.
- `Sums`: finite sums and their algebra.
- `Negacyclic`: the dense ring.
- `SparsePoly`: the three dict operations.
- `Kyber`: the protocol steps.
- `Samplers`: `generate_matrix` and `generate_vector` with their draws passed in.
- `Noise`: the exact decomposition of w.
- `Correctness`: the decoding theorems and the counterexample.
- `KyAttack`: the coefficient lists and the matrix.
- `FinalAttack`: the third script.

Facts about the scripts that the model records:

- `encapsulate` computes u = A r + e1, so for some sampled inputs decapsulation decodes an exponent the message lacks; see Findings.
- No script checks that exponents lie in [0, n); the model states that range as a precondition where the code relies on it.
- `decapsulate` prints the decoded exponents; the model returns them as a set.
- The coefficient of e2 in the first two scripts is drawn from {1, 2, 0} (kyber/kyber_256_final.py:121).

## Model

| member | source | states |
|---|---|---|
| SparsePoly.Add | kyber/kyber_256_final.py:74-81 | the result's exponents are those of a and of b; an exponent only in a keeps a's value, a shared one gets (a + b) mod Q, one only in b gets b mod Q |
| SparsePoly.PolyAddDense | kyber/kyber_256_final.py:74-81 | in the dense view addition is coefficientwise addition modulo Q |
| SparsePoly.PolyAddEmpty | kyber/kyber_256_final.py:74-81 | adding the empty dict returns a unchanged |
| SparsePoly.PolyAddValid | kyber/kyber_256_final.py:74-81 | exponents stay in [0, N) when both inputs' do; values stay in [0, Q) when a's do |
| SparsePoly.Sub | kyber/kyber_256_final.py:93-100 | exponents of a and of b; an exponent of b gets (Q + a[k] - b[k]) mod Q with a[k] = 0 when absent; one only in a keeps a's value |
| SparsePoly.PolySubDense | kyber/kyber_256_final.py:93-100 | in the dense view subtraction is coefficientwise subtraction modulo Q |
| SparsePoly.PolySubSelf | kyber/kyber_256_final.py:93-100 | a - a keeps a's exponents, each with value 0, and is zero in the dense view |
| SparsePoly.PolySubValid | kyber/kyber_256_final.py:93-100 | exponent range and reduced values are preserved |
| SparsePoly.PolyAddSubCancel | kyber/kyber_256_final.py:74-100 | (a - b) + b equals a in the dense view |
| SparsePoly.TermProduct | kyber/kyber_256_final.py:63-67 | one pair of terms lands at key1 + key2, less N when that reaches N, with the product of the coefficients negated on wrap-around, in [0, Q) |
| SparsePoly.PolyMul | kyber/kyber_256_final.py:59-72 | the product's exponents are exactly the wrapped sums key1 + key2 of the two inputs, all in [0, N), with values in [0, Q) |
| SparsePoly.Multiply | kyber/kyber_256_final.py:59-72 | the nested loop over the two dicts builds exactly PolyMul(a, b) |
| SparsePoly.PolyMulDense | kyber/kyber_256_final.py:59-72 | in the dense view multiplication is the negacyclic convolution modulo Q |
| SparsePoly.MulSupport | kyber/kyber_256_final.py:59-72 | a nonzero coefficient of the exact product only occurs at an exponent the loop writes |
| SparsePoly.PolyMulComm | kyber/kyber_256_final.py:59-72 | multiply(a, b) and multiply(b, a) are the same dict |
| SparsePoly.PolyMulAddDense | kyber/kyber_256_final.py:59-81 | multiplication distributes over add_polynomials |
| SparsePoly.PolyMulAssocDense | kyber/kyber_256_final.py:59-72 | multiplication is associative in the dense view |
| SparsePoly.PolyMulWrapExample | kyber/kyber_256_final.py:63-67 | {5: 3} times {N - 2: 4} is {3: Q - 12} |
| Negacyclic.IMulMono | kyber/kyber_256_final.py:63-67 | x^k1 times x^k2 is x^(k1+k2) below N and -x^(k1+k2-N) from N on |
| Negacyclic.IMulComm | kyber/kyber_256_final.py:59-72 | the exact negacyclic convolution is commutative |
| Negacyclic.IMulAssoc | kyber/kyber_256_final.py:59-72 | the exact negacyclic convolution is associative |
| Negacyclic.IMulAddLeft | kyber/kyber_256_final.py:59-81 | the exact convolution distributes over addition |
| Negacyclic.DMulAddLeft | kyber/kyber_256_final.py:59-81 | the reduced product distributes over the reduced sum |
| Negacyclic.DSubSelf | kyber/kyber_256_final.py:93-100 | x - x is zero modulo Q |
| Negacyclic.DAddSubCancel | kyber/kyber_256_final.py:74-100 | (x - y) + y is x reduced modulo Q |
| Negacyclic.ProductBound | kyber/kyber_256_final.py:45-72 | a product of two vectors with coefficients in {-1, 0, 1} has coefficients bounded by the number of terms of the first |
| Samplers.FillElement | kyber/kyber_256_final.py:53-54 | filling from distinct exponents gives one term per exponent, with its drawn coefficient, and no other term |
| Samplers.MatrixElement | kyber/kyber_256_final.py:34-40 | an entry of generate_matrix has 9 to 14 exponents in [0, N) and coefficients in [1, 99] |
| Samplers.GenerateMatrix | kyber/kyber_256_final.py:30-42 | the sampled matrix satisfies MatrixSample, and each entry holds its drawn terms |
| Samplers.VectorElement | kyber/kyber_256_final.py:48-55 | an entry of generate_vector has 5 to 9 exponents with coefficients -1, 0, 1 stored as Q - 1, 0, 1 |
| Samplers.GenerateVector | kyber/final_kyber_attack.py:34-47 | the sampled vector satisfies VectorSample, and entry i holds (sign + Q) mod Q at each drawn exponent |
| Kyber.MatrixVector | kyber/kyber_256_final.py:84-89 | row i is sum_j A[i][j] * x[j] accumulated in loop order, plus e[i] |
| Kyber.MatVecInRange | kyber/kyber_256_final.py:83-91 | A x + e has exponents in [0, N) when its inputs do |
| Kyber.InnerProduct | kyber/kyber_256_final.py:114-116 | the accumulator is sum_i x[i] * y[i], added in loop order |
| Kyber.GeneratePublicKey | kyber/kyber_256_final.py:83-91 | t = A s + e, with exponents in range so t can be multiplied again |
| Kyber.Encapsulate | kyber/kyber_256_final.py:103-135 | u = A r + e1 and v = (t . r + e2) + message |
| Kyber.EncapsulateTransposed | kyber/kyber_256_final.py:107-112 | the corrected step: u = A^T r + e1, v unchanged |
| Kyber.TransposeInRange | kyber/kyber_256_final.py:107-112 | A^T of a matrix with exponents in range has them in range |
| Kyber.DecodeBits | kyber/kyber_256_final.py:147-150 | the exponents collected are exactly those of w whose value is in [832, 2496] |
| Kyber.DecodeOnStep | kyber/kyber_256_final.py:147-150 | one more exponent enters the decoded set exactly when its value is in the band |
| Kyber.Decapsulate | kyber/kyber_256_final.py:137-150 | the decoded exponents are those of w = v - sum_i s[i] * u[i] in the band |
| Noise.SchemeCongruent | kyber/kyber_256_final.py:83-150 | the sparse round trip is congruent modulo Q to the same expression on exact vectors |
| Noise.NoiseDecomposition | kyber/kyber_256_final.py:83-150 | w = m + e2 + e . r - s . e1 + (A01 - A10)(s1 r0 - s0 r1), reduced modulo Q |
| Noise.CrossSymmetric | kyber/kyber_256_final.py:107-112 | the cross term vanishes when A01 = A10 |
| Noise.CrossFree | kyber/kyber_256_final.py:107-112 | with A01 = A10 the noise expression has no cross term |
| Noise.SymmetricNoise | kyber/kyber_256_final.py:83-150 | when A01 and A10 agree modulo Q, w = m + e2 + e . r - s . e1 modulo Q |
| Noise.ExactNoiseTransposed | kyber/kyber_256_final.py:107-112 | with u = A^T r + e1 the A terms of v and of s . u cancel exactly |
| Noise.TransposedNoise | kyber/kyber_256_final.py:83-150 | with u = A^T r + e1, w = m + e2 + e . r - s . e1 modulo Q for every A |
| Correctness.Band | kyber/kyber_256_final.py:148 | 1337 b + n with noise n in [-505, 831] reduces into [832, 2496] exactly when b = 1 |
| Correctness.DecodeDense | kyber/kyber_256_final.py:147-149 | an exponent is decoded exactly when its dense coefficient is in the band |
| Correctness.DecodeMessage | kyber/kyber_256_final.py:147-149 | a w that is a scaled message plus noise in [-505, 831] decodes to exactly the message's exponents |
| Correctness.InnerSmall | kyber/kyber_256_final.py:45-57 | the inner product of two sampled vectors has coefficients in [-18, 18] |
| Correctness.NoiseSmall | kyber/kyber_256_final.py:119-123 | e2 + e . r - s . e1 lies in [-36, 38] at every coefficient |
| Correctness.SmallNoiseDecodes | kyber/kyber_256_final.py:137-150 | a w equal to the message plus that noise decodes to exactly the message's exponents |
| Correctness.DecapsulationRecoversMessage | kyber/kyber_256_final.py:103-150 | as written, decapsulation returns exactly the message's exponents when A01 and A10 agree modulo Q |
| Correctness.DecapsulationRecoversMessageTransposed | kyber/kyber_256_final.py:103-150 | with u = A^T r + e1, decapsulation returns exactly the message's exponents for every sampled input |
| Correctness.EncapsulateWithoutTranspose | kyber/kyber_256_final.py:107-112 | as written, some inputs all samplers can produce make decapsulation return an exponent the message does not have |
| KyAttack.PolyToCoeffs | kyber/kyattack.py:154-158 | the list has n entries, poly[i] mod Q at each exponent i of poly and 0 elsewhere |
| KyAttack.CoeffListDense | kyber/kyattack.py:154-158 | with n = N the list is the dense view of the polynomial |
| KyAttack.VectorToCoeffs | kyber/kyattack.py:173-177 | the extended list is the concatenation of the K coefficient lists |
| KyAttack.CoeffVectorBlocks | kyber/kyattack.py:173-177 | the list has K n entries, and block j is poly_to_coeffs(t[j], n) |
| KyAttack.CoeffMatrix | kyber/kyattack.py:160-171 | the four loops fill a K N x K N array whose every entry is in [0, Q) and equals the closed-form block entry |
| KyAttack.StepValue | kyber/kyattack.py:168-170 | each write stores sign * coeffs[l] mod Q at row (l + m) mod N of column m |
| KyAttack.CoeffMatrixRow | kyber/kyattack.py:160-171 | row I N + r of the matrix times vector_to_coeffs(s) is coefficient r of sum_j A[I][j] * s[j] |
| KyAttack.CoeffMatrixMultiplies | kyber/kyattack.py:160-177 | the matrix times vector_to_coeffs(s), reduced, is vector_to_coeffs of the products A s |
| FinalAttack.WrappedTerm | kyber/final_kyber_attack.py:53-56 | the exponent (key1 + key2) mod N and the product negated on wrap-around give the same term as the first script |
| FinalAttack.MultiplyWrapped | kyber/final_kyber_attack.py:49-61 | this version builds exactly the same dict as the first script's multiplication |
| FinalAttack.MatrixVectorWrapped | kyber/final_kyber_attack.py:72-80 | with this multiplication the row loop still gives A x + e |
| FinalAttack.InnerProductWrapped | kyber/final_kyber_attack.py:92-94 | with this multiplication the accumulator still gives sum_i x[i] * y[i] |
| FinalAttack.GeneratePublicKeyWrapped | kyber/final_kyber_attack.py:72-80 | t = A s + e, with exponents in range |
| FinalAttack.EncapsulateWrapped | kyber/final_kyber_attack.py:82-108 | u = A r + e1 and v = (t . r + e2) + message, with e2 one term with coefficient in [0, bound) and bound in [100, 3000) |
| FinalAttack.RoundScaled | kyber/final_kyber_attack.py:114 | the result is the integer nearest c / 1337, strictly within one half of it |
| FinalAttack.RoundUnique | kyber/final_kyber_attack.py:114 | only one integer is within one half of c / 1337, so no tie arises |
| FinalAttack.AttackOf | kyber/final_kyber_attack.py:111-120 | the recovered dict has exactly the exponents of v |
| FinalAttack.AttackMessage | kyber/final_kyber_attack.py:111-120 | every exponent of v gets the rounded multiple if the coefficient is within 100 of it, else 0, and no other exponent is added |
| FinalAttack.AttackValueNear | kyber/final_kyber_attack.py:114-117 | a coefficient within 99 of b * 1337 is read as b |
| FinalAttack.AttackValueSound | kyber/final_kyber_attack.py:116-117 | a nonzero value is read only from a coefficient within 99 of its multiple of 1337 |
| FinalAttack.AttackValueRange | kyber/final_kyber_attack.py:114-117 | a coefficient in [0, Q) is read as 0, 1 or 2 |
| FinalAttack.AttackOfRange | kyber/final_kyber_attack.py:111-120 | for v with reduced coefficients every recovered value is 0, 1 or 2 |
| FinalAttack.AttackScaledBit | kyber/final_kyber_attack.py:114-117 | the scaled bit 1337 is read as 1 and 0 as 0 |

## Left out

- Printing (`print_matrix`, `print_vector`, the strings built in `decapsulate` and in the demo code) is presentation only and is not modelled. `Kyber.Decapsulate` returns the set of decoded exponents that the scripts print.
- Randomness (`np.random.randint`, `np.random.choice`) is replaced by parameters: the sampled polynomials, or the drawn exponent and coefficient lists for `Samplers`. Distributions and the probability of correct decryption are not modelled.
- The e2 draw inside `encapsulate` (kyber/kyber_256_final.py:119-123, kyber/final_kyber_attack.py:96-100) is not built by a method. Its shape is the precondition `NoiseTerm` or `WideNoiseTerm`.
- The demo code at module level (message construction, comparison of powers) is not modelled. Its message shape, bits scaled by 1337, is the precondition `ScaledMessage`.
- `attack_secret_vector` (kyber/kyattack.py:179-215) is not modelled: it calls SageMath's LLL and `solve_left` and uses a floating-point norm heuristic.
- The ring operations, `generate_public_key`, `encapsulate` and `decapsulate` of kyber/kyattack.py:61-150 are the same code as in kyber/kyber_256_final.py, so `SparsePoly` and `Kyber` model both files. The same holds for `add_polynomials` and the two samplers of kyber/final_kyber_attack.py.
- SparsePoly.Multiply: requires every exponent of both inputs in [0, N). The loop's result on out-of-range exponents (reduced once modulo N, sign flipped once) is not modelled, because every polynomial the scheme builds has exponents in range. The same holds for FinalAttack.MultiplyWrapped.
- KyAttack.PolyToCoeffs: requires every exponent in [0, n). An exponent of n or more would make Python raise IndexError, and a negative one would write from the end of the list. Neither case is modelled.
- KyAttack.CoeffMatrix: the numpy int64 entries are modelled as unbounded integers. Every value stays in (-Q, 2Q), so no overflow is lost.
- KyAttack.CoeffMatrix: only n = N and q = Q, the values the one call at kyber/kyattack.py:180 passes; the general parameters are not modelled.
- FinalAttack.RoundScaled: `round(coeff / 1337)` is evaluated in floating point. The model uses exact rational rounding. The two agree on coefficients of the size the scripts produce, because c / 1337 is never within 1/2674 of a half-integer.
- FinalAttack.AttackMessage: only the default `scaling_factor = 1337` and `threshold = 100` are modelled, the values the only call uses.
- Dafny maps are values, so `add_polynomials` and `sub_polynomials` leaving `a` unchanged (`a.copy()`) holds by construction and is not a separate contract.

## Findings

| source | as written | input that shows it | evidently intended | confidence | as-written member | corrected member |
|---|---|---|---|---|---|---|
| kyber/kyber_256_final.py:107-112 (the same in kyber/kyattack.py:107-112 and kyber/final_kyber_attack.py:85-90) | u[i] = sum_j A[i][j] * r[j] + e1[i], i.e. u = A r + e1, so w = v - s . u keeps the cross term (A01 - A10)(s1 r0 - s0 r1) | A01 = 99 (1 + x + ... + x^8) and every other entry of A is 1 + x + ... + x^8; s = (0, 1 + ... + x^8), r = (1, 0), e = e1 = 0, e2 = 0 x^0, message 1337 x^100. Then w has 882 at x^8, which lies in [832, 2496], so exponent 8 is decoded as a 1 | u = A^T r + e1, as in the Kyber scheme the script imitates; decapsulation then returns exactly the message's exponents | not executed | Correctness.EncapsulateWithoutTranspose | Kyber.EncapsulateTransposed, Correctness.DecapsulationRecoversMessageTransposed |
