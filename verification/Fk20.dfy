/** The batch proof generation of da/kzg_rs/fk20.py. */
module Fk20 {
  import opened Collections
  import opened Modular
  import opened Fft
  import opened FftTheory
  import opened RoundTrip
  import opened Roots
  import opened Convolution

  const PRIMITIVE_ROOT: nat := 7

  /** Membership in POWERS_OF_2 = {2, 4, ..., 2^31}. */
  ghost predicate IsPowerOfTwo(n: int) {
    PowerOfTwo(n) && 2 <= n <= 0x8000_0000
  }

  function Zeros(n: nat): (z: seq<int>)
    ensures |z| == n && forall i :: 0 <= i < n ==> z[i] == 0
  {
    seq(n, i => 0)
  }

  function Products(v: seq<int>, c: seq<int>, p: int): (r: seq<int>)
    requires p > 0 && |v| == |c|
    ensures |r| == |v| && forall i :: 0 <= i < |r| ==> r[i] == v[i] * c[i] % p
  {
    seq(|v|, i requires 0 <= i < |v| => Multiply(v[i], c[i], p))
  }

  ghost function RootsFor(n: nat, p: int): (r: seq<int>)
    requires p > 1 && n > 0
    ensures |r| == n
  {
    RootsOfUnity(PRIMITIVE_ROOT, n, p)
  }

  method Toeplitz1(globalParameters: seq<int>, degree: nat, p: int) returns (extendedFft: seq<int>)
    requires p > 1 && |globalParameters| == degree && IsPowerOfTwo(degree)
    requires (p - 1) % (2 * degree) == 0
    ensures PowerOfTwo(2 * degree)
    ensures extendedFft == Transform(globalParameters + Zeros(degree), RootsFor(2 * degree, p), p)
  {
    var roots := ComputeRootsOfUnity(PRIMITIVE_ROOT, degree * 2, p);
    var extended := globalParameters + Zeros(degree);
    extendedFft := FftG1(extended, roots, p);
  }

  method Toeplitz2(coefficients: seq<int>, extendedVector: seq<int>, p: int) returns (r: seq<int>)
    requires p > 1 && IsPowerOfTwo(|coefficients|) && |extendedVector| == |coefficients|
    requires (p - 1) % |coefficients| == 0
    ensures r == Products(extendedVector, Transform(coefficients, RootsFor(|coefficients|, p), p), p)
  {
    var roots := ComputeRootsOfUnity(PRIMITIVE_ROOT, |coefficients|, p);
    var coefficientsFft := FftChecked(coefficients, roots, p);
    r := Products(extendedVector, coefficientsFft, p);
  }

  method Toeplitz3(hExtendedFft: seq<int>, degree: nat, p: int) returns (h: seq<int>)
    requires p > 1 && PowerOfTwo(|hExtendedFft|) && degree <= |hExtendedFft|
    requires (p - 1) % |hExtendedFft| == 0
    ensures h == InverseTransform(hExtendedFft, RootsFor(|hExtendedFft|, p), p)[..degree]
  {
    var roots := ComputeRootsOfUnity(PRIMITIVE_ROOT, |hExtendedFft|, p);
    var t := IfftG1(hExtendedFft, roots, p);
    h := t[..degree];
  }

  /** The h vector that the three Toeplitz stages leave behind. */
  ghost function HVector(f: seq<int>, setup: seq<int>, p: int): (h: seq<int>)
    requires p > 1 && PowerOfTwo(|f|) && |setup| >= |f|
    ensures |h| == |f|
  {
    var d := |f|;
    assert PowerOfTwo(2 * d);
    var roots := RootsFor(2 * d, p);
    var x := Transform(Reverse(setup[..d]) + Zeros(d), roots, p);
    var c := Transform(Zeros(d) + f, roots, p);
    InverseTransform(Products(x, c, p), roots, p)[..d]
  }

  /** The conditions that fk20_generate_proofs and its stages assert. */
  ghost predicate Accepted(f: seq<int>, setup: seq<int>, p: int)
    requires p > 1
  {
    && |setup| >= |f|
    && IsPowerOfTwo(|f|)
    && IsPowerOfTwo(2 * |f|)
    && (p - 1) % |f| == 0
    && (p - 1) % (2 * |f|) == 0
  }

  method Fk20GenerateProofs(f: seq<int>, setup: seq<int>, p: int) returns (proofs: seq<int>)
    requires p > 1 && Accepted(f, setup, p)
    ensures proofs == Transform(HVector(f, setup, p), RootsFor(|f|, p), p)
  {
    var degree := |f|;
    var roots := ComputeRootsOfUnity(PRIMITIVE_ROOT, degree, p);
    var globalParameters := Reverse(setup[..degree]);
    var extendedVector := Toeplitz1(globalParameters, degree, p);
    var coefficients := Zeros(degree) + f;
    var hExtended := Toeplitz2(coefficients, extendedVector, p);
    var h := Toeplitz3(hExtended, degree, p);
    proofs := FftG1(h, roots, p);
  }
}

/** Why the batch proofs are the proofs of the separate divisions. */
module Fk20Theory {
  import opened Collections
  import opened Modular
  import opened Fft
  import opened FftTheory
  import opened RoundTrip
  import opened Roots
  import opened Convolution
  import opened Fk20

  /** The setup holds the powers of the secret s. */
  ghost predicate PowersOfSecret(setup: seq<int>, s: int, p: int)
    requires p > 0
  {
    forall j :: 0 <= j < |setup| ==> Cong(p, setup[j], Pow(s, j))
  }

  /** `g1_linear_combination`: the commitment to a polynomial. */
  function Commit(poly: seq<int>, setup: seq<int>, p: int): int
    requires p > 0
  {
    Sum(|poly|, j => At(poly, j) * At(setup, j)) % p
  }

  /** q * (X - u) + v == f, coefficient by coefficient, mod p. */
  ghost predicate IsQuotient(q: seq<int>, v: int, f: seq<int>, u: int, p: int)
    requires p > 0
  {
    && |q| + 1 == |f|
    && forall m :: 0 <= m < |f| ==>
         Cong(p, f[m], At(q, m - 1) - u * At(q, m) + if m == 0 then v else 0)
  }

  /** f[m + 1 + t] * b^t, with zeros above the degree. */
  function TailTerms(f: seq<int>, b: int, m: int): int -> int {
    t => At(f, m + 1 + t) * Pow(b, t)
  }

  /** The sum over j > m of f[j] * b^(j - m - 1). */
  function Tail(f: seq<int>, b: int, m: int): int {
    Sum(|f|, TailTerms(f, b, m))
  }

  /** Horner's rule for the tails. */
  lemma TailStep(f: seq<int>, b: int, m: nat)
    requires m < |f|
    ensures Tail(f, b, m - 1) == f[m] + b * Tail(f, b, m)
  {
    hide TailTerms;
    TailFirst(f, b, m);
    forall i | 0 <= i < |f| - 1
      ensures TailTerms(f, b, m - 1)(1 + i) == b * TailTerms(f, b, m)(i)
    {
      TailTerm(f, b, m, i);
    }
    HornerSum(|f|, b, TailTerms(f, b, m - 1), TailTerms(f, b, m));
  }

  lemma HornerSum(n: nat, b: int, g: int -> int, h: int -> int)
    requires n > 0 && h(n - 1) == 0
    requires forall i :: 0 <= i < n - 1 ==> g(1 + i) == b * h(i)
    ensures Sum(n, g) == g(0) + b * Sum(n, h)
  {
    var tail := i => g(1 + i);
    SumFirst(n, g, tail);
    SumScale(n - 1, b, h, tail);
  }

  lemma TailFirst(f: seq<int>, b: int, m: nat)
    requires m < |f|
    ensures TailTerms(f, b, m - 1)(0) == f[m] && TailTerms(f, b, m)(|f| - 1) == 0
  {
    assert Pow(b, 0) == 1;
    assert At(f, m + 1 + (|f| - 1)) == 0;
  }

  lemma TailTerm(f: seq<int>, b: int, m: int, i: nat)
    ensures TailTerms(f, b, m - 1)(1 + i) == b * TailTerms(f, b, m)(i)
  {
  }

  lemma TailEnd(f: seq<int>, b: int, m: int)
    requires m + 1 >= |f|
    ensures Tail(f, b, m) == 0
  {
    forall t | 0 <= t < |f|
      ensures TailTerms(f, b, m)(t) == 0
    {
      assert At(f, m + 1 + t) == 0;
    }
    SumZero(|f|, TailTerms(f, b, m));
  }

  /** f(u) */
  function Eval(f: seq<int>, u: int): int {
    Sum(|f|, j => At(f, j) * Pow(u, j))
  }

  lemma EvalIsTail(f: seq<int>, u: int)
    ensures Eval(f, u) == Tail(f, u, -1)
  {
    SumEq(|f|, j => At(f, j) * Pow(u, j), TailTerms(f, u, -1));
  }

  /** The tails at u are the quotient of f(X) - f(u) by X - u, exactly. */
  lemma QuotientExists(f: seq<int>, u: int, p: int)
    requires p > 0 && |f| > 0
    ensures IsQuotient(seq(|f| - 1, m => Tail(f, u, m)), Eval(f, u), f, u, p)
  {
    hide Tail, Eval;
    var q := seq(|f| - 1, m => Tail(f, u, m));
    EvalIsTail(f, u);
    TailEnd(f, u, |f| - 1);
    forall m | 0 <= m < |f|
      ensures f[m] == At(q, m - 1) - u * At(q, m) + if m == 0 then Eval(f, u) else 0
    {
      TailStep(f, u, m);
      assert At(q, m) == Tail(f, u, m);
    }
  }

  /** The quotient and the remainder are unique. */
  lemma {:induction false} QuotientUnique(q: seq<int>, v: int, f: seq<int>, u: int, p: int, m: int)
    requires p > 0 && IsQuotient(q, v, f, u, p) && -1 <= m < |f|
    ensures Cong(p, if m == -1 then v else At(q, m), Tail(f, u, m))
    decreases |f| - m
  {
    hide Tail;
    if m == |f| - 1 {
      TailEnd(f, u, m);
    } else {
      QuotientUnique(q, v, f, u, p, m + 1);
      TailStep(f, u, m + 1);
      CongMul(p, u, u, At(q, m + 1), Tail(f, u, m + 1));
      var k, rest := m + 1, if m == -1 then v else At(q, m);
      assert Cong(p, f[k], At(q, k - 1) - u * At(q, k) + if k == 0 then v else 0);
      Undo(p, f[k], rest, u * At(q, k), u * Tail(f, u, k));
    }
  }

  lemma Undo(p: int, a: int, b: int, x: int, y: int)
    requires p > 0 && Cong(p, a, b - x) && Cong(p, x, y)
    ensures Cong(p, b, a + y)
  {
    CongAdd(p, a, b - x, x, x);
    CongAdd(p, a, a, x, y);
  }

  /** What the Toeplitz stages convolve. */
  function ExtendedSetup(setup: seq<int>, d: nat): (x: seq<int>)
    requires |setup| >= d
    ensures |x| == 2 * d
  {
    Reverse(setup[..d]) + Zeros(d)
  }

  lemma ConvolutionTermZero(f: seq<int>, setup: seq<int>, m: nat, i: nat)
    requires |setup| >= |f| && m < |f| <= i < 2 * |f|
    ensures ConvTerms(ExtendedSetup(setup, |f|), Zeros(|f|) + f, m)(i) == 0
  {
  }

  lemma ConvolutionTerm(f: seq<int>, setup: seq<int>, s: int, p: int, m: nat, i: nat)
    requires p > 0 && |setup| >= |f| && PowersOfSecret(setup, s, p) && m < |f| && i < |f|
    ensures Cong(p, ConvTerms(ExtendedSetup(setup, |f|), Zeros(|f|) + f, m)(i), TailTerms(f, s, m)(|f| - 1 - i))
  {
    var d := |f|;
    var x, c := ExtendedSetup(setup, d), Zeros(d) + f;
    var y := At(f, m + 1 + (d - 1 - i));
    assert At(x, i) == setup[d - 1 - i];
    assert At(c, Wrap(m, i, 2 * d)) == y;
    CongMul(p, setup[d - 1 - i], Pow(s, d - 1 - i), y, y);
    MulAssoc(y, Pow(s, d - 1 - i), 1);
  }

  /** The convolution has the tails at the secret in its first half. */
  lemma ConvolutionIsTail(f: seq<int>, setup: seq<int>, s: int, p: int, m: nat)
    requires p > 0 && |setup| >= |f| && PowersOfSecret(setup, s, p) && m < |f|
    ensures Cong(p, Convolve(ExtendedSetup(setup, |f|), Zeros(|f|) + f)[m], Tail(f, s, m))
  {
    hide ConvTerms, TailTerms, Cong, ExtendedSetup, Zeros, PowersOfSecret;
    var d := |f|;
    var x, c := ExtendedSetup(setup, d), Zeros(d) + f;
    var g, tail := ConvTerms(x, c, m), TailTerms(f, s, m);
    var reversed := i => tail(d - 1 - i);
    forall i | d <= i < 2 * d
      ensures g(i) == 0
    {
      ConvolutionTermZero(f, setup, m, i);
    }
    forall i | 0 <= i < d
      ensures Cong(p, g(i), reversed(i))
    {
      ConvolutionTerm(f, setup, s, p, m, i);
    }
    FirstHalf(p, d, g, reversed);
    SumReverse(d, tail, reversed);
  }

  lemma FirstHalf(p: int, d: nat, g: int -> int, low: int -> int)
    requires p > 0 && forall i :: 0 <= i < d ==> Cong(p, g(i), low(i))
    requires forall i :: d <= i < 2 * d ==> g(i) == 0
    ensures Cong(p, Sum(2 * d, g), Sum(d, low))
  {
    hide Cong, Sum;
    var high := i => g(d + i);
    SumSplit(d, d, g, high);
    SumZero(d, high);
    SumCong(p, d, g, low);
  }

  /** The primitive root used must be a quadratic non-residue. */
  ghost predicate NonResidue(p: int)
    requires p > 1
  {
    Cong(p, Pow(PRIMITIVE_ROOT, (p - 1) / 2), -1)
  }

  /** The three Toeplitz stages compute h_m, the sum over j > m of f_j * s^(j-m-1). */
  lemma HVectorIsTail(f: seq<int>, setup: seq<int>, s: int, p: int, m: nat)
    requires Prime(p) && p > 2 && NonResidue(p) && Accepted(f, setup, p)
    requires PowersOfSecret(setup, s, p) && m < |f|
    ensures Cong(p, HVector(f, setup, p)[m], Tail(f, s, m))
  {
    var d := |f|;
    var roots := RootsFor(2 * d, p);
    var x, c := ExtendedSetup(setup, d), Zeros(d) + f;
    hide Transform, InverseTransform, Convolve, Pow, Tail;
    HalfTurnExactly(PRIMITIVE_ROOT, 2 * d, p);
    var products := Products(Transform(x, roots, p), Transform(c, roots, p), p);
    InverseOfProduct(x, c, products, roots, RootOfUnity(PRIMITIVE_ROOT, 2 * d, p), p, m);
    ConvolutionIsTail(f, setup, s, p, m);
    CongMod(p, Convolve(x, c)[m]);
  }

  /** The double sum is symmetric in the secret and the evaluation point. */
  lemma TailsSwap(f: seq<int>, s: int, u: int)
    ensures Sum(|f|, m => Tail(f, s, m) * Pow(u, m)) == Sum(|f|, m => Tail(f, u, m) * Pow(s, m))
  {
    var d := |f|;
    var grid := (m: int, t: int) => At(f, m + 1 + t) * Pow(s, t) * Pow(u, m);
    var a, b := m => Tail(f, s, m) * Pow(u, m), t => Tail(f, u, t) * Pow(s, t);
    forall m | 0 <= m < d
      ensures a(m) == Sum(d, t => grid(m, t))
    {
      TailRow(f, s, u, m, t => grid(m, t));
    }
    forall t | 0 <= t < d
      ensures b(t) == Sum(d, m => grid(m, t))
    {
      forall m | 0 <= m < d
        ensures grid(m, t) == At(f, t + 1 + m) * Pow(u, m) * Pow(s, t)
      {
        SwapFactors(At(f, m + 1 + t), Pow(s, t), Pow(u, m));
      }
      TailRow(f, u, s, t, m => grid(m, t));
    }
    SumExchange(d, d, grid, a, b);
  }

  lemma SwapFactors(a: int, b: int, c: int)
    ensures a * b * c == a * c * b
  {
  }

  lemma TailRow(f: seq<int>, s: int, u: int, m: int, row: int -> int)
    requires forall t :: 0 <= t < |f| ==> row(t) == At(f, m + 1 + t) * Pow(s, t) * Pow(u, m)
    ensures Tail(f, s, m) * Pow(u, m) == Sum(|f|, row)
  {
    var g, c := TailTerms(f, s, m), Pow(u, m);
    SumScale(|f|, c, g, row);
    MulAssoc(c, Tail(f, s, m), 1);
  }

  /** Evaluating the h vector at a root gives the proof at that root. */
  lemma ProofIsTailSum(f: seq<int>, setup: seq<int>, s: int, p: int, i: nat)
    requires Prime(p) && p > 2 && NonResidue(p) && Accepted(f, setup, p)
    requires PowersOfSecret(setup, s, p) && i < |f|
    ensures Cong(p, Transform(HVector(f, setup, p), RootsFor(|f|, p), p)[i],
                 Sum(|f|, m => Tail(f, s, m) * Pow(RootsFor(|f|, p)[i], m)))
  {
    hide Transform, HVector, Tail, Pow, Cong;
    var d, w, h := |f|, RootOfUnity(PRIMITIVE_ROOT, |f|, p), HVector(f, setup, p);
    var roots := RootsFor(d, p);
    HalfTurnExactly(PRIMITIVE_ROOT, d, p);
    TransformIsDft(h, roots, w, p, i);
    var g := m => Tail(f, s, m) * Pow(roots[i], m);
    forall m | 0 <= m < d
      ensures Cong(p, Terms(h, w, i)(m), g(m))
    {
      HVectorIsTail(f, setup, s, p, m);
      PowProduct(w, i, m);
      CongSymmetric(p, roots[i], Pow(w, i));
      PowCong(p, Pow(w, i), roots[i], m);
      CongMul(p, h[m], Tail(f, s, m), Pow(w, i * m), Pow(roots[i], m));
    }
    SumCong(p, d, Terms(h, w, i), g);
    CongTrans(p, Transform(h, roots, p)[i], Dft(h, w, i), Sum(d, g));
  }

  /** The commitment to a quotient at u is the same sum with the roles exchanged. */
  lemma CommitIsTailSum(q: seq<int>, v: int, f: seq<int>, setup: seq<int>, s: int, u: int, p: int)
    requires p > 0 && |f| > 0 && |setup| >= |f| && PowersOfSecret(setup, s, p) && IsQuotient(q, v, f, u, p)
    ensures Cong(p, Commit(q, setup, p), Sum(|f|, m => Tail(f, u, m) * Pow(s, m)))
  {
    hide Tail, Pow;
    var n, g, t := |q|, j => At(q, j) * At(setup, j), m => Tail(f, u, m) * Pow(s, m);
    forall m | 0 <= m < n
      ensures Cong(p, g(m), t(m))
    {
      QuotientUnique(q, v, f, u, p, m);
      CongMul(p, At(q, m), Tail(f, u, m), At(setup, m), Pow(s, m));
    }
    SumCong(p, n, g, t);
    CongMod(p, Sum(n, g));
    TailEnd(f, u, n);
    assert Sum(n + 1, t) == Sum(n, t) + t(n);
  }

  /** Main result: the proof at index i is the commitment to the exact quotient of
      f(X) - f(u) by X - u, for u the i-th root of unity. */
  lemma BatchProofsAreQuotients(f: seq<int>, setup: seq<int>, s: int, p: int, i: nat, q: seq<int>, v: int)
    requires Prime(p) && p > 2 && NonResidue(p) && Accepted(f, setup, p)
    requires PowersOfSecret(setup, s, p) && i < |f|
    requires IsQuotient(q, v, f, RootsFor(|f|, p)[i], p)
    ensures Transform(HVector(f, setup, p), RootsFor(|f|, p), p)[i] == Commit(q, setup, p)
  {
    hide Transform, HVector, Tail, Pow, Cong;
    var u := RootsFor(|f|, p)[i];
    ProofIsTailSum(f, setup, s, p, i);
    TailsSwap(f, s, u);
    CommitIsTailSum(q, v, f, setup, s, u, p);
    ResiduesEqual(p, Transform(HVector(f, setup, p), RootsFor(|f|, p), p)[i], Commit(q, setup, p),
                  Sum(|f|, m => Tail(f, s, m) * Pow(u, m)));
  }

  lemma ResiduesEqual(p: int, a: int, b: int, c: int)
    requires p > 0 && 0 <= a < p && 0 <= b < p && Cong(p, a, c) && Cong(p, b, c)
    ensures a == b
  {
    DivModUnique(p, a, 0, a);
    DivModUnique(p, b, 0, b);
  }

  /** The hypotheses of the main result can be met: in the field of 5 elements, for degree 2 and
      secret 2. */
  lemma HypothesesCanBeMet()
    ensures Prime(5) && NonResidue(5) && Accepted([1, 1], [1, 2], 5) && PowersOfSecret([1, 2], 2, 5)
  {
    assert Pow(PRIMITIVE_ROOT, 2) == 7 * Pow(PRIMITIVE_ROOT, 1) == 49;
    assert Pow(2, 0) == 1 && Pow(2, 1) == 2 * Pow(2, 0);
    assert PowerOfTwo(1);
    assert PowerOfTwo(2);
  }
}
