/** Cyclic convolution and its transform. */
module Convolution {
  import opened Modular
  import opened Fft
  import opened FftTheory
  import opened RoundTrip

  /** m - i modulo n, for indices below n. */
  function Wrap(m: int, i: int, n: int): int {
    if i <= m then m - i else m - i + n
  }

  function ConvTerms(x: seq<int>, c: seq<int>, m: int): int -> int
    requires |c| > 0
  {
    i => At(x, i) * At(c, Wrap(m, i, |c|))
  }

  /** The cyclic convolution of two lists of the same length. */
  function Convolve(x: seq<int>, c: seq<int>): (r: seq<int>)
    requires |x| == |c| > 0
    ensures |r| == |x|
    ensures forall m :: 0 <= m < |r| ==> r[m] == Sum(|x|, ConvTerms(x, c, m))
  {
    seq(|x|, m => Sum(|x|, ConvTerms(x, c, m)))
  }

  lemma SumRotate(n: nat, i: nat, g: int -> int, shifted: int -> int, low: int -> int)
    requires i < n
    requires forall m :: 0 <= m < i ==> low(m) == shifted(m) && low(m) == g(n - i + m)
    requires forall m :: 0 <= m < n - i ==> g(m) == shifted(i + m)
    ensures Sum(n, shifted) == Sum(n, g)
  {
    hide Sum;
    SumSplit(i, n - i, shifted, g);
    SumEq(i, shifted, low);
    SumSplit(n - i, i, g, low);
  }

  /** A sum is unchanged by a cyclic shift of its index. */
  lemma CyclicShift(n: nat, i: nat, g: int -> int, shifted: int -> int)
    requires i < n && forall m :: 0 <= m < n ==> shifted(m) == g(Wrap(m, i, n))
    ensures Sum(n, shifted) == Sum(n, g)
  {
    hide Sum;
    var low := m => g(n - i + m);
    forall m | 0 <= m < i
      ensures low(m) == shifted(m)
    {
      assert Wrap(m, i, n) == n - i + m;
    }
    forall m | 0 <= m < n - i
      ensures g(m) == shifted(i + m)
    {
      assert Wrap(i + m, i, n) == m;
    }
    SumRotate(n, i, g, shifted, low);
  }

  /** The sum over m of c[(m - i) mod n] * w^(k * m), term by term. */
  function ShiftedTerms(c: seq<int>, w: int, k: int, i: int): int -> int
    requires |c| > 0
  {
    m => At(c, Wrap(m, i, |c|)) * Pow(w, k * m)
  }

  lemma ShiftedTerm(c: seq<int>, w: int, p: int, k: nat, i: nat, m: nat)
    requires p > 0 && i < |c| && m < |c| && Cong(p, Pow(w, |c|), 1)
    ensures Cong(p, ShiftedTerms(c, w, k, i)(m), Pow(w, k * i) * Terms(c, w, k)(Wrap(m, i, |c|)))
  {
    var n, j := |c|, Wrap(m, i, |c|);
    SplitTurn(w, p, k, i, j, m, n, if m >= i then 0 else 1);
    ScaleCong(p, At(c, j), Pow(w, k * i), Pow(w, k * j), Pow(w, k * m));
  }

  lemma ScaleCong(p: int, x: int, a: int, b: int, t: int)
    requires p > 0 && Cong(p, a * b, t)
    ensures Cong(p, x * t, a * (x * b))
  {
    CongMul(p, x, x, a * b, t);
    MulAssoc(a, x, b);
    MulAssoc(x, a, b);
  }

  lemma SplitTurn(w: int, p: int, k: nat, i: nat, j: nat, m: nat, n: nat, turn: nat)
    requires p > 0 && i + j == (if turn == 0 then m else m + n) && Cong(p, Pow(w, n), 1)
    ensures Cong(p, Pow(w, k * i) * Pow(w, k * j), Pow(w, k * m))
  {
    hide Pow;
    PowSum(w, k, i, j);
    if turn > 0 {
      PowSum(w, k, m, n);
      PowPeriod(w, p, k, n);
      CongMul(p, Pow(w, k * m), Pow(w, k * m), Pow(w, k * n), 1);
    }
  }

  lemma PowPeriod(w: int, p: int, k: nat, n: nat)
    requires p > 0 && Cong(p, Pow(w, n), 1)
    ensures Cong(p, Pow(w, k * n), 1)
  {
    PowProduct(w, n, k);
    MulAssoc(n, k, 1);
    PowCong(p, Pow(w, n), 1, k);
    PowOne(k);
  }

  lemma PowSum(w: int, k: nat, i: nat, j: nat)
    ensures Pow(w, k * (i + j)) == Pow(w, k * i) * Pow(w, k * j)
  {
    Distribute(k, i, j);
    PowAdd(w, k * i, k * j);
  }

  lemma Distribute(k: nat, i: nat, j: nat)
    ensures k * i >= 0 && k * j >= 0 && k * (i + j) == k * i + k * j
  {
  }

  lemma ShiftedSum(c: seq<int>, w: int, p: int, k: nat, i: nat)
    requires p > 0 && i < |c| && Cong(p, Pow(w, |c|), 1)
    ensures Cong(p, Sum(|c|, ShiftedTerms(c, w, k, i)), Pow(w, k * i) * Dft(c, w, k))
  {
    var n, a := |c|, Pow(w, k * i);
    var g := j => a * Terms(c, w, k)(j);
    var gs := m => g(Wrap(m, i, n));
    forall m | 0 <= m < n
      ensures Cong(p, ShiftedTerms(c, w, k, i)(m), gs(m))
    {
      ShiftedTerm(c, w, p, k, i, m);
    }
    SumCong(p, n, ShiftedTerms(c, w, k, i), gs);
    CyclicShift(n, i, g, gs);
    SumScale(n, a, Terms(c, w, k), g);
  }

  /** x[i] * c[(m - i) mod n] * w^(k * m) */
  function GridTerms(x: seq<int>, c: seq<int>, w: int, k: int): (int, int) -> int
    requires |c| > 0
  {
    (m, i) => At(x, i) * ShiftedTerms(c, w, k, i)(m)
  }

  lemma GridCell(x: seq<int>, c: seq<int>, w: int, k: nat, m: nat, i: nat)
    requires |c| > 0
    ensures GridTerms(x, c, w, k)(m, i) == Pow(w, k * m) * ConvTerms(x, c, m)(i)
  {
    var u, v, a := At(x, i), At(c, Wrap(m, i, |c|)), Pow(w, k * m);
    assert ConvTerms(x, c, m)(i) == u * v;
    assert ShiftedTerms(c, w, k, i)(m) == v * a;
    assert GridTerms(x, c, w, k)(m, i) == u * (v * a);
    MulAssoc(u, v, a);
    MulAssoc(a, u * v, 1);
  }

  lemma ConvolveRow(x: seq<int>, c: seq<int>, w: int, k: nat, m: nat)
    requires |x| == |c| && m < |c|
    ensures Terms(Convolve(x, c), w, k)(m) == Sum(|x|, i => GridTerms(x, c, w, k)(m, i))
  {
    assert Terms(Convolve(x, c), w, k)(m) == Sum(|x|, ConvTerms(x, c, m)) * Pow(w, k * m);
    hide ConvTerms, GridTerms, Terms, Pow;
    var a := Pow(w, k * m);
    var conv, grid := ConvTerms(x, c, m), GridTerms(x, c, w, k);
    var row := i => grid(m, i);
    forall i | 0 <= i < |x|
      ensures row(i) == a * conv(i)
    {
      GridCell(x, c, w, k, m, i);
    }
    SumScale(|x|, a, conv, row);
    MulAssoc(a, Sum(|x|, conv), 1);
  }

  lemma ConvolveColumn(x: seq<int>, c: seq<int>, w: int, p: int, k: nat, i: nat)
    requires p > 0 && |x| == |c| && i < |c| && Cong(p, Pow(w, |c|), 1)
    ensures Cong(p, Sum(|c|, m => GridTerms(x, c, w, k)(m, i)), Dft(c, w, k) * Terms(x, w, k)(i))
  {
    assert Terms(x, w, k)(i) == At(x, i) * Pow(w, k * i);
    assert forall m :: GridTerms(x, c, w, k)(m, i) == At(x, i) * ShiftedTerms(c, w, k, i)(m);
    hide Terms, GridTerms, ShiftedTerms, At, Pow, Dft;
    var n, u, g := |c|, At(x, i), ShiftedTerms(c, w, k, i);
    var grid := GridTerms(x, c, w, k);
    var column := m => grid(m, i);
    SumScale(n, u, g, column);
    ShiftedSum(c, w, p, k, i);
    CongMul(p, u, u, Sum(n, g), Pow(w, k * i) * Dft(c, w, k));
    MulAssoc(u, Pow(w, k * i), Dft(c, w, k));
    MulAssoc(Dft(c, w, k), u * Pow(w, k * i), 1);
  }

  /** The transform of a convolution is the product of the transforms. */
  lemma ConvolutionTheorem(x: seq<int>, c: seq<int>, w: int, p: int, k: nat)
    requires p > 0 && |x| == |c| > 0 && Cong(p, Pow(w, |c|), 1)
    ensures Cong(p, Dft(Convolve(x, c), w, k), Dft(x, w, k) * Dft(c, w, k))
  {
    hide Terms, GridTerms, Pow, Convolve;
    var n, y := |c|, Dft(c, w, k);
    var grid := GridTerms(x, c, w, k);
    var rows, columns := Terms(Convolve(x, c), w, k), i => Sum(n, m => grid(m, i));
    forall m | 0 <= m < n
      ensures rows(m) == Sum(n, i => grid(m, i))
    {
      ConvolveRow(x, c, w, k, m);
    }
    SumExchange(n, n, grid, rows, columns);
    var products := i => y * Terms(x, w, k)(i);
    forall i | 0 <= i < n
      ensures Cong(p, columns(i), products(i))
    {
      ConvolveColumn(x, c, w, p, k, i);
    }
    SumCong(p, n, columns, products);
    SumScale(n, y, Terms(x, w, k), products);
    MulAssoc(y, Dft(x, w, k), 1);
  }

  /** Multiplying two transforms and transforming back convolves. */
  lemma InverseOfProduct(x: seq<int>, c: seq<int>, products: seq<int>, roots: seq<int>, w: int, p: int, m: nat)
    requires Prime(p) && p > 2 && PowerOfTwo(|x|) && |x| > 1 && |c| == |x| == |roots| == |products| && m < |x|
    requires PowersOf(roots, w, p) && HalfTurn(w, |x|, p)
    requires forall i :: 0 <= i < |x| ==>
      products[i] == Transform(x, roots, p)[i] * Transform(c, roots, p)[i] % p
    ensures InverseTransform(products, roots, p)[m] == Convolve(x, c)[m] % p
  {
    hide Transform, InverseTransform, Convolve, Dft;
    var conv := Convolve(x, c);
    HalfTurnSquared(w, |x|, p);
    forall i | 0 <= i < |x|
      ensures products[i] == Transform(conv, roots, p)[i]
    {
      TransformIsDft(x, roots, w, p, i);
      TransformIsDft(c, roots, w, p, i);
      TransformIsDft(conv, roots, w, p, i);
      ConvolutionTheorem(x, c, w, p, i);
      SameProduct(p, Transform(x, roots, p)[i], Transform(c, roots, p)[i], Dft(x, w, i), Dft(c, w, i),
                  Transform(conv, roots, p)[i]);
    }
    assert products == Transform(conv, roots, p);
    InverseUndoes(conv, roots, w, p, m);
  }

  lemma SameProduct(p: int, a: int, b: int, x: int, y: int, t: int)
    requires p > 0 && Cong(p, a, x) && Cong(p, b, y) && Cong(p, t, x * y) && 0 <= t < p
    ensures a * b % p == t
  {
    CongMul(p, a, x, b, y);
    DivModUnique(p, t, 0, t);
  }
}
