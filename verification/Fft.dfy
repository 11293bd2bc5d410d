/** The recursive radix-2 transform of da/kzg_rs/fft.py, over the integers mod p.

    A point of the elliptic-curve group, which has prime order p, is represented by
    its discrete logarithm, so that adding points is adding residues and multiplying
    a point by a scalar is multiplying residues. */
module Fft {
  import opened Modular

  ghost predicate PowerOfTwo(n: int) {
    n == 1 || (n > 1 && n % 2 == 0 && PowerOfTwo(n / 2))
  }

  /** The slice s[start::2] of a list of even length. */
  function Stride<T>(s: seq<T>, start: nat): (r: seq<T>)
    requires start <= 1 && |s| % 2 == 0
    ensures 2 * |r| == |s|
    ensures forall i :: 0 <= i < |r| ==> r[i] == s[2 * i + start]
  {
    seq(|s| / 2, i requires 0 <= i < |s| / 2 => s[2 * i + start])
  }

  /** One level of butterflies over the transforms of the even and odd entries. */
  function Butterflies(l: seq<int>, r: seq<int>, roots: seq<int>, p: int): (o: seq<int>)
    requires p > 0 && |l| == |r| <= |roots|
    ensures |o| == 2 * |l| && forall i :: 0 <= i < |o| ==> 0 <= o[i] < p
  {
    hide Upper, Lower;
    seq(2 * |l|, i requires 0 <= i < 2 * |l| =>
      if i < |l| then Upper(l[i], r[i], roots[i], p)
      else Lower(l[i - |l|], r[i - |l|], roots[i - |l|], p))
  }

  function Upper(x: int, y: int, root: int, p: int): (r: int)
    requires p > 0
    ensures 0 <= r < p
  {
    (x + y * root % p) % p
  }

  function Lower(x: int, y: int, root: int, p: int): (r: int)
    requires p > 0
    ensures 0 <= r < p
  {
    (x - y * root % p + p) % p
  }

  /** The specification of both transforms in the source. */
  ghost function Transform(vals: seq<int>, roots: seq<int>, p: int): (o: seq<int>)
    requires p > 0 && PowerOfTwo(|vals|) && |roots| == |vals|
    ensures |o| == |vals|
    ensures |vals| > 1 ==> forall i :: 0 <= i < |o| ==> 0 <= o[i] < p
    decreases |vals|
  {
    hide Butterflies;
    if |vals| == 1 then vals
    else Butterflies(Transform(Stride(vals, 0), Stride(roots, 0), p),
                     Transform(Stride(vals, 1), Stride(roots, 0), p), roots, p)
  }

  lemma FieldButterfly(x: int, y: int, root: int, p: int)
    requires p > 0
    ensures (x + y * root % p) % p == Upper(x, y, root, p)
    ensures (x - y * root % p + p) % p == Lower(x, y, root, p)
  {
  }

  /** The loop of `_fft` that fills the output list in place. */
  method FillField(l: seq<int>, r: seq<int>, roots: seq<int>, p: int) returns (o: seq<int>)
    requires p > 0 && |l| == |r| && |roots| == 2 * |l|
    ensures o == Butterflies(l, r, roots, p)
  {
    hide Upper, Lower;
    ghost var b := Butterflies(l, r, roots, p);
    var h := |l|;
    var a := new int[2 * h](_ => 0);
    for i := 0 to h
      invariant forall j :: 0 <= j < i ==> a[j] == b[j]
      invariant forall j :: h <= j < h + i ==> a[j] == b[j]
    {
      var yTimesRoot := r[i] * roots[i] % p;
      a[i] := (l[i] + yTimesRoot) % p;
      a[i + h] := (l[i] - yTimesRoot + p) % p;
      FieldButterfly(l[i], r[i], roots[i], p);
    }
    o := a[..];
  }

  /** `_fft` */
  method FftRecursive(vals: seq<int>, roots: seq<int>, p: int) returns (o: seq<int>)
    requires p > 0 && PowerOfTwo(|vals|) && |roots| == |vals|
    ensures o == Transform(vals, roots, p)
    decreases |vals|
  {
    if |vals| == 1 {
      return vals;
    }
    var l := FftRecursive(Stride(vals, 0), Stride(roots, 0), p);
    var r := FftRecursive(Stride(vals, 1), Stride(roots, 0), p);
    o := FillField(l, r, roots, p);
  }

  /** The group operations on discrete logarithms. */
  function Add(x: int, y: int, p: int): int
    requires p > 0
  {
    (x + y) % p
  }

  function Neg(x: int, p: int): int
    requires p > 0
  {
    -x % p
  }

  function Multiply(x: int, scalar: int, p: int): int
    requires p > 0
  {
    x * scalar % p
  }

  /** The loop of `fft_g1`, with group operations instead of field operations. */
  method FillGroup(l: seq<int>, r: seq<int>, roots: seq<int>, p: int) returns (o: seq<int>)
    requires p > 0 && |l| == |r| && |roots| == 2 * |l|
    ensures o == Butterflies(l, r, roots, p)
  {
    hide Upper, Lower, Add, Neg, Multiply;
    ghost var b := Butterflies(l, r, roots, p);
    var h := |l|;
    var a := new int[2 * h](_ => 0);
    for i := 0 to h
      invariant forall j :: 0 <= j < i ==> a[j] == b[j]
      invariant forall j :: h <= j < h + i ==> a[j] == b[j]
    {
      var yTimesRoot := Multiply(r[i], roots[i], p);
      a[i] := Add(l[i], yTimesRoot, p);
      a[i + h] := Add(l[i], Neg(yTimesRoot, p), p);
      GroupButterfly(l[i], r[i], roots[i], p);
    }
    o := a[..];
  }

  /** `fft_g1` */
  method FftG1(vals: seq<int>, roots: seq<int>, p: int) returns (o: seq<int>)
    requires p > 0 && PowerOfTwo(|vals|) && |roots| == |vals|
    ensures o == Transform(vals, roots, p)
    decreases |vals|
  {
    if |vals| == 1 {
      return vals;
    }
    var l := FftG1(Stride(vals, 0), Stride(roots, 0), p);
    var r := FftG1(Stride(vals, 1), Stride(roots, 0), p);
    o := FillGroup(l, r, roots, p);
  }

  lemma GroupButterfly(x: int, y: int, root: int, p: int)
    requires p > 0
    ensures Add(x, Multiply(y, root, p), p) == Upper(x, y, root, p)
    ensures Add(x, Neg(Multiply(y, root, p), p), p) == Lower(x, y, root, p)
  {
    SubtractIsAddNeg(x, y * root % p, p);
  }

  lemma SubtractIsAddNeg(x: int, y: int, p: int)
    requires p > 0
    ensures Add(x, Neg(y, p), p) == (x - y + p) % p
  {
    CongMod(p, -y);
    CongAdd(p, x, x, Neg(y, p), -y);
    CongIntro(p, x - y + p, x - y, 1);
  }

  /** [roots[0], *roots[:0:-1]]: the powers of the root in reverse order. */
  function Reversed(roots: seq<int>): (r: seq<int>)
    requires |roots| > 0
    ensures |r| == |roots| && r[0] == roots[0]
    ensures forall i :: 0 < i < |r| ==> r[i] == roots[|roots| - i]
  {
    [roots[0]] + seq(|roots| - 1, i requires 0 <= i < |roots| - 1 => roots[|roots| - 1 - i])
  }

  /** pow(n, p - 2, p) */
  function InverseLength(n: nat, p: int): int
    requires p > 0
  {
    Pow(n, p - 2) % p
  }

  ghost function InverseTransform(vals: seq<int>, roots: seq<int>, p: int): (o: seq<int>)
    requires p > 0 && PowerOfTwo(|vals|) && |roots| == |vals|
    ensures |o| == |vals|
  {
    var t := Transform(vals, Reversed(roots), p);
    seq(|vals|, i requires 0 <= i < |vals| => t[i] * InverseLength(|vals|, p) % p)
  }

  method FftChecked(vals: seq<int>, roots: seq<int>, p: int) returns (o: seq<int>)
    requires p > 0 && PowerOfTwo(|vals|) && |roots| == |vals|
    ensures o == Transform(vals, roots, p)
  {
    o := FftRecursive(vals, roots, p);
  }

  method Ifft(vals: seq<int>, roots: seq<int>, p: int) returns (o: seq<int>)
    requires p > 0 && PowerOfTwo(|vals|) && |roots| == |vals|
    ensures o == InverseTransform(vals, roots, p)
  {
    var invLen := InverseLength(|vals|, p);
    var t := FftRecursive(vals, Reversed(roots), p);
    o := seq(|vals|, i requires 0 <= i < |vals| => t[i] * invLen % p);
  }

  method IfftG1(vals: seq<int>, roots: seq<int>, p: int) returns (o: seq<int>)
    requires p > 0 && PowerOfTwo(|vals|) && |roots| == |vals|
    ensures o == InverseTransform(vals, roots, p)
  {
    var invLen := InverseLength(|vals|, p);
    var t := FftG1(vals, Reversed(roots), p);
    o := seq(|vals|, i requires 0 <= i < |vals| => Multiply(t[i], invLen, p));
  }
}

/** What the transform computes: the discrete Fourier transform, and its inverse. */
module FftTheory {
  import opened Modular
  import opened Fft

  /** s[i], with zeros outside the list. */
  function At(s: seq<int>, i: int): int {
    if 0 <= i < |s| then s[i] else 0
  }

  /** The discrete Fourier transform at point i, by its definition. */
  function Dft(vals: seq<int>, w: int, i: int): int {
    Sum(|vals|, Terms(vals, w, i))
  }

  function Terms(vals: seq<int>, w: int, i: int): int -> int {
    j => At(vals, j) * Pow(w, i * j)
  }

  ghost predicate PowersOf(roots: seq<int>, w: int, p: int)
    requires p > 0
  {
    forall i :: 0 <= i < |roots| ==> Cong(p, roots[i], Pow(w, i))
  }

  /** w is of order n, for n a power of two: its n/2-th power is -1. */
  ghost predicate HalfTurn(w: int, n: int, p: int)
    requires p > 0
  {
    n >= 2 ==> Cong(p, Pow(w, n / 2), -1)
  }

  lemma EvenRoots(roots: seq<int>, w: int, p: int)
    requires p > 0 && |roots| % 2 == 0 && PowersOf(roots, w, p)
    ensures PowersOf(Stride(roots, 0), Pow(w, 2), p)
  {
    forall i | 0 <= i < |Stride(roots, 0)|
      ensures Cong(p, Stride(roots, 0)[i], Pow(Pow(w, 2), i))
    {
      PowProduct(w, 2, i);
    }
  }

  lemma SplitExponent(w: int, i: nat, j: nat)
    ensures Pow(w, i * (2 * j)) == Pow(Pow(w, 2), i * j)
    ensures Pow(w, i * (2 * j + 1)) == Pow(w, i) * Pow(Pow(w, 2), i * j)
  {
    var ij := i * j;
    assert ij >= 0 && i * (2 * j) == 2 * ij && i * (2 * j + 1) == i + 2 * ij;
    PowProduct(w, 2, ij);
    PowAdd(w, i, 2 * ij);
  }

  lemma MulAssoc(a: int, b: int, c: int)
    ensures a * (b * c) == a * b * c && a * b == b * a
  {
  }

  lemma TermsSplit(vals: seq<int>, w: int, i: nat, j: nat)
    requires |vals| % 2 == 0 && j < |vals| / 2
    ensures Terms(vals, w, i)(2 * j) == Terms(Stride(vals, 0), Pow(w, 2), i)(j)
    ensures Terms(vals, w, i)(2 * j + 1) == Pow(w, i) * Terms(Stride(vals, 1), Pow(w, 2), i)(j)
  {
    SplitExponent(w, i, j);
    MulAssoc(At(vals, 2 * j + 1), Pow(w, i), Pow(Pow(w, 2), i * j));
    MulAssoc(Pow(w, i), At(vals, 2 * j + 1), Pow(Pow(w, 2), i * j));
  }

  /** Splitting the sum of a transform into even and odd terms. */
  lemma DftSplit(vals: seq<int>, w: int, i: nat)
    requires |vals| % 2 == 0
    ensures Dft(vals, w, i) == Dft(Stride(vals, 0), Pow(w, 2), i) + Pow(w, i) * Dft(Stride(vals, 1), Pow(w, 2), i)
  {
    hide Terms, Pow, Stride;
    var h := |vals| / 2;
    assert |Stride(vals, 0)| == |Stride(vals, 1)| == h;
    var e, o := Terms(Stride(vals, 0), Pow(w, 2), i), Terms(Stride(vals, 1), Pow(w, 2), i);
    forall j | 0 <= j < h
      ensures Terms(vals, w, i)(2 * j) == e(j) && Terms(vals, w, i)(2 * j + 1) == Pow(w, i) * o(j)
    {
      TermsSplit(vals, w, i, j);
    }
    SplitSum(h, Terms(vals, w, i), e, o, Pow(w, i));
  }

  lemma SplitSum(h: nat, f: int -> int, e: int -> int, o: int -> int, c: int)
    requires forall j :: 0 <= j < h ==> f(2 * j) == e(j) && f(2 * j + 1) == c * o(j)
    ensures Sum(2 * h, f) == Sum(h, e) + c * Sum(h, o)
  {
  }

  /** Half a turn further, the even part is the same and the odd part changes sign. */
  lemma DftHalfTurn(vals: seq<int>, w: int, p: int, h: nat, i: nat)
    requires p > 0 && Cong(p, Pow(w, 2 * h), 1)
    ensures Cong(p, Dft(vals, Pow(w, 2), i + h), Dft(vals, Pow(w, 2), i))
  {
    var a, b := Terms(vals, Pow(w, 2), i + h), Terms(vals, Pow(w, 2), i);
    forall j | 0 <= j < |vals|
      ensures Cong(p, a(j), b(j))
    {
      var ij, hj := i * j, h * j;
      assert ij >= 0 && hj >= 0 && (i + h) * j == ij + hj;
      PowAdd(Pow(w, 2), ij, hj);
      PowProduct(Pow(w, 2), h, j);
      PowProduct(w, 2, h);
      PowCong(p, Pow(Pow(w, 2), h), 1, j);
      PowOne(j);
      var x := At(vals, j) * Pow(Pow(w, 2), ij);
      CongMul(p, x, x, Pow(Pow(w, 2), hj), 1);
      assert a(j) == x * Pow(Pow(w, 2), hj) by {
        MulAssoc(At(vals, j), Pow(Pow(w, 2), ij), Pow(Pow(w, 2), hj));
      }
    }
    SumCong(p, |vals|, a, b);
  }

  lemma ButterflyCong(p: int, x: int, y: int, root: int, x': int, y': int, root': int)
    requires p > 0 && Cong(p, x, x') && Cong(p, y, y') && Cong(p, root, root')
    ensures Cong(p, Upper(x, y, root, p), x' + y' * root')
    ensures Cong(p, Lower(x, y, root, p), x' - y' * root')
  {
    var z := y * root % p;
    CongMod(p, y * root);
    CongMul(p, y, y', root, root');
    CongAdd(p, x, x', z, y' * root');
    CongMod(p, x + z);
    CongIntro(p, x - z + p, x - z, 1);
    CongMod(p, x - z + p);
  }

  lemma HalfTurnSquared(w: int, n: int, p: int)
    requires p > 0 && n >= 2 && n % 2 == 0 && HalfTurn(w, n, p)
    ensures Cong(p, Pow(w, n), 1)
    ensures n % 4 == 0 ==> HalfTurn(Pow(w, 2), n / 2, p)
  {
    PowAdd(w, n / 2, n / 2);
    CongMul(p, Pow(w, n / 2), -1, Pow(w, n / 2), -1);
    if n % 4 == 0 {
      PowProduct(w, 2, n / 4);
    }
  }

  lemma DftSingle(vals: seq<int>, roots: seq<int>, w: int, p: int)
    requires p > 0 && |roots| == |vals| == 1
    ensures Transform(vals, roots, p)[0] == vals[0] == Dft(vals, w, 0)
  {
  }

  lemma DftSecondHalf(even: seq<int>, odd: seq<int>, w: int, p: int, h: nat, k: nat)
    requires p > 0 && Cong(p, Pow(w, 2 * h), 1) && Cong(p, Pow(w, h), -1)
    ensures Cong(p, Dft(even, Pow(w, 2), k + h) + Pow(w, k + h) * Dft(odd, Pow(w, 2), k + h),
                 Dft(even, Pow(w, 2), k) - Dft(odd, Pow(w, 2), k) * Pow(w, k))
  {
    DftHalfTurn(even, w, p, h, k);
    DftHalfTurn(odd, w, p, h, k);
    PowAdd(w, k, h);
    CongMul(p, Pow(w, k), Pow(w, k), Pow(w, h), -1);
    var e, o := Dft(even, Pow(w, 2), k), Dft(odd, Pow(w, 2), k);
    var e', o' := Dft(even, Pow(w, 2), k + h), Dft(odd, Pow(w, 2), k + h);
    CongMul(p, Pow(w, k + h), -Pow(w, k), o', o);
    CongAdd(p, e', e, Pow(w, k + h) * o', -Pow(w, k) * o);
  }

  /** The two sums a butterfly is meant to produce. */
  lemma DftButterfly(vals: seq<int>, w: int, p: int, h: nat, k: nat)
    requires p > 0 && |vals| == 2 * h && h > 0 && HalfTurn(w, 2 * h, p)
    ensures var e, o := Dft(Stride(vals, 0), Pow(w, 2), k), Dft(Stride(vals, 1), Pow(w, 2), k);
            && Cong(p, Dft(vals, w, k), e + o * Pow(w, k))
            && Cong(p, Dft(vals, w, k + h), e - o * Pow(w, k))
  {
    hide Dft, Pow;
    HalfTurnSquared(w, 2 * h, p);
    MulAssoc(Pow(w, k), Dft(Stride(vals, 1), Pow(w, 2), k), 1);
    CongRefl(p, Dft(vals, w, k));
    hide Cong;
    DftSplit(vals, w, k);
    DftSplit(vals, w, k + h);
    DftSecondHalf(Stride(vals, 0), Stride(vals, 1), w, p, h, k);
  }

  lemma TransformStep(vals: seq<int>, roots: seq<int>, p: int, h: nat, k: nat)
    requires p > 0 && PowerOfTwo(|vals|) && |roots| == |vals| == 2 * h && k < h
    ensures PowerOfTwo(h)
    ensures var l := Transform(Stride(vals, 0), Stride(roots, 0), p);
            var r := Transform(Stride(vals, 1), Stride(roots, 0), p);
            && Transform(vals, roots, p)[k] == Upper(l[k], r[k], roots[k], p)
            && Transform(vals, roots, p)[k + h] == Lower(l[k], r[k], roots[k], p)
  {
    hide Butterflies, Upper, Lower, Stride;
    ButterfliesAt(Transform(Stride(vals, 0), Stride(roots, 0), p), Transform(Stride(vals, 1), Stride(roots, 0), p),
                  roots, p, k);
  }

  lemma ButterfliesAt(l: seq<int>, r: seq<int>, roots: seq<int>, p: int, k: nat)
    requires p > 0 && |l| == |r| <= |roots| && k < |l|
    ensures Butterflies(l, r, roots, p)[k] == Upper(l[k], r[k], roots[k], p)
    ensures Butterflies(l, r, roots, p)[k + |l|] == Lower(l[k], r[k], roots[k], p)
  {
  }

  /** Main result for the forward transform: every output is the Fourier sum mod p. */
  lemma {:induction false} TransformIsDft(vals: seq<int>, roots: seq<int>, w: int, p: int, i: int)
    requires p > 0 && PowerOfTwo(|vals|) && |roots| == |vals| && 0 <= i < |vals|
    requires PowersOf(roots, w, p) && HalfTurn(w, |vals|, p)
    ensures Cong(p, Transform(vals, roots, p)[i], Dft(vals, w, i))
    decreases |vals|
  {
    hide Upper, Lower, Pow, Dft, Transform;
    if |vals| == 1 {
      DftSingle(vals, roots, w, p);
    } else {
      var h := |vals| / 2;
      var k := if i < h then i else i - h;
      var w2 := Pow(w, 2);
      var even, odd := Stride(vals, 0), Stride(vals, 1);
      EvenRoots(roots, w, p);
      HalfTurnSquared(w, |vals|, p);
      TransformIsDft(even, Stride(roots, 0), w2, p, k);
      TransformIsDft(odd, Stride(roots, 0), w2, p, k);
      ButterflyCong(p, Transform(even, Stride(roots, 0), p)[k], Transform(odd, Stride(roots, 0), p)[k], roots[k],
                    Dft(even, w2, k), Dft(odd, w2, k), Pow(w, k));
      DftButterfly(vals, w, p, h, k);
      TransformStep(vals, roots, p, h, k);
    }
  }
}
