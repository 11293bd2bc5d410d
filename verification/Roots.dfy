/** da/kzg_rs/roots.py: the list of powers of a root of unity of a given order. */
module Roots {
  import opened Modular
  import opened Fft
  import opened FftTheory
  import opened RoundTrip

  /** pow(g, (p - 1) // order, p) */
  function RootOfUnity(g: int, order: nat, p: int): int
    requires p > 1 && order > 0
  {
    Pow(g, (p - 1) / order) % p
  }

  /** root^i mod p */
  function PowerMod(root: int, i: int, p: int): int
    requires p > 0
  {
    Pow(root, i) % p
  }

  method ComputeRootsOfUnity(g: int, order: nat, p: int) returns (roots: seq<int>)
    requires p > 1 && order > 0 && (p - 1) % order == 0
    ensures roots == RootsOfUnity(g, order, p)
  {
    var root := RootOfUnity(g, order, p);
    hide RootOfUnity, PowerMod;
    roots := [];
    var current := 1;
    NextPower(root, 0, p);
    for i := 0 to order
      invariant |roots| == i && current == PowerMod(root, i, p)
      invariant forall j :: 0 <= j < i ==> roots[j] == PowerMod(root, j, p)
    {
      roots := roots + [current];
      NextPower(root, i, p);
      current := current * root % p;
    }
  }

  lemma NextPower(root: int, i: nat, p: int)
    requires p > 0
    ensures PowerMod(root, i, p) * root % p == PowerMod(root, i + 1, p)
    ensures p > 1 ==> PowerMod(root, 0, p) == 1
  {
    CongMod(p, Pow(root, i));
    CongMul(p, Pow(root, i) % p, Pow(root, i), root, root);
    if p > 1 {
      DivModUnique(p, 1, 0, 1);
    }
  }

  /** The list that ComputeRootsOfUnity returns. */
  ghost function RootsOfUnity(g: int, order: nat, p: int): (r: seq<int>)
    requires p > 1 && order > 0
    ensures |r| == order && PowersOf(r, RootOfUnity(g, order, p), p)
    ensures forall i :: 0 <= i < order ==> r[i] == PowerMod(RootOfUnity(g, order, p), i, p)
  {
    var r := seq(order, (i: nat) => PowerMod(RootOfUnity(g, order, p), i, p));
    assert PowersOf(r, RootOfUnity(g, order, p), p) by {
      forall i | 0 <= i < order
        ensures Cong(p, r[i], Pow(RootOfUnity(g, order, p), i))
      {
        CongMod(p, Pow(RootOfUnity(g, order, p), i));
      }
    }
    r
  }

  lemma QuotientNonNegative(a: nat, b: nat)
    requires b > 0
    ensures a / b >= 0
  {
  }

  lemma RootPower(g: int, order: nat, p: int, e: nat)
    requires p > 1 && order > 0
    ensures (p - 1) / order * e >= 0
    ensures Cong(p, Pow(RootOfUnity(g, order, p), e), Pow(g, (p - 1) / order * e))
  {
    var q := (p - 1) / order;
    QuotientNonNegative(p - 1, order);
    CongMod(p, Pow(g, q));
    PowCong(p, Pow(g, q) % p, Pow(g, q), e);
    PowProduct(g, q, e);
  }

  /** Every computed root has w^order = 1, whether or not g is a primitive root. */
  lemma FullTurn(g: nat, order: nat, p: int)
    requires Prime(p) && !Cong(p, g, 0) && order > 0 && (p - 1) % order == 0
    ensures Cong(p, Pow(RootOfUnity(g, order, p), order), 1)
  {
    RootPower(g, order, p, order);
    assert (p - 1) / order * order == p - 1;
    Fermat(p, g);
  }

  /** The computed root is of order n exactly when g is a quadratic non-residue. */
  lemma HalfTurnExactly(g: nat, order: nat, p: int)
    requires Prime(p) && order >= 2 && order % 2 == 0 && (p - 1) % order == 0
    ensures HalfTurn(RootOfUnity(g, order, p), order, p) <==> Cong(p, Pow(g, (p - 1) / 2), -1)
  {
    var q := (p - 1) / order;
    RootPower(g, order, p, order / 2);
    assert p - 1 == q * order;
    assert q * (order / 2) * 2 == q * order;
  }

  /** The round trip promised for every computed list of roots, primitive or not. */
  lemma RoundTripOnComputedRoots(vals: seq<int>, g: nat, p: int)
    requires Prime(p) && p > 2 && !Cong(p, g, 0)
    requires PowerOfTwo(|vals|) && (p - 1) % |vals| == 0
    ensures var roots := RootsOfUnity(g, |vals|, p);
            forall i :: 0 <= i < |vals| ==>
              InverseTransform(Transform(vals, roots, p), roots, p)[i] == vals[i] % p
  {
    var roots := RootsOfUnity(g, |vals|, p);
    FullTurn(g, |vals|, p);
    forall i | 0 <= i < |vals|
      ensures InverseTransform(Transform(vals, roots, p), roots, p)[i] == vals[i] % p
    {
      InverseUndoes(vals, roots, RootOfUnity(g, |vals|, p), p, i);
    }
  }

  /** The list [0, 1, 0, ..., 0]. */
  function Unit(n: nat): seq<int>
    requires n >= 2
  {
    seq(n, i => if i == 1 then 1 else 0)
  }

  lemma {:induction false} ConstantTransform(vals: seq<int>, roots: seq<int>, p: int, first: int, i: nat)
    requires p > 1 && PowerOfTwo(|vals|) && |roots| == |vals| && i < |vals|
    requires 0 <= first <= 1 && vals[0] == first && forall j :: 0 < j < |vals| ==> vals[j] == 0
    ensures Transform(vals, roots, p)[i] == first
    decreases |vals|
  {
    hide Transform, Upper, Lower, Cong;
    if |vals| == 1 {
      DftSingle(vals, roots, 1, p);
    } else {
      var h := |vals| / 2;
      var k := if i < h then i else i - h;
      TransformStep(vals, roots, p, h, k);
      ConstantTransform(Stride(vals, 0), Stride(roots, 0), p, first, k);
      ConstantTransform(Stride(vals, 1), Stride(roots, 0), p, 0, k);
      UnitButterfly(first, roots[k], p);
    }
  }

  lemma UnitButterfly(x: int, root: int, p: int)
    requires p > 1 && 0 <= x <= 1
    ensures Upper(x, 0, root, p) == x && Lower(x, 0, root, p) == x
    ensures Cong(p, Lower(0, 1, root, p), -root)
  {
    assert 0 * root % p == 0;
    DivModUnique(p, x, 0, x);
    DivModUnique(p, x + p, 1, x);
    ButterflyCong(p, 0, 1, root, 0, 1, root);
  }

  lemma UnitTransform(roots: seq<int>, p: int)
    requires p > 1 && |roots| >= 2 && PowerOfTwo(|roots|) && Cong(p, roots[0], 1)
    ensures Cong(p, Transform(Unit(|roots|), roots, p)[|roots| / 2], -1)
  {
    hide Upper, Lower, Transform;
    var vals, h := Unit(|roots|), |roots| / 2;
    TransformStep(vals, roots, p, h, 0);
    ConstantTransform(Stride(vals, 0), Stride(roots, 0), p, 0, 0);
    ConstantTransform(Stride(vals, 1), Stride(roots, 0), p, 1, 0);
    UnitButterfly(1, roots[0], p);
    CongAdd(p, 0, 0, roots[0], 1);
  }

  lemma UnitDft(n: nat, w: int, i: nat)
    requires n >= 2
    ensures Dft(Unit(n), w, i) == Pow(w, i)
  {
    var t := Terms(Unit(n), w, i);
    assert t(0) == 0 && t(1) == Pow(w, i * 1) && forall j :: 2 <= j < n ==> t(j) == 0;
    hide Terms, Unit;
    SumOfSecond(n, t);
  }

  lemma SumOfSecond(n: nat, t: int -> int)
    requires n >= 2 && t(0) == 0 && forall j :: 2 <= j < n ==> t(j) == 0
    ensures Sum(n, t) == t(1)
  {
  }

  ghost predicate ComputesDft(roots: seq<int>, w: int, p: int)
    requires p > 0 && PowerOfTwo(|roots|)
  {
    forall vals: seq<int>, i: nat :: |vals| == |roots| && i < |vals| ==>
      Cong(p, Transform(vals, roots, p)[i], Dft(vals, w, i))
  }

  /** The transform is the discrete Fourier transform exactly for roots with w^(n/2) = -1. */
  lemma DftExactly(roots: seq<int>, w: int, p: int)
    requires p > 1 && PowerOfTwo(|roots|) && PowersOf(roots, w, p)
    ensures ComputesDft(roots, w, p) <==> HalfTurn(w, |roots|, p)
  {
    var n := |roots|;
    if HalfTurn(w, n, p) {
      forall vals: seq<int>, i: nat | |vals| == n && i < n
        ensures Cong(p, Transform(vals, roots, p)[i], Dft(vals, w, i))
      {
        TransformIsDft(vals, roots, w, p, i);
      }
    }
    if ComputesDft(roots, w, p) && n >= 2 {
      assert Cong(p, roots[0], Pow(w, 0));
      UnitTransform(roots, p);
      UnitDft(n, w, n / 2);
    }
  }
}
