/** The inverse transform undoes the forward one.

    This needs only w^n = 1, not that w is of order n: the inverse butterflies undo the
    forward butterflies level by level, whatever the roots are. */
module RoundTrip {
  import opened Modular
  import opened Fft
  import opened FftTheory

  /** The entry x with its root of unity, scaled by c. */
  function Twiddled(c: int, w: int, i: int, x: int): int {
    c * Pow(w, i) * x
  }

  ghost predicate ButterflyAt(o: seq<int>, l: seq<int>, r: seq<int>, c: int, w: int, p: int, i: nat)
    requires p > 0 && |o| == 2 * |l| && |l| == |r| && i < |l|
  {
    && Cong(p, o[i], l[i] + Twiddled(c, w, i, r[i]))
    && Cong(p, o[i + |l|], l[i] - Twiddled(c, w, i, r[i]))
  }

  /** o is one level of butterflies over l and r, with the roots scaled by c. */
  ghost predicate ButterflyOf(o: seq<int>, l: seq<int>, r: seq<int>, c: int, w: int, p: int)
    requires p > 0
  {
    && |l| == |r|
    && |o| == 2 * |l|
    && forall i :: 0 <= i < |l| ==> ButterflyAt(o, l, r, c, w, p, i)
  }

  lemma TwiddledSlices(c: int, w: int, i: nat, x: int)
    ensures Twiddled(c, w, 2 * i, x) == Twiddled(c, Pow(w, 2), i, x)
    ensures Twiddled(c, w, 2 * i + 1, x) == Twiddled(c * w, Pow(w, 2), i, x)
  {
    PowProduct(w, 2, i);
    MulAssoc(c, w, Pow(w, 2 * i));
  }

  function SliceScale(c: int, w: int, start: nat): int {
    if start == 0 then c else c * w
  }

  lemma SliceTwiddled(c: int, w: int, start: nat, i: nat, x: int)
    requires start <= 1
    ensures Twiddled(SliceScale(c, w, start), Pow(w, 2), i, x) == Twiddled(c, w, 2 * i + start, x)
  {
    hide Twiddled, Pow;
    TwiddledSlices(c, w, i, x);
  }

  lemma SliceAcross(o: seq<int>, l: seq<int>, start: nat, i: nat)
    requires |o| == 2 * |l| && |l| % 2 == 0 && start <= 1 && 2 * i < |l|
    ensures 2 * |Stride(o, start)| == |o| && Stride(o, start)[i] == o[2 * i + start]
    ensures Stride(o, start)[i + |Stride(l, start)|] == o[2 * i + start + |l|]
  {
  }

  lemma ButterflySlice(o: seq<int>, l: seq<int>, r: seq<int>, c: int, w: int, p: int, start: nat, i: nat)
    requires p > 0 && ButterflyOf(o, l, r, c, w, p) && |l| % 2 == 0 && start <= 1 && 2 * i < |l|
    ensures ButterflyAt(Stride(o, start), Stride(l, start), Stride(r, start), SliceScale(c, w, start), Pow(w, 2), p, i)
  {
    hide Cong, Pow, Twiddled, SliceScale, Stride;
    var k := 2 * i + start;
    SliceTwiddled(c, w, start, i, r[k]);
    SliceAcross(o, l, start, i);
    assert ButterflyAt(o, l, r, c, w, p, k);
  }

  lemma ButterflySlices(o: seq<int>, l: seq<int>, r: seq<int>, c: int, w: int, p: int, start: nat)
    requires p > 0 && ButterflyOf(o, l, r, c, w, p) && |l| % 2 == 0 && start <= 1
    ensures ButterflyOf(Stride(o, start), Stride(l, start), Stride(r, start), SliceScale(c, w, start), Pow(w, 2), p)
  {
    hide ButterflyAt, Pow, SliceScale;
    forall i | 0 <= i < |Stride(l, start)|
      ensures ButterflyAt(Stride(o, start), Stride(l, start), Stride(r, start), SliceScale(c, w, start), Pow(w, 2), p,
                          i)
    {
      ButterflySlice(o, l, r, c, w, p, start, i);
    }
  }

  /** Undoing one butterfly after undoing the two below it. */
  lemma Recombine(p: int, a: int, b: int, root: int, d: int, e: int, x: int, y: int, root': int)
    requires p > 0 && Cong(p, a, d * x) && Cong(p, b, d * e * y) && Cong(p, root * e, root')
    ensures Cong(p, Upper(a, b, root, p), d * Upper(x, y, root', p))
    ensures Cong(p, Lower(a, b, root, p), d * Lower(x, y, root', p))
  {
    CongRefl(p, root);
    CongRefl(p, x);
    CongRefl(p, y);
    CongRefl(p, d);
    CongSymmetric(p, root * e, root');
    hide Upper, Lower, Cong;
    ButterflyCong(p, a, b, root, d * x, d * e * y, root);
    ButterflyCong(p, x, y, root', x, y, root * e);
    var z := y * (root * e);
    Regroup(d, e, x, y, root);
    CongMul(p, d, d, Upper(x, y, root', p), x + z);
    CongMul(p, d, d, Lower(x, y, root', p), x - z);
    CongSymmetric(p, d * Upper(x, y, root', p), d * (x + z));
    CongSymmetric(p, d * Lower(x, y, root', p), d * (x - z));
    CongTrans(p, Upper(a, b, root, p), d * (x + z), d * Upper(x, y, root', p));
    CongTrans(p, Lower(a, b, root, p), d * (x - z), d * Lower(x, y, root', p));
  }

  lemma Regroup(d: int, e: int, x: int, y: int, root: int)
    ensures d * x + d * e * y * root == d * (x + y * (root * e))
    ensures d * x - d * e * y * root == d * (x - y * (root * e))
  {
    var z := y * (root * e);
    assert d * e * y * root == d * z by {
      MulAssoc(d, e, y * root);
      MulAssoc(e, y, root);
      MulAssoc(y, root, e);
      MulAssoc(y * root, e, 1);
    }
    Spread(d, x, z);
  }

  lemma Spread(d: int, x: int, z: int)
    ensures d * (x + z) == d * x + d * z && d * (x - z) == d * x - d * z
  {
  }

  /** Roots of the inverse transform are powers of v, and v is the inverse of w. */
  ghost predicate InverseRoots(roots: seq<int>, w: int, v: int, p: int)
    requires p > 0
  {
    Cong(p, v * w, 1) && PowersOf(roots, v, p)
  }

  lemma InverseRootsSquared(roots: seq<int>, w: int, v: int, p: int)
    requires p > 0 && |roots| % 2 == 0 && InverseRoots(roots, w, v, p)
    ensures InverseRoots(Stride(roots, 0), Pow(w, 2), Pow(v, 2), p)
  {
    EvenRoots(roots, v, p);
    PowBase(v, w, 2);
    PowCong(p, v * w, 1, 2);
    PowOne(2);
  }

  lemma OddRoot(roots: seq<int>, w: int, v: int, p: int, m: nat)
    requires p > 0 && InverseRoots(roots, w, v, p) && 2 * m + 1 < |roots|
    ensures Cong(p, roots[2 * m + 1] * w, roots[2 * m])
  {
    var q := Pow(v, 2 * m);
    assert Pow(v, 2 * m + 1) == v * q;
    CongMul(p, roots[2 * m + 1], v * q, w, w);
    CongMul(p, q, q, v * w, 1);
    assert v * q * w == q * (v * w) by {
      MulAssoc(v, q, w);
      MulAssoc(q, v, w);
    }
  }

  /** Transforming o with the inverse roots gives twice the transform of l at even outputs
      and twice c times the transform of r at odd outputs. */
  ghost predicate Undone(o: seq<int>, l: seq<int>, r: seq<int>, c: int, roots: seq<int>, p: int, m: nat)
    requires p > 0 && PowerOfTwo(|l|) && |l| == |r| && |o| == |roots| == 2 * |l| && m < |l|
  {
    assert PowerOfTwo(2 * |l|);
    && Cong(p, Transform(o, roots, p)[2 * m], 2 * Transform(l, Stride(roots, 0), p)[m])
    && Cong(p, Transform(o, roots, p)[2 * m + 1], 2 * c * Transform(r, Stride(roots, 0), p)[m])
  }

  /** The inverse butterflies undo the forward butterflies, at every level and for any roots. */
  lemma {:induction false} Unbutterfly(o: seq<int>, l: seq<int>, r: seq<int>, c: int, w: int, v: int,
                                       roots: seq<int>, p: int, m: nat)
    requires p > 0 && PowerOfTwo(|l|) && ButterflyOf(o, l, r, c, w, p)
    requires |roots| == |o| && InverseRoots(roots, w, v, p) && m < |l|
    ensures Undone(o, l, r, c, roots, p, m)
    decreases |l|
  {
    hide Undone, Pow, Cong, Transform;
    if |l| == 1 {
      UnbutterflySingle(o, l, r, c, w, v, roots, p);
    } else {
      var q := |l| / 2;
      var k := if m < q then m else m - q;
      ButterflySlices(o, l, r, c, w, p, 0);
      ButterflySlices(o, l, r, c, w, p, 1);
      InverseRootsSquared(roots, w, v, p);
      Unbutterfly(Stride(o, 0), Stride(l, 0), Stride(r, 0), c, Pow(w, 2), Pow(v, 2), Stride(roots, 0), p, k);
      Unbutterfly(Stride(o, 1), Stride(l, 1), Stride(r, 1), c * w, Pow(w, 2), Pow(v, 2), Stride(roots, 0), p, k);
      UnbutterflyStep(o, l, r, c, w, v, roots, p, q, k);
    }
  }

  /** Four outputs of a transform of four times q entries, from the two transforms below it. */
  lemma FourOutputs(o: seq<int>, roots: seq<int>, p: int, q: nat, k: nat)
    requires p > 0 && PowerOfTwo(2 * q) && PowerOfTwo(4 * q) && |o| == |roots| == 4 * q && k < q
    ensures var a, b := Transform(Stride(o, 0), Stride(roots, 0), p), Transform(Stride(o, 1), Stride(roots, 0), p);
            var t := Transform(o, roots, p);
            && t[2 * k] == Upper(a[2 * k], b[2 * k], roots[2 * k], p)
            && t[2 * k + 1] == Upper(a[2 * k + 1], b[2 * k + 1], roots[2 * k + 1], p)
            && t[2 * (k + q)] == Lower(a[2 * k], b[2 * k], roots[2 * k], p)
            && t[2 * (k + q) + 1] == Lower(a[2 * k + 1], b[2 * k + 1], roots[2 * k + 1], p)
  {
    hide Transform, Upper, Lower, Stride, PowerOfTwo;
    TransformStep(o, roots, p, 2 * q, 2 * k);
    TransformStep(o, roots, p, 2 * q, 2 * k + 1);
  }

  lemma TwoOutputs(l: seq<int>, roots: seq<int>, p: int, q: nat, k: nat)
    requires p > 0 && PowerOfTwo(q) && PowerOfTwo(2 * q) && |l| == 2 * q && |roots| == 4 * q && k < q
    ensures var roots1 := Stride(roots, 0);
            var x := Transform(Stride(l, 0), Stride(roots1, 0), p)[k];
            var y := Transform(Stride(l, 1), Stride(roots1, 0), p)[k];
            && Transform(l, roots1, p)[k] == Upper(x, y, roots[2 * k], p)
            && Transform(l, roots1, p)[k + q] == Lower(x, y, roots[2 * k], p)
  {
    hide Transform, Upper, Lower, Stride, PowerOfTwo;
    TransformStep(l, Stride(roots, 0), p, q, k);
  }

  lemma Doubled(q: nat)
    requires q > 0 && PowerOfTwo(q)
    ensures PowerOfTwo(2 * q) && PowerOfTwo(4 * q)
  {
    assert 2 * q / 2 == q && 4 * q / 2 == 2 * q;
  }

  lemma UnbutterflyStep(o: seq<int>, l: seq<int>, r: seq<int>, c: int, w: int, v: int,
                        roots: seq<int>, p: int, q: nat, k: nat)
    requires p > 0 && PowerOfTwo(|l|) && |l| == |r| == 2 * q && |o| == |roots| == 2 * |l| && k < q
    requires PowerOfTwo(q) && InverseRoots(roots, w, v, p)
    requires Undone(Stride(o, 0), Stride(l, 0), Stride(r, 0), c, Stride(roots, 0), p, k)
    requires Undone(Stride(o, 1), Stride(l, 1), Stride(r, 1), c * w, Stride(roots, 0), p, k)
    ensures Undone(o, l, r, c, roots, p, k) && Undone(o, l, r, c, roots, p, k + q)
  {
    hide Upper, Lower, Transform, Pow, Cong, Stride, PowerOfTwo, InverseRoots;
    Doubled(q);
    var roots1 := Stride(roots, 0);
    var roots2 := Stride(roots1, 0);
    var a, b := Transform(Stride(o, 0), roots1, p), Transform(Stride(o, 1), roots1, p);
    var le, lo := Transform(Stride(l, 0), roots2, p)[k], Transform(Stride(l, 1), roots2, p)[k];
    var re, ro := Transform(Stride(r, 0), roots2, p)[k], Transform(Stride(r, 1), roots2, p)[k];
    var e := 2 * k;
    OddRoot(roots, w, v, p, k);
    UndoStep(p, c, w, a[e], b[e], a[e + 1], b[e + 1], le, lo, re, ro, roots[e], roots[e + 1]);
    FourOutputs(o, roots, p, q, k);
    TwoOutputs(l, roots, p, q, k);
    TwoOutputs(r, roots, p, q, k);
  }

  /** One step of the undoing on residues: even outputs first, odd outputs second. */
  lemma UndoStep(p: int, c: int, w: int, a0: int, b0: int, a1: int, b1: int,
                 le: int, lo: int, re: int, ro: int, root0: int, root1: int)
    requires p > 0 && Cong(p, a0, 2 * le) && Cong(p, b0, 2 * lo)
    requires Cong(p, a1, 2 * c * re) && Cong(p, b1, 2 * (c * w) * ro) && Cong(p, root1 * w, root0)
    ensures Cong(p, Upper(a0, b0, root0, p), 2 * Upper(le, lo, root0, p))
    ensures Cong(p, Lower(a0, b0, root0, p), 2 * Lower(le, lo, root0, p))
    ensures Cong(p, Upper(a1, b1, root1, p), 2 * c * Upper(re, ro, root0, p))
    ensures Cong(p, Lower(a1, b1, root1, p), 2 * c * Lower(re, ro, root0, p))
  {
    hide Upper, Lower, Cong;
    CongRefl(p, root0 * 1);
    Recombine(p, a0, b0, root0, 2, 1, le, lo, root0);
    ScaledTwice(c, w, ro);
    Recombine(p, a1, b1, root1, 2 * c, w, re, ro, root0);
  }

  lemma ScaledTwice(c: int, w: int, y: int)
    ensures 2 * (c * w) * y == 2 * c * w * y
  {
  }

  lemma TwiddledFirst(c: int, w: int, v: int, x: int)
    ensures 2 * Twiddled(c, w, 0, x) == 2 * c * x && Pow(v, 0) == 1
  {
  }

  lemma UnbutterflySingle(o: seq<int>, l: seq<int>, r: seq<int>, c: int, w: int, v: int, roots: seq<int>, p: int)
    requires p > 0 && |l| == 1 && ButterflyOf(o, l, r, c, w, p)
    requires |roots| == |o| && InverseRoots(roots, w, v, p)
    ensures Undone(o, l, r, c, roots, p, 0)
  {
    hide Pow, Twiddled, Upper, Lower;
    assert PowerOfTwo(2);
    var x, y := l[0], Twiddled(c, w, 0, r[0]);
    TwiddledFirst(c, w, v, r[0]);
    assert ButterflyAt(o, l, r, c, w, p, 0);
    assert Cong(p, o[0], x + y) && Cong(p, o[0 + 1], x - y) && Cong(p, roots[0], 1);
    SingleButterfly(p, o[0], o[1], roots[0], x, y);
    TransformStep(o, roots, p, 1, 0);
  }

  lemma SingleButterfly(p: int, a: int, b: int, root: int, x: int, y: int)
    requires p > 0 && Cong(p, a, x + y) && Cong(p, b, x - y) && Cong(p, root, 1)
    ensures Cong(p, Upper(a, b, root, p), 2 * x) && Cong(p, Lower(a, b, root, p), 2 * y)
  {
    hide Upper, Lower, Cong;
    ButterflyCong(p, a, b, root, x + y, x - y, 1);
    assert x + y + (x - y) * 1 == 2 * x && x + y - (x - y) * 1 == 2 * y;
  }

  /** A transform is one level of butterflies over the transforms of its slices. */
  lemma TransformIsButterfly(vals: seq<int>, roots: seq<int>, w: int, p: int)
    requires p > 0 && PowerOfTwo(|vals|) && |vals| >= 2 && |roots| == |vals| && PowersOf(roots, w, p)
    ensures PowerOfTwo(|vals| / 2)
    ensures ButterflyOf(Transform(vals, roots, p), Transform(Stride(vals, 0), Stride(roots, 0), p),
                        Transform(Stride(vals, 1), Stride(roots, 0), p), 1, w, p)
  {
    hide Upper, Lower, Transform, Pow;
    var h := |vals| / 2;
    var l, r := Transform(Stride(vals, 0), Stride(roots, 0), p), Transform(Stride(vals, 1), Stride(roots, 0), p);
    forall i | 0 <= i < h
      ensures ButterflyAt(Transform(vals, roots, p), l, r, 1, w, p, i)
    {
      TransformStep(vals, roots, p, h, i);
      ButterflyCong(p, l[i], r[i], roots[i], l[i], r[i], Pow(w, i));
      MulAssoc(Pow(w, i), r[i], 1);
    }
  }

  /** Transforming forth and back multiplies every entry by n. */
  lemma {:induction false} ThereAndBack(vals: seq<int>, roots: seq<int>, back: seq<int>, w: int, v: int, p: int, i: nat)
    requires p > 0 && PowerOfTwo(|vals|) && |roots| == |back| == |vals| && i < |vals|
    requires PowersOf(roots, w, p) && InverseRoots(back, w, v, p)
    ensures Cong(p, Transform(Transform(vals, roots, p), back, p)[i], |vals| * vals[i])
    decreases |vals|
  {
    hide Upper, Lower, Pow, Cong, Transform;
    if |vals| == 1 {
      SingleThereAndBack(vals, roots, back, p);
    } else {
      var m, s := i / 2, i % 2;
      var part := Stride(vals, s);
      TransformIsButterfly(vals, roots, w, p);
      EvenRoots(roots, w, p);
      InverseRootsSquared(back, w, v, p);
      Unbutterfly(Transform(vals, roots, p), Transform(Stride(vals, 0), Stride(roots, 0), p),
                  Transform(Stride(vals, 1), Stride(roots, 0), p), 1, w, v, back, p, m);
      ThereAndBack(part, Stride(roots, 0), Stride(back, 0), Pow(w, 2), Pow(v, 2), p, m);
      assert i == 2 * m + s && part[m] == vals[i];
      TwiceHalf(p, Transform(Transform(vals, roots, p), back, p)[i],
                Transform(Transform(part, Stride(roots, 0), p), Stride(back, 0), p)[m], |part|, vals[i]);
    }
  }

  lemma SingleThereAndBack(vals: seq<int>, roots: seq<int>, back: seq<int>, p: int)
    requires p > 0 && |roots| == |back| == |vals| == 1
    ensures Cong(p, Transform(Transform(vals, roots, p), back, p)[0], |vals| * vals[0])
  {
  }

  lemma TwiceHalf(p: int, a: int, t: int, h: int, x: int)
    requires p > 0 && Cong(p, a, 2 * t) && Cong(p, t, h * x)
    ensures Cong(p, a, 2 * h * x)
  {
    CongMul(p, 2, 2, t, h * x);
    assert 2 * (h * x) == 2 * h * x;
  }

  lemma {:induction false} PrimeAvoidsPowersOfTwo(p: int, n: int)
    requires Prime(p) && p > 2 && PowerOfTwo(n)
    ensures !Cong(p, n, 0)
    decreases n
  {
    if n == 1 {
    } else {
      PrimeAvoidsPowersOfTwo(p, n / 2);
      if Cong(p, n, 0) {
        Euclid(p, 2, n / 2);
      }
    }
  }

  /** pow(n, p - 2, p) inverts n. */
  lemma LengthInverse(n: nat, p: int)
    requires Prime(p) && p > 2 && PowerOfTwo(n)
    ensures Cong(p, n * InverseLength(n, p), 1)
  {
    PrimeAvoidsPowersOfTwo(p, n);
    Fermat(p, n);
    CongMod(p, Pow(n, p - 2));
    CongMul(p, n, n, InverseLength(n, p), Pow(n, p - 2));
  }

  lemma ReversedIndex(roots: seq<int>, i: nat)
    requires i < |roots|
    ensures Reversed(roots)[i] == roots[if i == 0 then 0 else |roots| - i]
  {
  }

  lemma PowersAt(roots: seq<int>, w: int, p: int, k: nat)
    requires p > 0 && k < |roots| && PowersOf(roots, w, p)
    ensures Cong(p, roots[k], Pow(w, k))
  {
  }

  lemma ReversedAt(roots: seq<int>, w: int, v: int, p: int, i: nat)
    requires p > 0 && i < |roots| && PowersOf(roots, w, p)
    requires Cong(p, Pow(w, |roots|), 1) && Cong(p, v * w, 1)
    ensures Cong(p, Reversed(roots)[i], Pow(v, i))
  {
    hide Cong, Pow, Reversed, PowersOf;
    var k := if i == 0 then 0 else |roots| - i;
    PowZero(w, v);
    ReversedIndex(roots, i);
    PowersAt(roots, w, p, k);
    if i > 0 {
      InversePower(w, v, p, |roots|, i);
      CongTrans(p, roots[k], Pow(w, k), Pow(v, i));
    }
  }

  lemma PowZero(w: int, v: int)
    ensures Pow(w, 0) == Pow(v, 0) == 1
  {
  }

  lemma ReversedAreInverse(roots: seq<int>, w: int, p: int)
    requires p > 0 && |roots| > 0 && PowersOf(roots, w, p) && Cong(p, Pow(w, |roots|), 1)
    ensures InverseRoots(Reversed(roots), w, Pow(w, |roots| - 1), p)
  {
    var n, v := |roots|, Pow(w, |roots| - 1);
    assert v * w == w * v == Pow(w, n);
    hide Pow, Cong;
    forall i | 0 <= i < n
      ensures Cong(p, Reversed(roots)[i], Pow(v, i))
    {
      ReversedAt(roots, w, v, p, i);
    }
  }

  lemma InversePower(w: int, v: int, p: int, n: nat, i: nat)
    requires p > 0 && i <= n && Cong(p, Pow(w, n), 1) && Cong(p, v * w, 1)
    ensures Cong(p, Pow(w, n - i), Pow(v, i))
  {
    var a, b, c := Pow(w, n - i), Pow(w, i), Pow(v, i);
    PowAdd(w, n - i, i);
    PowBase(v, w, i);
    PowCong(p, v * w, 1, i);
    PowOne(i);
    CongMul(p, a * b, 1, c, c);
    CongMul(p, a, a, c * b, 1);
    assert a * b * c == a * (c * b) by {
      MulAssoc(a, b, c);
    }
  }

  lemma ScaleBack(p: int, t: int, n: int, x: int, inv: int)
    requires p > 0 && Cong(p, t, n * x) && Cong(p, n * inv, 1)
    ensures Cong(p, t * inv, x)
  {
    CongMul(p, t, n * x, inv, inv);
    CongMul(p, x, x, n * inv, 1);
    assert n * x * inv == x * (n * inv) by {
      MulAssoc(x, n, inv);
    }
  }

  /** Main result for the pair: `ifft` gives back the input of `fft`, reduced mod p. */
  lemma InverseUndoes(vals: seq<int>, roots: seq<int>, w: int, p: int, i: nat)
    requires Prime(p) && p > 2 && PowerOfTwo(|vals|) && |roots| == |vals| && i < |vals|
    requires PowersOf(roots, w, p) && Cong(p, Pow(w, |vals|), 1)
    ensures InverseTransform(Transform(vals, roots, p), roots, p)[i] == vals[i] % p
  {
    hide Transform, Pow, InverseLength, Cong;
    var n, inv := |vals|, InverseLength(|vals|, p);
    ReversedAreInverse(roots, w, p);
    ThereAndBack(vals, roots, Reversed(roots), w, Pow(w, n - 1), p, i);
    LengthInverse(n, p);
    var t := Transform(Transform(vals, roots, p), Reversed(roots), p)[i];
    ScaleBack(p, t, n, vals[i], inv);
    CongEqual(p, t * inv, vals[i]);
  }

  lemma CongEqual(p: int, a: int, b: int)
    requires p > 0 && Cong(p, a, b)
    ensures a % p == b % p
  {
  }
}
