/** Arithmetic modulo p: congruence, powers, primes and Fermat's little theorem. */
module Modular {
  /** a and b are the same element of the integers mod p. */
  predicate Cong(p: int, a: int, b: int)
    requires p > 0
  {
    a % p == b % p
  }

  lemma CongIntro(p: int, a: int, b: int, k: int)
    requires p > 0 && a == b + p * k
    ensures Cong(p, a, b)
  {
    var q, r := b / p, b % p;
    assert a == p * (q + k) + r;
    DivModUnique(p, a, q + k, r);
  }

  lemma DivModUnique(p: int, a: int, q: int, r: int)
    requires p > 0 && a == p * q + r && 0 <= r < p
    ensures a / p == q && a % p == r
  {
    var d := a / p - q;
    assert p * d == r - a % p;
    if d >= 1 {
      MulMono(p, 1, d);
    } else if d <= -1 {
      MulMono(p, d, -1);
    }
  }

  lemma MulMono(p: int, a: int, b: int)
    requires p >= 0 && a <= b
    ensures p * a <= p * b
  {
  }

  lemma CongElim(p: int, a: int, b: int) returns (k: int)
    requires p > 0 && Cong(p, a, b)
    ensures a == b + p * k
  {
    k := a / p - b / p;
  }

  lemma CongAdd(p: int, a: int, b: int, c: int, d: int)
    requires p > 0 && Cong(p, a, b) && Cong(p, c, d)
    ensures Cong(p, a + c, b + d) && Cong(p, a - c, b - d)
  {
    var k := CongElim(p, a, b);
    var l := CongElim(p, c, d);
    assert a + c == b + d + p * (k + l);
    CongIntro(p, a + c, b + d, k + l);
    assert a - c == b - d + p * (k - l);
    CongIntro(p, a - c, b - d, k - l);
  }

  lemma CongMul(p: int, a: int, b: int, c: int, d: int)
    requires p > 0 && Cong(p, a, b) && Cong(p, c, d)
    ensures Cong(p, a * c, b * d)
  {
    var k := CongElim(p, a, b);
    var l := CongElim(p, c, d);
    var m := b * l + d * k + p * k * l;
    assert a * c == b * d + p * m by {
      assert a * c == (b + p * k) * (d + p * l);
    }
    CongIntro(p, a * c, b * d, m);
  }

  lemma CongMod(p: int, a: int)
    requires p > 0
    ensures Cong(p, a % p, a) && 0 <= a % p < p
  {
  }

  lemma CongRefl(p: int, a: int)
    requires p > 0
    ensures Cong(p, a, a)
  {
  }

  lemma CongSymmetric(p: int, a: int, b: int)
    requires p > 0 && Cong(p, a, b)
    ensures Cong(p, b, a)
  {
  }

  lemma CongTrans(p: int, a: int, b: int, c: int)
    requires p > 0 && Cong(p, a, b) && Cong(p, b, c)
    ensures Cong(p, a, c)
  {
  }

  /** b to the power e, with e <= 0 read as 0. */
  function Pow(b: int, e: int): int
    decreases e
  {
    if e <= 0 then 1 else b * Pow(b, e - 1)
  }

  lemma {:induction false} PowAdd(b: int, m: nat, n: nat)
    ensures Pow(b, m + n) == Pow(b, m) * Pow(b, n)
    decreases m
  {
    if m > 0 {
      PowAdd(b, m - 1, n);
    }
  }

  lemma {:induction false} PowProduct(b: int, m: nat, n: nat)
    ensures m * n >= 0 && Pow(b, m * n) == Pow(Pow(b, m), n)
    decreases n
  {
    if n > 0 {
      PowProduct(b, m, n - 1);
      assert m * n == m + m * (n - 1);
      PowAdd(b, m, m * (n - 1));
    }
  }

  lemma {:induction false} PowBase(a: int, b: int, n: nat)
    ensures Pow(a * b, n) == Pow(a, n) * Pow(b, n)
  {
    if n > 0 {
      PowBase(a, b, n - 1);
    }
  }

  lemma {:induction false} PowOne(n: nat)
    ensures Pow(1, n) == 1
  {
    if n > 0 {
      PowOne(n - 1);
    }
  }

  lemma {:induction false} PowCong(p: int, a: int, b: int, n: nat)
    requires p > 0 && Cong(p, a, b)
    ensures Cong(p, Pow(a, n), Pow(b, n))
  {
    if n > 0 {
      PowCong(p, a, b, n - 1);
      CongMul(p, a, b, Pow(a, n - 1), Pow(b, n - 1));
    }
  }

  predicate Prime(p: int) {
    p >= 2 && forall a :: 2 <= a < p ==> p % a != 0
  }

  /** Euclid's lemma, by the remainders of p. */
  lemma {:induction false} EuclidBelow(p: int, a: int, b: int)
    requires Prime(p) && 0 < a < p && Cong(p, a * b, 0)
    ensures Cong(p, b, 0)
    decreases a
  {
    if a > 1 {
      var q, r := p / a, p % a;
      var k := CongElim(p, a * b, 0);
      assert r * b == p * (b - q * k) by {
        assert r * b == (p - a * q) * b == p * b - q * (a * b);
      }
      CongIntro(p, r * b, 0, b - q * k);
      EuclidBelow(p, r, b);
    }
  }

  lemma Euclid(p: int, a: int, b: int)
    requires Prime(p) && Cong(p, a * b, 0) && !Cong(p, a, 0)
    ensures Cong(p, b, 0)
  {
    CongMod(p, a);
    CongMul(p, a % p, a, b, b);
    EuclidBelow(p, a % p, b);
  }

  lemma Cancel(p: int, a: int, b: int, c: int)
    requires Prime(p) && !Cong(p, a, 0) && Cong(p, a * b, a * c)
    ensures Cong(p, b, c)
  {
    CongAdd(p, a * b, a * c, a * c, a * c);
    assert a * b - a * c == a * (b - c);
    Euclid(p, a, b - c);
    CongAdd(p, b - c, 0, c, c);
  }

  /** Finite sums f(0) + ... + f(n - 1). */
  function Sum(n: int, f: int -> int): int
    decreases n
  {
    if n <= 0 then 0 else Sum(n - 1, f) + f(n - 1)
  }

  lemma {:induction false} SumEq(n: int, f: int -> int, g: int -> int)
    requires forall i :: 0 <= i < n ==> f(i) == g(i)
    ensures Sum(n, f) == Sum(n, g)
    decreases n
  {
    if n > 0 {
      SumEq(n - 1, f, g);
    }
  }

  lemma {:induction false} SumCong(p: int, n: int, f: int -> int, g: int -> int)
    requires p > 0
    requires forall i :: 0 <= i < n ==> Cong(p, f(i), g(i))
    ensures Cong(p, Sum(n, f), Sum(n, g))
    decreases n
  {
    if n > 0 {
      SumCong(p, n - 1, f, g);
      CongAdd(p, Sum(n - 1, f), Sum(n - 1, g), f(n - 1), g(n - 1));
    }
  }

  lemma {:induction false} SumAdd(n: int, f: int -> int, g: int -> int, h: int -> int)
    requires forall i :: 0 <= i < n ==> h(i) == f(i) + g(i)
    ensures Sum(n, h) == Sum(n, f) + Sum(n, g)
    decreases n
  {
    if n > 0 {
      SumAdd(n - 1, f, g, h);
    }
  }

  lemma {:induction false} SumScale(n: int, c: int, f: int -> int, g: int -> int)
    requires forall i :: 0 <= i < n ==> g(i) == c * f(i)
    ensures Sum(n, g) == c * Sum(n, f)
    decreases n
  {
    if n > 0 {
      SumScale(n - 1, c, f, g);
      assert g(n - 1) == c * f(n - 1);
    }
  }

  lemma {:induction false} SumSplit(m: nat, n: nat, f: int -> int, g: int -> int)
    requires forall i :: 0 <= i < n ==> g(i) == f(m + i)
    ensures Sum(m + n, f) == Sum(m, f) + Sum(n, g)
    decreases n
  {
    if n > 0 {
      SumSplit(m, n - 1, f, g);
    }
  }

  lemma SumFirst(n: nat, f: int -> int, g: int -> int)
    requires n > 0 && forall i :: 0 <= i < n - 1 ==> g(i) == f(1 + i)
    ensures Sum(n, f) == f(0) + Sum(n - 1, g)
  {
  }

  lemma {:induction false} SumReverse(n: nat, f: int -> int, g: int -> int)
    requires forall i :: 0 <= i < n ==> g(i) == f(n - 1 - i)
    ensures Sum(n, f) == Sum(n, g)
  {
    if n > 0 {
      var rest := i => g(1 + i);
      SumReverse(n - 1, f, rest);
      SumFirst(n, g, rest);
    }
  }

  lemma {:induction false} SumZero(n: int, f: int -> int)
    requires forall i :: 0 <= i < n ==> f(i) == 0
    ensures Sum(n, f) == 0
    decreases n
  {
    if n > 0 {
      SumZero(n - 1, f);
    }
  }

  /** Sums over even and odd indices add up to the whole. */
  lemma {:induction false} SumEvenOdd(h: nat, f: int -> int, even: int -> int, odd: int -> int)
    requires forall i :: 0 <= i < h ==> even(i) == f(2 * i) && odd(i) == f(2 * i + 1)
    ensures Sum(2 * h, f) == Sum(h, even) + Sum(h, odd)
  {
    if h > 0 {
      SumEvenOdd(h - 1, f, even, odd);
      assert Sum(2 * h, f) == Sum(2 * h - 1, f) + f(2 * h - 1);
      assert Sum(2 * h - 1, f) == Sum(2 * h - 2, f) + f(2 * h - 2);
    }
  }

  /** Exchange of the two summations of a rectangular double sum. */
  lemma {:induction false} SumExchange(m: int, n: int, f: (int, int) -> int, rows: int -> int, columns: int -> int)
    requires forall i :: 0 <= i < m ==> rows(i) == Sum(n, j => f(i, j))
    requires forall j :: 0 <= j < n ==> columns(j) == Sum(m, i => f(i, j))
    ensures Sum(m, rows) == Sum(n, columns)
    decreases m
  {
    if m <= 0 {
      SumZero(n, columns);
    } else {
      var rest, last := j => Sum(m - 1, i => f(i, j)), j => f(m - 1, j);
      SumExchange(m - 1, n, f, rows, rest);
      SumAdd(n, rest, last, columns);
    }
  }

  function Choose(n: int, k: int): int
    decreases n
  {
    if k < 0 || n < k then 0
    else if n == 0 then 1
    else Choose(n - 1, k - 1) + Choose(n - 1, k)
  }

  lemma {:induction false} ChooseEnds(n: nat)
    ensures Choose(n, 0) == 1 && Choose(n, n) == 1
  {
    if n > 0 {
      ChooseEnds(n - 1);
    }
  }

  lemma {:induction false} ChooseAbsorb(n: int, k: int)
    requires n >= 1
    ensures k * Choose(n, k) == n * Choose(n - 1, k - 1)
    decreases n
  {
    if 1 <= k <= n && n > 1 {
      ChooseAbsorb(n - 1, k - 1);
      ChooseAbsorb(n - 1, k);
      var a, b := Choose(n - 2, k - 2), Choose(n - 2, k - 1);
      assert Choose(n, k) == Choose(n - 1, k - 1) + Choose(n - 1, k) && Choose(n - 1, k - 1) == a + b;
      AbsorbStep(n, k, Choose(n - 1, k - 1), Choose(n - 1, k), a, b);
    }
  }

  lemma AbsorbStep(n: int, k: int, x: int, y: int, a: int, b: int)
    requires x == a + b && (k - 1) * x == (n - 1) * a && k * y == (n - 1) * b
    ensures k * (x + y) == n * x
  {
  }

  lemma BinomialTerm(a: int, n: int, k: int)
    requires n >= 1
    ensures Choose(n, k) * Pow(a, k) == Choose(n - 1, k - 1) * Pow(a, k) + Choose(n - 1, k) * Pow(a, k)
  {
  }

  lemma PowStep(b: int, n: nat, s: int)
    requires n > 0 && Pow(b, n - 1) == s
    ensures Pow(b, n) == b * s
  {
  }

  lemma ChooseAbove(n: nat)
    ensures Choose(n, n + 1) == 0
  {
  }

  /** One row of the triangle from the row before. */
  lemma BinomialRow(a: int, n: nat)
    requires n > 0
    ensures Sum(n + 1, k => Choose(n, k) * Pow(a, k)) == (a + 1) * Sum(n, k => Choose(n - 1, k) * Pow(a, k))
  {
    hide Choose, Pow;
    var t := k => Choose(n, k) * Pow(a, k);
    var u := k => Choose(n - 1, k) * Pow(a, k);
    var shifted := k => Choose(n - 1, k - 1) * Pow(a, k);
    forall k | 0 <= k < n + 1
      ensures t(k) == shifted(k) + u(k)
    {
      BinomialTerm(a, n, k);
    }
    SumAdd(n + 1, shifted, u, t);
    ShiftedTerms(a, n);
    ChooseAbove(n - 1);
    assert Sum(n + 1, u) == Sum(n, u) + u(n) == Sum(n, u);
    assert Sum(n + 1, t) == a * Sum(n, u) + Sum(n, u);
  }

  lemma {:induction false} Binomial(a: int, n: nat)
    ensures Pow(a + 1, n) == Sum(n + 1, k => Choose(n, k) * Pow(a, k))
  {
    if n == 0 {
      var t := k => Choose(n, k) * Pow(a, k);
      assert Sum(1, t) == Sum(0, t) + t(0);
    } else {
      hide Choose, Pow, Sum;
      Binomial(a, n - 1);
      BinomialRow(a, n);
      PowStep(a + 1, n, Sum(n, k => Choose(n - 1, k) * Pow(a, k)));
    }
  }

  lemma ShiftedTerm(a: int, n: int, k: nat)
    ensures Choose(n - 1, k) * Pow(a, 1 + k) == a * (Choose(n - 1, k) * Pow(a, k))
  {
  }

  lemma ShiftedTerms(a: int, n: nat)
    requires n >= 1
    ensures Sum(n + 1, k => Choose(n - 1, k - 1) * Pow(a, k)) == a * Sum(n, k => Choose(n - 1, k) * Pow(a, k))
  {
    var u := k => Choose(n - 1, k) * Pow(a, k);
    var shifted := k => Choose(n - 1, k - 1) * Pow(a, k);
    assert shifted(0) == 0;
    forall k | 0 <= k < n
      ensures shifted(1 + k) == a * u(k)
    {
      ShiftedTerm(a, n, k);
    }
    HornerShift(n, a, u, shifted);
  }

  lemma HornerShift(n: nat, a: int, u: int -> int, shifted: int -> int)
    requires shifted(0) == 0 && forall k :: 0 <= k < n ==> shifted(1 + k) == a * u(k)
    ensures Sum(n + 1, shifted) == a * Sum(n, u)
  {
  }

  lemma MiddleTerm(p: int, a: int, k: int)
    requires Prime(p) && 0 < k < p
    ensures Cong(p, Choose(p, k) * Pow(a, k), 0)
  {
    ChooseAbsorb(p, k);
    CongIntro(p, k * Choose(p, k), 0, Choose(p - 1, k - 1));
    EuclidBelow(p, k, Choose(p, k));
    CongMul(p, Choose(p, k), 0, Pow(a, k), Pow(a, k));
  }

  lemma FreshmansDream(p: int, a: int)
    requires Prime(p)
    ensures Cong(p, Pow(a + 1, p), Pow(a, p) + 1)
  {
    var t := k => Choose(p, k) * Pow(a, k);
    Binomial(a, p);
    ChooseEnds(p);
    assert t(0) == 1 && t(p) == Pow(a, p);
    var mid, zero := k => t(1 + k), k => 0;
    forall k | 0 <= k < p - 1
      ensures Cong(p, mid(k), zero(k))
    {
      MiddleTerm(p, a, k + 1);
    }
    SumFirst(p, t, mid);
    SumCong(p, p - 1, mid, zero);
    SumZero(p - 1, zero);
    CongAdd(p, Sum(p - 1, mid), 0, 1 + Pow(a, p), 1 + Pow(a, p));
  }

  lemma {:induction false} FermatPower(p: int, a: nat)
    requires Prime(p)
    ensures Cong(p, Pow(a, p), a)
  {
    if a > 0 {
      FermatPower(p, a - 1);
      FreshmansDream(p, a - 1);
      CongAdd(p, Pow(a - 1, p), a - 1, 1, 1);
    }
  }

  /** Fermat's little theorem: the reason why pow(x, p - 2, p) inverts x. */
  lemma Fermat(p: int, a: nat)
    requires Prime(p) && !Cong(p, a, 0)
    ensures Cong(p, Pow(a, p - 1), 1)
  {
    FermatPower(p, a);
    Cancel(p, a, Pow(a, p - 1), 1);
  }
}
