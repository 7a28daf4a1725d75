/** Greatest common divisors, primes, Fermat's little theorem and the identity
    textbook RSA rests on. */
module NumberTheory {
  import opened Arithmetic

  ghost predicate Divides(d: int, x: int)
    requires d > 0
  {
    x % d == 0
  }

  lemma DividesMultiple(d: int, k: int)
    requires d > 0
    ensures Divides(d, k * d) && Divides(d, d * k)
  {
    DivModUnique(k * d, d, k, 0);
    Commute(k, d);
  }

  lemma Quotient(d: int, x: int) returns (k: int)
    requires d > 0 && Divides(d, x)
    ensures x == k * d
  {
    k := x / d;
  }

  lemma DividesProduct(d: int, x: int, k: int)
    requires d > 0 && Divides(d, x)
    ensures Divides(d, x * k) && Divides(d, k * x)
  {
    var q := Quotient(d, x);
    Associate(k, q, d);
    DividesMultiple(d, k * q);
    Commute(x, k);
  }

  lemma DividesSum(d: int, x: int, y: int)
    requires d > 0 && Divides(d, x) && Divides(d, y)
    ensures Divides(d, x + y) && Divides(d, x - y)
  {
    var k := Quotient(d, x);
    var l := Quotient(d, y);
    SumOfMultiples(d, x, y, k, l);
    DivModUnique(x + y, d, k + l, 0);
    DivModUnique(x - y, d, k - l, 0);
  }

  lemma SumOfMultiples(d: int, x: int, y: int, k: int, l: int)
    requires x == k * d && y == l * d
    ensures x + y == (k + l) * d && x - y == (k - l) * d
  {
    Distribute(k, l, d);
    Distribute(k - l, l, d);
  }

  lemma DivisorAtMost(d: int, x: int)
    requires d > 0 && x > 0 && Divides(d, x)
    ensures d <= x
  {
    var k := Quotient(d, x);
    assert k >= 1;
    ScaleInequality(1, k, d);
  }

  ghost function Gcd(a: nat, b: nat): nat
    decreases b
  {
    if b == 0 then a else Gcd(b, a % b)
  }

  /** The greatest common divisor by its meaning, not by an algorithm. */
  ghost predicate IsGcd(g: int, a: nat, b: nat) {
    && g > 0
    && Divides(g, a) && Divides(g, b)
    && forall c: nat | c > 0 && Divides(c, a) && Divides(c, b) :: Divides(c, g)
  }

  lemma {:induction false} GcdIsGcd(a: nat, b: nat)
    requires a > 0 || b > 0
    ensures IsGcd(Gcd(a, b), a, b)
    decreases b
  {
    if b == 0 {
      DividesMultiple(a, 1);
      DividesMultiple(a, 0);
    } else {
      var r, q := a % b, a / b;
      GcdIsGcd(b, r);
      var g := Gcd(b, r);
      assert a == q * b + r;
      DividesProduct(g, b, q);
      DividesSum(g, q * b, r);
      forall c: nat | c > 0 && Divides(c, a) && Divides(c, b) ensures Divides(c, g) {
        DividesProduct(c, b, q);
        DividesSum(c, a, q * b);
      }
    }
  }

  lemma IsGcdUnique(g: int, h: int, a: nat, b: nat)
    requires IsGcd(g, a, b) && IsGcd(h, a, b)
    ensures g == h
  {
    DivisorAtMost(g, h);
    DivisorAtMost(h, g);
  }

  lemma GcdSymmetric(a: nat, b: nat)
    ensures Gcd(a, b) == Gcd(b, a)
  {
    if a > 0 || b > 0 {
      GcdIsGcd(a, b);
      GcdIsGcd(b, a);
      IsGcdUnique(Gcd(a, b), Gcd(b, a), a, b);
    }
  }

  lemma {:induction false} Bezout(a: nat, b: nat) returns (x: int, y: int)
    ensures a * x + b * y == Gcd(a, b)
    decreases b
  {
    if b == 0 {
      x, y := 1, 0;
    } else {
      var u, v := Bezout(b, a % b);
      var q := a / b;
      x, y := v, u - q * v;
      BezoutStep(a, b, q, a % b, u, v);
    }
  }

  lemma BezoutStep(a: int, b: int, q: int, r: int, u: int, v: int)
    requires a == q * b + r
    ensures a * v + b * (u - q * v) == b * u + r * v
  {
    Distribute(q * b, r, v);
    Distribute(u, -(q * v), b);
    Associate(q, b, v);
    Commute(b, q * v);
    Associate(q, v, b);
    Commute(v, b);
  }

  ghost predicate Prime(p: int) {
    p >= 2 && forall k: int | 2 <= k < p :: p % k != 0
  }

  lemma CoprimeToPrime(p: nat, a: nat)
    requires Prime(p) && !Divides(p, a)
    ensures Gcd(p, a) == 1
  {
    GcdIsGcd(p, a);
    var g := Gcd(p, a);
    DivisorAtMost(g, p);
  }

  lemma EuclidLemma(p: nat, a: nat, b: int)
    requires Prime(p) && Divides(p, a * b) && !Divides(p, a)
    ensures Divides(p, b)
  {
    CoprimeToPrime(p, a);
    var x, y := Bezout(p, a);
    PrimeStep(p, a, b, x, y);
    DividesMultiple(p, x * b);
    DividesProduct(p, a * b, y);
    DividesSum(p, (x * b) * p, y * (a * b));
  }

  lemma PrimeStep(p: int, a: int, b: int, x: int, y: int)
    requires p * x + a * y == 1
    ensures b == (x * b) * p + y * (a * b)
  {
    Distribute(p * x, a * y, b);
    Associate(p, x, b);
    Commute(p, x * b);
    Commute(a, y);
    Associate(y, a, b);
  }

  function Binom(n: nat, k: nat): nat {
    if k == 0 then 1 else if n == 0 then 0 else Binom(n - 1, k - 1) + Binom(n - 1, k)
  }

  lemma {:induction false} BinomAbove(n: nat, k: nat)
    requires k > n
    ensures Binom(n, k) == 0
  {
    if n > 0 {
      BinomAbove(n - 1, k - 1);
      BinomAbove(n - 1, k);
    }
  }

  lemma {:induction false} Absorption(n: nat, k: nat)
    requires n > 0 && k > 0
    ensures k * Binom(n, k) == n * Binom(n - 1, k - 1)
  {
    if n == 1 {
      BinomAbove(0, k);
    } else {
      Absorption(n - 1, k);
      if k > 1 { Absorption(n - 1, k - 1); }
      AbsorptionStep(n - 1, k - 1, Binom(n - 1, k - 1), Binom(n - 1, k),
                     if k > 1 then Binom(n - 2, k - 2) else 0, Binom(n - 2, k - 1));
    }
  }

  lemma AbsorptionStep(n: int, k: int, a: int, b: int, c: int, d: int)
    requires (k + 1) * b == n * d && k * a == n * c && a == c + d
    ensures (k + 1) * (a + b) == (n + 1) * a
  {
    Distribute(a, b, k + 1);
    Distribute(k, 1, a);
    Distribute(n, 1, a);
    Distribute(c, d, n);
  }

  lemma PrimeDividesBinom(p: nat, k: nat)
    requires Prime(p) && 0 < k < p
    ensures Divides(p, Binom(p, k))
  {
    Absorption(p, k);
    DividesMultiple(p, Binom(p - 1, k - 1));
    DivModUnique(k, p, 0, k);
    EuclidLemma(p, k, Binom(p, k));
  }

  /** The terms 0..j of the expansion of (1 + x)^n. */
  ghost function BinomSum(n: nat, j: nat, x: int): int {
    Binom(n, j) * Pow(x, j) + if j == 0 then 0 else BinomSum(n, j - 1, x)
  }

  lemma {:induction false} BinomSumStep(n: nat, j: nat, x: int)
    requires n > 0
    ensures BinomSum(n, j, x)
            == BinomSum(n - 1, j, x) + if j == 0 then 0 else x * BinomSum(n - 1, j - 1, x)
  {
    if j > 0 {
      BinomSumStep(n, j - 1, x);
      ExpansionStep(Binom(n - 1, j - 1), Binom(n - 1, j), x, Pow(x, j - 1),
                    if j == 1 then 0 else BinomSum(n - 1, j - 2, x));
    }
  }

  lemma ExpansionStep(a: int, b: int, x: int, w: int, rest: int)
    ensures (a + b) * (x * w) + x * rest == b * (x * w) + x * (a * w + rest)
  {
    Distribute(a, b, x * w);
    Associate(a, x, w);
    Commute(a, x);
    Associate(x, a, w);
    Distribute(a * w, rest, x);
  }

  lemma {:induction false} BinomialTheorem(n: nat, x: int)
    ensures Pow(1 + x, n) == BinomSum(n, n, x)
  {
    if n > 0 {
      BinomialTheorem(n - 1, x);
      BinomSumStep(n, n, x);
      BinomAbove(n - 1, n);
      Distribute(1, x, BinomSum(n - 1, n - 1, x));
    }
  }

  lemma {:induction false} MiddleTermsVanish(p: nat, j: nat, x: int)
    requires Prime(p) && j < p
    ensures Congruent(BinomSum(p, j, x), 1, p)
  {
    if j > 0 {
      MiddleTermsVanish(p, j - 1, x);
      PrimeDividesBinom(p, j);
      DividesProduct(p, Binom(p, j), Pow(x, j));
      DivModUnique(0, p, 0, 0);
      CongruentAdd(Binom(p, j) * Pow(x, j), 0, BinomSum(p, j - 1, x), 1, p);
    }
  }

  /** Fermat's little theorem. */
  lemma {:induction false} Fermat(p: nat, x: nat)
    requires Prime(p)
    ensures Congruent(Pow(x, p), x, p)
  {
    if x == 0 {
      assert Pow(0, p) == 0 * Pow(0, p - 1);
    } else {
      Fermat(p, x - 1);
      BinomialTheorem(p, x - 1);
      MiddleTermsVanish(p, p - 1, x - 1);
      DiagonalBinom(p);
      CongruentAdd(Pow(x - 1, p), x - 1, BinomSum(p, p - 1, x - 1), 1, p);
    }
  }

  lemma {:induction false} DiagonalBinom(n: nat)
    ensures Binom(n, n) == 1
  {
    if n > 0 {
      DiagonalBinom(n - 1);
      BinomAbove(n - 1, n);
    }
  }

  /** Raising to any exponent of the form 1 + k (p - 1) changes nothing mod p. */
  lemma {:induction false} FermatCycle(p: nat, x: nat, k: nat)
    requires Prime(p)
    ensures k * (p - 1) >= 0 && Congruent(Pow(x, 1 + k * (p - 1)), x, p)
  {
    MulNonNegative(k, p - 1);
    if k == 0 {
      assert Pow(x, 1) == x * Pow(x, 0);
    } else {
      FermatCycle(p, x, k - 1);
      Fermat(p, x);
      MulNonNegative(k - 1, p - 1);
      var e := (k - 1) * (p - 1);
      Distribute(k - 1, 1, p - 1);
      PowAdd(x, e, p);
      PowAdd(x, e, 1);
      assert Pow(x, 1) == x * Pow(x, 0);
      CongruentMul(Pow(x, e), Pow(x, e), Pow(x, p), x, p);
    }
  }

  /** Agreement modulo two distinct primes is agreement modulo their product. */
  lemma ChineseRemainder(p: nat, q: nat, x: int, y: int)
    requires Prime(p) && Prime(q) && p != q
    requires Congruent(x, y, p) && Congruent(x, y, q)
    ensures p * q > 0 && Congruent(x, y, p * q)
  {
    MulNonNegative(p - 1, q - 1);
    Expand2(p, q);
    CongruentIff(x, y, p);
    CongruentIff(x, y, q);
    var k: int :| x == y + k * p;
    var l: int :| x == y + l * q;
    DividesMultiple(q, l);
    Commute(k, p);
    assert Divides(q, p * k);
    if Divides(q, p) {
      assert p % q == 0;
      DivisorAtMost(q, p);
      assert false;
    }
    EuclidLemma(q, p, k);
    assert k == k / q * q;
    Associate(k / q, q, p);
    Commute(q, p);
    ModShift(y, k / q, p * q);
  }

  lemma Expand2(p: int, q: int)
    ensures (p - 1) * (q - 1) == p * q - p - q + 1
  {
    Distribute(p, -1, q - 1);
    Distribute(q, -1, p);
  }

  /** The identity of textbook RSA, for any exponent modulus `m` that p - 1 and
      q - 1 both divide. */
  lemma RsaIdentity(p: nat, q: nat, m: nat, e: nat, d: nat, x: nat)
    requires Prime(p) && Prime(q) && p != q
    requires m > 1 && Divides(p - 1, m) && Divides(q - 1, m) && e * d % m == 1
    requires x < p * q
    ensures Pow(Pow(x, e) % (p * q), d) % (p * q) == x
  {
    var n := p * q;
    MulNonNegative(e, d);
    DivFloor(e * d, m);
    var t := e * d / m;
    PowMul(x, e, d);
    ExponentCycle(p, x, m, t);
    ExponentCycle(q, x, m, t);
    ChineseRemainder(p, q, Pow(x, e * d), x);
    ModIdempotent(Pow(x, e), n);
    CongruentPow(Pow(x, e) % n, Pow(x, e), d, n);
    DivModUnique(x, n, 0, x);
  }

  lemma ExponentCycle(p: nat, x: nat, m: nat, t: nat)
    requires Prime(p) && m > 0 && Divides(p - 1, m)
    ensures t * m + 1 >= 0 && Congruent(Pow(x, t * m + 1), x, p)
  {
    assert m == m / (p - 1) * (p - 1);
    MulNonNegative(t, m / (p - 1));
    Associate(t, m / (p - 1), p - 1);
    FermatCycle(p, x, t * (m / (p - 1)));
  }
}
