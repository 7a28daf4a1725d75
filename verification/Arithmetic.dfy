/** Facts about powers and remainders that the number modules share. */
module Arithmetic {

  function Pow(b: int, e: nat): int {
    if e == 0 then 1 else b * Pow(b, e - 1)
  }

  lemma {:induction false} PowPositive(b: int, e: nat)
    requires b > 0
    ensures Pow(b, e) > 0
  {
    if e > 0 { PowPositive(b, e - 1); }
  }

  function Pow2(j: nat): (p: nat)
    ensures p > 0 && p == Pow(2, j)
  {
    PowPositive(2, j);
    Pow(2, j)
  }

  lemma {:induction false} PowAdd(b: int, m: nat, n: nat)
    ensures Pow(b, m + n) == Pow(b, m) * Pow(b, n)
  {
    if m > 0 {
      PowAdd(b, m - 1, n);
      assert Pow(b, m + n) == b * Pow(b, m - 1 + n);
      assert b * (Pow(b, m - 1) * Pow(b, n)) == (b * Pow(b, m - 1)) * Pow(b, n);
    }
  }

  lemma {:induction false} PowMul(b: int, m: nat, n: nat)
    ensures m * n >= 0 && Pow(b, m * n) == Pow(Pow(b, m), n)
  {
    if n == 0 {
      assert m * n == 0;
    } else {
      PowMul(b, m, n - 1);
      assert m * n == m + m * (n - 1);
      PowAdd(b, m, m * (n - 1));
    }
  }

  lemma {:induction false} PowOfProduct(x: int, y: int, n: nat)
    ensures Pow(x * y, n) == Pow(x, n) * Pow(y, n)
  {
    if n > 0 {
      PowOfProduct(x, y, n - 1);
      SwapInner(x, y, Pow(x, n - 1), Pow(y, n - 1));
    }
  }

  lemma SwapInner(x: int, y: int, s: int, t: int)
    ensures (x * y) * (s * t) == (x * s) * (y * t)
  {
    calc {
      (x * y) * (s * t);
      x * (y * (s * t));
      { assert y * (s * t) == s * (y * t); }
      x * (s * (y * t));
      (x * s) * (y * t);
    }
  }

  lemma {:induction false} PowMonotone(b: int, m: nat, n: nat)
    requires b > 0 && m <= n
    ensures Pow(b, m) <= Pow(b, n)
  {
    if m < n {
      PowMonotone(b, m, n - 1);
      PowPositive(b, n - 1);
      MulMonotone(Pow(b, n - 1), 1, b);
    }
  }

  lemma MulMonotone(a: int, x: int, y: int)
    requires a >= 0 && x <= y
    ensures a * x <= a * y
  {}

  lemma MulNonNegative(x: int, y: int)
    requires x >= 0 && y >= 0
    ensures x * y >= 0
  {}

  lemma ScaleInequality(x: int, y: int, w: nat)
    requires x <= y
    ensures x * w <= y * w
  {}

  lemma Commute(x: int, y: int)
    ensures x * y == y * x
  {}

  lemma Associate(x: int, y: int, z: int)
    ensures (x * y) * z == x * (y * z)
  {}

  /** Division of natural numbers, by its inequalities. */
  lemma DivFloor(x: nat, d: nat)
    requires d > 0
    ensures 0 <= x / d <= x
    ensures (x / d) * d <= x < (x / d + 1) * d
    ensures x == (x / d) * d + x % d
  {
    Distribute(x / d, 1, d);
    MulMonotone(x / d, 1, d);
  }

  /** A quotient and remainder pair is determined by its defining equation. */
  lemma DivModUnique(x: int, d: int, q: int, r: int)
    requires d > 0 && x == q * d + r && 0 <= r < d
    ensures x / d == q && x % d == r
  {
    var e := x / d - q;
    assert x == (x / d) * d + x % d;
    assert (x / d) * d - q * d == e * d;
    assert -d < e * d < d;
    if e >= 1 { MulMonotone(d, 1, e); }
    if e <= -1 { MulMonotone(d, e, -1); }
  }

  /** Adding a multiple of the modulus does not change the remainder. */
  lemma ModShift(x: int, k: int, d: int)
    requires d > 0
    ensures (x + k * d) % d == x % d
  {
    var q := x / d;
    assert x == q * d + x % d;
    assert x + k * d == (q + k) * d + x % d;
    DivModUnique(x + k * d, d, q + k, x % d);
  }

  ghost predicate Congruent(x: int, y: int, d: int)
    requires d > 0
  {
    x % d == y % d
  }

  lemma CongruentIff(x: int, y: int, d: int)
    requires d > 0
    ensures Congruent(x, y, d) <==> exists k: int :: x == y + k * d
  {
    if Congruent(x, y, d) {
      assert x == (x / d) * d + x % d && y == (y / d) * d + y % d;
      assert x == y + (x / d - y / d) * d;
    }
    if k: int :| x == y + k * d { ModShift(y, k, d); }
  }

  lemma CongruentMul(x: int, x': int, y: int, y': int, d: int)
    requires d > 0 && Congruent(x, x', d) && Congruent(y, y', d)
    ensures Congruent(x * y, x' * y', d)
  {
    CongruentIff(x, x', d);
    CongruentIff(y, y', d);
    var k: int :| x == x' + k * d;
    var l: int :| y == y' + l * d;
    ProductShift(x, x', y, y', k, l, d);
    ModShift(x' * y', x' * l + k * y, d);
  }

  lemma ProductShift(x: int, x': int, y: int, y': int, k: int, l: int, d: int)
    requires x == x' + k * d && y == y' + l * d
    ensures x * y == x' * y' + (x' * l + k * y) * d
  {
    calc {
      x * y;
      x' * y + (k * d) * y;
      { Distribute(y', l * d, x'); }
      x' * y' + x' * (l * d) + (k * d) * y;
      { assert x' * (l * d) == (x' * l) * d && (k * d) * y == (k * y) * d; }
      x' * y' + (x' * l) * d + (k * y) * d;
      { Distribute(x' * l, k * y, d); }
      x' * y' + (x' * l + k * y) * d;
    }
  }

  lemma Distribute(x: int, y: int, z: int)
    ensures (x + y) * z == x * z + y * z
  {}

  lemma CongruentAdd(x: int, x': int, y: int, y': int, d: int)
    requires d > 0 && Congruent(x, x', d) && Congruent(y, y', d)
    ensures Congruent(x + y, x' + y', d)
  {
    CongruentIff(x, x', d);
    CongruentIff(y, y', d);
    var k: int :| x == x' + k * d;
    var l: int :| y == y' + l * d;
    assert x + y == x' + y' + (k + l) * d;
    ModShift(x' + y', k + l, d);
  }

  lemma ModIdempotent(x: int, d: int)
    requires d > 0
    ensures Congruent(x % d, x, d)
  {
    DivModUnique(x % d, d, 0, x % d);
  }

  lemma {:induction false} CongruentPow(x: int, y: int, n: nat, d: int)
    requires d > 0 && Congruent(x, y, d)
    ensures Congruent(Pow(x, n), Pow(y, n), d)
  {
    if n > 0 {
      CongruentPow(x, y, n - 1, d);
      CongruentMul(x, y, Pow(x, n - 1), Pow(y, n - 1), d);
    }
  }
}
