/** Shifts and masks of natural numbers. */
module Shifts {
  import opened Arithmetic

  function Shr(x: nat, n: nat): (y: nat)
    ensures y <= x
  {
    DivFloor(x, Pow2(n));
    x / Pow2(n)
  }

  /** The n lowest bits. */
  function Mask(x: nat, n: nat): (y: nat)
    ensures y < Pow2(n)
  {
    x % Pow2(n)
  }

  lemma Pow2Add(m: nat, n: nat)
    ensures Pow2(m + n) == Pow2(m) * Pow2(n)
  {
    PowAdd(2, m, n);
  }

  lemma SmallPowers()
    ensures Pow2(1) == 2 && Pow2(2) == 4 && Pow2(3) == 8 && Pow2(4) == 16 && Pow2(5) == 32 && Pow2(6) == 64
    ensures Pow2(7) == 128 && Pow2(8) == 256
  {
    assert Pow(2, 1) == 2 && Pow(2, 2) == 4 && Pow(2, 3) == 8 && Pow(2, 4) == 16;
    assert Pow(2, 5) == 32 && Pow(2, 6) == 64 && Pow(2, 7) == 128 && Pow(2, 8) == 256;
  }

  /** Dividing by two factors at once or in turn. */
  lemma DivDiv(x: nat, p: nat, q: nat)
    requires p > 0 && q > 0
    ensures p * q > 0 && x / p / q == x / (p * q)
    ensures x % (p * q) == x / p % q * p + x % p
  {
    ScaleInequality(1, p, q);
    DivFloor(x, p);
    var y, r := x / p, x % p;
    DivFloor(y, q);
    var z, t := y / q, y % q;
    Distribute(z * q, t, p);
    Associate(z, q, p);
    Commute(q, p);
    MulNonNegative(t, p);
    ScaleInequality(t + 1, q, p);
    Distribute(t, 1, p);
    DivModUnique(x, p * q, z, t * p + r);
  }

  lemma ShrShr(x: nat, m: nat, n: nat)
    ensures Shr(Shr(x, m), n) == Shr(x, m + n)
  {
    Pow2Add(m, n);
    DivDiv(x, Pow2(m), Pow2(n));
  }

  /** Appending v below x. */
  lemma ShrAppend(x: nat, v: nat, n: nat)
    requires v < Pow2(n)
    ensures x * Pow2(n) >= 0 && Shr(x * Pow2(n) + v, n) == x && Mask(x * Pow2(n) + v, n) == v
  {
    MulNonNegative(x, Pow2(n));
    DivModUnique(x * Pow2(n) + v, Pow2(n), x, v);
  }

  /** A number is its upper bits above its lower ones. */
  lemma ShrMask(x: nat, n: nat)
    ensures x == Shr(x, n) * Pow2(n) + Mask(x, n)
  {
    DivFloor(x, Pow2(n));
  }

  lemma ShrScaled(x: nat, m: nat, n: nat)
    requires n <= m
    ensures x * Pow2(m) >= 0 && x * Pow2(m - n) >= 0 && Shr(x * Pow2(m), n) == x * Pow2(m - n)
  {
    Pow2Add(m - n, n);
    Associate(x, Pow2(m - n), Pow2(n));
    MulNonNegative(x, Pow2(m));
    MulNonNegative(x, Pow2(m - n));
    DivModUnique(x * Pow2(m), Pow2(n), x * Pow2(m - n), 0);
  }

  /** Bits n..n+k of a number do not depend on its bits from w on. */
  lemma MaskShr(x: nat, n: nat, k: nat, w: nat)
    requires n + k <= w
    ensures Mask(Shr(Mask(x, w), n), k) == Mask(Shr(x, n), k)
  {
    hide Pow2;
    ShrMask(x, w);
    Pow2Add(w - n, n);
    Pow2Add(w - n - k, k);
    LowerBits(x, Shr(x, w), Mask(x, w), Pow2(n), Pow2(k), Pow2(w - n - k));
  }

  lemma LowerBits(x: nat, hi: nat, m: nat, a: nat, b: nat, c: nat)
    requires a > 0 && b > 0 && x == hi * ((c * b) * a) + m
    ensures x / a % b == m / a % b
  {
    Associate(hi, c * b, a);
    Associate(hi, c, b);
    DivFloor(m, a);
    Distribute(hi * (c * b), m / a, a);
    DivModUnique(x, a, hi * (c * b) + m / a, m % a);
    ModShift(m / a, hi * c, b);
  }
}
