/** Schoolbook and Karatsuba multiplication of word sequences. */
module Multiplication {
  import opened Arithmetic
  import opened Words
  import opened Polynomial

  const KARATSUBA_THRESHOLD := 128

  /** The inner loop of NaiveMul: adds x * rhs into the row that starts at word
      i and hands back the carry out of it. The type of `sum` is the claim that
      the 64-bit accumulator never wraps. */
  method MulRow(result: array<Word>, x: Word, rhs: Poly, n: nat, i: nat) returns (carry: UInt64)
    requires n <= |rhs| && i + n <= result.Length
    modifies result
    ensures carry < BASE
    ensures Low(result[..], i + n) + carry * Weight(i + n)
            == Low(old(result[..]), i + n) + x * (Weight(i) * Low(rhs, n))
    ensures forall k | i + n <= k < result.Length :: result[k] == old(result[k])
  {
    ghost var row: Poly := result[..];
    var sum: UInt64 := 0;
    carry := 0;
    for j := 0 to n
      invariant Low(result[..], i + j) + carry * Weight(i + j)
             == Low(row, i + j) + x * (Weight(i) * Low(rhs, j))
      invariant forall k | i + j <= k < result.Length :: result[k] == row[k]
      invariant carry < BASE
    {
      ghost var before: Poly := result[..];
      WordProduct(x, rhs[j]);
      sum := x * rhs[j] + result[i + j] + carry;
      MulDigit(before, row, x, rhs, i, j, carry, sum);
      carry := sum / BASE;
      result[i + j] := sum % BASE;
      assert result[..] == before[i + j := sum % BASE];
    }
  }

  /** The product of the m lowest words of one operand and the n lowest of the
      other. */
  method NaiveMul(lhs: Poly, rhs: Poly, m: nat, n: nat) returns (r: Poly)
    requires m <= |lhs| && n <= |rhs|
    ensures |r| == m + n && Val(r) == Low(lhs, m) * Low(rhs, n)
  {
    var result := new Word[m + n](_ => 0);
    LowZeros(result[..], 0, n);
    assert Low(result[..], n) == 0 && Low(lhs, 0) == 0;
    hide Low, Weight;
    for i := 0 to m
      invariant Low(result[..], i + n) == Low(lhs, i) * Low(rhs, n)
      invariant forall k | i + n <= k < m + n :: result[k] == 0
    {
      var carry := MulRow(result, lhs[i], rhs, n, i);
      ghost var before: Poly := result[..];
      RowDone(before, carry, lhs, i, Low(rhs, n), n + i);
      result[n + i] := carry;
      assert result[..] == before[n + i := carry];
    }
    r := result[..];
  }

  lemma WordProduct(x: Word, y: Word)
    ensures 0 <= x * y <= 0xFFFF_FFFE_0000_0001
  {
    ProductBound(x, y, 0xFFFF_FFFF);
  }

  lemma ProductBound(x: int, y: int, b: int)
    requires 0 <= x <= b && 0 <= y <= b
    ensures 0 <= x * y <= b * b
  {
    MulMonotone(x, y, b);
    MulMonotone(b, x, b);
  }

  /** Storing the carry of a row completes the product of one more word. */
  lemma RowDone(r: Poly, carry: Word, lhs: Poly, i: nat, other: nat, top: nat)
    requires top < |r|
    requires Low(r, top) + carry * Weight(top) == Low(lhs, i) * other + At(lhs, i) * (Weight(i) * other)
    ensures Low(r[top := carry], top + 1) == Low(lhs, i + 1) * other
  {
    LowCongruent(r, r[top := carry], top);
    NextRow(Low(lhs, i), At(lhs, i), Weight(i), other);
  }

  lemma NextRow(low: int, digit: int, w: int, other: int)
    ensures (low + digit * w) * other == low * other + digit * (w * other)
  {
    Distribute(low, digit * w, other);
    assert (digit * w) * other == digit * (w * other);
  }

  /** One inner step: a digit of the row is settled and the carry moves up. */
  lemma MulDigit(r: Poly, row: Poly, x: Word, rhs: Poly, i: nat, j: nat, carry: nat, sum: nat)
    requires i + j < |r| == |row| && j < |rhs| && r[i + j] == row[i + j]
    requires sum == x * rhs[j] + r[i + j] + carry && sum / BASE < BASE
    requires Low(r, i + j) + carry * Weight(i + j) == Low(row, i + j) + x * (Weight(i) * Low(rhs, j))
    ensures Low(r[i + j := sum % BASE], i + j + 1) + sum / BASE * Weight(i + j + 1)
            == Low(row, i + j + 1) + x * (Weight(i) * Low(rhs, j + 1))
  {
    LowCongruent(r, r[i + j := sum % BASE], i + j);
    var w := Weight(i + j);
    WeighDigits(sum % BASE, sum / BASE, x * rhs[j], r[i + j], carry, w);
    WeightAdd(i, j);
    RaiseDigit(Weight(i), Low(rhs, j), rhs[j], Weight(j));
    ScaleDigit(x, Weight(i) * Low(rhs, j), rhs[j], w);
  }

  lemma ScaleDigit(x: int, a: int, d: int, w: int)
    ensures x * (a + d * w) == x * a + (x * d) * w
  {
    Distribute(a, d * w, x);
    assert x * (d * w) == (x * d) * w;
  }

  lemma SplitValue(a: Poly, k: nat, n: nat)
    requires k <= n <= |a|
    ensures Low(a, n) == Val(a[..k]) + Weight(k) * Val(a[k..n])
  {
    SplitParts(a, a[..k], a[k..n], k, n);
  }

  lemma SplitParts(a: Poly, low: Poly, high: Poly, k: nat, n: nat)
    requires |low| == k <= n == k + |high|
    requires forall i: nat | i < k :: At(low, i) == At(a, i)
    requires forall i: nat | i < |high| :: At(high, i) == At(a, k + i)
    ensures Low(a, n) == Val(low) + Weight(k) * Val(high)
  {
    LowCongruent(a, low, k);
    LowSplit(a, high, k, |high|);
  }

  method KaratsubaMul(lhs: Poly, rhs: Poly, n: nat) returns (r: Poly)
    requires n <= |lhs| && n <= |rhs|
    ensures Val(r) == Low(lhs, n) * Low(rhs, n)
    decreases n, 0
  {
    hide Low, Weight, Len;
    if n < KARATSUBA_THRESHOLD {
      r := NaiveMul(lhs, rhs, n, n);
      return;
    }
    var k1 := n / 2;
    var k0 := n - k1;
    var x1, x0 := lhs[k0..n], lhs[..k0];
    var y1, y0 := rhs[k0..n], rhs[..k0];
    ghost var high, mid, low := SplitProduct(lhs, rhs, n, k0);

    var z2 := KaratsubaMul(x1, y1, k1);
    var z0 := KaratsubaMul(x0, y0, k0);
    var xs := Add(x1, x0);
    var ys := Add(y1, y0);
    var cross := Mul(xs, ys);
    var d2 := Sub(cross, z2);
    var d0 := Sub(d2.value, z0);
    var z1 := d0.value;
    assert Val(z2) == high && Val(z1) == mid && Val(z0) == low;
    r := Joined(z2, z1, z0, k0);
  }

  /** The outer products and the middle one at their places. */
  method Joined(z2: Poly, z1: Poly, z0: Poly, k: nat) returns (r: Poly)
    ensures Val(r) == Val(z2) * Weight(k * 2) + Val(z1) * Weight(k) + Val(z0)
  {
    var upper := Add(Shl(z2, k * 2), Shl(z1, k));
    r := Add(upper, z0);
  }

  /** The product of two split numbers. The product of the sums of the halves
      holds both outer products, so neither subtraction underflows. */
  lemma SplitProduct(lhs: Poly, rhs: Poly, n: nat, k: nat) returns (high: nat, mid: nat, low: nat)
    requires k <= n <= |lhs| && n <= |rhs|
    ensures high == Val(lhs[k..n]) * Val(rhs[k..n]) && low == Val(lhs[..k]) * Val(rhs[..k])
    ensures (Val(lhs[k..n]) + Val(lhs[..k])) * (Val(rhs[k..n]) + Val(rhs[..k])) == high + mid + low
    ensures Low(lhs, n) * Low(rhs, n) == high * Weight(k * 2) + mid * Weight(k) + low
  {
    SplitValue(lhs, k, n);
    SplitValue(rhs, k, n);
    WeightAdd(k, k);
    assert k * 2 == k + k;
    high, mid, low := CrossProduct(Val(lhs[k..n]), Val(lhs[..k]), Val(rhs[k..n]), Val(rhs[..k]), Weight(k));
  }

  lemma CrossProduct(x1: nat, x0: nat, y1: nat, y0: nat, w: nat) returns (high: nat, mid: nat, low: nat)
    ensures high == x1 * y1 && low == x0 * y0
    ensures (x1 + x0) * (y1 + y0) == high + mid + low
    ensures (x0 + w * x1) * (y0 + w * y1) == high * (w * w) + mid * w + low
  {
    MulNonNegative(x1, y1);
    MulNonNegative(x0, y0);
    MulNonNegative(x1, y0);
    MulNonNegative(x0, y1);
    high, mid, low := x1 * y1, x1 * y0 + x0 * y1, x0 * y0;
    Distribute(x1, x0, y1 + y0);
    Recombine(x1, x0, y1, y0, w);
  }

  lemma Recombine(x1: int, x0: int, y1: int, y0: int, w: int)
    ensures (x0 + w * x1) * (y0 + w * y1) == (x1 * y1) * (w * w) + (x1 * y0 + x0 * y1) * w + x0 * y0
  {
    calc {
      (x0 + w * x1) * (y0 + w * y1);
      { Distribute(x0, w * x1, y0 + w * y1); }
      x0 * (y0 + w * y1) + (w * x1) * (y0 + w * y1);
      { Distribute(y0, w * y1, x0); Distribute(y0, w * y1, w * x1); }
      x0 * y0 + x0 * (w * y1) + (w * x1) * y0 + (w * x1) * (w * y1);
      { SwapInner(w, x1, w, y1); }
      x0 * y0 + x0 * (w * y1) + (w * x1) * y0 + (w * w) * (x1 * y1);
      { assert x0 * (w * y1) == (x0 * y1) * w && (w * x1) * y0 == (x1 * y0) * w; }
      x0 * y0 + (x0 * y1) * w + (x1 * y0) * w + (w * w) * (x1 * y1);
      { Distribute(x1 * y0, x0 * y1, w); }
      (x1 * y1) * (w * w) + (x1 * y0 + x0 * y1) * w + x0 * y0;
    }
  }

  /** Exact for operands of every length, whatever leading zero words they carry. */
  method Mul(a: Poly, b: Poly) returns (r: Poly)
    ensures Val(r) == Val(a) * Val(b)
    decreases Max(Len(a), Len(b)), 1
  {
    var m := Length(a);
    var n := Length(b);
    LowLen(a, m);
    LowLen(b, n);
    if m == 0 || n == 0 {
      r := [];
    } else if m < KARATSUBA_THRESHOLD || n < KARATSUBA_THRESHOLD {
      r := NaiveMul(a, b, m, n);
    } else if m < n {
      ShiftedLow(a, m, n - m);
      var p := KaratsubaMul(Shl(a, n - m), b, n);
      Unshift(Val(a), Val(b), Weight(n - m));
      r := Shr(p, n - m);
    } else if m > n {
      ShiftedLow(b, n, m - n);
      var p := KaratsubaMul(a, Shl(b, m - n), m);
      Unshift(Val(b), Val(a), Weight(m - n));
      r := Shr(p, m - n);
    } else {
      r := KaratsubaMul(a, b, n);
    }
  }

  /** Padding from below multiplies the value by a weight. */
  lemma ShiftedLow(a: Poly, m: nat, s: nat)
    requires m == Len(a)
    ensures Low(Shl(a, s), s + m) == Val(a) * Weight(s)
  {
    var r := Shl(a, s);
    LowZeros(r, 0, s);
    LowSplit(r, a, s, m);
    LowLen(a, m);
  }

  lemma Unshift(x: nat, y: nat, w: int)
    requires w > 0
    ensures (x * w) * y / w == x * y && y * (x * w) / w == x * y && y * x == x * y
  {
    Associate(x, w, y);
    Associate(x, y, w);
    Commute(w, y);
    Commute(y, x * w);
    Commute(x, y);
    DivModUnique((x * w) * y, w, x * y, 0);
  }
}
