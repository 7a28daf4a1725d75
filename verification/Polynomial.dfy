/** Addition, subtraction, comparison and shifts of word sequences. */
module Polynomial {
  import opened Arithmetic
  import opened Outcome
  import opened Words

  // The accumulators the loops compute in.
  type Int64 = x: int | -0x8000_0000_0000_0000 <= x < 0x8000_0000_0000_0000
  type UInt64 = x: int | 0 <= x < 0x1_0000_0000_0000_0000

  function Max(m: nat, n: nat): nat {
    if m < n then n else m
  }

  function FromUInt64(value: UInt64): (r: Poly)
    ensures |r| == 2 && Val(r) == value
  {
    var r: Poly := [value % BASE, value / BASE];
    assert Low(r, 1) == value % BASE * Weight(0) && Weight(1) == BASE;
    assert Low(r, 2) == Low(r, 1) + value / BASE * Weight(1);
    r
  }

  method Length(a: Poly) returns (n: nat)
    ensures n == Len(a)
  {
    n := |a|;
    assert a[..n] == a;
    while n > 0
      invariant n <= |a|
      invariant Len(a) == Len(a[..n])
    {
      if a[n - 1] != 0 {
        return;
      }
      assert a[..n][..n - 1] == a[..n - 1];
      n := n - 1;
    }
  }

  /** -1, 0 or 1 as the left value is less than, equal to or greater than the
      right one, whatever leading zero words either carries. */
  method Cmp(a: Poly, b: Poly) returns (c: int)
    ensures c == if Val(a) < Val(b) then -1 else if Val(a) == Val(b) then 0 else 1
  {
    var m := Length(a);
    var n := Length(b);
    LenIff(a, n - if n > 0 then 1 else 0);
    LenIff(b, m - if m > 0 then 1 else 0);
    LenBounds(a);
    LenBounds(b);
    if m < n {
      return -1;
    } else if m == n {
      var i := m;
      while i > 0
        invariant i <= m
        invariant forall k: nat | i <= k < m :: At(a, k) == At(b, k)
      {
        i := i - 1;
        if a[i] != b[i] {
          HigherWordDecides(a, b, i, m);
          LowLen(a, m);
          LowLen(b, m);
          return if a[i] < b[i] then -1 else 1;
        }
      }
      LowCongruent(a, b, m);
      LowLen(a, m);
      LowLen(b, m);
    } else {
      return 1;
    }
    return 0;
  }

  /** The highest differing word decides the order. */
  lemma {:induction false} HigherWordDecides(a: Poly, b: Poly, i: nat, m: nat)
    requires i < m && At(a, i) != At(b, i)
    requires forall k | i < k < m :: At(a, k) == At(b, k)
    ensures At(a, i) < At(b, i) <==> Low(a, m) < Low(b, m)
    ensures Low(a, m) != Low(b, m)
  {
    if i + 1 < m {
      HigherWordDecides(a, b, i, m - 1);
    } else {
      LowTop(a, m);
      LowTop(b, m);
      DigitDecides(At(a, i), At(b, i), Weight(i), Low(a, m), Low(b, m));
    }
  }

  lemma DigitDecides(x: int, y: int, w: nat, u: int, v: int)
    requires x * w <= u < (x + 1) * w && y * w <= v < (y + 1) * w
    ensures x < y ==> u < v
    ensures y < x ==> v < u
  {
    if x < y { ScaleInequality(x + 1, y, w); }
    if y < x { ScaleInequality(y + 1, x, w); }
  }

  function Shl(a: Poly, count: nat): (r: Poly)
    ensures |r| == |a| + count && Val(r) == Val(a) * Weight(count)
  {
    var r: Poly := seq(count, _ => 0) + a;
    ShlValue(a, count, r);
    r
  }

  lemma ShlValue(a: Poly, count: nat, r: Poly)
    requires r == seq(count, _ => 0) + a
    ensures Val(r) == Val(a) * Weight(count)
  {
    LowZeros(r, 0, count);
    LowSplit(r, a, count, |a|);
    assert count + |a| == |r|;
    Commute(Weight(count), Val(a));
  }

  function Shr(a: Poly, count: nat): (r: Poly)
    ensures Val(r) == Val(a) / Weight(count)
  {
    ShrValue(a, count);
    if |a| > count then a[count..] else []
  }

  lemma ShrValue(a: Poly, count: nat)
    ensures Val(if |a| > count then a[count..] else []) == Val(a) / Weight(count)
  {
    if |a| > count {
      var b := a[count..];
      LowSplit(a, b, count, |b|);
      LowBound(a, count);
      assert count + |b| == |a|;
      Commute(Weight(count), Val(b));
      DivModUnique(Val(a), Weight(count), Val(b), Low(a, count));
    } else {
      LowBound(a, |a|);
      WeightMonotone(|a|, count);
      DivModUnique(Val(a), Weight(count), 0, Val(a));
    }
  }

  function Bit(b: bool): nat {
    if b then 1 else 0
  }

  method Add(a: Poly, b: Poly) returns (r: Poly)
    ensures |r| == Max(Len(a), Len(b)) + 1
    ensures Val(r) == Val(a) + Val(b)
  {
    var m := Length(a);
    var n := Length(b);
    var max := Max(m, n);
    var result := new Word[max + 1](_ => 0);
    var sum: Int64 := 0;
    var carry := false;
    for i := 0 to max
      invariant Low(result[..], i) + Bit(carry) * Weight(i) == Low(a, i) + Low(b, i)
      invariant result[max] == 0
    {
      ghost var before: Poly := result[..];
      sum := At(a, i) + At(b, i) + Bit(carry);
      AddDigit(before, a, b, i, Bit(carry), sum);
      result[i] := sum % BASE;
      assert result[..] == before[i := sum % BASE];
      carry := sum > BASE - 1;
    }
    LowLen(a, max);
    LowLen(b, max);
    ghost var before: Poly := result[..];
    if carry {
      result[max] := 1;
      LowCongruent(before, result[..], max);
    }
    r := result[..];
    assert Low(r, max + 1) == Low(r, max) + At(r, max) * Weight(max);
  }

  /** Storing one digit of a sum keeps the sum of the words added so far. */
  lemma AddDigit(r: Poly, a: Poly, b: Poly, i: nat, c: nat, sum: int)
    requires i < |r| && c <= 1 && sum == At(a, i) + At(b, i) + c
    requires Low(r, i) + c * Weight(i) == Low(a, i) + Low(b, i)
    ensures Low(r[i := sum % BASE], i + 1) + Bit(sum > BASE - 1) * Weight(i + 1)
            == Low(a, i + 1) + Low(b, i + 1)
  {
    LowCongruent(r, r[i := sum % BASE], i);
    var q := Bit(sum > BASE - 1);
    var w := Weight(i);
    WeighDigits(sum % BASE, q, At(a, i), At(b, i), c, w);
  }

  /** An equation between digits, weighed. */
  lemma WeighDigits(d: int, q: int, x: int, y: int, c: int, w: int)
    requires d + q * BASE == x + y + c
    ensures d * w + q * (BASE * w) == x * w + y * w + c * w
  {
    Distribute(d, q * BASE, w);
    Distribute(x + y, c, w);
    Distribute(x, y, w);
    assert (q * BASE) * w == q * (BASE * w);
  }

  /** Throws exactly when the difference would be negative. */
  method Sub(a: Poly, b: Poly) returns (r: Result<Poly>)
    ensures r.Ok? <==> Val(a) >= Val(b)
    ensures r.Ok? ==> |r.value| == Max(Len(a), Len(b)) && Val(r.value) == Val(a) - Val(b)
    ensures r.Throw? ==> r.error == SubtractionUnderflow
  {
    var m := Length(a);
    var n := Length(b);
    var max := Max(m, n);
    var result := new Word[max](_ => 0);
    var sum: Int64 := 0;
    var borrow := false;
    for i := 0 to max
      invariant Low(result[..], i) - Bit(borrow) * Weight(i) == Low(a, i) - Low(b, i)
    {
      ghost var before: Poly := result[..];
      sum := At(a, i) - At(b, i) - Bit(borrow);
      SubDigit(before, a, b, i, Bit(borrow), sum);
      result[i] := if sum < 0 then BASE + sum else sum % BASE;
      assert result[..] == before[i := sum % BASE];
      borrow := sum < 0;
    }
    LowLen(a, max);
    LowLen(b, max);
    LowBound(result[..], max);
    if borrow {
      return Throw(SubtractionUnderflow);
    }
    return Ok(result[..]);
  }

  lemma SubDigit(r: Poly, a: Poly, b: Poly, i: nat, c: nat, sum: int)
    requires i < |r| && c <= 1 && sum == At(a, i) - At(b, i) - c
    requires Low(r, i) - c * Weight(i) == Low(a, i) - Low(b, i)
    ensures Low(r[i := sum % BASE], i + 1) - Bit(sum < 0) * Weight(i + 1)
            == Low(a, i + 1) - Low(b, i + 1)
  {
    LowCongruent(r, r[i := sum % BASE], i);
    var q := Bit(sum < 0);
    var w := Weight(i);
    WeighDigits(At(a, i), q, sum % BASE, At(b, i), c, w);
  }
}
