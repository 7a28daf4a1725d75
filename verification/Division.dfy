/** Long division of word sequences. */
module Division {
  import opened Arithmetic
  import opened Outcome
  import opened Words
  import opened Polynomial
  import opened Multiplication

  const RECURSIVE_THRESHOLD := 256

  /** A divisor whose top word has its high bit set. */
  ghost predicate Normalised(rhs: Poly) {
    Len(rhs) > 0 && At(rhs, Len(rhs) - 1) >= BASE / 2
  }

  /** The two highest words of `a`, as the digit estimate reads them. */
  function TopTwo(a: Poly, l: nat): (u: UInt64)
    requires 0 < l <= |a|
  {
    if l == 1 then a[0] else a[l - 1] * BASE + a[l - 2]
  }

  function Estimate(u: UInt64, top: Word): (q: UInt64)
    requires top > 0
  {
    DivFloor(u, top);
    u / top
  }

  /** The estimate never falls below the true digit, and it is at most two above
      it when the remainder reaches one word past the shifted divisor. */
  lemma EstimateBounds(lhs: Poly, rhs: Poly, n: nat, j: nat, l: nat, D: nat, q: nat)
    requires Normalised(rhs) && n == Len(rhs) && l == Len(lhs)
    requires n + j <= l <= n + j + 1
    requires D < BASE && D * (Val(rhs) * Weight(j)) <= Val(lhs) < (D + 1) * (Val(rhs) * Weight(j))
    requires At(rhs, n - 1) > 0 && q == Estimate(TopTwo(lhs, l), At(rhs, n - 1))
    ensures D <= q
    ensures l == n + j + 1 && q >= BASE ==> BASE - 1 <= D + 2
    ensures l == n + j + 1 && q < BASE ==> q <= D + 2
  {
    hide Low, Weight, Len, Estimate, TopTwo;
    DivisorBounds(rhs, n, j);
    if l == n + j {
      ShortEstimate(lhs, rhs, n, j, l, D);
    } else {
      LongEstimate(lhs, rhs, n, j, l, D);
    }
    EstimateIs(TopTwo(lhs, l), At(rhs, n - 1));
  }

  lemma EstimateIs(u: UInt64, top: Word)
    requires top > 0
    ensures Estimate(u, top) == u / top
  {}

  /** The shifted divisor between two multiples of a power of the base. */
  lemma DivisorBounds(rhs: Poly, n: nat, j: nat)
    requires n == Len(rhs) > 0
    ensures At(rhs, n - 1) * Weight(n + j - 1) <= Val(rhs) * Weight(j) < (At(rhs, n - 1) + 1) * Weight(n + j - 1)
  {
    hide Low, Len;
    WeightAdd(n - 1, j);
    LowTop(rhs, n);
    LowLen(rhs, n);
    ScaleBounds(At(rhs, n - 1), Weight(n - 1), Val(rhs), Weight(j));
  }

  /** One word short: the estimate has a whole word too many. */
  lemma ShortEstimate(lhs: Poly, rhs: Poly, n: nat, j: nat, l: nat, D: nat)
    requires n > 0 && l == Len(lhs) == n + j && At(rhs, n - 1) > 0
    requires At(rhs, n - 1) * Weight(n + j - 1) <= Val(rhs) * Weight(j)
    requires D * (Val(rhs) * Weight(j)) <= Val(lhs)
    ensures D <= TopTwo(lhs, l) / At(rhs, n - 1)
  {
    hide Low, Weight, Len;
    var V, U, W, R := At(rhs, n - 1), TopTwo(lhs, l), Weight(n + j - 1), Val(rhs) * Weight(j);
    LowLen(lhs, l);
    LowTop(lhs, l);
    EstimateAbove(D, V, W, R, At(lhs, l - 1), Val(lhs));
    DivisionMonotone(At(lhs, l - 1), U, V);
  }

  /** The dividend between two multiples of a power of the base. */
  lemma DividendBounds(lhs: Poly, l: nat)
    requires 1 < l == Len(lhs)
    ensures TopTwo(lhs, l) * Weight(l - 2) <= Val(lhs) < (TopTwo(lhs, l) + 1) * Weight(l - 2)
  {
    hide Low, Len;
    var hi, lo, U, W := At(lhs, l - 1), At(lhs, l - 2), TopTwo(lhs, l), Weight(l - 2);
    LowLen(lhs, l);
    LowTop(lhs, l - 1);
    assert Weight(l - 1) == BASE * W && Low(lhs, l) == Low(lhs, l - 1) + hi * Weight(l - 1) by { LowUnfold(lhs, l); }
    WeighDigits(lo, hi, U, 0, 0, W);
    Distribute(U, 1, W);
    Distribute(lo, 1, W);
  }

  lemma LowUnfold(a: Poly, i: nat)
    requires i > 0
    ensures Low(a, i) == Low(a, i - 1) + At(a, i - 1) * Weight(i - 1)
  {}

  lemma LongEstimate(lhs: Poly, rhs: Poly, n: nat, j: nat, l: nat, D: nat)
    requires n > 0 && l == Len(lhs) == n + j + 1 && At(rhs, n - 1) >= BASE / 2 && D < BASE
    requires At(rhs, n - 1) * Weight(n + j - 1) <= Val(rhs) * Weight(j) < (At(rhs, n - 1) + 1) * Weight(n + j - 1)
    requires D * (Val(rhs) * Weight(j)) <= Val(lhs) < (D + 1) * (Val(rhs) * Weight(j))
    ensures var q := TopTwo(lhs, l) / At(rhs, n - 1);
            D <= q && (if q < BASE then q else BASE - 1) <= D + 2
  {
    hide Low, Weight, Len;
    var V, U, W, R := At(rhs, n - 1), TopTwo(lhs, l), Weight(n + j - 1), Val(rhs) * Weight(j);
    DividendBounds(lhs, l);
    EstimateAbove(D, V, W, R, U, Val(lhs));
    EstimateClose(D, V, W, R, U, Val(lhs), if U / V < BASE then U / V else BASE - 1);
  }

  lemma ScaleBounds(V: nat, w: nat, r: nat, v: nat)
    requires V * w <= r < (V + 1) * w && v > 0
    ensures V * (w * v) <= r * v < (V + 1) * (w * v)
  {
    MulMonotone(v, V * w, r);
    MulMonotone(v, r + 1, (V + 1) * w);
    assert (V * w) * v == V * (w * v) && ((V + 1) * w) * v == (V + 1) * (w * v);
  }

  lemma DivisionMonotone(x: nat, y: nat, d: nat)
    requires x <= y && d > 0
    ensures x / d <= y / d
  {
    if y / d < x / d {
      MulMonotone(d, y / d + 1, x / d);
    }
  }

  /** U bounds the dividend and V the divisor from their top words alone. */
  lemma EstimateAbove(D: nat, V: nat, W: nat, R: nat, U: nat, L: nat)
    requires V > 0 && W > 0 && V * W <= R
    requires D * R <= L < (U + 1) * W
    ensures D <= U / V
  {
    MulMonotone(D, V * W, R);
    assert D * (V * W) == (D * V) * W;
    if D * V >= U + 1 {
      MulMonotone(W, U + 1, D * V);
      assert false;
    }
    if U / V < D {
      MulMonotone(V, U / V + 1, D);
    }
  }

  lemma EstimateClose(D: nat, V: nat, W: nat, R: nat, U: nat, L: nat, q: nat)
    requires V >= BASE / 2 && W > 0 && V * W <= R < (V + 1) * W
    requires U * W <= L < (D + 1) * R
    requires q < BASE && q <= U / V
    ensures q <= D + 2
  {
    if q >= D + 3 {
      DivFloor(U, V);
      ScaleInequality(q, U / V, V);
      EstimateExcess(V, W, R, U, L, q);
      ScaleInequality(D + 3, q, R);
      Distribute(D + 1, 2, R);
      TopBitTooLarge(q, V, W, R);
    }
  }

  /** How far a multiple of the divisor by the estimate can lie above the dividend. */
  lemma EstimateExcess(V: nat, W: nat, R: nat, U: nat, L: nat, q: nat)
    requires q * V <= U && U * W <= L && R < (V + 1) * W
    ensures q * R <= L + q * W
  {
    ScaleInequality(q * V, U, W);
    Associate(q, V, W);
    Distribute(V, 1, W);
    ScaleInequality(R, V * W + W, q);
    Commute(R, q);
    Distribute(V * W, W, q);
    Commute(V * W, q);
    Commute(W, q);
  }

  lemma TopBitTooLarge(q: nat, V: nat, W: nat, R: nat)
    requires V >= BASE / 2 && q < BASE && W > 0 && V * W <= R
    ensures q * W < 2 * R
  {
    MulMonotone(W, q, BASE - 1);
    MulMonotone(W, BASE / 2, V);
  }

  /** One turn of the digit loop. `corrections` counts the turns of the inner
      correction loop. */
  method QuotientDigit(lhsn: Poly, rhs: Poly, n: nat, j: nat)
    returns (digit: Word, rest: Poly, ghost corrections: nat)
    requires Normalised(rhs) && n == Len(rhs)
    requires Val(lhsn) < Val(rhs) * Weight(j + 1)
    ensures Val(lhsn) == digit * (Val(rhs) * Weight(j)) + Val(rest)
    ensures Val(rest) < Val(rhs) * Weight(j)
    ensures Len(lhsn) == n + j + 1 ==> corrections <= 2
  {
    var l := Length(lhsn);
    ghost var R, L := Val(rhs) * Weight(j), Val(lhsn);
    ghost var D := DigitRange(lhsn, rhs, j);
    if l < n + j {
      return 0, lhsn, 0;
    }
    var qj := Estimate(TopTwo(lhsn, l), rhs[n - 1]);
    EstimateBounds(lhsn, rhs, n, j, l, D, qj);
    digit := if qj < BASE - 1 then qj else BASE - 1;
    corrections := 0;
    var rhsn := Shl(rhs, j);
    var tmp := Mul(rhsn, FromUInt64(digit));
    Commute(R, digit);
    var order := Cmp(lhsn, tmp);
    ghost var first: int := digit;
    while order == -1
      invariant D <= digit && corrections == first - digit
      invariant Val(tmp) == digit * R
      invariant order == if L < Val(tmp) then -1 else if L == Val(tmp) then 0 else 1
      decreases digit
    {
      assert D * R <= L < digit * R;
      DigitAbove(D, digit, R);
      Distribute(digit, -1, R);
      digit := digit - 1;
      corrections := corrections + 1;
      var less := Sub(tmp, rhsn);
      tmp := less.value;
      order := Cmp(lhsn, tmp);
    }
    Between(D, digit, R, L);
    var less := Sub(lhsn, tmp);
    rest := less.value;
  }

  lemma DigitAbove(D: nat, d: nat, R: nat)
    requires D * R < d * R
    ensures D < d && d * R >= R
  {
    if d <= D { MulMonotone(R, d, D); }
    MulMonotone(R, 1, d);
  }

  lemma Between(D: nat, d: nat, R: nat, L: nat)
    requires D * R <= L < (D + 1) * R && D <= d && d * R <= L
    ensures d == D && L - d * R < R
  {
    if D + 1 <= d { MulMonotone(R, D + 1, d); }
    Distribute(D, 1, R);
  }

  /** The true digit of the step, and the range of lengths the remainder has. */
  lemma DigitRange(lhsn: Poly, rhs: Poly, j: nat) returns (D: nat)
    requires Len(rhs) > 0 && Val(lhsn) < Val(rhs) * Weight(j + 1)
    ensures D < BASE
    ensures D * (Val(rhs) * Weight(j)) <= Val(lhsn) < (D + 1) * (Val(rhs) * Weight(j))
    ensures Len(lhsn) <= Len(rhs) + j + 1
    ensures Len(lhsn) < Len(rhs) + j ==> D == 0
  {
    LenBounds(rhs);
    var n, L, R := Len(rhs), Val(lhsn), Val(rhs) * Weight(j);
    MulMonotone(Weight(j), 1, Val(rhs));
    DivFloor(L, R);
    D := L / R;
    NextWeight(Val(rhs), j);
    assert D < BASE by {
      if D >= BASE { ScaleInequality(BASE, D, R); }
    }
    RemainderLength(lhsn, rhs, j);
    if Len(lhsn) < n + j && D >= 1 {
      ScaleInequality(1, D, R);
    }
  }

  lemma NextWeight(x: int, j: nat)
    ensures x * Weight(j + 1) == BASE * (x * Weight(j))
  {
    Associate(x, BASE, Weight(j));
    Associate(BASE, x, Weight(j));
  }

  /** A shifted divisor lies between two weights. */
  lemma ShiftedBounds(rhs: Poly, n: nat, j: nat)
    requires n == Len(rhs) > 0
    ensures Weight(n - 1 + j) <= Val(rhs) * Weight(j) < Weight(n + j)
  {
    LenBounds(rhs);
    WeightAdd(n - 1, j);
    WeightAdd(n, j);
    ScaleInequality(Weight(n - 1), Val(rhs), Weight(j));
    ScaleInequality(Val(rhs) + 1, Weight(n), Weight(j));
    Distribute(Val(rhs), 1, Weight(j));
  }

  lemma RemainderLength(lhsn: Poly, rhs: Poly, j: nat)
    requires Len(rhs) > 0 && Val(lhsn) < Val(rhs) * Weight(j + 1)
    ensures Len(lhsn) <= Len(rhs) + j + 1
    ensures Len(lhsn) < Len(rhs) + j ==> Val(lhsn) < Val(rhs) * Weight(j)
  {
    var n := Len(rhs);
    ShiftedBounds(rhs, n, j + 1);
    ShiftedBounds(rhs, n, j);
    LenIff(lhsn, n + j + 1);
    if Len(lhsn) < n + j {
      LenIff(lhsn, n - 1 + j);
    }
  }

  /** Storing a digit over a zero word adds its weight. */
  lemma {:induction false} SetDigit(a: Poly, j: nat, d: Word, m: nat)
    requires j < m <= |a| && a[j] == 0
    ensures Low(a[j := d], m) == Low(a, m) + d * Weight(j)
  {
    if j + 1 < m {
      SetDigit(a, j, d, m - 1);
    } else {
      LowCongruent(a, a[j := d], j);
    }
  }

  lemma NextQuotient(q: int, digit: int, w: int, r: int, before: int, after: int)
    requires before == digit * (r * w) + after
    ensures q * r + before == (q + digit * w) * r + after
  {
    Distribute(q, digit * w, r);
    Associate(digit, w, r);
    Commute(w, r);
  }

  /** Sets a digit that is still zero. */
  method PutDigit(digits: array<Word>, j: nat, digit: Word)
    requires j < digits.Length && digits[j] == 0
    modifies digits
    ensures Val(digits[..]) == old(Val(digits[..])) + digit * Weight(j)
    ensures forall k | 0 <= k < digits.Length && k != j :: digits[k] == old(digits[k])
  {
    ghost var before: Poly := digits[..];
    SetDigit(before, j, digit, digits.Length);
    digits[j] := digit;
    assert digits[..] == before[j := digit];
  }

  /** Schoolbook long division by a normalised divisor. */
  method NaiveDiv(lhs: Poly, rhs: Poly, m: nat, n: nat) returns (quot: Poly, rem: Poly)
    requires Normalised(rhs) && n == Len(rhs) && Len(lhs) <= m + n
    ensures |quot| == m + 1
    ensures Val(lhs) == Val(quot) * Val(rhs) + Val(rem) && Val(rem) < Val(rhs)
  {
    var digits := new Word[m + 1](_ => 0);
    LowZeros(digits[..], 0, m + 1);
    assert Val(digits[..]) == 0;
    var lhsn := lhs;
    var rhsn := Shl(rhs, m);
    FirstDigit(lhs, rhs, m);
    var order := Cmp(lhsn, rhsn);
    if order != -1 {
      PutDigit(digits, m, 1);
      var less := Sub(lhsn, rhsn);
      lhsn := less.value;
      Commute(Weight(m), Val(rhs));
    }
    for j := m downto 0
      invariant Val(lhs) == Val(digits[..]) * Val(rhs) + Val(lhsn)
      invariant Val(lhsn) < Val(rhs) * Weight(j)
      invariant forall k | 0 <= k < j :: digits[k] == 0
    {
      var digit, rest, corrections := QuotientDigit(lhsn, rhs, n, j);
      ghost var before := Val(digits[..]);
      PutDigit(digits, j, digit);
      NextQuotient(before, digit, Weight(j), Val(rhs), Val(lhsn), Val(rest));
      lhsn := rest;
    }
    quot := digits[..];
    rem := lhsn;
  }

  /** The quotient's top digit is 0 or 1. */
  lemma FirstDigit(lhs: Poly, rhs: Poly, m: nat)
    requires Normalised(rhs) && Len(lhs) <= m + Len(rhs)
    ensures Val(lhs) < 2 * (Val(rhs) * Weight(m))
  {
    var n := Len(rhs);
    LenIff(lhs, m + n);
    TopBit(rhs, n);
    WeightAdd(n, m);
    ScaleInequality(Weight(n), 2 * Val(rhs), Weight(m));
    Associate(2, Val(rhs), Weight(m));
  }

  lemma TopBit(rhs: Poly, n: nat)
    requires Normalised(rhs) && n == Len(rhs)
    ensures Weight(n) <= 2 * Val(rhs)
  {
    LowTop(rhs, n);
    LowLen(rhs, n);
    ScaleInequality(BASE / 2, At(rhs, n - 1), Weight(n - 1));
    Associate(2, BASE / 2, Weight(n - 1));
  }

  /** Where the division code stays within the cases modelled here: every
      divisor of fewer than 256 words, and longer ones whose quotient is short. */
  ghost predicate Divisible(lhs: Poly, rhs: Poly) {
    || Len(rhs) < RECURSIVE_THRESHOLD
    || Len(lhs) + 1 < Len(rhs) + RECURSIVE_THRESHOLD
    || (Normalised(rhs) && Len(lhs) < Len(rhs) + RECURSIVE_THRESHOLD)
  }

  /** The quotient and, when asked for, the remainder. Throws exactly when a
      non-zero number is divided by zero; zero divided by zero is zero. */
  method Div(lhs: Poly, rhs: Poly, wantRem: bool) returns (r: Result<(Poly, Poly)>)
    requires Divisible(lhs, rhs)
    ensures r.Throw? <==> Val(rhs) == 0 && Val(lhs) > 0
    ensures r.Throw? ==> r.error == DivideByZero
    ensures Val(rhs) > 0 ==> Val(r.value.0) == Val(lhs) / Val(rhs)
    ensures Val(rhs) > 0 && wantRem ==> Val(r.value.1) == Val(lhs) % Val(rhs)
    ensures Val(lhs) == 0 ==> Val(r.value.0) == Val(r.value.1) == 0
    decreases wantRem, if Normalised(rhs) then 0 else 1, Len(lhs)
  {
    var m := Length(lhs);
    var n := Length(rhs);
    var l: int := m - n;
    LenBounds(lhs);
    LenBounds(rhs);
    if m == 0 {
      if n > 0 { DivModUnique(0, Val(rhs), 0, 0); }
      return Ok(([], []));
    } else if n == 0 {
      return Throw(DivideByZero);
    }
    LenTop(rhs);
    var order := Cmp(lhs, rhs);
    if order == -1 {
      DivModUnique(Val(lhs), Val(rhs), 0, Val(lhs));
      return Ok(([], lhs));
    }
    LengthOrder(lhs, rhs);
    if rhs[n - 1] < BASE / 2 {
      var factor := Coefficient(rhs[n - 1]);
      var coef := FromUInt64(factor);
      var scaledLhs := Mul(lhs, coef);
      var scaledRhs := Mul(rhs, coef);
      Normalising(rhs, n, scaledRhs, factor);
      ScaledLength(lhs, m, scaledLhs, factor);
      r := Div(scaledLhs, scaledRhs, wantRem);
      ScaledDivision(Val(lhs), Val(rhs), factor);
      if wantRem {
        LenIff(coef, 1);
        assert Weight(1) == BASE * Weight(0);
        LenBounds(coef);
        var unscaled := Div(r.value.1, coef, false);
        r := Ok((r.value.0, unscaled.value.0));
      }
    } else if l < RECURSIVE_THRESHOLD {
      var quot, rem := NaiveDiv(lhs, rhs, l, n);
      DivModUnique(Val(lhs), Val(rhs), Val(quot), Val(rem));
      r := Ok((quot, rem));
    } else {
      var block := Shl(rhs, l - n);
      ShiftedLength(rhs, n, l - n);
      var high, rest := NaiveDiv(lhs, block, m - l, l);
      var quot := Shl(high, l - n);
      BlockQuotient(Val(high), Weight(l - n), Val(rhs));
      var restOrder := Cmp(rest, rhs);
      if restOrder == -1 {
        DivModUnique(Val(lhs), Val(rhs), Val(quot), Val(rest));
        r := Ok((quot, rest));
      } else {
        LenIff(rest, l);
        LenIff(block, l);
        var low := Div(rest, rhs, wantRem);
        var sum := Add(quot, low.value.0);
        BlockDivision(Val(lhs), Val(rhs), Val(quot), Val(rest));
        r := Ok((sum, low.value.1));
      }
    }
  }

  lemma LengthOrder(lhs: Poly, rhs: Poly)
    requires Val(lhs) >= Val(rhs)
    ensures Len(lhs) >= Len(rhs)
  {
    LenIff(rhs, Len(lhs));
    LenIff(lhs, Len(lhs));
  }

  /** ceil(2^31 / top), the factor that raises the top word's high bit. */
  function Coefficient(top: Word): (c: Word)
    requires 0 < top < BASE / 2
    ensures BASE / 2 <= top * c && (top + 1) * c <= BASE && c >= 2
  {
    CoefficientBounds(top, (BASE / 2 + top - 1) / top);
    (BASE / 2 + top - 1) / top
  }

  lemma CoefficientBounds(top: nat, c: int)
    requires 0 < top < BASE / 2 && c == (BASE / 2 + top - 1) / top
    ensures BASE / 2 <= top * c && (top + 1) * c <= BASE && 2 <= c < BASE
  {
    DivFloor(BASE / 2 + top - 1, top);
    Distribute(c, 1, top);
    Commute(top, c);
    assert BASE / 2 <= c * top <= BASE / 2 + top - 1;
    if c <= 1 { ScaleInequality(c, 1, top); }
    Expand(top - 1, c - 2, top, c);
    MulNonNegative(top - 1, c - 2);
  }

  lemma Expand(x: int, y: int, u: int, v: int)
    requires u == x + 1 && v == y + 2
    ensures x * y == u * v - 2 * u - v + 2 && (u + 1) * v == u * v + v
  {
    assert x * y == (u - 1) * (v - 2);
    Distribute(u, -1, v - 2);
    Distribute(v, -2, u);
  }

  /** The scaled divisor keeps its length and has its high bit set. */
  lemma Normalising(rhs: Poly, n: nat, scaled: Poly, c: nat)
    requires n == Len(rhs) > 0 && 0 < At(rhs, n - 1) < BASE / 2 && c == Coefficient(At(rhs, n - 1))
    requires Val(scaled) == Val(rhs) * c
    ensures Len(scaled) == n && Normalised(scaled) && Val(scaled) > 0
  {
    var top, W, v := At(rhs, n - 1), Weight(n - 1), Val(rhs);
    LowTop(rhs, n);
    LowLen(rhs, n);
    ScaledTop(top, c, W, v);
    ScaleInequality(1, BASE / 2, W);
    assert Weight(n) == BASE * W;
    LenIff(scaled, n);
    LenIff(scaled, n - 1);
    TopFromValue(scaled, n);
  }

  lemma TopFromValue(a: Poly, n: nat)
    requires n == Len(a) > 0 && BASE / 2 * Weight(n - 1) <= Val(a)
    ensures At(a, n - 1) >= BASE / 2
  {
    LowTop(a, n);
    LowLen(a, n);
    if At(a, n - 1) + 1 <= BASE / 2 {
      ScaleInequality(At(a, n - 1) + 1, BASE / 2, Weight(n - 1));
    }
  }

  lemma ScaledTop(top: nat, c: nat, W: nat, v: nat)
    requires BASE / 2 <= top * c && (top + 1) * c <= BASE && c > 0
    requires top * W <= v < (top + 1) * W
    ensures BASE / 2 * W <= v * c < BASE * W
  {
    ScaleInequality(top * W, v, c);
    ScaleInequality(v + 1, (top + 1) * W, c);
    Distribute(v, 1, c);
    Associate(top, W, c);
    Associate(top, c, W);
    Commute(W, c);
    Associate(top + 1, W, c);
    Associate(top + 1, c, W);
    ScaleInequality(BASE / 2, top * c, W);
    ScaleInequality((top + 1) * c, BASE, W);
  }

  lemma ScaledLength(lhs: Poly, m: nat, scaled: Poly, c: nat)
    requires m == Len(lhs) && 0 < c < BASE && Val(scaled) == Val(lhs) * c
    ensures Len(scaled) <= m + 1
  {
    LenIff(lhs, m);
    ScaledBelow(Val(lhs), Weight(m), c);
    LenIff(scaled, m + 1);
  }

  lemma ScaledBelow(v: nat, W: nat, c: nat)
    requires v < W && 0 < c < BASE
    ensures v * c < BASE * W
  {
    ScaleInequality(v + 1, W, c);
    Distribute(v, 1, c);
    ScaleInequality(c, BASE, W);
  }

  /** Scaling both operands keeps the quotient and scales the remainder. */
  lemma ScaledDivision(x: nat, y: nat, c: nat)
    requires y > 0 && c > 0
    ensures y * c > 0 && (x * c) / (y * c) == x / y
    ensures (x * c) % (y * c) == x % y * c && (x % y * c) / c == x % y
  {
    DivFloor(x, y);
    var q, r := x / y, x % y;
    Distribute(q * y, r, c);
    Associate(q, y, c);
    ScaleInequality(1, y, c);
    ScaleInequality(r + 1, y, c);
    Distribute(r, 1, c);
    MulNonNegative(r, c);
    DivModUnique(x * c, y * c, q, r * c);
    DivModUnique(r * c, c, r, 0);
  }

  lemma ShiftedLength(rhs: Poly, n: nat, s: nat)
    requires n == Len(rhs) > 0
    ensures Len(Shl(rhs, s)) == n + s
    ensures At(Shl(rhs, s), n + s - 1) == At(rhs, n - 1)
  {
    ShiftedBounds(rhs, n, s);
    LenIff(Shl(rhs, s), n + s);
    LenIff(Shl(rhs, s), n - 1 + s);
  }

  lemma BlockQuotient(high: int, w: int, rhs: int)
    ensures high * (rhs * w) == (high * w) * rhs
  {
    Commute(rhs, w);
    Associate(high, w, rhs);
  }

  lemma BlockDivision(x: nat, y: nat, q: nat, rest: nat)
    requires y > 0 && x == q * y + rest
    ensures x / y == q + rest / y && x % y == rest % y
  {
    DivFloor(rest, y);
    Distribute(q, rest / y, y);
    DivModUnique(x, y, q + rest / y, rest % y);
  }
}
