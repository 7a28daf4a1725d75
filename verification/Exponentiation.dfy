/** Square and multiply, plain and modular. */
module Exponentiation {
  import opened Arithmetic
  import opened Outcome
  import opened Words
  import opened Polynomial
  import opened Multiplication
  import opened Division

  const WORD_BITS := 32
  const ONE: Poly := [1]
  const TWO: Poly := [2]

  lemma SmallValue(w: Word)
    ensures Val([w]) == w && Len([w]) <= 1
  {
    var a: Poly := [w];
    assert Low(a, 1) == Low(a, 0) + At(a, 0) * Weight(0);
  }

  method Power(base: Poly, exponent: Poly) returns (out: Poly)
    ensures Val(out) == Pow(Val(base), Val(exponent))
  {
    SmallValue(1);
    SmallValue(2);
    var x, n := base, exponent;
    out := ONE;
    while true
      invariant Val(out) * Pow(Val(x), Val(n)) == Pow(Val(base), Val(exponent))
      decreases Val(n)
    {
      ghost var before, e := Val(x), Val(n);
      var halves := Div(n, TWO, true);
      var t := halves.value.1;
      n := halves.value.0;
      HalfPower(before, e, e / 2, Val(out));
      DivFloor(e, 2);
      var odd := Cmp(t, ONE);
      if odd == 0 {
        out := Mul(out, x);
      }
      var zero := Cmp(n, []);
      if zero == 0 {
        break;
      }
      x := Mul(x, x);
    }
  }

  /** Halving the exponent squares the base, and an odd bit takes one factor. */
  lemma HalfPower(x: int, e: nat, half: nat, out: int)
    requires half == e / 2
    ensures e % 2 == 0 ==> Pow(x, e) == Pow(x * x, half)
    ensures e % 2 == 1 ==> out * Pow(x, e) == (out * x) * Pow(x * x, half)
  {
    PowMul(x, 2, half);
    assert Pow(x, 1) == x * Pow(x, 0) && Pow(x, 2) == x * Pow(x, 1);
    PowAdd(x, e % 2, 2 * half);
    Associate(out, x, Pow(x * x, half));
  }

  /** Bit i of the exponent, read out of its words. */
  function BitAt(e: Poly, i: nat): (b: nat)
    ensures b <= 1
  {
    PowPositive(2, i % WORD_BITS);
    At(e, i / WORD_BITS) / Pow(2, i % WORD_BITS) % 2
  }

  /** The number formed by the i lowest bits. */
  ghost function LowBits(e: Poly, i: nat): nat {
    if i == 0 then 0 else
      PowPositive(2, i - 1);
      MulNonNegative(BitAt(e, i - 1), Pow(2, i - 1));
      LowBits(e, i - 1) + BitAt(e, i - 1) * Pow(2, i - 1)
  }

  /** The bits of the words are the bits of the value. */
  lemma {:induction false} BitsOfWords(e: Poly, k: nat, j: nat)
    requires j <= WORD_BITS
    ensures LowBits(e, WORD_BITS * k + j) == Low(e, k) + At(e, k) % Pow2(j) * Weight(k)
    decreases k, j
  {
    if j > 0 {
      BitsOfWords(e, k, j - 1);
      NextBit(At(e, k), j - 1);
      var i := WORD_BITS * k + (j - 1);
      DivModUnique(i, WORD_BITS, k, j - 1);
      assert BitAt(e, i) == At(e, k) / Pow2(j - 1) % 2;
      BitWeight(k, j - 1);
      WeighBit(At(e, k) % Pow2(j - 1), BitAt(e, i), Pow2(j - 1), Weight(k));
    } else if k > 0 {
      BitsOfWords(e, k - 1, WORD_BITS);
      WordFits(At(e, k - 1));
      assert WORD_BITS * (k - 1) + WORD_BITS == WORD_BITS * k;
    }
  }

  lemma WordFits(w: Word)
    ensures w % Pow2(WORD_BITS) == w
  {
    BitWeight(1, 0);
    assert Weight(1) == BASE * Weight(0);
    DivModUnique(w, Pow2(WORD_BITS), 0, w);
  }

  lemma NextBit(w: nat, j: nat)
    ensures w % Pow2(j + 1) == w % Pow2(j) + w / Pow2(j) % 2 * Pow2(j)
  {
    var p := Pow2(j);
    var q, r := w / p, w % p;
    DivFloor(w, p);
    DivFloor(q, 2);
    assert Pow2(j + 1) == 2 * p;
    Distribute(q / 2 * 2, q % 2, p);
    Associate(q / 2, 2, p);
    ScaleInequality(q % 2, 1, p);
    MulNonNegative(q % 2, p);
    DivModUnique(w, 2 * p, q / 2, r + q % 2 * p);
  }

  lemma {:induction false} BitWeight(k: nat, j: nat)
    ensures Pow(2, WORD_BITS * k + j) == Weight(k) * Pow(2, j)
  {
    WeightIsPow(k);
    PowMul(2, WORD_BITS, k);
    PowAdd(2, WORD_BITS * k, j);
    TwoTo32();
  }

  lemma TwoTo32()
    ensures Pow(2, WORD_BITS) == BASE
  {
    PowAdd(2, 16, 16);
    PowAdd(2, 8, 8);
    PowAdd(2, 4, 4);
    assert Pow(2, 4) == 16;
  }

  lemma WeighBit(low: int, bit: int, p: int, w: int)
    ensures (low + bit * p) * w == low * w + bit * (w * p)
  {
    Distribute(low, bit * p, w);
    Associate(bit, p, w);
    Commute(p, w);
  }

  /** Bits above the value's own words are zero. */
  lemma {:induction false} NoBitsAbove(e: Poly, i: nat, j: nat)
    requires i <= j && forall k: nat | i <= k < j :: BitAt(e, k) == 0
    ensures LowBits(e, i) == LowBits(e, j)
  {
    if i < j {
      NoBitsAbove(e, i, j - 1);
      assert BitAt(e, j - 1) == 0;
    }
  }

  /** The words up to the highest one that is not zero. */
  method SignificantWords(e: Poly) returns (words: nat)
    ensures words == Len(e)
  {
    words := |e|;
    assert e[..words] == e;
    while words > 0 && e[words - 1] == 0
      invariant words <= |e|
      invariant Len(e) == Len(e[..words])
    {
      assert e[..words][..words - 1] == e[..words - 1];
      words := words - 1;
    }
  }

  /** The number of bits up to the highest set one, at least one. */
  method BitLength(e: Poly) returns (bits: nat)
    requires Val(e) > 0
    ensures bits > 0 && BitAt(e, bits - 1) == 1 && LowBits(e, bits) == Val(e)
  {
    hide Low, LowBits, BitAt, Len, Val;
    var words := SignificantWords(e);
    WholeWords(e, words);
    bits := words * WORD_BITS;
    while bits > 1 && BitAt(e, bits - 1) == 0
      invariant 0 < bits <= words * WORD_BITS
      invariant LowBits(e, bits) == Val(e)
    {
      NoBitsAbove(e, bits - 1, bits);
      bits := bits - 1;
    }
    OnlyBit(e);
  }

  lemma WholeWords(e: Poly, words: nat)
    requires Val(e) > 0 && words == Len(e)
    ensures words > 0 && LowBits(e, WORD_BITS * words) == Val(e)
  {
    LenBounds(e);
    BitsOfWords(e, words, 0);
    LowLen(e, words);
  }

  lemma OnlyBit(e: Poly)
    ensures LowBits(e, 1) == BitAt(e, 0)
  {
    assert LowBits(e, 0) == 0 && Pow(2, 0) == 1;
  }

  /** What the bit loop keeps after i bits, for a base b and a modulus d. */
  ghost predicate Powering(b: nat, d: nat, e: Poly, i: nat, bits: nat, result: nat, factor: nat) {
    && (d == 0 ==> b == 0 && factor == 0)
    && (d > 0 ==> Congruent(result, Pow(b, LowBits(e, i)), d))
    && (d > 0 && i < bits ==> Congruent(factor, Pow(b, Pow2(i)), d))
    && (i > 0 && BitAt(e, i - 1) == 1 ==> if d > 0 then result < d else result == 0)
  }

  /** One turn of the loop: the top bit needs no square. */
  method PowerTurn(result: Poly, factor: Poly, divisor: Poly, exponent: Poly, i: nat, bits: nat, ghost b: nat)
    returns (result': Poly, factor': Poly)
    requires i < bits && Len(divisor) < RECURSIVE_THRESHOLD
    requires Powering(b, Val(divisor), exponent, i, bits, Val(result), Val(factor))
    ensures Powering(b, Val(divisor), exponent, i + 1, bits, Val(result'), Val(factor'))
  {
    hide LowBits, BitAt, Pow, Pow2, Val;
    result', factor' := result, factor;
    if Val(divisor) > 0 { TakeBit(b, Val(divisor), exponent, i, Val(result), Val(factor)); }
    if BitAt(exponent, i) == 1 {
      result' := ProductModulo(result, factor, divisor);
    }
    if i + 1 < bits {
      factor' := ProductModulo(factor, factor, divisor);
    }
  }

  method ProductModulo(x: Poly, y: Poly, divisor: Poly) returns (r: Poly)
    requires Len(divisor) < RECURSIVE_THRESHOLD && (Val(divisor) == 0 ==> Val(y) == 0)
    ensures Val(divisor) > 0 ==> Val(r) == Val(x) * Val(y) % Val(divisor) < Val(divisor)
    ensures Val(divisor) == 0 ==> Val(r) == 0
  {
    var product := Mul(x, y);
    var remainder := Div(product, divisor, true);
    r := remainder.value.1;
  }

  /** base^exponent modulo a positive divisor, exactly unless the exponent is zero and
      the divisor one: with no exponent bits the answer is 1 whatever the divisor. A
      zero divisor throws unless the base is zero too. */
  method ModPow(base: Poly, exponent: Poly, divisor: Poly) returns (r: Result<Poly>)
    requires Len(divisor) < RECURSIVE_THRESHOLD
    ensures r.Throw? <==> Val(divisor) == 0 && Val(exponent) > 0 && Val(base) > 0
    ensures r.Throw? ==> r.error == DivideByZero
    ensures Val(exponent) == 0 ==> Val(r.value) == 1
    ensures Val(exponent) > 0 && Val(divisor) > 0
            ==> Val(r.value) == Pow(Val(base), Val(exponent)) % Val(divisor)
    ensures Val(divisor) > 0
            ==> (Val(r.value) == Pow(Val(base), Val(exponent)) % Val(divisor) <==> Val(exponent) > 0 || Val(divisor) > 1)
    ensures Val(exponent) > 0 && Val(divisor) == Val(base) == 0 ==> Val(r.value) == 0
  {
    hide LowBits, BitAt, Low, Len, Pow2;
    SmallValue(1);
    var words := Length(exponent);
    LenBounds(exponent);
    if words == 0 {
      NoExponent(Val(base), Val(divisor));
      return Ok(ONE);
    }
    var bits := BitLength(exponent);
    var result := ONE;
    var reduced := Div(base, divisor, true);
    if reduced.Throw? {
      return Throw(reduced.error);
    }
    var factor := reduced.value.1;
    ghost var b, d := Val(base), Val(divisor);
    StartPowers(b, d, exponent, bits);
    for i := 0 to bits
      invariant Powering(b, d, exponent, i, bits, Val(result), Val(factor))
    {
      result, factor := PowerTurn(result, factor, divisor, exponent, i, bits, b);
    }
    if d > 0 {
      DivModUnique(Val(result), d, 0, Val(result));
    }
    return Ok(result);
  }

  lemma NoExponent(b: nat, d: nat)
    ensures d > 0 ==> (1 == Pow(b, 0) % d <==> d > 1)
  {
    if d > 1 { DivModUnique(1, d, 0, 1); }
  }

  lemma StartPowers(b: nat, d: nat, e: Poly, bits: nat)
    requires d == 0 ==> b == 0
    ensures Powering(b, d, e, 0, bits, 1, if d == 0 then 0 else b % d)
  {
    if d > 0 {
      ModIdempotent(b, d);
      assert Pow2(0) == 1 && Pow(b, 1) == b * Pow(b, 0) && LowBits(e, 0) == 0;
    }
  }

  /** One turn of the bit loop keeps both congruences. */
  lemma TakeBit(b: nat, d: nat, e: Poly, i: nat, result: nat, factor: nat)
    requires d > 0 && Congruent(result, Pow(b, LowBits(e, i)), d)
    requires Congruent(factor, Pow(b, Pow2(i)), d)
    ensures BitAt(e, i) == 0 ==> Congruent(result, Pow(b, LowBits(e, i + 1)), d)
    ensures BitAt(e, i) == 1 ==> Congruent(result * factor % d, Pow(b, LowBits(e, i + 1)), d)
    ensures Congruent(factor * factor % d, Pow(b, Pow2(i + 1)), d)
  {
    CongruentMul(result, Pow(b, LowBits(e, i)), factor, Pow(b, Pow2(i)), d);
    PowAdd(b, LowBits(e, i), Pow2(i));
    ModIdempotent(result * factor, d);
    CongruentMul(factor, Pow(b, Pow2(i)), factor, Pow(b, Pow2(i)), d);
    PowAdd(b, Pow2(i), Pow2(i));
    ModIdempotent(factor * factor, d);
    assert Pow2(i + 1) == Pow2(i) + Pow2(i);
  }
}
