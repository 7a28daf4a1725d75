/** Signed integers over word sequences: the operators, the three gcd
    algorithms, the least common multiple and the modular inverse. */
module BigIntegers {
  import opened Arithmetic
  import opened Outcome
  import opened Words
  import Polynomial
  import opened NumberTheory
  import Division
  import Multiplication

  const LIMIT := Division.RECURSIVE_THRESHOLD

  /** A magnitude and a sign flag, which a zero magnitude overrules. */
  datatype BigInt = BigInt(a: Poly, negative: bool) {
    predicate Sign() {
      Len(a) > 0 && negative
    }

    predicate IsZero() {
      Len(a) == 0
    }

    /** Reads the lowest bit, of a word that may be a leading zero. */
    predicate IsOdd() {
      Len(a) > 0 && a[0] % 2 == 1
    }

    ghost function Int(): int {
      if Sign() then 0 - Val(a) else Val(a)
    }
  }

  function Small(v: Word): (x: BigInt)
    ensures x.Int() == v && !x.Sign()
  {
    BigInt(Polynomial.FromUInt64(v), false)
  }

  ghost function Abs(x: int): nat {
    if x < 0 then -x else x
  }

  lemma Magnitude(x: BigInt)
    ensures Val(x.a) == Abs(x.Int())
    ensures x.Sign() <==> x.Int() < 0
    ensures x.IsZero() <==> x.Int() == 0
    ensures x.IsOdd() <==> x.Int() % 2 == 1
  {
    LenBounds(x.a);
    if Len(x.a) > 0 { LowestBit(x.a, |x.a|); }
  }

  lemma {:induction false} LowestBit(a: Poly, i: nat)
    requires 0 < i <= |a|
    ensures Low(a, i) % 2 == a[0] % 2
  {
    if i == 1 {
      assert Low(a, 1) == Low(a, 0) + a[0] * Weight(0);
    } else {
      LowestBit(a, i - 1);
      Associate(BASE / 2, 2, Weight(i - 2));
      assert Weight(i - 1) == 2 * (BASE / 2 * Weight(i - 2));
      Associate(a[i - 1], 2, BASE / 2 * Weight(i - 2));
      Commute(a[i - 1], 2);
      Associate(2, a[i - 1], BASE / 2 * Weight(i - 2));
    }
  }

  method Cmp(x: BigInt, y: BigInt) returns (c: int)
    ensures c == if x.Int() < y.Int() then -1 else if x.Int() == y.Int() then 0 else 1
  {
    Magnitude(x);
    Magnitude(y);
    if x.Sign() && y.Sign() {
      c := Polynomial.Cmp(x.a, y.a);
      c := -c;
    } else if x.Sign() && !y.Sign() {
      c := -1;
    } else if !x.Sign() && y.Sign() {
      c := 1;
    } else {
      c := Polynomial.Cmp(x.a, y.a);
    }
  }

  method AddMagnitudes(x: Poly, y: Poly, negative: bool) returns (r: BigInt)
    ensures r.Int() == if negative then -(Val(x) + Val(y)) else Val(x) + Val(y)
  {
    var sum := Polynomial.Add(x, y);
    LenBounds(sum);
    r := BigInt(sum, negative);
  }

  /** x - y with sign `negative`, or y - x with the other sign: whichever
      subtraction does not underflow. */
  method SubMagnitudes(x: Poly, y: Poly, negative: bool) returns (r: BigInt)
    ensures r.Int() == if negative then Val(y) - Val(x) else Val(x) - Val(y)
  {
    var order := Polynomial.Cmp(x, y);
    if order == -1 {
      var d := Polynomial.Sub(y, x);
      LenBounds(d.value);
      r := BigInt(d.value, !negative);
    } else {
      var d := Polynomial.Sub(x, y);
      LenBounds(d.value);
      r := BigInt(d.value, negative);
    }
  }

  method Add(x: BigInt, y: BigInt) returns (r: BigInt)
    ensures r.Int() == x.Int() + y.Int()
  {
    if x.Sign() && y.Sign() {
      r := AddMagnitudes(x.a, y.a, true);
    } else if x.Sign() && !y.Sign() {
      r := SubMagnitudes(x.a, y.a, true);
    } else if !x.Sign() && y.Sign() {
      r := SubMagnitudes(x.a, y.a, false);
    } else {
      r := AddMagnitudes(x.a, y.a, false);
    }
  }

  method Sub(x: BigInt, y: BigInt) returns (r: BigInt)
    ensures r.Int() == x.Int() - y.Int()
  {
    if x.Sign() && y.Sign() {
      r := SubMagnitudes(x.a, y.a, true);
    } else if x.Sign() && !y.Sign() {
      r := AddMagnitudes(x.a, y.a, true);
    } else if !x.Sign() && y.Sign() {
      r := AddMagnitudes(x.a, y.a, false);
    } else {
      r := SubMagnitudes(x.a, y.a, false);
    }
  }

  method Mul(x: BigInt, y: BigInt) returns (r: BigInt)
    ensures r.Int() == x.Int() * y.Int()
  {
    var product := Multiplication.Mul(x.a, y.a);
    SignedProduct(x, y, product);
    r := BigInt(product, x.Sign() != y.Sign());
  }

  lemma SignedProduct(x: BigInt, y: BigInt, product: Poly)
    requires Val(product) == Val(x.a) * Val(y.a)
    ensures BigInt(product, x.Sign() != y.Sign()).Int() == x.Int() * y.Int()
  {
    LenBounds(product);
    NegateProduct(Val(x.a), Val(y.a));
  }

  lemma NegateProduct(x: int, y: int)
    ensures (-x) * y == -(x * y) && x * (-y) == -(x * y) && (-x) * (-y) == x * y
  {}

  /** Division rounding towards zero. */
  ghost function Truncated(x: int, y: int): int
    requires y != 0
  {
    if (x < 0) == (y < 0) then Abs(x) / Abs(y) else -(Abs(x) / Abs(y))
  }

  ghost predicate Divisible(x: BigInt, y: BigInt) {
    Division.Divisible(x.a, y.a)
  }

  /** The quotient truncates towards zero; the remainder is a magnitude and
      never carries a sign. */
  method Div(x: BigInt, y: BigInt, wantRem: bool) returns (r: Result<(BigInt, BigInt)>)
    requires Divisible(x, y)
    ensures r.Throw? <==> y.Int() == 0 && x.Int() != 0
    ensures r.Throw? ==> r.error == DivideByZero
    ensures y.Int() != 0 ==> r.value.0.Int() == Truncated(x.Int(), y.Int())
    ensures y.Int() != 0 && wantRem ==> r.value.1.Int() == Abs(x.Int()) % Abs(y.Int())
    ensures x.Int() == 0 ==> r.value.0.Int() == r.value.1.Int() == 0
  {
    Magnitude(x);
    Magnitude(y);
    var q := Division.Div(x.a, y.a, wantRem);
    if q.Throw? {
      return Throw(q.error);
    }
    var quot := BigInt(q.value.0, x.Sign() != y.Sign());
    var rem := BigInt(q.value.1, false);
    LenBounds(quot.a);
    LenBounds(rem.a);
    if y.Int() != 0 { DivFloor(Abs(x.Int()), Abs(y.Int())); }
    r := Ok((quot, rem));
  }

  lemma LengthOf(x: BigInt, y: BigInt)
    requires Abs(x.Int()) <= Abs(y.Int())
    ensures Len(x.a) <= Len(y.a)
  {
    Magnitude(x);
    Magnitude(y);
    LenIff(y.a, Len(y.a));
    LenIff(x.a, Len(y.a));
  }

  /** The recursive gcd. Throws exactly when one operand is zero and the other
      is not. */
  method GreatestDivisor(m: BigInt, n: BigInt) returns (r: Result<BigInt>)
    requires m.Int() >= 0 && n.Int() >= 0
    requires Len(m.a) < LIMIT || Len(n.a) < LIMIT
    ensures r.Throw? <==> (m.Int() == 0) != (n.Int() == 0)
    ensures r.Throw? ==> r.error == DivideByZero
    ensures r.Ok? ==> r.value.Int() == Gcd(m.Int(), n.Int())
    decreases n.Int()
  {
    Magnitude(m);
    Magnitude(n);
    var order := Cmp(m, n);
    if order == -1 {
      GcdSymmetric(m.Int(), n.Int());
      r := GreatestDivisor(n, m);
      return;
    }
    LengthOf(n, m);
    var division := Div(m, n, true);
    if division.Throw? {
      return Throw(division.error);
    }
    var rest := division.value.1;
    Magnitude(rest);
    if rest.IsZero() {
      if n.Int() != 0 { assert Gcd(m.Int(), n.Int()) == Gcd(n.Int(), 0); }
      return Ok(n);
    }
    r := GreatestDivisor(n, rest);
  }

  /** Throws exactly when one operand is zero and the other is not. */
  method LeastMultiple(x: BigInt, y: BigInt) returns (r: Result<BigInt>)
    requires x.Int() >= 0 && y.Int() >= 0
    requires Len(x.a) < LIMIT || Len(y.a) < LIMIT
    ensures r.Throw? <==> (x.Int() == 0) != (y.Int() == 0)
    ensures r.Ok? && x.Int() > 0 ==> IsLcm(r.value.Int(), x.Int(), y.Int())
  {
    var product := Mul(x, y);
    var divisor := GreatestDivisor(x, y);
    if divisor.Throw? {
      return Throw(divisor.error);
    }
    var g := divisor.value;
    if x.Int() > 0 {
      GcdIsGcd(x.Int(), y.Int());
      DivisorAtMost(g.Int(), x.Int());
      DivisorAtMost(g.Int(), y.Int());
      LengthOf(g, x);
      LengthOf(g, y);
      LcmByGcd(x.Int(), y.Int());
    }
    MulNonNegative(x.Int(), y.Int());
    Magnitude(product);
    Magnitude(g);
    var quotient := Div(product, g, false);
    r := Ok(quotient.value.0);
  }

  /** A common multiple that divides every other one. */
  ghost predicate IsLcm(l: int, x: nat, y: nat)
    requires x > 0 && y > 0
  {
    && l > 0 && Divides(x, l) && Divides(y, l)
    && forall c: nat | Divides(x, c) && Divides(y, c) :: Divides(l, c)
  }

  lemma LcmByGcd(x: nat, y: nat)
    requires x > 0 && y > 0
    ensures Gcd(x, y) > 0 && IsLcm(x * y / Gcd(x, y), x, y)
  {
    GcdIsGcd(x, y);
    var g := Gcd(x, y);
    var u := Quotient(g, x);
    var v := Quotient(g, y);
    var s, t := Bezout(x, y);
    var l := u * y;
    Associate(u, g, y);
    Commute(g, y);
    Associate(u, y, g);
    DivModUnique(x * y, g, l, 0);
    Commute(u, g);
    Commute(v, g);
    DividesMultiple(y, u);
    Associate(u, v, g);
    Commute(u, v);
    Associate(v, u, g);
    assert l == v * x;
    DividesMultiple(x, v);
    if l <= 0 { ScaleInequality(l, 0, g); ScaleInequality(1, x, y); assert false; }
    forall c: nat | Divides(x, c) && Divides(y, c) ensures Divides(l, c) {
      var i := Quotient(x, c);
      var j := Quotient(y, c);
      LcmDivides(x, y, g, u, v, s, t, l, c, i, j);
      DividesMultiple(l, s * j + t * i);
    }
  }

  lemma LcmDivides(x: int, y: int, g: int, u: int, v: int, s: int, t: int, l: int, c: int, i: int, j: int)
    requires g > 0 && x * s + y * t == g && l == u * y == v * x && x == u * g && y == v * g
    requires c == i * x == j * y
    ensures c == (s * j + t * i) * l
  {
    // g c = x s c + y t c, and x c = x j y = j g l, y c = i g l.
    assert x * c == g * (j * l) by {
      Associate(u, g, c);
      Commute(u, g);
      Associate(g, u, c);
      Associate(u, j, y);
      Commute(u, j);
      Associate(j, u, y);
    }
    assert y * c == g * (i * l) by {
      Associate(v, g, c);
      Commute(v, g);
      Associate(g, v, c);
      Associate(v, i, x);
      Commute(v, i);
      Associate(i, v, x);
    }
    assert g * c == g * ((s * j + t * i) * l) by {
      LcmSum(x, y, s, t, g, c, j, i, l);
    }
    Cancel(g, c, (s * j + t * i) * l);
  }

  lemma LcmSum(x: int, y: int, s: int, t: int, g: int, c: int, j: int, i: int, l: int)
    requires x * s + y * t == g && x * c == g * (j * l) && y * c == g * (i * l)
    ensures g * c == g * ((s * j + t * i) * l)
  {
    assert (x * s + y * t) * c == s * (x * c) + t * (y * c) by {
      Distribute(x * s, y * t, c);
      Commute(x, s);
      Commute(y, t);
      Associate(s, x, c);
      Associate(t, y, c);
    }
    PullOut(s, g, j, l);
    PullOut(t, g, i, l);
    Distribute((s * j) * l, (t * i) * l, g);
    Distribute(s * j, t * i, l);
    Commute(g, (s * j) * l);
    Commute(g, (t * i) * l);
    Commute(g, (s * j) * l + (t * i) * l);
  }

  lemma PullOut(s: int, g: int, j: int, l: int)
    ensures s * (g * (j * l)) == g * ((s * j) * l)
  {
    Associate(s, g, j * l);
    Commute(s, g);
    Associate(g, s, j * l);
    Associate(s, j, l);
  }

  lemma Cancel(g: int, x: int, y: int)
    requires g > 0 && g * x == g * y
    ensures x == y
  {
    DivModUnique(x * g, g, x, 0);
    DivModUnique(y * g, g, y, 0);
  }
}
