/** The subtract-and-halve gcd, which hands back its odd part and its power of
    two. */
module BinaryGcd {
  import opened Arithmetic
  import opened Words
  import opened NumberTheory
  import opened BigIntegers

  lemma HalveBoth(x: nat, y: nat)
    requires x > 0 && y > 0
    ensures Gcd(2 * x, 2 * y) == 2 * Gcd(x, y)
  {
    GcdIsGcd(x, y);
    GcdIsGcd(2 * x, 2 * y);
    var g := Gcd(x, y);
    var i := Quotient(g, x);
    var j := Quotient(g, y);
    DoubledMultiple(g, i, x);
    DoubledMultiple(g, j, y);
    var s, t := Bezout(x, y);
    forall c: nat | c > 0 && Divides(c, 2 * x) && Divides(c, 2 * y) ensures Divides(c, 2 * g) {
      DividesProduct(c, 2 * x, s);
      DividesProduct(c, 2 * y, t);
      DividesSum(c, (2 * x) * s, (2 * y) * t);
      Associate(2, x, s);
      Associate(2, y, t);
    }
    IsGcdUnique(2 * g, Gcd(2 * x, 2 * y), 2 * x, 2 * y);
  }

  lemma DoubledMultiple(g: nat, k: int, x: int)
    requires g > 0 && x == k * g
    ensures Divides(2 * g, 2 * x)
  {
    Associate(2, k, g);
    Commute(2, k);
    Associate(k, 2, g);
    DividesMultiple(2 * g, k);
  }

  /** An odd divisor of 2x divides x. */
  lemma OddDivisor(c: nat, x: int)
    requires c % 2 == 1 && Divides(c, 2 * x)
    ensures Divides(c, x)
  {
    var m := c / 2;
    assert c == 2 * m + 1;
    DividesProduct(c, c, x) by { DividesMultiple(c, 1); }
    DividesProduct(c, 2 * x, m);
    DividesSum(c, c * x, m * (2 * x));
    Distribute(2 * m, 1, x);
    Associate(2, m, x);
    Commute(m, 2 * x);
    Associate(2, x, m);
    Commute(x, m);
  }

  lemma HalveOne(x: nat, y: nat)
    requires x > 0 && y % 2 == 1
    ensures Gcd(2 * x, y) == Gcd(x, y)
  {
    GcdIsGcd(x, y);
    GcdIsGcd(2 * x, y);
    var g, h := Gcd(x, y), Gcd(2 * x, y);
    DividesProduct(g, x, 2);
    if h % 2 == 0 {
      var k := Quotient(h, y);
      EvenMultiple(h, k);
      assert false;
    }
    OddDivisor(h, x);
    DivisorAtMost(g, h);
    DivisorAtMost(h, g);
  }

  lemma EvenMultiple(h: nat, k: int)
    requires h % 2 == 0
    ensures k * h % 2 == 0
  {
    Associate(k, h / 2, 2);
    DividesMultiple(2, k * (h / 2));
  }

  lemma Subtract(x: nat, y: nat)
    requires x > y > 0
    ensures Gcd(x, y) == Gcd(x - y, y)
  {
    GcdIsGcd(x, y);
    GcdIsGcd(x - y, y);
    var g, h := Gcd(x, y), Gcd(x - y, y);
    DividesSum(g, x, y);
    DividesSum(h, x - y, y);
    DivisorAtMost(g, h);
    DivisorAtMost(h, g);
  }

  /** The step for two odd numbers. */
  lemma SubtractAndHalve(x: nat, y: nat)
    requires x > y > 0 && x % 2 == 1 && y % 2 == 1
    ensures Gcd(x, y) == Gcd((x - y) / 2, y)
  {
    Subtract(x, y);
    HalveOne((x - y) / 2, y);
  }

  method Half(x: BigInt) returns (h: BigInt)
    requires x.Int() >= 0
    ensures h.Int() == x.Int() / 2
  {
    Magnitude(x);
    Magnitude(Small(2));
    LenIff(Small(2).a, 1);
    assert Weight(1) == BASE * Weight(0);
    var division := Div(x, Small(2), false);
    h := division.value.0;
  }

  /** One turn of the second loop of OddPart: halve an even number, or subtract
      the smaller odd number from the larger and halve the difference. */
  method SubtractTurn(aP: BigInt, bP: BigInt, order: int) returns (a': BigInt, b': BigInt)
    requires aP.Int() > 0 && bP.Int() > 0 && (aP.Int() % 2 == 1 || bP.Int() % 2 == 1)
    requires aP.Int() != bP.Int() && (order == 1 <==> aP.Int() > bP.Int())
    ensures a'.Int() > 0 && b'.Int() > 0 && (a'.Int() % 2 == 1 || b'.Int() % 2 == 1)
    ensures Gcd(a'.Int(), b'.Int()) == Gcd(aP.Int(), bP.Int())
    ensures a'.Int() + b'.Int() < aP.Int() + bP.Int()
  {
    a', b' := aP, bP;
    Magnitude(aP);
    Magnitude(bP);
    ghost var x, y := GcdStep(aP.Int(), bP.Int());
    if !aP.IsOdd() {
      a' := Half(aP);
    } else if !bP.IsOdd() {
      b' := Half(bP);
    } else if order == 1 {
      var difference := Sub(aP, bP);
      a' := Half(difference);
    } else {
      var difference := Sub(bP, aP);
      b' := Half(difference);
    }
    assert a'.Int() == x && b'.Int() == y;
  }

  /** The second loop of OddPart: runs until both numbers agree. */
  method SubtractLoop(a: BigInt, b: BigInt) returns (g: BigInt)
    requires a.Int() > 0 && b.Int() > 0 && (a.Int() % 2 == 1 || b.Int() % 2 == 1)
    ensures g.Int() == Gcd(a.Int(), b.Int()) && g.Int() % 2 == 1
  {
    var aP, bP := a, b;
    ghost var G := Gcd(a.Int(), b.Int());
    var order := Cmp(aP, bP);
    while order != 0
      invariant aP.Int() > 0 && bP.Int() > 0
      invariant aP.Int() % 2 == 1 || bP.Int() % 2 == 1
      invariant Gcd(aP.Int(), bP.Int()) == G
      invariant order == if aP.Int() < bP.Int() then -1 else if aP.Int() == bP.Int() then 0 else 1
      decreases aP.Int() + bP.Int()
    {
      aP, bP := SubtractTurn(aP, bP, order);
      order := Cmp(aP, bP);
    }
    GcdSelf(aP.Int());
    g := aP;
  }

  lemma GcdSelf(x: nat)
    requires x > 0
    ensures Gcd(x, x) == x
  {
    DivModUnique(x, x, 1, 0);
    assert Gcd(x, x) == Gcd(x, 0);
  }

  lemma GcdStep(x: nat, y: nat) returns (x': nat, y': nat)
    requires x > 0 && y > 0 && x != y && (x % 2 == 1 || y % 2 == 1)
    ensures x' == if x % 2 == 0 then x / 2 else if y % 2 == 1 && x > y then (x - y) / 2 else x
    ensures y' == if x % 2 == 1 && y % 2 == 0 then y / 2 else if x % 2 == 1 && x < y then (y - x) / 2 else y
    ensures x' > 0 && y' > 0 && (x' % 2 == 1 || y' % 2 == 1) && x' + y' < x + y
    ensures Gcd(x', y') == Gcd(x, y)
  {
    hide Gcd;
    x', y' := x, y;
    GcdSymmetric(x, y);
    if x % 2 == 0 {
      HalveOne(x / 2, y);
      x' := x / 2;
    } else if y % 2 == 0 {
      HalveOne(y / 2, x);
      GcdSymmetric(y / 2, x);
      y' := y / 2;
    } else if x > y {
      SubtractAndHalve(x, y);
      x' := (x - y) / 2;
    } else {
      SubtractAndHalve(y, x);
      GcdSymmetric((y - x) / 2, x);
      y' := (y - x) / 2;
    }
  }

  /** Both loops terminate on positive operands; g is odd and carries every odd
      factor of the gcd, d counts its factors of two. */
  method OddPart(a: BigInt, b: BigInt) returns (g: BigInt, d: BigInt)
    requires a.Int() > 0 && b.Int() > 0
    ensures d.Int() >= 0 && g.Int() % 2 == 1
    ensures Gcd(a.Int(), b.Int()) == Pow(2, d.Int()) * g.Int()
  {
    var aP, bP := a, b;
    d := Small(0);
    Magnitude(aP);
    Magnitude(bP);
    while !aP.IsOdd() && !bP.IsOdd()
      invariant aP.Int() > 0 && bP.Int() > 0 && d.Int() >= 0
      invariant aP.IsOdd() <==> aP.Int() % 2 == 1
      invariant bP.IsOdd() <==> bP.Int() % 2 == 1
      invariant Gcd(a.Int(), b.Int()) == Pow(2, d.Int()) * Gcd(aP.Int(), bP.Int())
      decreases aP.Int()
    {
      HalveStep(aP.Int(), bP.Int(), d.Int());
      aP := Half(aP);
      bP := Half(bP);
      d := Add(d, Small(1));
      Magnitude(aP);
      Magnitude(bP);
    }
    g := SubtractLoop(aP, bP);
  }

  /** What the prime search asks it for: the odd part of a number and the power of two
      beside it. */
  method PowerOfTwoPart(x: BigInt) returns (w: BigInt, v: BigInt)
    requires x.Int() > 0
    ensures v.Int() >= 0 && w.Int() % 2 == 1 && x.Int() == w.Int() * Pow(2, v.Int())
  {
    w, v := OddPart(x, x);
    GcdSelf(x.Int());
    Commute(w.Int(), Pow(2, v.Int()));
  }

  lemma HalveStep(x: nat, y: nat, d: nat)
    requires x > 0 && y > 0 && x % 2 == 0 && y % 2 == 0
    ensures Pow(2, d) * Gcd(x, y) == Pow(2, d + 1) * Gcd(x / 2, y / 2)
  {
    HalveBoth(x / 2, y / 2);
    Associate(Pow(2, d), 2, Gcd(x / 2, y / 2));
    Commute(2, Pow(2, d));
  }
}
