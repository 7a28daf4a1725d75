/** The byte multiplication of AES (section 4.2 of FIPS 197). The loop of
    `AES::DOT` is tied to `Dot`, and `Dot` is pinned down by three laws: one is its
    unit, it distributes over exclusive or, and a factor x moves out of it. */
module Galois {

  datatype Byte = Byte(v: bv8)

  const ZERO := Byte(0)
  const ONE := Byte(1)
  const BITS: nat := 8

  function Xor(a: Byte, b: Byte): Byte {
    Byte(a.v ^ b.v)
  }

  /** Multiplication by x, reduced modulo x^8 + x^4 + x^3 + x + 1. */
  function Xtime(a: Byte): Byte {
    if a.v & 0x80 != 0 then Xor(Byte(a.v << 1), Byte(0x1B)) else Byte(a.v << 1)
  }

  function Halve(b: Byte): Byte {
    Byte(b.v >> 1)
  }

  /** What the lowest bit of b selects of a. */
  function Take(a: Byte, b: Byte): Byte {
    if b.v & 1 != 0 then a else ZERO
  }

  /** The sum over the n lowest bits of b. */
  function Terms(a: Byte, b: Byte, n: nat): Byte
    decreases n
  {
    if n == 0 then ZERO else Xor(Take(a, b), Terms(Xtime(a), Halve(b), n - 1))
  }

  function Dot(a: Byte, b: Byte): Byte {
    Terms(a, b, BITS)
  }

  /** The loop of `AES::DOT` over the n lowest bits, from a sum p. */
  function Accumulated(p: Byte, a: Byte, b: Byte, n: nat): Byte
    decreases n
  {
    if n == 0 then p else Accumulated(Xor(p, Take(a, b)), Xtime(a), Halve(b), n - 1)
  }

  method DOT(x: Byte, y: Byte) returns (p: Byte)
    ensures p == Dot(x, y)
  {
    p := DotLoop(x, y);
    AccumulatedTerms(ZERO, x, y, BITS);
    XorZero(Dot(x, y));
  }

  method DotLoop(x: Byte, y: Byte) returns (p: Byte)
    ensures p == Accumulated(ZERO, x, y, BITS)
  {
    var a, b := x, y;
    p := ZERO;
    for counter := 0 to BITS
      invariant Accumulated(p, a, b, BITS - counter) == Accumulated(ZERO, x, y, BITS)
    {
      p, a, b := DotTurn(p, a, b);
    }
  }

  /** The loop body: adds what the lowest bit selects and turns both factors. */
  method DotTurn(p: Byte, a: Byte, b: Byte) returns (p': Byte, a': Byte, b': Byte)
    ensures p' == Xor(p, Take(a, b)) && a' == Xtime(a) && b' == Halve(b)
  {
    XorZero(p);
    p' := p;
    if b.v & 1 != 0 {
      p' := Xor(p, a);
    }
    var hiBitSet := a.v & 0x80 != 0;
    a' := Byte(a.v << 1);
    if hiBitSet {
      a' := Xor(a', Byte(0x1B));
    }
    b' := Halve(b);
  }

  lemma {:induction false} AccumulatedTerms(p: Byte, a: Byte, b: Byte, n: nat)
    ensures Accumulated(p, a, b, n) == Xor(p, Terms(a, b, n))
    decreases n
  {
    if n == 0 {
      XorZero(p);
    } else {
      AccumulatedTerms(Xor(p, Take(a, b)), Xtime(a), Halve(b), n - 1);
      XorAssociative(p, Take(a, b), Terms(Xtime(a), Halve(b), n - 1));
    }
  }

  lemma XorZero(a: Byte)
    ensures Xor(ZERO, a) == a && Xor(a, ZERO) == a
  {}

  lemma XorAssociative(a: Byte, b: Byte, c: Byte)
    ensures Xor(Xor(a, b), c) == Xor(a, Xor(b, c))
  {}

  lemma XorCommutative(a: Byte, b: Byte)
    ensures Xor(a, b) == Xor(b, a)
  {}

  /** Adding a byte twice leaves nothing of it. */
  lemma XorCancel(a: Byte, b: Byte)
    ensures Xor(Xor(a, b), b) == a
  {}

  lemma XtimeSum(a: Byte, b: Byte)
    ensures Xtime(Xor(a, b)) == Xor(Xtime(a), Xtime(b))
  {
    if a.v & 0x80 == 0 && b.v & 0x80 == 0 {
      NoCarry(a, b);
    } else if a.v & 0x80 == 0 {
      OneCarry(b, a);
      XorCommutative(a, b);
      XorCommutative(Xtime(a), Xtime(b));
    } else if b.v & 0x80 == 0 {
      OneCarry(a, b);
    } else {
      TwoCarries(a, b);
    }
  }

  lemma NoCarry(a: Byte, b: Byte)
    requires a.v & 0x80 == 0 && b.v & 0x80 == 0
    ensures Xtime(Xor(a, b)) == Xor(Xtime(a), Xtime(b))
  {}

  lemma OneCarry(a: Byte, b: Byte)
    requires a.v & 0x80 != 0 && b.v & 0x80 == 0
    ensures Xtime(Xor(a, b)) == Xor(Xtime(a), Xtime(b))
  {}

  lemma TwoCarries(a: Byte, b: Byte)
    requires a.v & 0x80 != 0 && b.v & 0x80 != 0
    ensures Xtime(Xor(a, b)) == Xor(Xtime(a), Xtime(b))
  {}

  lemma TakeSum(a: Byte, b: Byte, y: Byte)
    ensures Take(Xor(a, b), y) == Xor(Take(a, y), Take(b, y))
  {}

  lemma TakeXtime(a: Byte, b: Byte)
    ensures Take(Xtime(a), b) == Xtime(Take(a, b))
  {}

  lemma XorExchange(p: Byte, q: Byte, r: Byte, s: Byte)
    ensures Xor(Xor(p, q), Xor(r, s)) == Xor(Xor(p, r), Xor(q, s))
  {}

  lemma {:induction false} TermsSum(a: Byte, b: Byte, y: Byte, n: nat)
    ensures Terms(Xor(a, b), y, n) == Xor(Terms(a, y, n), Terms(b, y, n))
    decreases n
  {
    if n > 0 {
      var a', b', y' := Xtime(a), Xtime(b), Halve(y);
      TermsSum(a', b', y', n - 1);
      XtimeSum(a, b);
      TakeSum(a, b, y);
      XorExchange(Take(a, y), Take(b, y), Terms(a', y', n - 1), Terms(b', y', n - 1));
    }
  }

  lemma {:induction false} TermsXtime(a: Byte, b: Byte, n: nat)
    ensures Terms(Xtime(a), b, n) == Xtime(Terms(a, b, n))
    decreases n
  {
    if n > 0 {
      TermsXtime(Xtime(a), Halve(b), n - 1);
      TakeXtime(a, b);
      XtimeSum(Take(a, b), Terms(Xtime(a), Halve(b), n - 1));
    }
  }

  lemma UnfoldTwo(a: Byte, b: Byte, n: nat)
    ensures Terms(a, b, n + 2)
            == Xor(Take(a, b), Xor(Take(Xtime(a), Halve(b)), Terms(Xtime(Xtime(a)), Halve(Halve(b)), n)))
  {
    assert Terms(Xtime(a), Halve(b), n + 1)
        == Xor(Take(Xtime(a), Halve(b)), Terms(Xtime(Xtime(a)), Halve(Halve(b)), n));
  }

  /** The six highest bits are the bits of a quarter, two places up. */
  lemma BitsOfUnit(b: Byte)
    ensures Xor(Take(ONE, b), Xor(Take(Byte(2), Halve(b)), Byte(b.v & 0xFC))) == b
    ensures Xor(Take(Byte(4), b), Xor(Take(Byte(8), Halve(b)), Byte((b.v << 2) & 0xF0))) == Byte(b.v << 2)
    ensures Xor(Take(Byte(16), b), Xor(Take(Byte(32), Halve(b)), Byte((b.v << 4) & 0xC0))) == Byte(b.v << 4)
    ensures Xor(Take(Byte(64), b), Xor(Take(Byte(128), Halve(b)), ZERO)) == Byte(b.v << 6)
  {}

  lemma TermsUnit(b: Byte)
    ensures Dot(ONE, b) == b
  {
    var b2 := Halve(Halve(b));
    var b4 := Halve(Halve(b2));
    var b6 := Halve(Halve(b4));
    BitsOfUnit(b);
    BitsOfUnit(b2);
    BitsOfUnit(b4);
    BitsOfUnit(b6);
    UnfoldTwo(Byte(64), b6, 0);
    UnfoldTwo(Byte(16), b4, 2);
    UnfoldTwo(Byte(4), b2, 4);
    UnfoldTwo(ONE, b, 6);
  }

  /** The laws that determine the product: a unit, distributivity, and a factor x
      that can be taken out. Every byte is a sum of powers of x. */
  lemma DotLaws(a: Byte, c: Byte, b: Byte)
    ensures Dot(ONE, b) == b
    ensures Dot(Xor(a, c), b) == Xor(Dot(a, b), Dot(c, b))
    ensures Dot(Xtime(a), b) == Xtime(Dot(a, b))
  {
    TermsUnit(b);
    TermsSum(a, c, b, BITS);
    TermsXtime(a, b, BITS);
  }
}
