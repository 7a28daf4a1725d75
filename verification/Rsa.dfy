/** Textbook RSA over the big integers (section 5.1 of RFC 8017): the key generation
    for given primes and the two primitives. */
module Rsa {
  import opened Arithmetic
  import opened Outcome
  import opened Words
  import opened NumberTheory
  import opened BigIntegers
  import Euclid
  import Exponentiation

  /** Modulus and private exponent for two primes and a public exponent. Throws
      exactly when e has no inverse. */
  method GenerateKey(e: BigInt, p: BigInt, q: BigInt)
    returns (r: Result<(BigInt, BigInt)>, ghost lambda: nat)
    requires e.Int() >= 0 && p.Int() > 1 && q.Int() > 1
    requires p.Int() * q.Int() < Weight(LIMIT - 1)
    ensures lambda > 0 && IsLcm(lambda, p.Int() - 1, q.Int() - 1)
    ensures r.Throw? <==> Gcd(lambda, e.Int()) > 1
    ensures r.Ok? ==> r.value.0.Int() == p.Int() * q.Int()
    ensures r.Ok? ==> Euclid.IsInverse(r.value.1.Int(), e.Int(), lambda)
  {
    var n := Mul(p, q);
    var p1 := Sub(p, Small(1));
    var q1 := Sub(q, Small(1));
    KeyLengths(p.Int(), q.Int());
    ShortNumber(p1);
    ShortNumber(q1);
    var l := LeastMultiple(p1, q1);
    lambda := l.value.Int();
    LcmAtMost(lambda, p1.Int(), q1.Int());
    ShortNumber(l.value);
    var d := Euclid.Inverse(e, l.value);
    if d.Throw? {
      r := Throw(d.error);
    } else {
      r := Ok((n, d.value));
    }
  }

  lemma ShortNumber(x: BigInt)
    requires 0 <= x.Int() < Weight(LIMIT - 1)
    ensures Len(x.a) < LIMIT
  {
    Magnitude(x);
    LenIff(x.a, LIMIT - 1);
  }

  lemma KeyLengths(p: nat, q: nat)
    requires p > 1 && q > 1 && p * q < Weight(LIMIT - 1)
    ensures p - 1 < Weight(LIMIT - 1) && q - 1 < Weight(LIMIT - 1) && (p - 1) * (q - 1) < Weight(LIMIT - 1)
  {
    Expand2(p, q);
    ScaleInequality(1, q, p);
    ScaleInequality(1, p, q);
    Commute(p, q);
  }

  lemma LcmAtMost(l: nat, x: nat, y: nat)
    requires x > 0 && y > 0 && IsLcm(l, x, y)
    ensures l <= x * y
  {
    DividesMultiple(x, y);
    DividesMultiple(y, x);
    MulNonNegative(x, y);
    ScaleInequality(1, x, y);
    DivisorAtMost(l, x * y);
  }

  /** RSAEP and RSADP in (n, d) form share this body: the representative must
      lie in 0..n-1. */
  method Primitive(n: BigInt, exponent: BigInt, m: BigInt) returns (r: Result<BigInt>)
    requires Len(n.a) < LIMIT
    ensures r.Throw? <==> !(0 <= m.Int() < n.Int())
    ensures r.Throw? ==> r.error == OutOfRange
    ensures r.Ok? && exponent.Int() > 0 ==> r.value.Int() == Pow(m.Int(), exponent.Int()) % n.Int()
    ensures r.Ok? && exponent.Int() == 0 ==> r.value.Int() == 1
    ensures r.Ok? ==> !r.value.Sign()
  {
    Magnitude(n);
    Magnitude(m);
    Magnitude(exponent);
    var top := Sub(n, Small(1));
    var order := Cmp(m, top);
    if m.Sign() || order == 1 {
      return Throw(OutOfRange);
    }
    var power := Exponentiation.ModPow(m.a, exponent.a, n.a);
    return Ok(BigInt(power.value, false));
  }

  /** Decrypting an encryption gives every representative back; the round trip
      throws exactly for an exponent without an inverse or a representative that
      is out of range. */
  method TextbookRoundTrip(e: BigInt, p: BigInt, q: BigInt, m: BigInt) returns (r: Result<BigInt>, ghost lambda: nat)
    requires e.Int() >= 0 && Prime(p.Int()) && Prime(q.Int()) && p.Int() != q.Int()
    requires p.Int() * q.Int() < Weight(LIMIT - 1)
    ensures lambda > 0 && IsLcm(lambda, p.Int() - 1, q.Int() - 1)
    ensures r.Ok? <==> Gcd(lambda, e.Int()) == 1 && 0 <= m.Int() < p.Int() * q.Int()
    ensures r.Ok? ==> r.value.Int() == m.Int()
  {
    var key;
    key, lambda := GenerateKey(e, p, q);
    GcdIsGcd(lambda, e.Int());
    if key.Throw? {
      r := Throw(key.error);
      return;
    }
    var n, d := key.value.0, key.value.1;
    MulNonNegative(p.Int(), q.Int());
    ShortNumber(n);
    var c := Primitive(n, e, m);
    if c.Throw? {
      r := c;
      return;
    }
    KeyExponents(lambda, p.Int(), q.Int(), e.Int(), d.Int());
    ModRange(Pow(m.Int(), e.Int()), n.Int());
    r := Primitive(n, d, c.value);
    RsaIdentity(p.Int(), q.Int(), lambda, e.Int(), d.Int(), m.Int());
  }

  lemma ModRange(x: int, n: int)
    requires n > 0
    ensures 0 <= x % n < n
  {}

  lemma KeyExponents(l: nat, p: nat, q: nat, e: nat, d: int)
    requires Prime(p) && Prime(q) && p != q && l > 0 && IsLcm(l, p - 1, q - 1)
    requires Euclid.IsInverse(d, e, l)
    ensures l > 1 && e > 0 && d > 0 && e * d % l == 1
  {
    DivisorAtMost(p - 1, l);
    DivisorAtMost(q - 1, l);
    DivModUnique(1, l, 0, 1);
    DivModUnique(0, l, 0, 0);
    assert e * d != 0;
  }
}
