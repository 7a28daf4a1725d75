/** Extended Euclid, the modular inverse and the binary gcd. */
module Euclid {
  import opened Arithmetic
  import opened Outcome
  import opened Words
  import opened NumberTheory
  import opened BigIntegers

  /** One division step of Euclid's algorithm on the pair (x, y). */
  lemma RemainderStep(x: nat, y: nat)
    requires y > 0
    ensures x - x / y * y == x % y && x % y < y
    ensures Gcd(x, y) == Gcd(y, x % y)
  {
    DivFloor(x, y);
  }

  /** Keeps a linear combination under a division step. */
  lemma CombinationStep(c: int, d: int, a0: int, b0: int, a1: int, b1: int, q: int, x: int, y: int)
    requires a0 * c + b0 * d == x && a1 * c + b1 * d == y
    ensures (a0 - q * a1) * c + (b0 - q * b1) * d == x - q * y
  {
    Distribute(a0, -(q * a1), c);
    Distribute(b0, -(q * b1), d);
    Distribute(a1 * c, b1 * d, q);
    Associate(q, a1, c);
    Associate(q, b1, d);
    NegateProduct(q * a1, c);
    NegateProduct(q * b1, d);
  }

  /** Returns the gcd and coefficients that combine to it. Throws exactly when d
      is zero and c is not. */
  method ExtendedEuclid(c: BigInt, d: BigInt) returns (r: Result<BigInt>, a: BigInt, b: BigInt)
    requires c.Int() >= 0 && d.Int() >= 0
    requires Len(c.a) < LIMIT || Len(d.a) < LIMIT
    ensures r.Throw? <==> d.Int() == 0 && c.Int() > 0
    ensures r.Ok? ==> r.value.Int() == Gcd(c.Int(), d.Int())
    ensures r.Ok? ==> a.Int() * c.Int() + b.Int() * d.Int() == r.value.Int()
  {
    var cP, dP := c, d;
    a, b := Small(0), Small(1);
    var aP, bP := Small(1), Small(0);
    while true
      invariant cP.Int() >= 0 && dP.Int() >= 0
      invariant (cP == c && dP == d) || (dP.Int() > 0 && Len(dP.a) < LIMIT)
      invariant Gcd(cP.Int(), dP.Int()) == Gcd(c.Int(), d.Int())
      invariant aP.Int() * c.Int() + bP.Int() * d.Int() == cP.Int()
      invariant a.Int() * c.Int() + b.Int() * d.Int() == dP.Int()
      decreases dP.Int()
    {
      Magnitude(cP);
      Magnitude(dP);
      if cP.Int() > 0 && dP.Int() > 0 { ShortDivisor(cP, dP); }
      var division := Div(cP, dP, true);
      if division.Throw? {
        r := Throw(division.error);
        return;
      }
      var q, rest := division.value.0, division.value.1;
      Magnitude(rest);
      if dP.Int() > 0 { RemainderStep(cP.Int(), dP.Int()); }
      if rest.IsZero() {
        break;
      }
      CombinationStep(c.Int(), d.Int(), aP.Int(), bP.Int(), a.Int(), b.Int(), q.Int(), cP.Int(), dP.Int());
      RestLength(cP, dP, rest);
      cP := dP;
      dP := rest;
      var t := aP;
      aP := a;
      var qa := Mul(q, a);
      a := Sub(t, qa);
      t := bP;
      bP := b;
      var qb := Mul(q, b);
      b := Sub(t, qb);
    }
    r := Ok(dP);
  }

  lemma ShortDivisor(x: BigInt, y: BigInt)
    requires y.Int() != 0 && (Len(x.a) < LIMIT || Len(y.a) < LIMIT)
    ensures Divisible(x, y)
  {
    Magnitude(y);
  }

  lemma RestLength(x: BigInt, y: BigInt, rest: BigInt)
    requires x.Int() >= 0 && y.Int() > 0 && rest.Int() == x.Int() % y.Int()
    requires Len(x.a) < LIMIT || Len(y.a) < LIMIT
    ensures Len(rest.a) < LIMIT
  {
    DivFloor(x.Int(), y.Int());
    MulNonNegative(x.Int() / y.Int(), y.Int());
    LengthOf(rest, x);
    LengthOf(rest, y);
  }

  /** What the inverse loop keeps about r, newr, t and newt, for a modulus N and
      a number A: the Bezout coefficients have opposite signs and are bounded by
      the remainders they belong to. */
  ghost predicate InverseState(N: nat, A: nat, R: int, S: int, T: int, U: int) {
    && R > 0 && S >= 0 && N > 0
    && Congruent(A * T, R, N) && Congruent(A * U, S, N)
    && Gcd(R, S) == Gcd(N, A)
    && (T <= 0 <= U || U <= 0 <= T)
    && R * Abs(U) + S * Abs(T) == N
    && (R > S || (R == N && S == A && T == 0 && U == 1))
    && (S == 0 && R == 1 ==> if N == 1 && A == 1 then T == 1 else 2 * Abs(T) <= N)
    && (N == 1 && A == 1 ==> R == 1)
  }

  lemma InverseStart(N: nat, A: nat)
    requires N > 0
    ensures InverseState(N, A, N, A, 0, 1)
  {
    DivModUnique(N, N, 1, 0);
    DivModUnique(0, N, 0, 0);
    assert A * 0 == 0 && A * 1 == A && N * 1 == N;
  }

  lemma InverseStep(N: nat, A: nat, R: nat, S: nat, T: int, U: int, q: int) returns (S': int, U': int)
    requires InverseState(N, A, R, S, T, U) && S > 0 && q == R / S
    ensures S' == R - q * S && U' == T - q * U && 0 <= S' < S
    ensures InverseState(N, A, S, S', U, U')
  {
    RemainderStep(R, S);
    assert Congruent(A * (T - q * U), R - q * S, N) by {
      CongruentStep(N, A, R, S, T, U, q);
    }
    assert 2 * Abs(U) <= N || (R == 1 && S == 1) || S > 1 by {
      LastCoefficient(R, S, T, U, N);
    }
    assert S * Abs(T - q * U) + (R - q * S) * Abs(U) == N && q >= 0 by {
      DivFloor(R, S);
      BezoutBound(R, S, T, U, q);
    }
    SignOfProduct(q, U);
    S', U' := R - q * S, T - q * U;
  }

  /** The remainder before a last remainder of 1 is at least 2, or this is the
      very first step. */
  lemma LastCoefficient(R: nat, S: nat, T: int, U: int, N: nat)
    requires R > 0 && S > 0 && R * Abs(U) + S * Abs(T) == N && (R > S || R == N)
    ensures 2 * Abs(U) <= N || (R == 1 && S == 1) || S > 1
  {
    MulNonNegative(S, Abs(T));
    if R >= 2 { ScaleInequality(2, R, Abs(U)); }
  }

  lemma SignOfProduct(q: nat, U: int)
    ensures U >= 0 ==> q * U >= 0
    ensures U <= 0 ==> q * U <= 0
  {
    if U <= 0 { MulNonNegative(q, -U); NegateProduct(q, U); }
    if U >= 0 { MulNonNegative(q, U); }
  }

  lemma BezoutBound(R: nat, S: nat, T: int, U: int, q: nat)
    requires T <= 0 <= U || U <= 0 <= T
    ensures S * Abs(T - q * U) + (R - q * S) * Abs(U) == R * Abs(U) + S * Abs(T)
  {
    SignOfProduct(q, U);
    NegateProduct(q, U);
    assert Abs(T - q * U) == Abs(T) + q * Abs(U);
    Distribute(Abs(T), q * Abs(U), S);
    Distribute(R, -(q * S), Abs(U));
    NegateProduct(q * S, Abs(U));
    Commute(q, S);
    Associate(S, q, Abs(U));
  }

  lemma CongruentStep(N: nat, A: nat, R: int, S: int, T: int, U: int, q: int)
    requires N > 0 && Congruent(A * T, R, N) && Congruent(A * U, S, N)
    ensures Congruent(A * (T - q * U), R - q * S, N)
  {
    CongruentMul(-q, -q, A * U, S, N);
    CongruentAdd(A * T, R, -q * (A * U), -q * S, N);
    Distribute(T, -(q * U), A);
    NegateProduct(q, A * U);
    NegateProduct(q, S);
    NegateProduct(A, q * U);
    Associate(A, q, U);
    Commute(A, q);
    Associate(q, A, U);
  }

  /** What the loop keeps about its variables. The remainder stays short enough for the
      division because it is at most n. */
  ghost predicate Inverting(n: BigInt, a: BigInt, r: BigInt, newr: BigInt, t: BigInt, newt: BigInt) {
    && n.Int() > 0 && a.Int() >= 0 && r.Int() >= 0 && newr.Int() >= 0
    && InverseState(n.Int(), a.Int(), r.Int(), newr.Int(), t.Int(), newt.Int())
    && (r == n || newr.Int() <= n.Int())
  }

  /** The assignments of one turn. */
  method InverseAssignments(r: BigInt, newr: BigInt, t: BigInt, newt: BigInt)
    returns (newr': BigInt, newt': BigInt, ghost q: int)
    requires r.Int() >= 0 && newr.Int() > 0 && Divisible(r, newr)
    ensures q == r.Int() / newr.Int()
    ensures newr'.Int() == r.Int() - q * newr.Int() && newt'.Int() == t.Int() - q * newt.Int()
  {
    var division := Div(r, newr, false);
    var quotient := division.value.0;
    q := quotient.Int();

    var tmp := t;
    var product := Mul(quotient, newt);
    newt' := Sub(tmp, product);

    tmp := r;
    product := Mul(quotient, newr);
    newr' := Sub(tmp, product);
  }

  /** One turn of the loop keeps what the loop keeps, and the remainder falls. */
  method InverseTurn(r: BigInt, newr: BigInt, t: BigInt, newt: BigInt, ghost n: BigInt, ghost a: BigInt)
    returns (r': BigInt, newr': BigInt, t': BigInt, newt': BigInt)
    requires Inverting(n, a, r, newr, t, newt) && newr.Int() > 0 && Len(n.a) < LIMIT
    ensures Inverting(n, a, r', newr', t', newt') && newr'.Int() < newr.Int()
  {
    hide InverseState, Gcd, Len;
    ShortTurn(n, r, newr);
    ghost var q;
    newr', newt', q := InverseAssignments(r, newr, t, newt);
    r', t' := newr, newt;
    ghost var S', U' := InverseStep(n.Int(), a.Int(), r.Int(), newr.Int(), t.Int(), newt.Int(), q);
    RemainderAtMost(r.Int(), newr.Int(), S', q);
  }

  lemma ShortTurn(n: BigInt, r: BigInt, newr: BigInt)
    requires n.Int() > 0 && newr.Int() > 0 && (r == n || newr.Int() <= n.Int()) && Len(n.a) < LIMIT
    ensures Divisible(r, newr)
  {
    Magnitude(newr);
    if r != n { LengthOf(newr, n); }
    ShortDivisor(r, newr);
  }

  /** Throws exactly when a and n share a factor. Otherwise the result undoes a
      modulo n and lies in 0..n-1, except for inverse(1, 1), which is 1. */
  method Inverse(a: BigInt, n: BigInt) returns (res: Result<BigInt>)
    requires a.Int() >= 0 && n.Int() > 0 && Len(n.a) < LIMIT
    ensures res.Throw? <==> Gcd(n.Int(), a.Int()) > 1
    ensures res.Throw? ==> res.error == NotInvertible
    ensures res.Ok? ==> IsInverse(res.value.Int(), a.Int(), n.Int())
  {
    hide InverseState, IsInverse, Gcd, Len;
    var t, newt := Small(0), Small(1);
    var r, newr := n, a;
    InverseStart(n.Int(), a.Int());
    Magnitude(newr);
    while !newr.IsZero()
      invariant Inverting(n, a, r, newr, t, newt)
      invariant newr.IsZero() <==> newr.Int() == 0
      decreases newr.Int()
    {
      r, newr, t, newt := InverseTurn(r, newr, t, newt, n, a);
      Magnitude(newr);
    }
    ghost var result := InverseEnd(n.Int(), a.Int(), r.Int(), t.Int(), newt.Int());
    var order := Cmp(r, Small(1));
    if order == 1 {
      return Throw(NotInvertible);
    }
    var sign := Cmp(t, Small(0));
    if sign == -1 {
      t := Add(t, n);
    }
    return Ok(t);
  }

  lemma RemainderAtMost(R: nat, S: nat, S': int, q: int)
    requires S > 0 && q == R / S && S' == R - q * S
    ensures S' <= R
  {
    DivFloor(R, S);
    MulNonNegative(q, S);
  }

  /** What the loop leaves behind, with the negative coefficient shifted up. */
  lemma InverseEnd(N: nat, A: nat, R: int, T: int, U: int) returns (result: int)
    requires InverseState(N, A, R, 0, T, U)
    ensures R == Gcd(N, A) && R > 0
    ensures result == if T < 0 then T + N else T
    ensures R == 1 ==> IsInverse(result, A, N)
  {
    result := if T < 0 then T + N else T;
    if R == 1 && T < 0 {
      Distribute(T, N, A);
      Commute(A, T + N);
      Commute(A, T);
      Commute(A, N);
      ModShift(A * T, A, N);
    }
  }

  /** t undoes a modulo n, and is the reduced such number unless a == n == 1. */
  ghost predicate IsInverse(t: int, a: nat, n: nat)
    requires n > 0
  {
    && Congruent(a * t, 1, n)
    && if a == 1 && n == 1 then t == 1 else 0 <= t < n
  }
}
