/** Little-endian sequences of 32-bit words, possibly with leading zero words,
    and the natural number each stands for. */
module Words {
  import opened Arithmetic

  const BASE := 0x1_0000_0000

  type Word = x: int | 0 <= x < BASE
  type Poly = seq<Word>

  /** The word at `i`, or zero beyond the end. */
  function At(a: Poly, i: nat): Word {
    if i < |a| then a[i] else 0
  }

  /** The weight BASE^k of the word at position k. */
  ghost function Weight(k: nat): (w: nat)
    ensures w > 0
  {
    if k == 0 then 1 else BASE * Weight(k - 1)
  }

  /** The number formed by the `i` lowest words. */
  ghost function Low(a: Poly, i: nat): nat {
    if i == 0 then 0 else
      MulNonNegative(At(a, i - 1), Weight(i - 1));
      Low(a, i - 1) + At(a, i - 1) * Weight(i - 1)
  }

  /** The number a sequence of words stands for. */
  ghost function Val(a: Poly): nat {
    Low(a, |a|)
  }

  /** The number of words up to the highest non-zero one. */
  function Len(a: Poly): (n: nat)
    ensures n <= |a|
  {
    if a == [] then 0
    else if a[|a| - 1] != 0 then |a|
    else Len(a[..|a| - 1])
  }

  lemma {:induction false} WeightIsPow(k: nat)
    ensures Weight(k) == Pow(BASE, k)
  {
    if k > 0 { WeightIsPow(k - 1); }
  }

  lemma WeightAdd(m: nat, n: nat)
    ensures Weight(m + n) == Weight(m) * Weight(n)
  {
    WeightIsPow(m);
    WeightIsPow(n);
    WeightIsPow(m + n);
    PowAdd(BASE, m, n);
  }

  lemma WeightMonotone(m: nat, n: nat)
    requires m <= n
    ensures Weight(m) <= Weight(n)
  {
    WeightIsPow(m);
    WeightIsPow(n);
    PowMonotone(BASE, m, n);
  }

  /** Only the words below `i` matter to Low(_, i). */
  lemma {:induction false} LowCongruent(a: Poly, b: Poly, i: nat)
    requires forall k | 0 <= k < i :: At(a, k) == At(b, k)
    ensures Low(a, i) == Low(b, i)
  {
    if i > 0 { LowCongruent(a, b, i - 1); }
  }

  /** The low c + i words of `a` are its low c words below the low i words of
      any `b` that continues `a` from position c on. */
  lemma {:induction false} LowSplit(a: Poly, b: Poly, c: nat, i: nat)
    requires forall k | 0 <= k < i :: At(b, k) == At(a, c + k)
    ensures Low(a, c + i) == Low(a, c) + Weight(c) * Low(b, i)
  {
    if i > 0 {
      LowSplit(a, b, c, i - 1);
      WeightAdd(c, i - 1);
      var d, w, v := At(b, i - 1), Weight(c), Weight(i - 1);
      assert At(a, c + i - 1) == d;
      assert Low(a, c + i) == Low(a, c + i - 1) + d * (w * v);
      RaiseDigit(w, Low(b, i - 1), d, v);
    }
  }

  lemma RaiseDigit(w: int, x: int, d: int, v: int)
    ensures w * (x + d * v) == w * x + d * (w * v)
  {
    assert w * (d * v) == d * (w * v);
  }

  lemma {:induction false} LowBound(a: Poly, i: nat)
    ensures Low(a, i) < Weight(i)
  {
    if i > 0 {
      LowBound(a, i - 1);
      MulMonotone(Weight(i - 1), At(a, i - 1), BASE - 1);
    }
  }

  lemma {:induction false} LenTop(a: Poly)
    ensures Len(a) > 0 ==> a[Len(a) - 1] != 0
    ensures forall k :: Len(a) <= k ==> At(a, k) == 0
  {
    if a != [] && a[|a| - 1] == 0 {
      var b := a[..|a| - 1];
      LenTop(b);
      forall k | Len(a) <= k ensures At(a, k) == 0 {
        assert At(b, k) == 0;
      }
    }
  }

  /** Words above the highest non-zero one add nothing. */
  lemma {:induction false} LowLen(a: Poly, i: nat)
    requires Len(a) <= i
    ensures Low(a, i) == Val(a)
  {
    LenTop(a);
    if i < |a| {
      LowZeros(a, i, |a|);
    } else {
      LowZeros(a, |a|, i);
    }
  }

  lemma {:induction false} LowZeros(a: Poly, i: nat, j: nat)
    requires i <= j
    requires forall k | i <= k < j :: At(a, k) == 0
    ensures Low(a, j) == Low(a, i)
  {
    if i < j {
      LowZeros(a, i, j - 1);
      assert At(a, j - 1) == 0;
    }
  }

  /** The length brackets the value between two weights. */
  lemma LenBounds(a: Poly)
    ensures Val(a) < Weight(Len(a))
    ensures Len(a) > 0 ==> Weight(Len(a) - 1) <= Val(a)
    ensures Len(a) == 0 <==> Val(a) == 0
  {
    var n := Len(a);
    LenTop(a);
    LowLen(a, n);
    LowBound(a, n);
    if n > 0 {
      MulMonotone(Weight(n - 1), 1, At(a, n - 1));
    }
  }

  /** Comparing a value with a weight is comparing lengths. */
  lemma LenIff(a: Poly, k: nat)
    ensures Val(a) < Weight(k) <==> Len(a) <= k
  {
    LenBounds(a);
    if Len(a) <= k {
      WeightMonotone(Len(a), k);
    } else {
      WeightMonotone(k, Len(a) - 1);
    }
  }

  /** The value of a number read from its top word down. */
  lemma LowTop(a: Poly, i: nat)
    requires i > 0
    ensures At(a, i - 1) * Weight(i - 1) <= Low(a, i) < (At(a, i - 1) + 1) * Weight(i - 1)
  {
    LowBound(a, i - 1);
    Distribute(At(a, i - 1), 1, Weight(i - 1));
  }
}
