/** The shortest octet strings of numbers that DER asks for, apart from any code:
    unsigned for lengths, two's complement for integers and base 128 for the arcs
    of object identifiers (sections 8.1.3, 8.3.2 and 8.19 of X.690). */
module DerNumbers {
  import opened Arithmetic
  import opened Octets

  /** The n low octets of a number, as n shifts put them. */
  function BigEndian(v: nat, n: nat): (s: seq<Octet>)
    ensures |s| == n
  {
    if n == 0 then [] else BigEndian(v / 256, n - 1) + [v % 256]
  }

  lemma {:induction false} BigEndianVal(v: nat, n: nat)
    requires v < Pow(256, n)
    ensures OctetVal(BigEndian(v, n)) == v
  {
    if n > 0 {
      BigEndianVal(v / 256, n - 1);
      var s := BigEndian(v, n);
      assert s[..n - 1] == BigEndian(v / 256, n - 1);
    }
  }

  /** A zero octet in front of a number that does not need it. */
  lemma {:induction false} LeadingZero(v: nat, n: nat)
    requires v < Pow(256, n)
    ensures BigEndian(v, n + 1) == [0] + BigEndian(v, n)
  {
    if n == 0 {
      assert BigEndian(v, 1) == BigEndian(v / 256, 0) + [v % 256];
    } else {
      LeadingZero(v / 256, n - 1);
      assert BigEndian(v, n + 1) == ([0] + BigEndian(v / 256, n - 1)) + [v % 256];
      assert BigEndian(v, n) == BigEndian(v / 256, n - 1) + [v % 256];
    }
  }

  // ------------------------------------------------------------------
  // Integers.

  /** The shortest two's complement form of a number that is not negative. */
  function Shortest(v: nat): (s: seq<Octet>)
    ensures |s| > 0
  {
    if v < 128 then [v] else Shortest(v / 256) + [v % 256]
  }

  /** Two's complement of a number that is not negative, with no octet to spare. */
  ghost predicate IsShortest(s: seq<Octet>) {
    |s| > 0 && s[0] < 128 && (|s| > 1 && s[0] == 0 ==> s[1] >= 128)
  }

  /** Two's complement of any number with no octet to spare: the first nine bits are not
      all equal. */
  ghost predicate NothingSpare(s: seq<Octet>) {
    && |s| > 0
    && (|s| > 1 && s[0] == 0 ==> s[1] >= 128)
    && (|s| > 1 && s[0] == 255 ==> s[1] < 128)
  }

  /** The n octets of a negative number have none to spare exactly when it does not fit
      n - 1 of them. */
  lemma {:induction false} NegativeSpare(v: nat, n: nat)
    requires n > 1 && 128 * Pow(256, n - 1) <= v < Pow(256, n)
    ensures BigEndian(v, n)[0] >= 128
    ensures NothingSpare(BigEndian(v, n)) <==> v < Pow(256, n) - 128 * Pow(256, n - 2)
  {
    var s, u := BigEndian(v, n), BigEndian(v / 256, n - 1);
    assert s == u + [v % 256];
    if n == 2 {
      assert u == BigEndian(v / 256 / 256, 0) + [v / 256];
    } else {
      NegativeSpare(v / 256, n - 1);
    }
  }

  lemma {:induction false} ShortestIs(v: nat)
    ensures IsShortest(Shortest(v)) && OctetVal(Shortest(v)) == v
  {
    var s := Shortest(v);
    if v < 128 {
      assert s[..0] == [];
    } else {
      var u := Shortest(v / 256);
      ShortestIs(v / 256);
      assert s[..|s| - 1] == u;
      if |u| == 1 {
        assert u[..0] == [];
        assert u[0] == v / 256;
      }
    }
  }

  /** The form is determined by the number. */
  lemma {:induction false} ShortestUnique(s: seq<Octet>)
    requires IsShortest(s)
    ensures s == Shortest(OctetVal(s))
  {
    var u, d := s[..|s| - 1], s[|s| - 1];
    DivModUnique(OctetVal(s), 256, OctetVal(u), d);
    if |s| == 1 {
      assert u == [] && OctetVal(s) == d;
    } else {
      if OctetVal(s) < 128 {
        assert OctetVal(u) == 0;
        ZeroOnly(u);
      } else if |u| > 1 {
        assert u[1] == s[1];
        ShortestUnique(u);
      } else {
        assert u == [s[0]] && u[..0] == [];
        assert OctetVal(u) == s[0];
      }
    }
  }

  lemma {:induction false} ZeroOnly(s: seq<Octet>)
    requires OctetVal(s) == 0
    ensures forall i | 0 <= i < |s| :: s[i] == 0
  {
    if s != [] {
      ZeroOnly(s[..|s| - 1]);
      forall i | 0 <= i < |s| ensures s[i] == 0 {
        if i < |s| - 1 { assert s[i] == s[..|s| - 1][i]; }
      }
    }
  }

  /** n shifted octets are the shortest form of the numbers of that size. */
  lemma {:induction false} ShortestShifts(v: nat, n: nat)
    requires n > 0 && v < 128 * Pow(256, n - 1)
    requires n > 1 ==> 128 * Pow(256, n - 2) <= v
    ensures Shortest(v) == BigEndian(v, n)
  {
    if n == 1 {
      assert BigEndian(v, 1) == BigEndian(v / 256, 0) + [v % 256];
    } else {
      PowPositive(256, n - 2);
      ShortestShifts(v / 256, n - 1);
    }
  }

  lemma {:induction false} ShortestCount(v: nat, n: nat)
    requires n > 0 && v < 128 * Pow(256, n - 1)
    ensures |Shortest(v)| <= n
  {
    if v >= 128 { ShortestCount(v / 256, n - 1); }
  }

  // ------------------------------------------------------------------
  // Lengths.

  /** The shortest unsigned form. */
  function Unsigned(v: nat): (s: seq<Octet>)
    ensures |s| > 0
  {
    if v < 256 then [v] else Unsigned(v / 256) + [v % 256]
  }

  lemma {:induction false} UnsignedIs(v: nat)
    ensures OctetVal(Unsigned(v)) == v && (v > 0 ==> Unsigned(v)[0] > 0)
  {
    var s := Unsigned(v);
    if v < 256 {
      assert s[..0] == [];
    } else {
      UnsignedIs(v / 256);
      assert s[..|s| - 1] == Unsigned(v / 256);
    }
  }

  /** No shorter string stands for the number. */
  lemma {:induction false} UnsignedMinimal(v: nat, s: seq<Octet>)
    requires v > 0 && OctetVal(s) == v
    ensures |Unsigned(v)| <= |s|
  {
    if v >= 256 {
      var u, d := s[..|s| - 1], s[|s| - 1];
      DivModUnique(v, 256, OctetVal(u), d);
      UnsignedMinimal(v / 256, u);
    }
  }

  lemma {:induction false} UnsignedShifts(v: nat, n: nat)
    requires n > 0 && v < Pow(256, n) && (n > 1 ==> Pow(256, n - 1) <= v)
    ensures Unsigned(v) == BigEndian(v, n)
  {
    if n == 1 {
      assert BigEndian(v, 1) == BigEndian(v / 256, 0) + [v % 256];
    } else {
      PowPositive(256, n - 2);
      UnsignedShifts(v / 256, n - 1);
    }
  }

  /** The octets of a length. */
  function LengthOctets(v: nat): seq<Octet>
    requires v < 0x1_0000_0000_0000_0000
  {
    if v < 128 then [v] else LengthCount(v); [128 + |Unsigned(v)|] + Unsigned(v)
  }

  lemma LengthCount(v: nat)
    requires v < 0x1_0000_0000_0000_0000
    ensures |Unsigned(v)| <= 8
  {
    if v > 0 {
      EightOctets();
      BigEndianVal(v, 8);
      UnsignedMinimal(v, BigEndian(v, 8));
    }
  }

  lemma EightOctets()
    ensures Pow(256, 1) == 0x100 && Pow(256, 2) == 0x1_0000 && Pow(256, 3) == 0x100_0000 && Pow(256, 4) == 0x1_0000_0000
    ensures Pow(256, 5) == 0x100_0000_0000 && Pow(256, 6) == 0x1_0000_0000_0000
    ensures Pow(256, 7) == 0x100_0000_0000_0000 && Pow(256, 8) == 0x1_0000_0000_0000_0000
  {
    assert Pow(256, 1) == 0x100 && Pow(256, 2) == 0x1_0000 && Pow(256, 3) == 0x100_0000 && Pow(256, 4) == 0x1_0000_0000;
    assert Pow(256, 5) == 0x100_0000_0000 && Pow(256, 6) == 0x1_0000_0000_0000;
    assert Pow(256, 7) == 0x100_0000_0000_0000 && Pow(256, 8) == 0x1_0000_0000_0000_0000;
  }

  // ------------------------------------------------------------------
  // Arcs.

  /** The digits of an arc above its last one, each marked as followed by another. */
  function Upper(v: nat): (s: seq<Octet>)
    requires v > 0
    ensures |s| > 0 && s[0] > 128 && forall i | 0 <= i < |s| :: s[i] >= 128
  {
    if v < 128 then [128 + v] else Upper(v / 128) + [128 + v % 128]
  }

  /** The octets of an arc. */
  function ArcOctets(v: nat): (s: seq<Octet>)
    ensures |s| > 0 && s[0] != 128 && s[|s| - 1] < 128
    ensures forall i | 0 <= i < |s| - 1 :: s[i] >= 128
  {
    if v < 128 then [v] else Upper(v / 128) + [v % 128]
  }
}
