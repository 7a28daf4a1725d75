/** The substitution tables of AES, a row of sixteen octets to a constant: that they undo
    each other, and that they are the tables of section 5.1.1 of FIPS 197. */
module SubstitutionBox {
  import opened Galois

  /** The octet in a column of a row. */
  function Pick(row: bv128, column: bv8): Byte
    requires column < 16
  {
    Byte(((row >> (8 * (15 - column))) & 0xFF) as bv8)
  }

  function SboxRow(r: bv8): bv128 {
    if r < 8 then
      if r == 0 then 0x637c777bf26b6fc53001672bfed7ab76
      else if r == 1 then 0xca82c97dfa5947f0add4a2af9ca472c0
      else if r == 2 then 0xb7fd9326363ff7cc34a5e5f171d83115
      else if r == 3 then 0x04c723c31896059a071280e2eb27b275
      else if r == 4 then 0x09832c1a1b6e5aa0523bd6b329e32f84
      else if r == 5 then 0x53d100ed20fcb15b6acbbe394a4c58cf
      else if r == 6 then 0xd0efaafb434d338545f9027f503c9fa8
      else 0x51a3408f929d38f5bcb6da2110fff3d2
    else
      if r == 8 then 0xcd0c13ec5f974417c4a77e3d645d1973
      else if r == 9 then 0x60814fdc222a908846eeb814de5e0bdb
      else if r == 10 then 0xe0323a0a4906245cc2d3ac629195e479
      else if r == 11 then 0xe7c8376d8dd54ea96c56f4ea657aae08
      else if r == 12 then 0xba78252e1ca6b4c6e8dd741f4bbd8b8a
      else if r == 13 then 0x703eb5664803f60e613557b986c11d9e
      else if r == 14 then 0xe1f8981169d98e949b1e87e9ce5528df
      else 0x8ca1890dbfe6426841992d0fb054bb16
  }

  function IsboxRow(r: bv8): bv128 {
    if r < 8 then
      if r == 0 then 0x52096ad53036a538bf40a39e81f3d7fb
      else if r == 1 then 0x7ce339829b2fff87348e4344c4dee9cb
      else if r == 2 then 0x547b9432a6c2233dee4c950b42fac34e
      else if r == 3 then 0x082ea16628d924b2765ba2496d8bd125
      else if r == 4 then 0x72f8f66486689816d4a45ccc5d65b692
      else if r == 5 then 0x6c704850fdedb9da5e154657a78d9d84
      else if r == 6 then 0x90d8ab008cbcd30af7e45805b8b34506
      else 0xd02c1e8fca3f0f02c1afbd0301138a6b
    else
      if r == 8 then 0x3a9111414f67dcea97f2cfcef0b4e673
      else if r == 9 then 0x96ac7422e7ad3585e2f937e81c75df6e
      else if r == 10 then 0x47f11a711d29c5896fb7620eaa18be1b
      else if r == 11 then 0xfc563e4bc6d279209adbc0fe78cd5af4
      else if r == 12 then 0x1fdda8338807c731b11210592780ec5f
      else if r == 13 then 0x60517fa919b54a0d2de57a9f93c99cef
      else if r == 14 then 0xa0e03b4dae2af5b0c8ebbb3c83539961
      else 0x172b047eba77d626e169146355210c7d
  }

  function Sub(x: Byte): Byte {
    Pick(SboxRow(x.v >> 4), x.v & 0x0F)
  }

  function InvSub(x: Byte): Byte {
    Pick(IsboxRow(x.v >> 4), x.v & 0x0F)
  }

  lemma LowHalf(x: Byte)
    requires x.v < 0x80
    ensures InvSub(Sub(x)) == x
  {}

  lemma ThirdQuarter(x: Byte)
    requires 0x80 <= x.v < 0xC0
    ensures InvSub(Sub(x)) == x
  {}

  lemma SeventhEighth(x: Byte)
    requires 0xC0 <= x.v < 0xE0
    ensures InvSub(Sub(x)) == x
  {}

  lemma LastEighth(x: Byte)
    requires x.v >= 0xE0
    ensures InvSub(Sub(x)) == x
  {}

  lemma InverseLowHalf(x: Byte)
    requires x.v < 0x80
    ensures Sub(InvSub(x)) == x
  {}

  lemma InverseHighHalf(x: Byte)
    requires x.v >= 0x80
    ensures Sub(InvSub(x)) == x
  {}

  /** The two tables are permutations of the octets, each the inverse of the
      other. */
  lemma MutualInverses(x: Byte)
    ensures InvSub(Sub(x)) == x && Sub(InvSub(x)) == x
  {
    if x.v < 0x80 {
      LowHalf(x);
      InverseLowHalf(x);
    } else {
      if x.v < 0xC0 { ThirdQuarter(x); } else if x.v < 0xE0 { SeventhEighth(x); } else { LastEighth(x); }
      InverseHighHalf(x);
    }
  }

  // ------------------------------------------------------------------
  // Which permutation it is.

  /** The affine map over the bits of an octet, and its inverse. */
  function Affine(z: Byte): Byte {
    Byte(z.v ^ z.v.RotateLeft(1) ^ z.v.RotateLeft(2) ^ z.v.RotateLeft(3) ^ z.v.RotateLeft(4) ^ 0x63)
  }

  function Unaffine(y: Byte): Byte {
    Byte(y.v.RotateLeft(1) ^ y.v.RotateLeft(3) ^ y.v.RotateLeft(6) ^ 0x05)
  }

  lemma AffineUndone(y: Byte)
    ensures Affine(Unaffine(y)) == y
  {}

  /** What the table has for x is, before the affine map, the inverse of x. */
  predicate Inverted(x: Byte) {
    Dot(x, Unaffine(Sub(x))) == ONE
  }

  lemma InvertedFirst(x: Byte)
    requires 0 < x.v < 0x20
    ensures Inverted(x)
  {}

  lemma InvertedSecond(x: Byte)
    requires 0x20 <= x.v < 0x40
    ensures Inverted(x)
  {}

  lemma InvertedThird(x: Byte)
    requires 0x40 <= x.v < 0x50
    ensures Inverted(x)
  {}

  lemma InvertedFourth(x: Byte)
    requires 0x50 <= x.v < 0x60
    ensures Inverted(x)
  {}

  lemma InvertedFifth(x: Byte)
    requires 0x60 <= x.v < 0x70
    ensures Inverted(x)
  {}

  lemma InvertedSixth(x: Byte)
    requires 0x70 <= x.v < 0x80
    ensures Inverted(x)
  {}

  lemma InvertedSeventh(x: Byte)
    requires 0x80 <= x.v < 0xA0
    ensures Inverted(x)
  {}

  lemma InvertedEighth(x: Byte)
    requires 0xA0 <= x.v < 0xC0
    ensures Inverted(x)
  {}

  lemma InvertedNinth(x: Byte)
    requires 0xC0 <= x.v < 0xD0
    ensures Inverted(x)
  {}

  lemma InvertedTenth(x: Byte)
    requires 0xD0 <= x.v < 0xE0
    ensures Inverted(x)
  {}

  lemma InvertedEleventh(x: Byte)
    requires 0xE0 <= x.v < 0xF0
    ensures Inverted(x)
  {}

  lemma InvertedLast(x: Byte)
    requires x.v >= 0xF0
    ensures Inverted(x)
  {}

  /** The table is the affine image of the inverse in the field, with 63 for zero. */
  lemma SubExactly(x: Byte)
    ensures Sub(ZERO) == Byte(0x63)
    ensures x != ZERO ==> exists z :: Dot(x, z) == ONE && Sub(x) == Affine(z)
  {
    hide Sub, Dot, Affine, Unaffine;
    ZeroSubstituted();
    AffineUndone(Sub(x));
    if x.v < 0x80 {
      if x == ZERO {
      } else if x.v < 0x20 { InvertedFirst(x);
      } else if x.v < 0x40 { InvertedSecond(x);
      } else if x.v < 0x50 { InvertedThird(x);
      } else if x.v < 0x60 { InvertedFourth(x);
      } else if x.v < 0x70 { InvertedFifth(x);
      } else { InvertedSixth(x); }
    } else {
      if x.v < 0xA0 { InvertedSeventh(x);
      } else if x.v < 0xC0 { InvertedEighth(x);
      } else if x.v < 0xD0 { InvertedNinth(x);
      } else if x.v < 0xE0 { InvertedTenth(x);
      } else if x.v < 0xF0 { InvertedEleventh(x);
      } else { InvertedLast(x); }
    }
  }

  lemma ZeroSubstituted()
    ensures Sub(ZERO) == Byte(0x63)
  {}
}
