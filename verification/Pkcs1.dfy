/** PKCS #1 v1.5 encryption blocks (section 7.2 of RFC 8017): the padding, the
    trip of a block through an integer, and the 8-bit search that undoes it. */
module Pkcs1 {
  import opened Arithmetic
  import opened Outcome
  import opened Words
  import opened BigIntegers
  import opened Octets
  import Exponentiation
  import Polynomial
  import Euclid
  import Rsa
  import NumberTheory

  /** Fills PS with octets that are not zero: the first draw where it is not
      zero, and otherwise the first later draw for that place that is not. */
  method FillNonZero(PS: array<Octet>, first: seq<Octet>, redraws: seq<seq<Octet>>)
    requires |first| == |redraws| == PS.Length
    requires forall i | 0 <= i < |first| && first[i] == 0 :: exists j :: 0 <= j < |redraws[i]| && redraws[i][j] != 0
    modifies PS
    ensures forall i | 0 <= i < PS.Length :: PS[i] != 0 && (first[i] != 0 ==> PS[i] == first[i])
  {
    for i := 0 to PS.Length
      invariant forall k | 0 <= k < i :: PS[k] == first[k]
    {
      PS[i] := first[i];
    }
    for i := 0 to PS.Length
      invariant forall k | 0 <= k < i :: PS[k] != 0 && (first[k] != 0 ==> PS[k] == first[k])
      invariant forall k | i <= k < PS.Length :: PS[k] == first[k]
    {
      var draw := 0;
      ghost var before := PS[..];
      while PS[i] == 0
        invariant forall k | 0 <= k < PS.Length && k != i :: PS[k] == before[k]
        invariant draw <= |redraws[i]|
        invariant PS[i] == 0 ==> first[i] == 0 && forall j | 0 <= j < draw :: redraws[i][j] == 0
        invariant first[i] != 0 ==> PS[i] == first[i]
        decreases |redraws[i]| - draw
      {
        PS[i] := redraws[i][draw];
        draw := draw + 1;
      }
    }
  }

  /** The block 0x00 0x02 PS 0x00 M. */
  function Block(PS: seq<Octet>, M: seq<Octet>): seq<Octet> {
    [0, 2] + PS + [0] + M
  }

  /** Where the unpadding search of a block ends: one past its first zero octet
      after the second, as the 8-bit counter counts. A zero beyond octet 255 is
      not reached: the counter wraps to the leading zero octet instead. */
  function MessageStart(zero: nat): nat {
    if zero <= 255 then (zero + 1) % 256 else 1
  }

  /** The first zero octet from position i on, or the end. */
  function FirstZero(s: seq<Octet>, i: nat): (z: nat)
    requires i <= |s|
    ensures i <= z <= |s| && (z < |s| ==> s[z] == 0)
    ensures forall k | i <= k < z :: s[k] != 0
    decreases |s| - i
  {
    if i == |s| || s[i] == 0 then i else FirstZero(s, i + 1)
  }

  /** What the decryption makes of a block. For a block of fewer than 256 octets
      without a zero octet the search leaves the buffer, which the source does
      not check. */
  function Unpadded(EM: seq<Octet>): Result<seq<Octet>>
    requires |EM| >= 2
  {
    var zero := FirstZero(EM, 2);
    if EM[0] != 0 || EM[1] != 2 then Throw(DecryptionError)
    else if zero == |EM| && |EM| < 256 then Throw(OutsideBuffer)
    else Ok(EM[MessageStart(zero)..])
  }

  /** The checks and the search of the decryption, with its 8-bit counter. */
  method Unpad(EM: array<Octet>) returns (r: Result<seq<Octet>>)
    requires EM.Length >= 2
    ensures r == Unpadded(EM[..])
  {
    if EM[0] != 0 {
      return Throw(DecryptionError);
    }
    if EM[1] != 2 {
      return Throw(DecryptionError);
    }
    ghost var zero := FirstZero(EM[..], 2);
    var counter: Octet := 2;
    while counter < EM.Length && EM[counter] != 0
      invariant if counter == 0 then zero > 255 else 2 <= counter <= zero
      decreases if counter == 0 then 0 else 256 - counter
    {
      counter := (counter + 1) % 256;
    }
    if counter >= EM.Length {
      return Throw(OutsideBuffer);
    }
    counter := (counter + 1) % 256;
    return Ok(EM[counter..]);
  }

  /** Unpadding gives the message back exactly when the 8-bit counter can stand
      one past the padding. */
  lemma UnpadBlock(PS: seq<Octet>, M: seq<Octet>)
    requires 0 !in PS
    ensures Unpadded(Block(PS, M)) == Ok(M) <==> |Block(PS, M)| - |M| <= 255
  {
    var block := Block(PS, M);
    var z := FirstZero(block, 2);
    assert block[|PS| + 2] == 0;
    assert forall k | 2 <= k < |PS| + 2 :: block[k] == PS[k - 2];
    assert z == |PS| + 2;
    assert block[|PS| + 3..] == M;
  }

  /** A buffer that does not begin with 00 02 is refused, and no other. */
  lemma RejectedExactly(EM: seq<Octet>)
    requires |EM| >= 2
    ensures Unpadded(EM) == Throw(DecryptionError) <==> !([0, 2] <= EM)
  {}

  /** In a buffer that begins so the first zero octet ends the padding if the 8-bit
      counter can stand on it; on the last such place the whole buffer comes out, and
      past it all but the first octet. Without a zero octet a buffer of fewer than 256 is
      read past its end. */
  lemma UnpaddedExactly(EM: seq<Octet>, zero: nat)
    requires [0, 2] <= EM && 2 <= zero <= |EM| && 0 !in EM[2..zero] && (zero < |EM| ==> EM[zero] == 0)
    ensures zero < |EM| && zero <= 254 ==> Unpadded(EM) == Ok(EM[zero + 1..])
    ensures zero < |EM| && zero == 255 ==> Unpadded(EM) == Ok(EM)
    ensures zero >= 256 ==> Unpadded(EM) == Ok(EM[1..])
    ensures zero == |EM| < 256 ==> Unpadded(EM) == Throw(OutsideBuffer)
  {
    assert forall k | 2 <= k < zero :: EM[k] == EM[2..zero][k - 2];
    assert FirstZero(EM, 2) == zero;
  }

  /** So a buffer of fewer than 256 octets gives a message exactly when it is a block of
      it, and is read past its end exactly when no zero octet ends its padding. */
  lemma UnpaddedBlocks(EM: seq<Octet>, M: seq<Octet>)
    requires 2 <= |EM| < 256
    ensures Unpadded(EM) == Ok(M) <==> exists PS :: 0 !in PS && EM == Block(PS, M)
    ensures Unpadded(EM) == Throw(OutsideBuffer) <==> [0, 2] <= EM && 0 !in EM[2..]
  {
    UnpaddedShort(EM);
    hide Unpadded, Block;
    if PS :| 0 !in PS && EM == Block(PS, M) {
      BlockLength(PS, M);
      UnpadBlock(PS, M);
    }
  }

  lemma BlockLength(PS: seq<Octet>, M: seq<Octet>)
    ensures |Block(PS, M)| == |PS| + |M| + 3
  {}

  lemma UnpaddedShort(EM: seq<Octet>)
    requires 2 <= |EM| < 256
    ensures Unpadded(EM).Ok? ==> exists PS :: 0 !in PS && EM == Block(PS, Unpadded(EM).value)
    ensures Unpadded(EM) == Throw(OutsideBuffer) <==> [0, 2] <= EM && 0 !in EM[2..]
  {
    var zero := FirstZero(EM, 2);
    if [0, 2] <= EM && zero < |EM| { BlockAround(EM, zero); }
  }

  lemma BlockAround(EM: seq<Octet>, zero: nat)
    requires [0, 2] <= EM && 2 <= zero < |EM| && EM[zero] == 0 && forall k | 2 <= k < zero :: EM[k] != 0
    ensures 0 !in EM[2..zero] && EM == Block(EM[2..zero], EM[zero + 1..]) && 0 in EM[2..]
  {
    assert forall k | 0 <= k < zero - 2 :: EM[2..zero][k] == EM[k + 2];
    assert EM[2..][zero - 2] == 0;
  }

  method EncodeBlock(M: seq<Octet>, first: seq<Octet>, redraws: seq<seq<Octet>>, EM: array<Octet>)
    returns (ghost PS: seq<Octet>)
    requires |M| + 11 <= EM.Length
    requires |first| == |redraws| == EM.Length - |M| - 3
    requires forall i | 0 <= i < |first| && first[i] == 0 :: exists j :: 0 <= j < |redraws[i]| && redraws[i][j] != 0
    modifies EM
    ensures |PS| == |first| && 0 !in PS && EM[..] == Block(PS, M)
  {
    var psLen := EM.Length - |M| - 3;
    var padding := new Octet[psLen];
    FillNonZero(padding, first, redraws);
    EM[0] := 0;
    EM[1] := 2;
    forall i | 0 <= i < psLen { EM[2 + i] := padding[i]; }
    EM[2 + psLen] := 0;
    forall i | 0 <= i < |M| { EM[2 + psLen + 1 + i] := M[i]; }
    PS := padding[..];
    assert EM[..] == Block(PS, M);
  }

  /** Writes x at the front of X and leaves the rest of X alone: a number with
      leading zero words is not padded on the left. */
  method I2OSP(x: BigInt, X: array<Octet>) returns (r: Result<()>)
    requires !x.Sign() && X.Length % 4 == 0 && X.Length < 0x8000_0000_0000_0000
    modifies X
    ensures r.Ok? <==> x.Int() < Pow(256, X.Length)
    ensures r.Ok? ==> 4 * Len(x.a) <= X.Length && OctetVal(X[..4 * Len(x.a)]) == x.Int()
    ensures r.Ok? ==> X[4 * Len(x.a)..] == old(X[4 * Len(x.a)..])
    ensures r.Throw? ==> r.error == OutOfRange && X[..] == old(X[..])
  {
    var bound := Exponentiation.Power(Small(256).a, Polynomial.FromUInt64(X.Length));
    var order := BigIntegers.Cmp(x, BigInt(bound, false));
    Magnitude(Small(256));
    Magnitude(BigInt(bound, false));
    if order != -1 {
      return Throw(OutOfRange);
    }
    var octets := ToOctets(x, false);
    Fits(x, X.Length);
    forall i | 0 <= i < |octets| { X[i] := octets[i]; }
    assert X[..|octets|] == octets;
    return Ok(());
  }

  lemma Fits(x: BigInt, k: nat)
    requires k % 4 == 0 && 0 <= x.Int() < Pow(256, k)
    ensures 4 * Len(x.a) <= k
  {
    Magnitude(x);
    OctetWeight(k / 4);
    LenIff(x.a, k / 4);
  }

  /** The second octet of a block keeps the top word of its integer non-zero. */
  lemma BlockFillsWords(EM: seq<Octet>)
    requires |EM| >= 4 && |EM| % 4 == 0 && EM[0] == 0 && EM[1] == 2
    ensures Weight(|EM| / 4 - 1) <= OctetVal(EM) < Pow(256, |EM| - 1)
  {
    hide OctetVal, Weight;
    var tail := EM[2..];
    assert EM == [0, 2] + tail;
    OctetValConcat([0, 2], tail);
    ZeroTwo();
    OctetValBound(tail);
    OctetWeight(|EM| / 4 - 1);
    PowMonotone(256, 4 * (|EM| / 4 - 1), |tail|);
    assert Pow(256, |tail| + 1) == 256 * Pow(256, |tail|);
  }

  lemma ZeroTwo()
    ensures OctetVal([0, 2]) == 2
  {
    assert [0, 2][..1] == [0] && [0][..0] == [];
    assert OctetVal([0]) == OctetVal([]) * 256 + 0;
  }

  /** RSAES-PKCS1-v1_5 encryption into the buffer C, whose length is k. */
  method Encrypt(n: BigInt, e: BigInt, M: seq<Octet>, first: seq<Octet>, redraws: seq<seq<Octet>>, C: array<Octet>)
    returns (r: Result<()>, ghost PS: seq<Octet>, ghost c: int)
    requires Len(n.a) < LIMIT && e.Int() > 0
    requires C.Length % 4 == 0 && C.Length < 0x8000_0000_0000_0000 && n.Int() < Pow(256, C.Length)
    requires |M| + 11 <= C.Length ==> |first| == |redraws| == C.Length - |M| - 3
    requires forall i | 0 <= i < |first| && i < |redraws| && first[i] == 0 ::
               exists j :: 0 <= j < |redraws[i]| && redraws[i][j] != 0
    modifies C
    ensures r == Throw(TooLong) <==> |M| + 11 > C.Length
    ensures |M| + 11 <= C.Length ==> |PS| == |first| && 0 !in PS
    ensures |M| + 11 <= C.Length ==> (r == Throw(OutOfRange) <==> OctetVal(Block(PS, M)) >= n.Int())
    ensures r.Throw? ==> r.error == TooLong || r.error == OutOfRange
    ensures r.Ok? ==> c == Pow(OctetVal(Block(PS, M)), e.Int()) % n.Int()
    ensures r.Ok? ==> c >= 0 && (c > 0 ==> (OctetVal(C[..]) == c <==> Weight(C.Length / 4 - 1) <= c))
  {
    hide OctetVal, Weight, Block;
    c := 0;
    PS := [];
    if |M| > C.Length - 11 {
      r := Throw(TooLong);
      return;
    }
    var EM := new Octet[C.Length];
    PS := EncodeBlock(M, first, redraws, EM);
    var m := FromOctets(EM[..], false);
    var power := Rsa.Primitive(n, e, m);
    if power.Throw? {
      r := Throw(power.error);
      return;
    }
    c := power.value.Int();
    Rsa.ModRange(Pow(m.Int(), e.Int()), n.Int());
    r := I2OSP(power.value, C);
    Magnitude(power.value);
    LenIff(power.value.a, C.Length / 4 - 1);
    if r.Ok? && c > 0 { ReadBack(C[..], 4 * Len(power.value.a), c); }
  }

  /** Octets left over after a number that does not fill its buffer are read back
      as part of it. */
  lemma ReadBack(C: seq<Octet>, used: nat, c: nat)
    requires used <= |C| && c > 0 && OctetVal(C[..used]) == c
    ensures OctetVal(C) == c <==> used == |C|
  {
    assert C == C[..used] + C[used..];
    OctetValConcat(C[..used], C[used..]);
    if used < |C| {
      PowMonotone(256, 1, |C[used..]|);
      ScaleInequality(1, Pow(256, |C[used..]|) - 1, c);
      Distribute(Pow(256, |C[used..]|), -1, c);
      Commute(c, Pow(256, |C[used..]|));
      assert Pow(256, 1) == 256;
    }
  }

  /** A buffer of k octets with the words of m, and no more of them, at its front. */
  ghost predicate LeftOver(buffer: seq<Octet>, used: nat, k: nat, m: int) {
    && |buffer| == k && used <= k && used % 4 == 0 && OctetVal(buffer[..used]) == m
    && (used > 0 ==> Weight(used / 4 - 1) <= m)
  }

  /** The result of unpadding the k octets that stand for m, if these are a block or fill
      all their words. */
  ghost predicate UnpadsFull(r: Result<seq<Octet>>, k: nat, m: int)
    requires k >= 11
  {
    forall EM: seq<Octet> | |EM| == k && OctetVal(EM) == m && (Weight(k / 4 - 1) <= m || (EM[0] == 0 && EM[1] == 2)) ::
      r == Unpadded(EM)
  }

  /** RSAES-PKCS1-v1_5 decryption of the buffer C. A representative that fills all words
      of the buffer, as that of every block does, is unpadded as the octets it stands
      for. A shorter one is unpadded with the octets that it leaves over: they are not
      written, and any. */
  method Decrypt(n: BigInt, d: BigInt, C: array<Octet>)
    returns (r: Result<seq<Octet>>, ghost buffer: seq<Octet>, ghost used: nat)
    requires Len(n.a) < LIMIT && d.Int() > 0
    requires C.Length % 4 == 0 && C.Length < 0x8000_0000_0000_0000
    ensures C.Length < 11 || OctetVal(C[..]) >= n.Int() ==> r == Throw(DecryptionError)
    ensures C.Length >= 11 && OctetVal(C[..]) < n.Int()
            ==> var m := Pow(OctetVal(C[..]), d.Int()) % n.Int();
                && UnpadsFull(r, C.Length, m)
                && (m >= Pow(256, C.Length) ==> r == Throw(OutOfRange))
                && (m < Pow(256, C.Length) ==> LeftOver(buffer, used, C.Length, m) && r == Unpadded(buffer))
  {
    buffer, used := [], 0;
    if C.Length < 11 {
      r := Throw(DecryptionError);
      return;
    }
    hide OctetVal, Weight, Unpadded, Len, Pow, LeftOver, UnpadsFull;
    var c := FromOctets(C[..], false);
    var m := Rsa.Primitive(n, d, c);
    if m.Throw? {
      r := Throw(DecryptionError);
      return;
    }
    var EM := new Octet[C.Length];
    var written := I2OSP(m.value, EM);
    if written.Throw? {
      r := Throw(written.error);
    } else {
      buffer, used := EM[..], 4 * Len(m.value.a);
      WordsUsed(m.value, buffer, used);
      r := Unpad(EM);
    }
    Determined(buffer, used, C.Length, m.value.Int(), r);
  }

  lemma WordsUsed(x: BigInt, buffer: seq<Octet>, used: nat)
    requires !x.Sign() && used == 4 * Len(x.a) <= |buffer| && OctetVal(buffer[..used]) == x.Int()
    ensures LeftOver(buffer, used, |buffer|, x.Int())
  {
    Magnitude(x);
    if used > 0 { LenIff(x.a, used / 4 - 1); }
  }

  /** A number that fills all words of a buffer determines its octets. */
  lemma FilledByNumber(buffer: seq<Octet>, used: nat, m: nat, full: seq<Octet>)
    requires LeftOver(buffer, used, |full|, m) && |full| > 0 && |full| % 4 == 0
    requires OctetVal(full) == m && Weight(|full| / 4 - 1) <= m
    ensures buffer == full
  {
    hide OctetVal, Weight;
    OctetValBound(buffer[..used]);
    OctetWeight(|full| / 4 - 1);
    if used < |full| {
      PowMonotone(256, used, 4 * (|full| / 4 - 1));
    }
    assert buffer[..used] == buffer;
    OctetValInjective(buffer, full);
  }

  lemma Determined(buffer: seq<Octet>, used: nat, k: nat, m: nat, r: Result<seq<Octet>>)
    requires k >= 11 && k % 4 == 0
    requires m < Pow(256, k) ==> LeftOver(buffer, used, k, m) && r == Unpadded(buffer)
    ensures UnpadsFull(r, k, m)
  {
    hide OctetVal, Weight, Unpadded, LeftOver;
    forall EM: seq<Octet> | |EM| == k && OctetVal(EM) == m && (Weight(k / 4 - 1) <= m || (EM[0] == 0 && EM[1] == 2))
      ensures r == Unpadded(EM)
    {
      OctetValBound(EM);
      if EM[0] == 0 && EM[1] == 2 { BlockFillsWords(EM); }
      FilledByNumber(buffer, used, m, EM);
    }
  }

  /** A key pair, as RsaIdentity and GenerateKey make one. */
  ghost predicate KeyPair(n: int, e: nat, d: nat) {
    n > 0 && e > 0 && d > 0 && forall x: nat | x < n :: Pow(Pow(x, e) % n, d) % n == x
  }

  /** Every key generated from two distinct primes is one. */
  lemma GeneratedKeyPair(p: nat, q: nat, e: nat, d: int, l: nat)
    requires NumberTheory.Prime(p) && NumberTheory.Prime(q) && p != q
    requires l > 0 && IsLcm(l, p - 1, q - 1) && Euclid.IsInverse(d, e, l)
    ensures p * q > 0 && d > 0 && KeyPair(p * q, e, d)
  {
    Rsa.KeyExponents(l, p, q, e, d);
    MulNonNegative(p - 1, q - 1);
    NumberTheory.Expand2(p, q);
    forall x: nat | x < p * q ensures Pow(Pow(x, e) % (p * q), d) % (p * q) == x {
      NumberTheory.RsaIdentity(p, q, l, e, d, x);
    }
  }

  /** The other way round the exponents undo each other as well, so no two
      representatives have the same power. */
  lemma PowersDiffer(n: nat, e: nat, d: nat, x: nat, y: nat)
    requires KeyPair(n, e, d) && x < n && y < n && Pow(x, d) % n == Pow(y, d) % n
    ensures x == y
  {
    OtherWayRound(n, e, d, x);
    OtherWayRound(n, e, d, y);
  }

  lemma OtherWayRound(n: nat, e: nat, d: nat, x: nat)
    requires KeyPair(n, e, d) && x < n
    ensures Pow(Pow(x, d) % n, e) % n == x
  {
    ModIdempotent(Pow(x, d), n);
    ModIdempotent(Pow(x, e), n);
    CongruentPow(Pow(x, d) % n, Pow(x, d), e, n);
    CongruentPow(Pow(x, e) % n, Pow(x, e), d, n);
    PowMul(x, d, e);
    PowMul(x, e, d);
    Commute(d, e);
  }

  /** A ciphertext that is read back as another number than it is. */
  lemma MisreadDiffers(n: nat, e: nat, d: nat, block: nat, c: nat, read: nat)
    requires KeyPair(n, e, d) && 0 < block < n && c == Pow(block, e) % n
    ensures c > 0
    ensures read < n && read != c ==> Pow(read, d) % n != block
  {
    Rsa.ModRange(Pow(block, e), n);
    DivModUnique(0, n, 0, 0);
    assert Pow(c, d) % n == block;
    if read < n && Pow(read, d) % n == block { PowersDiffer(n, e, d, read, c); }
  }

  /** Encrypting and then decrypting gives the message back exactly when the
      padding ends within reach of the 8-bit counter, given a ciphertext whose
      integer fills all words of the buffer. By the last clause of Encrypt those are
      exactly the ciphertexts that can be read back from their buffer. Any other is
      read as another number: the decryption fails at once when that is not below n, and
      goes on with a representative that is not the block's when it is. */
  method EncryptThenDecrypt(n: BigInt, e: BigInt, d: BigInt, M: seq<Octet>, first: seq<Octet>,
                            redraws: seq<seq<Octet>>, C: array<Octet>)
    returns (r: Result<seq<Octet>>, ghost c: int, ghost PS: seq<Octet>)
    requires Len(n.a) < LIMIT && e.Int() > 0 && d.Int() > 0 && KeyPair(n.Int(), e.Int(), d.Int())
    requires C.Length % 4 == 0 && C.Length < 0x8000_0000_0000_0000
    requires C.Length > 0 && Pow(256, C.Length - 1) <= n.Int() < Pow(256, C.Length)
    requires |M| + 11 <= C.Length && |first| == |redraws| == C.Length - |M| - 3
    requires forall i | 0 <= i < |first| && first[i] == 0 ::
               exists j :: 0 <= j < |redraws[i]| && redraws[i][j] != 0
    modifies C
    ensures |PS| == |first| && 0 !in PS && c == Pow(OctetVal(Block(PS, M)), e.Int()) % n.Int() > 0
    ensures Weight(C.Length / 4 - 1) <= c ==> (r == Ok(M) <==> C.Length - |M| <= 255)
    ensures c < Weight(C.Length / 4 - 1)
            ==> if OctetVal(C[..]) >= n.Int() then r == Throw(DecryptionError)
                else
                  var m := Pow(OctetVal(C[..]), d.Int()) % n.Int();
                  m != OctetVal(Block(PS, M))
                  && exists buffer, used :: LeftOver(buffer, used, C.Length, m) && r == Unpadded(buffer)
  {
    var sent;
    sent, PS, c := Encrypt(n, e, M, first, redraws, C);
    ghost var block := Block(PS, M);
    BlockFillsWords(block);
    UnpadBlock(PS, M);
    Rsa.ModRange(Pow(OctetVal(block), e.Int()), n.Int());
    MisreadDiffers(n.Int(), e.Int(), d.Int(), OctetVal(block), c, OctetVal(C[..]));
    ghost var buffer, used;
    r, buffer, used := Decrypt(n, d, C);
    Rsa.ModRange(Pow(OctetVal(C[..]), d.Int()), n.Int());
  }
}
