/** The base-N codec of RFC 4648 for 4, 5 and 6 bits per character. An encoding is
    described by the number its characters stand for, so what is proved does not
    follow the grouping of the encoder nor the carrying of the decoder. */
module BaseCodec {
  import opened Arithmetic
  import opened Outcome
  import opened Words
  import opened Octets
  import opened Shifts
  import Polynomial

  const PADDING: Octet := 61

  function GroupIn(bits: nat): nat {
    if bits == 6 then 3 else if bits == 5 then 5 else 1
  }

  function GroupOut(bits: nat): nat {
    if bits == 6 then 4 else if bits == 5 then 8 else 2
  }

  function EncodedSize(length: nat, bits: nat): nat {
    if bits == 6 then (length + 2) / 3 * 4 else if bits == 5 then (length + 4) / 5 * 8 else length * 2
  }

  function DecodedSize(length: nat, bits: nat): nat {
    length * bits / 8
  }

  /** An alphabet the codec is given: as many distinct characters as there are
      values, none of them the padding. */
  ghost predicate Alphabet(alphabet: seq<Octet>, bits: nat) {
    && 4 <= bits <= 6 && |alphabet| == Pow2(bits) && PADDING !in alphabet
    && forall i, j | 0 <= i < j < |alphabet| :: alphabet[i] != alphabet[j]
  }

  // ------------------------------------------------------------------
  // What characters stand for.

  /** Digits of the given width, most significant first. */
  ghost predicate Digits(ds: seq<nat>, bits: nat) {
    forall k | 0 <= k < |ds| :: ds[k] < Pow2(bits)
  }

  ghost function DigitVal(ds: seq<nat>, bits: nat): nat {
    if ds == [] then 0
    else
      MulNonNegative(DigitVal(ds[..|ds| - 1], bits), Pow2(bits));
      DigitVal(ds[..|ds| - 1], bits) * Pow2(bits) + ds[|ds| - 1]
  }

  lemma DigitAppend(ds: seq<nat>, d: nat, bits: nat)
    ensures DigitVal(ds, bits) * Pow2(bits) >= 0
    ensures DigitVal(ds + [d], bits) == DigitVal(ds, bits) * Pow2(bits) + d
  {
    assert (ds + [d])[..|ds|] == ds;
    MulNonNegative(DigitVal(ds, bits), Pow2(bits));
  }

  /** The bits of n digits, added up. */
  ghost function Width(bits: nat, n: nat): nat {
    if n == 0 then 0 else Width(bits, n - 1) + bits
  }

  lemma {:induction false} WidthIs(bits: nat, n: nat)
    ensures bits * n == Width(bits, n)
  {
    if n > 0 {
      WidthIs(bits, n - 1);
      MulSuccessor(bits, n);
    }
  }

  lemma {:induction false} DigitsConcat(a: seq<nat>, b: seq<nat>, bits: nat)
    ensures DigitVal(a + b, bits) == DigitVal(a, bits) * Pow2(Width(bits, |b|)) + DigitVal(b, bits)
    decreases |b|
  {
    assert DigitVal([], bits) == 0 && Pow2(0) == 1;
    hide DigitVal, Pow2;
    if b == [] {
      assert a + b == a;
    } else {
      var c, d := b[..|b| - 1], b[|b| - 1];
      DigitsConcat(a, c, bits);
      DigitConcatStep(a, c, d, bits, Width(bits, |c|));
      assert a + b == (a + c) + [d] && b == c + [d];
    }
  }

  lemma DigitConcat(a: seq<nat>, b: seq<nat>, bits: nat)
    ensures bits * |b| >= 0 && DigitVal(a, bits) * Pow2(bits * |b|) >= 0
    ensures DigitVal(a + b, bits) == DigitVal(a, bits) * Pow2(bits * |b|) + DigitVal(b, bits)
  {
    hide DigitVal, Pow2;
    WidthIs(bits, |b|);
    DigitsConcat(a, b, bits);
    MulNonNegative(DigitVal(a, bits), Pow2(bits * |b|));
  }

  lemma DigitConcatStep(a: seq<nat>, c: seq<nat>, d: nat, bits: nat, p: nat)
    requires DigitVal(a + c, bits) == DigitVal(a, bits) * Pow2(p) + DigitVal(c, bits)
    ensures DigitVal((a + c) + [d], bits) == DigitVal(a, bits) * Pow2(p + bits) + DigitVal(c + [d], bits)
  {
    hide DigitVal, Pow2;
    DigitAppend(a + c, d, bits);
    DigitAppend(c, d, bits);
    Pow2Add(p, bits);
    RaiseBoth(DigitVal(a, bits), Pow2(p), DigitVal(c, bits), Pow2(bits));
  }

  lemma RaiseBoth(x: int, w: int, y: int, p: int)
    ensures (x * w + y) * p == x * (w * p) + y * p
  {
    Distribute(x * w, y, p);
    Associate(x, w, p);
  }

  /** How many characters carry bits of n octets. */
  function Carrying(n: nat, bits: nat): nat
    requires bits > 0
  {
    (8 * n + bits - 1) / bits
  }

  /** The characters of an encoding, padding aside: as few as hold all bits, and
      standing for the octets with zero bits after them. */
  ghost predicate Represents(ds: seq<nat>, input: seq<Octet>, bits: nat)
    requires bits > 0
  {
    && Digits(ds, bits) && |ds| == Carrying(|input|, bits)
    && bits * |ds| >= 8 * |input|
    && DigitVal(ds, bits) == OctetVal(input) * Pow2(bits * |ds| - 8 * |input|)
  }

  ghost function Characters(alphabet: seq<Octet>, ds: seq<nat>): (r: seq<Octet>)
    requires forall k | 0 <= k < |ds| :: ds[k] < |alphabet|
    ensures |r| == |ds|
  {
    seq(|ds|, k requires 0 <= k < |ds| => alphabet[ds[k]])
  }

  ghost function Pad(n: nat): seq<Octet> {
    seq(n, _ => PADDING)
  }

  /** An encoding: the characters, then padding up to the encoded size. */
  ghost predicate Encodes(alphabet: seq<Octet>, bits: nat, input: seq<Octet>, ds: seq<nat>, out: seq<Octet>)
    requires Alphabet(alphabet, bits)
  {
    && Represents(ds, input, bits) && |ds| <= EncodedSize(|input|, bits)
    && out == Characters(alphabet, ds) + Pad(EncodedSize(|input|, bits) - |ds|)
  }

  // ------------------------------------------------------------------
  // Encoding.

  /** The digits above bit `rest` of a number of rest + bits * s bits. */
  ghost function TopDigits(x: nat, bits: nat, s: nat, rest: nat): (ds: seq<nat>)
    ensures |ds| == s && Digits(ds, bits)
    decreases s
  {
    if s == 0 then [] else TopDigits(x, bits, s - 1, rest + bits) + [Mask(Shr(x, rest), bits)]
  }

  /** Every digit is a shift and a mask. */
  lemma {:induction false} TopDigitAt(x: nat, bits: nat, s: nat, rest: nat, k: nat)
    requires k < s
    ensures rest + bits * (s - 1 - k) >= 0
    ensures TopDigits(x, bits, s, rest)[k] == Mask(Shr(x, rest + bits * (s - 1 - k)), bits)
    decreases s
  {
    MulNonNegative(bits, s - 1 - k);
    if k < s - 1 {
      TopDigitAt(x, bits, s - 1, rest + bits, k);
      assert bits * (s - 1 - k) == bits + bits * (s - 2 - k);
    } else {
      assert bits * (s - 1 - k) == 0;
    }
  }

  lemma {:induction false} TopDigitsVal(x: nat, bits: nat, s: nat, rest: nat)
    requires bits * s >= 0 && x < Pow2(rest + bits * s)
    ensures DigitVal(TopDigits(x, bits, s, rest), bits) == Shr(x, rest)
    decreases s
  {
    assert DigitVal([], bits) == 0;
    hide DigitVal, Pow2, Shr, Mask;
    if s == 0 {
      assert bits * s == 0;
      NothingAbove(x, rest);
    } else {
      MulSuccessor(bits, s);
      TopDigitsVal(x, bits, s - 1, rest + bits);
      NextDigit(x, bits, rest, TopDigits(x, bits, s - 1, rest + bits));
    }
  }

  lemma NextDigit(x: nat, bits: nat, rest: nat, ds: seq<nat>)
    requires DigitVal(ds, bits) == Shr(x, rest + bits)
    ensures DigitVal(ds + [Mask(Shr(x, rest), bits)], bits) == Shr(x, rest)
  {
    hide DigitVal, Pow2, Shr, Mask;
    DigitAppend(ds, Mask(Shr(x, rest), bits), bits);
    ShrShr(x, rest, bits);
    ShrMask(Shr(x, rest), bits);
  }

  lemma NothingAbove(x: nat, rest: nat)
    requires x < Pow2(rest)
    ensures Shr(x, rest) == 0
  {
    DivModUnique(x, Pow2(rest), 0, x);
  }

  lemma MulSuccessor(bits: nat, s: nat)
    requires s > 0
    ensures bits * s == bits + bits * (s - 1) && bits * (s - 1) >= 0
  {
    MulNonNegative(bits, s - 1);
  }

  lemma {:induction false} OctetsBelow(s: seq<Octet>)
    ensures OctetVal(s) < Pow2(8 * |s|)
  {
    OctetValBound(s);
    OctetPower(|s|);
  }

  lemma {:induction false} OctetPower(n: nat)
    ensures Pow(256, n) == Pow2(8 * n)
  {
    PowMul(2, 8, n);
    SmallPowers();
  }

  /** A group packed to the left: its octets and zeros after them. */
  method PackGroup(group: seq<Octet>, groupIn: nat) returns (accumulator: Polynomial.UInt64)
    requires |group| <= groupIn <= 5
    ensures OctetVal(group) * Pow2(8 * (groupIn - |group|)) >= 0
    ensures accumulator == OctetVal(group) * Pow2(8 * (groupIn - |group|)) < Pow2(8 * groupIn)
  {
    assert OctetVal([]) == 0;
    hide OctetVal, Pow2;
    accumulator := 0;
    ghost var packed: seq<Octet> := [];
    for j := 0 to groupIn
      invariant |packed| == j && accumulator == OctetVal(packed)
      invariant packed == if j <= |group| then group[..j] else group + seq(j - |group|, _ => 0)
    {
      var octet: Octet := if j < |group| then group[j] else 0;
      ghost var next := packed + [octet];
      assert next == if j < |group| then group[..j + 1] else group + seq(j + 1 - |group|, _ => 0);
      PackNext(packed, octet);
      accumulator := accumulator * 256 + octet;
      packed := next;
    }
    ghost var zeros: seq<Octet> := seq(groupIn - |group|, _ => 0);
    assert packed == group + zeros;
    PackedValue(group, zeros);
  }

  lemma PackNext(packed: seq<Octet>, octet: Octet)
    requires |packed| < 5
    ensures OctetVal(packed + [octet]) == OctetVal(packed) * 256 + octet < 0x100_0000_0000
  {
    OctetAppend(packed, octet);
    OctetValBound(packed + [octet]);
    PowMonotone(256, |packed| + 1, 5);
    FiveOctets();
  }

  /** Zero octets below a group multiply its value. */
  lemma PackedValue(group: seq<Octet>, zeros: seq<Octet>)
    requires forall i | 0 <= i < |zeros| :: zeros[i] == 0
    ensures OctetVal(group) * Pow2(8 * |zeros|) >= 0
    ensures OctetVal(group + zeros) == OctetVal(group) * Pow2(8 * |zeros|) < Pow2(8 * (|group| + |zeros|))
  {
    hide OctetVal, Pow2;
    OctetValConcat(group, zeros);
    ZeroOctets(zeros);
    OctetPower(|zeros|);
    OctetsBelow(group + zeros);
    MulNonNegative(OctetVal(group), Pow2(8 * |zeros|));
  }

  lemma FiveOctets()
    ensures Pow(256, 5) == 0x100_0000_0000
  {
    FourOctets();
    assert Pow(256, 5) == 256 * Pow(256, 4);
  }

  lemma {:induction false} ZeroOctets(s: seq<Octet>)
    requires forall i | 0 <= i < |s| :: s[i] == 0
    ensures OctetVal(s) == 0
  {
    if s != [] { ZeroOctets(s[..|s| - 1]); }
  }

  /** The character at place j of a packed group. */
  function GroupChar(alphabet: seq<Octet>, bits: nat, accumulator: nat, significant: nat, j: nat): Octet
    requires |alphabet| == Pow2(bits) && (j < significant ==> (j + 1) * bits <= 8 * GroupIn(bits))
  {
    if j < significant then alphabet[Mask(Shr(accumulator, GroupIn(bits) * 8 - (j + 1) * bits), bits)] else PADDING
  }

  ghost predicate GroupChars(alphabet: seq<Octet>, bits: nat, accumulator: nat, s: nat, chars: seq<Octet>)
    requires |alphabet| == Pow2(bits)
  {
    forall j | 0 <= j < |chars| ::
      (j < s ==> (j + 1) * bits <= 8 * GroupIn(bits)) && chars[j] == GroupChar(alphabet, bits, accumulator, s, j)
  }

  /** One turn of the encoder: the characters of a group that carry bits, then
      padding. */
  method EncodeGroup(alphabet: seq<Octet>, bits: nat, group: seq<Octet>, output: array<Octet>, out: nat)
    returns (ghost ds: seq<nat>)
    requires Alphabet(alphabet, bits) && 0 < |group| <= GroupIn(bits) && out + GroupOut(bits) <= output.Length
    modifies output
    ensures Represents(ds, group, bits) && |ds| <= GroupOut(bits)
    ensures output[..] == old(output[..out]) + Characters(alphabet, ds) + Pad(GroupOut(bits) - |ds|)
                          + old(output[out + GroupOut(bits)..])
  {
    var accumulator := PackGroup(group, GroupIn(bits));
    var significant := Carrying(|group|, bits);
    ghost var chars;
    ds, chars := GroupDigits(alphabet, group, bits, significant, accumulator);
    PutGroup(alphabet, bits, accumulator, significant, output, out, chars);
  }

  /** The loop that writes the characters of a group. */
  method PutGroup(alphabet: seq<Octet>, bits: nat, accumulator: nat, significant: nat, output: array<Octet>, out: nat,
                  ghost chars: seq<Octet>)
    requires |alphabet| == Pow2(bits) && out + GroupOut(bits) <= output.Length && |chars| == GroupOut(bits)
    requires GroupChars(alphabet, bits, accumulator, significant, chars)
    modifies output
    ensures output[..] == old(output[..out]) + chars + old(output[out + GroupOut(bits)..])
  {
    for j := 0 to GroupOut(bits)
      invariant forall k | 0 <= k < j :: output[out + k] == chars[k]
      invariant forall k | 0 <= k < output.Length && !(out <= k < out + j) :: output[k] == old(output[k])
    {
      ghost var expected := chars[j];
      output[out + j] := GroupChar(alphabet, bits, accumulator, significant, j);
    }
    assert output[out..out + GroupOut(bits)] == chars;
    assert output[..out] == old(output[..out]) && output[out + GroupOut(bits)..] == old(output[out + GroupOut(bits)..]);
  }

  /** What the characters of a packed group are and stand for. */
  lemma GroupDigits(alphabet: seq<Octet>, group: seq<Octet>, bits: nat, s: nat, accumulator: nat)
    returns (ds: seq<nat>, chars: seq<Octet>)
    requires Alphabet(alphabet, bits) && 0 < |group| <= GroupIn(bits) && s == Carrying(|group|, bits)
    requires OctetVal(group) * Pow2(8 * (GroupIn(bits) - |group|)) >= 0
    requires accumulator == OctetVal(group) * Pow2(8 * (GroupIn(bits) - |group|)) < Pow2(8 * GroupIn(bits))
    ensures Represents(ds, group, bits) && |ds| <= GroupOut(bits) == |chars|
    ensures chars == Characters(alphabet, ds) + Pad(GroupOut(bits) - |ds|)
    ensures GroupChars(alphabet, bits, accumulator, s, chars)
  {
    hide OctetVal, DigitVal, GroupChars, Pow2, TopDigits, Carrying;
    CarryingBounds(|group|, bits);
    var rest := PackedDigits(OctetVal(group), |group|, GroupIn(bits), bits, s, accumulator);
    ds := TopDigits(accumulator, bits, s, rest);
    chars := Characters(alphabet, ds) + Pad(GroupOut(bits) - |ds|);
    DigitChars(alphabet, bits, accumulator, s, rest, GroupOut(bits) - s);
  }

  lemma DigitChars(alphabet: seq<Octet>, bits: nat, x: nat, s: nat, rest: nat, pad: nat)
    requires |alphabet| == Pow2(bits) && rest + bits * s == 8 * GroupIn(bits)
    ensures GroupChars(alphabet, bits, x, s, Characters(alphabet, TopDigits(x, bits, s, rest)) + Pad(pad))
  {
    var chars := Characters(alphabet, TopDigits(x, bits, s, rest)) + Pad(pad);
    forall j | 0 <= j < |chars|
      ensures (j < s ==> (j + 1) * bits <= 8 * GroupIn(bits)) && chars[j] == GroupChar(alphabet, bits, x, s, j)
    {
      if j < s {
        ShiftAmount(GroupIn(bits), bits, s, rest, j);
        TopDigitAt(x, bits, s, rest, j);
      }
    }
  }

  lemma PackedDigits(g: nat, t: nat, groupIn: nat, bits: nat, s: nat, x: nat) returns (rest: nat)
    requires t <= groupIn && 8 * t <= bits * s <= 8 * groupIn
    requires x == g * Pow2(8 * (groupIn - t)) < Pow2(8 * groupIn)
    ensures rest + bits * s == 8 * groupIn
    ensures DigitVal(TopDigits(x, bits, s, rest), bits) == g * Pow2(bits * s - 8 * t)
  {
    rest := 8 * groupIn - bits * s;
    TopDigitsVal(x, bits, s, rest);
    ShrScaled(g, 8 * (groupIn - t), rest);
  }

  lemma CarryingBounds(t: nat, bits: nat)
    requires 4 <= bits <= 6
    ensures 8 * t <= bits * Carrying(t, bits) < 8 * t + bits
    ensures t <= GroupIn(bits) ==> Carrying(t, bits) <= GroupOut(bits) && bits * Carrying(t, bits) <= 8 * GroupIn(bits)
  {
    if bits == 4 {
    } else if bits == 5 {
    } else {
    }
  }

  lemma ShiftAmount(groupIn: nat, bits: nat, s: nat, rest: nat, j: nat)
    requires rest + bits * s == 8 * groupIn && j < s
    ensures groupIn * 8 - (j + 1) * bits == rest + bits * (s - 1 - j) >= 0
  {
    assert bits * s == (j + 1) * bits + bits * (s - 1 - j);
    MulNonNegative(bits, s - 1 - j);
  }

  /** Joining the characters of whole groups and of what follows them. */
  lemma RepresentsBoth(a: seq<nat>, x: seq<Octet>, b: seq<nat>, y: seq<Octet>, bits: nat)
    requires 4 <= bits <= 6 && Represents(a, x, bits) && bits * |a| == 8 * |x| && Represents(b, y, bits)
    ensures Represents(a + b, x + y, bits) && bits * |a + b| == 8 * |x| + bits * |b|
  {
    assert Pow2(0) == 1;
    hide DigitVal, OctetVal, Pow2, Carrying;
    ProductOfSum(bits, |a|, |b|);
    CarryingBoth(|a|, |x|, |y|, bits);
    DigitConcat(a, b, bits);
    OctetValConcat(x, y);
    OctetPower(|y|);
    JoinValues(DigitVal(a, bits), DigitVal(b, bits), OctetVal(x), OctetVal(y), 8 * |y|, bits * |b| - 8 * |y|);
  }

  lemma ProductOfSum(x: int, y: int, z: int)
    ensures x * (y + z) == x * y + x * z
  {}

  lemma JoinValues(a: nat, b: nat, u: nat, v: nat, n: nat, low: nat)
    requires a == u * Pow2(0) && b == v * Pow2(low)
    ensures a * Pow2(n + low) + b == (u * Pow2(n) + v) * Pow2(low)
  {
    Pow2Add(n, low);
    Associate(u, Pow2(n), Pow2(low));
    Distribute(u * Pow2(n), v, Pow2(low));
  }

  lemma CarryingBoth(d: nat, m: nat, n: nat, bits: nat)
    requires bits > 0 && bits * d == 8 * m
    ensures Carrying(m + n, bits) == d + Carrying(n, bits)
  {
    var x := 8 * n + bits - 1;
    DivFloor(x, bits);
    Distribute(d, x / bits, bits);
    Commute(d, bits);
    DivModUnique(8 * (m + n) + bits - 1, bits, d + x / bits, x % bits);
  }

  /** i octets are whole groups, whose encoding ends at `out`. */
  ghost predicate Whole(bits: nat, i: nat, out: nat) {
    if bits == 6 then i % 3 == 0 && out == i / 3 * 4 else if bits == 5 then i % 5 == 0 && out == i / 5 * 8 else out == 2 * i
  }

  lemma WholeSizes(bits: nat, i: nat, out: nat, n: nat, t: nat)
    requires 4 <= bits <= 6 && Whole(bits, i, out)
    ensures bits * out == 8 * i && EncodedSize(i, bits) == out
    ensures Whole(bits, i + GroupIn(bits), out + GroupOut(bits))
    ensures 0 < t <= GroupIn(bits) ==> EncodedSize(i + t, bits) == out + GroupOut(bits)
    ensures i < n ==> out + GroupOut(bits) <= EncodedSize(n, bits)
  {
    if bits == 4 {
      WholeSizes4(i, out, n, t);
    } else if bits == 5 {
      WholeSizes5(i, out, n, t);
    } else {
      WholeSizes6(i, out, n, t);
    }
  }

  lemma WholeSizes4(i: nat, out: nat, n: nat, t: nat)
    requires Whole(4, i, out)
    ensures 4 * out == 8 * i && EncodedSize(i, 4) == out
    ensures Whole(4, i + GroupIn(4), out + GroupOut(4))
    ensures 0 < t <= GroupIn(4) ==> EncodedSize(i + t, 4) == out + GroupOut(4)
    ensures i < n ==> out + GroupOut(4) <= EncodedSize(n, 4)
  {}

  lemma WholeSizes5(i: nat, out: nat, n: nat, t: nat)
    requires Whole(5, i, out)
    ensures 5 * out == 8 * i && EncodedSize(i, 5) == out
    ensures Whole(5, i + GroupIn(5), out + GroupOut(5))
    ensures 0 < t <= GroupIn(5) ==> EncodedSize(i + t, 5) == out + GroupOut(5)
    ensures i < n ==> out + GroupOut(5) <= EncodedSize(n, 5)
  {}

  lemma WholeSizes6(i: nat, out: nat, n: nat, t: nat)
    requires Whole(6, i, out)
    ensures 6 * out == 8 * i && EncodedSize(i, 6) == out
    ensures Whole(6, i + GroupIn(6), out + GroupOut(6))
    ensures 0 < t <= GroupIn(6) ==> EncodedSize(i + t, 6) == out + GroupOut(6)
    ensures i < n ==> out + GroupOut(6) <= EncodedSize(n, 6)
  {}

  lemma CharactersConcat(alphabet: seq<Octet>, a: seq<nat>, b: seq<nat>)
    requires forall k | 0 <= k < |a| :: a[k] < |alphabet|
    requires forall k | 0 <= k < |b| :: b[k] < |alphabet|
    ensures forall k | 0 <= k < |a + b| :: (a + b)[k] < |alphabet|
    ensures Characters(alphabet, a + b) == Characters(alphabet, a) + Characters(alphabet, b)
  {}

  /** The state of the encoder with i octets left behind. */
  ghost predicate Encoding(alphabet: seq<Octet>, bits: nat, input: seq<Octet>, ds: seq<nat>, output: seq<Octet>,
                           i: nat, out: nat)
    requires Alphabet(alphabet, bits)
  {
    if i < |input|
    then out <= |output| && |ds| == out && Represents(ds, input[..i], bits) && output[..out] == Characters(alphabet, ds)
    else Encodes(alphabet, bits, input, ds, output)
  }

  lemma GroupWritten(alphabet: seq<Octet>, bits: nat, x: seq<Octet>, ds: seq<nat>, y: seq<Octet>, b: seq<nat>, out: nat)
    requires Alphabet(alphabet, bits) && Whole(bits, |x|, out) && |ds| == out && Represents(ds, x, bits)
    requires 0 < |y| <= GroupIn(bits) && Represents(b, y, bits) && |b| <= GroupOut(bits)
    ensures Encodes(alphabet, bits, x + y, ds + b, Characters(alphabet, ds) + Characters(alphabet, b) + Pad(GroupOut(bits) - |b|))
    ensures |y| == GroupIn(bits) ==> |b| == GroupOut(bits) && Pad(GroupOut(bits) - |b|) == []
    ensures Characters(alphabet, ds + b) == Characters(alphabet, ds) + Characters(alphabet, b)
  {
    WholeSizes(bits, |x|, out, 0, |y|);
    RepresentsBoth(ds, x, b, y, bits);
    CharactersConcat(alphabet, ds, b);
    if |y| == GroupIn(bits) { WholeGroup(bits); }
  }

  lemma WholeGroup(bits: nat)
    requires 4 <= bits <= 6
    ensures Carrying(GroupIn(bits), bits) == GroupOut(bits)
  {}

  method EncodeTurn(alphabet: seq<Octet>, bits: nat, input: seq<Octet>, output: array<Octet>, i: nat, out: nat,
                    ghost ds: seq<nat>)
    returns (ghost more: seq<nat>)
    requires Alphabet(alphabet, bits) && output.Length == EncodedSize(|input|, bits)
    requires Whole(bits, i, out) && i < |input| && Encoding(alphabet, bits, input, ds, output[..], i, out)
    modifies output
    ensures Encoding(alphabet, bits, input, more, output[..], i + GroupIn(bits), out + GroupOut(bits))
  {
    hide Encoding, Represents, Characters, Pad, EncodedSize, Whole, Alphabet;
    var rest := |input| - i;
    var taken := if rest < GroupIn(bits) then rest else GroupIn(bits);
    TurnFits(alphabet, bits, input, ds, output[..], i, out, taken);
    ghost var before: seq<Octet> := output[..];
    ghost var b := EncodeGroup(alphabet, bits, input[i..i + taken], output, out);
    more := ds + b;
    TurnWritten(alphabet, bits, input, ds, before, output[..], i, out, taken, b);
  }

  /** There is room for the next group. */
  lemma TurnFits(alphabet: seq<Octet>, bits: nat, input: seq<Octet>, ds: seq<nat>, output: seq<Octet>,
                 i: nat, out: nat, taken: nat)
    requires Alphabet(alphabet, bits) && |output| == EncodedSize(|input|, bits)
    requires Whole(bits, i, out) && i < |input| && Encoding(alphabet, bits, input, ds, output, i, out)
    requires taken == if |input| - i < GroupIn(bits) then |input| - i else GroupIn(bits)
    ensures 0 < taken <= GroupIn(bits) && i + taken <= |input| && out + GroupOut(bits) <= |output|
    ensures i + taken == |input| ==> |output| == out + GroupOut(bits)
  {
    WholeSizes(bits, i, out, |input|, taken);
  }

  /** What a written group makes of the output. */
  lemma TurnWritten(alphabet: seq<Octet>, bits: nat, input: seq<Octet>, ds: seq<nat>, before: seq<Octet>, output: seq<Octet>,
                    i: nat, out: nat, taken: nat, b: seq<nat>)
    requires Alphabet(alphabet, bits) && |before| == EncodedSize(|input|, bits)
    requires Whole(bits, i, out) && i < |input| && Encoding(alphabet, bits, input, ds, before, i, out)
    requires taken == if |input| - i < GroupIn(bits) then |input| - i else GroupIn(bits)
    requires Represents(b, input[i..i + taken], bits) && |b| <= GroupOut(bits) && out + GroupOut(bits) <= |before|
    requires output == before[..out] + Characters(alphabet, b) + Pad(GroupOut(bits) - |b|) + before[out + GroupOut(bits)..]
    ensures Encoding(alphabet, bits, input, ds + b, output, i + GroupIn(bits), out + GroupOut(bits))
  {
    hide Characters, EncodedSize, Whole, Carrying, DigitVal, OctetVal, Pow2;
    var x, y := input[..i], input[i..i + taken];
    TurnFits(alphabet, bits, input, ds, before, i, out, taken);
    GroupWritten(alphabet, bits, x, ds, y, b, out);
    assert input[..i + taken] == x + y;
    var after := before[..out] + Characters(alphabet, b) + Pad(GroupOut(bits) - |b|);
    if i + taken == |input| {
      assert input == x + y && output == after;
    } else {
      assert output[..out + GroupOut(bits)] == after == Characters(alphabet, ds + b);
    }
  }

  /** Encodes the input into a buffer of the encoded size. */
  method Encode(alphabet: seq<Octet>, bits: nat, input: seq<Octet>, output: array<Octet>) returns (ghost ds: seq<nat>)
    requires Alphabet(alphabet, bits) && output.Length == EncodedSize(|input|, bits)
    modifies output
    ensures Encodes(alphabet, bits, input, ds, output[..])
  {
    var i: nat, out: nat := 0, 0;
    ds := [];
    EncodingStart(alphabet, bits, input, output[..]);
    while i < |input|
      invariant Whole(bits, i, out) && Encoding(alphabet, bits, input, ds, output[..], i, out)
      decreases |input| - i
    {
      ds := EncodeTurn(alphabet, bits, input, output, i, out, ds);
      WholeSizes(bits, i, out, 0, 0);
      i := i + GroupIn(bits);
      out := out + GroupOut(bits);
    }
  }

  lemma EncodingStart(alphabet: seq<Octet>, bits: nat, input: seq<Octet>, output: seq<Octet>)
    requires Alphabet(alphabet, bits) && |output| == EncodedSize(|input|, bits)
    ensures Whole(bits, 0, 0) && Encoding(alphabet, bits, input, [], output, 0, 0)
  {
    assert Whole(bits, 0, 0);
    WholeSizes(bits, 0, 0, 0, 0);
    NothingEncoded(alphabet, bits);
    assert input[..0] == [] && output[..0] == [];
    if input == [] { assert output == []; }
  }

  lemma NothingEncoded(alphabet: seq<Octet>, bits: nat)
    requires Alphabet(alphabet, bits)
    ensures Represents([], [], bits) && Characters(alphabet, []) == []
  {
    assert bits * 0 == 0;
    CarryingBounds(0, bits);
  }

  // ------------------------------------------------------------------
  // Decoding.

  /** The place of a character in the alphabet. */
  function Place(alphabet: seq<Octet>, c: Octet): (v: nat)
    requires c in alphabet
    ensures v < |alphabet| && alphabet[v] == c
  {
    if alphabet[0] == c then 0 else 1 + Place(alphabet[1..], c)
  }

  ghost predicate AllIn(alphabet: seq<Octet>, s: seq<Octet>) {
    forall k | 0 <= k < |s| :: s[k] in alphabet
  }

  ghost function Values(alphabet: seq<Octet>, s: seq<Octet>): (ds: seq<nat>)
    requires AllIn(alphabet, s)
    ensures |ds| == |s|
  {
    seq(|s|, k requires 0 <= k < |s| => Place(alphabet, s[k]))
  }

  /** The map from octets to values, -1 outside the alphabet. */
  class Reverse {
    const table: array<int>

    ghost predicate Maps(alphabet: seq<Octet>)
      reads table
    {
      table.Length == 256 &&
      forall c: Octet :: table[c] == if c in alphabet then Place(alphabet, c) else -1
    }

    constructor (alphabet: seq<Octet>)
      requires |alphabet| <= 127 && forall i, j | 0 <= i < j < |alphabet| :: alphabet[i] != alphabet[j]
      ensures Maps(alphabet) && fresh(table)
    {
      table := new int[256](_ => -1);
      new;
      for i := 0 to |alphabet|
        invariant forall c | 0 <= c < 256 && c !in alphabet[..i] :: table[c] == -1
        invariant forall k | 0 <= k < i :: table[alphabet[k]] == k
      {
        table[alphabet[i]] := i;
      }
      forall c: Octet ensures table[c] == if c in alphabet then Place(alphabet, c) else -1 {
        assert alphabet[..|alphabet|] == alphabet;
        if c in alphabet { assert table[alphabet[Place(alphabet, c)]] == Place(alphabet, c); }
      }
    }
  }

  /** The characters before the first padding. */
  function Body(s: seq<Octet>): (r: seq<Octet>)
    ensures |r| <= |s| && r == s[..|r|] && PADDING !in r && (|r| < |s| ==> s[|r|] == PADDING)
  {
    if s == [] || s[0] == PADDING then [] else [s[0]] + Body(s[1..])
  }

  /** Characters of the alphabet and then nothing but padding, of any length. */
  ghost predicate WellFormed(alphabet: seq<Octet>, s: seq<Octet>) {
    && AllIn(alphabet, Body(s))
    && forall k | |Body(s)| <= k < |s| :: s[k] == PADDING
  }

  /** What the decoder holds after the values ds: the octets that are complete, the
      number of bits left over, and as much of their number as 32 bits keep. */
  ghost predicate Decoding(ds: seq<nat>, bits: nat, octets: seq<Octet>, accumulator: Word, left: nat) {
    && left == bits * |ds| - 8 * |octets| < 8
    && OctetVal(octets) == Shr(DigitVal(ds, bits), left)
    && accumulator == Mask(DigitVal(ds, bits), 32)
  }

  lemma WordMask(x: nat)
    ensures Mask(x, 32) == x % BASE
  {
    Pow2Add(8, 8);
    Pow2Add(16, 16);
    SmallPowers();
  }

  /** One character into the accumulator, whose upper bits fall off. */
  lemma Shifted(n: nat, v: nat, bits: nat)
    requires v < Pow2(bits) && bits <= 32
    ensures Mask(n, 32) * Pow2(bits) >= 0 && n * Pow2(bits) + v >= 0
    ensures Mask(Mask(n, 32) * Pow2(bits), 32) + v == Mask(n * Pow2(bits) + v, 32) < Pow2(32)
  {
    var p, q := Pow2(bits), Pow2(32 - bits);
    Pow2Add(32 - bits, bits);
    var y := n % q;
    DivFloor(n, q);
    MulNonNegative(n, p);
    ShrMask(n, 32);
    MulNonNegative(Mask(n, 32), p);
    // n = k q + y, so n p = k 2^32 + y p and y p + v < 2^32.
    Distribute(n / q * q, y, p);
    Associate(n / q, q, p);
    ScaleInequality(y + 1, q, p);
    Distribute(y, 1, p);
    MulNonNegative(y, p);
    DivModUnique(n * p + v, q * p, n / q, y * p + v);
    var m := Mask(n, 32);
    ModOfMultiple(n, q, p);
    DivFloor(m, q);
    Distribute(m / q * q, y, p);
    Associate(m / q, q, p);
    DivModUnique(m * p, q * p, m / q, y * p);
  }

  lemma ModOfMultiple(n: nat, q: nat, p: nat)
    requires q > 0 && p > 0
    ensures q * p > 0 && n % (q * p) % q == n % q
  {
    DivDiv(n, q, p);
    ScaleInequality(1, q, p);
    DivFloor(n, q);
    DivModUnique(n / q % p * q + n % q, q, n / q % p, n % q);
  }

  /** One more value: either an octet completes or it does not. */
  lemma DecodeStep(ds: seq<nat>, bits: nat, octets: seq<Octet>, accumulator: Word, left: nat, v: nat)
    requires Decoding(ds, bits, octets, accumulator, left) && 4 <= bits <= 6 && v < Pow2(bits)
    ensures accumulator * Pow2(bits) >= 0
    ensures var next := Mask(accumulator * Pow2(bits), 32) + v;
            && next < BASE
            && (left + bits < 8 ==> Decoding(ds + [v], bits, octets, next, left + bits))
            && (left + bits >= 8 ==>
                  Decoding(ds + [v], bits, octets + [Mask(Shr(next, left + bits - 8), 8)], next, left + bits - 8))
  {
    hide DigitVal, OctetVal, Pow2, Shr, Mask;
    var m := DigitVal(ds, bits) * Pow2(bits) + v;
    DigitAppend(ds, v, bits);
    NextAccumulator(DigitVal(ds, bits), v, bits);
    ShrAppend(DigitVal(ds, bits), v, bits);
    ProductOfSum(bits, |ds|, 1);
    ShrShr(m, bits, left);
    if left + bits >= 8 {
      DecodedOctet(m, left + bits - 8, octets);
    }
  }

  /** The accumulator stays the low word of the number read so far. */
  lemma NextAccumulator(n: nat, v: nat, bits: nat)
    requires v < Pow2(bits) && 4 <= bits <= 6
    ensures n * Pow2(bits) >= 0 && Mask(n, 32) * Pow2(bits) >= 0
    ensures Mask(Mask(n, 32) * Pow2(bits), 32) + v == Mask(n * Pow2(bits) + v, 32) < BASE
  {
    Shifted(n, v, bits);
    WordMask(n * Pow2(bits) + v);
  }

  /** The completed octet is the next one of the number. */
  lemma DecodedOctet(m: nat, s: nat, octets: seq<Octet>)
    requires s < 8 && OctetVal(octets) == Shr(m, s + 8)
    ensures Mask(Shr(Mask(m, 32), s), 8) < 256
    ensures OctetVal(octets + [Mask(Shr(Mask(m, 32), s), 8)]) == Shr(m, s)
  {
    SmallPowers();
    hide OctetVal, Pow2, Shr, Mask;
    MaskShr(m, s, 8, 32);
    ShrShr(m, s, 8);
    ShrMask(Shr(m, s), 8);
    OctetAppend(octets, Mask(Shr(m, s), 8));
  }

  lemma OctetAppend(octets: seq<Octet>, o: Octet)
    ensures OctetVal(octets + [o]) == OctetVal(octets) * 256 + o
  {
    assert (octets + [o])[..|octets|] == octets;
  }

  /** The octets that characters decode to. */
  ghost predicate Decodes(alphabet: seq<Octet>, bits: nat, body: seq<Octet>, octets: seq<Octet>)
    requires AllIn(alphabet, body)
  {
    && 0 <= bits * |body| - 8 * |octets| < 8
    && OctetVal(octets) == Shr(DigitVal(Values(alphabet, body), bits), bits * |body| - 8 * |octets|)
  }

  lemma {:induction false} BodyIs(s: seq<Octet>, m: nat)
    requires m <= |s| && PADDING !in s[..m] && (m < |s| ==> s[m] == PADDING)
    ensures Body(s) == s[..m]
  {
    if m > 0 {
      assert s[1..][..m - 1] == s[..m][1..];
      assert s[0] == s[..m][0];
      BodyIs(s[1..], m - 1);
      assert s[..m] == [s[0]] + s[1..][..m - 1];
    }
  }

  /** The input up to i has been read, with no character after the first padding. */
  ghost predicate Read(alphabet: seq<Octet>, input: seq<Octet>, i: nat, ds: seq<nat>, padded: bool) {
    && |ds| <= i <= |input| && AllIn(alphabet, input[..|ds|]) && ds == Values(alphabet, input[..|ds|])
    && (if padded then |ds| < i else |ds| == i)
    && forall k | |ds| <= k < i :: input[k] == PADDING
  }

  lemma ReadValue(alphabet: seq<Octet>, input: seq<Octet>, i: nat, ds: seq<nat>)
    requires Read(alphabet, input, i, ds, false) && i < |input| && input[i] in alphabet
    ensures Read(alphabet, input, i + 1, ds + [Place(alphabet, input[i])], false)
  {
    var s, t := input[..i], input[..i + 1];
    assert t == s + [input[i]];
    assert Values(alphabet, t) == Values(alphabet, s) + [Place(alphabet, input[i])];
  }

  /** A character where none may be. */
  lemma Malformed(alphabet: seq<Octet>, bits: nat, input: seq<Octet>, i: nat, ds: seq<nat>, padded: bool)
    requires Alphabet(alphabet, bits) && Read(alphabet, input, i, ds, padded)
    requires i < |input| && input[i] != PADDING && (padded || input[i] !in alphabet)
    ensures !WellFormed(alphabet, input)
  {
    NoPaddingIn(alphabet, input[..|ds|]);
    if padded {
      BodyIs(input, |ds|);
    } else {
      var body := Body(input);
      if |body| > i { assert body[i] == input[i]; }
    }
  }

  lemma NoPaddingIn(alphabet: seq<Octet>, s: seq<Octet>)
    requires PADDING !in alphabet && AllIn(alphabet, s)
    ensures PADDING !in s
  {}

  lemma ReadAll(alphabet: seq<Octet>, bits: nat, input: seq<Octet>, ds: seq<nat>, padded: bool)
    requires Alphabet(alphabet, bits) && Read(alphabet, input, |input|, ds, padded)
    ensures WellFormed(alphabet, input) && ds == Values(alphabet, Body(input))
  {
    NoPaddingIn(alphabet, input[..|ds|]);
    BodyIs(input, |ds|);
  }

  /** Takes one value into the accumulator and puts out the octet it completes. */
  method TakeValue(value: nat, bits: nat, output: array<Octet>, accumulator: Word, left: nat, out: nat,
                   ghost length: nat, ghost ds: seq<nat>)
    returns (accumulator': Word, left': nat, out': nat)
    requires 4 <= bits <= 6 && value < Pow2(bits) && |ds| < length && DecodedSize(length, bits) <= output.Length
    requires out <= output.Length && Decoding(ds, bits, output[..out], accumulator, left)
    modifies output
    ensures out' <= output.Length && Decoding(ds + [value], bits, output[..out'], accumulator', left')
    ensures forall k | DecodedSize(length, bits) <= k < output.Length :: output[k] == old(output[k])
  {
    DecodeStep(ds, bits, output[..out], accumulator, left, value);
    accumulator' := Mask(accumulator * Pow2(bits), 32) + value;
    left' := left + bits;
    out' := out;
    if left' >= 8 {
      left' := left' - 8;
      RoomForOctet(|ds| + 1, length, bits, out);
      ghost var before: seq<Octet> := output[..out];
      output[out] := Mask(Shr(accumulator', left'), 8);
      out' := out + 1;
      assert output[..out'] == before + [output[out]];
    }
  }

  /** Decodes any input. Throws exactly when it is not well formed, and writes no
      more octets than the decoded size in either case. */
  method Decode(reverse: Reverse, bits: nat, input: seq<Octet>, output: array<Octet>, ghost alphabet: seq<Octet>)
    returns (r: Result<nat>)
    requires Alphabet(alphabet, bits) && reverse.Maps(alphabet) && output as object != reverse.table
    requires DecodedSize(|input|, bits) <= output.Length
    modifies output
    ensures r.Ok? <==> WellFormed(alphabet, input)
    ensures r.Ok? ==> r.value <= DecodedSize(|input|, bits) && Decodes(alphabet, bits, Body(input), output[..r.value])
    ensures r.Throw? ==> r.error == WrongEncodedInput
    ensures output[DecodedSize(|input|, bits)..] == old(output[DecodedSize(|input|, bits)..])
  {
    hide DigitVal, OctetVal, Shr, Mask, Values, Pow2, Body;
    var out: nat, left: nat := 0, 0;
    var accumulator: Word := 0;
    var padded := false;
    ghost var ds: seq<nat> := [];
    DecodeStart(bits);
    assert output[..0] == [] && input[..0] == [];
    for i := 0 to |input|
      invariant Read(alphabet, input, i, ds, padded)
      invariant out <= output.Length && Decoding(ds, bits, output[..out], accumulator, left)
      invariant forall k | DecodedSize(|input|, bits) <= k < output.Length :: output[k] == old(output[k])
      invariant reverse.Maps(alphabet)
    {
      var ch := input[i];
      if ch == PADDING {
        padded := true;
        continue;
      }
      if padded {
        Malformed(alphabet, bits, input, i, ds, padded);
        return Throw(WrongEncodedInput);
      }
      var value := reverse.table[ch];
      if value < 0 {
        Malformed(alphabet, bits, input, i, ds, padded);
        return Throw(WrongEncodedInput);
      }
      ReadValue(alphabet, input, i, ds);
      accumulator, left, out := TakeValue(value, bits, output, accumulator, left, out, |input|, ds);
      ds := ds + [value];
    }
    ReadAll(alphabet, bits, input, ds, padded);
    RoomForOctet(|ds|, |input|, bits, out - 1);
    return Ok(out);
  }

  lemma DecodeStart(bits: nat)
    ensures Decoding([], bits, [], 0, 0)
  {
    assert bits * 0 == 0;
  }

  lemma RoomForOctet(d: nat, n: nat, bits: nat, out: int)
    requires d <= n && 8 * (out + 1) <= bits * d
    ensures out + 1 <= DecodedSize(n, bits)
  {
    MulMonotone(bits, d, n);
    Commute(n, bits);
  }

  // ------------------------------------------------------------------
  // Round trip.

  /** Whatever an encoding decodes to is what was encoded. */
  lemma EncodingDecodes(alphabet: seq<Octet>, bits: nat, input: seq<Octet>, ds: seq<nat>, out: seq<Octet>, back: seq<Octet>)
    requires Alphabet(alphabet, bits) && Encodes(alphabet, bits, input, ds, out)
    ensures WellFormed(alphabet, out)
    ensures Decodes(alphabet, bits, Body(out), back) ==> back == input
  {
    hide DigitVal, OctetVal, Shr, Carrying, EncodedSize;
    var body := Characters(alphabet, ds);
    assert out[..|ds|] == body;
    forall k | 0 <= k < |ds| ensures body[k] in alphabet && Place(alphabet, body[k]) == ds[k] {}
    BodyIs(out, |ds|);
    assert Values(alphabet, body) == ds;
    CarryingBounds(|input|, bits);
    if Decodes(alphabet, bits, body, back) {
      SameOctets(ds, bits, input, back);
    }
  }

  /** Digits that stand for the input decode to nothing else. */
  lemma SameOctets(ds: seq<nat>, bits: nat, input: seq<Octet>, back: seq<Octet>)
    requires 4 <= bits <= 6 && Represents(ds, input, bits) && 0 <= bits * |ds| - 8 * |back| < 8
    requires OctetVal(back) == Shr(DigitVal(ds, bits), bits * |ds| - 8 * |back|)
    ensures back == input
  {
    assert Pow2(0) == 1;
    hide OctetVal, DigitVal, Pow2, Shr;
    CarryingBounds(|input|, bits);
    var left := bits * |ds| - 8 * |input|;
    ShrScaled(OctetVal(input), left, left);
    OctetValInjective(back, input);
  }

  method EncodeString(alphabet: seq<Octet>, bits: nat, input: seq<Octet>) returns (out: seq<Octet>, ghost ds: seq<nat>)
    requires Alphabet(alphabet, bits)
    ensures |out| == EncodedSize(|input|, bits) && Encodes(alphabet, bits, input, ds, out)
  {
    if input == [] {
      NothingEncoded(alphabet, bits);
      assert Pad(0) == [];
      return [], [];
    }
    var output := new Octet[EncodedSize(|input|, bits)];
    ds := Encode(alphabet, bits, input, output);
    out := output[..];
  }

  method DecodeString(reverse: Reverse, bits: nat, input: seq<Octet>, ghost alphabet: seq<Octet>)
    returns (r: Result<seq<Octet>>)
    requires Alphabet(alphabet, bits) && reverse.Maps(alphabet)
    ensures r.Ok? <==> WellFormed(alphabet, input)
    ensures r.Ok? ==> |r.value| <= DecodedSize(|input|, bits) && Decodes(alphabet, bits, Body(input), r.value)
    ensures r.Throw? ==> r.error == WrongEncodedInput
  {
    if input == [] {
      DecodeStart(bits);
      return Ok([]);
    }
    var output := new Octet[DecodedSize(|input|, bits) + 1];
    var written := Decode(reverse, bits, input, output, alphabet);
    if written.Throw? {
      return Throw(written.error);
    }
    return Ok(output[..written.value]);
  }

  /** decode(encode(x)) = x for every sequence of octets. */
  method RoundTrip(alphabet: seq<Octet>, bits: nat, input: seq<Octet>) returns (r: Result<seq<Octet>>)
    requires Alphabet(alphabet, bits)
    ensures r == Ok(input)
  {
    SmallPowers();
    var reverse := new Reverse(alphabet);
    ghost var ds;
    var encoded;
    encoded, ds := EncodeString(alphabet, bits, input);
    r := DecodeString(reverse, bits, encoded, alphabet);
    EncodingDecodes(alphabet, bits, input, ds, encoded, if r.Ok? then r.value else []);
  }

  // ------------------------------------------------------------------
  // The five alphabets.

  /** n characters from the given one on. */
  function Letters(first: Octet, n: nat): (r: seq<Octet>)
    requires first + n <= 128
    ensures |r| == n
  {
    seq(n, i requires 0 <= i < n => first + i)
  }

  const BASE16 := Letters(48, 10) + Letters(65, 6)
  const BASE32 := Letters(65, 26) + Letters(50, 6)
  const BASE32HEX := Letters(48, 10) + Letters(65, 22)
  const BASE64 := Letters(65, 26) + Letters(97, 26) + Letters(48, 10) + [43, 47]
  const BASE64URL := Letters(65, 26) + Letters(97, 26) + Letters(48, 10) + [45, 95]

  /** The octets of a text, each character cut to eight bits. */
  function Codes(text: string): (r: seq<Octet>)
    ensures |r| == |text| && forall i | 0 <= i < |text| :: r[i] == text[i] as int % 256
  {
    seq(|text|, i requires 0 <= i < |text| => text[i] as int % 256)
  }

  lemma CapitalLetters()
    ensures Letters(65, 26) == Codes("ABCDEFGHIJKLMNOPQRSTUVWXYZ")
  {}

  lemma SmallLetters()
    ensures Letters(97, 26) == Codes("abcdefghijklmnopqrstuvwxyz")
  {}

  lemma TenDigits()
    ensures Letters(48, 10) == Codes("0123456789") && Letters(65, 6) == Codes("ABCDEF") && Letters(50, 6) == Codes("234567")
    ensures Letters(65, 22) == Codes("ABCDEFGHIJKLMNOPQRSTUV")
  {}

  /** Each alphabet has its characters in order, as many as its digits have values, all
      different and none of them the padding, which is '='. */
  lemma Base16Alphabet()
    ensures Alphabet(BASE16, 4) && BASE16 == Codes("0123456789" + "ABCDEF") && PADDING == '=' as int
  {
    SmallPowers();
    TenDigits();
  }

  lemma Base32Alphabet()
    ensures Alphabet(BASE32, 5) && BASE32 == Codes("ABCDEFGHIJKLMNOPQRSTUVWXYZ" + "234567")
  {
    SmallPowers();
    CapitalLetters();
    TenDigits();
  }

  lemma Base32HexAlphabet()
    ensures Alphabet(BASE32HEX, 5) && BASE32HEX == Codes("0123456789" + "ABCDEFGHIJKLMNOPQRSTUV")
  {
    SmallPowers();
    TenDigits();
  }

  lemma Base64Alphabet()
    ensures Alphabet(BASE64, 6)
    ensures BASE64 == Codes("ABCDEFGHIJKLMNOPQRSTUVWXYZ" + "abcdefghijklmnopqrstuvwxyz" + "0123456789" + "+/")
  {
    SmallPowers();
    CapitalLetters();
    SmallLetters();
    TenDigits();
  }

  lemma Base64UrlAlphabet()
    ensures Alphabet(BASE64URL, 6)
    ensures BASE64URL == Codes("ABCDEFGHIJKLMNOPQRSTUVWXYZ" + "abcdefghijklmnopqrstuvwxyz" + "0123456789" + "-_")
  {
    SmallPowers();
    CapitalLetters();
    SmallLetters();
    TenDigits();
  }

  /** The encoded size in whole groups: two characters for each octet, eight for every
      five octets begun, four for every three; and the octets that whole groups hold. */
  lemma GroupSizes(groups: nat, more: nat)
    ensures EncodedSize(groups, 4) == 2 * groups && DecodedSize(2 * groups, 4) == groups
    ensures more < 5 ==> EncodedSize(5 * groups + more, 5) == 8 * (groups + if more > 0 then 1 else 0)
    ensures more < 3 ==> EncodedSize(3 * groups + more, 6) == 4 * (groups + if more > 0 then 1 else 0)
    ensures DecodedSize(8 * groups, 5) == 5 * groups && DecodedSize(4 * groups, 6) == 3 * groups
  {}
}
