/** Big-endian octet strings and the integers they stand for. */
module Octets {
  import opened Arithmetic
  import opened Words
  import opened BigIntegers

  type Octet = x: int | 0 <= x < 256

  const NEG_VAL := 0x8000_0000

  /** The number a big-endian octet string stands for. */
  ghost function OctetVal(s: seq<Octet>): nat {
    if s == [] then 0 else OctetVal(s[..|s| - 1]) * 256 + s[|s| - 1]
  }

  lemma {:induction false} OctetValConcat(s: seq<Octet>, t: seq<Octet>)
    ensures Pow(256, |t|) > 0
    ensures OctetVal(s + t) == OctetVal(s) * Pow(256, |t|) + OctetVal(t)
  {
    PowPositive(256, |t|);
    if t == [] {
      assert s + t == s;
    } else {
      var u := t[..|t| - 1];
      OctetValConcat(s, u);
      assert (s + t)[..|s + t| - 1] == s + u;
      var x, w := OctetVal(s), Pow(256, |u|);
      Distribute(x * w, OctetVal(u), 256);
      Associate(x, w, 256);
      Commute(w, 256);
    }
  }

  lemma {:induction false} OctetValBound(s: seq<Octet>)
    ensures OctetVal(s) < Pow(256, |s|)
  {
    if s != [] { OctetValBound(s[..|s| - 1]); }
  }

  /** Strings of equal length that stand for the same number are equal. */
  lemma {:induction false} OctetValInjective(s: seq<Octet>, t: seq<Octet>)
    requires |s| == |t| && OctetVal(s) == OctetVal(t)
    ensures s == t
  {
    if s != [] {
      var u, v := s[..|s| - 1], t[..|t| - 1];
      DivModUnique(OctetVal(s), 256, OctetVal(u), s[|s| - 1]);
      DivModUnique(OctetVal(t), 256, OctetVal(v), t[|t| - 1]);
      OctetValInjective(u, v);
      assert s == u + [s[|s| - 1]] && t == v + [t[|t| - 1]];
    }
  }

  lemma {:induction false} OctetWeight(k: nat)
    ensures Pow(256, 4 * k) == Weight(k)
  {
    if k > 0 {
      OctetWeight(k - 1);
      assert 4 * k == 4 + 4 * (k - 1);
      PowAdd(256, 4, 4 * (k - 1));
      FourOctets();
    }
  }

  lemma FourOctets()
    ensures Pow(256, 4) == BASE
  {
    assert Pow(256, 1) == 256 && Pow(256, 2) == 65536 && Pow(256, 3) == 16777216;
  }

  function WordOctets(w: Word): (s: seq<Octet>)
    ensures |s| == 4 && OctetVal(s) == w
  {
    var w1: int := w / 256;
    var w2: int := w1 / 256;
    var w3: int := w2 / 256;
    FourOctetVal(w3, w2 % 256, w1 % 256, w % 256);
    [w3, w2 % 256, w1 % 256, w % 256]
  }

  lemma FourOctetVal(a: int, b: int, c: int, d: int)
    requires 0 <= a < 256 && 0 <= b < 256 && 0 <= c < 256 && 0 <= d < 256
    ensures OctetVal([a, b, c, d]) == a * 0x100_0000 + b * 0x1_0000 + c * 0x100 + d
  {
    var s: seq<Octet> := [a, b, c, d];
    assert s[..3] == [a, b, c] && s[..3][..2] == [a, b] && s[..3][..2][..1] == [a];
    assert OctetVal([a]) == OctetVal([]) * 256 + a;
    assert OctetVal([a, b]) == OctetVal([a]) * 256 + b;
    assert OctetVal([a, b, c]) == OctetVal([a, b]) * 256 + c;
  }

  /** The word held by up to four octets, most significant first. */
  method WordFromOctets(s: seq<Octet>) returns (w: Word)
    requires |s| <= 4
    ensures w == OctetVal(s)
  {
    w := 0;
    assert s[..|s|] == s;
    for j := 0 to |s|
      invariant w == OctetVal(s[..j])
    {
      OctetValBound(s[..j + 1]);
      PowMonotone(256, j + 1, 4);
      FourOctets();
      assert s[..j + 1][..j] == s[..j];
      w := w * 256 + s[j];
    }
  }

  /** Where the octets of the i lowest words begin. */
  function WordStart(length: nat, i: nat): nat {
    if 4 * i < length then length - 4 * i else 0
  }

  /** The loop over the words, lowest first. */
  method WordsFromOctets(octets: seq<Octet>) returns (a: array<Word>)
    ensures fresh(a) && a.Length == (|octets| + 3) / 4 && Val(a[..]) == OctetVal(octets)
    ensures a.Length > 0 ==> a[a.Length - 1] == OctetVal(octets[0..WordStart(|octets|, a.Length - 1)])
  {
    var length := |octets|;
    var words := (length + 3) / 4;
    a := new Word[words](_ => 0);
    assert octets[length..] == [] && octets[0..] == octets && OctetVal([]) == 0 && Low(a[..], 0) == 0;
    hide OctetVal, Low, WordStart;
    WordStarts(length, words);
    for i := 0 to words
      invariant Low(a[..], i) == OctetVal(octets[WordStart(length, i)..])
      invariant i > 0 ==> a[i - 1] == OctetVal(octets[WordStart(length, i)..WordStart(length, i - 1)])
    {
      var end := length - 4 * i;
      var begin := if end > 4 then end - 4 else 0;
      WordStartAt(length, i);
      var w := WordFromOctets(octets[begin..end]);
      AppendWord(a[..], w, octets, i);
      PutWord(a, i, w);
    }
  }

  method PutWord(a: array<Word>, i: nat, w: Word)
    requires i < a.Length
    modifies a
    ensures a[..] == old(a[..])[i := w]
  {
    a[i] := w;
  }

  /** Octet strings of any length. With `sign`, the top bit of a complete top
      word is a sign and not part of the magnitude. */
  method FromOctets(octets: seq<Octet>, sign: bool) returns (x: BigInt)
    ensures |x.a| == (|octets| + 3) / 4
    ensures var signed := sign && |octets| % 4 == 0 && |octets| > 0 && octets[0] >= 128;
            && x.negative == signed
            && x.Int() == if signed then 128 * Pow(256, |octets| - 1) - OctetVal(octets) else OctetVal(octets)
  {
    hide OctetVal, Low, Len, Val, WordStart, Pow;
    var a := WordsFromOctets(octets);
    var words := a.Length;
    WordStarts(|octets|, words);
    if words > 0 {
      TopOctet(octets, a[words - 1], WordStart(|octets|, words - 1));
    }
    if words > 0 && sign && a[words - 1] >= NEG_VAL {
      ghost var before: Poly := a[..];
      DropSign(before, octets);
      a[words - 1] := a[words - 1] - NEG_VAL;
      assert a[..] == before[words - 1 := a[words - 1]];
      x := BigInt(a[..], true);
    } else {
      x := BigInt(a[..], false);
    }
    SignedValue(x);
    if words == 0 { NoOctets(octets); }
  }

  lemma WordStarts(length: nat, words: nat)
    requires words == (length + 3) / 4
    ensures WordStart(length, 0) == length && WordStart(length, words) == 0
    ensures words > 0 ==>
              var n := WordStart(length, words - 1);
              0 < n <= 4 && n <= length && (n == 4 <==> length % 4 == 0)
  {}

  lemma WordStartAt(length: nat, i: nat)
    requires 4 * i < length
    ensures WordStart(length, i) == length - 4 * i
    ensures WordStart(length, i + 1) == if length - 4 * i > 4 then length - 4 * i - 4 else 0
  {}

  lemma NoOctets(octets: seq<Octet>)
    ensures octets == [] ==> OctetVal(octets) == 0
  {}

  lemma SignedValue(x: BigInt)
    ensures x.Int() == if x.negative then 0 - Val(x.a) else Val(x.a)
  {
    LenBounds(x.a);
  }

  /** The sign bit weighs 128 in the first octet. */
  lemma DropSign(a: Poly, octets: seq<Octet>)
    requires |a| > 0 && |octets| == 4 * |a| && a[|a| - 1] >= NEG_VAL
    ensures Pow(256, |octets| - 1) > 0
    ensures Val(a[|a| - 1 := a[|a| - 1] - NEG_VAL]) == Val(a) - 128 * Pow(256, |octets| - 1)
  {
    var n := |a| - 1;
    var b := a[n := a[n] - NEG_VAL];
    LowCongruent(a, b, n);
    assert Val(a) == Low(a, n) + a[n] * Weight(n) && Val(b) == Low(a, n) + b[n] * Weight(n);
    Distribute(b[n], NEG_VAL, Weight(n));
    SignWeight(n);
  }

  lemma SignWeight(n: nat)
    ensures NEG_VAL * Weight(n) == 128 * Pow(256, 4 * n + 3) > 0
  {
    OctetWeight(n);
    PowAdd(256, 3, 4 * n);
    assert Pow(256, 3) == 0x100_0000;
    Associate(128, 0x100_0000, Weight(n));
    PowPositive(256, 4 * n + 3);
  }

  lemma AppendWord(a: Poly, w: Word, octets: seq<Octet>, i: nat)
    requires i < |a| && 4 * i < |octets|
    requires Low(a, i) == OctetVal(octets[WordStart(|octets|, i)..])
    requires w == OctetVal(octets[WordStart(|octets|, i + 1)..WordStart(|octets|, i)])
    ensures Low(a[i := w], i + 1) == OctetVal(octets[WordStart(|octets|, i + 1)..])
  {
    var begin, end := WordStart(|octets|, i + 1), WordStart(|octets|, i);
    LowCongruent(a, a[i := w], i);
    assert octets[begin..] == octets[begin..end] + octets[end..];
    OctetValConcat(octets[begin..end], octets[end..]);
    OctetWeight(i);
  }

  /** The sign bit is that of the first octet, and only of a complete word. */
  lemma TopOctet(octets: seq<Octet>, w: Word, n: nat)
    requires 0 < n <= 4 && n <= |octets| && w == OctetVal(octets[0..n])
    ensures w >= NEG_VAL <==> n == 4 && octets[0] >= 128
  {
    var s := octets[0..n];
    if n == 4 {
      assert s == [s[0], s[1], s[2], s[3]];
      FourOctetVal(s[0], s[1], s[2], s[3]);
    } else {
      OctetValBound(s);
      PowMonotone(256, n, 3);
      assert Pow(256, 1) == 256 && Pow(256, 2) == 65536 && Pow(256, 3) == 16777216;
    }
  }

  /** The octets of the `length` lowest words, most significant first, with `top` for
      the highest of them. */
  method WordsToOctets(a: Poly, length: nat, top: Word) returns (out: seq<Octet>)
    requires 0 < length <= |a|
    ensures |out| == 4 * length && OctetVal(out) == Low(a[length - 1 := top], length)
    ensures out[..4] == WordOctets(top)
  {
    out := [];
    var w := top;
    ghost var b: Poly := a[length - 1 := top];
    for i := length downto 0
      invariant |out| == 4 * (length - i)
      invariant OctetVal(out) * Weight(i) + Low(b, i) == Low(b, length)
      invariant i > 0 ==> w == b[i - 1]
      invariant i < length ==> out[..4] == WordOctets(top)
    {
      PushWord(out, b, i, w);
      out := out + WordOctets(w);
      if i >= 1 {
        w := a[i - 1];
      }
    }
  }

  /** A negative number whose top bit is free for its sign. */
  predicate Signed(x: BigInt) {
    x.Sign() && x.a[Len(x.a) - 1] < NEG_VAL
  }

  /** The word that leads a number whose top bit is set: its sign bit moved by bits and
      not by octets, so that nothing is left of it. */
  function SignWord(negative: bool): (s: seq<Octet>)
    ensures s == [0, 0, 0, 0]
  {
    var val: int := if negative then NEG_VAL else 0;
    [val / 8 % 256, val / 4 % 256, val / 2 % 256, val % 256]
  }

  /** The octets of the significant words, most significant first. With `sign`, a number
      whose top bit is set is led by a zero word, whatever its sign, and a negative one
      whose top bit is free has it set. Nothing for zero. */
  method ToOctets(x: BigInt, sign: bool) returns (out: seq<Octet>)
    ensures |out| == 4 * Len(x.a) + if sign && Len(x.a) > 0 && x.a[Len(x.a) - 1] >= NEG_VAL then 4 else 0
    ensures |out| > 0 || !Signed(x)
    ensures OctetVal(out) == Val(x.a) + if sign && Signed(x) then 128 * Pow(256, |out| - 1) else 0
    ensures sign && |out| > 0 ==> (out[0] >= 128 <==> Signed(x))
  {
    hide OctetVal, WordOctets, Low, Len, Val, SignWord;
    var length := Len(x.a);
    LowLen(x.a, length);
    LowNothing(x.a);
    out := [];
    NoOctets(out);
    if length > 0 {
      var w := x.a[length - 1];
      if sign && w >= NEG_VAL {
        out := SignWord(x.Sign());
      }
      if sign && x.Sign() && w < NEG_VAL {
        w := w + NEG_VAL;
      }
      TopWordOctet(w);
      var octets := WordsToOctets(x.a, length, w);
      TopReplaced(x.a, length, w);
      assert octets[0] == octets[..4][0];
      ZeroWordLeads(octets);
      out := out + octets;
    }
  }

  lemma ZeroWordLeads(octets: seq<Octet>)
    ensures OctetVal([0, 0, 0, 0] + octets) == OctetVal(octets) && [] + octets == octets
  {
    FourOctetVal(0, 0, 0, 0);
    OctetValConcat([0, 0, 0, 0], octets);
  }

  /** Setting the top bit of a word adds 128 in the first octet. */
  lemma TopReplaced(a: Poly, length: nat, w: Word)
    requires 0 < length <= |a| && (w == a[length - 1] || w == a[length - 1] + NEG_VAL)
    ensures Low(a[length - 1 := w], length)
            == Low(a, length) + if w == a[length - 1] then 0 else 128 * Pow(256, 4 * length - 1)
  {
    var n := length - 1;
    var b := a[n := w];
    LowCongruent(a, b, n);
    SignWeight(n);
    Distribute(a[n], NEG_VAL, Weight(n));
  }

  lemma LowNothing(a: Poly)
    ensures Low(a, 0) == 0
  {}

  lemma PushWord(before: seq<Octet>, a: Poly, i: nat, w: Word)
    requires i < |a| && w == a[i]
    ensures OctetVal(before + WordOctets(w)) * Weight(i) + Low(a, i) == OctetVal(before) * Weight(i + 1) + Low(a, i + 1)
  {
    OctetValConcat(before, WordOctets(w));
    FourOctets();
    Distribute(OctetVal(before) * BASE, w, Weight(i));
    Associate(OctetVal(before), BASE, Weight(i));
  }

  lemma TopWordOctet(w: Word)
    ensures WordOctets(w)[0] >= 128 <==> w >= NEG_VAL
  {}
}
