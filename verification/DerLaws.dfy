/** What the DER decoders make of any octets, also of those that no encoder writes, and
    the octets of known encodings (sections 8.1, 8.3 and 8.19 of X.690). */
module DerLaws {
  import opened Arithmetic
  import opened Outcome
  import opened Words
  import opened Octets
  import opened Streams
  import opened DerNumbers
  import opened Der

  // ------------------------------------------------------------------
  // Lengths.

  /** The octets of a length below 128 are the one octet; those of any other are their
      count, with the top bit set, and the octets of its value without a zero in front. */
  lemma LengthExactly(v: UInt64, s: seq<Octet>)
    ensures LengthOctets(v) == s
            <==> if v < 128 then s == [v]
                 else 1 < |s| <= 9 && s[0] == 128 + (|s| - 1) && s[1] > 0 && OctetVal(s[1..]) == v
  {
    if v >= 128 {
      UnsignedIs(v);
      LengthCount(v);
      var all := LengthOctets(v);
      assert all[1..] == Unsigned(v);
      if 1 < |s| && s[1] > 0 && OctetVal(s[1..]) == v {
        UnsignedUnique(s[1..]);
        assert s == [s[0]] + s[1..];
      }
    }
  }

  /** Octets without a zero in front are determined by their value. */
  lemma {:induction false} UnsignedUnique(s: seq<Octet>)
    requires s != [] && s[0] > 0
    ensures s == Unsigned(OctetVal(s))
  {
    var u, d := s[..|s| - 1], s[|s| - 1];
    DivModUnique(OctetVal(s), 256, OctetVal(u), d);
    if |s| == 1 {
      assert u == [] && OctetVal(u) == 0;
    } else {
      UnsignedUnique(u);
      UnsignedIs(OctetVal(u));
      if OctetVal(u) == 0 { ZeroOnly(u); }
    }
  }

  lemma Shifted(v: UInt64, o: Octet, x: nat)
    requires v == x % 0x1_0000_0000_0000_0000
    ensures ShiftIn(v, o) == (x * 256 + o) % 0x1_0000_0000_0000_0000
  {
    var q := x / 0x1_0000_0000_0000_0000;
    DivFloor(x, 0x1_0000_0000_0000_0000);
    var y := v * 256 + o;
    assert x * 256 + o == y + (q * 256) * 0x1_0000_0000_0000_0000;
    ModShift(y, q * 256, 0x1_0000_0000_0000_0000);
  }

  /** A length in any number of octets is read modulo 2^64. */
  lemma {:induction false} OctetsRead(done: seq<Octet>, todo: seq<Octet>, s: seq<Octet>)
    ensures ReadOctets(todo + s, |todo|, OctetVal(done) % 0x1_0000_0000_0000_0000)
            == (OctetVal(done + todo) % 0x1_0000_0000_0000_0000, s)
    decreases |todo|
  {
    if todo == [] {
      assert todo + s == s && done + todo == done;
    } else {
      var o := todo[0];
      assert Next(todo + s) == o && After(todo + s) == todo[1..] + s;
      assert (done + [o])[..|done|] == done && (done + [o]) + todo[1..] == done + todo;
      Shifted(OctetVal(done) % 0x1_0000_0000_0000_0000, o, OctetVal(done));
      OctetsRead(done + [o], todo[1..], s);
    }
  }

  /** Any announced number of octets, zero or up to 127, is taken for a length; if the
      stream ends before they do, the length is that of all bits set. */
  lemma LengthRead(u: seq<Octet>, s: seq<Octet>, missing: nat)
    requires |u| + missing < 128
    ensures ReadLength([128 + |u|] + (u + s)) == (OctetVal(u) % 0x1_0000_0000_0000_0000, s)
    ensures missing > 0 ==> ReadLength([128 + (|u| + missing)] + u) == (TOP64, [])
  {
    hide ReadOctets, OctetVal;
    LongForm(u, |u|, s);
    if missing > 0 {
      LongForm(u, |u| + missing, []);
      assert u + [] == u;
      OctetsMissing(u, missing, 0);
    }
  }

  lemma LongForm(u: seq<Octet>, n: nat, s: seq<Octet>)
    requires n < 128
    ensures ReadLength([128 + n] + (u + s)) == ReadOctets(u + s, n, 0)
    ensures n == |u| ==> ReadOctets(u + s, n, 0) == (OctetVal(u) % 0x1_0000_0000_0000_0000, s)
  {
    HeadAndRest(128 + n, u + s);
    NothingRead();
    hide ReadOctets, OctetVal;
    OctetsRead([], u, s);
    assert [] + u == u;
  }

  lemma NothingRead()
    ensures OctetVal([]) == 0 && 0 % 0x1_0000_0000_0000_0000 == 0
  {}

  lemma {:induction false} OctetsMissing(u: seq<Octet>, missing: nat, v: UInt64)
    requires missing > 0
    ensures ReadOctets(u, |u| + missing, v) == (TOP64, [])
    decreases |u| + missing
  {
    if u != [] {
      OctetsMissing(u[1..], missing, ShiftIn(v, u[0]));
    } else if missing > 1 {
      OctetsMissing(u, missing - 1, TOP64);
    } else {
      assert ReadOctets([], 0, TOP64) == (TOP64, []);
    }
  }

  // ------------------------------------------------------------------
  // Integers.

  /** What the decoder makes of any integer of at least one octet: its octets, and for a
      sign whether the first one is above 80. */
  lemma IntegerExactly(content: seq<Octet>, s: seq<Octet>)
    requires 0 < |content| <= TOP64
    ensures ReadInteger([0x02] + LengthOctets(|content|) + content + s) == Ok((Integer(content, content[0] > 0x80), s))
  {
    var t := content + s;
    IntegerTail(content, s);
    HeadAndRest(0x02, LengthOctets(|content|) + t);
    LengthRoundTrip(|content|, t);
    TakenFrom(content, s);
    FirstNext(content, s);
    hide ReadLength, LengthOctets, Taken, Dropped, Next, After;
    IntegerParts([0x02] + (LengthOctets(|content|) + t), |content|, t);
  }

  lemma IntegerTail(content: seq<Octet>, s: seq<Octet>)
    requires |content| <= TOP64
    ensures [0x02] + LengthOctets(|content|) + content + s == [0x02] + (LengthOctets(|content|) + (content + s))
  {
    hide LengthOctets;
  }

  lemma FirstNext(content: seq<Octet>, s: seq<Octet>)
    requires content != []
    ensures Next(content + s) == content[0]
  {}

  lemma IntegerParts(s: seq<Octet>, n: UInt64, t: seq<Octet>)
    requires Next(s) == 0x02 && ReadLength(After(s)) == (n, t) && n > 0 && Next(t) != END
    ensures ReadInteger(s) == Ok((Integer(Taken(t, n), Next(t) > 0x80), Dropped(t, n)))
  {
    hide ReadLength, Taken, Dropped, After;
  }

  /** So the sign is the first bit of two's complement exactly unless the first octet is
      80: such a number, the least of its length, passes for one that is not negative. */
  lemma SignExactly(content: seq<Octet>)
    requires 0 < |content| <= TOP64
    ensures ReadInteger([0x02] + LengthOctets(|content|) + content).Ok?
    ensures ReadInteger([0x02] + LengthOctets(|content|) + content).value.0.sign == (TwosComplement(content) < 0)
            <==> content[0] != 0x80
  {
    hide ReadInteger, LengthOctets;
    IntegerExactly(content, []);
    var all := [0x02] + LengthOctets(|content|) + content;
    assert all + [] == all;
    OctetValBound(content);
  }

  /** A stream is refused for its tag exactly when it does not begin with 02, and for its
      length exactly when it announces no octet. */
  lemma IntegerRefused(s: seq<Octet>)
    ensures ReadInteger(s) == Throw(InvalidTag) <==> !([0x02] <= s)
    ensures ReadInteger(s) == Throw(InvalidLength) <==> [0x02] <= s && ReadLength(s[1..]).0 == 0
  {
    hide ReadLength;
  }

  /** Content that ends early is filled up with FF. */
  lemma {:induction false} TakenPast(s: seq<Octet>, n: nat)
    ensures Taken(s, n) == if n <= |s| then s[..n] else s + seq(n - |s|, _ => 0xFF)
    decreases n
  {
    if n > 0 { TakenPast(After(s), n - 1); }
  }

  // ------------------------------------------------------------------
  // Object identifiers.

  /** The number that the low seven bits of octets stand for. */
  ghost function SevensVal(s: seq<Octet>): nat {
    if s == [] then 0 else SevensVal(s[..|s| - 1]) * 128 + s[|s| - 1] % 128
  }

  lemma NextSevens(node: Word, o: Octet, x: nat)
    requires node == x % BASE
    ensures NextNode(node, o) == (x * 128 + o % 128) % BASE
  {
    DivFloor(x, BASE);
    var q := x / BASE;
    var y := node * 128 + o % 128;
    assert x * 128 + o % 128 == y + (q * 128) * BASE;
    ModShift(y, q * 128, BASE);
    Sevens(node);
    DivFloor(node * 128, BASE);
    var p := node * 128 / BASE;
    assert y == NextNode(node, o) + p * BASE;
    ModShift(NextNode(node, o), p, BASE);
    DivModUnique(NextNode(node, o), BASE, 0, NextNode(node, o));
  }

  lemma {:induction false} ArcFrom(done: seq<Octet>, todo: seq<Octet>, s: seq<Octet>)
    requires todo != [] && todo[|todo| - 1] < 128 && forall i | 0 <= i < |todo| - 1 :: todo[i] >= 128
    ensures Terminated(todo + s)
    ensures ReadArc(todo + s, SevensVal(done) % BASE) == (SevensVal(done + todo) % BASE, s)
    decreases |todo|
  {
    hide SevensVal, ReadArc, NextNode;
    var o, rest := todo[0], todo[1..];
    NextSevens(SevensVal(done) % BASE, o, SevensVal(done));
    SevensMore(done, o);
    assert (done + [o]) + rest == done + todo && todo + s == [o] + (rest + s);
    if |todo| > 1 {
      ArcFrom(done + [o], rest, s);
      MarkedRead(o, rest + s, SevensVal(done) % BASE);
    } else {
      assert rest + s == s && done + [o] == done + todo;
      LastRead(o, s, SevensVal(done) % BASE);
    }
  }

  lemma SevensMore(s: seq<Octet>, o: Octet)
    ensures SevensVal(s + [o]) == SevensVal(s) * 128 + o % 128
  {
    assert (s + [o])[..|s|] == s;
  }

  /** An arc is the number of its octets' low bits modulo 2^32, also where it begins with
      80 or takes more than 32 bits. */
  lemma ArcRead(u: seq<Octet>, s: seq<Octet>)
    requires u != [] && u[|u| - 1] < 128 && forall i | 0 <= i < |u| - 1 :: u[i] >= 128
    ensures Terminated(u + s) && ReadArc(u + s, 0) == (SevensVal(u) % BASE, s)
  {
    NoSevens();
    hide SevensVal, ReadArc;
    ArcFrom([], u, s);
    assert [] + u == u;
  }

  lemma NoSevens()
    ensures SevensVal([]) == 0 && 0 % BASE == 0
  {}

  /** An object identifier is refused for its tag exactly when it does not begin with 06. */
  lemma OidRefused(s: seq<Octet>)
    requires WholeOid(s)
    ensures ReadOid(s) == Throw(InvalidTag) <==> !([0x06] <= s)
    ensures ReadOid(s) == Throw(InvalidLength) <==> [0x06] <= s && ReadLength(s[1..]).0 == 0
  {
    hide ReadLength, ReadArcs;
  }

  /** The arcs of what is written: forty times the first and the second in one, computed in
      32 bits, and all the others. */
  lemma OidArcs(nodes: seq<Word>)
    requires |nodes| >= 2
    ensures var a: int, b: int := nodes[0], nodes[1];
            ReadArcs(OidContent(nodes)) == [(a * 40 + b) % 0x1_0000_0000] + nodes[2..]
  {
    var first := FirstArc(nodes[0], nodes[1]);
    var all := [first] + nodes[2..];
    assert all[1..] == nodes[2..];
    hide ReadArcs, FirstArc;
    ArcsRoundTrip(all);
  }

  // ------------------------------------------------------------------
  // Known encodings.

  /** The identifier of RSA, 1.2.840.113549, and the integers 0, 127, 128 and -128 of 16
      bits. */
  lemma KnownEncodings()
    ensures Tlv(OID, OidContent([1, 2, 840, 113549])) == [0x06, 0x06, 0x2A, 0x86, 0x48, 0x86, 0xF7, 0x0D]
    ensures Tlv(INTEGER, IntegerContent(0, 2, true)) == [0x02, 0x01, 0x00]
    ensures Tlv(INTEGER, IntegerContent(127, 2, true)) == [0x02, 0x01, 0x7F]
    ensures Tlv(INTEGER, IntegerContent(128, 2, true)) == [0x02, 0x02, 0x00, 0x80]
    ensures Tlv(INTEGER, IntegerContent(0xFF80, 2, true)) == [0x02, 0x02, 0xFF, 0x80]
  {
    KnownOid();
    KnownIntegers();
  }

  lemma KnownOid()
    ensures Tlv(OID, OidContent([1, 2, 840, 113549])) == [0x06, 0x06, 0x2A, 0x86, 0x48, 0x86, 0xF7, 0x0D]
  {
    ArcDigits(42);
    ArcDigits(840);
    ArcDigits(113549);
    hide ArcOctets;
    TwoArcs(840, 113549);
    var nodes: seq<Word> := [1, 2, 840, 113549];
    assert nodes[2..] == [840, 113549];
    hide ArcsOctets;
    KnownContent(nodes);
    assert OidContent(nodes) == [0x2A] + ([0x86, 0x48] + [0x86, 0xF7, 0x0D]);
  }

  lemma KnownContent(nodes: seq<Word>)
    requires |nodes| == 4 && nodes[0] == 1 && nodes[1] == 2
    ensures OidContent(nodes) == ArcOctets(42) + ArcsOctets(nodes[2..])
  {
    hide ArcOctets, ArcsOctets;
  }

  lemma TwoArcs(a: Word, b: Word)
    ensures ArcsOctets([a, b]) == ArcOctets(a) + ArcOctets(b)
  {
    hide ArcOctets;
    assert [a, b][1..] == [b] && [b][1..] == [];
    assert ArcsOctets([b]) == ArcOctets(b) + ArcsOctets([]) == ArcOctets(b);
  }

  lemma KnownIntegers()
    ensures Tlv(INTEGER, IntegerContent(0, 2, true)) == [0x02, 0x01, 0x00]
    ensures Tlv(INTEGER, IntegerContent(127, 2, true)) == [0x02, 0x01, 0x7F]
    ensures Tlv(INTEGER, IntegerContent(128, 2, true)) == [0x02, 0x02, 0x00, 0x80]
    ensures Tlv(INTEGER, IntegerContent(0xFF80, 2, true)) == [0x02, 0x02, 0xFF, 0x80]
  {
    Halves();
    assert Shortest(128) == Shortest(0) + [128];
    assert BigEndian(0xFF80, 2) == BigEndian(0xFF, 1) + [0x80];
    assert BigEndian(0xFF, 1) == BigEndian(0, 0) + [0xFF];
  }
}
