/** The DER codec for lengths, integers and object identifiers over a stream. What
    the encoders put is given by the shortest forms of the numbers; what the
    decoders take is given for every stream, and the two are inverse. */
module Der {
  import opened Arithmetic
  import opened Outcome
  import opened Words
  import opened Octets
  import opened Streams
  import opened DerNumbers
  import Polynomial
  import BigIntegers

  type UInt64 = Polynomial.UInt64

  const TOP64 := 0xFFFF_FFFF_FFFF_FFFF
  const INTEGER: Octet := 0x02
  const OID: Octet := 0x06

  // ------------------------------------------------------------------
  // Lengths.

  method EncodeLength(stream: OctetStream, length: UInt64)
    requires stream.Valid()
    modifies stream
    ensures stream.Valid() && stream.position == old(stream.position)
    ensures stream.data == old(stream.data) + LengthOctets(length)
  {
    if length < 0x80 {
      stream.Put(length);
      return;
    }
    var n := CountOctets(length);
    stream.Put(0x80 + n);
    stream.Write(BigEndian(length, n));
  }

  /** How many octets the branches of the length encoder write. */
  function CountOctets(length: UInt64): (n: nat)
    requires length >= 0x80
    ensures Unsigned(length) == BigEndian(length, n) && n <= 8
  {
    EightOctets();
    var n := if length < 0x100 then 1 else if length < 0x1_0000 then 2 else if length < 0x100_0000 then 3
             else if length < 0x1_0000_0000 then 4 else if length < 0x100_0000_0000 then 5
             else if length < 0x1_0000_0000_0000 then 6 else if length < 0x100_0000_0000_0000 then 7 else 8;
    UnsignedShifts(length, n);
    n
  }

  /** A 64-bit number with the next octet shifted in; the end of the stream, as -1,
      sets all bits. */
  function ShiftIn(v: UInt64, o: int): UInt64
    requires -1 <= o < 256
  {
    if o == END then TOP64 else v * 256 % 0x1_0000_0000_0000_0000 + o
  }

  /** What the decoder makes of a stream: a length and what is left. */
  function ReadOctets(s: seq<Octet>, n: nat, v: UInt64): (UInt64, seq<Octet>) {
    if n == 0 then (v, s) else ReadOctets(After(s), n - 1, ShiftIn(v, Next(s)))
  }

  function ReadLength(s: seq<Octet>): (UInt64, seq<Octet>) {
    var first := AsOctet(Next(s));
    if first < 128 then (first, After(s)) else ReadOctets(After(s), first - 128, 0)
  }

  method DecodeLength(stream: OctetStream) returns (length: UInt64)
    requires stream.Valid()
    modifies stream
    ensures stream.Valid() && stream.data == old(stream.data)
    ensures (length, stream.Rest()) == ReadLength(old(stream.Rest()))
  {
    var first := stream.Get();
    var lenByte: Octet := AsOctet(first);
    if lenByte < 128 {
      return lenByte;
    }
    lenByte := lenByte - 128;
    length := 0;
    for i := 0 to lenByte
      invariant stream.Valid() && stream.data == old(stream.data)
      invariant ReadOctets(stream.Rest(), lenByte - i, length) == ReadLength(old(stream.Rest()))
    {
      var o := stream.Get();
      length := ShiftIn(length, o);
    }
  }

  lemma {:induction false} ReadBigEndian(u: seq<Octet>, s: seq<Octet>, v: UInt64)
    requires |u| <= 8 && v < Pow(256, 8 - |u|)
    ensures 0 <= v * Pow(256, |u|) + OctetVal(u) <= TOP64
    ensures ReadOctets(u + s, |u|, v) == (v * Pow(256, |u|) + OctetVal(u), s)
    decreases |u|
  {
    ReadBound(u, v);
    if u == [] {
      assert u + s == s;
    } else {
      var o, t := u[0], u[1..];
      ShiftFits(v, o, |u|);
      assert Next(u + s) == o && After(u + s) == t + s;
      ReadBigEndian(t, s, v * 256 + o);
      assert u == [o] + t;
      OctetValConcat([o], t);
      OneOctet(o);
      Distribute(v * 256, o, Pow(256, |t|));
      Associate(v, 256, Pow(256, |t|));
    }
  }

  lemma ReadBound(u: seq<Octet>, v: nat)
    requires |u| <= 8 && v < Pow(256, 8 - |u|)
    ensures 0 <= v * Pow(256, |u|) + OctetVal(u) <= TOP64
  {
    EightOctets();
    OctetValBound(u);
    PowAdd(256, 8 - |u|, |u|);
    var p := Pow(256, |u|);
    ScaleInequality(v + 1, Pow(256, 8 - |u|), p);
    Distribute(v, 1, p);
    MulNonNegative(v, p);
  }

  lemma ShiftFits(v: nat, o: Octet, k: nat)
    requires 0 < k <= 8 && v < Pow(256, 8 - k)
    ensures v * 256 + o < Pow(256, 8 - (k - 1)) && v * 256 + o <= TOP64 && ShiftIn(v, o) == v * 256 + o
  {
    EightOctets();
    PowMonotone(256, 8 - k, 7);
    assert Pow(256, 8 - (k - 1)) == 256 * Pow(256, 8 - k);
  }

  lemma OneOctet(o: Octet)
    ensures OctetVal([o]) == o
  {
    assert [o][..0] == [];
  }

  /** decode_length inverts encode_length for every 64-bit length, whatever
      follows. */
  lemma LengthRoundTrip(v: UInt64, s: seq<Octet>)
    ensures ReadLength(LengthOctets(v) + s) == (v, s)
  {
    if v < 128 {
      HeadAndRest(v, s);
    } else {
      var u := Unsigned(v);
      LengthCount(v);
      UnsignedIs(v);
      LongLength(u, s);
      Reassociate([128 + |u|], u, s);
    }
  }

  lemma Reassociate(a: seq<Octet>, b: seq<Octet>, c: seq<Octet>)
    ensures (a + b) + c == a + (b + c)
  {}

  lemma LongLength(u: seq<Octet>, s: seq<Octet>)
    requires 0 < |u| <= 8 && OctetVal(u) <= TOP64
    ensures ReadLength([128 + |u|] + (u + s)) == (OctetVal(u), s)
  {
    HeadAndRest(128 + |u|, u + s);
    ZeroFits(|u|);
    ReadBigEndian(u, s, 0);
  }

  lemma HeadAndRest(o: Octet, s: seq<Octet>)
    ensures Next([o] + s) == o && After([o] + s) == s
  {}

  lemma ZeroFits(n: nat)
    requires n <= 8
    ensures 0 < Pow(256, 8 - n)
  {
    PowPositive(256, 8 - n);
  }

  // ------------------------------------------------------------------
  // Integers.

  /** Tag, length and content. */
  function Tlv(tag: Octet, content: seq<Octet>): seq<Octet>
    requires |content| < 0x1_0000_0000_0000_0000
  {
    [tag] + LengthOctets(|content|) + content
  }

  /** The bit pattern of a signed width is that of a negative number. */
  predicate Negative(v: nat, width: nat, signed: bool)
    requires width > 0
  {
    signed && v >= Pow2(8 * width - 1)
  }

  /** The content for an integer of a width, given as its bit pattern: all octets
      of a negative number, and the shortest form of any other. */
  function IntegerContent(v: nat, width: nat, signed: bool): (s: seq<Octet>)
    requires v <= TOP64 && 0 < width <= 8
    ensures 0 < |s| <= 9
  {
    EightOctets();
    ShortestCount(v, 9);
    if Negative(v, width, signed) then BigEndian(v, width) else Shortest(v)
  }

  lemma Halves()
    ensures Pow2(7) == 0x80 && Pow2(15) == 0x8000 && Pow2(31) == 0x8000_0000 && Pow2(63) == 0x8000_0000_0000_0000
  {
    assert Pow(2, 7) == 0x80;
    PowAdd(2, 7, 8);
    assert Pow(2, 8) == 2 * Pow(2, 7);
    PowAdd(2, 15, 16);
    assert Pow(2, 16) == 2 * Pow(2, 15);
    PowAdd(2, 31, 32);
    assert Pow(2, 32) == 2 * Pow(2, 31);
  }

  /** A number whose upper octet reads as negative takes a zero octet more. */
  lemma SpareOctet(v: nat, n: nat)
    requires n > 0 && 128 * Pow(256, n - 1) <= v < Pow(256, n)
    ensures Shortest(v) == [0] + BigEndian(v, n)
  {
    PowPositive(256, n);
    ShortestShifts(v, n + 1);
    LeadingZero(v, n);
  }

  method PutInteger(stream: OctetStream, content: seq<Octet>)
    requires stream.Valid() && |content| < 0x80
    modifies stream
    ensures stream.Valid() && stream.position == old(stream.position)
    ensures stream.data == old(stream.data) + Tlv(INTEGER, content)
  {
    stream.Put(INTEGER);
    stream.Put(|content|);
    stream.Write(content);
  }

  method EncodeInt8(stream: OctetStream, v: nat)
    requires stream.Valid() && v < 0x100
    modifies stream
    ensures stream.Valid() && stream.position == old(stream.position)
    ensures stream.data == old(stream.data) + Tlv(INTEGER, IntegerContent(v, 1, true))
  {
    Halves();
    assert BigEndian(v, 1) == BigEndian(v / 256, 0) + [v % 256];
    PutInteger(stream, [v]);
  }

  method EncodeUInt8(stream: OctetStream, v: nat)
    requires stream.Valid() && v < 0x100
    modifies stream
    ensures stream.Valid() && stream.position == old(stream.position)
    ensures stream.data == old(stream.data) + Tlv(INTEGER, IntegerContent(v, 1, false))
  {
    Halves();
    if v < 0x80 {
      EncodeInt8(stream, v);
    } else {
      assert Shortest(v) == Shortest(v / 256) + [v % 256];
      PutInteger(stream, [0, v]);
    }
  }

  method EncodeInt16(stream: OctetStream, v: nat)
    requires stream.Valid() && v < 0x1_0000
    modifies stream
    ensures stream.Valid() && stream.position == old(stream.position)
    ensures stream.data == old(stream.data) + Tlv(INTEGER, IntegerContent(v, 2, true))
  {
    Halves();
    EightOctets();
    if v < 0x80 {
      EncodeInt8(stream, v);
    } else if v < 0x100 {
      EncodeUInt8(stream, v);
    } else {
      if v < 0x8000 { ShortestShifts(v, 2); }
      PutInteger(stream, BigEndian(v, 2));
    }
  }

  method EncodeUInt16(stream: OctetStream, v: nat)
    requires stream.Valid() && v < 0x1_0000
    modifies stream
    ensures stream.Valid() && stream.position == old(stream.position)
    ensures stream.data == old(stream.data) + Tlv(INTEGER, IntegerContent(v, 2, false))
  {
    Halves();
    EightOctets();
    if v < 0x80 {
      EncodeInt8(stream, v);
    } else if v < 0x100 {
      EncodeUInt8(stream, v);
    } else if v < 0x8000 {
      EncodeInt16(stream, v);
    } else {
      SpareOctet(v, 2);
      PutInteger(stream, [0] + BigEndian(v, 2));
    }
  }

  method EncodeInt32(stream: OctetStream, v: nat)
    requires stream.Valid() && v < 0x1_0000_0000
    modifies stream
    ensures stream.Valid() && stream.position == old(stream.position)
    ensures stream.data == old(stream.data) + Tlv(INTEGER, IntegerContent(v, 4, true))
  {
    Halves();
    EightOctets();
    if v < 0x80 {
      EncodeInt8(stream, v);
    } else if v < 0x100 {
      EncodeUInt8(stream, v);
    } else if v < 0x8000 {
      EncodeInt16(stream, v);
    } else if v < 0x1_0000 {
      EncodeUInt16(stream, v);
    } else if v < 0x80_0000 {
      ShortestShifts(v, 3);
      PutInteger(stream, BigEndian(v, 3));
    } else if v < 0x100_0000 {
      SpareOctet(v, 3);
      PutInteger(stream, [0] + BigEndian(v, 3));
    } else {
      if v < 0x8000_0000 { ShortestShifts(v, 4); }
      PutInteger(stream, BigEndian(v, 4));
    }
  }

  method EncodeUInt32(stream: OctetStream, v: nat)
    requires stream.Valid() && v < 0x1_0000_0000
    modifies stream
    ensures stream.Valid() && stream.position == old(stream.position)
    ensures stream.data == old(stream.data) + Tlv(INTEGER, IntegerContent(v, 4, false))
  {
    Halves();
    EightOctets();
    if v < 0x80 {
      EncodeInt8(stream, v);
    } else if v < 0x100 {
      EncodeUInt8(stream, v);
    } else if v < 0x8000 {
      EncodeInt16(stream, v);
    } else if v < 0x1_0000 {
      EncodeUInt16(stream, v);
    } else if v < 0x8000_0000 {
      EncodeInt32(stream, v);
    } else {
      SpareOctet(v, 4);
      PutInteger(stream, [0] + BigEndian(v, 4));
    }
  }

  /** The numbers whose encoding lacks its tag. */
  predicate Untagged(v: nat) {
    0x80_0000_0000_0000 <= v < 0x100_0000_0000_0000
  }

  method EncodeInt64(stream: OctetStream, v: UInt64)
    requires stream.Valid()
    modifies stream
    ensures stream.Valid() && stream.position == old(stream.position)
    ensures stream.data == old(stream.data)
                           + if Untagged(v) then [0x08, 0x00] + BigEndian(v, 7) else Tlv(INTEGER, IntegerContent(v, 8, true))
  {
    Halves();
    EightOctets();
    if v < 0x80 {
      EncodeInt8(stream, v);
    } else if v < 0x100 {
      EncodeUInt8(stream, v);
    } else if v < 0x8000 {
      EncodeInt16(stream, v);
    } else if v < 0x1_0000 {
      EncodeUInt16(stream, v);
    } else if v < 0x8000_0000 {
      EncodeInt32(stream, v);
    } else if v < 0x1_0000_0000 {
      EncodeUInt32(stream, v);
    } else {
      EncodeLarge(stream, v);
    }
  }

  /** The branches of the 64-bit encoder that write more than four octets. */
  method EncodeLarge(stream: OctetStream, v: UInt64)
    requires stream.Valid() && v >= 0x1_0000_0000
    modifies stream
    ensures stream.Valid() && stream.position == old(stream.position)
    ensures stream.data == old(stream.data)
                           + if Untagged(v) then [0x08, 0x00] + BigEndian(v, 7) else Tlv(INTEGER, IntegerContent(v, 8, true))
  {
    Halves();
    EightOctets();
    if v < 0x80_0000_0000 {
      ShortestShifts(v, 5);
      PutInteger(stream, BigEndian(v, 5));
    } else if v < 0x100_0000_0000 {
      SpareOctet(v, 5);
      PutInteger(stream, [0] + BigEndian(v, 5));
    } else if v < 0x8000_0000_0000 {
      ShortestShifts(v, 6);
      PutInteger(stream, BigEndian(v, 6));
    } else if v < 0x1_0000_0000_0000 {
      SpareOctet(v, 6);
      PutInteger(stream, [0] + BigEndian(v, 6));
    } else if v < 0x80_0000_0000_0000 {
      ShortestShifts(v, 7);
      PutInteger(stream, BigEndian(v, 7));
    } else if v < 0x100_0000_0000_0000 {
      stream.Put(0x08);
      stream.Put(0x00);
      stream.Write(BigEndian(v, 7));
    } else {
      if v < 0x8000_0000_0000_0000 { ShortestShifts(v, 8); }
      PutInteger(stream, BigEndian(v, 8));
    }
  }

  method EncodeUInt64(stream: OctetStream, v: UInt64)
    requires stream.Valid()
    modifies stream
    ensures stream.Valid() && stream.position == old(stream.position)
    ensures stream.data == old(stream.data)
                           + if Untagged(v) then [0x08, 0x00] + BigEndian(v, 7) else Tlv(INTEGER, IntegerContent(v, 8, false))
  {
    Halves();
    EightOctets();
    if v < 0x80 {
      EncodeInt8(stream, v);
    } else if v < 0x100 {
      EncodeUInt8(stream, v);
    } else if v < 0x8000 {
      EncodeInt16(stream, v);
    } else if v < 0x1_0000 {
      EncodeUInt16(stream, v);
    } else if v < 0x8000_0000 {
      EncodeInt32(stream, v);
    } else if v < 0x1_0000_0000 {
      EncodeUInt32(stream, v);
    } else if v < 0x8000_0000_0000_0000 {
      EncodeInt64(stream, v);
    } else {
      SpareOctet(v, 8);
      PutInteger(stream, [0] + BigEndian(v, 8));
    }
  }

  /** The octets read for an integer, and whether its first one reads as a sign. */
  datatype Integer = Integer(octets: seq<Octet>, sign: bool)

  /** The next n octets, as reads past the end store them. */
  function Taken(s: seq<Octet>, n: nat): (r: seq<Octet>)
    ensures |r| == n
  {
    if n == 0 then [] else [AsOctet(Next(s))] + Taken(After(s), n - 1)
  }

  function Dropped(s: seq<Octet>, n: nat): seq<Octet> {
    if n <= |s| then s[n..] else []
  }

  /** What the decoder makes of a stream: an integer and what is left. */
  function ReadInteger(s: seq<Octet>): Result<(Integer, seq<Octet>)> {
    if AsOctet(Next(s)) != INTEGER then Throw(InvalidTag)
    else
      var (n, t) := ReadLength(After(s));
      if n == 0 then Throw(InvalidLength)
      else Ok((Integer(Taken(t, n), !(n > 1 && Next(t) == 0) && (Next(t) == END || Next(t) > 0x80)), Dropped(t, n)))
  }

  method DecodeInteger(stream: OctetStream) returns (r: Result<Integer>)
    requires stream.Valid()
    modifies stream
    ensures stream.Valid() && stream.data == old(stream.data)
    ensures match ReadInteger(old(stream.Rest()))
            case Throw(e) => r == Throw(e)
            case Ok((integer, rest)) => r == Ok(integer) && stream.Rest() == rest
  {
    var tag := stream.Get();
    if AsOctet(tag) != INTEGER {
      return Throw(InvalidTag);
    }
    var length := DecodeLength(stream);
    if length == 0 {
      return Throw(InvalidLength);
    }
    ghost var t := stream.Rest();
    var first := stream.Peek();
    var sign := if length > 1 && first == 0 then false else first == END || first > 0x80;
    var octets := TakeOctets(stream, length);
    return Ok(Integer(octets, sign));
  }

  /** The loop that fills the integer's array. */
  method TakeOctets(stream: OctetStream, length: nat) returns (octets: seq<Octet>)
    requires stream.Valid()
    modifies stream
    ensures stream.Valid() && stream.data == old(stream.data)
    ensures octets == Taken(old(stream.Rest()), length) && stream.Rest() == Dropped(old(stream.Rest()), length)
  {
    var buffer := new Octet[length](_ => 0);
    ghost var s := stream.Rest();
    for i := 0 to length
      invariant stream.Valid() && stream.data == old(stream.data)
      invariant buffer[..i] == Taken(s, i) && stream.Rest() == Dropped(s, i)
    {
      TakenNext(s, i);
      ghost var before: seq<Octet> := buffer[..i];
      var o := stream.Get();
      buffer[i] := AsOctet(o);
      assert buffer[..i + 1] == before + [AsOctet(o)];
    }
    octets := buffer[..];
  }

  lemma {:induction false} TakenNext(s: seq<Octet>, i: nat)
    ensures Taken(s, i + 1) == Taken(s, i) + [AsOctet(Next(Dropped(s, i)))]
    ensures After(Dropped(s, i)) == Dropped(s, i + 1)
    decreases i
  {
    if i > 0 {
      TakenNext(After(s), i - 1);
      assert Dropped(After(s), i - 1) == Dropped(s, i) && Dropped(After(s), i) == Dropped(s, i + 1);
    } else {
      assert Taken(After(s), 0) == [] && Dropped(s, 0) == s;
    }
  }

  /** The conversion to an unsigned integer of 16, 32 or 64 bits: shifts that lose
      what does not fit. */
  method ToUnsigned(integer: Integer, bits: nat) returns (v: nat)
    requires |integer.octets| > 0 && bits >= 8
    ensures v == OctetVal(integer.octets) % Pow2(bits)
  {
    var s := integer.octets;
    v := s[0];
    FirstRemainder(s, bits);
    for i := 1 to |s|
      invariant v == OctetVal(s[..i]) % Pow2(bits)
    {
      assert s[..i + 1][..i] == s[..i];
      NextRemainder(OctetVal(s[..i]), s[i], Pow2(bits));
      v := (v * 256 % Pow2(bits) + s[i]) % Pow2(bits);
    }
    assert s[..|s|] == s;
  }

  lemma FirstRemainder(s: seq<Octet>, bits: nat)
    requires |s| > 0 && bits >= 8
    ensures s[0] == OctetVal(s[..1]) % Pow2(bits)
  {
    OneOctet(s[0]);
    assert s[..1] == [s[0]];
    assert Pow(2, 8) == 256;
    PowMonotone(2, 8, bits);
    DivModUnique(s[0], Pow2(bits), 0, s[0]);
  }

  lemma NextRemainder(x: nat, o: nat, p: nat)
    requires p > 0
    ensures (x % p * 256 % p + o) % p == (x * 256 + o) % p
  {
    ModIdempotent(x, p);
    CongruentMul(x % p, x, 256, 256, p);
    ModIdempotent(x % p * 256, p);
    CongruentAdd(x % p * 256 % p, x * 256, o, o, p);
  }

  lemma {:induction false} TakenFrom(u: seq<Octet>, s: seq<Octet>)
    ensures Taken(u + s, |u|) == u && Dropped(u + s, |u|) == s
  {
    if u != [] {
      assert Next(u + s) == u[0] && After(u + s) == u[1..] + s;
      TakenFrom(u[1..], s);
    }
  }

  /** Reading back a tag, a length and a content. */
  lemma IntegerRead(content: seq<Octet>, s: seq<Octet>)
    requires 0 < |content| <= TOP64
    ensures ReadInteger(Tlv(INTEGER, content) + s).Ok?
    ensures ReadInteger(Tlv(INTEGER, content) + s).value.0.octets == content
    ensures ReadInteger(Tlv(INTEGER, content) + s).value.1 == s
  {
    var all := Tlv(INTEGER, content) + s;
    var lengths := LengthOctets(|content|);
    assert all == [INTEGER] + (lengths + (content + s));
    assert After(all) == lengths + (content + s) && Next(all) == INTEGER;
    LengthRoundTrip(|content|, content + s);
    TakenFrom(content, s);
  }

  /** The bit pattern of an integer of a width is read back from its content. */
  lemma ContentValue(v: nat, width: nat, signed: bool)
    requires v <= TOP64 && 0 < width <= 8 && v < Pow(256, width)
    ensures OctetVal(IntegerContent(v, width, signed)) == v
  {
    ShortestIs(v);
    BigEndianVal(v, width);
  }

  /** decode_integer inverts encode_integer for 64-bit numbers, signed ones by
      their bit patterns, exactly when their encoding does not lack its tag. */
  method RoundTrip64(v: UInt64, signed: bool) returns (r: Result<nat>)
    ensures r == if Untagged(v) then Throw(InvalidTag) else Ok(v)
  {
    var stream := new OctetStream();
    if signed {
      EncodeInt64(stream, v);
    } else {
      EncodeUInt64(stream, v);
    }
    ghost var content := IntegerContent(v, 8, signed);
    if !Untagged(v) {
      IntegerRead(content, []);
      assert stream.Rest() == Tlv(INTEGER, content) + [];
    } else {
      assert stream.Rest() == [0x08, 0x00] + BigEndian(v, 7);
    }
    var integer := DecodeInteger(stream);
    if integer.Throw? {
      return Throw(integer.error);
    }
    EightOctets();
    ContentValue(v, 8, signed);
    var back := ToUnsigned(integer.value, 64);
    assert Pow2(64) == 0x1_0000_0000_0000_0000 by { PowMul(2, 8, 8); assert Pow(2, 8) == 256; }
    DivModUnique(v, Pow2(64), 0, v);
    return Ok(back);
  }

  /** What two's complement makes of octets (section 8.3.3 of X.690). */
  ghost function TwosComplement(s: seq<Octet>): int {
    OctetVal(s) - if |s| > 0 && s[0] >= 128 then Pow(256, |s|) else 0
  }

  lemma HalfWidth(width: nat)
    requires width > 0
    ensures Pow2(8 * width - 1) == 128 * Pow(256, width - 1)
  {
    PowMul(2, 8, width - 1);
    PowAdd(2, 7, 8 * (width - 1));
    assert Pow(2, 8) == 256 && Pow(2, 7) == 128;
  }

  /** The content of every width means its number, and it has no octet to spare unless
      the number is negative and fits in fewer than all octets of its width. */
  lemma ContentShortest(v: nat, width: nat, signed: bool)
    requires v <= TOP64 && 0 < width <= 8 && (signed ==> v < Pow(256, width))
    ensures var content := IntegerContent(v, width, signed);
            && TwosComplement(content) == v - (if Negative(v, width, signed) then Pow(256, width) else 0)
            && (NothingSpare(content)
                <==> !Negative(v, width, signed) || width == 1 || v < Pow(256, width) - 128 * Pow(256, width - 2))
            && (!Negative(v, width, signed) ==> IsShortest(content) && OctetVal(content) == v)
  {
    hide OctetVal, BigEndian;
    ShortestIs(v);
    if Negative(v, width, signed) {
      HalfWidth(width);
      BigEndianVal(v, width);
      FirstOctet(BigEndian(v, width));
      if width > 1 { NegativeSpare(v, width); }
    }
  }

  /** The 16-bit -1 takes an octet more than it needs. */
  lemma MinusOneNotShortest()
    ensures var content := IntegerContent(0xFFFF, 2, true);
            content == [0xFF, 0xFF] && TwosComplement(content) == -1 && !NothingSpare(content)
  {
    Halves();
    EightOctets();
    ContentShortest(0xFFFF, 2, true);
    assert Negative(0xFFFF, 2, true) && Pow(256, 2) == 0x1_0000;
    assert BigEndian(0xFFFF, 2) == BigEndian(0xFF, 1) + [0xFF];
    assert BigEndian(0xFF, 1) == BigEndian(0, 0) + [0xFF];
  }

  // ------------------------------------------------------------------
  // Big integers.

  /** Writes the octets without the leading zeros that the shortest form does
      without. */
  method EncodeTrimmed(stream: OctetStream, octets: seq<Octet>)
    requires stream.Valid() && |octets| <= TOP64
    modifies stream
    ensures stream.Valid() && stream.position == old(stream.position)
    ensures stream.data == old(stream.data) + Tlv(INTEGER, Trimmed(octets))
  {
    var begin := TrimStart(octets);
    PutTlv(stream, INTEGER, octets[begin..]);
  }

  /** The tag, the length and the content, as every encoder of a string of octets
      puts them. */
  method PutTlv(stream: OctetStream, tag: Octet, content: seq<Octet>)
    requires stream.Valid() && |content| <= TOP64
    modifies stream
    ensures stream.Valid() && stream.position == old(stream.position)
    ensures stream.data == old(stream.data) + Tlv(tag, content)
  {
    ghost var before := stream.data;
    stream.Put(tag);
    EncodeLength(stream, |content|);
    stream.Write(content);
    Reassociate(before, [tag], LengthOctets(|content|));
    Reassociate(before, [tag] + LengthOctets(|content|), content);
  }

  method TrimStart(octets: seq<Octet>) returns (begin: nat)
    ensures begin <= |octets| && octets[begin..] == Trimmed(octets)
  {
    begin := 0;
    while begin + 1 < |octets| && octets[begin] == 0 && octets[begin + 1] < 128
      invariant begin <= |octets|
      invariant Trimmed(octets[begin..]) == Trimmed(octets)
    {
      assert octets[begin..][1..] == octets[begin + 1..];
      begin := begin + 1;
    }
  }

  function Trimmed(s: seq<Octet>): (r: seq<Octet>)
    ensures |r| <= |s|
  {
    if |s| > 1 && s[0] == 0 && s[1] < 128 then Trimmed(s[1..]) else s
  }

  /** Trimming keeps the number and leaves its shortest form. */
  lemma {:induction false} TrimmedIs(s: seq<Octet>)
    requires |s| > 0 && s[0] < 128
    ensures Trimmed(s) == Shortest(OctetVal(s))
  {
    if |s| > 1 && s[0] == 0 && s[1] < 128 {
      TrimmedIs(s[1..]);
      assert s == [s[0]] + s[1..];
      OctetValConcat([s[0]], s[1..]);
      OneOctet(0);
    } else {
      ShortestUnique(s);
    }
  }

  /** The content of a number that is not zero: the shortest two's complement form of its
      magnitude, or, for a negative one whose top bit is free, its whole words with the
      sign in the first bit. */
  ghost function BigContent(x: BigIntegers.BigInt): seq<Octet>
    requires x.Int() != 0
  {
    LenBounds(x.a);
    PowPositive(256, 4 * Len(x.a) - 1);
    if Signed(x) then BigEndian(Val(x.a) + 128 * Pow(256, 4 * Len(x.a) - 1), 4 * Len(x.a)) else Shortest(Val(x.a))
  }

  /** Octets that begin with a sign bit are not trimmed. */
  lemma SignedOctets(x: BigIntegers.BigInt, octets: seq<Octet>)
    requires Signed(x) && |octets| == 4 * Len(x.a) > 0 && octets[0] >= 128
    requires OctetVal(octets) == Val(x.a) + 128 * Pow(256, |octets| - 1)
    ensures x.Int() != 0 && Trimmed(octets) == octets == BigContent(x)
  {
    hide OctetVal, BigEndian, Pow;
    BigIntegers.Magnitude(x);
    LenBounds(x.a);
    OctetValBound(octets);
    BigEndianVal(OctetVal(octets), |octets|);
    OctetValInjective(octets, BigEndian(OctetVal(octets), |octets|));
  }

  method EncodeBigInt(stream: OctetStream, x: BigIntegers.BigInt)
    requires stream.Valid() && Len(x.a) <= 0x1FFF_FFFF_FFFF_FFFF
    modifies stream
    ensures stream.Valid() && stream.position == old(stream.position)
    ensures x.Int() == 0 ==> stream.data == old(stream.data) + [INTEGER, 0]
    ensures x.Int() != 0 ==> 0 < |BigContent(x)| <= TOP64 && stream.data == old(stream.data) + Tlv(INTEGER, BigContent(x))
  {
    hide OctetVal, BigEndian, Pow, Shortest, Trimmed, BigContent, LengthOctets;
    var octets := ToOctets(x, true);
    EncodeTrimmed(stream, octets);
    BigOctets(x, octets);
  }

  /** What trimming leaves of the octets of a number. */
  lemma BigOctets(x: BigIntegers.BigInt, octets: seq<Octet>)
    requires |octets| == 4 * Len(x.a) + if Len(x.a) > 0 && x.a[Len(x.a) - 1] >= NEG_VAL then 4 else 0
    requires (|octets| > 0 || !Signed(x)) && |octets| <= TOP64
    requires OctetVal(octets) == Val(x.a) + if Signed(x) then 128 * Pow(256, |octets| - 1) else 0
    requires |octets| > 0 ==> (octets[0] >= 128 <==> Signed(x))
    ensures x.Int() == 0 ==> Tlv(INTEGER, Trimmed(octets)) == [INTEGER, 0]
    ensures x.Int() != 0 ==> Trimmed(octets) == BigContent(x) && |Trimmed(octets)| > 0
  {
    hide OctetVal, BigEndian, Pow, Shortest;
    LenBounds(x.a);
    BigIntegers.Magnitude(x);
    if x.Int() == 0 {
      assert octets == [] && LengthOctets(0) == [0];
    } else if Signed(x) {
      SignedOctets(x, octets);
    } else {
      TrimmedIs(octets);
    }
  }

  /** Decoding the encoding of a number gives it back exactly when it is not zero, for
      which the decoder throws, and not a negative one whose top bit is set, which comes
      back without its sign. */
  method BigIntRoundTrip(x: BigIntegers.BigInt) returns (r: Result<BigIntegers.BigInt>)
    requires Len(x.a) <= 0x1FFF_FFFF_FFFF_FFFF
    ensures x.Int() == 0 ==> r == Throw(InvalidLength)
    ensures x.Int() != 0 ==> r.Ok? && r.value.Int() == if x.Sign() && !Signed(x) then 0 - x.Int() else x.Int()
  {
    hide OctetVal, BigContent, Shortest, BigEndian, Pow, ReadInteger;
    var stream := new OctetStream();
    EncodeBigInt(stream, x);
    BigRead(x, stream.Rest());
    var integer := DecodeInteger(stream);
    if integer.Throw? {
      return Throw(integer.error);
    }
    var back := FromOctets(integer.value.octets, true);
    BigBack(x);
    return Ok(back);
  }

  /** The decoder takes that content off the stream. */
  lemma BigRead(x: BigIntegers.BigInt, s: seq<Octet>)
    requires x.Int() == 0 ==> s == [INTEGER, 0]
    requires x.Int() != 0 ==> 0 < |BigContent(x)| <= TOP64 && s == Tlv(INTEGER, BigContent(x))
    ensures x.Int() == 0 ==> ReadInteger(s) == Throw(InvalidLength)
    ensures x.Int() != 0 ==> ReadInteger(s).Ok? && ReadInteger(s).value.0.octets == BigContent(x)
  {
    hide BigContent, OctetVal, Shortest, BigEndian, Pow;
    if x.Int() == 0 {
      assert After([INTEGER, 0]) == [0];
    } else {
      assert s + [] == s;
      IntegerRead(BigContent(x), []);
    }
  }

  /** What the octet constructor makes of that content. */
  lemma BigBack(x: BigIntegers.BigInt)
    requires x.Int() != 0
    ensures var c := BigContent(x);
            && |c| > 0
            && (if |c| % 4 == 0 && c[0] >= 128 then 128 * Pow(256, |c| - 1) - OctetVal(c) else OctetVal(c))
               == if x.Sign() && !Signed(x) then 0 - x.Int() else x.Int()
  {
    BigIntegers.Magnitude(x);
    if Signed(x) {
      SignedContent(x);
    } else {
      ShortestIs(Val(x.a));
    }
  }

  /** The first bit of such content is the sign, and the rest the magnitude. */
  lemma SignedContent(x: BigIntegers.BigInt)
    requires Signed(x)
    ensures x.Int() != 0 && |BigContent(x)| == 4 * Len(x.a) > 0
    ensures OctetVal(BigContent(x)) == Val(x.a) + 128 * Pow(256, |BigContent(x)| - 1)
    ensures BigContent(x)[0] >= 128
  {
    hide OctetVal, BigEndian, Pow;
    BigIntegers.Magnitude(x);
    LenBounds(x.a);
    var n := 4 * Len(x.a);
    SignedBelow(x.a);
    BigEndianVal(Val(x.a) + 128 * Pow(256, n - 1), n);
    FirstOctet(BigEndian(Val(x.a) + 128 * Pow(256, n - 1), n));
  }

  /** Words whose top bit is free leave room for the sign. */
  lemma SignedBelow(a: Poly)
    requires Len(a) > 0 && a[Len(a) - 1] < NEG_VAL
    ensures Val(a) < 128 * Pow(256, 4 * Len(a) - 1) && 2 * (128 * Pow(256, 4 * Len(a) - 1)) == Pow(256, 4 * Len(a))
  {
    hide Low, Weight;
    var n := Len(a) - 1;
    LowLen(a, n + 1);
    LowTop(a, n + 1);
    ScaleInequality(a[n] + 1, NEG_VAL, Weight(n));
    SignWeight(n);
    assert Pow(256, 4 * n + 4) == 256 * Pow(256, 4 * n + 3);
  }

  lemma FirstOctet(s: seq<Octet>)
    requires |s| > 0 && OctetVal(s) >= 128 * Pow(256, |s| - 1)
    ensures s[0] >= 128
  {
    assert s == [s[0]] + s[1..];
    OctetValConcat([s[0]], s[1..]);
    OneOctet(s[0]);
    OctetValBound(s[1..]);
  }

  /** The content means its number to a reader of two's complement exactly when the number
      is positive, or negative and the one magnitude of its length that both readings of
      the sign bit share. */
  lemma ContentMeans(x: BigIntegers.BigInt)
    requires x.Int() != 0
    ensures TwosComplement(BigContent(x)) == x.Int()
            <==> x.Int() > 0 || (Signed(x) && Val(x.a) == 64 * Pow(256, 4 * Len(x.a) - 1))
  {
    BigIntegers.Magnitude(x);
    LenBounds(x.a);
    if Signed(x) {
      SignedContent(x);
      SignedBelow(x.a);
    } else {
      ShortestIs(Val(x.a));
    }
  }

  // ------------------------------------------------------------------
  // Object identifiers.

  /** The branches of the arc encoder. */
  method EncodeArc(stream: OctetStream, node: Word)
    requires stream.Valid()
    modifies stream
    ensures stream.Valid() && stream.position == old(stream.position)
    ensures stream.data == old(stream.data) + ArcOctets(node)
  {
    hide ArcOctets;
    ArcDigits(node);
    var d0, d1, d2, d3 := node % 0x80, node / 0x80 % 0x80, node / 0x4000 % 0x80, node / 0x20_0000 % 0x80;
    SmallDigits(node);
    if node < 0x80 {
      stream.Put(node);
    } else if node < 0x100 {
      stream.Write([0x81, d0]);
    } else if node < 0x1_0000 {
      if node / 0x4000 > 0 {
        stream.Write([0x80 + node / 0x4000, 0x80 + d1, d0]);
      } else {
        stream.Write([0x80 + d1, d0]);
      }
    } else if node < 0x100_0000 {
      if node / 0x20_0000 > 0 {
        stream.Write([0x80 + node / 0x20_0000, 0x80 + d2, 0x80 + d1, d0]);
      } else {
        stream.Write([0x80 + d2, 0x80 + d1, d0]);
      }
    } else {
      if node / 0x1000_0000 > 0 {
        stream.Write([0x80 + node / 0x1000_0000, 0x80 + d3, 0x80 + d2, 0x80 + d1, d0]);
      } else {
        stream.Write([0x80 + d3, 0x80 + d2, 0x80 + d1, d0]);
      }
    }
  }

  /** Where a digit is the highest one, and how high it then is. */
  lemma SmallDigits(v: Word)
    ensures 0x80 <= v < 0x100 ==> v / 0x80 == 1
    ensures v < 0x4000 ==> v / 0x80 % 0x80 == v / 0x80
    ensures v < 0x20_0000 ==> v / 0x4000 % 0x80 == v / 0x4000 < 0x80
    ensures v < 0x1000_0000 ==> v / 0x20_0000 % 0x80 == v / 0x20_0000 < 0x80
    ensures v / 0x1000_0000 < 0x10
    ensures v / 0x4000 > 0 <==> v >= 0x4000
    ensures v / 0x20_0000 > 0 <==> v >= 0x20_0000
    ensures v / 0x1000_0000 > 0 <==> v >= 0x1000_0000
  {}

  /** The digits of an arc of each size. */
  lemma ArcDigits(v: Word)
    ensures v < 0x80 ==> ArcOctets(v) == [v]
    ensures 0x80 <= v < 0x4000 ==> ArcOctets(v) == [0x80 + v / 0x80, v % 0x80]
    ensures 0x4000 <= v < 0x20_0000 ==> ArcOctets(v) == [0x80 + v / 0x4000, 0x80 + v / 0x80 % 0x80, v % 0x80]
    ensures 0x20_0000 <= v < 0x1000_0000 ==>
              ArcOctets(v) == [0x80 + v / 0x20_0000, 0x80 + v / 0x4000 % 0x80, 0x80 + v / 0x80 % 0x80, v % 0x80]
    ensures v >= 0x1000_0000 ==>
              ArcOctets(v) == [0x80 + v / 0x1000_0000, 0x80 + v / 0x20_0000 % 0x80, 0x80 + v / 0x4000 % 0x80,
                               0x80 + v / 0x80 % 0x80, v % 0x80]
  {
    var v1: int := v / 0x80;
    var v2: int := v1 / 0x80;
    var v3: int := v2 / 0x80;
    var v4: int := v3 / 0x80;
    assert v2 == v / 0x4000 && v3 == v / 0x20_0000 && v4 == v / 0x1000_0000;
    if v4 > 0 {
      assert Upper(v4) == [128 + v4];
      assert Upper(v3) == Upper(v4) + [128 + v3 % 128];
    }
    if v3 > 0 { assert Upper(v2) == if v2 < 128 then [128 + v2] else Upper(v3) + [128 + v2 % 128]; }
    if v2 > 0 { assert Upper(v1) == if v1 < 128 then [128 + v1] else Upper(v2) + [128 + v1 % 128]; }
  }

  /** An octet that ends an arc is still to come; without one the arc decoder would
      read the end of the stream for ever. */
  ghost predicate Terminated(s: seq<Octet>) {
    exists i :: 0 <= i < |s| && s[i] < 128
  }

  lemma TerminatedAfter(s: seq<Octet>)
    requires Terminated(s) && s[0] >= 128
    ensures Terminated(s[1..])
  {
    var i :| 0 <= i < |s| && s[i] < 128;
    assert s[1..][i - 1] == s[i];
  }

  /** A 32-bit node with the next seven bits shifted in. */
  function NextNode(node: Word, o: Octet): Word {
    Sevens(node);
    node * 128 % BASE + o % 128
  }

  lemma Sevens(node: Word)
    ensures node * 128 % BASE <= BASE - 128
  {
    var m := node % 0x200_0000;
    DivModUnique(node * 128, BASE, node / 0x200_0000, m * 128);
  }

  /** What the arc decoder makes of a stream, from a node on. */
  function ReadArc(s: seq<Octet>, node: Word): (r: (Word, seq<Octet>))
    requires Terminated(s)
    ensures |r.1| < |s|
    decreases |s|
  {
    if s[0] < 128 then (NextNode(node, s[0]), s[1..])
    else
      TerminatedAfter(s);
      ReadArc(s[1..], NextNode(node, s[0]))
  }

  /** What is left ends as the stream does. */
  lemma {:induction false} ArcLast(s: seq<Octet>, node: Word)
    requires Terminated(s)
    ensures var rest := ReadArc(s, node).1; rest == [] || rest[|rest| - 1] == s[|s| - 1]
    decreases |s|
  {
    if s[0] >= 128 {
      TerminatedAfter(s);
      ArcLast(s[1..], NextNode(node, s[0]));
    }
  }

  method DecodeArc(stream: OctetStream) returns (node: Word)
    requires stream.Valid() && Terminated(stream.Rest())
    modifies stream
    ensures stream.Valid() && stream.data == old(stream.data)
    ensures (node, stream.Rest()) == ReadArc(old(stream.Rest()), 0)
  {
    var o := stream.Get();
    var octet := AsOctet(o);
    node := 0;
    if octet < 128 {
      return octet;
    }
    ghost var s := old(stream.Rest());
    while true
      invariant stream.Valid() && stream.data == old(stream.data)
      invariant s != [] && octet == s[0] && octet >= 128 && stream.Rest() == s[1..]
      invariant Terminated(s) && ReadArc(s, node) == ReadArc(old(stream.Rest()), 0)
      decreases |s|
    {
      node := NextNode(node, octet);
      TerminatedAfter(s);
      s := s[1..];
      o := stream.Get();
      octet := AsOctet(o);
      if octet < 128 {
        node := NextNode(node, octet);
        break;
      }
    }
  }

  /** The arcs of a content that ends where an arc ends. */
  function ReadArcs(s: seq<Octet>): seq<Word>
    requires s == [] || s[|s| - 1] < 128
    decreases |s|
  {
    if s == [] then []
    else
      assert Terminated(s);
      ArcLast(s, 0);
      var (node, rest) := ReadArc(s, 0);
      [node] + ReadArcs(rest)
  }

  /** What an object identifier announces is there and ends where an arc ends. */
  ghost predicate WholeOid(s: seq<Octet>) {
    var (n, t) := ReadLength(After(s));
    AsOctet(Next(s)) == OID && n > 0 ==> n <= |t| && (n == 1 || t[n - 1] < 128)
  }

  function ReadOid(s: seq<Octet>): Result<(seq<Word>, seq<Octet>)>
    requires WholeOid(s)
  {
    if AsOctet(Next(s)) != OID then Throw(InvalidTag)
    else
      var (n, t) := ReadLength(After(s));
      if n == 0 then Throw(InvalidLength)
      else
        var first: seq<Word> := [t[0] / 40, t[0] % 40];
        Ok((first + ReadArcs(t[1..n]), t[n..]))
  }

  method DecodeOid(stream: OctetStream) returns (r: Result<seq<Word>>)
    requires stream.Valid() && WholeOid(stream.Rest())
    modifies stream
    ensures stream.Valid() && stream.data == old(stream.data)
    ensures match ReadOid(old(stream.Rest()))
            case Throw(e) => r == Throw(e)
            case Ok((nodes, rest)) => r == Ok(nodes) && stream.Rest() == rest
  {
    hide ReadLength, ReadArcs;
    var tag := stream.Get();
    if AsOctet(tag) != OID {
      return Throw(InvalidTag);
    }
    var length := DecodeLength(stream);
    if length == 0 {
      return Throw(InvalidLength);
    }
    ghost var t := stream.Rest();
    var end := stream.position + length;
    var first := stream.Peek();
    var second := stream.Get();
    var nodes: seq<Word> := [first / 40, second % 40];
    ghost var content := t[1..length];
    assert stream.Rest() == content + t[length..];
    nodes := DecodeArcs(stream, end, nodes, content, t[length..]);
    r := Ok(nodes);
  }

  /** The loop over the remaining arcs. */
  method DecodeArcs(stream: OctetStream, end: nat, start: seq<Word>, ghost content: seq<Octet>, ghost tail: seq<Octet>)
    returns (nodes: seq<Word>)
    requires stream.Valid() && stream.Rest() == content + tail && end == stream.position + |content|
    requires content == [] || content[|content| - 1] < 128
    modifies stream
    ensures stream.Valid() && stream.data == old(stream.data) && stream.Rest() == tail
    ensures nodes == start + ReadArcs(content)
  {
    assert ReadArcs([]) == [];
    hide ReadArc, ReadArcs;
    nodes := start;
    ghost var left := content;
    while stream.position < end
      invariant stream.Valid() && stream.data == old(stream.data)
      invariant stream.Rest() == left + tail && end == stream.position + |left|
      invariant left == [] || left[|left| - 1] < 128
      invariant nodes + ReadArcs(left) == start + ReadArcs(content)
      decreases |left|
    {
      ArcsOf(left);
      ArcWithin(left, tail, 0);
      var node := DecodeArc(stream);
      ghost var rest := ReadArc(left, 0).1;
      assert nodes + ([node] + ReadArcs(rest)) == (nodes + [node]) + ReadArcs(rest);
      nodes := nodes + [node];
      left := rest;
    }
  }

  /** An arc that ends within s is read from s. */
  lemma {:induction false} ArcWithin(s: seq<Octet>, t: seq<Octet>, node: Word)
    requires Terminated(s)
    ensures Terminated(s + t)
    ensures ReadArc(s + t, node) == (ReadArc(s, node).0, ReadArc(s, node).1 + t)
    decreases |s|
  {
    var i :| 0 <= i < |s| && s[i] < 128;
    assert (s + t)[i] == s[i];
    assert (s + t)[1..] == s[1..] + t;
    if s[0] >= 128 {
      TerminatedAfter(s);
      ArcWithin(s[1..], t, NextNode(node, s[0]));
    }
  }

  lemma {:induction false} UpperRead(u: nat, s: seq<Octet>)
    requires 0 < u < BASE && Terminated(s)
    ensures Terminated(Upper(u) + s) && ReadArc(Upper(u) + s, 0) == ReadArc(s, u)
  {
    NodeDigits(u);
    if u < 128 {
      MarkedRead(128 + u, s, 0);
    } else {
      var d := 128 + u % 128;
      MarkedRead(d, s, u / 128);
      UpperRead(u / 128, [d] + s);
      Reassociate(Upper(u / 128), [d], s);
    }
  }

  lemma NodeDigits(u: Word)
    ensures NextNode(u / 128, 128 + u % 128) == u == NextNode(u / 128, u % 128)
    ensures u < 128 ==> NextNode(0, 128 + u) == u == NextNode(0, u)
  {}

  lemma MarkedRead(d: Octet, s: seq<Octet>, node: Word)
    requires Terminated(s) && d >= 128
    ensures Terminated([d] + s) && ReadArc([d] + s, node) == ReadArc(s, NextNode(node, d))
  {
    var i :| 0 <= i < |s| && s[i] < 128;
    var t := [d] + s;
    assert t[i + 1] == s[i] && t[1..] == s;
  }

  lemma LastRead(d: Octet, s: seq<Octet>, node: Word)
    requires d < 128
    ensures Terminated([d] + s) && ReadArc([d] + s, node) == (NextNode(node, d), s)
  {
    var t := [d] + s;
    assert t[0] == d && t[1..] == s;
  }

  /** decode_oid_node inverts encode_oid_node for every 32-bit node, whatever
      follows. */
  lemma ArcRoundTrip(v: Word, s: seq<Octet>)
    ensures Terminated(ArcOctets(v) + s) && ReadArc(ArcOctets(v) + s, 0) == (v, s)
  {
    if v < 128 {
      LastRead(v, s, 0);
    } else {
      var d := v % 128;
      NodeDigits(v);
      LastRead(d, s, v / 128);
      UpperRead(v / 128, [d] + s);
      Reassociate(Upper(v / 128), [d], s);
    }
  }

  function ArcsOctets(nodes: seq<Word>): (s: seq<Octet>)
    ensures s == [] || s[|s| - 1] < 128
    ensures s == [] <==> nodes == []
  {
    if nodes == [] then [] else ArcOctets(nodes[0]) + ArcsOctets(nodes[1..])
  }

  lemma {:induction false} ArcsRoundTrip(nodes: seq<Word>)
    ensures ReadArcs(ArcsOctets(nodes)) == nodes
  {
    if nodes != [] {
      ArcRoundTrip(nodes[0], ArcsOctets(nodes[1..]));
      ArcsRoundTrip(nodes[1..]);
    }
  }

  lemma {:induction false} ArcsAppend(nodes: seq<Word>, node: Word)
    ensures ArcsOctets(nodes + [node]) == ArcsOctets(nodes) + ArcOctets(node)
  {
    if nodes == [] {
      assert ArcsOctets([]) == [] && ([] + [node])[1..] == [];
      assert ArcOctets(node) + [] == [] + ArcOctets(node);
    } else {
      assert (nodes + [node])[1..] == nodes[1..] + [node] && (nodes + [node])[0] == nodes[0];
      ArcsAppend(nodes[1..], node);
      Reassociate(ArcOctets(nodes[0]), ArcsOctets(nodes[1..]), ArcOctets(node));
    }
  }

  lemma {:induction false} ArcsCount(nodes: seq<Word>)
    ensures |ArcsOctets(nodes)| <= 5 * |nodes|
  {
    if nodes != [] {
      ArcDigits(nodes[0]);
      ArcsCount(nodes[1..]);
    }
  }

  /** The first arc of an encoding, computed in 32 bits. */
  function FirstArc(a: Word, b: Word): Word {
    (a * 40 + b) % BASE
  }

  function OidContent(nodes: seq<Word>): (s: seq<Octet>)
    requires |nodes| >= 2
    ensures 0 < |s| <= 5 * (|nodes| - 1) && s[|s| - 1] < 128
  {
    var first := FirstArc(nodes[0], nodes[1]);
    ArcDigits(first);
    ArcsCount(nodes[2..]);
    ArcOctets(first) + ArcsOctets(nodes[2..])
  }

  method EncodeOid(stream: OctetStream, nodes: seq<Word>)
    requires stream.Valid() && |nodes| >= 2 && 5 * |nodes| <= TOP64
    modifies stream
    ensures stream.Valid() && stream.position == old(stream.position)
    ensures stream.data == old(stream.data) + Tlv(OID, OidContent(nodes))
  {
    var inner := new OctetStream();
    EncodeArcs(inner, nodes);
    PutTlv(stream, OID, inner.data);
  }

  /** The arcs, into a stream of their own. */
  method EncodeArcs(inner: OctetStream, nodes: seq<Word>)
    requires inner.Valid() && inner.data == [] && |nodes| >= 2
    modifies inner
    ensures inner.Valid() && inner.data == OidContent(nodes)
  {
    ghost var first := ArcOctets(FirstArc(nodes[0], nodes[1]));
    EncodeArc(inner, FirstArc(nodes[0], nodes[1]));
    assert nodes[2..2] == [] && first + [] == first == [] + first;
    for i := 2 to |nodes|
      invariant inner.Valid() && inner.data == first + ArcsOctets(nodes[2..i])
    {
      ArcsAppend(nodes[2..i], nodes[i]);
      assert nodes[2..i + 1] == nodes[2..i] + [nodes[i]];
      Reassociate(first, ArcsOctets(nodes[2..i]), ArcOctets(nodes[i]));
      EncodeArc(inner, nodes[i]);
    }
    assert nodes[2..|nodes|] == nodes[2..];
  }

  /** Reading back an object identifier whose first arc is one octet. */
  lemma ShortOid(nodes: seq<Word>)
    requires |nodes| >= 2 && 5 * |nodes| <= TOP64 && FirstArc(nodes[0], nodes[1]) < 128
    ensures var first := FirstArc(nodes[0], nodes[1]);
            var s := Tlv(OID, OidContent(nodes));
            WholeOid(s) && ReadOid(s) == Ok(([first / 40, first % 40] + nodes[2..], []))
  {
    var first := FirstArc(nodes[0], nodes[1]);
    var content := OidContent(nodes);
    assert content == [first] + ArcsOctets(nodes[2..]);
    hide ReadLength, LengthOctets, Tlv, ReadArcs, OidContent, ArcsOctets;
    OidHeader(content);
    OidReads(Tlv(OID, content), content);
    assert content[1..] == ArcsOctets(nodes[2..]) && content[0] == first;
    ArcsRoundTrip(nodes[2..]);
  }

  lemma OidHeader(content: seq<Octet>)
    requires 0 < |content| <= TOP64 && content[|content| - 1] < 128
    ensures var s := Tlv(OID, content);
            && AsOctet(Next(s)) == OID && ReadLength(After(s)) == (|content|, content) && WholeOid(s)
  {
    Reassociate([OID], LengthOctets(|content|), content);
    HeadAndRest(OID, LengthOctets(|content|) + content);
    LengthRoundTrip(|content|, content);
  }

  /** What reading an identifier of that content alone gives. */
  lemma OidReads(s: seq<Octet>, content: seq<Octet>)
    requires AsOctet(Next(s)) == OID && ReadLength(After(s)) == (|content|, content) && WholeOid(s)
    requires 0 < |content| && content[|content| - 1] < 128
    ensures ReadOid(s) == Ok(([content[0] / 40, content[0] % 40] + ReadArcs(content[1..]), []))
  {
    hide ReadLength, ReadArcs;
    assert content[1..|content|] == content[1..] && content[|content|..] == [];
  }

  lemma ArcsOf(s: seq<Octet>)
    requires s != [] && s[|s| - 1] < 128
    ensures Terminated(s)
    ensures var rest := ReadArc(s, 0).1;
            (rest == [] || rest[|rest| - 1] < 128) && ReadArcs(s) == [ReadArc(s, 0).0] + ReadArcs(rest)
  {
    hide ReadArc;
    assert Terminated(s);
    ArcLast(s, 0);
  }

  /** An object identifier whose first arc takes more octets is read as one with a
      node more. */
  lemma LongOid(nodes: seq<Word>)
    requires |nodes| >= 2 && 5 * |nodes| <= TOP64 && FirstArc(nodes[0], nodes[1]) >= 128
    ensures var s := Tlv(OID, OidContent(nodes));
            WholeOid(s) && ReadOid(s).Ok? && |ReadOid(s).value.0| == |nodes| + 1
  {
    hide FirstArc, ReadLength, LengthOctets, Tlv, ArcOctets, ReadArcs, OidContent, ArcsOctets, ReadOid, WholeOid;
    var content := OidContent(nodes);
    OidHeader(content);
    OidReads(Tlv(OID, content), content);
    var u := LongContent(nodes);
    LongRead(u, ArcsOctets(nodes[2..]));
    ArcsRoundTrip(nodes[2..]);
  }

  lemma LongContent(nodes: seq<Word>) returns (u: seq<Octet>)
    requires |nodes| >= 2 && FirstArc(nodes[0], nodes[1]) >= 128
    ensures |u| > 0 && u[|u| - 1] < 128 && forall i | 0 <= i < |u| - 1 :: u[i] >= 128
    ensures OidContent(nodes)[1..] == u + ArcsOctets(nodes[2..])
  {
    hide FirstArc, ArcOctets, ArcsOctets;
    var arc := ArcOctets(FirstArc(nodes[0], nodes[1]));
    LongArc(FirstArc(nodes[0], nodes[1]));
    u := arc[1..];
    assert OidContent(nodes) == arc + ArcsOctets(nodes[2..]);
  }

  /** The octets that only the last ends an arc count for one. */
  lemma LongRead(u: seq<Octet>, rest: seq<Octet>)
    requires |u| > 0 && u[|u| - 1] < 128 && forall i | 0 <= i < |u| - 1 :: u[i] >= 128
    requires rest == [] || rest[|rest| - 1] < 128
    ensures (u + rest)[|u + rest| - 1] < 128 && |ReadArcs(u + rest)| == 1 + |ReadArcs(rest)|
  {
    hide ReadArc, ReadArcs;
    ArcRest(u, rest, 0);
    ArcsOf(u + rest);
  }

  lemma LongArc(v: Word)
    requires v >= 128
    ensures |ArcOctets(v)| >= 2
  {}

  /** Octets that only the last ends an arc are read as one arc. */
  lemma {:induction false} ArcRest(u: seq<Octet>, s: seq<Octet>, node: Word)
    requires |u| > 0 && u[|u| - 1] < 128 && forall i | 0 <= i < |u| - 1 :: u[i] >= 128
    ensures Terminated(u + s) && ReadArc(u + s, node).1 == s
    decreases |u|
  {
    if |u| == 1 {
      LastRead(u[0], s, node);
      assert u + s == [u[0]] + s;
    } else {
      ArcRest(u[1..], s, NextNode(node, u[0]));
      MarkedRead(u[0], u[1..] + s, node);
      assert u + s == [u[0]] + (u[1..] + s);
    }
  }

  /** The second arc is below 40 and the first two fit one octet. */
  predicate SharedOctet(a: int, b: int) {
    b < 40 && a * 40 + b < 128
  }

  /** decode_oid inverts encode_oid exactly when the first two arcs share an octet: then,
      and only then, the node list comes back. */
  method OidRoundTrip(nodes: seq<Word>) returns (r: Result<seq<Word>>)
    requires |nodes| >= 2 && 5 * |nodes| <= TOP64
    ensures r == Ok(nodes) <==> SharedOctet(nodes[0], nodes[1])
  {
    var stream := new OctetStream();
    EncodeOid(stream, nodes);
    assert stream.Rest() == Tlv(OID, OidContent(nodes));
    FirstArcs(nodes[0], nodes[1]);
    if FirstArc(nodes[0], nodes[1]) < 128 {
      ShortOid(nodes);
      TwoAndRest(nodes, FirstArc(nodes[0], nodes[1]) / 40, FirstArc(nodes[0], nodes[1]) % 40);
    } else {
      LongOid(nodes);
    }
    r := DecodeOid(stream);
  }

  lemma TwoAndRest(nodes: seq<Word>, a: Word, b: Word)
    requires |nodes| >= 2
    ensures [a, b] + nodes[2..] == nodes <==> a == nodes[0] && b == nodes[1]
  {
    var s := [a, b] + nodes[2..];
    assert s[0] == a && s[1] == b;
  }

  lemma FirstArcs(a: Word, b: Word)
    ensures SharedOctet(a, b)
            <==> FirstArc(a, b) < 128 && FirstArc(a, b) / 40 == a && FirstArc(a, b) % 40 == b
  {}
}
