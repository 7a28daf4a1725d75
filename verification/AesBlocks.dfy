/** The transforms of the AES state (sections 5.1 and 5.3 of FIPS 197), in place on
    four words of four octets, and that each inverse transform undoes its own. */
module AesBlocks {
  import opened Galois
  import opened SubstitutionBox

  datatype Word = Word(b0: Byte, b1: Byte, b2: Byte, b3: Byte) {
    function At(c: nat): Byte
      requires c < 4
    {
      if c == 0 then b0 else if c == 1 then b1 else if c == 2 then b2 else b3
    }

    function With(c: nat, x: Byte): Word
      requires c < 4
    {
      if c == 0 then this.(b0 := x) else if c == 1 then this.(b1 := x)
      else if c == 2 then this.(b2 := x) else this.(b3 := x)
    }
  }

  datatype Block = Block(w0: Word, w1: Word, w2: Word, w3: Word) {
    function At(r: nat): Word
      requires r < 4
    {
      if r == 0 then w0 else if r == 1 then w1 else if r == 2 then w2 else w3
    }
  }

  /** The shape of the state array. */
  predicate Square(s: array2<Byte>) {
    s.Length0 == 4 && s.Length1 == 4
  }

  function WordAt(s: array2<Byte>, r: nat): Word
    requires Square(s) && r < 4
    reads s
  {
    Word(s[r, 0], s[r, 1], s[r, 2], s[r, 3])
  }

  function Contents(s: array2<Byte>): Block
    requires Square(s)
    reads s
  {
    Block(WordAt(s, 0), WordAt(s, 1), WordAt(s, 2), WordAt(s, 3))
  }

  // ------------------------------------------------------------------
  // What each transform does to a block.

  function MapWord(f: Byte -> Byte, w: Word): Word {
    Word(f(w.b0), f(w.b1), f(w.b2), f(w.b3))
  }

  function Map(f: Byte -> Byte, s: Block): Block {
    Block(MapWord(f, s.w0), MapWord(f, s.w1), MapWord(f, s.w2), MapWord(f, s.w3))
  }

  function Substituted(s: Block): Block {
    Map(x => Sub(x), s)
  }

  function InvSubstituted(s: Block): Block {
    Map(x => InvSub(x), s)
  }

  /** Octet c of each word comes from the word c places further on. */
  function Shifted(s: Block): Block {
    Block(Word(s.w0.b0, s.w1.b1, s.w2.b2, s.w3.b3), Word(s.w1.b0, s.w2.b1, s.w3.b2, s.w0.b3),
          Word(s.w2.b0, s.w3.b1, s.w0.b2, s.w1.b3), Word(s.w3.b0, s.w0.b1, s.w1.b2, s.w2.b3))
  }

  function InvShifted(s: Block): Block {
    Block(Word(s.w0.b0, s.w3.b1, s.w2.b2, s.w1.b3), Word(s.w1.b0, s.w0.b1, s.w3.b2, s.w2.b3),
          Word(s.w2.b0, s.w1.b1, s.w0.b2, s.w3.b3), Word(s.w3.b0, s.w2.b1, s.w1.b2, s.w0.b3))
  }

  function Sum(a: Byte, b: Byte, c: Byte, d: Byte): Byte {
    Xor(Xor(Xor(a, b), c), d)
  }

  /** An octet of a mixed word, from the word as seen from that octet on. */
  function Mix(a: Byte, b: Byte, c: Byte, d: Byte): Byte {
    Sum(Dot(Byte(0x02), a), Dot(Byte(0x03), b), c, d)
  }

  function InvMix(a: Byte, b: Byte, c: Byte, d: Byte): Byte {
    Sum(Dot(Byte(0x0E), a), Dot(Byte(0x0B), b), Dot(Byte(0x0D), c), Dot(Byte(0x09), d))
  }

  function MixedWord(w: Word): Word {
    Word(Mix(w.b0, w.b1, w.b2, w.b3), Mix(w.b1, w.b2, w.b3, w.b0),
         Mix(w.b2, w.b3, w.b0, w.b1), Mix(w.b3, w.b0, w.b1, w.b2))
  }

  function InvMixedWord(w: Word): Word {
    Word(InvMix(w.b0, w.b1, w.b2, w.b3), InvMix(w.b1, w.b2, w.b3, w.b0),
         InvMix(w.b2, w.b3, w.b0, w.b1), InvMix(w.b3, w.b0, w.b1, w.b2))
  }

  function MapWords(f: Word -> Word, s: Block): Block {
    Block(f(s.w0), f(s.w1), f(s.w2), f(s.w3))
  }

  function Mixed(s: Block): Block {
    MapWords(w => MixedWord(w), s)
  }

  function InvMixed(s: Block): Block {
    MapWords(w => InvMixedWord(w), s)
  }

  function AddedWord(w: Word, k: Word): Word {
    Word(Xor(w.b0, k.b0), Xor(w.b1, k.b1), Xor(w.b2, k.b2), Xor(w.b3, k.b3))
  }

  function Added(s: Block, k: Block): Block {
    Block(AddedWord(s.w0, k.w0), AddedWord(s.w1, k.w1), AddedWord(s.w2, k.w2), AddedWord(s.w3, k.w3))
  }

  /** Octet c of word r after the transforms that take single octets, and the words after
      mixing, which takes single words. */
  lemma OctetsAt(s: Block, k: Block, r: nat, c: nat)
    requires r < 4 && c < 4
    ensures Substituted(s).At(r).At(c) == Sub(s.At(r).At(c)) && InvSubstituted(s).At(r).At(c) == InvSub(s.At(r).At(c))
    ensures Added(s, k).At(r).At(c) == Xor(s.At(r).At(c), k.At(r).At(c))
    ensures Mixed(s).At(r) == MixedWord(s.At(r))
  {
    hide Sub, InvSub, Xor, MixedWord;
  }

  /** Octet c of a shifted word is that of the word c places further on. */
  lemma ShiftedAt(s: Block, r: nat, c: nat)
    requires r < 4 && c < 4
    ensures Shifted(s).At(r).At(c) == s.At((r + c) % 4).At(c)
    ensures InvShifted(s).At((r + c) % 4).At(c) == s.At(r).At(c)
  {
    if c == 0 {
    } else if c == 1 {
    } else if c == 2 {
    } else {
    }
  }

  /** Octet c of a mixed word is the sum of all four of its octets, each times the entry of
      the matrix of section 5.1.3 of FIPS 197, whose rows are one row turned. */
  lemma MixedAt(w: Word, c: nat)
    requires c < 4
    ensures MixedWord(w).At(c)
            == Sum(Dot(Byte(2), w.At(c)), Dot(Byte(3), w.At((c + 1) % 4)), w.At((c + 2) % 4), w.At((c + 3) % 4))
  {
    hide Dot, Sum;
  }

  // ------------------------------------------------------------------
  // The loops.

  /** The two nested loops of SubBytes and InvSubBytes, for their table. */
  method Replace(s: array2<Byte>, table: Byte -> Byte)
    requires Square(s)
    modifies s
    ensures Contents(s) == Map(table, old(Contents(s)))
  {
    for r := 0 to 4
      invariant forall i, j | 0 <= i < 4 && 0 <= j < 4 :: s[i, j] == if i < r then table(old(s[i, j])) else old(s[i, j])
    {
      for c := 0 to 4
        invariant forall i, j | 0 <= i < 4 && 0 <= j < 4 ::
          s[i, j] == if i < r || (i == r && j < c) then table(old(s[i, j])) else old(s[i, j])
      {
        s[r, c] := table(s[r, c]);
      }
    }
  }

  method SubBytes(s: array2<Byte>)
    requires Square(s)
    modifies s
    ensures Contents(s) == Substituted(old(Contents(s)))
  {
    Replace(s, x => Sub(x));
  }

  method InvSubBytes(s: array2<Byte>)
    requires Square(s)
    modifies s
    ensures Contents(s) == InvSubstituted(old(Contents(s)))
  {
    Replace(s, x => InvSub(x));
  }

  /** Octet c of every word taken from the next word. */
  function Turned(s: Block, c: nat): Block
    requires c < 4
  {
    Block(s.w0.With(c, s.w1.At(c)), s.w1.With(c, s.w2.At(c)), s.w2.With(c, s.w3.At(c)), s.w3.With(c, s.w0.At(c)))
  }

  function TurnedBack(s: Block, c: nat): Block
    requires c < 4
  {
    Block(s.w0.With(c, s.w3.At(c)), s.w1.With(c, s.w0.At(c)), s.w2.With(c, s.w1.At(c)), s.w3.With(c, s.w2.At(c)))
  }

  method TurnColumn(s: array2<Byte>, c: nat)
    requires Square(s) && c < 4
    modifies s
    ensures Contents(s) == Turned(old(Contents(s)), c)
  {
    var tmp := s[0, c];
    for r := 0 to 3
      invariant forall i, j | 0 <= i < 4 && 0 <= j < 4 :: s[i, j] == old(s[if j == c && i < r then i + 1 else i, j])
    {
      s[r, c] := s[r + 1, c];
    }
    s[3, c] := tmp;
  }

  method TurnColumnBack(s: array2<Byte>, c: nat)
    requires Square(s) && c < 4
    modifies s
    ensures Contents(s) == TurnedBack(old(Contents(s)), c)
  {
    var tmp := s[3, c];
    for r := 4 downto 1
      invariant forall i, j | 0 <= i < 4 && 0 <= j < 4 && (j != c || i < r) :: s[i, j] == old(s[i, j])
      invariant forall i | r <= i < 4 :: s[i, c] == old(s[i - 1, c])
    {
      s[r, c] := s[r - 1, c];
    }
    s[0, c] := tmp;
  }

  function TurnedBy(s: Block, c: nat, t: nat): Block
    requires c < 4
  {
    if t == 0 then s else Turned(TurnedBy(s, c, t - 1), c)
  }

  function TurnedBackBy(s: Block, c: nat, t: nat): Block
    requires c < 4
  {
    if t == 0 then s else TurnedBack(TurnedBackBy(s, c, t - 1), c)
  }

  /** The columns below k turned, each by its own number. */
  function ShiftedBelow(s: Block, k: nat): Block
    requires 1 <= k <= 4
  {
    if k == 1 then s else TurnedBy(ShiftedBelow(s, k - 1), k - 1, k - 1)
  }

  function InvShiftedBelow(s: Block, k: nat): Block
    requires 1 <= k <= 4
  {
    if k == 1 then s else TurnedBackBy(InvShiftedBelow(s, k - 1), k - 1, k - 1)
  }

  lemma TurnsShift(s: Block)
    ensures ShiftedBelow(s, 4) == Shifted(s)
    ensures InvShiftedBelow(s, 4) == InvShifted(s)
  {
    assert ShiftedBelow(s, 1) == s == InvShiftedBelow(s, 1);
    ThreeTurns(s, 1);
    var s2, i2 := ShiftedBelow(s, 2), InvShiftedBelow(s, 2);
    assert s2 == TurnedBy(s, 1, 1) && i2 == TurnedBackBy(s, 1, 1);
    ThreeTurns(s2, 2);
    ThreeTurns(i2, 2);
    var s3, i3 := ShiftedBelow(s, 3), InvShiftedBelow(s, 3);
    assert s3 == TurnedBy(s2, 2, 2) && i3 == TurnedBackBy(i2, 2, 2);
    ThreeTurns(s3, 3);
    ThreeTurns(i3, 3);
  }

  lemma ThreeTurns(s: Block, c: nat)
    requires c < 4
    ensures TurnedBy(s, c, 1) == Turned(s, c) && TurnedBackBy(s, c, 1) == TurnedBack(s, c)
    ensures TurnedBy(s, c, 2) == Turned(Turned(s, c), c) == TurnedBackBy(s, c, 2) == TurnedBack(TurnedBack(s, c), c)
    ensures TurnedBy(s, c, 3) == TurnedBack(s, c)
    ensures TurnedBackBy(s, c, 3) == Turned(s, c)
  {
    hide Turned, TurnedBack;
    assert TurnedBy(s, c, 1) == Turned(s, c) && TurnedBackBy(s, c, 1) == TurnedBack(s, c);
    assert TurnedBy(s, c, 2) == Turned(Turned(s, c), c) && TurnedBackBy(s, c, 2) == TurnedBack(TurnedBack(s, c), c);
    FourTurns(s, c);
  }

  /** Four turns are none. */
  lemma FourTurns(s: Block, c: nat)
    requires c < 4
    ensures Turned(Turned(s, c), c) == TurnedBack(TurnedBack(s, c), c)
    ensures Turned(Turned(Turned(s, c), c), c) == TurnedBack(s, c)
    ensures TurnedBack(TurnedBack(TurnedBack(s, c), c), c) == Turned(s, c)
  {}

  method ShiftRows(s: array2<Byte>)
    requires Square(s)
    modifies s
    ensures Contents(s) == Shifted(old(Contents(s)))
  {
    ghost var s0 := Contents(s);
    for c := 1 to 4
      invariant Contents(s) == ShiftedBelow(s0, c)
    {
      ghost var before := Contents(s);
      for t := 0 to c
        invariant Contents(s) == TurnedBy(before, c, t)
      {
        TurnColumn(s, c);
      }
    }
    TurnsShift(s0);
  }

  method InvShiftRows(s: array2<Byte>)
    requires Square(s)
    modifies s
    ensures Contents(s) == InvShifted(old(Contents(s)))
  {
    ghost var s0 := Contents(s);
    for c := 1 to 4
      invariant Contents(s) == InvShiftedBelow(s0, c)
    {
      ghost var before := Contents(s);
      for t := 0 to c
        invariant Contents(s) == TurnedBackBy(before, c, t)
      {
        TurnColumnBack(s, c);
      }
    }
    TurnsShift(s0);
  }

  /** The four sums of one word, as the source writes them down. */
  method MixWord(w: Word) returns (sp: Word)
    ensures sp == MixedWord(w)
  {
    var d0 := DOT(Byte(0x02), w.b0);
    var d1 := DOT(Byte(0x03), w.b1);
    var x0 := Sum(d0, d1, w.b2, w.b3);
    d0 := DOT(Byte(0x02), w.b1);
    d1 := DOT(Byte(0x03), w.b2);
    var x1 := Sum(w.b0, d0, d1, w.b3);
    d0 := DOT(Byte(0x02), w.b2);
    d1 := DOT(Byte(0x03), w.b3);
    var x2 := Sum(w.b0, w.b1, d0, d1);
    d0 := DOT(Byte(0x03), w.b0);
    d1 := DOT(Byte(0x02), w.b3);
    var x3 := Sum(d0, w.b1, w.b2, d1);
    SumCycle(Dot(Byte(0x02), w.b1), Dot(Byte(0x03), w.b2), w.b3, w.b0);
    SumCycle(Dot(Byte(0x02), w.b2), Dot(Byte(0x03), w.b3), w.b0, w.b1);
    SumCycle(Dot(Byte(0x02), w.b3), Dot(Byte(0x03), w.b0), w.b1, w.b2);
    sp := Word(x0, x1, x2, x3);
  }

  method InvMixWord(w: Word) returns (sp: Word)
    ensures sp == InvMixedWord(w)
  {
    var x0 := DotSum(0x0E, w.b0, 0x0B, w.b1, 0x0D, w.b2, 0x09, w.b3);
    var x1 := DotSum(0x09, w.b0, 0x0E, w.b1, 0x0B, w.b2, 0x0D, w.b3);
    var x2 := DotSum(0x0D, w.b0, 0x09, w.b1, 0x0E, w.b2, 0x0B, w.b3);
    var x3 := DotSum(0x0B, w.b0, 0x0D, w.b1, 0x09, w.b2, 0x0E, w.b3);
    SumCycle(Dot(Byte(0x0E), w.b1), Dot(Byte(0x0B), w.b2), Dot(Byte(0x0D), w.b3), Dot(Byte(0x09), w.b0));
    SumCycle(Dot(Byte(0x0E), w.b2), Dot(Byte(0x0B), w.b3), Dot(Byte(0x0D), w.b0), Dot(Byte(0x09), w.b1));
    SumCycle(Dot(Byte(0x0E), w.b3), Dot(Byte(0x0B), w.b0), Dot(Byte(0x0D), w.b1), Dot(Byte(0x09), w.b2));
    sp := Word(x0, x1, x2, x3);
  }

  method DotSum(p: bv8, a: Byte, q: bv8, b: Byte, r: bv8, c: Byte, t: bv8, d: Byte) returns (x: Byte)
    ensures x == Sum(Dot(Byte(p), a), Dot(Byte(q), b), Dot(Byte(r), c), Dot(Byte(t), d))
  {
    var d0 := DOT(Byte(p), a);
    var d1 := DOT(Byte(q), b);
    var d2 := DOT(Byte(r), c);
    var d3 := DOT(Byte(t), d);
    x := Sum(d0, d1, d2, d3);
  }

  lemma SumTurn(a: Byte, b: Byte, c: Byte, d: Byte)
    ensures Sum(a, b, c, d) == Sum(d, a, b, c)
  {
    XorCommutative(Xor(Xor(a, b), c), d);
    XorAssociative(d, Xor(a, b), c);
    XorAssociative(d, a, b);
  }

  /** A sum of four, begun at each of its places. */
  lemma SumCycle(a: Byte, b: Byte, c: Byte, d: Byte)
    ensures Sum(a, b, c, d) == Sum(d, a, b, c) == Sum(c, d, a, b) == Sum(b, c, d, a)
  {
    SumTurn(a, b, c, d);
    SumTurn(d, a, b, c);
    SumTurn(c, d, a, b);
  }

  method CopyBlock(from: array2<Byte>, to: array2<Byte>)
    requires Square(from) && Square(to)
    modifies to
    ensures Contents(to) == old(Contents(from))
  {
    forall i, j | 0 <= i < 4 && 0 <= j < 4 { to[i, j] := from[i, j]; }
  }

  /** f is what the word method of the given direction computes. */
  ghost predicate Mixes(inverse: bool, f: Word -> Word) {
    forall w {:trigger MixedWord(w)} {:trigger InvMixedWord(w)} ::
      f(w) == if inverse then InvMixedWord(w) else MixedWord(w)
  }

  method MixEither(w: Word, inverse: bool, ghost f: Word -> Word) returns (sp: Word)
    requires Mixes(inverse, f)
    ensures sp == f(w)
  {
    if inverse {
      sp := InvMixWord(w);
    } else {
      sp := MixWord(w);
    }
  }

  /** The loop of MixColumns and InvMixColumns over the words. */
  method MixWords(s: array2<Byte>, inverse: bool, ghost f: Word -> Word)
    requires Square(s) && Mixes(inverse, f)
    modifies s
    ensures Contents(s) == MapWords(f, old(Contents(s)))
  {
    var sp := new Byte[4, 4];
    for r := 0 to 4
      invariant forall i | 0 <= i < r :: WordAt(sp, i) == f(old(WordAt(s, i)))
      invariant forall i, j | 0 <= i < 4 && 0 <= j < 4 :: s[i, j] == old(s[i, j])
    {
      var w := MixEither(WordAt(s, r), inverse, f);
      sp[r, 0], sp[r, 1], sp[r, 2], sp[r, 3] := w.b0, w.b1, w.b2, w.b3;
    }
    CopyBlock(sp, s);
  }

  method MixColumns(s: array2<Byte>)
    requires Square(s)
    modifies s
    ensures Contents(s) == Mixed(old(Contents(s)))
  {
    MixWords(s, false, w => MixedWord(w));
  }

  method InvMixColumns(s: array2<Byte>)
    requires Square(s)
    modifies s
    ensures Contents(s) == InvMixed(old(Contents(s)))
  {
    MixWords(s, true, w => InvMixedWord(w));
  }

  method AddRoundKey(s: array2<Byte>, w: Block)
    requires Square(s)
    modifies s
    ensures Contents(s) == Added(old(Contents(s)), w)
  {
    for c := 0 to 4
      invariant forall i, j | 0 <= i < 4 && 0 <= j < 4 ::
        s[i, j] == if j < c then Xor(old(s[i, j]), w.At(i).At(j)) else old(s[i, j])
    {
      s[0, c] := Xor(s[0, c], w.w0.At(c));
      s[1, c] := Xor(s[1, c], w.w1.At(c));
      s[2, c] := Xor(s[2, c], w.w2.At(c));
      s[3, c] := Xor(s[3, c], w.w3.At(c));
    }
  }

  // ------------------------------------------------------------------
  // Each transform undone.

  lemma MapUndone(f: Byte -> Byte, g: Byte -> Byte, s: Block)
    requires forall x :: g(f(x)) == x
    ensures Map(g, Map(f, s)) == s
  {}

  lemma SubstitutionUndone(s: Block)
    ensures InvSubstituted(Substituted(s)) == s && Substituted(InvSubstituted(s)) == s
  {
    forall x ensures InvSub(Sub(x)) == x && Sub(InvSub(x)) == x { MutualInverses(x); }
    MapUndone(x => Sub(x), x => InvSub(x), s);
    MapUndone(x => InvSub(x), x => Sub(x), s);
  }

  lemma ShiftUndone(s: Block)
    ensures InvShifted(Shifted(s)) == s && Shifted(InvShifted(s)) == s
  {}

  lemma AddedTwice(s: Block, k: Block)
    ensures Added(Added(s, k), k) == s
  {
    AddedWordTwice(s.w0, k.w0);
    AddedWordTwice(s.w1, k.w1);
    AddedWordTwice(s.w2, k.w2);
    AddedWordTwice(s.w3, k.w3);
  }

  lemma AddedWordTwice(w: Word, k: Word)
    ensures AddedWord(AddedWord(w, k), k) == w
  {
    XorCancel(w.b0, k.b0);
    XorCancel(w.b1, k.b1);
    XorCancel(w.b2, k.b2);
    XorCancel(w.b3, k.b3);
  }

  /** Multiplying by x twice and thrice. */
  function X2(a: Byte): Byte {
    Xtime(Xtime(a))
  }

  function X3(a: Byte): Byte {
    Xtime(X2(a))
  }

  /** The six constant factors, from the laws of the product. */
  lemma Factors(b: Byte)
    ensures Dot(Byte(0x02), b) == Xtime(b)
    ensures Dot(Byte(0x03), b) == Xor(Xtime(b), b)
    ensures Dot(Byte(0x09), b) == Xor(X3(b), b)
    ensures Dot(Byte(0x0B), b) == Xor(X3(b), Xor(Xtime(b), b))
    ensures Dot(Byte(0x0D), b) == Xor(Xor(X3(b), X2(b)), b)
    ensures Dot(Byte(0x0E), b) == Xor(Xor(X3(b), X2(b)), Xtime(b))
  {
    var two, four, eight, twelve := Byte(2), Byte(4), Byte(8), Byte(12);
    DotLaws(ONE, ONE, b);
    DotLaws(two, ONE, b);
    DotLaws(four, two, b);
    DotLaws(eight, four, b);
    DotLaws(eight, ONE, b);
    DotLaws(eight, Byte(3), b);
    DotLaws(twelve, ONE, b);
    DotLaws(twelve, two, b);
  }

  lemma PowersSum(a: Byte, b: Byte)
    ensures Xtime(Xor(a, b)) == Xor(Xtime(a), Xtime(b))
    ensures X2(Xor(a, b)) == Xor(X2(a), X2(b))
    ensures X3(Xor(a, b)) == Xor(X3(a), X3(b))
  {
    XtimeSum(a, b);
    XtimeSum(Xtime(a), Xtime(b));
    XtimeSum(X2(a), X2(b));
  }

  /** A mixed octet by powers of x. */
  lemma MixForm(a: Byte, b: Byte, c: Byte, d: Byte)
    ensures Mix(a, b, c, d) == Xor(Xtime(Xor(a, b)), Sum(b, c, d, ZERO))
  {
    Factors(a);
    Factors(b);
    XtimeSum(a, b);
    MixBits(Xtime(a), Xtime(b), b, c, d);
  }

  lemma MixBits(xa: Byte, xb: Byte, b: Byte, c: Byte, d: Byte)
    ensures Sum(xa, Xor(xb, b), c, d) == Xor(Xor(xa, xb), Sum(b, c, d, ZERO))
  {}

  lemma AddSums(a: Byte, b: Byte, c: Byte, d: Byte, p: Byte, q: Byte, r: Byte, t: Byte)
    ensures Xor(Sum(a, b, c, d), Sum(p, q, r, t)) == Sum(Xor(a, p), Xor(b, q), Xor(c, r), Xor(d, t))
  {
    XorExchange(Xor(Xor(a, b), c), d, Xor(Xor(p, q), r), t);
    XorExchange(Xor(a, b), c, Xor(p, q), r);
    XorExchange(a, b, p, q);
  }

  /** The factors of an unmixed octet, by powers of x. */
  lemma InvFactors(b: Byte)
    ensures Dot(Byte(0x0E), b) == Sum(X3(b), X2(b), Xtime(b), ZERO)
    ensures Dot(Byte(0x0B), b) == Sum(X3(b), ZERO, Xtime(b), b)
    ensures Dot(Byte(0x0D), b) == Sum(X3(b), X2(b), ZERO, b)
    ensures Dot(Byte(0x09), b) == Sum(X3(b), ZERO, ZERO, b)
  {
    Factors(b);
    XorZero(X3(b));
    XorZero(Xor(X3(b), X2(b)));
    XorZero(Xor(Xor(X3(b), X2(b)), Xtime(b)));
    XorAssociative(X3(b), Xtime(b), b);
  }

  /** An unmixed octet by powers of x. */
  lemma InvMixForm(a: Byte, b: Byte, c: Byte, d: Byte)
    ensures InvMix(a, b, c, d) == Sum(X3(Sum(a, b, c, d)), X2(Xor(a, c)), Xtime(Xor(a, b)), Sum(ZERO, b, c, d))
  {
    InvFactors(a);
    InvFactors(b);
    InvFactors(c);
    InvFactors(d);
    var c3, c2 := Xor(X3(a), X3(b)), Xor(X2(a), ZERO);
    var c1, c0 := Xor(Xtime(a), Xtime(b)), Xor(ZERO, b);
    AddSums(X3(a), X2(a), Xtime(a), ZERO, X3(b), ZERO, Xtime(b), b);
    AddSums(c3, c2, c1, c0, X3(c), X2(c), ZERO, c);
    AddSums(Xor(c3, X3(c)), Xor(c2, X2(c)), Xor(c1, ZERO), Xor(c0, c), X3(d), ZERO, ZERO, d);
    XorZero(X2(a));
    XorZero(Xor(X2(a), X2(c)));
    XorZero(c1);
    PowersSum(a, b);
    PowersSum(Xor(a, b), c);
    PowersSum(Xor(Xor(a, b), c), d);
    PowersSum(a, c);
  }

  /** Sums of up to four octets in which pairs vanish. */
  lemma Pairs(a: Byte, b: Byte, c: Byte)
    ensures Xor(Xor(a, b), Xor(b, c)) == Xor(a, c)
    ensures Xor(a, a) == ZERO && Xor(Xor(a, b), a) == b
  {}

  lemma RestSums(a: Byte, b: Byte, c: Byte, d: Byte)
    ensures Xor(Sum(b, c, d, ZERO), Sum(c, d, a, ZERO)) == Xor(a, b)
    ensures Xor(Sum(b, c, d, ZERO), Sum(d, a, b, ZERO)) == Xor(a, c)
    ensures Xor(Sum(b, c, d, ZERO), Sum(a, b, c, d)) == a
    ensures Sum(ZERO, b, c, d) == Xor(a, Sum(a, b, c, d))
  {
    var u := Xor(Xor(b, c), d);
    XorZero(u);
    XorZero(Xor(Xor(c, d), a));
    XorZero(Xor(Xor(d, a), b));
    XorZero(b);
    AllAsRest(a, b, c, d);
    Pairs(u, a, b);
    Pairs(u, a, c);
    Pairs(u, a, a);
    Pairs(a, u, u);
    XorCommutative(a, u);
  }

  /** Three of four octets, from the other three and the two that differ. */
  lemma AllAsRest(a: Byte, b: Byte, c: Byte, d: Byte)
    ensures Xor(Xor(c, d), a) == Xor(Xor(Xor(b, c), d), Xor(a, b))
    ensures Xor(Xor(d, a), b) == Xor(Xor(Xor(b, c), d), Xor(a, c))
    ensures Sum(a, b, c, d) == Xor(Xor(Xor(b, c), d), a)
  {
    WithoutB(a, b, c, d);
    WithoutC(a, b, c, d);
    SumCycle(b, c, d, a);
  }

  lemma WithoutB(a: Byte, b: Byte, c: Byte, d: Byte)
    ensures Xor(Xor(c, d), a) == Xor(Xor(Xor(b, c), d), Xor(a, b))
  {}

  lemma WithoutC(a: Byte, b: Byte, c: Byte, d: Byte)
    ensures Xor(Xor(d, a), b) == Xor(Xor(Xor(b, c), d), Xor(a, c))
  {}

  lemma Regroup(a: Byte, b: Byte, c: Byte, d: Byte)
    ensures Sum(a, b, c, d) == Xor(Xor(a, b), Xor(c, d))
  {
    XorAssociative(Xor(a, b), c, d);
  }

  /** The sums of mixed octets that unmixing needs. */
  lemma MixedSums(a: Byte, b: Byte, c: Byte, d: Byte)
    ensures var p, q, r, t := Mix(a, b, c, d), Mix(b, c, d, a), Mix(c, d, a, b), Mix(d, a, b, c);
            && Xor(p, q) == Xor(Xtime(Xor(a, c)), Xor(a, b))
            && Xor(p, r) == Xor(Xtime(Sum(a, b, c, d)), Xor(a, c))
            && Sum(p, q, r, t) == Sum(a, b, c, d)
            && Sum(ZERO, q, r, t) == Xor(Xtime(Xor(a, b)), a)
  {
    var p, q, r, t := Mix(a, b, c, d), Mix(b, c, d, a), Mix(c, d, a, b), Mix(d, a, b, c);
    MixedPair(a, b, c, d);
    MixedPair(c, d, a, b);
    MixForm(a, b, c, d);
    MixForm(c, d, a, b);
    // p + r
    XorExchange(Xtime(Xor(a, b)), Sum(b, c, d, ZERO), Xtime(Xor(c, d)), Sum(d, a, b, ZERO));
    XtimeSum(Xor(a, b), Xor(c, d));
    Regroup(a, b, c, d);
    RestSums(a, b, c, d);
    // p + q + r + t
    Regroup(p, q, r, t);
    XorCommutative(a, c);
    XorExchange(Xtime(Xor(a, c)), Xor(a, b), Xtime(Xor(a, c)), Xor(c, d));
    Pairs(Xtime(Xor(a, c)), ZERO, ZERO);
    XorZero(Xor(Xor(a, b), Xor(c, d)));
    // q + r + t
    RestSums(p, q, r, t);
    XorAssociative(Xtime(Xor(a, b)), Sum(b, c, d, ZERO), Sum(a, b, c, d));
  }

  lemma MixedPair(a: Byte, b: Byte, c: Byte, d: Byte)
    ensures Xor(Mix(a, b, c, d), Mix(b, c, d, a)) == Xor(Xtime(Xor(a, c)), Xor(a, b))
  {
    MixForm(a, b, c, d);
    MixForm(b, c, d, a);
    XorExchange(Xtime(Xor(a, b)), Sum(b, c, d, ZERO), Xtime(Xor(b, c)), Sum(c, d, a, ZERO));
    XtimeSum(Xor(a, b), Xor(b, c));
    Pairs(a, b, c);
    RestSums(a, b, c, d);
  }

  /** Unmixing the four mixed octets of a word gives the first octet back. */
  lemma MixUndone(a: Byte, b: Byte, c: Byte, d: Byte)
    ensures InvMix(Mix(a, b, c, d), Mix(b, c, d, a), Mix(c, d, a, b), Mix(d, a, b, c)) == a
  {
    var p, q, r, t := Mix(a, b, c, d), Mix(b, c, d, a), Mix(c, d, a, b), Mix(d, a, b, c);
    MixedSums(a, b, c, d);
    InvMixForm(p, q, r, t);
    var s := Sum(a, b, c, d);
    PowersSum(Xtime(s), Xor(a, c));
    PowersSum(Xtime(Xor(a, c)), Xor(a, b));
    Telescope(X3(s), X2(Xor(a, c)), Xtime(Xor(a, b)), a);
  }

  lemma Telescope(u: Byte, v: Byte, w: Byte, a: Byte)
    ensures Sum(u, Xor(u, v), Xor(v, w), Xor(w, a)) == a
  {
    Pairs(u, v, w);
  }

  lemma InvMixedPair(a: Byte, b: Byte, c: Byte, d: Byte)
    ensures Xor(InvMix(a, b, c, d), InvMix(b, c, d, a)) == Sum(ZERO, X2(Sum(a, b, c, d)), Xtime(Xor(a, c)), Xor(a, b))
  {
    InvMixForm(a, b, c, d);
    InvMixForm(b, c, d, a);
    SumCycle(a, b, c, d);
    SumCycle(b, c, d, ZERO);
    SumCycle(c, d, a, ZERO);
    var s := Sum(a, b, c, d);
    AddSums(X3(s), X2(Xor(a, c)), Xtime(Xor(a, b)), Sum(b, c, d, ZERO),
            X3(s), X2(Xor(b, d)), Xtime(Xor(b, c)), Sum(c, d, a, ZERO));
    Pairs(X3(s), a, a);
    PowersSum(Xor(a, c), Xor(b, d));
    PowersSum(Xor(a, b), Xor(b, c));
    XorExchange(a, c, b, d);
    Regroup(a, b, c, d);
    Pairs(a, b, c);
    RestSums(a, b, c, d);
  }

  /** Mixing the four unmixed octets of a word gives the first octet back. */
  lemma InvMixUndone(a: Byte, b: Byte, c: Byte, d: Byte)
    ensures Mix(InvMix(a, b, c, d), InvMix(b, c, d, a), InvMix(c, d, a, b), InvMix(d, a, b, c)) == a
  {
    var p, q, r, t := InvMix(a, b, c, d), InvMix(b, c, d, a), InvMix(c, d, a, b), InvMix(d, a, b, c);
    var s, u, v := Sum(a, b, c, d), X2(Xor(a, c)), Xtime(Xor(a, b));
    MixForm(p, q, r, t);
    InvMixedPair(a, b, c, d);
    AllUnmixed(a, b, c, d);
    RestSums(p, q, r, t);
    SumCycle(q, r, t, ZERO);
    InvMixForm(a, b, c, d);
    SumCycle(b, c, d, ZERO);
    // the other three
    XorAssociative(Sum(X3(s), u, v, ZERO), Sum(b, c, d, ZERO), s);
    XorZero(Xor(Xor(X3(s), u), v));
    RestSums(a, b, c, d);
    // x times the first pair
    XorZero(X2(s));
    PowersSum(X2(s), Xtime(Xor(a, c)));
    PowersSum(Xor(X2(s), Xtime(Xor(a, c))), Xor(a, b));
    XorCancel(a, Sum(X3(s), u, v, ZERO));
    XorCommutative(Sum(X3(s), u, v, ZERO), a);
    XorCommutative(Sum(X3(s), u, v, ZERO), Xor(a, Sum(X3(s), u, v, ZERO)));
  }

  lemma AllUnmixed(a: Byte, b: Byte, c: Byte, d: Byte)
    ensures Sum(InvMix(a, b, c, d), InvMix(b, c, d, a), InvMix(c, d, a, b), InvMix(d, a, b, c)) == Sum(a, b, c, d)
  {
    InvMixedPair(a, b, c, d);
    InvMixedPair(c, d, a, b);
    SumCycle(a, b, c, d);
    XorCommutative(a, c);
    var u, v := X2(Sum(a, b, c, d)), Xtime(Xor(a, c));
    Regroup(InvMix(a, b, c, d), InvMix(b, c, d, a), InvMix(c, d, a, b), InvMix(d, a, b, c));
    AddSums(ZERO, u, v, Xor(a, b), ZERO, u, v, Xor(c, d));
    Pairs(ZERO, a, a);
    Pairs(u, a, a);
    Pairs(v, a, a);
    XorZero(ZERO);
    XorZero(Xor(Xor(a, b), Xor(c, d)));
    Regroup(a, b, c, d);
  }

  lemma MixedUndone(s: Block)
    ensures InvMixed(Mixed(s)) == s && Mixed(InvMixed(s)) == s
  {
    MixedWordUndone(s.w0);
    MixedWordUndone(s.w1);
    MixedWordUndone(s.w2);
    MixedWordUndone(s.w3);
  }

  lemma MixedWordUndone(w: Word)
    ensures InvMixedWord(MixedWord(w)) == w && MixedWord(InvMixedWord(w)) == w
  {
    MixUndone(w.b0, w.b1, w.b2, w.b3);
    MixUndone(w.b1, w.b2, w.b3, w.b0);
    MixUndone(w.b2, w.b3, w.b0, w.b1);
    MixUndone(w.b3, w.b0, w.b1, w.b2);
    InvMixUndone(w.b0, w.b1, w.b2, w.b3);
    InvMixUndone(w.b1, w.b2, w.b3, w.b0);
    InvMixUndone(w.b2, w.b3, w.b0, w.b1);
    InvMixUndone(w.b3, w.b0, w.b1, w.b2);
  }
}
