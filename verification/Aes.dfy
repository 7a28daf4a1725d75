/** The AES ciphers over a key schedule of any number of rounds, and cipher block
    chaining over streams of octets (section 6.2 of NIST SP 800-38A). The ciphers
    are described over a record of their transforms, which the loops below are shown
    to compute with and of which only invertibility matters to the round trips. */
module Aes {
  import opened Galois
  import opened AesBlocks

  const NOTHING := Word(ZERO, ZERO, ZERO, ZERO)

  type Schedule = w: seq<Block> | |w| > 0 witness [Block(NOTHING, NOTHING, NOTHING, NOTHING)]

  datatype Steps = Steps(sub: Block -> Block, shift: Block -> Block, mix: Block -> Block,
                         add: (Block, Block) -> Block,
                         invSub: Block -> Block, invShift: Block -> Block, invMix: Block -> Block)

  /** The transforms of AES. */
  ghost predicate Computes(t: Steps) {
    && (forall s {:trigger Substituted(s)} :: t.sub(s) == Substituted(s))
    && (forall s {:trigger Shifted(s)} :: t.shift(s) == Shifted(s))
    && (forall s {:trigger Mixed(s)} :: t.mix(s) == Mixed(s))
    && (forall s, k {:trigger Added(s, k)} :: t.add(s, k) == Added(s, k))
    && (forall s {:trigger InvSubstituted(s)} :: t.invSub(s) == InvSubstituted(s))
    && (forall s {:trigger InvShifted(s)} :: t.invShift(s) == InvShifted(s))
    && (forall s {:trigger InvMixed(s)} :: t.invMix(s) == InvMixed(s))
  }

  function AES(): Steps {
    Steps(s => Substituted(s), s => Shifted(s), s => Mixed(s), (s, k) => Added(s, k),
          s => InvSubstituted(s), s => InvShifted(s), s => InvMixed(s))
  }

  ghost predicate Inverses(f: Block -> Block, g: Block -> Block) {
    forall s :: g(f(s)) == s && f(g(s)) == s
  }

  ghost predicate Invertible(t: Steps) {
    && Inverses(t.sub, t.invSub) && Inverses(t.shift, t.invShift) && Inverses(t.mix, t.invMix)
    && forall s, k :: t.add(t.add(s, k), k) == s
  }

  lemma AesComputes()
    ensures Computes(AES())
  {}

  /** The transforms of AES undo each other. */
  lemma AesInvertible()
    ensures Invertible(AES())
  {
    var t := AES();
    assert Inverses(t.sub, t.invSub) by {
      forall s ensures t.invSub(t.sub(s)) == s && t.sub(t.invSub(s)) == s { SubstitutionUndone(s); }
    }
    assert Inverses(t.shift, t.invShift) by {
      forall s ensures t.invShift(t.shift(s)) == s && t.shift(t.invShift(s)) == s { ShiftUndone(s); }
    }
    assert Inverses(t.mix, t.invMix) by {
      forall s ensures t.invMix(t.mix(s)) == s && t.mix(t.invMix(s)) == s { MixedUndone(s); }
    }
    forall s, k ensures t.add(t.add(s, k), k) == s { AddedTwice(s, k); }
  }

  // ------------------------------------------------------------------
  // One block.

  /** The block after k rounds with mixing. */
  function Rounds(t: Steps, x: Block, w: Schedule, k: nat): Block
    requires k < |w|
    decreases k
  {
    if k == 0 then t.add(x, w[0]) else t.add(t.mix(t.shift(t.sub(Rounds(t, x, w, k - 1)))), w[k])
  }

  /** How many rounds mix. */
  function Mixing(w: Schedule): nat {
    if |w| == 1 then 0 else |w| - 2
  }

  function Encrypted(t: Steps, x: Block, w: Schedule): Block {
    t.add(t.shift(t.sub(Rounds(t, x, w, Mixing(w)))), w[|w| - 1])
  }

  /** Enciphering is what section 5.1 of FIPS 197 says: the states of its rounds begin with
      the first key added; each round but the last substitutes, shifts, mixes and adds its
      key, and the last leaves out the mixing. */
  lemma EncryptedExactly(t: Steps, x: Block, w: Schedule, states: seq<Block>)
    requires |states| == if |w| == 1 then 1 else |w| - 1
    requires states[0] == t.add(x, w[0])
    requires forall k | 0 < k < |states| :: states[k] == t.add(t.mix(t.shift(t.sub(states[k - 1]))), w[k])
    ensures Encrypted(t, x, w) == t.add(t.shift(t.sub(states[|states| - 1])), w[|w| - 1])
  {
    RoundStates(t, x, w, states, Mixing(w));
  }

  lemma {:induction false} RoundStates(t: Steps, x: Block, w: Schedule, states: seq<Block>, k: nat)
    requires k < |states| <= |w| && states[0] == t.add(x, w[0])
    requires forall k | 0 < k < |states| :: states[k] == t.add(t.mix(t.shift(t.sub(states[k - 1]))), w[k])
    ensures Rounds(t, x, w, k) == states[k]
  {
    if k > 0 { RoundStates(t, x, w, states, k - 1); }
  }

  /** The inverse rounds k, k - 1, ..., 1 and the closing half round. */
  function UndoRounds(t: Steps, y: Block, w: Schedule, k: nat): Block
    requires k < |w|
    decreases k
  {
    var half := t.add(t.invSub(t.invShift(y)), w[k]);
    if k == 0 then half else UndoRounds(t, t.invMix(half), w, k - 1)
  }

  function Decrypted(t: Steps, y: Block, w: Schedule): Block {
    UndoRounds(t, t.add(y, w[|w| - 1]), w, Mixing(w))
  }

  method HalfRound(out: array2<Byte>, ghost t: Steps)
    requires Square(out) && Computes(t)
    modifies out
    ensures Contents(out) == t.shift(t.sub(old(Contents(out))))
  {
    SubBytes(out);
    ShiftRows(out);
  }

  method InvHalfRound(out: array2<Byte>, ghost t: Steps)
    requires Square(out) && Computes(t)
    modifies out
    ensures Contents(out) == t.invSub(t.invShift(old(Contents(out))))
  {
    InvShiftRows(out);
    InvSubBytes(out);
  }

  method Mixer(out: array2<Byte>, inverse: bool, ghost t: Steps)
    requires Square(out) && Computes(t)
    modifies out
    ensures Contents(out) == if inverse then t.invMix(old(Contents(out))) else t.mix(old(Contents(out)))
  {
    if inverse {
      InvMixColumns(out);
    } else {
      MixColumns(out);
    }
  }

  method Adder(out: array2<Byte>, key: Block, ghost t: Steps)
    requires Square(out) && Computes(t)
    modifies out
    ensures Contents(out) == t.add(old(Contents(out)), key)
  {
    AddRoundKey(out, key);
  }

  method MixingRound(out: array2<Byte>, key: Block, ghost t: Steps)
    requires Square(out) && Computes(t)
    modifies out
    ensures Contents(out) == t.add(t.mix(t.shift(t.sub(old(Contents(out))))), key)
  {
    hide Computes, Contents;
    HalfRound(out, t);
    Mixer(out, false, t);
    Adder(out, key, t);
  }

  method UnmixingRound(out: array2<Byte>, key: Block, ghost t: Steps)
    requires Square(out) && Computes(t)
    modifies out
    ensures Contents(out) == t.invMix(t.add(t.invSub(t.invShift(old(Contents(out)))), key))
  {
    hide Computes, Contents;
    InvHalfRound(out, t);
    Adder(out, key, t);
    Mixer(out, true, t);
  }

  lemma FirstRound(t: Steps, x: Block, w: Schedule)
    ensures Rounds(t, x, w, 0) == t.add(x, w[0])
  {}

  lemma RoundIs(t: Steps, x: Block, w: Schedule, k: nat)
    requires 0 < k < |w|
    ensures Rounds(t, x, w, k) == t.add(t.mix(t.shift(t.sub(Rounds(t, x, w, k - 1)))), w[k])
  {}

  lemma UndoIs(t: Steps, y: Block, w: Schedule, k: nat)
    requires k < |w|
    ensures UndoRounds(t, y, w, k)
            == if k == 0 then t.add(t.invSub(t.invShift(y)), w[0])
               else UndoRounds(t, t.invMix(t.add(t.invSub(t.invShift(y)), w[k])), w, k - 1)
  {}

  method Cipher(input: array2<Byte>, w: Schedule, out: array2<Byte>, ghost t: Steps)
    requires Square(input) && Square(out) && Computes(t)
    modifies out
    ensures Contents(out) == Encrypted(t, old(Contents(input)), w)
  {
    hide Rounds, Computes, Contents;
    ghost var x := Contents(input);
    CopyBlock(input, out);
    Adder(out, w[0], t);
    FirstRound(t, x, w);
    var rounds := |w| - 1;
    var round := 1;
    while round < rounds
      invariant 1 <= round && (round <= rounds || rounds == 0)
      invariant round - 1 <= Mixing(w) && Contents(out) == Rounds(t, x, w, round - 1)
    {
      MixingRound(out, w[round], t);
      RoundIs(t, x, w, round);
      round := round + 1;
    }
    HalfRound(out, t);
    Adder(out, w[rounds], t);
  }

  method InverseCipher(input: array2<Byte>, w: Schedule, out: array2<Byte>, ghost t: Steps)
    requires Square(input) && Square(out) && Computes(t)
    modifies out
    ensures Contents(out) == Decrypted(t, old(Contents(input)), w)
  {
    hide UndoRounds, Computes, Contents;
    ghost var y := Contents(input);
    CopyBlock(input, out);
    var rounds := |w| - 1;
    Adder(out, w[rounds], t);
    var round := rounds - 1;
    ghost var left := Mixing(w);
    while round > 0
      invariant 0 <= left < |w| && (round == left || (round == -1 && left == 0))
      invariant UndoRounds(t, Contents(out), w, left) == Decrypted(t, y, w)
    {
      UndoIs(t, Contents(out), w, left);
      UnmixingRound(out, w[round], t);
      round := round - 1;
      left := left - 1;
    }
    UndoIs(t, Contents(out), w, 0);
    InvHalfRound(out, t);
    Adder(out, w[0], t);
  }

  lemma {:induction false} RoundsUndone(t: Steps, x: Block, w: Schedule, k: nat)
    requires k < |w| && Invertible(t)
    ensures UndoRounds(t, t.shift(t.sub(Rounds(t, x, w, k))), w, k) == x
    decreases k
  {
    if k > 0 {
      RoundsUndone(t, x, w, k - 1);
    }
  }

  lemma {:induction false} RoundsRedone(t: Steps, y: Block, w: Schedule, k: nat)
    requires k < |w| && Invertible(t)
    ensures t.shift(t.sub(Rounds(t, UndoRounds(t, y, w, k), w, k))) == y
    decreases k
  {
    if k > 0 {
      RoundsRedone(t, t.invMix(t.add(t.invSub(t.invShift(y)), w[k])), w, k - 1);
    }
  }

  /** Deciphering undoes enciphering and the other way round, for every block,
      every schedule and any number of rounds. */
  lemma CipherUndone(t: Steps, x: Block, w: Schedule)
    requires Invertible(t)
    ensures Decrypted(t, Encrypted(t, x, w), w) == x && Encrypted(t, Decrypted(t, x, w), w) == x
  {
    RoundsUndone(t, x, w, Mixing(w));
    RoundsRedone(t, t.add(x, w[|w| - 1]), w, Mixing(w));
  }

  // ------------------------------------------------------------------
  // Chained blocks.

  function Chained(t: Steps, xs: seq<Block>, w: Schedule, iv: Block): seq<Block>
    decreases |xs|
  {
    if xs == [] then []
    else
      var y := Encrypted(t, t.add(xs[0], iv), w);
      [y] + Chained(t, xs[1..], w, y)
  }

  function Unchained(t: Steps, ys: seq<Block>, w: Schedule, iv: Block): seq<Block>
    decreases |ys|
  {
    if ys == [] then [] else [t.add(Decrypted(t, ys[0], w), iv)] + Unchained(t, ys[1..], w, ys[0])
  }

  /** Each block is added to the one enciphered before it, the first to the vector. */
  lemma {:induction false} ChainedAt(t: Steps, xs: seq<Block>, w: Schedule, iv: Block, i: nat)
    requires i < |xs|
    ensures |Chained(t, xs, w, iv)| == |xs|
    ensures var ys := Chained(t, xs, w, iv); ys[i] == Encrypted(t, t.add(xs[i], if i == 0 then iv else ys[i - 1]), w)
    decreases |xs|
  {
    hide Encrypted;
    var y := Encrypted(t, t.add(xs[0], iv), w);
    var rest := Chained(t, xs[1..], w, y);
    assert Chained(t, xs, w, iv) == [y] + rest;
    if |xs| == 1 {
      assert xs[1..] == [];
    } else {
      ChainedAt(t, xs[1..], w, y, if i == 0 then 0 else i - 1);
    }
  }

  lemma {:induction false} ChainUndone(t: Steps, xs: seq<Block>, w: Schedule, iv: Block)
    requires Invertible(t)
    ensures Unchained(t, Chained(t, xs, w, iv), w, iv) == xs
    decreases |xs|
  {
    hide Invertible, Encrypted, Decrypted;
    if xs != [] {
      var x, y := xs[0], Encrypted(t, t.add(xs[0], iv), w);
      var ys := Chained(t, xs[1..], w, y);
      assert Chained(t, xs, w, iv) == [y] + ys && ([y] + ys)[1..] == ys;
      ChainUndone(t, xs[1..], w, y);
      CipherUndone(t, t.add(x, iv), w);
      AddedBack(t, x, iv);
    }
  }

  lemma AddedBack(t: Steps, x: Block, k: Block)
    requires Invertible(t)
    ensures t.add(t.add(x, k), k) == x
  {}

  lemma {:induction false} ChainRedone(t: Steps, ys: seq<Block>, w: Schedule, iv: Block)
    requires Invertible(t)
    ensures Chained(t, Unchained(t, ys, w, iv), w, iv) == ys
    decreases |ys|
  {
    if ys != [] {
      assert Unchained(t, ys, w, iv)[1..] == Unchained(t, ys[1..], w, ys[0]);
      ChainRedone(t, ys[1..], w, ys[0]);
      CipherUndone(t, ys[0], w);
    }
  }

  // ------------------------------------------------------------------
  // Streams of octets.

  const BLOCK_SIZE := 16

  function WordOf(o: seq<Byte>, k: nat): Word
    requires k + 4 <= |o|
  {
    Word(o[k], o[k + 1], o[k + 2], o[k + 3])
  }

  function BlockOf(o: seq<Byte>): Block
    requires |o| == BLOCK_SIZE
  {
    Block(WordOf(o, 0), WordOf(o, 4), WordOf(o, 8), WordOf(o, 12))
  }

  function OctetsOf(b: Block): (o: seq<Byte>)
    ensures |o| == BLOCK_SIZE && BlockOf(o) == b
  {
    seq(BLOCK_SIZE, i requires 0 <= i < BLOCK_SIZE => b.At(i / 4).At(i % 4))
  }

  lemma OctetsAgain(o: seq<Byte>)
    requires |o| == BLOCK_SIZE
    ensures OctetsOf(BlockOf(o)) == o
  {
    forall i | 0 <= i < BLOCK_SIZE ensures OctetsOf(BlockOf(o))[i] == o[i] {
      var r, c := i / 4, i % 4;
      assert BlockOf(o).At(r) == WordOf(o, 4 * r);
    }
  }

  /** The whole blocks a stream begins with. */
  function BlocksOf(o: seq<Byte>): seq<Block> {
    if |o| < BLOCK_SIZE then [] else [BlockOf(o[..BLOCK_SIZE])] + BlocksOf(o[BLOCK_SIZE..])
  }

  /** Octet c of word r of block i is the octet of the stream at 16 i + 4 r + c. */
  lemma {:induction false} BlocksAt(o: seq<Byte>, i: nat, r: nat, c: nat)
    requires BLOCK_SIZE * (i + 1) <= |o| && r < 4 && c < 4
    ensures |BlocksOf(o)| == |o| / BLOCK_SIZE
    ensures BlocksOf(o)[i].At(r).At(c) == o[BLOCK_SIZE * i + 4 * r + c]
    decreases |o|
  {
    var rest := o[BLOCK_SIZE..];
    if i > 0 {
      BlocksAt(rest, i - 1, r, c);
    } else {
      assert BlockOf(o[..BLOCK_SIZE]).At(r) == WordOf(o[..BLOCK_SIZE], 4 * r);
      BlocksCount(o);
    }
  }

  lemma {:induction false} BlocksCount(o: seq<Byte>)
    ensures |BlocksOf(o)| == |o| / BLOCK_SIZE
  {
    if |o| >= BLOCK_SIZE { BlocksCount(o[BLOCK_SIZE..]); }
  }

  function StreamOf(bs: seq<Block>): seq<Byte> {
    if bs == [] then [] else OctetsOf(bs[0]) + StreamOf(bs[1..])
  }

  lemma {:induction false} BlocksAgain(bs: seq<Block>)
    ensures BlocksOf(StreamOf(bs)) == bs && |StreamOf(bs)| == BLOCK_SIZE * |bs|
  {
    if bs != [] {
      var head, rest := OctetsOf(bs[0]), StreamOf(bs[1..]);
      BlocksAgain(bs[1..]);
      assert StreamOf(bs)[..BLOCK_SIZE] == head && StreamOf(bs)[BLOCK_SIZE..] == rest;
    }
  }

  lemma {:induction false} StreamAgain(o: seq<Byte>)
    requires |o| % BLOCK_SIZE == 0
    ensures StreamOf(BlocksOf(o)) == o
  {
    if o != [] {
      StreamAgain(o[BLOCK_SIZE..]);
      OctetsAgain(o[..BLOCK_SIZE]);
      assert BlocksOf(o)[1..] == BlocksOf(o[BLOCK_SIZE..]);
    }
  }

  method ReadBlock(o: seq<Byte>, buffer: array2<Byte>)
    requires |o| == BLOCK_SIZE && Square(buffer)
    modifies buffer
    ensures Contents(buffer) == BlockOf(o)
  {
    forall i, j | 0 <= i < 4 && 0 <= j < 4 { buffer[i, j] := o[4 * i + j]; }
  }

  /** The loop that adds the chain to a buffer, octet by octet. */
  method AddChain(buffer: array2<Byte>, chain: Block)
    requires Square(buffer)
    modifies buffer
    ensures Contents(buffer) == Added(old(Contents(buffer)), chain)
  {
    for i := 0 to BLOCK_SIZE
      invariant forall r, c | 0 <= r < 4 && 0 <= c < 4 ::
        buffer[r, c] == if 4 * r + c < i then Xor(old(buffer[r, c]), chain.At(r).At(c)) else old(buffer[r, c])
    {
      var r, c := i / 4, i % 4;
      buffer[r, c] := Xor(buffer[r, c], chain.At(r).At(c));
    }
  }

  method Chainer(buffer: array2<Byte>, chain: Block, ghost t: Steps)
    requires Square(buffer) && Computes(t)
    modifies buffer
    ensures Contents(buffer) == t.add(old(Contents(buffer)), chain)
  {
    AddChain(buffer, chain);
  }

  lemma ChainStep(t: Steps, xs: seq<Block>, w: Schedule, chain: Block)
    requires xs != []
    ensures var y := Encrypted(t, t.add(xs[0], chain), w);
            StreamOf(Chained(t, xs, w, chain)) == OctetsOf(y) + StreamOf(Chained(t, xs[1..], w, y))
    ensures StreamOf(Unchained(t, xs, w, chain))
            == OctetsOf(t.add(Decrypted(t, xs[0], w), chain)) + StreamOf(Unchained(t, xs[1..], w, xs[0]))
  {
    var y := Encrypted(t, t.add(xs[0], chain), w);
    assert Chained(t, xs, w, chain)[1..] == Chained(t, xs[1..], w, y);
    assert Unchained(t, xs, w, chain)[1..] == Unchained(t, xs[1..], w, xs[0]);
  }

  lemma StreamStep(t: Steps, rest: seq<Byte>, w: Schedule, chain: Block)
    requires |rest| >= BLOCK_SIZE
    ensures var x, more := BlockOf(rest[..BLOCK_SIZE]), BlocksOf(rest[BLOCK_SIZE..]);
            var y := Encrypted(t, t.add(x, chain), w);
            && StreamOf(Chained(t, BlocksOf(rest), w, chain)) == OctetsOf(y) + StreamOf(Chained(t, more, w, y))
            && StreamOf(Unchained(t, BlocksOf(rest), w, chain))
               == OctetsOf(t.add(Decrypted(t, x, w), chain)) + StreamOf(Unchained(t, more, w, x))
  {
    ChainStep(t, BlocksOf(rest), w, chain);
    assert BlocksOf(rest)[1..] == BlocksOf(rest[BLOCK_SIZE..]);
  }

  /** The loop body: one block read, chained, enciphered and written. */
  method CipherStep(out: seq<Byte>, rest: seq<Byte>, w: Schedule, chain: Block, ghost t: Steps)
    returns (more: seq<Byte>, next: Block)
    requires |rest| >= BLOCK_SIZE && Computes(t)
    ensures more + StreamOf(Chained(t, BlocksOf(rest[BLOCK_SIZE..]), w, next))
            == out + StreamOf(Chained(t, BlocksOf(rest), w, chain))
  {
    var buffer, result := new Byte[4, 4], new Byte[4, 4];
    ReadBlock(rest[..BLOCK_SIZE], buffer);
    Chainer(buffer, chain, t);
    Cipher(buffer, w, result, t);
    next := Contents(result);
    more := out + OctetsOf(next);
    StreamStep(t, rest, w, chain);
    Concat(out, OctetsOf(next), StreamOf(Chained(t, BlocksOf(rest[BLOCK_SIZE..]), w, next)));
  }

  method InverseStep(out: seq<Byte>, rest: seq<Byte>, w: Schedule, chain: Block, ghost t: Steps)
    returns (more: seq<Byte>, next: Block)
    requires |rest| >= BLOCK_SIZE && Computes(t)
    ensures more + StreamOf(Unchained(t, BlocksOf(rest[BLOCK_SIZE..]), w, next))
            == out + StreamOf(Unchained(t, BlocksOf(rest), w, chain))
  {
    var buffer, result := new Byte[4, 4], new Byte[4, 4];
    ReadBlock(rest[..BLOCK_SIZE], buffer);
    next := Contents(buffer);
    InverseCipher(buffer, w, result, t);
    Chainer(result, chain, t);
    var x := Contents(result);
    more := out + OctetsOf(x);
    StreamStep(t, rest, w, chain);
    Concat(out, OctetsOf(x), StreamOf(Unchained(t, BlocksOf(rest[BLOCK_SIZE..]), w, next)));
  }

  lemma Concat(a: seq<Byte>, b: seq<Byte>, c: seq<Byte>)
    ensures (a + b) + c == a + (b + c)
  {}

  lemma NoBlock(t: Steps, rest: seq<Byte>, w: Schedule, chain: Block)
    requires |rest| < BLOCK_SIZE
    ensures StreamOf(Chained(t, BlocksOf(rest), w, chain)) == [] == StreamOf(Unchained(t, BlocksOf(rest), w, chain))
  {
  }

  /** Enciphers a stream. Throws, with the whole blocks already written, exactly
      when the stream does not end with a whole block. */
  method CipherCBC(input: seq<Byte>, w: Schedule, iv: Block, ghost t: Steps) returns (whole: bool, out: seq<Byte>)
    requires Computes(t)
    ensures whole <==> |input| % BLOCK_SIZE == 0
    ensures out == StreamOf(Chained(t, BlocksOf(input), w, iv))
  {
    hide Chained, StreamOf, BlocksOf, Computes;
    var chain := iv;
    var rest := input;
    out := [];
    ghost var blocks := 0;
    while |rest| >= BLOCK_SIZE
      invariant |rest| + BLOCK_SIZE * blocks == |input|
      invariant out + StreamOf(Chained(t, BlocksOf(rest), w, chain)) == StreamOf(Chained(t, BlocksOf(input), w, iv))
    {
      out, chain := CipherStep(out, rest, w, chain, t);
      rest := rest[BLOCK_SIZE..];
      blocks := blocks + 1;
    }
    NoBlock(t, rest, w, chain);
    whole := rest == [];
  }

  method InverseCipherCBC(input: seq<Byte>, w: Schedule, iv: Block, ghost t: Steps) returns (whole: bool, out: seq<Byte>)
    requires Computes(t)
    ensures whole <==> |input| % BLOCK_SIZE == 0
    ensures out == StreamOf(Unchained(t, BlocksOf(input), w, iv))
  {
    hide Unchained, StreamOf, BlocksOf, Computes;
    var chain := iv;
    var rest := input;
    out := [];
    ghost var blocks := 0;
    while |rest| >= BLOCK_SIZE
      invariant |rest| + BLOCK_SIZE * blocks == |input|
      invariant out + StreamOf(Unchained(t, BlocksOf(rest), w, chain)) == StreamOf(Unchained(t, BlocksOf(input), w, iv))
    {
      out, chain := InverseStep(out, rest, w, chain, t);
      rest := rest[BLOCK_SIZE..];
      blocks := blocks + 1;
    }
    NoBlock(t, rest, w, chain);
    whole := rest == [];
  }

  /** Enciphering a stream of whole blocks and deciphering the outcome gives the
      stream back, for every schedule and initialisation vector. */
  method ChainRoundTrip(input: seq<Byte>, w: Schedule, iv: Block) returns (out: seq<Byte>)
    requires |input| % BLOCK_SIZE == 0
    ensures out == input
  {
    ghost var t := AES();
    AesComputes();
    AesInvertible();
    var _, sent := CipherCBC(input, w, iv, t);
    BlocksAgain(Chained(t, BlocksOf(input), w, iv));
    ChainUndone(t, BlocksOf(input), w, iv);
    StreamAgain(input);
    var _, received := InverseCipherCBC(sent, w, iv, t);
    out := received;
  }
}
