/** The streaming hash of the native helper: a context changed in place by init, update and final. */
module Sha256Stream {
  import opened Bytes
  import opened Sha256Spec

  lemma LastOctet(n: nat, width: nat, rest: seq<byte>)
    requires width > 0
    ensures BigEndian(n, width) + rest == BigEndian(n / 256, width - 1) + ([n % 256] + rest)
  {
  }

  /** `store_be64`: octet `7 - i` is the value shifted right by `8 * i`. */
  method StoreBe64(value: u64) returns (output: seq<byte>)
    ensures output == U64(value)
  {
    hide BigEndian;
    output := [];
    var shifted: nat := value;
    for index := 0 to 8
      invariant U64(value) == BigEndian(shifted, 8 - index) + output
    {
      LastOctet(shifted, 8 - index, output);
      output := [shifted % 256] + output;
      shifted := shifted / 256;
    }
  }

  lemma SumReversed(a: bv32, b: bv32, c: bv32, d: bv32)
    ensures a + b + c + d == d + c + b + a
  {
  }

  lemma Plus4Reversed(a: bv32, b: bv32, c: bv32, d: bv32)
    ensures Plus4(a, b, c, d) == Plus4(d, c, b, a)
  {
    SumReversed(a, b, c, d);
  }

  /** The right-hand side of the schedule loop in `transform`. */
  method ExpandWord(w16: bv32, w15: bv32, w7: bv32, w2: bv32) returns (w: bv32)
    ensures w == Plus4(SmallSigma1(w2), w7, SmallSigma0(w15), w16)
  {
    hide Rotr, Plus4;
    var s0 := Rotr(w15, 7) ^ Rotr(w15, 18) ^ (w15 >> 3);
    var s1 := Rotr(w2, 17) ^ Rotr(w2, 19) ^ (w2 >> 10);
    w := Plus4(w16, s0, w7, s1);
    Plus4Reversed(w16, s0, w7, s1);
  }

  /** The body of the round loop in `transform`, with its register shifts in the C order. */
  method OneRound(a0: bv32, b0: bv32, c0: bv32, d0: bv32, e0: bv32, f0: bv32, g0: bv32, h0: bv32, k: bv32, word: bv32)
    returns (a: bv32, b: bv32, c: bv32, d: bv32, e: bv32, f: bv32, g: bv32, h: bv32)
    ensures Registers(a, b, c, d, e, f, g, h) == Round(Registers(a0, b0, c0, d0, e0, f0, g0, h0), k, word)
  {
    hide Rotr, Plus;
    a, b, c, d, e, f, g, h := a0, b0, c0, d0, e0, f0, g0, h0;
    var upperE := Rotr(e, 6) ^ Rotr(e, 11) ^ Rotr(e, 25);
    var choose := (e & f) ^ (!e & g);
    var temporary1 := Plus(Plus(Plus(Plus(h, upperE), choose), k), word);
    var upperA := Rotr(a, 2) ^ Rotr(a, 13) ^ Rotr(a, 22);
    var majority := (a & b) ^ (a & c) ^ (b & c);
    var temporary2 := Plus(upperA, majority);
    h := g;
    g := f;
    f := e;
    e := Plus(d, temporary1);
    d := c;
    c := b;
    b := a;
    a := Plus(temporary1, temporary2);
  }

  /** Four octets of the output loop in `clodex_sha256_final`. */
  method StoreWord(w: bv32) returns (r: seq<byte>)
    ensures r == WordOctets(w)
  {
    r := [Octet(w >> 24), Octet(w >> 16), Octet(w >> 8), Octet(w)];
  }

  /** `load_be32` */
  method LoadBe32(bytes: array<byte>, at: nat) returns (w: bv32)
    requires bytes.Length == BLOCK && at % 4 == 0 && at < BLOCK
    ensures w == WordAt(bytes[..], at / 4)
  {
    w := (bytes[at] as bv32 << 24) | (bytes[at + 1] as bv32 << 16) |
         (bytes[at + 2] as bv32 << 8) | bytes[at + 3] as bv32;
  }

  lemma BitCountAdds(fed: nat, more: nat)
    ensures (8 * fed % TWO_64 + more * 8 % TWO_64) % TWO_64 == 8 * (fed + more) % TWO_64
  {
    var a, b := 8 * fed, more * 8;
    var q, r := a / TWO_64 + b / TWO_64, a % TWO_64 + b % TWO_64;
    assert a + b == TWO_64 * q + r;
    if r < TWO_64 {
      assert (a + b) / TWO_64 == q;
    } else {
      assert (a + b) / TWO_64 == q + 1;
    }
  }

  lemma PaddingEnds(length: nat, added: nat, blocks: nat, position: nat)
    requires added <= ZeroCount(length)
    requires position < BLOCK && length + 1 + added == BLOCK * blocks + position
    ensures position == 56 <==> added == ZeroCount(length)
  {
  }

  lemma OneMoreZero(front: seq<byte>, n: nat)
    ensures front + Zeros(n) + [0] == front + Zeros(n + 1)
  {
    assert Zeros(n) + [0] == Zeros(n + 1);
  }

  lemma NoZeros(front: seq<byte>)
    ensures front + Zeros(0) == front
  {
  }

  /** The words `clodex_sha256_init` copies into the state. */
  function InitialWord(i: nat): bv32
    requires i < 8
  {
    H0()[i]
  }

  lemma NoBlocks()
    ensures Chain([], 0) == H0()
  {
    hide H0;
  }

  /** Later octets do not disturb the value of the blocks already folded in. */
  lemma {:induction false} ChainOfPrefix(m: seq<byte>, more: seq<byte>, k: nat)
    requires BLOCK * k <= |m|
    ensures Chain(m + more, k) == Chain(m, k)
  {
    hide Compress;
    if k > 0 {
      ChainOfPrefix(m, more, k - 1);
      assert (m + more)[BLOCK * (k - 1)..BLOCK * k] == m[BLOCK * (k - 1)..BLOCK * k];
    }
  }

  class Context {
    const state: array<bv32>
    var bitCount: u64
    const block: array<byte>
    var blockLength: nat
    /** Every octet given to `Update` so far, and how many whole blocks of it are in the state. */
    ghost var fed: seq<byte>
    ghost var blocks: nat

    ghost predicate Shaped() {
      state.Length == 8 && block.Length == BLOCK
    }

    /** The buffer, the state and the octets fed so far agree. */
    ghost predicate Buffered()
      reads `blockLength, `fed, `blocks, state, block
    {
      && Shaped()
      && blockLength < BLOCK
      && |fed| == BLOCK * blocks + blockLength
      && block[..blockLength] == fed[BLOCK * blocks..]
      && state[..] == Chain(fed, blocks)
    }

    ghost predicate Valid()
      reads this, state, block
    {
      Buffered() && bitCount == 8 * |fed| % TWO_64
    }

    /** `clodex_sha256_init` */
    constructor ()
      ensures Valid() && fed == []
      ensures fresh(state) && fresh(block)
    {
      hide H0, Chain;
      state := new bv32[8](InitialWord);
      block := new byte[64](_ => 0);
      bitCount := 0;
      blockLength, blocks := 0, 0;
      fed := [];
      new;
      assert state[..] == H0();
      NoBlocks();
    }

    /** The first loop pair of `transform`: the sixty-four schedule words. */
    method ExpandSchedule() returns (words: array<bv32>)
      requires Shaped()
      ensures fresh(words) && words.Length == 64
      ensures forall t :: 0 <= t < 64 ==> words[t] == Schedule(block[..], t)
    {
      hide Plus4, SmallSigma0, SmallSigma1, WordAt;
      words := new bv32[64];
      for index := 0 to 16
        invariant forall t :: 0 <= t < index ==> words[t] == Schedule(block[..], t)
      {
        words[index] := LoadBe32(block, 4 * index);
      }
      for index := 16 to 64
        invariant forall t :: 0 <= t < index ==> words[t] == Schedule(block[..], t)
      {
        words[index] := ExpandWord(words[index - 16], words[index - 15], words[index - 7], words[index - 2]);
      }
    }

    /** The round loop of `transform`: eight registers shifted in place. */
    method RunRounds(words: array<bv32>) returns (r: Registers)
      requires Shaped() && words.Length == 64
      requires forall t :: 0 <= t < 64 ==> words[t] == Schedule(block[..], t)
      ensures r == Rounds(state[..], block[..], 64)
    {
      hide K, Schedule, Round;
      var a, b, c, d := state[0], state[1], state[2], state[3];
      var e, f, g, h := state[4], state[5], state[6], state[7];
      for index := 0 to 64
        invariant Registers(a, b, c, d, e, f, g, h) == Rounds(state[..], block[..], index)
      {
        a, b, c, d, e, f, g, h := OneRound(a, b, c, d, e, f, g, h, K(index), words[index]);
      }
      r := Registers(a, b, c, d, e, f, g, h);
    }

    /** `transform`: folds the buffered block into the state. */
    method Transform()
      requires Shaped()
      modifies state
      ensures state[..] == Compress(old(state[..]), block[..])
    {
      hide Rounds, Schedule, Plus;
      var words := ExpandSchedule();
      var r := RunRounds(words);
      state[0], state[1], state[2], state[3] :=
        Plus(state[0], r.a), Plus(state[1], r.b), Plus(state[2], r.c), Plus(state[3], r.d);
      state[4], state[5], state[6], state[7] :=
        Plus(state[4], r.e), Plus(state[5], r.f), Plus(state[6], r.g), Plus(state[7], r.h);
    }

    /** `memcpy` into the free part of the block. */
    method CopyIn(bytes: seq<byte>)
      requires Shaped() && blockLength + |bytes| <= BLOCK
      modifies block, `blockLength
      ensures blockLength == old(blockLength) + |bytes|
      ensures block[..blockLength] == old(block[..blockLength]) + bytes
    {
      var start := blockLength;
      forall i | 0 <= i < |bytes| {
        block[start + i] := bytes[i];
      }
      blockLength := start + |bytes|;
    }

    /** One turn of the loop in `clodex_sha256_update`. */
    method AbsorbPiece(piece: seq<byte>)
      requires Buffered() && 0 < |piece| <= BLOCK - blockLength
      modifies `blockLength, `fed, `blocks, state, block
      ensures Buffered() && fed == old(fed) + piece
    {
      hide Compress;
      ChainOfPrefix(fed, piece, blocks);
      CopyIn(piece);
      fed := fed + piece;
      if blockLength == BLOCK {
        assert block[..] == block[..BLOCK] == fed[BLOCK * blocks..BLOCK * (blocks + 1)];
        Transform();
        blockLength := 0;
        blocks := blocks + 1;
      }
    }

    /** `clodex_sha256_update` */
    method Update(bytes: seq<byte>)
      requires Valid()
      modifies this, state, block
      ensures Valid() && fed == old(fed) + bytes
    {
      hide Buffered;
      ghost var start := fed;
      if |bytes| == 0 {
        assert start + bytes == start;
        return;
      }
      BitCountAdds(|fed|, |bytes|);
      bitCount := (bitCount + |bytes| * 8 % TWO_64) % TWO_64;
      var offset := 0;
      while offset < |bytes|
        invariant 0 <= offset <= |bytes|
        invariant fed == start + bytes[..offset]
        invariant Buffered()
        invariant bitCount == 8 * (|start| + |bytes|) % TWO_64
      {
        var available := FreeSpace();
        var remaining := |bytes| - offset;
        var copyLength := if remaining < available then remaining else available;
        AbsorbPiece(bytes[offset..offset + copyLength]);
        assert bytes[..offset + copyLength] == bytes[..offset] + bytes[offset..offset + copyLength];
        offset := offset + copyLength;
      }
      assert bytes[..|bytes|] == bytes;
    }

    method SavedBitCount() returns (bits: u64)
      requires Valid()
      ensures bits == 8 * |fed| % TWO_64
    {
      bits := bitCount;
    }

    method FreeSpace() returns (n: nat)
      requires Buffered()
      ensures 0 < n == BLOCK - blockLength
    {
      n := BLOCK - blockLength;
    }

    lemma PositionInBlock()
      requires Valid()
      ensures blockLength < BLOCK && |fed| == BLOCK * blocks + blockLength
    {
      hide Chain;
    }

    lemma AllFolded()
      requires Valid()
      ensures Shaped() && state[..] == Chain(fed, blocks)
    {
      hide Chain;
    }

    /** The padding loop of `clodex_sha256_final`: it stops after the least number of zero octets. */
    method PadToLength(ghost message: seq<byte>)
      requires Valid() && fed == message + [0x80]
      modifies this, state, block
      ensures Valid() && blockLength == 56
      ensures fed == message + [0x80] + Zeros(ZeroCount(|message|))
    {
      hide Valid, ZeroCount, Zeros;
      ghost var added := 0;
      PositionInBlock();
      PaddingEnds(|message|, 0, blocks, blockLength);
      NoZeros(message + [0x80]);
      while blockLength != 56
        invariant Valid() && added <= ZeroCount(|message|)
        invariant fed == message + [0x80] + Zeros(added)
        invariant blockLength == 56 <==> added == ZeroCount(|message|)
        decreases ZeroCount(|message|) - added
      {
        Update([0]);
        OneMoreZero(message + [0x80], added);
        added := added + 1;
        PositionInBlock();
        PaddingEnds(|message|, added, blocks, blockLength);
      }
    }

    /** `clodex_sha256_final` */
    method Final() returns (digest: seq<byte>)
      requires Valid()
      modifies this, state, block
      ensures digest == Sha256(old(fed))
      ensures bitCount == 0 && blockLength == 0
      ensures forall i :: 0 <= i < state.Length ==> state[i] == 0
      ensures forall i :: 0 <= i < block.Length ==> block[i] == 0
    {
      hide Chain, Octets, Valid, BlockCount;
      ghost var message := fed;
      var bits := SavedBitCount();
      Update([0x80]);
      PadToLength(message);
      var encoded := StoreBe64(bits);
      Update(encoded);
      assert fed == Pad(message);
      PositionInBlock();
      assert blocks == BlockCount(|message|);
      AllFolded();
      digest := EmitDigest();
      forall i | 0 <= i < state.Length { state[i] := 0; }
      forall i | 0 <= i < block.Length { block[i] := 0; }
      bitCount, blockLength := 0, 0;
    }

    /** The output loop of `clodex_sha256_final`. */
    method EmitDigest() returns (digest: seq<byte>)
      requires Shaped()
      ensures digest == Octets(state[..])
    {
      hide WordOctets;
      digest := [];
      for index := 0 to 8
        invariant digest == Octets(state[..index])
      {
        var octets := StoreWord(state[index]);
        digest := digest + octets;
        assert state[..index + 1][..index] == state[..index];
      }
      assert state[..8] == state[..];
    }
  }

  function Concat(chunks: seq<seq<byte>>): (m: seq<byte>) {
    if chunks == [] then [] else Concat(chunks[..|chunks| - 1]) + chunks[|chunks| - 1]
  }

  /** Every way of cutting a message into update calls gives the digest of the whole message. */
  method HashChunks(chunks: seq<seq<byte>>) returns (digest: seq<byte>)
    ensures digest == Sha256(Concat(chunks))
  {
    hide Sha256, Context.Valid;
    var context := new Context();
    for i := 0 to |chunks|
      invariant context.Valid() && context.fed == Concat(chunks[..i])
      invariant fresh(context) && fresh(context.state) && fresh(context.block)
    {
      context.Update(chunks[i]);
      assert chunks[..i + 1][..i] == chunks[..i];
    }
    assert chunks[..|chunks|] == chunks;
    digest := context.Final();
  }
}
