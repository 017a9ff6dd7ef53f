/** `sha256.c`: the byte-at-a-time streaming implementation over its context arrays, proved to
    compute the hash of `Sha256Spec` whatever the calls the message arrives in. */
module Sha256 {
  import opened Octets
  import opened Sha256Spec

  class Context {
    const data: array<u8>
    var datalen: nat
    var bitlen: u64
    const state: array<word>
    /** The message bytes hashed since `Init`; those after them wait in `data`. */
    ghost var hashed: Bytes

    ghost predicate Shaped()
      reads this
    {
      data.Length == BLOCK_SIZE && state.Length == 8
    }

    ghost function H(): Vars
      reads this, state
      requires Shaped()
    {
      Vars(state[0], state[1], state[2], state[3], state[4], state[5], state[6], state[7])
    }

    ghost predicate Valid()
      reads this, data, state
      ensures Valid() ==> Shaped() && datalen < BLOCK_SIZE
    {
      && Shaped()
      && datalen < BLOCK_SIZE
      && |hashed| % BLOCK_SIZE == 0
      && H() == HashBlocks(H0, hashed)
      && bitlen == BitLength(|hashed|)
    }

    /** All message bytes taken since `Init`. */
    ghost function Message(): Bytes
      reads this, data
      requires datalen <= data.Length
    {
      hashed + data[..datalen]
    }

    constructor ()
      ensures Shaped() && fresh(data) && fresh(state)
    {
      data := new u8[BLOCK_SIZE];
      state := new word[8];
      datalen, bitlen, hashed := 0, 0, [];
    }

    method Init()
      requires Shaped()
      modifies this, state
      ensures Valid() && Message() == []
    {
      hide Compress;
      datalen, bitlen, hashed := 0, 0, [];
      state[0], state[1], state[2], state[3] := 0x6a09e667, 0xbb67ae85, 0x3c6ef372, 0xa54ff53a;
      state[4], state[5], state[6], state[7] := 0x510e527f, 0x9b05688c, 0x1f83d9ab, 0x5be0cd19;
    }

    /** The message schedule loops of `sha256_transform`. */
    method Schedule(ghost block: Block) returns (m: array<word>)
      requires Shaped() && data[..] == block
      ensures fresh(m) && m.Length == 64
      ensures forall t :: 0 <= t < 64 ==> m[t] == W(block, t)
    {
      hide WordOf, Add, SmallSigma0, SmallSigma1, W;
      m := new word[64];
      var j := 0;
      for i := 0 to 16
        invariant j == 4 * i
        invariant forall t :: 0 <= t < i ==> m[t] == W(block, t)
      {
        m[i] := WordOf(data[j], data[j + 1], data[j + 2], data[j + 3]);
        WFirst(block, i);
        j := j + 4;
      }
      for i := 16 to 64
        invariant forall t :: 0 <= t < i ==> m[t] == W(block, t)
      {
        m[i] := Add(Add(Add(SmallSigma1(m[i - 2]), m[i - 7]), SmallSigma0(m[i - 15])), m[i - 16]);
        WNext(block, i);
      }
    }

    method Transform()
      requires Shaped()
      modifies state
      ensures H() == Compress(old(H()), data[..])
    {
      hide Add, BigSigma0, BigSigma1, Ch, Maj, Constant, W;
      ghost var start, block := H(), data[..];
      var m := Schedule(block);
      var a, b, c, d := state[0], state[1], state[2], state[3];
      var e, f, g, h := state[4], state[5], state[6], state[7];
      for i := 0 to 64
        invariant Vars(a, b, c, d, e, f, g, h) == Rounds(start, block, i)
      {
        var t1 := Add(Add(Add(Add(h, BigSigma1(e)), Ch(e, f, g)), Constant(i)), m[i]);
        var t2 := Add(BigSigma0(a), Maj(a, b, c));
        h := g;
        g := f;
        f := e;
        e := Add(d, t1);
        d := c;
        c := b;
        b := a;
        a := Add(t1, t2);
      }
      state[0] := Add(state[0], a);
      state[1] := Add(state[1], b);
      state[2] := Add(state[2], c);
      state[3] := Add(state[3], d);
      state[4] := Add(state[4], e);
      state[5] := Add(state[5], f);
      state[6] := Add(state[6], g);
      state[7] := Add(state[7], h);
    }

    /** The block that `sha256_update` hashes when `data` is full. */
    method FullBlock()
      requires Shaped() && datalen == BLOCK_SIZE && |hashed| % BLOCK_SIZE == 0
      requires H() == HashBlocks(H0, hashed) && bitlen == BitLength(|hashed|)
      modifies this, state
      ensures Valid() && Message() == old(Message())
    {
      hide Compress, HashBlocks, BitLength;
      HashBlocksStep(H0, hashed, data[..]);
      BitLengthStep(|hashed|, BLOCK_SIZE);
      Transform();
      bitlen := (bitlen + 512) % 0x1_0000_0000_0000_0000;
      hashed := hashed + data[..];
      datalen := 0;
      assert data[..BLOCK_SIZE] == data[..];
    }

    /** One iteration of the loop of `sha256_update`. */
    method PutByte(b: u8)
      requires Valid()
      modifies this, data, state
      ensures Valid() && Message() == old(Message()) + [b]
    {
      hide HashBlocks, BitLength;
      data[datalen] := b;
      datalen := datalen + 1;
      assert data[..datalen] == old(data[..datalen]) + [b];
      if datalen == 64 {
        FullBlock();
      }
    }

    /** The loop counter of the source is a 32-bit word, hence the bound on one call. */
    method Update(d: Bytes)
      requires Valid() && |d| < 0x1_0000_0000
      modifies this, data, state
      ensures Valid() && Message() == old(Message()) + d
    {
      hide HashBlocks, BitLength;
      for i := 0 to |d|
        invariant Valid() && Message() == old(Message()) + d[..i]
      {
        PutByte(d[i]);
        assert d[..i + 1] == d[..i] + [d[i]];
      }
      assert d[..|d|] == d;
    }

    /** 0x80 and zeros up to `stop`, as both padding branches of `sha256_final` write them. */
    method PadData(stop: nat)
      requires Shaped() && datalen < stop <= BLOCK_SIZE
      modifies data
      ensures data[..stop] == old(data[..datalen]) + [0x80] + Zeros(stop - datalen - 1)
    {
      var i := datalen;
      data[i] := 0x80;
      i := i + 1;
      while i < stop
        invariant datalen < i <= stop
        invariant data[..i] == old(data[..datalen]) + [0x80] + Zeros(i - datalen - 1)
      {
        data[i] := 0;
        i := i + 1;
        assert data[..i] == data[..i - 1] + [0];
        assert Zeros(i - 1 - datalen - 1) + [0] == Zeros(i - datalen - 1);
      }
    }

    method PutLength()
      requires Shaped()
      modifies data
      ensures data[..56] == old(data[..56])
      ensures data[56..] == BigEndian(bitlen, 8)
    {
      data[63] := bitlen % 0x100;
      data[62] := bitlen / 0x100 % 0x100;
      data[61] := bitlen / 0x1_0000 % 0x100;
      data[60] := bitlen / 0x100_0000 % 0x100;
      data[59] := bitlen / 0x1_0000_0000 % 0x100;
      data[58] := bitlen / 0x100_0000_0000 % 0x100;
      data[57] := bitlen / 0x1_0000_0000_0000 % 0x100;
      data[56] := bitlen / 0x100_0000_0000_0000 % 0x100;
      EightBytes(bitlen);
      assert data[56..] == [data[56], data[57], data[58], data[59], data[60], data[61], data[62], data[63]];
    }

    /** One iteration of the output loop: byte `i` of every word. */
    method PutColumn(hash: array<u8>, i: nat)
      requires Shaped() && hash.Length >= DIGEST_SIZE && i < 4
      modifies hash
      ensures hash[i] == ByteOf(state[0], i) && hash[i + 4] == ByteOf(state[1], i)
      ensures hash[i + 8] == ByteOf(state[2], i) && hash[i + 12] == ByteOf(state[3], i)
      ensures hash[i + 16] == ByteOf(state[4], i) && hash[i + 20] == ByteOf(state[5], i)
      ensures hash[i + 24] == ByteOf(state[6], i) && hash[i + 28] == ByteOf(state[7], i)
      ensures forall j :: 0 <= j < hash.Length && (j >= DIGEST_SIZE || j % 4 != i) ==> hash[j] == old(hash[j])
    {
      hide ByteOf;
      hash[i] := ByteOf(state[0], i);
      hash[i + 4] := ByteOf(state[1], i);
      hash[i + 8] := ByteOf(state[2], i);
      hash[i + 12] := ByteOf(state[3], i);
      hash[i + 16] := ByteOf(state[4], i);
      hash[i + 20] := ByteOf(state[5], i);
      hash[i + 24] := ByteOf(state[6], i);
      hash[i + 28] := ByteOf(state[7], i);
    }

    /** The big-endian output loop. */
    method PutHash(hash: array<u8>)
      requires Shaped() && hash.Length >= DIGEST_SIZE
      modifies hash
      ensures hash[..DIGEST_SIZE] == VarsBytes(H())
      ensures hash[DIGEST_SIZE..] == old(hash[DIGEST_SIZE..])
    {
      hide ByteOf, VarsBytes;
      for i := 0 to 4
        invariant forall j :: 0 <= j < DIGEST_SIZE && j % 4 < i ==> hash[j] == ByteOf(state[j / 4], j % 4)
        invariant forall j :: DIGEST_SIZE <= j < hash.Length ==> hash[j] == old(hash[j])
      {
        PutColumn(hash, i);
      }
      ghost var words: seq<word> := state[..];
      forall j | 0 <= j < DIGEST_SIZE ensures hash[j] == VarsBytes(H())[j] {
        VarsByteAt(words, j);
      }
      assert hash[..DIGEST_SIZE] == VarsBytes(H());
    }

    /** The two padding branches: all of the padded message but its last eight bytes is hashed
        or in `data`. */
    method PadMessage()
      requires Valid()
      modifies this`hashed, data, state
      ensures Shaped() && |hashed| % BLOCK_SIZE == 0 && H() == HashBlocks(H0, hashed)
      ensures hashed + (data[..56] + BigEndian(BitLength(old(|hashed|) + datalen), 8)) == Pad(old(Message()))
    {
      hide Compress, HashBlocks, BitLength, BigEndian, Pad;
      if datalen < 56 {
        PadIsOneBlock(hashed, data[..datalen]);
        PadData(56);
      } else {
        PadIsTwoBlocks(hashed, data[..datalen]);
        PadData(64);
        assert data[..64] == data[..];
        HashBlocksStep(H0, hashed, data[..]);
        Transform();
        hashed := hashed + data[..];
        forall i | 0 <= i < 56 { data[i] := 0; }
        assert data[..56] == Zeros(56);
      }
    }

    method Final(hash: array<u8>)
      requires Valid() && hash.Length >= DIGEST_SIZE && hash != data
      modifies this, data, state, hash
      ensures hash[..DIGEST_SIZE] == Digest(old(Message()))
      ensures hash[DIGEST_SIZE..] == old(hash[DIGEST_SIZE..])
      ensures Shaped()
    {
      hide Compress, HashBlocks, BitLength, BigEndian, VarsBytes, Pad;
      BitLengthStep(|hashed|, datalen);
      PadMessage();
      bitlen := (bitlen + datalen * 8) % 0x1_0000_0000_0000_0000;
      PutLength();
      assert data[..] == data[..56] + data[56..];
      HashBlocksStep(H0, hashed, data[..]);
      Transform();
      PutHash(hash);
    }
  }

  lemma WFirst(block: Block, t: nat)
    requires t < 16
    ensures W(block, t) == WordOf(block[4 * t], block[4 * t + 1], block[4 * t + 2], block[4 * t + 3])
  {
  }

  lemma WNext(block: Block, t: nat)
    requires 16 <= t < 64
    ensures W(block, t) == Add(Add(Add(SmallSigma1(W(block, t - 2)), W(block, t - 7)),
                                   SmallSigma0(W(block, t - 15))), W(block, t - 16))
  {
    hide Add, SmallSigma0, SmallSigma1;
  }

  lemma VarsByteAt(w: seq<word>, j: nat)
    requires |w| == 8 && j < DIGEST_SIZE
    ensures VarsBytes(Vars(w[0], w[1], w[2], w[3], w[4], w[5], w[6], w[7]))[j] == ByteOf(w[j / 4], j % 4)
  {
    hide ByteOf;
    assert w == [w[0], w[1], w[2], w[3], w[4], w[5], w[6], w[7]];
  }

  lemma PadIsOneBlock(whole: Bytes, tail: Bytes)
    requires |whole| % BLOCK_SIZE == 0 && |tail| < 56
    ensures Pad(whole + tail) ==
            whole + (tail + [0x80] + Zeros(56 - |tail| - 1) + BigEndian(BitLength(|whole| + |tail|), 8))
  {
    hide BigEndian, BitLength;
    assert PadZeros(|whole + tail|) == 56 - |tail| - 1;
  }

  lemma PadIsTwoBlocks(whole: Bytes, tail: Bytes)
    requires |whole| % BLOCK_SIZE == 0 && 56 <= |tail| < BLOCK_SIZE
    ensures Pad(whole + tail) ==
            whole + (tail + [0x80] + Zeros(64 - |tail| - 1)) + (Zeros(56) + BigEndian(BitLength(|whole| + |tail|), 8))
  {
    hide BigEndian, BitLength;
    assert PadZeros(|whole + tail|) == 64 - |tail| - 1 + 56;
    assert Zeros(64 - |tail| - 1 + 56) == Zeros(64 - |tail| - 1) + Zeros(56);
  }

  lemma BitLengthStep(n: nat, more: nat)
    ensures (BitLength(n) + 8 * more) % 0x1_0000_0000_0000_0000 == BitLength(n + more)
  {
    var q := 8 * n / 0x1_0000_0000_0000_0000;
    assert 8 * (n + more) == 0x1_0000_0000_0000_0000 * q + (BitLength(n) + 8 * more);
  }

  lemma BigEndianStep(n: nat, size: nat)
    requires size >= 2
    ensures BigEndian(n, size) == BigEndian(n / 0x100 / 0x100, size - 2) + [n / 0x100 % 0x100, n % 0x100]
  {
  }

  lemma EightBytes(n: u64)
    ensures BigEndian(n, 8) == [
              n / 0x100_0000_0000_0000 % 0x100, n / 0x1_0000_0000_0000 % 0x100,
              n / 0x100_0000_0000 % 0x100, n / 0x1_0000_0000 % 0x100,
              n / 0x100_0000 % 0x100, n / 0x1_0000 % 0x100,
              n / 0x100 % 0x100, n % 0x100]
  {
    hide BigEndian;
    var n2, n4, n6 := n / 0x1_0000, n / 0x1_0000_0000, n / 0x1_0000_0000_0000;
    BigEndianStep(n, 8);
    BigEndianStep(n2, 6);
    BigEndianStep(n4, 4);
    BigEndianStep(n6, 2);
    assert n / 0x100 / 0x100 == n2 && n2 / 0x100 / 0x100 == n4 && n4 / 0x100 / 0x100 == n6;
    assert n2 / 0x100 == n / 0x100_0000 && n4 / 0x100 == n / 0x100_0000_0000 && n6 / 0x100 == n / 0x100_0000_0000_0000;
    assert |BigEndian(n6 / 0x100 / 0x100, 0)| == 0;
  }

  /** Streaming refines the one-shot definition: any sequence of updates, then final. */
  method Hash(pieces: seq<Bytes>) returns (hash: array<u8>)
    requires forall i :: 0 <= i < |pieces| ==> |pieces[i]| < 0x1_0000_0000
    ensures fresh(hash) && hash[..] == Digest(Concat(pieces))
  {
    var ctx := new Context();
    ctx.Init();
    for i := 0 to |pieces|
      invariant ctx.Valid() && fresh(ctx) && fresh(ctx.data) && fresh(ctx.state)
      invariant ctx.Message() == Concat(pieces[..i])
    {
      ctx.Update(pieces[i]);
      assert pieces[..i + 1][..i] == pieces[..i];
    }
    assert pieces[..|pieces|] == pieces;
    hash := new u8[DIGEST_SIZE];
    ctx.Final(hash);
    assert hash[..DIGEST_SIZE] == hash[..];
  }
}
