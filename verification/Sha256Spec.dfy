/** SHA-256 as FIPS 180-4 defines it: the functions and constants of sections 4.1.2, 4.2.2 and
    5.3.3, padding (section 5.1.1), message schedule and compression (section 6.2.2). */
module Sha256Spec {
  import opened Octets

  const BLOCK_SIZE := 64
  const DIGEST_SIZE := 32

  type word = bv32

  type Hash = h: Bytes | |h| == DIGEST_SIZE witness Zeros(DIGEST_SIZE)

  /** The working variables, and also the eight words of a hash value. */
  datatype Vars = Vars(a: word, b: word, c: word, d: word, e: word, f: word, g: word, h: word)

  /** FIPS 180-4 section 4.2.2. */
  const K: seq<seq<word>> := [
    [0x428a2f98, 0x71374491, 0xb5c0fbcf, 0xe9b5dba5, 0x3956c25b, 0x59f111f1, 0x923f82a4, 0xab1c5ed5],
    [0xd807aa98, 0x12835b01, 0x243185be, 0x550c7dc3, 0x72be5d74, 0x80deb1fe, 0x9bdc06a7, 0xc19bf174],
    [0xe49b69c1, 0xefbe4786, 0x0fc19dc6, 0x240ca1cc, 0x2de92c6f, 0x4a7484aa, 0x5cb0a9dc, 0x76f988da],
    [0x983e5152, 0xa831c66d, 0xb00327c8, 0xbf597fc7, 0xc6e00bf3, 0xd5a79147, 0x06ca6351, 0x14292967],
    [0x27b70a85, 0x2e1b2138, 0x4d2c6dfc, 0x53380d13, 0x650a7354, 0x766a0abb, 0x81c2c92e, 0x92722c85],
    [0xa2bfe8a1, 0xa81a664b, 0xc24b8b70, 0xc76c51a3, 0xd192e819, 0xd6990624, 0xf40e3585, 0x106aa070],
    [0x19a4c116, 0x1e376c08, 0x2748774c, 0x34b0bcb5, 0x391c0cb3, 0x4ed8aa4a, 0x5b9cca4f, 0x682e6ff3],
    [0x748f82ee, 0x78a5636f, 0x84c87814, 0x8cc70208, 0x90befffa, 0xa4506ceb, 0xbef9a3f7, 0xc67178f2]
  ]

  /** FIPS 180-4 section 5.3.3. */
  const H0 := Vars(0x6a09e667, 0xbb67ae85, 0x3c6ef372, 0xa54ff53a, 0x510e527f, 0x9b05688c, 0x1f83d9ab, 0x5be0cd19)

  function Constant(t: nat): word
    requires t < 64
  {
    K[t / 8][t % 8]
  }

  function AsWord(b: u8): word { b as word }

  function WordOf(b0: u8, b1: u8, b2: u8, b3: u8): word {
    (AsWord(b0) << 24) | (AsWord(b1) << 16) | (AsWord(b2) << 8) | AsWord(b3)
  }

  /** Byte `i` of a word, most significant first. */
  function ByteOf(w: word, i: nat): u8 {
    ((ShiftedWord(w, i) & 0xff) as bv8) as u8
  }

  function ShiftedWord(w: word, i: nat): word {
    if i == 0 then w >> 24 else if i == 1 then w >> 16 else if i == 2 then w >> 8 else w
  }

  function Add(x: word, y: word): word { x + y }

  function Ch(x: word, y: word, z: word): word { (x & y) ^ ((!x) & z) }

  function Maj(x: word, y: word, z: word): word { (x & y) ^ (x & z) ^ (y & z) }

  // Rotation right by n is (x >> n) | (x << 32 - n), section 3.2.

  function BigSigma0(x: word): word {
    ((x >> 2) | (x << 30)) ^ ((x >> 13) | (x << 19)) ^ ((x >> 22) | (x << 10))
  }

  function BigSigma1(x: word): word {
    ((x >> 6) | (x << 26)) ^ ((x >> 11) | (x << 21)) ^ ((x >> 25) | (x << 7))
  }

  function SmallSigma0(x: word): word {
    ((x >> 7) | (x << 25)) ^ ((x >> 18) | (x << 14)) ^ (x >> 3)
  }

  function SmallSigma1(x: word): word {
    ((x >> 17) | (x << 15)) ^ ((x >> 19) | (x << 13)) ^ (x >> 10)
  }

  type Block = b: Bytes | |b| == BLOCK_SIZE witness Zeros(BLOCK_SIZE)

  /** Word `t` of the message schedule. */
  function W(block: Block, t: nat): word
    requires t < 64
  {
    if t < 16 then WordOf(block[4 * t], block[4 * t + 1], block[4 * t + 2], block[4 * t + 3])
    else
      var s1, s0 := SmallSigma1(W(block, t - 2)), SmallSigma0(W(block, t - 15));
      Add(Add(Add(s1, W(block, t - 7)), s0), W(block, t - 16))
  }

  function Round(v: Vars, k: word, w: word): Vars {
    var t1 := Add(Add(Add(Add(v.h, BigSigma1(v.e)), Ch(v.e, v.f, v.g)), k), w);
    var t2 := Add(BigSigma0(v.a), Maj(v.a, v.b, v.c));
    Vars(Add(t1, t2), v.a, v.b, v.c, Add(v.d, t1), v.e, v.f, v.g)
  }

  function Rounds(v: Vars, block: Block, t: nat): Vars
    requires t <= 64
  {
    if t == 0 then v else Round(Rounds(v, block, t - 1), Constant(t - 1), W(block, t - 1))
  }

  function Plus(x: Vars, y: Vars): Vars {
    Vars(Add(x.a, y.a), Add(x.b, y.b), Add(x.c, y.c), Add(x.d, y.d),
         Add(x.e, y.e), Add(x.f, y.f), Add(x.g, y.g), Add(x.h, y.h))
  }

  function Compress(h: Vars, block: Block): Vars {
    Plus(h, Rounds(h, block, 64))
  }

  /** The hash value after all blocks of `m`, starting from `h`. */
  function HashBlocks(h: Vars, m: Bytes): Vars
    requires |m| % BLOCK_SIZE == 0
  {
    if m == [] then h
    else Compress(HashBlocks(h, m[..|m| - BLOCK_SIZE]), m[|m| - BLOCK_SIZE..])
  }

  /** `n` as `size` bytes, most significant first, modulo 256 to the `size`. */
  function BigEndian(n: nat, size: nat): (r: Bytes)
    ensures |r| == size
  {
    if size == 0 then [] else BigEndian(n / 0x100, size - 1) + [n % 0x100]
  }

  /** The smallest number of zero bytes that brings `n` bytes and the 0x80 to 56 modulo 64. */
  function PadZeros(n: nat): (k: nat)
    ensures (n + 1 + k) % BLOCK_SIZE == 56 && k < BLOCK_SIZE
  {
    (55 - n) % BLOCK_SIZE
  }

  /** The length in bits of an `n`-byte message as a 64-bit number. The standard defines the hash
      for lengths below 2^64 bits only, where nothing is cut off. */
  function BitLength(n: nat): u64 {
    (8 * n) % 0x1_0000_0000_0000_0000
  }

  lemma PadLength(n: nat)
    ensures (n + 1 + PadZeros(n) + 8) % BLOCK_SIZE == 0
  {
    hide PadZeros;
    var q := (n + 1 + PadZeros(n)) / BLOCK_SIZE;
    assert n + 1 + PadZeros(n) + 8 == BLOCK_SIZE * (q + 1);
  }

  function Pad(m: Bytes): (r: Bytes)
    ensures |r| == |m| + 1 + PadZeros(|m|) + 8 && |r| % BLOCK_SIZE == 0
  {
    hide PadZeros, BitLength, BigEndian;
    PadLength(|m|);
    m + [0x80] + Zeros(PadZeros(|m|)) + BigEndian(BitLength(|m|), 8)
  }

  /** The eight words one after the other, each most significant byte first. */
  function VarsBytes(v: Vars): (b: Bytes)
    ensures |b| == DIGEST_SIZE
  {
    var words := [v.a, v.b, v.c, v.d, v.e, v.f, v.g, v.h];
    seq(DIGEST_SIZE, j requires 0 <= j < DIGEST_SIZE => ByteOf(words[j / 4], j % 4))
  }

  function Digest(m: Bytes): (d: Bytes)
    ensures |d| == DIGEST_SIZE
  {
    VarsBytes(HashBlocks(H0, Pad(m)))
  }

  /** One more block. */
  lemma HashBlocksStep(h: Vars, m: Bytes, block: Block)
    requires |m| % BLOCK_SIZE == 0
    ensures HashBlocks(h, m + block) == Compress(HashBlocks(h, m), block)
  {
    hide Compress;
    var all := m + block;
    assert all[..|all| - BLOCK_SIZE] == m && all[|all| - BLOCK_SIZE..] == block;
  }
}
