/** The word functions and constants of SHA-256 against their meaning: rotations, bitwise choice and
    majority, addition modulo 2^32, bytes of a word, and roots of primes. */
module Sha256Words {
  import opened Octets
  import opened Sha256Spec

  /** The four rotating functions, FIPS 180-4 section 4.1.2. */
  lemma SigmasRotate(x: word)
    ensures BigSigma0(x) == x.RotateRight(2) ^ x.RotateRight(13) ^ x.RotateRight(22)
    ensures BigSigma1(x) == x.RotateRight(6) ^ x.RotateRight(11) ^ x.RotateRight(25)
    ensures SmallSigma0(x) == x.RotateRight(7) ^ x.RotateRight(18) ^ (x >> 3)
    ensures SmallSigma1(x) == x.RotateRight(17) ^ x.RotateRight(19) ^ (x >> 10)
  {
  }

  /** `Ch` takes a bit from `y` where `x` has one, */
  lemma ChoiceOnes(x: word, y: word, z: word)
    ensures Ch(x, y, z) & x == y & x
  {
  }

  lemma ChoiceZeros(x: word, y: word, z: word)
    ensures Ch(x, y, z) & !x == z & !x
  {
  }

  lemma MajorityIs(x: word, y: word, z: word)
    ensures Maj(x, y, z) == (x & y) | (z & (x | y))
  {
  }

  lemma WiderByte(b: bv8)
    ensures b as int == (b as word) as int
  {
  }

  lemma WordOfInt(w: word)
    ensures (w as int) as word == w
  {
  }

  lemma LowByte(w: word)
    ensures ((w & 0xff) as bv8) as word == w & 0xff
  {
  }

  lemma ByteAsWord(w: word)
    ensures (((w & 0xff) as bv8) as u8) as word == w & 0xff
  {
    WiderByte((w & 0xff) as bv8);
    LowByte(w);
    WordOfInt(w & 0xff);
  }

  lemma JoinBytes(w: word)
    ensures (((w >> 24) & 0xff) << 24) | (((w >> 16) & 0xff) << 16) | (((w >> 8) & 0xff) << 8) | (w & 0xff) == w
  {
  }

  lemma ByteAt(w: word, i: nat)
    requires i < 4
    ensures AsWord(ByteOf(w, i)) == ShiftedWord(w, i) & 0xff
  {
    hide ShiftedWord;
    ByteAsWord(ShiftedWord(w, i));
  }

  /** The bytes of a word, put together again. */
  lemma BytesOfWord(w: word)
    ensures WordOf(ByteOf(w, 0), ByteOf(w, 1), ByteOf(w, 2), ByteOf(w, 3)) == w
  {
    hide ByteOf, AsWord;
    ByteAt(w, 0);
    ByteAt(w, 1);
    ByteAt(w, 2);
    ByteAt(w, 3);
    JoinBytes(w);
  }

  // ----- the constants -----

  /** The first 64 primes. */
  const PRIMES: seq<seq<nat>> := [
    [2, 3, 5, 7, 11, 13, 17, 19],
    [23, 29, 31, 37, 41, 43, 47, 53],
    [59, 61, 67, 71, 73, 79, 83, 89],
    [97, 101, 103, 107, 109, 113, 127, 131],
    [137, 139, 149, 151, 157, 163, 167, 173],
    [179, 181, 191, 193, 197, 199, 211, 223],
    [227, 229, 233, 239, 241, 251, 257, 263],
    [269, 271, 277, 281, 283, 293, 307, 311]
  ]

  function PrimeAt(t: nat): nat
    requires t < 64
  {
    PRIMES[t / 8][t % 8]
  }

  /** `root` is the cube root of `p`, cut off after 32 binary places. */
  predicate CubeRoot(root: nat, p: nat) {
    var scaled := p * 0x1_0000_0000 * 0x1_0000_0000 * 0x1_0000_0000;
    root * root * root <= scaled < (root + 1) * (root + 1) * (root + 1)
  }

  predicate SquareRoot(root: nat, p: nat) {
    var scaled := p * 0x1_0000_0000 * 0x1_0000_0000;
    root * root <= scaled < (root + 1) * (root + 1)
  }

  /** A constant is the fraction of the cube root of its prime. */
  ghost predicate IsFractionOfRoot(t: nat)
    requires t < 64
  {
    exists whole: nat :: CubeRoot(whole * 0x1_0000_0000 + Constant(t) as int, PrimeAt(t))
  }

  lemma Fraction(t: nat, whole: nat, frac: nat, p: nat)
    requires t < 64 && Constant(t) as int == frac && PrimeAt(t) == p && CubeRoot(whole * 0x1_0000_0000 + frac, p)
    ensures IsFractionOfRoot(t)
  {
  }

  lemma Fractions0()
    ensures forall t :: 0 <= t < 4 ==> IsFractionOfRoot(t)
  {
    hide IsFractionOfRoot;
    Fraction(0, 1, 0x428a2f98, 2);
    Fraction(1, 1, 0x71374491, 3);
    Fraction(2, 1, 0xb5c0fbcf, 5);
    Fraction(3, 1, 0xe9b5dba5, 7);
  }

  lemma Fractions4()
    ensures forall t :: 4 <= t < 8 ==> IsFractionOfRoot(t)
  {
    hide IsFractionOfRoot;
    Fraction(4, 2, 0x3956c25b, 11);
    Fraction(5, 2, 0x59f111f1, 13);
    Fraction(6, 2, 0x923f82a4, 17);
    Fraction(7, 2, 0xab1c5ed5, 19);
  }

  lemma Fractions8()
    ensures forall t :: 8 <= t < 12 ==> IsFractionOfRoot(t)
  {
    hide IsFractionOfRoot;
    Fraction(8, 2, 0xd807aa98, 23);
    Fraction(9, 3, 0x12835b01, 29);
    Fraction(10, 3, 0x243185be, 31);
    Fraction(11, 3, 0x550c7dc3, 37);
  }

  lemma Fractions12()
    ensures forall t :: 12 <= t < 16 ==> IsFractionOfRoot(t)
  {
    hide IsFractionOfRoot;
    Fraction(12, 3, 0x72be5d74, 41);
    Fraction(13, 3, 0x80deb1fe, 43);
    Fraction(14, 3, 0x9bdc06a7, 47);
    Fraction(15, 3, 0xc19bf174, 53);
  }

  lemma Fractions16()
    ensures forall t :: 16 <= t < 20 ==> IsFractionOfRoot(t)
  {
    hide IsFractionOfRoot;
    Fraction(16, 3, 0xe49b69c1, 59);
    Fraction(17, 3, 0xefbe4786, 61);
    Fraction(18, 4, 0x0fc19dc6, 67);
    Fraction(19, 4, 0x240ca1cc, 71);
  }

  lemma Fractions20()
    ensures forall t :: 20 <= t < 24 ==> IsFractionOfRoot(t)
  {
    hide IsFractionOfRoot;
    Fraction(20, 4, 0x2de92c6f, 73);
    Fraction(21, 4, 0x4a7484aa, 79);
    Fraction(22, 4, 0x5cb0a9dc, 83);
    Fraction(23, 4, 0x76f988da, 89);
  }

  lemma Fractions24()
    ensures forall t :: 24 <= t < 28 ==> IsFractionOfRoot(t)
  {
    hide IsFractionOfRoot;
    Fraction(24, 4, 0x983e5152, 97);
    Fraction(25, 4, 0xa831c66d, 101);
    Fraction(26, 4, 0xb00327c8, 103);
    Fraction(27, 4, 0xbf597fc7, 107);
  }

  lemma Fractions28()
    ensures forall t :: 28 <= t < 32 ==> IsFractionOfRoot(t)
  {
    hide IsFractionOfRoot;
    Fraction(28, 4, 0xc6e00bf3, 109);
    Fraction(29, 4, 0xd5a79147, 113);
    Fraction(30, 5, 0x06ca6351, 127);
    Fraction(31, 5, 0x14292967, 131);
  }

  lemma Fractions32()
    ensures forall t :: 32 <= t < 36 ==> IsFractionOfRoot(t)
  {
    hide IsFractionOfRoot;
    Fraction(32, 5, 0x27b70a85, 137);
    Fraction(33, 5, 0x2e1b2138, 139);
    Fraction(34, 5, 0x4d2c6dfc, 149);
    Fraction(35, 5, 0x53380d13, 151);
  }

  lemma Fractions36()
    ensures forall t :: 36 <= t < 40 ==> IsFractionOfRoot(t)
  {
    hide IsFractionOfRoot;
    Fraction(36, 5, 0x650a7354, 157);
    Fraction(37, 5, 0x766a0abb, 163);
    Fraction(38, 5, 0x81c2c92e, 167);
    Fraction(39, 5, 0x92722c85, 173);
  }

  lemma Fractions40()
    ensures forall t :: 40 <= t < 44 ==> IsFractionOfRoot(t)
  {
    hide IsFractionOfRoot;
    Fraction(40, 5, 0xa2bfe8a1, 179);
    Fraction(41, 5, 0xa81a664b, 181);
    Fraction(42, 5, 0xc24b8b70, 191);
    Fraction(43, 5, 0xc76c51a3, 193);
  }

  lemma Fractions44()
    ensures forall t :: 44 <= t < 48 ==> IsFractionOfRoot(t)
  {
    hide IsFractionOfRoot;
    Fraction(44, 5, 0xd192e819, 197);
    Fraction(45, 5, 0xd6990624, 199);
    Fraction(46, 5, 0xf40e3585, 211);
    Fraction(47, 6, 0x106aa070, 223);
  }

  lemma Fractions48()
    ensures forall t :: 48 <= t < 52 ==> IsFractionOfRoot(t)
  {
    hide IsFractionOfRoot;
    Fraction(48, 6, 0x19a4c116, 227);
    Fraction(49, 6, 0x1e376c08, 229);
    Fraction(50, 6, 0x2748774c, 233);
    Fraction(51, 6, 0x34b0bcb5, 239);
  }

  lemma Fractions52()
    ensures forall t :: 52 <= t < 56 ==> IsFractionOfRoot(t)
  {
    hide IsFractionOfRoot;
    Fraction(52, 6, 0x391c0cb3, 241);
    Fraction(53, 6, 0x4ed8aa4a, 251);
    Fraction(54, 6, 0x5b9cca4f, 257);
    Fraction(55, 6, 0x682e6ff3, 263);
  }

  lemma Fractions56()
    ensures forall t :: 56 <= t < 60 ==> IsFractionOfRoot(t)
  {
    hide IsFractionOfRoot;
    Fraction(56, 6, 0x748f82ee, 269);
    Fraction(57, 6, 0x78a5636f, 271);
    Fraction(58, 6, 0x84c87814, 277);
    Fraction(59, 6, 0x8cc70208, 281);
  }

  lemma Fractions60()
    ensures forall t :: 60 <= t < 64 ==> IsFractionOfRoot(t)
  {
    hide IsFractionOfRoot;
    Fraction(60, 6, 0x90befffa, 283);
    Fraction(61, 6, 0xa4506ceb, 293);
    Fraction(62, 6, 0xbef9a3f7, 307);
    Fraction(63, 6, 0xc67178f2, 311);
  }

  /** The 64 constants of section 4.2.2 are the fractions of the cube roots of the first 64 primes. */
  lemma ConstantsAreRoots()
    ensures forall t :: 0 <= t < 64 ==> IsFractionOfRoot(t)
  {
    hide IsFractionOfRoot;
    Fractions0();
    Fractions4();
    Fractions8();
    Fractions12();
    Fractions16();
    Fractions20();
    Fractions24();
    Fractions28();
    Fractions32();
    Fractions36();
    Fractions40();
    Fractions44();
    Fractions48();
    Fractions52();
    Fractions56();
    Fractions60();
  }

  /** The initial hash value of section 5.3.3: fractions of the square roots of the first 8 primes. */
  lemma InitialHashIsRoots()
    ensures SquareRoot(1 * 0x1_0000_0000 + H0.a as int, PrimeAt(0))
    ensures SquareRoot(1 * 0x1_0000_0000 + H0.b as int, PrimeAt(1))
    ensures SquareRoot(2 * 0x1_0000_0000 + H0.c as int, PrimeAt(2))
    ensures SquareRoot(2 * 0x1_0000_0000 + H0.d as int, PrimeAt(3))
    ensures SquareRoot(3 * 0x1_0000_0000 + H0.e as int, PrimeAt(4))
    ensures SquareRoot(3 * 0x1_0000_0000 + H0.f as int, PrimeAt(5))
    ensures SquareRoot(4 * 0x1_0000_0000 + H0.g as int, PrimeAt(6))
    ensures SquareRoot(4 * 0x1_0000_0000 + H0.h as int, PrimeAt(7))
  {
    assert H0.a as int == 0x6a09e667 && PrimeAt(0) == 2;
    assert H0.b as int == 0xbb67ae85 && PrimeAt(1) == 3;
    assert H0.c as int == 0x3c6ef372 && PrimeAt(2) == 5;
    assert H0.d as int == 0xa54ff53a && PrimeAt(3) == 7;
    assert H0.e as int == 0x510e527f && PrimeAt(4) == 11;
    assert H0.f as int == 0x9b05688c && PrimeAt(5) == 13;
    assert H0.g as int == 0x1f83d9ab && PrimeAt(6) == 17;
    assert H0.h as int == 0x5be0cd19 && PrimeAt(7) == 19;
  }
}
