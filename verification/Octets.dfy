/** Machine integers and byte-string helpers shared by the models. */
module Octets {
  type u8 = x: int | 0 <= x < 0x100
  type u16 = x: int | 0 <= x < 0x1_0000
  type u32 = x: int | 0 <= x < 0x1_0000_0000
  type u64 = x: int | 0 <= x < 0x1_0000_0000_0000_0000

  type Bytes = seq<u8>

  function Min(a: int, b: int): int {
    if a <= b then a else b
  }

  function Zeros(n: nat): (z: seq<u8>)
    ensures |z| == n
    ensures forall i :: 0 <= i < n ==> z[i] == 0
  {
    seq(n, _ => 0)
  }

  function Ones(n: nat): (z: Bytes)
    ensures |z| == n
    ensures forall i :: 0 <= i < n ==> z[i] == 0xff
  {
    seq(n, _ => 0xff)
  }

  /** The number whose base-256 digits are `a` (least significant) to `d`. */
  function LittleEndian32(a: int, b: int, c: int, d: int): int {
    a + 0x100 * b + 0x1_0000 * c + 0x100_0000 * d
  }

  /** Four bytes, least significant first. */
  function WordBytes(n: u32): (b: Bytes)
    ensures |b| == 4
  {
    [n % 0x100, n / 0x100 % 0x100, n / 0x100 / 0x100 % 0x100, n / 0x100 / 0x100 / 0x100]
  }

  function WordFrom(b: Bytes): u32
    requires |b| == 4
  {
    LittleEndian32(b[0], b[1], b[2], b[3])
  }

  lemma WordRoundTrip(n: u32)
    ensures WordFrom(WordBytes(n)) == n
  {
  }

  function BigEndian16(high: int, low: int): int {
    0x100 * high + low
  }

  function Pow2(n: nat): (p: nat)
    ensures p >= 1
  {
    if n == 0 then 1 else 2 * Pow2(n - 1)
  }

  /** Bitwise exclusive or of the `bits` low bits. */
  function XorBits(a: nat, b: nat, bits: nat): (r: nat)
    ensures r < Pow2(bits)
  {
    if bits == 0 then 0
    else (if a % 2 == b % 2 then 0 else 1) + 2 * XorBits(a / 2, b / 2, bits - 1)
  }

  lemma {:induction false} XorBitsTwice(a: nat, b: nat, bits: nat)
    requires a < Pow2(bits)
    ensures XorBits(XorBits(a, b, bits), b, bits) == a
  {
    if bits > 0 {
      XorBitsTwice(a / 2, b / 2, bits - 1);
      var r := XorBits(a, b, bits);
      assert r / 2 == XorBits(a / 2, b / 2, bits - 1);
    }
  }

  lemma {:induction false} XorBitsCommutes(a: nat, b: nat, bits: nat)
    ensures XorBits(a, b, bits) == XorBits(b, a, bits)
  {
    if bits > 0 { XorBitsCommutes(a / 2, b / 2, bits - 1); }
  }

  function Xor(a: u8, b: u8): u8 {
    assert Pow2(8) == 0x100;
    XorBits(a, b, 8)
  }

  /** Bit `k` of a number, from the least significant on. */
  function Bit(a: nat, k: nat): nat {
    if k == 0 then a % 2 else Bit(a / 2, k - 1)
  }

  lemma {:induction false} XorBitsBit(a: nat, b: nat, bits: nat, k: nat)
    requires k < bits
    ensures Bit(XorBits(a, b, bits), k) == 1 <==> Bit(a, k) != Bit(b, k)
  {
    var r, rest := XorBits(a, b, bits), XorBits(a / 2, b / 2, bits - 1);
    assert r / 2 == rest && r % 2 == if a % 2 == b % 2 then 0 else 1;
    if k > 0 { XorBitsBit(a / 2, b / 2, bits - 1, k - 1); }
  }

  /** Exclusive or, bit by bit: a bit is set exactly where the two bytes differ. */
  lemma XorIsBitwise(a: u8, b: u8)
    ensures forall k :: 0 <= k < 8 ==> (Bit(Xor(a, b), k) == 1 <==> Bit(a, k) != Bit(b, k))
  {
    forall k | 0 <= k < 8 ensures Bit(Xor(a, b), k) == 1 <==> Bit(a, k) != Bit(b, k) {
      XorBitsBit(a, b, 8, k);
    }
  }

  lemma XorTwice(a: u8, b: u8)
    ensures Xor(Xor(a, b), b) == a
  {
    XorBitsTwice(a, b, 8);
  }

  lemma XorCommutes(a: u8, b: u8)
    ensures Xor(a, b) == Xor(b, a)
  {
    XorBitsCommutes(a, b, 8);
  }

  function Concat(pieces: seq<Bytes>): Bytes {
    if pieces == [] then [] else Concat(pieces[..|pieces| - 1]) + pieces[|pieces| - 1]
  }
}
