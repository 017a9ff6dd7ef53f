/** `ctap_encode_der_sig`: a raw ECDSA signature printed as the DER Ecdsa-Sig-Value of RFC 3279
    section 2.2.3, against a strict DER parser (X.690 sections 8.1, 8.3 and 10.1). */
module DerSignature {
  import opened Wrappers
  import opened Octets

  const INTEGER: u8 := 0x02
  const SEQUENCE: u8 := 0x30

  /** A 256-bit number, most significant byte first. */
  type Scalar = b: Bytes | |b| == 32 witness Zeros(32)

  function LeadingZeros(b: Bytes): (n: nat)
    ensures n <= |b|
    ensures forall i :: 0 <= i < n ==> b[i] == 0
    ensures n < |b| ==> b[n] != 0
  {
    if b == [] || b[0] != 0 then 0 else 1 + LeadingZeros(b[1..])
  }

  /** Contents octets of the INTEGER: no leading zero byte, unless the first bit would be set or
      the number is zero. */
  function IntegerContents(b: Scalar): (c: Bytes)
    ensures 1 <= |c| <= 33
  {
    var m := b[LeadingZeros(b)..];
    if m == [] || m[0] >= 0x80 then [0] + m else m
  }

  function Tlv(tag: u8, contents: Bytes): Bytes
    requires |contents| < 0x80
  {
    [tag, |contents|] + contents
  }

  function Encode(r: Scalar, s: Scalar): (d: Bytes)
    ensures 8 <= |d| <= 72
  {
    Tlv(SEQUENCE, Tlv(INTEGER, IntegerContents(r)) + Tlv(INTEGER, IntegerContents(s)))
  }

  // ----- the parser -----

  datatype Parsed<T> = Parsed(value: T, rest: Bytes)

  /** A definite short-form length, as DER demands below 128. */
  function ParseTlv(tag: u8, b: Bytes): Option<Parsed<Bytes>> {
    if |b| < 2 || b[0] != tag || b[1] >= 0x80 || |b| < 2 + b[1] then None
    else Some(Parsed(b[2..2 + b[1]], b[2 + b[1]..]))
  }

  /** Non-negative, minimal, and at most 256 bits. */
  predicate IsScalarContents(c: Bytes) {
    && 1 <= |c| <= 33
    && c[0] < 0x80
    && (|c| > 1 && c[0] == 0 ==> c[1] >= 0x80)
    && (|c| == 33 ==> c[0] == 0)
  }

  function ScalarOf(c: Bytes): Scalar
    requires IsScalarContents(c)
  {
    if |c| == 33 then c[1..] else Zeros(32 - |c|) + c
  }

  function ParseScalar(b: Bytes): Option<Parsed<Scalar>> {
    match ParseTlv(INTEGER, b)
    case None => None
    case Some(p) => if IsScalarContents(p.value) then Some(Parsed(ScalarOf(p.value), p.rest)) else None
  }

  function ParsePair(b: Bytes): Option<(Scalar, Scalar)> {
    match ParseScalar(b)
    case None => None
    case Some(r) =>
      match ParseScalar(r.rest)
      case None => None
      case Some(s) => if s.rest == [] then Some((r.value, s.value)) else None
  }

  function Parse(b: Bytes): Option<(Scalar, Scalar)> {
    match ParseTlv(SEQUENCE, b)
    case None => None
    case Some(p) => if p.rest == [] then ParsePair(p.value) else None
  }

  // ----- encoding and parsing are inverse -----

  lemma ContentsRoundTrip(b: Scalar)
    ensures IsScalarContents(IntegerContents(b)) && ScalarOf(IntegerContents(b)) == b
  {
    var n := LeadingZeros(b);
    assert b == Zeros(n) + b[n..];
    if 0 < n && (n == 32 || b[n] >= 0x80) { assert Zeros(n) == Zeros(n - 1) + [0]; }
  }

  lemma ContentsCanonical(c: Bytes)
    requires IsScalarContents(c)
    ensures IntegerContents(ScalarOf(c)) == c
  {
    var b := ScalarOf(c);
    var n := LeadingZeros(b);
    var k := if c[0] != 0 then 32 - |c| else 33 - |c|;
    assert forall i :: 0 <= i < k ==> b[i] == 0;
    assert k < 32 ==> b[k] != 0;
    assert n == k;
  }

  lemma TlvRoundTrip(tag: u8, contents: Bytes, rest: Bytes)
    requires |contents| < 0x80
    ensures ParseTlv(tag, Tlv(tag, contents) + rest) == Some(Parsed(contents, rest))
  {
    var b := Tlv(tag, contents) + rest;
    assert b[2..2 + b[1]] == contents && b[2 + b[1]..] == rest;
  }

  lemma TlvCanonical(tag: u8, b: Bytes)
    requires ParseTlv(tag, b).Some?
    ensures var p := ParseTlv(tag, b).value; |p.value| < 0x80 && b == Tlv(tag, p.value) + p.rest
  {
  }

  lemma ScalarRoundTrip(b: Scalar, rest: Bytes)
    ensures ParseScalar(Tlv(INTEGER, IntegerContents(b)) + rest) == Some(Parsed(b, rest))
  {
    hide IntegerContents, IsScalarContents, ScalarOf, ParseTlv, Tlv;
    TlvRoundTrip(INTEGER, IntegerContents(b), rest);
    ContentsRoundTrip(b);
  }

  lemma ScalarCanonical(b: Bytes)
    requires ParseScalar(b).Some?
    ensures var p := ParseScalar(b).value; b == Tlv(INTEGER, IntegerContents(p.value)) + p.rest
  {
    hide IntegerContents, IsScalarContents, ScalarOf, Tlv;
    TlvCanonical(INTEGER, b);
    ContentsCanonical(ParseTlv(INTEGER, b).value.value);
  }

  /** The parser reads back what the encoding stands for, for all numbers. */
  lemma ParseInvertsEncode(r: Scalar, s: Scalar)
    ensures Parse(Encode(r, s)) == Some((r, s))
  {
    hide IntegerContents, ParseScalar, ParseTlv;
    var rt, st := Tlv(INTEGER, IntegerContents(r)), Tlv(INTEGER, IntegerContents(s));
    assert Encode(r, s) + [] == Encode(r, s) && st + [] == st;
    TlvRoundTrip(SEQUENCE, rt + st, []);
    ScalarRoundTrip(r, st);
    ScalarRoundTrip(s, []);
  }

  /** And it accepts nothing else: the encoding of a pair is unique. */
  lemma EncodeInvertsParse(b: Bytes)
    requires Parse(b).Some?
    ensures var (r, s) := Parse(b).value; b == Encode(r, s)
  {
    hide IntegerContents, ParseScalar, ParseTlv;
    TlvCanonical(SEQUENCE, b);
    var p := ParseTlv(SEQUENCE, b).value.value;
    ScalarCanonical(p);
    var r := ParseScalar(p).value;
    ScalarCanonical(r.rest);
    var s := ParseScalar(r.rest).value;
    assert p == Tlv(INTEGER, IntegerContents(r.value)) + Tlv(INTEGER, IntegerContents(s.value));
  }

  // ----- the printer -----

  /** What the code prints when r is zero and the first bit of s is clear: an INTEGER without
      contents. */
  function EncodeEmptyR(s: Scalar): Bytes {
    Tlv(SEQUENCE, Tlv(INTEGER, []) + Tlv(INTEGER, IntegerContents(s)))
  }

  /** Whether the printed bytes are the DER encoding: the pad byte of r is decided by the first
      nonzero byte found, which lies in s when r is zero. */
  predicate PrintsDer(r: Scalar, s: Scalar) {
    r != Zeros(32) || s[0] >= 0x80
  }

  function Printed(r: Scalar, s: Scalar): Bytes {
    if PrintsDer(r, s) then Encode(r, s) else EncodeEmptyR(s)
  }

  /** The signature read back by the parser is the one printed, exactly when `PrintsDer`. */
  lemma PrintedRoundTrip(r: Scalar, s: Scalar)
    ensures Parse(Printed(r, s)) == Some((r, s)) <==> PrintsDer(r, s)
    ensures !PrintsDer(r, s) ==> Parse(Printed(r, s)) == None
  {
    if PrintsDer(r, s) {
      ParseInvertsEncode(r, s);
    } else {
      var st := Tlv(INTEGER, IntegerContents(s));
      assert EncodeEmptyR(s) + [] == EncodeEmptyR(s);
      TlvRoundTrip(SEQUENCE, Tlv(INTEGER, []) + st, []);
      TlvRoundTrip(INTEGER, [], st);
    }
  }

  /** The counting loops. */
  method CountZeros(sig: array<u8>, from: nat) returns (lead: nat)
    requires from + 32 <= sig.Length
    ensures lead == LeadingZeros(sig[from..from + 32])
  {
    ghost var b := sig[from..from + 32];
    lead := 0;
    for i := 0 to 32
      invariant lead == i
      invariant forall k :: 0 <= k < i ==> b[k] == 0
    {
      if sig[from + i] == 0 {
        assert b[i] == 0;
        lead := lead + 1;
      } else {
        assert b[i] != 0;
        break;
      }
    }
  }

  /** `b` with `data` from `at` on. */
  function Overwrite(b: Bytes, at: nat, data: Bytes): (r: Bytes)
    requires at + |data| <= |b|
    ensures |r| == |b|
  {
    b[..at] + data + b[at + |data|..]
  }

  method Copy(dst: array<u8>, at: nat, src: array<u8>, from: nat, n: nat)
    requires dst != src && at + n <= dst.Length && from + n <= src.Length
    modifies dst
    ensures dst[..] == Overwrite(old(dst[..]), at, src[from..from + n])
  {
    forall i | 0 <= i < n { dst[at + i] := src[from + i]; }
  }

  function Padding(pad: nat): (p: Bytes)
    ensures |p| == if pad == 1 then 1 else 0
  {
    if pad == 1 then [0] else []
  }

  /** One "ingredient": tag, pad byte, length, and the number from its first nonzero byte on. The
      pad byte is written before the length, at the same place when there is no pad. */
  method PutInteger(sig: array<u8>, from: nat, lead: nat, pad: nat, out: array<u8>, at: nat)
    requires from + 32 <= sig.Length && lead <= 32 && pad <= 1 && sig != out
    requires at + 34 + pad - lead <= out.Length && at + 1 + pad < out.Length
    modifies out
    ensures |Tlv(INTEGER, Padding(pad) + sig[from + lead..from + 32])| == 34 + pad - lead
    ensures out[..] == Overwrite(old(out[..]), at, Tlv(INTEGER, Padding(pad) + sig[from + lead..from + 32]))
  {
    hide Tlv, Padding, Overwrite;
    ghost var was, number := out[..], sig[from + lead..from + 32];
    IntegerForm(pad, number);
    PutHeader(out, at, pad, 0x20 + pad - lead);
    Copy(out, at + 2 + pad, sig, from + lead, 32 - lead);
    OverwriteTwice(was, at, [0x02, 0x20 + pad - lead] + Padding(pad), number);
  }

  method PutHeader(out: array<u8>, at: nat, pad: nat, len: u8)
    requires pad <= 1 && at + 1 + pad < out.Length
    modifies out
    ensures out[..] == Overwrite(old(out[..]), at, [0x02, len] + Padding(pad))
  {
    out[at] := 0x02;
    out[at + 1 + pad] := 0;
    out[at + 1] := len;
  }

  /** Two adjacent pieces put into a buffer one after the other. */
  lemma OverwriteTwice(b: Bytes, at: nat, head: Bytes, data: Bytes)
    requires at + |head| + |data| <= |b|
    ensures Overwrite(Overwrite(b, at, head), at + |head|, data) == Overwrite(b, at, head + data)
  {
  }

  lemma IntegerForm(pad: nat, number: Bytes)
    requires pad <= 1 && |number| <= 32
    ensures [0x02, |number| + pad] + Padding(pad) + number == Tlv(INTEGER, Padding(pad) + number)
    ensures |Tlv(INTEGER, Padding(pad) + number)| == 2 + pad + |number|
  {
  }

  /** The pad decision of the code: the byte after the leading zeros, which for a zero r is the
      first byte of s. */
  function PadR(r: Scalar, s: Scalar): nat {
    var n := LeadingZeros(r);
    if (if n < 32 then r[n] else s[0]) >= 0x80 then 1 else 0
  }

  function PadS(s: Scalar): nat
    requires LeadingZeros(s) < 32
  {
    if s[LeadingZeros(s)] >= 0x80 then 1 else 0
  }

  lemma PrintedForm(r: Scalar, s: Scalar)
    requires LeadingZeros(s) < 32
    ensures var rc, sc := Padding(PadR(r, s)) + r[LeadingZeros(r)..], Padding(PadS(s)) + s[LeadingZeros(s)..];
            |rc| <= 33 && |sc| <= 33 && Printed(r, s) == Tlv(SEQUENCE, Tlv(INTEGER, rc) + Tlv(INTEGER, sc))
  {
    hide Tlv, LeadingZeros;
    if LeadingZeros(r) == 32 { assert r == Zeros(32); }
    assert IntegerContents(s) == Padding(PadS(s)) + s[LeadingZeros(s)..];
    if PrintsDer(r, s) {
      assert IntegerContents(r) == Padding(PadR(r, s)) + r[LeadingZeros(r)..];
    } else {
      assert Padding(PadR(r, s)) + r[LeadingZeros(r)..] == [];
    }
  }

  /** The output is cleared and starts with the SEQUENCE header. */
  method StartSequence(out: array<u8>, len: u8)
    requires out.Length >= 72
    modifies out
    ensures out[0] == SEQUENCE && out[1] == len
    ensures out[2..72] == Zeros(70) && out[72..] == old(out[72..])
  {
    forall i | 0 <= i < 72 { out[i] := 0; }
    out[0] := 0x30;
    out[1] := len;
  }

  /** The writes of the printer, once zeros and pads are known. */
  method PrintBoth(sig: array<u8>, leadR: nat, padR: nat, leadS: nat, padS: nat, out: array<u8>) returns (len: nat)
    requires sig.Length >= 64 && out.Length >= 72 && sig != out
    requires leadR <= 32 && leadS <= 32 && padR <= 1 && padS <= 1
    modifies out
    ensures len <= 72
    ensures out[..len] == Tlv(SEQUENCE,
              Tlv(INTEGER, Padding(padR) + sig[leadR..32])
              + Tlv(INTEGER, Padding(padS) + sig[32 + leadS..64]))
    ensures out[len..72] == Zeros(72 - len)
    ensures out[72..] == old(out[72..])
  {
    hide Tlv, Padding, Overwrite;
    ghost var r, t := sig[leadR..32], sig[32 + leadS..64];
    StartSequence(out, 0x44 + padS + padR - leadS - leadR);
    ghost var k, z := 36 + padR - leadR, out[..];
    PutInteger(sig, 0, leadR, padR, out, 2);
    PutInteger(sig, 32, leadS, padS, out, 4 + 32 + padR - leadR);
    len := 0x46 + padS + padR - leadR - leadS;
    TwoIntegers(z, out[..], k, len, Tlv(INTEGER, Padding(padR) + r), Tlv(INTEGER, Padding(padS) + t));
    TlvForm(out[..], k, len);
  }

  /** Where the second piece has been put right behind the first. */
  lemma TwoIntegers(z: Bytes, o: Bytes, k: nat, len: nat, a: Bytes, b: Bytes)
    requires |z| >= 72 && 2 + |a| == k && k + |b| == len <= 72 && z[2..72] == Zeros(70)
    requires o == Overwrite(Overwrite(z, 2, a), k, b)
    ensures |o| == |z| && o[0] == z[0] && o[1] == z[1] && o[2..k] == a && o[k..len] == b
    ensures o[len..72] == Zeros(72 - len) && o[72..] == z[72..]
  {
    var y := z[..2] + a + z[k..];
    assert y[..k] == z[..2] + a && y[len..] == z[len..];
    assert o == z[..2] + a + b + z[len..];
    assert o[len..] == z[len..];
    assert o[len..72] == o[len..][..72 - len] == z[len..72] == z[2..72][len - 2..];
    assert o[72..] == o[len..][72 - len..] == z[72..];
  }

  lemma TlvForm(o: Bytes, k: nat, len: nat)
    requires 2 <= k <= len <= |o| && len < 0x82 && o[0] == SEQUENCE && o[1] == len - 2
    ensures o[..len] == Tlv(SEQUENCE, o[2..k] + o[k..len])
  {
  }

  /** The source asks for 64 bytes in and 72 bytes out. A zero s makes it read byte 64 of the
      input, so s must not be zero; r may be. */
  method EncodeDerSig(sig: array<u8>, out: array<u8>) returns (len: nat)
    requires sig.Length >= 64 && out.Length >= 72 && sig != out
    requires sig[32..64] != Zeros(32)
    modifies out
    ensures len <= 72 && out[..len] == Printed(sig[..32], sig[32..64])
    ensures out[len..72] == Zeros(72 - len)
    ensures out[72..] == old(out[72..])
  {
    hide LeadingZeros, Printed, Tlv;
    ghost var r, s := sig[..32], sig[32..64];
    var leadR := CountZeros(sig, 0);
    var leadS := CountZeros(sig, 32);
    if leadS == 32 { assert false; }
    PrintedForm(r, s);
    var padS := if sig[32 + leadS] >= 0x80 then 1 else 0;
    var padR := if sig[leadR] >= 0x80 then 1 else 0;
    assert r[leadR..] == sig[leadR..32] && s[leadS..] == sig[32 + leadS..64];
    len := PrintBoth(sig, leadR, padR, leadS, padS, out);
  }
}
