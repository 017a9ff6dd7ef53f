/** HMAC-SHA-256 over the shared hash context, as `crypto.c` computes it, against RFC 2104
    section 2. */
module Hmac {
  import opened Octets
  import opened Sha256Spec
  import Sha256

  const IPAD: u8 := 0x36
  const OPAD: u8 := 0x5c

  /** A key of at most one block, filled up with zeros. */
  function KeyBlock(key: Bytes): (block: Block)
    requires |key| <= BLOCK_SIZE
  {
    key + Zeros(BLOCK_SIZE - |key|)
  }

  function XorPad(block: Block, pad: u8): Block {
    seq(BLOCK_SIZE, i requires 0 <= i < BLOCK_SIZE => Xor(block[i], pad))
  }

  /** The construction of RFC 2104 with one key for the inner and one for the outer hash. */
  function TwoKeyHmac(inner: Bytes, outer: Bytes, text: Bytes): (tag: Bytes)
    requires |inner| <= BLOCK_SIZE && |outer| <= BLOCK_SIZE
    ensures |tag| == DIGEST_SIZE
  {
    Digest(XorPad(KeyBlock(outer), OPAD) + Digest(XorPad(KeyBlock(inner), IPAD) + text))
  }

  /** HMAC-SHA-256 for keys of at most one block. */
  function Hmac(key: Bytes, text: Bytes): (tag: Bytes)
    requires |key| <= BLOCK_SIZE
    ensures |tag| == DIGEST_SIZE
  {
    TwoKeyHmac(key, key, text)
  }

  /** The key argument: the three sentinel pointers of `crypto.h`, or a buffer. */
  datatype KeyRef = MasterKey | TransportKey | TransportKey2 | Buffer(bytes: array<u8>)

  class Crypto {
    const ctx: Sha256.Context
    const masterSecret: array<u8>
    const transportSecret: array<u8>

    ghost predicate Shaped()
      reads this, ctx
    {
      && masterSecret.Length == 64 && transportSecret.Length == 32
      && ctx.Shaped() && masterSecret != transportSecret
      && masterSecret != ctx.data && transportSecret != ctx.data
    }

    /** What the source asks of a key argument: sentinels that `hmac_init` or `hmac_final` does
        not resolve are read as zero bytes long, buffers hold at least `klen` bytes and are not
        part of the hash context. */
    ghost predicate Usable(key: KeyRef, klen: nat)
      reads this, ctx
    {
      match key
      case MasterKey => true
      case TransportKey => klen == 0
      case TransportKey2 => klen == 0
      case Buffer(bytes) => klen <= bytes.Length && bytes != ctx.data && bytes as object != ctx.state
    }

    constructor ()
      ensures Shaped() && fresh(ctx) && fresh(ctx.data) && fresh(ctx.state)
      ensures fresh(masterSecret) && fresh(transportSecret)
    {
      ctx := new Sha256.Context();
      masterSecret := new u8[64];
      transportSecret := new u8[32];
    }

    /** `crypto_load_master_secret`: 64 bytes of master secret, then 32 of transport secret. */
    method LoadMasterSecret(key: Bytes)
      requires Shaped() && |key| >= 96
      modifies masterSecret, transportSecret
      ensures masterSecret[..] == key[..64] && transportSecret[..] == key[64..96]
    {
      forall i | 0 <= i < 64 { masterSecret[i] := key[i]; }
      forall i | 0 <= i < 32 { transportSecret[i] := key[64 + i]; }
    }

    /** The key bytes `crypto_sha256_hmac_init` uses. */
    ghost function InnerKey(key: KeyRef, klen: nat): Bytes
      reads this, ctx, masterSecret, transportSecret, if key.Buffer? then {key.bytes} else {}
      requires Shaped() && Usable(key, klen)
    {
      match key
      case MasterKey => masterSecret[..32]
      case TransportKey => transportSecret[..]
      case TransportKey2 => []
      case Buffer(bytes) => bytes[..klen]
    }

    /** The key bytes `crypto_sha256_hmac_final` uses. */
    ghost function OuterKey(key: KeyRef, klen: nat): Bytes
      reads this, ctx, masterSecret, transportSecret, if key.Buffer? then {key.bytes} else {}
      requires Shaped() && Usable(key, klen)
    {
      match key
      case MasterKey => masterSecret[..32]
      case TransportKey => []
      case TransportKey2 => transportSecret[..]
      case Buffer(bytes) => bytes[..klen]
    }

    /** `memset`, `memmove` and the exclusive-or loop that both functions share. */
    method PadKey(key: array<u8>, klen: nat, pad: u8) returns (buf: array<u8>)
      requires klen <= BLOCK_SIZE && klen <= key.Length
      ensures fresh(buf) && buf[..] == XorPad(KeyBlock(key[..klen]), pad)
    {
      hide Xor;
      buf := new u8[BLOCK_SIZE](_ => 0);
      forall i | 0 <= i < klen { buf[i] := key[i]; }
      ghost var block := KeyBlock(key[..klen]);
      assert buf[..] == block;
      for i := 0 to BLOCK_SIZE
        invariant forall j :: 0 <= j < i ==> buf[j] == Xor(block[j], pad)
        invariant forall j :: i <= j < BLOCK_SIZE ==> buf[j] == block[j]
      {
        buf[i] := Xor(buf[i], pad);
      }
    }

    /** False stands for the `exit` on a key longer than a block. */
    method HmacInit(key: KeyRef, klen: nat) returns (ok: bool)
      requires Shaped() && Usable(key, klen)
      modifies ctx, ctx.state, ctx.data
      ensures Shaped()
      ensures ok <==> |InnerKey(key, klen)| <= BLOCK_SIZE
      ensures ok ==> ctx.Valid() && ctx.Message() == XorPad(KeyBlock(old(InnerKey(key, klen))), IPAD)
    {
      hide XorPad, HashBlocks, BitLength, Sha256.Context.Valid;
      var bytes, n := new u8[0], klen;
      match key {
        case MasterKey => bytes, n := masterSecret, 32;
        case TransportKey => bytes, n := transportSecret, 32;
        case TransportKey2 =>
        case Buffer(b) => bytes := b;
      }
      if n > BLOCK_SIZE { return false; }
      assert bytes[..n] == InnerKey(key, klen);
      var buf := PadKey(bytes, n, IPAD);
      ctx.Init();
      ctx.Update(buf[..]);
      return true;
    }

    /** The inner hash is finished, into `hmac`, before the key is looked at. */
    method HmacFinal(key: KeyRef, klen: nat, hmac: array<u8>) returns (ok: bool)
      requires Shaped() && Usable(key, klen) && ctx.Valid()
      requires hmac.Length >= DIGEST_SIZE && hmac !in {ctx.data, masterSecret, transportSecret}
      requires key.Buffer? ==> hmac != key.bytes
      modifies ctx, ctx.state, ctx.data, hmac
      ensures Shaped()
      ensures ok <==> |OuterKey(key, klen)| <= BLOCK_SIZE
      ensures ok ==> hmac[..DIGEST_SIZE] ==
                     Digest(XorPad(KeyBlock(old(OuterKey(key, klen))), OPAD) + Digest(old(ctx.Message())))
      ensures hmac[DIGEST_SIZE..] == old(hmac[DIGEST_SIZE..])
    {
      hide XorPad, Digest, Sha256.Context.Valid;
      ghost var outer, inner := OuterKey(key, klen), ctx.Message();
      ctx.Final(hmac);
      var bytes, n := new u8[0], klen;
      match key {
        case MasterKey => bytes, n := masterSecret, 32;
        case TransportKey =>
        case TransportKey2 => bytes, n := transportSecret, 32;
        case Buffer(b) => bytes := b;
      }
      if n > BLOCK_SIZE { return false; }
      assert bytes[..n] == outer;
      var buf := PadKey(bytes, n, OPAD);
      ctx.Init();
      ctx.Update(buf[..]);
      assert ctx.Message() == XorPad(KeyBlock(outer), OPAD);
      assert hmac[..DIGEST_SIZE] == Digest(inner);
      ctx.Update(hmac[..DIGEST_SIZE]);
      assert ctx.Message() == XorPad(KeyBlock(outer), OPAD) + Digest(inner);
      ctx.Final(hmac);
      return true;
    }

    /** Init, any sequence of updates, final: the tag of the whole text. */
    method Tag(key: KeyRef, klen: nat, pieces: seq<Bytes>, hmac: array<u8>) returns (ok: bool)
      requires Shaped() && Usable(key, klen)
      requires forall i :: 0 <= i < |pieces| ==> |pieces[i]| < 0x1_0000_0000
      requires hmac.Length >= DIGEST_SIZE && hmac !in {ctx.data, masterSecret, transportSecret}
      requires key.Buffer? ==> hmac != key.bytes
      modifies ctx, ctx.state, ctx.data, hmac
      ensures Shaped()
      ensures ok <==> |InnerKey(key, klen)| <= BLOCK_SIZE
      ensures ok ==> |old(OuterKey(key, klen))| <= BLOCK_SIZE
                     && hmac[..DIGEST_SIZE] ==
                          TwoKeyHmac(old(InnerKey(key, klen)), old(OuterKey(key, klen)), Concat(pieces))
      ensures ok && (key.MasterKey? || key.Buffer?) ==>
        hmac[..DIGEST_SIZE] == Hmac(old(InnerKey(key, klen)), Concat(pieces))
    {
      hide XorPad, Digest, Sha256.Context.Valid;
      ghost var inner := InnerKey(key, klen);
      ok := HmacInit(key, klen);
      if !ok { return; }
      ghost var start := XorPad(KeyBlock(inner), IPAD);
      for i := 0 to |pieces|
        invariant Shaped() && ctx.Valid()
        invariant ctx.Message() == start + Concat(pieces[..i])
      {
        ctx.Update(pieces[i]);
        assert pieces[..i + 1][..i] == pieces[..i];
      }
      assert pieces[..|pieces|] == pieces;
      ok := HmacFinal(key, klen, hmac);
    }
  }

  /** HMAC as RFC 2104 writes it out for keys that fit a block: both texts start with the key, filled
      up with zeros to 64 bytes, under exclusive or with 0x5c and 0x36. */
  lemma HmacWrittenOut(key: Bytes, text: Bytes)
    requires |key| <= 64
    ensures var padded := key + Zeros(64 - |key|);
            var ipad, opad := seq(64, i requires 0 <= i < 64 => Xor(padded[i], 0x36)),
                              seq(64, i requires 0 <= i < 64 => Xor(padded[i], 0x5c));
            Hmac(key, text) == Digest(opad + Digest(ipad + text))
  {
    hide Digest, Xor;
    var padded := key + Zeros(64 - |key|);
    assert XorPad(padded, 0x36) == seq(64, i requires 0 <= i < 64 => Xor(padded[i], 0x36));
    assert XorPad(padded, 0x5c) == seq(64, i requires 0 <= i < 64 => Xor(padded[i], 0x5c));
  }

  // ----- the transport-key sentinels against RFC 2104 -----

  /** Two different texts with the same digest. */
  predicate Collide(x: Bytes, y: Bytes) {
    x != y && Digest(x) == Digest(y)
  }

  lemma XorPadInjective(a: Block, b: Block, pad: u8)
    requires XorPad(a, pad) == XorPad(b, pad)
    ensures a == b
  {
    hide Xor;
    forall i | 0 <= i < BLOCK_SIZE ensures a[i] == b[i] {
      assert XorPad(a, pad)[i] == XorPad(b, pad)[i];
      XorTwice(a[i], pad);
      XorTwice(b[i], pad);
    }
  }

  /** The key block of a missing key is that of a 32-byte secret only if the secret is zero. */
  lemma KeyBlocksDiffer(secret: Bytes, pad: u8, rest: Bytes)
    requires |secret| == 32
    ensures XorPad(KeyBlock([]), pad) + rest == XorPad(KeyBlock(secret), pad) + rest <==> secret == Zeros(32)
  {
    var x, y := XorPad(KeyBlock([]), pad), XorPad(KeyBlock(secret), pad);
    if x + rest == y + rest {
      assert x == (x + rest)[..BLOCK_SIZE] == (y + rest)[..BLOCK_SIZE] == y;
      XorPadInjective(KeyBlock([]), KeyBlock(secret), pad);
      assert secret == KeyBlock(secret)[..32];
    }
    if secret == Zeros(32) { assert KeyBlock([]) == KeyBlock(secret); }
  }

  /** The first sentinel keys only the inner hash. Its tag is that of RFC 2104 exactly when the
      secret is zero or the two outer texts, which then differ in their key block, collide. */
  lemma TransportKeyIsExact(secret: Bytes, text: Bytes)
    requires |secret| == 32
    ensures var inner := Digest(XorPad(KeyBlock(secret), IPAD) + text);
            TwoKeyHmac(secret, [], text) == Hmac(secret, text)
            <==> secret == Zeros(32)
                 || Collide(XorPad(KeyBlock([]), OPAD) + inner, XorPad(KeyBlock(secret), OPAD) + inner)
  {
    hide Digest, XorPad, KeyBlock;
    KeyBlocksDiffer(secret, OPAD, Digest(XorPad(KeyBlock(secret), IPAD) + text));
  }

  /** The second keys only the outer hash: then the inner or the outer texts collide. */
  lemma TransportKey2IsExact(secret: Bytes, text: Bytes)
    requires |secret| == 32
    ensures var unkeyed, keyed := XorPad(KeyBlock([]), IPAD) + text, XorPad(KeyBlock(secret), IPAD) + text;
            var outer := XorPad(KeyBlock(secret), OPAD);
            TwoKeyHmac([], secret, text) == Hmac(secret, text)
            <==> secret == Zeros(32) || Collide(unkeyed, keyed)
                 || Collide(outer + Digest(unkeyed), outer + Digest(keyed))
  {
    hide Digest, XorPad, KeyBlock;
    KeyBlocksDiffer(secret, IPAD, text);
    var unkeyed, keyed := XorPad(KeyBlock([]), IPAD) + text, XorPad(KeyBlock(secret), IPAD) + text;
    var outer := XorPad(KeyBlock(secret), OPAD);
    if outer + Digest(unkeyed) == outer + Digest(keyed) {
      assert Digest(unkeyed) == (outer + Digest(unkeyed))[|outer|..];
      assert Digest(keyed) == (outer + Digest(keyed))[|outer|..];
    }
  }
}
