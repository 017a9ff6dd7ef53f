/** Credential ids: the masked credProtect metadata and the tag by which the authenticator
    recognises a credential it made. Both are keyed with the transport secret through the
    sentinel that keys only the inner hash. */
module CredentialTags {
  import opened CtapErrors
  import opened Octets
  import opened Sha256Spec
  import opened Hmac

  const TAG_SIZE := 16
  const NONCE_SIZE := 18
  const MASKED_AT := 14

  type Tag = t: Bytes | |t| == TAG_SIZE witness Zeros(TAG_SIZE)
  type Nonce = n: Bytes | |n| == NONCE_SIZE witness Zeros(NONCE_SIZE)

  /** `entropy` is 14 random bytes followed by the masked metadata. */
  datatype CredentialId = CredentialId(tag: Tag, entropy: Nonce, rpIdHash: Hash, count: u32)

  function XorWords(a: Bytes, b: Bytes): (r: Bytes)
    requires |a| == 4 && |b| == 4
    ensures |r| == 4
  {
    [Xor(a[0], b[0]), Xor(a[1], b[1]), Xor(a[2], b[2]), Xor(a[3], b[3])]
  }

  lemma XorWordsTwice(a: Bytes, b: Bytes)
    requires |a| == 4 && |b| == 4
    ensures XorWords(b, XorWords(b, a)) == a && XorWords(XorWords(b, a), b) == a
  {
    hide Xor;
    forall i | 0 <= i < 4 ensures Xor(b[i], Xor(b[i], a[i])) == a[i] && Xor(Xor(b[i], a[i]), b[i]) == a[i] {
      XorCommutes(a[i], b[i]);
      XorTwice(a[i], b[i]);
      XorCommutes(b[i], Xor(b[i], a[i]));
    }
  }

  /** HMAC under the transport key as `CRYPTO_TRANSPORT_KEY` computes it. */
  function Keyed(secret: Hash, text: Bytes): Hash {
    TwoKeyHmac(secret, [], text)
  }

  function Mask(secret: Hash, entropy: Nonce): (m: Bytes)
    ensures |m| == 4
  {
    Keyed(secret, entropy[..MASKED_AT])[..4]
  }

  /** `add_masked_metadata_for_credential`. */
  function WithMetadata(secret: Hash, entropy: Nonce, credProtect: u32): Nonce {
    entropy[..MASKED_AT] + XorWords(Mask(secret, entropy), WordBytes(credProtect))
  }

  /** `read_metadata_from_masked_credential`. */
  function ReadMetadata(secret: Hash, entropy: Nonce): u32 {
    WordFrom(XorWords(entropy[MASKED_AT..], Mask(secret, entropy)))
  }

  /** `make_auth_tag`. */
  function AuthTag(secret: Hash, rpIdHash: Hash, entropy: Nonce, count: u32): Tag {
    Keyed(secret, rpIdHash + entropy + WordBytes(count))[..TAG_SIZE]
  }

  /** The credential id that `ctap_make_auth_data` builds: masking comes before tagging. */
  function MakeId(secret: Hash, rpIdHash: Hash, random: Nonce, credProtect: u32, count: u32): CredentialId {
    var entropy := WithMetadata(secret, random, credProtect);
    CredentialId(AuthTag(secret, rpIdHash, entropy, count), entropy, rpIdHash, count)
  }

  /** `ctap_authenticate_credential` for a public-key credential. */
  predicate Authenticates(secret: Hash, rpIdHash: Hash, id: CredentialId) {
    id.rpIdHash == rpIdHash && AuthTag(secret, rpIdHash, id.entropy, id.count) == id.tag
  }

  /** Every credential id the authenticator makes is accepted again for the same RP, and for no
      other, and reads back the credProtect value it was made with. */
  lemma MadeIdIsRecognised(secret: Hash, rpIdHash: Hash, random: Nonce, credProtect: u32, count: u32)
    ensures var id := MakeId(secret, rpIdHash, random, credProtect, count);
            && (forall h: Hash :: Authenticates(secret, h, id) <==> h == rpIdHash)
            && ReadMetadata(secret, id.entropy) == credProtect
  {
    hide Keyed, XorWords, WordBytes, WordFrom;
    var entropy, word := WithMetadata(secret, random, credProtect), WordBytes(credProtect);
    assert entropy[..MASKED_AT] == random[..MASKED_AT];
    assert entropy[MASKED_AT..] == XorWords(Mask(secret, random), word);
    XorWordsTwice(word, Mask(secret, random));
    WordRoundTrip(credProtect);
  }

  /** And nothing is accepted that it would not make: an accepted id is the one made for its RP from
      its nonce, its credProtect value and its count. */
  lemma RecognisedIsMade(secret: Hash, rpIdHash: Hash, id: CredentialId)
    ensures Authenticates(secret, rpIdHash, id)
            <==> id == MakeId(secret, rpIdHash, id.entropy, ReadMetadata(secret, id.entropy), id.count)
  {
    hide Keyed, XorWords, WordBytes, WordFrom;
    var entropy := id.entropy;
    var masked, mask := entropy[MASKED_AT..], Mask(secret, entropy);
    WordFromTo(XorWords(masked, mask));
    XorWordsTwice(masked, mask);
    XorWordsCommute(masked, mask);
    XorWordsCommute(mask, masked);
    assert entropy == entropy[..MASKED_AT] + masked;
    assert WithMetadata(secret, entropy, ReadMetadata(secret, entropy)) == entropy;
  }

  lemma WordFromTo(b: Bytes)
    requires |b| == 4
    ensures WordBytes(WordFrom(b)) == b
  {
    var n := WordFrom(b);
    var b1: int, b2: int, b3: int := b[1], b[2], b[3];
    assert n / 0x100 == b1 + 0x100 * b2 + 0x1_0000 * b3;
    assert n / 0x100 / 0x100 == b2 + 0x100 * b3;
    assert n / 0x100 / 0x100 / 0x100 == b3;
  }

  lemma XorWordsCommute(a: Bytes, b: Bytes)
    requires |a| == 4 && |b| == 4
    ensures XorWords(a, b) == XorWords(b, a)
  {
    hide Xor;
    forall i | 0 <= i < 4 ensures Xor(a[i], b[i]) == Xor(b[i], a[i]) { XorCommutes(a[i], b[i]); }
  }

  /** What a tag is computed over tells RP, nonce and count apart: 32, 18 and 4 bytes. */
  function TagText(rpIdHash: Hash, entropy: Nonce, count: u32): Bytes {
    rpIdHash + entropy + WordBytes(count)
  }

  lemma TagTextIsInjective(h: Hash, e: Nonce, c: u32, h2: Hash, e2: Nonce, c2: u32)
    requires TagText(h, e, c) == TagText(h2, e2, c2)
    ensures h == h2 && e == e2 && c == c2
  {
    hide WordBytes, WordFrom;
    var t, t2 := TagText(h, e, c), TagText(h2, e2, c2);
    assert h == t[..32] == t2[..32] == h2;
    assert e == t[32..50] == t2[32..50] == e2;
    assert WordBytes(c) == t[50..] == t2[50..] == WordBytes(c2);
    WordRoundTrip(c);
    WordRoundTrip(c2);
  }

  /** Two different credentials have the same tag only where the keyed hashes of two different texts
      agree in their first 16 bytes. */
  lemma TagsTellApart(secret: Hash, h: Hash, e: Nonce, c: u32, h2: Hash, e2: Nonce, c2: u32)
    requires AuthTag(secret, h, e, c) == AuthTag(secret, h2, e2, c2)
    ensures (h == h2 && e == e2 && c == c2)
            || (TagText(h, e, c) != TagText(h2, e2, c2)
                && Keyed(secret, TagText(h, e, c))[..16] == Keyed(secret, TagText(h2, e2, c2))[..16])
  {
    hide Keyed, WordBytes;
    if TagText(h, e, c) == TagText(h2, e2, c2) { TagTextIsInjective(h, e, c, h2, e2, c2); }
  }

  /** A made id byte by byte: nonce, the four bytes of the level masked with the keyed hash of the
      nonce, and the first 16 bytes of the keyed hash of RP, masked nonce and count. */
  lemma IdWrittenOut(secret: Hash, h: Hash, random: Nonce, level: u32, count: u32)
    ensures var id := MakeId(secret, h, random, level, count);
            var mask := TwoKeyHmac(secret, [], random[..14]);
            && id.rpIdHash == h && id.count == count
            && id.entropy[..14] == random[..14]
            && (forall i :: 0 <= i < 4 ==> id.entropy[14 + i] == Xor(mask[i], WordBytes(level)[i]))
            && id.tag == TwoKeyHmac(secret, [], h + id.entropy + WordBytes(count))[..16]
  {
    hide TwoKeyHmac, Xor, WordBytes;
    var entropy := WithMetadata(secret, random, level);
    assert entropy[..14] == random[..14];
    assert entropy[14..] == XorWords(Mask(secret, random), WordBytes(level));
    forall i | 0 <= i < 4 ensures entropy[14 + i] == Xor(Mask(secret, random)[i], WordBytes(level)[i]) {
      assert entropy[14 + i] == entropy[14..][i];
    }
  }

  const OPTIONAL_WITH_CREDID := 2
  const REQUIRED := 3

  /** `check_credential_metadata`. */
  function CheckMetadata(secret: Hash, id: CredentialId, verified: bool, fromList: bool): u8 {
    var level := ReadMetadata(secret, id.entropy);
    if level == OPTIONAL_WITH_CREDID && !fromList && !verified then ERR_NOT_ALLOWED
    else if level == REQUIRED && !verified then ERR_NOT_ALLOWED
    else 0
  }

  /** A key that was made with credProtect `level` is offered exactly when the user is verified, or
      the level is not 3 and, without an allow list, not 2 either. */
  lemma ProtectionIsKept(
      secret: Hash, rpIdHash: Hash, random: Nonce, level: u32, count: u32, verified: bool, fromList: bool)
    ensures CheckMetadata(secret, MakeId(secret, rpIdHash, random, level, count), verified, fromList) == 0
            <==> verified || (level != 3 && (fromList || level != 2))
  {
    hide MakeId, ReadMetadata;
    MadeIdIsRecognised(secret, rpIdHash, random, level, count);
  }

  // ----- the code, over the shared hash context -----

  class Credentials {
    const crypto: Crypto

    constructor (crypto: Crypto)
      ensures this.crypto == crypto
    {
      this.crypto := crypto;
    }

    ghost predicate Valid()
      reads crypto, crypto.ctx
    {
      crypto.Shaped()
    }

    method KeyedTag(pieces: seq<Bytes>) returns (hash: array<u8>)
      requires Valid()
      requires forall i :: 0 <= i < |pieces| ==> |pieces[i]| < 0x1_0000_0000
      modifies crypto.ctx, crypto.ctx.state, crypto.ctx.data
      ensures Valid() && fresh(hash) && hash.Length == DIGEST_SIZE
      ensures hash[..] == Keyed(old(crypto.transportSecret[..]), Concat(pieces))
    {
      hide TwoKeyHmac;
      hash := new u8[DIGEST_SIZE];
      var _ := crypto.Tag(TransportKey, 0, pieces, hash);
      assert hash[..DIGEST_SIZE] == hash[..];
    }

    method AddMaskedMetadata(entropy: Nonce, credProtect: u32) returns (r: Nonce)
      requires Valid()
      modifies crypto.ctx, crypto.ctx.state, crypto.ctx.data
      ensures Valid() && r == WithMetadata(old(crypto.transportSecret[..]), entropy, credProtect)
    {
      hide Keyed, XorWords;
      var mask := KeyedTag([entropy[..MASKED_AT]]);
      ConcatOne(entropy[..MASKED_AT]);
      r := entropy[..MASKED_AT] + XorWords(mask[..4], WordBytes(credProtect));
    }

    method ReadMasked(entropy: Nonce) returns (credProtect: u32)
      requires Valid()
      modifies crypto.ctx, crypto.ctx.state, crypto.ctx.data
      ensures Valid() && credProtect == ReadMetadata(old(crypto.transportSecret[..]), entropy)
    {
      hide Keyed, XorWords, WordFrom;
      var mask := KeyedTag([entropy[..MASKED_AT]]);
      ConcatOne(entropy[..MASKED_AT]);
      credProtect := WordFrom(XorWords(entropy[MASKED_AT..], mask[..4]));
    }

    method MakeAuthTag(rpIdHash: Hash, entropy: Nonce, count: u32) returns (tag: Tag)
      requires Valid()
      modifies crypto.ctx, crypto.ctx.state, crypto.ctx.data
      ensures Valid() && tag == AuthTag(old(crypto.transportSecret[..]), rpIdHash, entropy, count)
    {
      hide Keyed, WordBytes;
      var hash := KeyedTag([rpIdHash, entropy, WordBytes(count)]);
      ConcatThree(rpIdHash, entropy, WordBytes(count));
      tag := hash[..TAG_SIZE];
    }
  }

  lemma ConcatOne(a: Bytes)
    ensures Concat([a]) == a
  {
    assert [a][..0] == [];
  }

  lemma ConcatThree(a: Bytes, b: Bytes, c: Bytes)
    ensures Concat([a, b, c]) == a + b + c
  {
    assert [a, b, c][..2] == [a, b] && [a, b][..1] == [a];
    ConcatOne(a);
  }
}
