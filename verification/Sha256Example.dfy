/** The one-block example of SHA-256, the message "abc", round by round. */
module Sha256Example {
  import opened Octets
  import opened Sha256Spec
  import opened Sha256

  const ABC: Bytes := [0x61, 0x62, 0x63]

  const BLOCK: Block := [0x61, 0x62, 0x63, 0x80] + Zeros(59) + [0x18]

  lemma FirstWords()
    ensures W(BLOCK, 0) == 0x61626380 && W(BLOCK, 15) == 0x00000018
    ensures forall t :: 1 <= t < 15 ==> W(BLOCK, t) == 0
  {
    hide W, WordOf;
    WFirst(BLOCK, 0);
    WFirst(BLOCK, 15);
    EndWords();
    forall t | 1 <= t < 15 ensures W(BLOCK, t) == 0 { WFirst(BLOCK, t); }
  }

  lemma EndWords()
    ensures WordOf(0x61, 0x62, 0x63, 0x80) == 0x61626380 && WordOf(0, 0, 0, 0x18) == 0x00000018
    ensures WordOf(0, 0, 0, 0) == 0
  {
  }

  lemma Words16()
    ensures W(BLOCK, 16) == 0x61626380 && W(BLOCK, 17) == 0x000f0000
    ensures W(BLOCK, 18) == 0x7da86405 && W(BLOCK, 19) == 0x600003c6
    ensures W(BLOCK, 20) == 0x3e9d7b78 && W(BLOCK, 21) == 0x0183fc00
    ensures W(BLOCK, 22) == 0x12dcbfdb && W(BLOCK, 23) == 0xe2e2c38e
  {
    hide W;
    FirstWords();
    WNext(BLOCK, 16);
    WNext(BLOCK, 17);
    WNext(BLOCK, 18);
    WNext(BLOCK, 19);
    WNext(BLOCK, 20);
    WNext(BLOCK, 21);
    WNext(BLOCK, 22);
    WNext(BLOCK, 23);
  }

  lemma Words24()
    ensures W(BLOCK, 24) == 0xc8215c1a && W(BLOCK, 25) == 0xb73679a2
    ensures W(BLOCK, 26) == 0xe5bc3909 && W(BLOCK, 27) == 0x32663c5b
    ensures W(BLOCK, 28) == 0x9d209d67 && W(BLOCK, 29) == 0xec8726cb
    ensures W(BLOCK, 30) == 0x702138a4 && W(BLOCK, 31) == 0xd3b7973b
  {
    hide W;
    FirstWords();
    Words16();
    WNext(BLOCK, 24);
    WNext(BLOCK, 25);
    WNext(BLOCK, 26);
    WNext(BLOCK, 27);
    WNext(BLOCK, 28);
    WNext(BLOCK, 29);
    WNext(BLOCK, 30);
    WNext(BLOCK, 31);
  }

  lemma Words32()
    ensures W(BLOCK, 32) == 0x93f5997f && W(BLOCK, 33) == 0x3b68ba73
    ensures W(BLOCK, 34) == 0xaff4ffc1 && W(BLOCK, 35) == 0xf10a5c62
    ensures W(BLOCK, 36) == 0x0a8b3996 && W(BLOCK, 37) == 0x72af830a
    ensures W(BLOCK, 38) == 0x9409e33e && W(BLOCK, 39) == 0x24641522
  {
    hide W;
    Words16();
    Words24();
    WNext(BLOCK, 32);
    WNext(BLOCK, 33);
    WNext(BLOCK, 34);
    WNext(BLOCK, 35);
    WNext(BLOCK, 36);
    WNext(BLOCK, 37);
    WNext(BLOCK, 38);
    WNext(BLOCK, 39);
  }

  lemma Words40()
    ensures W(BLOCK, 40) == 0x9f47bf94 && W(BLOCK, 41) == 0xf0a64f5a
    ensures W(BLOCK, 42) == 0x3e246a79 && W(BLOCK, 43) == 0x27333ba3
    ensures W(BLOCK, 44) == 0x0c4763f2 && W(BLOCK, 45) == 0x840abf27
    ensures W(BLOCK, 46) == 0x7a290d5d && W(BLOCK, 47) == 0x065c43da
  {
    hide W;
    Words24();
    Words32();
    WNext(BLOCK, 40);
    WNext(BLOCK, 41);
    WNext(BLOCK, 42);
    WNext(BLOCK, 43);
    WNext(BLOCK, 44);
    WNext(BLOCK, 45);
    WNext(BLOCK, 46);
    WNext(BLOCK, 47);
  }

  lemma Words48()
    ensures W(BLOCK, 48) == 0xfb3e89cb && W(BLOCK, 49) == 0xcc7617db
    ensures W(BLOCK, 50) == 0xb9e66c34 && W(BLOCK, 51) == 0xa9993667
    ensures W(BLOCK, 52) == 0x84badedd && W(BLOCK, 53) == 0xc21462bc
    ensures W(BLOCK, 54) == 0x1487472c && W(BLOCK, 55) == 0xb20f7a99
  {
    hide W;
    Words32();
    Words40();
    WNext(BLOCK, 48);
    WNext(BLOCK, 49);
    WNext(BLOCK, 50);
    WNext(BLOCK, 51);
    WNext(BLOCK, 52);
    WNext(BLOCK, 53);
    WNext(BLOCK, 54);
    WNext(BLOCK, 55);
  }

  lemma Words56()
    ensures W(BLOCK, 56) == 0xef57b9cd && W(BLOCK, 57) == 0xebe6b238
    ensures W(BLOCK, 58) == 0x9fe3095e && W(BLOCK, 59) == 0x78bc8d4b
    ensures W(BLOCK, 60) == 0xa43fcf15 && W(BLOCK, 61) == 0x668b2ff8
    ensures W(BLOCK, 62) == 0xeeaba2cc && W(BLOCK, 63) == 0x12b1edeb
  {
    hide W;
    Words40();
    Words48();
    WNext(BLOCK, 56);
    WNext(BLOCK, 57);
    WNext(BLOCK, 58);
    WNext(BLOCK, 59);
    WNext(BLOCK, 60);
    WNext(BLOCK, 61);
    WNext(BLOCK, 62);
    WNext(BLOCK, 63);
  }

  lemma RoundStep(t: nat, k: word, w: word)
    requires t < 64 && Constant(t) == k && W(BLOCK, t) == w
    ensures Rounds(H0, BLOCK, t + 1) == Round(Rounds(H0, BLOCK, t), k, w)
  {
    hide Round, W, Constant;
  }

  lemma Rounds4()
    ensures Rounds(H0, BLOCK, 4) == Vars(
      0xd550f666, 0xc8c347a7, 0x5a6ad9ad, 0x5d6aebcd, 0x24e00850, 0xf92939eb, 0x78ce7989, 0xfa2a4622)
  {
    hide Rounds, W;
    NoRounds();
    FirstWords();
    RoundStep(0, 0x428a2f98, 0x61626380);
    RoundStep(1, 0x71374491, 0x00000000);
    assert Rounds(H0, BLOCK, 2) == Vars(
      0x5a6ad9ad, 0x5d6aebcd, 0x6a09e667, 0xbb67ae85, 0x78ce7989, 0xfa2a4622, 0x510e527f, 0x9b05688c);
    RoundStep(2, 0xb5c0fbcf, 0x00000000);
    RoundStep(3, 0xe9b5dba5, 0x00000000);
  }

  lemma Rounds8()
    ensures Rounds(H0, BLOCK, 8) == Vars(
      0x85a07b5f, 0xe5030380, 0x2b4209f5, 0x04409a6a, 0x0c657a79, 0x9b27a401, 0x714260ad, 0x43ada245)
  {
    hide Rounds, W;
    Rounds4();
    FirstWords();
    RoundStep(4, 0x3956c25b, 0x00000000);
    RoundStep(5, 0x59f111f1, 0x00000000);
    assert Rounds(H0, BLOCK, 6) == Vars(
      0x2b4209f5, 0x04409a6a, 0xd550f666, 0xc8c347a7, 0x714260ad, 0x43ada245, 0x24e00850, 0xf92939eb);
    RoundStep(6, 0x923f82a4, 0x00000000);
    RoundStep(7, 0xab1c5ed5, 0x00000000);
  }

  lemma Rounds12()
    ensures Rounds(H0, BLOCK, 12) == Vars(
      0xf71fc5a9, 0x4798a3f4, 0x8c87346b, 0x8e04ecb9, 0x816fd6e9, 0x436b23e8, 0x1cc92596, 0x32ca2d8c)
  {
    hide Rounds, W;
    Rounds8();
    FirstWords();
    RoundStep(8, 0xd807aa98, 0x00000000);
    RoundStep(9, 0x12835b01, 0x00000000);
    assert Rounds(H0, BLOCK, 10) == Vars(
      0x8c87346b, 0x8e04ecb9, 0x85a07b5f, 0xe5030380, 0x1cc92596, 0x32ca2d8c, 0x0c657a79, 0x9b27a401);
    RoundStep(10, 0x243185be, 0x00000000);
    RoundStep(11, 0x550c7dc3, 0x00000000);
  }

  lemma Rounds16()
    ensures Rounds(H0, BLOCK, 16) == Vars(
      0xb0fa238e, 0xc0645fde, 0xd932eb16, 0x87912990, 0x07590dcd, 0x0b92f20c, 0x745a48de, 0x1e578218)
  {
    hide Rounds, W;
    Rounds12();
    FirstWords();
    RoundStep(12, 0x72be5d74, 0x00000000);
    RoundStep(13, 0x80deb1fe, 0x00000000);
    assert Rounds(H0, BLOCK, 14) == Vars(
      0xd932eb16, 0x87912990, 0xf71fc5a9, 0x4798a3f4, 0x745a48de, 0x1e578218, 0x816fd6e9, 0x436b23e8);
    RoundStep(14, 0x9bdc06a7, 0x00000000);
    RoundStep(15, 0xc19bf174, 0x00000018);
  }

  lemma Rounds20()
    ensures Rounds(H0, BLOCK, 20) == Vars(
      0xe1f20c33, 0xfe777bbf, 0xc2fbd9d1, 0x21da9a9b, 0xb0638179, 0xcc899961, 0x846ee454, 0x8034229c)
  {
    hide Rounds, W;
    Rounds16();
    Words16();
    RoundStep(16, 0xe49b69c1, 0x61626380);
    RoundStep(17, 0xefbe4786, 0x000f0000);
    assert Rounds(H0, BLOCK, 18) == Vars(
      0xc2fbd9d1, 0x21da9a9b, 0xb0fa238e, 0xc0645fde, 0x846ee454, 0x8034229c, 0x07590dcd, 0x0b92f20c);
    RoundStep(18, 0x0fc19dc6, 0x7da86405);
    RoundStep(19, 0x240ca1cc, 0x600003c6);
  }

  lemma Rounds24()
    ensures Rounds(H0, BLOCK, 24) == Vars(
      0xc5d53d8d, 0xa7a3623f, 0xc2606d6d, 0x9dc68b63, 0xaa47c347, 0x49f5114a, 0xe1257970, 0x8ada8930)
  {
    hide Rounds, W;
    Rounds20();
    Words16();
    RoundStep(20, 0x2de92c6f, 0x3e9d7b78);
    RoundStep(21, 0x4a7484aa, 0x0183fc00);
    assert Rounds(H0, BLOCK, 22) == Vars(
      0xc2606d6d, 0x9dc68b63, 0xe1f20c33, 0xfe777bbf, 0xe1257970, 0x8ada8930, 0xb0638179, 0xcc899961);
    RoundStep(22, 0x5cb0a9dc, 0x12dcbfdb);
    RoundStep(23, 0x76f988da, 0xe2e2c38e);
  }

  lemma Rounds28()
    ensures Rounds(H0, BLOCK, 28) == Vars(
      0x77d37528, 0xb62ec4bc, 0xcde8037d, 0x1c2c2838, 0xedffbff8, 0xc74c6516, 0x14383d8e, 0x2823ef91)
  {
    hide Rounds, W;
    Rounds24();
    Words24();
    RoundStep(24, 0x983e5152, 0xc8215c1a);
    RoundStep(25, 0xa831c66d, 0xb73679a2);
    assert Rounds(H0, BLOCK, 26) == Vars(
      0xcde8037d, 0x1c2c2838, 0xc5d53d8d, 0xa7a3623f, 0x14383d8e, 0x2823ef91, 0xaa47c347, 0x49f5114a);
    RoundStep(26, 0xb00327c8, 0xe5bc3909);
    RoundStep(27, 0xbf597fc7, 0x32663c5b);
  }

  lemma Rounds32()
    ensures Rounds(H0, BLOCK, 32) == Vars(
      0x73b33bf5, 0xea992a22, 0xa0060b30, 0x363482c9, 0xba591112, 0x0109ab3a, 0xade79437, 0x6112a3b7)
  {
    hide Rounds, W;
    Rounds28();
    Words24();
    RoundStep(28, 0xc6e00bf3, 0x9d209d67);
    RoundStep(29, 0xd5a79147, 0xec8726cb);
    assert Rounds(H0, BLOCK, 30) == Vars(
      0xa0060b30, 0x363482c9, 0x77d37528, 0xb62ec4bc, 0xade79437, 0x6112a3b7, 0xedffbff8, 0xc74c6516);
    RoundStep(30, 0x06ca6351, 0x702138a4);
    RoundStep(31, 0x14292967, 0xd3b7973b);
  }

  lemma Rounds36()
    ensures Rounds(H0, BLOCK, 36) == Vars(
      0x65a0cfe4, 0xa9a7738c, 0xfe604df5, 0x98e12507, 0xf4b002d6, 0x085f3833, 0x59249dd3, 0x9cd9f5f6)
  {
    hide Rounds, W;
    Rounds32();
    Words32();
    RoundStep(32, 0x27b70a85, 0x93f5997f);
    RoundStep(33, 0x2e1b2138, 0x3b68ba73);
    assert Rounds(H0, BLOCK, 34) == Vars(
      0xfe604df5, 0x98e12507, 0x73b33bf5, 0xea992a22, 0x59249dd3, 0x9cd9f5f6, 0xba591112, 0x0109ab3a);
    RoundStep(34, 0x4d2c6dfc, 0xaff4ffc1);
    RoundStep(35, 0x53380d13, 0xf10a5c62);
  }

  lemma Rounds40()
    ensures Rounds(H0, BLOCK, 40) == Vars(
      0x79ea687a, 0x6dc57a8a, 0x34df1604, 0x41a65cb1, 0x1efbc0a0, 0xf0781bc8, 0xa507a53d, 0x0772a26b)
  {
    hide Rounds, W;
    Rounds36();
    Words32();
    RoundStep(36, 0x650a7354, 0x0a8b3996);
    RoundStep(37, 0x766a0abb, 0x72af830a);
    assert Rounds(H0, BLOCK, 38) == Vars(
      0x34df1604, 0x41a65cb1, 0x65a0cfe4, 0xa9a7738c, 0xa507a53d, 0x0772a26b, 0xf4b002d6, 0x085f3833);
    RoundStep(38, 0x81c2c92e, 0x9409e33e);
    RoundStep(39, 0x92722c85, 0x24641522);
  }

  lemma Rounds44()
    ensures Rounds(H0, BLOCK, 44) == Vars(
      0x9d4baf93, 0x17aa0dfe, 0xdf46652f, 0xd6670766, 0xfda24c2e, 0xdecd4715, 0x838b2711, 0x26352d63)
  {
    hide Rounds, W;
    Rounds40();
    Words40();
    RoundStep(40, 0xa2bfe8a1, 0x9f47bf94);
    RoundStep(41, 0xa81a664b, 0xf0a64f5a);
    assert Rounds(H0, BLOCK, 42) == Vars(
      0xdf46652f, 0xd6670766, 0x79ea687a, 0x6dc57a8a, 0x838b2711, 0x26352d63, 0x1efbc0a0, 0xf0781bc8);
    RoundStep(42, 0xc24b8b70, 0x3e246a79);
    RoundStep(43, 0xc76c51a3, 0x27333ba3);
  }

  lemma Rounds48()
    ensures Rounds(H0, BLOCK, 48) == Vars(
      0x4172328d, 0xa14c14b0, 0x72ab4b91, 0x26628815, 0xfecf0bc6, 0xd57b94a9, 0xb7755da1, 0xa80f11f0)
  {
    hide Rounds, W;
    Rounds44();
    Words40();
    RoundStep(44, 0xd192e819, 0x0c4763f2);
    RoundStep(45, 0xd6990624, 0x840abf27);
    assert Rounds(H0, BLOCK, 46) == Vars(
      0x72ab4b91, 0x26628815, 0x9d4baf93, 0x17aa0dfe, 0xb7755da1, 0xa80f11f0, 0xfda24c2e, 0xdecd4715);
    RoundStep(46, 0xf40e3585, 0x7a290d5d);
    RoundStep(47, 0x106aa070, 0x065c43da);
  }

  lemma Rounds52()
    ensures Rounds(H0, BLOCK, 52) == Vars(
      0x886e7a22, 0x7a0508a1, 0xf11bfaa8, 0x05757ceb, 0x49231c1e, 0x52f1ccf7, 0x6e5c390c, 0xbd714038)
  {
    hide Rounds, W;
    Rounds48();
    Words48();
    RoundStep(48, 0x19a4c116, 0xfb3e89cb);
    RoundStep(49, 0x1e376c08, 0xcc7617db);
    assert Rounds(H0, BLOCK, 50) == Vars(
      0xf11bfaa8, 0x05757ceb, 0x4172328d, 0xa14c14b0, 0x6e5c390c, 0xbd714038, 0xfecf0bc6, 0xd57b94a9);
    RoundStep(50, 0x2748774c, 0xb9e66c34);
    RoundStep(51, 0x34b0bcb5, 0xa9993667);
  }

  lemma Rounds56()
    ensures Rounds(H0, BLOCK, 56) == Vars(
      0x38cc9913, 0x3ec45cdb, 0xf5702fdb, 0x101fd28f, 0x54cb266b, 0xe50e1b4f, 0x9f4787c3, 0x529e7d00)
  {
    hide Rounds, W;
    Rounds52();
    Words48();
    RoundStep(52, 0x391c0cb3, 0x84badedd);
    RoundStep(53, 0x4ed8aa4a, 0xc21462bc);
    assert Rounds(H0, BLOCK, 54) == Vars(
      0xf5702fdb, 0x101fd28f, 0x886e7a22, 0x7a0508a1, 0x9f4787c3, 0x529e7d00, 0x49231c1e, 0x52f1ccf7);
    RoundStep(54, 0x5b9cca4f, 0x1487472c);
    RoundStep(55, 0x682e6ff3, 0xb20f7a99);
  }

  lemma Rounds60()
    ensures Rounds(H0, BLOCK, 60) == Vars(
      0xb6ae8fff, 0xffb70472, 0xc062d46f, 0xfcd1887b, 0xb21bad3d, 0x6d83bfc6, 0x7e44008e, 0x9b5e906c)
  {
    hide Rounds, W;
    Rounds56();
    Words56();
    RoundStep(56, 0x748f82ee, 0xef57b9cd);
    RoundStep(57, 0x78a5636f, 0xebe6b238);
    assert Rounds(H0, BLOCK, 58) == Vars(
      0xc062d46f, 0xfcd1887b, 0x38cc9913, 0x3ec45cdb, 0x7e44008e, 0x9b5e906c, 0x54cb266b, 0xe50e1b4f);
    RoundStep(58, 0x84c87814, 0x9fe3095e);
    RoundStep(59, 0x8cc70208, 0x78bc8d4b);
  }

  lemma Rounds64()
    ensures Rounds(H0, BLOCK, 64) == Vars(
      0x506e3058, 0xd39a2165, 0x04d24d6c, 0xb85e2ce9, 0x5ef50f24, 0xfb121210, 0x948d25b6, 0x961f4894)
  {
    hide Rounds, W;
    Rounds60();
    Words56();
    RoundStep(60, 0x90befffa, 0xa43fcf15);
    RoundStep(61, 0xa4506ceb, 0x668b2ff8);
    assert Rounds(H0, BLOCK, 62) == Vars(
      0x04d24d6c, 0xb85e2ce9, 0xb6ae8fff, 0xffb70472, 0x948d25b6, 0x961f4894, 0xb21bad3d, 0x6d83bfc6);
    RoundStep(62, 0xbef9a3f7, 0xeeaba2cc);
    RoundStep(63, 0xc67178f2, 0x12b1edeb);
  }

  lemma NoRounds()
    ensures Rounds(H0, BLOCK, 0) == H0
  {
  }

  lemma DigestBytes()
    ensures VarsBytes(Vars(
      0xba7816bf, 0x8f01cfea, 0x414140de, 0x5dae2223, 0xb00361a3, 0x96177a9c, 0xb410ff61, 0xf20015ad)) == [
      0xba, 0x78, 0x16, 0xbf, 0x8f, 0x01, 0xcf, 0xea, 0x41, 0x41, 0x40, 0xde, 0x5d, 0xae, 0x22, 0x23,
      0xb0, 0x03, 0x61, 0xa3, 0x96, 0x17, 0x7a, 0x9c, 0xb4, 0x10, 0xff, 0x61, 0xf2, 0x00, 0x15, 0xad]
  {
    hide ByteOf;
    WordBytesLow();
    WordBytesHigh();
  }

  lemma WordBytesLow()
    ensures ByteOf(0xba7816bf, 0) == 0xba && ByteOf(0xba7816bf, 1) == 0x78
    ensures ByteOf(0xba7816bf, 2) == 0x16 && ByteOf(0xba7816bf, 3) == 0xbf
    ensures ByteOf(0x8f01cfea, 0) == 0x8f && ByteOf(0x8f01cfea, 1) == 0x01
    ensures ByteOf(0x8f01cfea, 2) == 0xcf && ByteOf(0x8f01cfea, 3) == 0xea
    ensures ByteOf(0x414140de, 0) == 0x41 && ByteOf(0x414140de, 1) == 0x41
    ensures ByteOf(0x414140de, 2) == 0x40 && ByteOf(0x414140de, 3) == 0xde
    ensures ByteOf(0x5dae2223, 0) == 0x5d && ByteOf(0x5dae2223, 1) == 0xae
    ensures ByteOf(0x5dae2223, 2) == 0x22 && ByteOf(0x5dae2223, 3) == 0x23
  {
  }

  lemma WordBytesHigh()
    ensures ByteOf(0xb00361a3, 0) == 0xb0 && ByteOf(0xb00361a3, 1) == 0x03
    ensures ByteOf(0xb00361a3, 2) == 0x61 && ByteOf(0xb00361a3, 3) == 0xa3
    ensures ByteOf(0x96177a9c, 0) == 0x96 && ByteOf(0x96177a9c, 1) == 0x17
    ensures ByteOf(0x96177a9c, 2) == 0x7a && ByteOf(0x96177a9c, 3) == 0x9c
    ensures ByteOf(0xb410ff61, 0) == 0xb4 && ByteOf(0xb410ff61, 1) == 0x10
    ensures ByteOf(0xb410ff61, 2) == 0xff && ByteOf(0xb410ff61, 3) == 0x61
    ensures ByteOf(0xf20015ad, 0) == 0xf2 && ByteOf(0xf20015ad, 1) == 0x00
    ensures ByteOf(0xf20015ad, 2) == 0x15 && ByteOf(0xf20015ad, 3) == 0xad
  {
  }

  /** The digest of "abc". */
  lemma DigestOfAbc()
    ensures Digest(ABC) == [
      0xba, 0x78, 0x16, 0xbf, 0x8f, 0x01, 0xcf, 0xea, 0x41, 0x41, 0x40, 0xde, 0x5d, 0xae, 0x22, 0x23,
      0xb0, 0x03, 0x61, 0xa3, 0x96, 0x17, 0x7a, 0x9c, 0xb4, 0x10, 0xff, 0x61, 0xf2, 0x00, 0x15, 0xad]
  {
    hide Rounds, W, VarsBytes;
    PadOfAbc();
    Rounds64();
    OneBlock(BLOCK);
    var h := Vars(
      0xba7816bf, 0x8f01cfea, 0x414140de, 0x5dae2223, 0xb00361a3, 0x96177a9c, 0xb410ff61, 0xf20015ad);
    assert HashBlocks(H0, BLOCK) == h;
    DigestBytes();
  }

  lemma PadOfAbc()
    ensures Pad(ABC) == BLOCK
  {
    hide BigEndian;
    EightBytes(24);
    assert PadZeros(3) == 52 && BitLength(3) == 24;
    assert BigEndian(24, 8) == Zeros(7) + [0x18];
    assert Zeros(52) + Zeros(7) == Zeros(59);
    assert ABC + [0x80] == [0x61, 0x62, 0x63, 0x80];
    assert Pad(ABC) == ABC + [0x80] + (Zeros(52) + Zeros(7)) + [0x18];
  }

  lemma OneBlock(block: Block)
    ensures HashBlocks(H0, block) == Compress(H0, block)
  {
    hide Compress;
    HashBlocksStep(H0, [], block);
    assert [] + block == block;
  }
}
