/** The one-block example that FIPS 180 gives for SHA-1, the digest of "abc", followed round by round. */
module Sha1Example {
  import opened Bits
  import opened Fips

  const ABC: seq<bv8> := [0x61, 0x62, 0x63]

  /** The block that "abc" is padded to. */
  predicate IsAbc(block: seq<bv8>) {
    && |block| == BLOCK && block[0] == 0x61 && block[1] == 0x62 && block[2] == 0x63 && block[3] == 0x80 && block[63] == 0x18
    && forall i :: 4 <= i < 63 ==> block[i] == 0
  }

  // ---------------------------------------------------------------------------------------------
  // The schedule
  // ---------------------------------------------------------------------------------------------

  lemma {:induction false} Words0(block: seq<bv8>)
    requires IsAbc(block)
    ensures W(block, 0) == 0x61626380 && W(block, 1) == 0 && W(block, 2) == 0 && W(block, 3) == 0
    ensures W(block, 4) == 0 && W(block, 5) == 0 && W(block, 6) == 0 && W(block, 7) == 0
    ensures W(block, 8) == 0 && W(block, 9) == 0 && W(block, 10) == 0 && W(block, 11) == 0
    ensures W(block, 12) == 0 && W(block, 13) == 0 && W(block, 14) == 0 && W(block, 15) == 24
  {
  }

  lemma {:induction false} Words16(block: seq<bv8>)
    requires IsAbc(block)
    ensures W(block, 16) == 0xc2c4c700 && W(block, 17) == 0 && W(block, 18) == 48 && W(block, 19) == 0x85898e01
    ensures W(block, 20) == 0 && W(block, 21) == 96 && W(block, 22) == 0x0b131c03 && W(block, 23) == 48
    ensures W(block, 24) == 0x85898ec1 && W(block, 25) == 0x16263806 && W(block, 26) == 0 && W(block, 27) == 0x00000180
    ensures W(block, 28) == 0x2c4c700c && W(block, 29) == 0x000000f0 && W(block, 30) == 0x93afb507 && W(block, 31) == 0x5898e048
  {
    Words0(block);
  }

  lemma {:induction false} Words32(block: seq<bv8>)
    requires IsAbc(block)
    ensures W(block, 32) == 0x8e9a9202 && W(block, 33) == 0x00000600 && W(block, 34) == 0xb131c0f0 && W(block, 35) == 0x16263bc6
    ensures W(block, 36) == 0x4ebed41e && W(block, 37) == 0x626380a1 && W(block, 38) == 0x16263806 && W(block, 39) == 0x000018c0
    ensures W(block, 40) == 0xd2e138c4 && W(block, 41) == 0x00000f00 && W(block, 42) == 0x3afb5079 && W(block, 43) == 0x898e04e5
    ensures W(block, 44) == 0xe2ba3c2b && W(block, 45) == 0x000060c0 && W(block, 46) == 0x053a37cd && W(block, 47) == 0x74458547
  {
    Words16(block);
  }

  lemma {:induction false} Words48(block: seq<bv8>)
    requires IsAbc(block)
    ensures W(block, 48) == 0xda9415ed && W(block, 49) == 0x26380a16 && W(block, 50) == 0x626383a1 && W(block, 51) == 0x4ebf54de
    ensures W(block, 52) == 0x3835b44b && W(block, 53) == 0x0000f600 && W(block, 54) == 0x1e84c7a3 && W(block, 55) == 0x98e04d98
    ensures W(block, 56) == 0x651d16a0 && W(block, 57) == 0x62658ca1 && W(block, 58) == 0x458544d6 && W(block, 59) == 0x44584cb7
    ensures W(block, 60) == 0x7ba06619 && W(block, 61) == 0x6380aea2 && W(block, 62) == 0x0ae55269 && W(block, 63) == 0x627b49a1
  {
    Words32(block);
  }

  lemma {:induction false} Words64(block: seq<bv8>)
    requires IsAbc(block)
    ensures W(block, 64) == 0x7cd45c9d && W(block, 65) == 0x000f0000 && W(block, 66) == 0xfb50753a && W(block, 67) == 0xec6765e8
    ensures W(block, 68) == 0xba3c2be2 && W(block, 69) == 0x0060c000 && W(block, 70) == 0x3a37cd05 && W(block, 71) == 0x458546f4
    ensures W(block, 72) == 0xb8599dd6 && W(block, 73) == 0x380a1a26 && W(block, 74) == 0x01e02203 && W(block, 75) == 0xe7cc3456
    ensures W(block, 76) == 0xe6e60b69 && W(block, 77) == 0x00f60a00 && W(block, 78) == 0x5795ef4f && W(block, 79) == 0x822e0879
  {
    Words48(block);
  }

  // ---------------------------------------------------------------------------------------------
  // The rounds
  // ---------------------------------------------------------------------------------------------

  lemma {:induction false} Advance(block: seq<bv8>, t: nat, w: bv32, next: Registers)
    requires |block| == BLOCK && W(block, t) == w && Step(Rounds(INITIAL, block, t), t, w) == next
    ensures Rounds(INITIAL, block, t + 1) == next
  {
    hide Step, W;
  }

  lemma {:induction false} Rounds0(block: seq<bv8>)
    requires |block| == BLOCK
    ensures Rounds(INITIAL, block, 0) == INITIAL
  {
    hide W, Step;
  }

  lemma {:induction false} Rounds10(block: seq<bv8>)
    requires IsAbc(block)
    ensures Rounds(INITIAL, block, 10) == Registers(0x8351f929, 0x4b6ae328, 0x27a301f5, 0x664f8c30, 0x0ff1f290)
  {
    hide Rounds, W;
    Rounds0(block);
    Words0(block);
    Advance(block, 0, 0x61626380, Registers(0x0116fc33, 0x67452301, 0x7bf36ae2, 0x98badcfe, 0x10325476));
    Advance(block, 1, 0, Registers(0x8990536d, 0x0116fc33, 0x59d148c0, 0x7bf36ae2, 0x98badcfe));
    Advance(block, 2, 0, Registers(0xa1390f08, 0x8990536d, 0xc045bf0c, 0x59d148c0, 0x7bf36ae2));
    Advance(block, 3, 0, Registers(0xcdd8e11b, 0xa1390f08, 0x626414db, 0xc045bf0c, 0x59d148c0));
    Advance(block, 4, 0, Registers(0xcfd499de, 0xcdd8e11b, 0x284e43c2, 0x626414db, 0xc045bf0c));
    Advance(block, 5, 0, Registers(0x3fc7ca40, 0xcfd499de, 0xf3763846, 0x284e43c2, 0x626414db));
    Advance(block, 6, 0, Registers(0x993e30c1, 0x3fc7ca40, 0xb3f52677, 0xf3763846, 0x284e43c2));
    Advance(block, 7, 0, Registers(0x9e8c07d4, 0x993e30c1, 0x0ff1f290, 0xb3f52677, 0xf3763846));
    Advance(block, 8, 0, Registers(0x4b6ae328, 0x9e8c07d4, 0x664f8c30, 0x0ff1f290, 0xb3f52677));
    Advance(block, 9, 0, Registers(0x8351f929, 0x4b6ae328, 0x27a301f5, 0x664f8c30, 0x0ff1f290));
  }

  lemma {:induction false} Rounds20(block: seq<bv8>)
    requires IsAbc(block)
    ensures Rounds(INITIAL, block, 20) == Registers(0xfd9e1d7d, 0xdc64901d, 0x20aa99ca, 0xd3a49608, 0xc82f758b)
  {
    hide Rounds, W;
    Rounds10(block);
    Words0(block);
    Words16(block);
    Advance(block, 10, 0, Registers(0xfbda9e89, 0x8351f929, 0x12dab8ca, 0x27a301f5, 0x664f8c30));
    Advance(block, 11, 0, Registers(0x63188fe4, 0xfbda9e89, 0x60d47e4a, 0x12dab8ca, 0x27a301f5));
    Advance(block, 12, 0, Registers(0x4607b664, 0x63188fe4, 0x7ef6a7a2, 0x60d47e4a, 0x12dab8ca));
    Advance(block, 13, 0, Registers(0x9128f695, 0x4607b664, 0x18c623f9, 0x7ef6a7a2, 0x60d47e4a));
    Advance(block, 14, 0, Registers(0x196bee77, 0x9128f695, 0x1181ed99, 0x18c623f9, 0x7ef6a7a2));
    Advance(block, 15, 24, Registers(0x20bdd62f, 0x196bee77, 0x644a3da5, 0x1181ed99, 0x18c623f9));
    Advance(block, 16, 0xc2c4c700, Registers(0x4e925823, 0x20bdd62f, 0xc65afb9d, 0x644a3da5, 0x1181ed99));
    Advance(block, 17, 0, Registers(0x82aa6728, 0x4e925823, 0xc82f758b, 0xc65afb9d, 0x644a3da5));
    Advance(block, 18, 48, Registers(0xdc64901d, 0x82aa6728, 0xd3a49608, 0xc82f758b, 0xc65afb9d));
    Advance(block, 19, 0x85898e01, Registers(0xfd9e1d7d, 0xdc64901d, 0x20aa99ca, 0xd3a49608, 0xc82f758b));
  }

  lemma {:induction false} Rounds30(block: seq<bv8>)
    requires IsAbc(block)
    ensures Rounds(INITIAL, block, 30) == Registers(0xc5fbaf5d, 0x8370b52e, 0xd2aa1365, 0x6f8d7ef5, 0x12104ee9)
  {
    hide Rounds, W;
    Rounds20(block);
    Words16(block);
    Advance(block, 20, 0, Registers(0x1a37b0ca, 0xfd9e1d7d, 0x77192407, 0x20aa99ca, 0xd3a49608));
    Advance(block, 21, 96, Registers(0x33a23bfc, 0x1a37b0ca, 0x7f67875f, 0x77192407, 0x20aa99ca));
    Advance(block, 22, 0x0b131c03, Registers(0x21283486, 0x33a23bfc, 0x868dec32, 0x7f67875f, 0x77192407));
    Advance(block, 23, 48, Registers(0xd541f12d, 0x21283486, 0x0ce88eff, 0x868dec32, 0x7f67875f));
    Advance(block, 24, 0x85898ec1, Registers(0xc7567dc6, 0xd541f12d, 0x884a0d21, 0x0ce88eff, 0x868dec32));
    Advance(block, 25, 0x16263806, Registers(0x48413ba4, 0xc7567dc6, 0x75507c4b, 0x884a0d21, 0x0ce88eff));
    Advance(block, 26, 0, Registers(0xbe35fbd5, 0x48413ba4, 0xb1d59f71, 0x75507c4b, 0x884a0d21));
    Advance(block, 27, 0x00000180, Registers(0x4aa84d97, 0xbe35fbd5, 0x12104ee9, 0xb1d59f71, 0x75507c4b));
    Advance(block, 28, 0x2c4c700c, Registers(0x8370b52e, 0x4aa84d97, 0x6f8d7ef5, 0x12104ee9, 0xb1d59f71));
    Advance(block, 29, 0x000000f0, Registers(0xc5fbaf5d, 0x8370b52e, 0xd2aa1365, 0x6f8d7ef5, 0x12104ee9));
  }

  lemma {:induction false} Rounds40(block: seq<bv8>)
    requires IsAbc(block)
    ensures Rounds(INITIAL, block, 40) == Registers(0x32de1cba, 0x4c986405, 0xf718e5cf, 0x03d447f6, 0xf72eec32)
  {
    hide Rounds, W;
    Rounds30(block);
    Words16(block);
    Words32(block);
    Advance(block, 30, 0x93afb507, Registers(0x1267b407, 0xc5fbaf5d, 0xa0dc2d4b, 0xd2aa1365, 0x6f8d7ef5));
    Advance(block, 31, 0x5898e048, Registers(0x3b845d33, 0x1267b407, 0x717eebd7, 0xa0dc2d4b, 0xd2aa1365));
    Advance(block, 32, 0x8e9a9202, Registers(0x046faa0a, 0x3b845d33, 0xc499ed01, 0x717eebd7, 0xa0dc2d4b));
    Advance(block, 33, 0x00000600, Registers(0x2c0ebc11, 0x046faa0a, 0xcee1174c, 0xc499ed01, 0x717eebd7));
    Advance(block, 34, 0xb131c0f0, Registers(0x21796ad4, 0x2c0ebc11, 0x811bea82, 0xcee1174c, 0xc499ed01));
    Advance(block, 35, 0x16263bc6, Registers(0xdcbbb0cb, 0x21796ad4, 0x4b03af04, 0x811bea82, 0xcee1174c));
    Advance(block, 36, 0x4ebed41e, Registers(0x0f511fd8, 0xdcbbb0cb, 0x085e5ab5, 0x4b03af04, 0x811bea82));
    Advance(block, 37, 0x626380a1, Registers(0xdc63973f, 0x0f511fd8, 0xf72eec32, 0x085e5ab5, 0x4b03af04));
    Advance(block, 38, 0x16263806, Registers(0x4c986405, 0xdc63973f, 0x03d447f6, 0xf72eec32, 0x085e5ab5));
    Advance(block, 39, 0x000018c0, Registers(0x32de1cba, 0x4c986405, 0xf718e5cf, 0x03d447f6, 0xf72eec32));
  }

  lemma {:induction false} Rounds50(block: seq<bv8>)
    requires IsAbc(block)
    ensures Rounds(INITIAL, block, 50) == Registers(0x120731c5, 0xbaf39337, 0xafab40b2, 0x2806e11b, 0x8714787c)
  {
    hide Rounds, W;
    Rounds40(block);
    Words32(block);
    Words48(block);
    Advance(block, 40, 0xd2e138c4, Registers(0xfc87dedf, 0x32de1cba, 0x53261901, 0xf718e5cf, 0x03d447f6));
    Advance(block, 41, 0x00000f00, Registers(0x970a0d5c, 0xfc87dedf, 0x8cb7872e, 0x53261901, 0xf718e5cf));
    Advance(block, 42, 0x3afb5079, Registers(0x7f193dc5, 0x970a0d5c, 0xff21f7b7, 0x8cb7872e, 0x53261901));
    Advance(block, 43, 0x898e04e5, Registers(0xee1b1aaf, 0x7f193dc5, 0x25c28357, 0xff21f7b7, 0x8cb7872e));
    Advance(block, 44, 0xe2ba3c2b, Registers(0x40f28e09, 0xee1b1aaf, 0x5fc64f71, 0x25c28357, 0xff21f7b7));
    Advance(block, 45, 0x000060c0, Registers(0x1c51e1f2, 0x40f28e09, 0xfb86c6ab, 0x5fc64f71, 0x25c28357));
    Advance(block, 46, 0x053a37cd, Registers(0xa01b846c, 0x1c51e1f2, 0x503ca382, 0xfb86c6ab, 0x5fc64f71));
    Advance(block, 47, 0x74458547, Registers(0xbead02ca, 0xa01b846c, 0x8714787c, 0x503ca382, 0xfb86c6ab));
    Advance(block, 48, 0xda9415ed, Registers(0xbaf39337, 0xbead02ca, 0x2806e11b, 0x8714787c, 0x503ca382));
    Advance(block, 49, 0x26380a16, Registers(0x120731c5, 0xbaf39337, 0xafab40b2, 0x2806e11b, 0x8714787c));
  }

  lemma {:induction false} Rounds60(block: seq<bv8>)
    requires IsAbc(block)
    ensures Rounds(INITIAL, block, 60) == Registers(0x3f52de5a, 0x09d785fd, 0x3498bfd4, 0xf211824f, 0xd79915ab)
  {
    hide Rounds, W;
    Rounds50(block);
    Words48(block);
    Advance(block, 50, 0x626383a1, Registers(0x641db2ce, 0x120731c5, 0xeebce4cd, 0xafab40b2, 0x2806e11b));
    Advance(block, 51, 0x4ebf54de, Registers(0x3847ad66, 0x641db2ce, 0x4481cc71, 0xeebce4cd, 0xafab40b2));
    Advance(block, 52, 0x3835b44b, Registers(0xe490436d, 0x3847ad66, 0x99076cb3, 0x4481cc71, 0xeebce4cd));
    Advance(block, 53, 0x0000f600, Registers(0x27e9f1d8, 0xe490436d, 0x8e11eb59, 0x99076cb3, 0x4481cc71));
    Advance(block, 54, 0x1e84c7a3, Registers(0x7b71f76d, 0x27e9f1d8, 0x792410db, 0x8e11eb59, 0x99076cb3));
    Advance(block, 55, 0x98e04d98, Registers(0x5e6456af, 0x7b71f76d, 0x09fa7c76, 0x792410db, 0x8e11eb59));
    Advance(block, 56, 0x651d16a0, Registers(0xc846093f, 0x5e6456af, 0x5edc7ddb, 0x09fa7c76, 0x792410db));
    Advance(block, 57, 0x62658ca1, Registers(0xd262ff50, 0xc846093f, 0xd79915ab, 0x5edc7ddb, 0x09fa7c76));
    Advance(block, 58, 0x458544d6, Registers(0x09d785fd, 0xd262ff50, 0xf211824f, 0xd79915ab, 0x5edc7ddb));
    Advance(block, 59, 0x44584cb7, Registers(0x3f52de5a, 0x09d785fd, 0x3498bfd4, 0xf211824f, 0xd79915ab));
  }

  lemma {:induction false} Rounds70(block: seq<bv8>)
    requires IsAbc(block)
    ensures Rounds(INITIAL, block, 70) == Registers(0x3f2588c2, 0x497093c0, 0xde37534a, 0x030f7cad, 0x4405957e)
  {
    hide Rounds, W;
    Rounds60(block);
    Words48(block);
    Words64(block);
    Advance(block, 60, 0x7ba06619, Registers(0xd756c147, 0x3f52de5a, 0x4275e17f, 0x3498bfd4, 0xf211824f));
    Advance(block, 61, 0x6380aea2, Registers(0x548c9cb2, 0xd756c147, 0x8fd4b796, 0x4275e17f, 0x3498bfd4));
    Advance(block, 62, 0x0ae55269, Registers(0xb66c020b, 0x548c9cb2, 0xf5d5b051, 0x8fd4b796, 0x4275e17f));
    Advance(block, 63, 0x627b49a1, Registers(0x6b61c9e1, 0xb66c020b, 0x9523272c, 0xf5d5b051, 0x8fd4b796));
    Advance(block, 64, 0x7cd45c9d, Registers(0x19dfa7ac, 0x6b61c9e1, 0xed9b0082, 0x9523272c, 0xf5d5b051));
    Advance(block, 65, 0x000f0000, Registers(0x101655f9, 0x19dfa7ac, 0x5ad87278, 0xed9b0082, 0x9523272c));
    Advance(block, 66, 0xfb50753a, Registers(0x0c3df2b4, 0x101655f9, 0x0677e9eb, 0x5ad87278, 0xed9b0082));
    Advance(block, 67, 0xec6765e8, Registers(0x78dd4d2b, 0x0c3df2b4, 0x4405957e, 0x0677e9eb, 0x5ad87278));
    Advance(block, 68, 0xba3c2be2, Registers(0x497093c0, 0x78dd4d2b, 0x030f7cad, 0x4405957e, 0x0677e9eb));
    Advance(block, 69, 0x0060c000, Registers(0x3f2588c2, 0x497093c0, 0xde37534a, 0x030f7cad, 0x4405957e));
  }

  lemma {:induction false} Rounds80(block: seq<bv8>)
    requires IsAbc(block)
    ensures Rounds(INITIAL, block, 80) == Registers(0x42541b35, 0x5738d5e1, 0x21834873, 0x681e6df6, 0xd8fdf6ad)
  {
    hide Rounds, W;
    Rounds70(block);
    Words64(block);
    Advance(block, 70, 0x3a37cd05, Registers(0xc199f8c7, 0x3f2588c2, 0x125c24f0, 0xde37534a, 0x030f7cad));
    Advance(block, 71, 0x458546f4, Registers(0x39859de7, 0xc199f8c7, 0x8fc96230, 0x125c24f0, 0xde37534a));
    Advance(block, 72, 0xb8599dd6, Registers(0xedb42de4, 0x39859de7, 0xf0667e31, 0x8fc96230, 0x125c24f0));
    Advance(block, 73, 0x380a1a26, Registers(0x11793f6f, 0xedb42de4, 0xce616779, 0xf0667e31, 0x8fc96230));
    Advance(block, 74, 0x01e02203, Registers(0x5ee76897, 0x11793f6f, 0x3b6d0b79, 0xce616779, 0xf0667e31));
    Advance(block, 75, 0xe7cc3456, Registers(0x63f7dab7, 0x5ee76897, 0xc45e4fdb, 0x3b6d0b79, 0xce616779));
    Advance(block, 76, 0xe6e60b69, Registers(0xa079b7d9, 0x63f7dab7, 0xd7b9da25, 0xc45e4fdb, 0x3b6d0b79));
    Advance(block, 77, 0x00f60a00, Registers(0x860d21cc, 0xa079b7d9, 0xd8fdf6ad, 0xd7b9da25, 0xc45e4fdb));
    Advance(block, 78, 0x5795ef4f, Registers(0x5738d5e1, 0x860d21cc, 0x681e6df6, 0xd8fdf6ad, 0xd7b9da25));
    Advance(block, 79, 0x822e0879, Registers(0x42541b35, 0x5738d5e1, 0x21834873, 0x681e6df6, 0xd8fdf6ad));
  }

  // ---------------------------------------------------------------------------------------------
  // The digest
  // ---------------------------------------------------------------------------------------------

  lemma {:induction false} AbcPadded()
    ensures IsAbc(Padded(ABC))
  {
    hide BigEndian;
    assert ZeroBytes(3) == 52;
    var field := BigEndian(24, FIELD);
    TwentyFour();
    assert Padded(ABC) == ABC + ([0x80] + ZeroRun(52)) + field;
  }

  lemma {:induction false} TwentyFour()
    ensures BigEndian(24, FIELD) == [0, 0, 0, 0, 0, 0, 0, 0x18]
  {
    hide U8;
    SmallBytes();
    ZeroField(7);
    assert BigEndian(24, FIELD) == BigEndian(24 / 256, 7) + [U8(24 % 256)];
  }

  lemma {:induction false} ZeroField(k: nat)
    ensures BigEndian(0, k) == ZeroRun(k)
  {
    hide U8;
    SmallBytes();
    if k > 0 {
      ZeroField(k - 1);
    }
  }

  lemma {:induction false} SmallBytes()
    ensures U8(0) == 0 && U8(24) == 0x18
  {
    hide Low;
    SmallBits();
  }

  lemma {:induction false} SmallBits()
    ensures Low(0, BYTE) == [false, false, false, false, false, false, false, false]
    ensures Low(24, BYTE) == [false, false, false, true, true, false, false, false]
  {
  }

  /** SHA-1 of "abc" is a9993e36 4706816a ba3e2571 7850c26c 9cd0d89d. */
  lemma {:induction false} AbcDigest()
    ensures Fips.Sha1(ABC) ==
      [0xa9, 0x99, 0x3e, 0x36, 0x47, 0x06, 0x81, 0x6a, 0xba, 0x3e, 0x25, 0x71, 0x78, 0x50, 0xc2, 0x6c, 0x9c, 0xd0, 0xd8, 0x9d]
  {
    hide Padded, Rounds, W;
    AbcPadded();
    var block := Padded(ABC);
    Rounds80(block);
    assert block[..BLOCK] == block && block[BLOCK..] == [];
    var h := Compress(INITIAL, block);
    assert Blocks(INITIAL, block) == Blocks(h, []) == h;
    assert h == Registers(0xa9993e36, 0x4706816a, 0xba3e2571, 0x7850c26c, 0x9cd0d89d);
  }
}
