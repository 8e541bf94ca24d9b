/** The first test of section 7.3 of RFC 3174, worked through: the digest of "abc" (src/libfootball/sha1.c).
    The words of its one block are worked out first, then the rounds, a few at a time. */
module Sha1Example {
  import opened Sha1

  /** The three characters of the test. */
  const ABC: seq<bv8> := [0x61, 0x62, 0x63]

  /** Its one block: the message, a one bit, zeros and the length in bits. */
  function Block(): (r: seq<bv8>)
    ensures |r| == 64
  {
    ABC + [0x80] + Zeros(59) + [0x18]
  }

  lemma BlockIsPadded()
    ensures Padded(ABC) == Block()
  {
    assert Gap(3) == 52 && 8 * 3 / TWO32 == 0;
    OctetsOf24();
    hide LengthOctets;
    assert Zeros(52) + Zeros(7) == Zeros(59);
    assert Padding(3) == [0x80] + Zeros(52) + LengthOctets(0, 24);
  }

  lemma OctetsOf24()
    ensures LengthOctets(0, 24) == Zeros(7) + [0x18]
  {
  }

  lemma NextWord(t: nat, w3: bv32, w8: bv32, w14: bv32, w16: bv32)
    requires t >= 16 && W(Block(), t - 3) == w3 && W(Block(), t - 8) == w8
    requires W(Block(), t - 14) == w14 && W(Block(), t - 16) == w16
    ensures W(Block(), t) == Rotl1(Xor4(w3, w8, w14, w16))
  {
    hide Rotl1, Xor4, Block;
  }

  lemma NextState(t: nat, s: Words)
    requires Rounds(INITIAL, Block(), t) == s
    ensures Rounds(INITIAL, Block(), t + 1) == Round(s, F(t, s.b, s.c, s.d), W(Block(), t), K(t))
  {
    hide Round, F, K, W, Block;
  }

  /** The octets of the block as words. */
  lemma FirstWords()
    ensures W(Block(), 0) == 0x61626380
    ensures W(Block(), 1) == 0x00000000
    ensures W(Block(), 2) == 0x00000000
    ensures W(Block(), 3) == 0x00000000
    ensures W(Block(), 4) == 0x00000000
    ensures W(Block(), 5) == 0x00000000
    ensures W(Block(), 6) == 0x00000000
    ensures W(Block(), 7) == 0x00000000
    ensures W(Block(), 8) == 0x00000000
    ensures W(Block(), 9) == 0x00000000
    ensures W(Block(), 10) == 0x00000000
    ensures W(Block(), 11) == 0x00000000
    ensures W(Block(), 12) == 0x00000000
    ensures W(Block(), 13) == 0x00000000
    ensures W(Block(), 14) == 0x00000000
    ensures W(Block(), 15) == 0x00000018
  {
    hide Zeros;
  }

  lemma Words16()
    ensures W(Block(), 16) == 0xC2C4C700
    ensures W(Block(), 17) == 0x00000000
    ensures W(Block(), 18) == 0x00000030
    ensures W(Block(), 19) == 0x85898E01
    ensures W(Block(), 20) == 0x00000000
    ensures W(Block(), 21) == 0x00000060
    ensures W(Block(), 22) == 0x0B131C03
    ensures W(Block(), 23) == 0x00000030
    ensures W(Block(), 24) == 0x85898EC1
    ensures W(Block(), 25) == 0x16263806
    ensures W(Block(), 26) == 0x00000000
    ensures W(Block(), 27) == 0x00000180
    ensures W(Block(), 28) == 0x2C4C700C
    ensures W(Block(), 29) == 0x000000F0
    ensures W(Block(), 30) == 0x93AFB507
    ensures W(Block(), 31) == 0x5898E048
  {
    FirstWords();
    hide W, Block;
    NextWord(16, 0x00000000, 0x00000000, 0x00000000, 0x61626380);
    NextWord(17, 0x00000000, 0x00000000, 0x00000000, 0x00000000);
    NextWord(18, 0x00000018, 0x00000000, 0x00000000, 0x00000000);
    NextWord(19, 0xC2C4C700, 0x00000000, 0x00000000, 0x00000000);
    NextWord(20, 0x00000000, 0x00000000, 0x00000000, 0x00000000);
    NextWord(21, 0x00000030, 0x00000000, 0x00000000, 0x00000000);
    NextWord(22, 0x85898E01, 0x00000000, 0x00000000, 0x00000000);
    NextWord(23, 0x00000000, 0x00000018, 0x00000000, 0x00000000);
    NextWord(24, 0x00000060, 0xC2C4C700, 0x00000000, 0x00000000);
    NextWord(25, 0x0B131C03, 0x00000000, 0x00000000, 0x00000000);
    NextWord(26, 0x00000030, 0x00000030, 0x00000000, 0x00000000);
    NextWord(27, 0x85898EC1, 0x85898E01, 0x00000000, 0x00000000);
    NextWord(28, 0x16263806, 0x00000000, 0x00000000, 0x00000000);
    NextWord(29, 0x00000000, 0x00000060, 0x00000018, 0x00000000);
    NextWord(30, 0x00000180, 0x0B131C03, 0xC2C4C700, 0x00000000);
    NextWord(31, 0x2C4C700C, 0x00000030, 0x00000000, 0x00000018);
  }

  lemma Words32()
    ensures W(Block(), 32) == 0x8E9A9202
    ensures W(Block(), 33) == 0x00000600
    ensures W(Block(), 34) == 0xB131C0F0
    ensures W(Block(), 35) == 0x16263BC6
    ensures W(Block(), 36) == 0x4EBED41E
    ensures W(Block(), 37) == 0x626380A1
    ensures W(Block(), 38) == 0x16263806
    ensures W(Block(), 39) == 0x000018C0
    ensures W(Block(), 40) == 0xD2E138C4
    ensures W(Block(), 41) == 0x00000F00
    ensures W(Block(), 42) == 0x3AFB5079
    ensures W(Block(), 43) == 0x898E04E5
    ensures W(Block(), 44) == 0xE2BA3C2B
    ensures W(Block(), 45) == 0x000060C0
    ensures W(Block(), 46) == 0x053A37CD
    ensures W(Block(), 47) == 0x74458547
  {
    Words16();
    hide W, Block;
    NextWord(32, 0x000000F0, 0x85898EC1, 0x00000030, 0xC2C4C700);
    NextWord(33, 0x93AFB507, 0x16263806, 0x85898E01, 0x00000000);
    NextWord(34, 0x5898E048, 0x00000000, 0x00000000, 0x00000030);
    NextWord(35, 0x8E9A9202, 0x00000180, 0x00000060, 0x85898E01);
    NextWord(36, 0x00000600, 0x2C4C700C, 0x0B131C03, 0x00000000);
    NextWord(37, 0xB131C0F0, 0x000000F0, 0x00000030, 0x00000060);
    NextWord(38, 0x16263BC6, 0x93AFB507, 0x85898EC1, 0x0B131C03);
    NextWord(39, 0x4EBED41E, 0x5898E048, 0x16263806, 0x00000030);
    NextWord(40, 0x626380A1, 0x8E9A9202, 0x00000000, 0x85898EC1);
    NextWord(41, 0x16263806, 0x00000600, 0x00000180, 0x16263806);
    NextWord(42, 0x000018C0, 0xB131C0F0, 0x2C4C700C, 0x00000000);
    NextWord(43, 0xD2E138C4, 0x16263BC6, 0x000000F0, 0x00000180);
    NextWord(44, 0x00000F00, 0x4EBED41E, 0x93AFB507, 0x2C4C700C);
    NextWord(45, 0x3AFB5079, 0x626380A1, 0x5898E048, 0x000000F0);
    NextWord(46, 0x898E04E5, 0x16263806, 0x8E9A9202, 0x93AFB507);
    NextWord(47, 0xE2BA3C2B, 0x000018C0, 0x00000600, 0x5898E048);
  }

  lemma Words48()
    ensures W(Block(), 48) == 0xDA9415ED
    ensures W(Block(), 49) == 0x26380A16
    ensures W(Block(), 50) == 0x626383A1
    ensures W(Block(), 51) == 0x4EBF54DE
    ensures W(Block(), 52) == 0x3835B44B
    ensures W(Block(), 53) == 0x0000F600
    ensures W(Block(), 54) == 0x1E84C7A3
    ensures W(Block(), 55) == 0x98E04D98
    ensures W(Block(), 56) == 0x651D16A0
    ensures W(Block(), 57) == 0x62658CA1
    ensures W(Block(), 58) == 0x458544D6
    ensures W(Block(), 59) == 0x44584CB7
    ensures W(Block(), 60) == 0x7BA06619
    ensures W(Block(), 61) == 0x6380AEA2
    ensures W(Block(), 62) == 0x0AE55269
    ensures W(Block(), 63) == 0x627B49A1
  {
    Words32();
    hide W, Block;
    NextWord(48, 0x000060C0, 0xD2E138C4, 0xB131C0F0, 0x8E9A9202);
    NextWord(49, 0x053A37CD, 0x00000F00, 0x16263BC6, 0x00000600);
    NextWord(50, 0x74458547, 0x3AFB5079, 0x4EBED41E, 0xB131C0F0);
    NextWord(51, 0xDA9415ED, 0x898E04E5, 0x626380A1, 0x16263BC6);
    NextWord(52, 0x26380A16, 0xE2BA3C2B, 0x16263806, 0x4EBED41E);
    NextWord(53, 0x626383A1, 0x000060C0, 0x000018C0, 0x626380A1);
    NextWord(54, 0x4EBF54DE, 0x053A37CD, 0xD2E138C4, 0x16263806);
    NextWord(55, 0x3835B44B, 0x74458547, 0x00000F00, 0x000018C0);
    NextWord(56, 0x0000F600, 0xDA9415ED, 0x3AFB5079, 0xD2E138C4);
    NextWord(57, 0x1E84C7A3, 0x26380A16, 0x898E04E5, 0x00000F00);
    NextWord(58, 0x98E04D98, 0x626383A1, 0xE2BA3C2B, 0x3AFB5079);
    NextWord(59, 0x651D16A0, 0x4EBF54DE, 0x000060C0, 0x898E04E5);
    NextWord(60, 0x62658CA1, 0x3835B44B, 0x053A37CD, 0xE2BA3C2B);
    NextWord(61, 0x458544D6, 0x0000F600, 0x74458547, 0x000060C0);
    NextWord(62, 0x44584CB7, 0x1E84C7A3, 0xDA9415ED, 0x053A37CD);
    NextWord(63, 0x7BA06619, 0x98E04D98, 0x26380A16, 0x74458547);
  }

  lemma Words64()
    ensures W(Block(), 64) == 0x7CD45C9D
    ensures W(Block(), 65) == 0x000F0000
    ensures W(Block(), 66) == 0xFB50753A
    ensures W(Block(), 67) == 0xEC6765E8
    ensures W(Block(), 68) == 0xBA3C2BE2
    ensures W(Block(), 69) == 0x0060C000
    ensures W(Block(), 70) == 0x3A37CD05
    ensures W(Block(), 71) == 0x458546F4
    ensures W(Block(), 72) == 0xB8599DD6
    ensures W(Block(), 73) == 0x380A1A26
    ensures W(Block(), 74) == 0x01E02203
    ensures W(Block(), 75) == 0xE7CC3456
    ensures W(Block(), 76) == 0xE6E60B69
    ensures W(Block(), 77) == 0x00F60A00
    ensures W(Block(), 78) == 0x5795EF4F
    ensures W(Block(), 79) == 0x822E0879
  {
    Words48();
    hide W, Block;
    NextWord(64, 0x6380AEA2, 0x651D16A0, 0x626383A1, 0xDA9415ED);
    NextWord(65, 0x0AE55269, 0x62658CA1, 0x4EBF54DE, 0x26380A16);
    NextWord(66, 0x627B49A1, 0x458544D6, 0x3835B44B, 0x626383A1);
    NextWord(67, 0x7CD45C9D, 0x44584CB7, 0x0000F600, 0x4EBF54DE);
    NextWord(68, 0x000F0000, 0x7BA06619, 0x1E84C7A3, 0x3835B44B);
    NextWord(69, 0xFB50753A, 0x6380AEA2, 0x98E04D98, 0x0000F600);
    NextWord(70, 0xEC6765E8, 0x0AE55269, 0x651D16A0, 0x1E84C7A3);
    NextWord(71, 0xBA3C2BE2, 0x627B49A1, 0x62658CA1, 0x98E04D98);
    NextWord(72, 0x0060C000, 0x7CD45C9D, 0x458544D6, 0x651D16A0);
    NextWord(73, 0x3A37CD05, 0x000F0000, 0x44584CB7, 0x62658CA1);
    NextWord(74, 0x458546F4, 0xFB50753A, 0x7BA06619, 0x458544D6);
    NextWord(75, 0xB8599DD6, 0xEC6765E8, 0x6380AEA2, 0x44584CB7);
    NextWord(76, 0x380A1A26, 0xBA3C2BE2, 0x0AE55269, 0x7BA06619);
    NextWord(77, 0x01E02203, 0x0060C000, 0x627B49A1, 0x6380AEA2);
    NextWord(78, 0xE7CC3456, 0x3A37CD05, 0x7CD45C9D, 0x0AE55269);
    NextWord(79, 0xE6E60B69, 0x458546F4, 0x000F0000, 0x627B49A1);
  }

  lemma Rounds10()
    ensures Rounds(INITIAL, Block(), 10)
            == Words(0x8351F929, 0x4B6AE328, 0x27A301F5, 0x664F8C30, 0x0FF1F290)
  {
    FirstWords();
    RoundsNone(INITIAL, Block());
    hide W, Block, Rounds;
    NextState(0, INITIAL);
    NextState(1, Words(0x0116FC33, 0x67452301, 0x7BF36AE2, 0x98BADCFE, 0x10325476));
    NextState(2, Words(0x8990536D, 0x0116FC33, 0x59D148C0, 0x7BF36AE2, 0x98BADCFE));
    NextState(3, Words(0xA1390F08, 0x8990536D, 0xC045BF0C, 0x59D148C0, 0x7BF36AE2));
    NextState(4, Words(0xCDD8E11B, 0xA1390F08, 0x626414DB, 0xC045BF0C, 0x59D148C0));
    NextState(5, Words(0xCFD499DE, 0xCDD8E11B, 0x284E43C2, 0x626414DB, 0xC045BF0C));
    NextState(6, Words(0x3FC7CA40, 0xCFD499DE, 0xF3763846, 0x284E43C2, 0x626414DB));
    NextState(7, Words(0x993E30C1, 0x3FC7CA40, 0xB3F52677, 0xF3763846, 0x284E43C2));
    NextState(8, Words(0x9E8C07D4, 0x993E30C1, 0x0FF1F290, 0xB3F52677, 0xF3763846));
    NextState(9, Words(0x4B6AE328, 0x9E8C07D4, 0x664F8C30, 0x0FF1F290, 0xB3F52677));
  }

  lemma Rounds20()
    ensures Rounds(INITIAL, Block(), 20)
            == Words(0xFD9E1D7D, 0xDC64901D, 0x20AA99CA, 0xD3A49608, 0xC82F758B)
  {
    Rounds10();
    FirstWords();
    Words16();
    hide W, Block, Rounds;
    NextState(10, Words(0x8351F929, 0x4B6AE328, 0x27A301F5, 0x664F8C30, 0x0FF1F290));
    NextState(11, Words(0xFBDA9E89, 0x8351F929, 0x12DAB8CA, 0x27A301F5, 0x664F8C30));
    NextState(12, Words(0x63188FE4, 0xFBDA9E89, 0x60D47E4A, 0x12DAB8CA, 0x27A301F5));
    NextState(13, Words(0x4607B664, 0x63188FE4, 0x7EF6A7A2, 0x60D47E4A, 0x12DAB8CA));
    NextState(14, Words(0x9128F695, 0x4607B664, 0x18C623F9, 0x7EF6A7A2, 0x60D47E4A));
    NextState(15, Words(0x196BEE77, 0x9128F695, 0x1181ED99, 0x18C623F9, 0x7EF6A7A2));
    NextState(16, Words(0x20BDD62F, 0x196BEE77, 0x644A3DA5, 0x1181ED99, 0x18C623F9));
    NextState(17, Words(0x4E925823, 0x20BDD62F, 0xC65AFB9D, 0x644A3DA5, 0x1181ED99));
    NextState(18, Words(0x82AA6728, 0x4E925823, 0xC82F758B, 0xC65AFB9D, 0x644A3DA5));
    NextState(19, Words(0xDC64901D, 0x82AA6728, 0xD3A49608, 0xC82F758B, 0xC65AFB9D));
  }

  lemma Rounds30()
    ensures Rounds(INITIAL, Block(), 30)
            == Words(0xC5FBAF5D, 0x8370B52E, 0xD2AA1365, 0x6F8D7EF5, 0x12104EE9)
  {
    Rounds20();
    Words16();
    hide W, Block, Rounds;
    NextState(20, Words(0xFD9E1D7D, 0xDC64901D, 0x20AA99CA, 0xD3A49608, 0xC82F758B));
    NextState(21, Words(0x1A37B0CA, 0xFD9E1D7D, 0x77192407, 0x20AA99CA, 0xD3A49608));
    NextState(22, Words(0x33A23BFC, 0x1A37B0CA, 0x7F67875F, 0x77192407, 0x20AA99CA));
    NextState(23, Words(0x21283486, 0x33A23BFC, 0x868DEC32, 0x7F67875F, 0x77192407));
    NextState(24, Words(0xD541F12D, 0x21283486, 0x0CE88EFF, 0x868DEC32, 0x7F67875F));
    NextState(25, Words(0xC7567DC6, 0xD541F12D, 0x884A0D21, 0x0CE88EFF, 0x868DEC32));
    NextState(26, Words(0x48413BA4, 0xC7567DC6, 0x75507C4B, 0x884A0D21, 0x0CE88EFF));
    NextState(27, Words(0xBE35FBD5, 0x48413BA4, 0xB1D59F71, 0x75507C4B, 0x884A0D21));
    NextState(28, Words(0x4AA84D97, 0xBE35FBD5, 0x12104EE9, 0xB1D59F71, 0x75507C4B));
    NextState(29, Words(0x8370B52E, 0x4AA84D97, 0x6F8D7EF5, 0x12104EE9, 0xB1D59F71));
  }

  lemma Rounds40()
    ensures Rounds(INITIAL, Block(), 40)
            == Words(0x32DE1CBA, 0x4C986405, 0xF718E5CF, 0x03D447F6, 0xF72EEC32)
  {
    Rounds30();
    Words16();
    Words32();
    hide W, Block, Rounds;
    NextState(30, Words(0xC5FBAF5D, 0x8370B52E, 0xD2AA1365, 0x6F8D7EF5, 0x12104EE9));
    NextState(31, Words(0x1267B407, 0xC5FBAF5D, 0xA0DC2D4B, 0xD2AA1365, 0x6F8D7EF5));
    NextState(32, Words(0x3B845D33, 0x1267B407, 0x717EEBD7, 0xA0DC2D4B, 0xD2AA1365));
    NextState(33, Words(0x046FAA0A, 0x3B845D33, 0xC499ED01, 0x717EEBD7, 0xA0DC2D4B));
    NextState(34, Words(0x2C0EBC11, 0x046FAA0A, 0xCEE1174C, 0xC499ED01, 0x717EEBD7));
    NextState(35, Words(0x21796AD4, 0x2C0EBC11, 0x811BEA82, 0xCEE1174C, 0xC499ED01));
    NextState(36, Words(0xDCBBB0CB, 0x21796AD4, 0x4B03AF04, 0x811BEA82, 0xCEE1174C));
    NextState(37, Words(0x0F511FD8, 0xDCBBB0CB, 0x085E5AB5, 0x4B03AF04, 0x811BEA82));
    NextState(38, Words(0xDC63973F, 0x0F511FD8, 0xF72EEC32, 0x085E5AB5, 0x4B03AF04));
    NextState(39, Words(0x4C986405, 0xDC63973F, 0x03D447F6, 0xF72EEC32, 0x085E5AB5));
  }

  lemma Rounds50()
    ensures Rounds(INITIAL, Block(), 50)
            == Words(0x120731C5, 0xBAF39337, 0xAFAB40B2, 0x2806E11B, 0x8714787C)
  {
    Rounds40();
    Words32();
    Words48();
    hide W, Block, Rounds;
    NextState(40, Words(0x32DE1CBA, 0x4C986405, 0xF718E5CF, 0x03D447F6, 0xF72EEC32));
    NextState(41, Words(0xFC87DEDF, 0x32DE1CBA, 0x53261901, 0xF718E5CF, 0x03D447F6));
    NextState(42, Words(0x970A0D5C, 0xFC87DEDF, 0x8CB7872E, 0x53261901, 0xF718E5CF));
    NextState(43, Words(0x7F193DC5, 0x970A0D5C, 0xFF21F7B7, 0x8CB7872E, 0x53261901));
    NextState(44, Words(0xEE1B1AAF, 0x7F193DC5, 0x25C28357, 0xFF21F7B7, 0x8CB7872E));
    NextState(45, Words(0x40F28E09, 0xEE1B1AAF, 0x5FC64F71, 0x25C28357, 0xFF21F7B7));
    NextState(46, Words(0x1C51E1F2, 0x40F28E09, 0xFB86C6AB, 0x5FC64F71, 0x25C28357));
    NextState(47, Words(0xA01B846C, 0x1C51E1F2, 0x503CA382, 0xFB86C6AB, 0x5FC64F71));
    NextState(48, Words(0xBEAD02CA, 0xA01B846C, 0x8714787C, 0x503CA382, 0xFB86C6AB));
    NextState(49, Words(0xBAF39337, 0xBEAD02CA, 0x2806E11B, 0x8714787C, 0x503CA382));
  }

  lemma Rounds60()
    ensures Rounds(INITIAL, Block(), 60)
            == Words(0x3F52DE5A, 0x09D785FD, 0x3498BFD4, 0xF211824F, 0xD79915AB)
  {
    Rounds50();
    Words48();
    hide W, Block, Rounds;
    NextState(50, Words(0x120731C5, 0xBAF39337, 0xAFAB40B2, 0x2806E11B, 0x8714787C));
    NextState(51, Words(0x641DB2CE, 0x120731C5, 0xEEBCE4CD, 0xAFAB40B2, 0x2806E11B));
    NextState(52, Words(0x3847AD66, 0x641DB2CE, 0x4481CC71, 0xEEBCE4CD, 0xAFAB40B2));
    NextState(53, Words(0xE490436D, 0x3847AD66, 0x99076CB3, 0x4481CC71, 0xEEBCE4CD));
    NextState(54, Words(0x27E9F1D8, 0xE490436D, 0x8E11EB59, 0x99076CB3, 0x4481CC71));
    NextState(55, Words(0x7B71F76D, 0x27E9F1D8, 0x792410DB, 0x8E11EB59, 0x99076CB3));
    NextState(56, Words(0x5E6456AF, 0x7B71F76D, 0x09FA7C76, 0x792410DB, 0x8E11EB59));
    NextState(57, Words(0xC846093F, 0x5E6456AF, 0x5EDC7DDB, 0x09FA7C76, 0x792410DB));
    NextState(58, Words(0xD262FF50, 0xC846093F, 0xD79915AB, 0x5EDC7DDB, 0x09FA7C76));
    NextState(59, Words(0x09D785FD, 0xD262FF50, 0xF211824F, 0xD79915AB, 0x5EDC7DDB));
  }

  lemma Rounds70()
    ensures Rounds(INITIAL, Block(), 70)
            == Words(0x3F2588C2, 0x497093C0, 0xDE37534A, 0x030F7CAD, 0x4405957E)
  {
    Rounds60();
    Words48();
    Words64();
    hide W, Block, Rounds;
    NextState(60, Words(0x3F52DE5A, 0x09D785FD, 0x3498BFD4, 0xF211824F, 0xD79915AB));
    NextState(61, Words(0xD756C147, 0x3F52DE5A, 0x4275E17F, 0x3498BFD4, 0xF211824F));
    NextState(62, Words(0x548C9CB2, 0xD756C147, 0x8FD4B796, 0x4275E17F, 0x3498BFD4));
    NextState(63, Words(0xB66C020B, 0x548C9CB2, 0xF5D5B051, 0x8FD4B796, 0x4275E17F));
    NextState(64, Words(0x6B61C9E1, 0xB66C020B, 0x9523272C, 0xF5D5B051, 0x8FD4B796));
    NextState(65, Words(0x19DFA7AC, 0x6B61C9E1, 0xED9B0082, 0x9523272C, 0xF5D5B051));
    NextState(66, Words(0x101655F9, 0x19DFA7AC, 0x5AD87278, 0xED9B0082, 0x9523272C));
    NextState(67, Words(0x0C3DF2B4, 0x101655F9, 0x0677E9EB, 0x5AD87278, 0xED9B0082));
    NextState(68, Words(0x78DD4D2B, 0x0C3DF2B4, 0x4405957E, 0x0677E9EB, 0x5AD87278));
    NextState(69, Words(0x497093C0, 0x78DD4D2B, 0x030F7CAD, 0x4405957E, 0x0677E9EB));
  }

  lemma Rounds80()
    ensures Rounds(INITIAL, Block(), 80)
            == Words(0x42541B35, 0x5738D5E1, 0x21834873, 0x681E6DF6, 0xD8FDF6AD)
  {
    Rounds70();
    Words64();
    hide W, Block, Rounds;
    NextState(70, Words(0x3F2588C2, 0x497093C0, 0xDE37534A, 0x030F7CAD, 0x4405957E));
    NextState(71, Words(0xC199F8C7, 0x3F2588C2, 0x125C24F0, 0xDE37534A, 0x030F7CAD));
    NextState(72, Words(0x39859DE7, 0xC199F8C7, 0x8FC96230, 0x125C24F0, 0xDE37534A));
    NextState(73, Words(0xEDB42DE4, 0x39859DE7, 0xF0667E31, 0x8FC96230, 0x125C24F0));
    NextState(74, Words(0x11793F6F, 0xEDB42DE4, 0xCE616779, 0xF0667E31, 0x8FC96230));
    NextState(75, Words(0x5EE76897, 0x11793F6F, 0x3B6D0B79, 0xCE616779, 0xF0667E31));
    NextState(76, Words(0x63F7DAB7, 0x5EE76897, 0xC45E4FDB, 0x3B6D0B79, 0xCE616779));
    NextState(77, Words(0xA079B7D9, 0x63F7DAB7, 0xD7B9DA25, 0xC45E4FDB, 0x3B6D0B79));
    NextState(78, Words(0x860D21CC, 0xA079B7D9, 0xD8FDF6AD, 0xD7B9DA25, 0xC45E4FDB));
    NextState(79, Words(0x5738D5E1, 0x860D21CC, 0x681E6DF6, 0xD8FDF6AD, 0xD7B9DA25));
  }

  lemma Compressed()
    ensures HashBlocks(INITIAL, Block()) == Words(0xA9993E36, 0x4706816A, 0xBA3E2571, 0x7850C26C, 0x9CD0D89D)
  {
    hide Block, HashBlocks, Compress, Rounds;
    Rounds80();
    HashOne(INITIAL, Block());
    CompressIs(INITIAL, Block());
  }

  lemma Written()
    ensures Octets(Words(0xA9993E36, 0x4706816A, 0xBA3E2571, 0x7850C26C, 0x9CD0D89D))
            == [0xA9, 0x99, 0x3E, 0x36, 0x47, 0x06, 0x81, 0x6A, 0xBA, 0x3E,
                0x25, 0x71, 0x78, 0x50, 0xC2, 0x6C, 0x9C, 0xD0, 0xD8, 0x9D]
  {
  }

  /** The digest the RFC gives. */
  lemma DigestOfAbc()
    ensures Digest(ABC) == [0xA9, 0x99, 0x3E, 0x36, 0x47, 0x06, 0x81, 0x6A, 0xBA, 0x3E,
                            0x25, 0x71, 0x78, 0x50, 0xC2, 0x6C, 0x9C, 0xD0, 0xD8, 0x9D]
  {
    BlockIsPadded();
    Compressed();
    Written();
    hide Block, HashBlocks, Padded, Octets;
  }
}
