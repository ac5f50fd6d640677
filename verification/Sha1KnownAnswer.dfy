/** A known answer: the digest of "abc", computed block word by word and round by round. */
module Sha1KnownAnswer {
  import opened Sha1

  const ABC: seq<byte> := [0x61, 0x62, 0x63]

  /** The one block of the padded message. */
  const BLOCK: Block := ABC + [0x80] + Zeros(52) + [0, 0, 0, 0, 0, 0, 0, 24]

  const FIRST := Vars(IV[0], IV[1], IV[2], IV[3], IV[4])

  lemma PaddedABC()
    ensures Padded(ABC) == BLOCK
  {
    PaddedLength(3);
    assert PadZeros(3) == 52;
    BytesOf24();
  }

  lemma BytesOf24()
    ensures BigEndian(24, 8) == [0, 0, 0, 0, 0, 0, 0, 24]
  {
    BigEndianZero(7);
    assert BigEndian(24, 8) == BigEndian(0, 7) + [24];
  }

  lemma {:induction false} BigEndianZero(k: nat)
    ensures BigEndian(0, k) == Zeros(k)
  {
    if k > 0 { BigEndianZero(k - 1); }
  }

  lemma {:induction false} ZerosAt(n: nat, i: nat)
    requires i < n
    ensures Zeros(n)[i] == 0
  {
    if i < n - 1 { ZerosAt(n - 1, i); }
  }

  lemma BlockAt(i: nat)
    requires i < 64
    ensures BLOCK[i] ==
      if i == 0 then 0x61 else if i == 1 then 0x62 else if i == 2 then 0x63 else if i == 3 then 0x80 else if i == 63 then 24 else 0
  {
    hide Zeros;
    if 4 <= i < 56 {
      ZerosAt(52, i - 4);
      assert BLOCK[i] == Zeros(52)[i - 4];
    }
  }

  lemma BytesAt(t: nat)
    requires t < 16
    ensures BLOCK[4 * t..4 * t + 4] == if t == 0 then [0x61, 0x62, 0x63, 0x80] else if t == 15 then [0, 0, 0, 24] else [0, 0, 0, 0]
  {
    BlockAt(4 * t);
    BlockAt(4 * t + 1);
    BlockAt(4 * t + 2);
    BlockAt(4 * t + 3);
    hide Zeros, BLOCK;
    var b := BLOCK[4 * t..4 * t + 4];
    assert |b| == 4 && b[0] == BLOCK[4 * t] && b[1] == BLOCK[4 * t + 1] && b[2] == BLOCK[4 * t + 2] && b[3] == BLOCK[4 * t + 3];
  }

  lemma ValueOfFour(a: byte, b: byte, c: byte, d: byte)
    ensures ValueOf([a, b, c, d]) == 0x1000000 * (a as int) + 0x10000 * (b as int) + 0x100 * (c as int) + d
  {
    assert [a, b, c, d][..3] == [a, b, c] && [a, b, c][..2] == [a, b] && [a, b][..1] == [a] && [a][..0] == [];
    assert ValueOf([a]) == a;
    assert ValueOf([a, b]) == 0x100 * (a as int) + b;
    assert ValueOf([a, b, c]) == 0x10000 * (a as int) + 0x100 * (b as int) + c;
  }

  lemma BackAndForth(w: bv32)
    ensures (w as int) as bv32 == w
  {
  }

  lemma WordIs(b: seq<byte>, w: bv32)
    requires |b| == 4 && ValueOf(b) == w as int
    ensures Word(b) == w
  {
    hide Word, ValueOf;
    WordValue(b);
    BackAndForth(w);
  }

  lemma WordABC()
    ensures Word([0x61, 0x62, 0x63, 0x80]) == 0x61626380
  {
    hide Word, ValueOf;
    ValueOfFour(0x61, 0x62, 0x63, 0x80);
    WordIs([0x61, 0x62, 0x63, 0x80], 0x61626380);
  }

  lemma WordLength()
    ensures Word([0, 0, 0, 24]) == 24
  {
    hide Word, ValueOf;
    ValueOfFour(0, 0, 0, 24);
    WordIs([0, 0, 0, 24], 24);
  }

  lemma WordZero()
    ensures Word([0, 0, 0, 0]) == 0
  {
    hide Word, ValueOf;
    ValueOfFour(0, 0, 0, 0);
    WordIs([0, 0, 0, 0], 0);
  }

  /** The first sixteen words. */
  lemma FirstWords()
    ensures W(BLOCK, 0) == 0x61626380 && W(BLOCK, 15) == 24 && forall t :: 0 < t < 15 ==> W(BLOCK, t) == 0
  {
    hide Zeros, Word, BLOCK;
    WordABC();
    WordLength();
    WordZero();
    BytesAt(0);
    BytesAt(15);
    forall t | 0 < t < 15 ensures W(BLOCK, t) == 0 { BytesAt(t); }
  }

  lemma NextWord(t: nat, a: bv32, b: bv32, c: bv32, d: bv32, w: bv32)
    requires t >= 16 && W(BLOCK, t - 3) == a && W(BLOCK, t - 8) == b && W(BLOCK, t - 14) == c && W(BLOCK, t - 16) == d
    requires Rotl(Xor4(a, b, c, d), 1) == w
    ensures W(BLOCK, t) == w
  {
    hide Rotl, Xor4;
  }

  lemma NextRound(t: nat, w: bv32, x: Vars)
    requires W(BLOCK, t) == w && Round(Rounds(FIRST, BLOCK, t), t, w) == x
    ensures Rounds(FIRST, BLOCK, t + 1) == x
  {
    hide W, Round;
  }

  lemma Words16()
    ensures W(BLOCK, 16) == 0xC2C4C700 && W(BLOCK, 17) == 0x00000000 && W(BLOCK, 18) == 0x00000030 && W(BLOCK, 19) == 0x85898E01
    ensures W(BLOCK, 20) == 0x00000000 && W(BLOCK, 21) == 0x00000060 && W(BLOCK, 22) == 0x0B131C03 && W(BLOCK, 23) == 0x00000030
    ensures W(BLOCK, 24) == 0x85898EC1 && W(BLOCK, 25) == 0x16263806 && W(BLOCK, 26) == 0x00000000 && W(BLOCK, 27) == 0x00000180
    ensures W(BLOCK, 28) == 0x2C4C700C && W(BLOCK, 29) == 0x000000F0 && W(BLOCK, 30) == 0x93AFB507 && W(BLOCK, 31) == 0x5898E048
  {
    hide W;
    FirstWords();
    NextWord(16, 0x00000000, 0x00000000, 0x00000000, 0x61626380, 0xC2C4C700);
    NextWord(17, 0x00000000, 0x00000000, 0x00000000, 0x00000000, 0x00000000);
    NextWord(18, 0x00000018, 0x00000000, 0x00000000, 0x00000000, 0x00000030);
    NextWord(19, 0xC2C4C700, 0x00000000, 0x00000000, 0x00000000, 0x85898E01);
    NextWord(20, 0x00000000, 0x00000000, 0x00000000, 0x00000000, 0x00000000);
    NextWord(21, 0x00000030, 0x00000000, 0x00000000, 0x00000000, 0x00000060);
    NextWord(22, 0x85898E01, 0x00000000, 0x00000000, 0x00000000, 0x0B131C03);
    NextWord(23, 0x00000000, 0x00000018, 0x00000000, 0x00000000, 0x00000030);
    NextWord(24, 0x00000060, 0xC2C4C700, 0x00000000, 0x00000000, 0x85898EC1);
    NextWord(25, 0x0B131C03, 0x00000000, 0x00000000, 0x00000000, 0x16263806);
    NextWord(26, 0x00000030, 0x00000030, 0x00000000, 0x00000000, 0x00000000);
    NextWord(27, 0x85898EC1, 0x85898E01, 0x00000000, 0x00000000, 0x00000180);
    NextWord(28, 0x16263806, 0x00000000, 0x00000000, 0x00000000, 0x2C4C700C);
    NextWord(29, 0x00000000, 0x00000060, 0x00000018, 0x00000000, 0x000000F0);
    NextWord(30, 0x00000180, 0x0B131C03, 0xC2C4C700, 0x00000000, 0x93AFB507);
    NextWord(31, 0x2C4C700C, 0x00000030, 0x00000000, 0x00000018, 0x5898E048);
  }

  lemma Words32()
    ensures W(BLOCK, 32) == 0x8E9A9202 && W(BLOCK, 33) == 0x00000600 && W(BLOCK, 34) == 0xB131C0F0 && W(BLOCK, 35) == 0x16263BC6
    ensures W(BLOCK, 36) == 0x4EBED41E && W(BLOCK, 37) == 0x626380A1 && W(BLOCK, 38) == 0x16263806 && W(BLOCK, 39) == 0x000018C0
    ensures W(BLOCK, 40) == 0xD2E138C4 && W(BLOCK, 41) == 0x00000F00 && W(BLOCK, 42) == 0x3AFB5079 && W(BLOCK, 43) == 0x898E04E5
    ensures W(BLOCK, 44) == 0xE2BA3C2B && W(BLOCK, 45) == 0x000060C0 && W(BLOCK, 46) == 0x053A37CD && W(BLOCK, 47) == 0x74458547
  {
    hide W;
    Words16();
    NextWord(32, 0x000000F0, 0x85898EC1, 0x00000030, 0xC2C4C700, 0x8E9A9202);
    NextWord(33, 0x93AFB507, 0x16263806, 0x85898E01, 0x00000000, 0x00000600);
    NextWord(34, 0x5898E048, 0x00000000, 0x00000000, 0x00000030, 0xB131C0F0);
    NextWord(35, 0x8E9A9202, 0x00000180, 0x00000060, 0x85898E01, 0x16263BC6);
    NextWord(36, 0x00000600, 0x2C4C700C, 0x0B131C03, 0x00000000, 0x4EBED41E);
    NextWord(37, 0xB131C0F0, 0x000000F0, 0x00000030, 0x00000060, 0x626380A1);
    NextWord(38, 0x16263BC6, 0x93AFB507, 0x85898EC1, 0x0B131C03, 0x16263806);
    NextWord(39, 0x4EBED41E, 0x5898E048, 0x16263806, 0x00000030, 0x000018C0);
    NextWord(40, 0x626380A1, 0x8E9A9202, 0x00000000, 0x85898EC1, 0xD2E138C4);
    NextWord(41, 0x16263806, 0x00000600, 0x00000180, 0x16263806, 0x00000F00);
    NextWord(42, 0x000018C0, 0xB131C0F0, 0x2C4C700C, 0x00000000, 0x3AFB5079);
    NextWord(43, 0xD2E138C4, 0x16263BC6, 0x000000F0, 0x00000180, 0x898E04E5);
    NextWord(44, 0x00000F00, 0x4EBED41E, 0x93AFB507, 0x2C4C700C, 0xE2BA3C2B);
    NextWord(45, 0x3AFB5079, 0x626380A1, 0x5898E048, 0x000000F0, 0x000060C0);
    NextWord(46, 0x898E04E5, 0x16263806, 0x8E9A9202, 0x93AFB507, 0x053A37CD);
    NextWord(47, 0xE2BA3C2B, 0x000018C0, 0x00000600, 0x5898E048, 0x74458547);
  }

  lemma Words48()
    ensures W(BLOCK, 48) == 0xDA9415ED && W(BLOCK, 49) == 0x26380A16 && W(BLOCK, 50) == 0x626383A1 && W(BLOCK, 51) == 0x4EBF54DE
    ensures W(BLOCK, 52) == 0x3835B44B && W(BLOCK, 53) == 0x0000F600 && W(BLOCK, 54) == 0x1E84C7A3 && W(BLOCK, 55) == 0x98E04D98
    ensures W(BLOCK, 56) == 0x651D16A0 && W(BLOCK, 57) == 0x62658CA1 && W(BLOCK, 58) == 0x458544D6 && W(BLOCK, 59) == 0x44584CB7
    ensures W(BLOCK, 60) == 0x7BA06619 && W(BLOCK, 61) == 0x6380AEA2 && W(BLOCK, 62) == 0x0AE55269 && W(BLOCK, 63) == 0x627B49A1
  {
    hide W;
    Words32();
    NextWord(48, 0x000060C0, 0xD2E138C4, 0xB131C0F0, 0x8E9A9202, 0xDA9415ED);
    NextWord(49, 0x053A37CD, 0x00000F00, 0x16263BC6, 0x00000600, 0x26380A16);
    NextWord(50, 0x74458547, 0x3AFB5079, 0x4EBED41E, 0xB131C0F0, 0x626383A1);
    NextWord(51, 0xDA9415ED, 0x898E04E5, 0x626380A1, 0x16263BC6, 0x4EBF54DE);
    NextWord(52, 0x26380A16, 0xE2BA3C2B, 0x16263806, 0x4EBED41E, 0x3835B44B);
    NextWord(53, 0x626383A1, 0x000060C0, 0x000018C0, 0x626380A1, 0x0000F600);
    NextWord(54, 0x4EBF54DE, 0x053A37CD, 0xD2E138C4, 0x16263806, 0x1E84C7A3);
    NextWord(55, 0x3835B44B, 0x74458547, 0x00000F00, 0x000018C0, 0x98E04D98);
    NextWord(56, 0x0000F600, 0xDA9415ED, 0x3AFB5079, 0xD2E138C4, 0x651D16A0);
    NextWord(57, 0x1E84C7A3, 0x26380A16, 0x898E04E5, 0x00000F00, 0x62658CA1);
    NextWord(58, 0x98E04D98, 0x626383A1, 0xE2BA3C2B, 0x3AFB5079, 0x458544D6);
    NextWord(59, 0x651D16A0, 0x4EBF54DE, 0x000060C0, 0x898E04E5, 0x44584CB7);
    NextWord(60, 0x62658CA1, 0x3835B44B, 0x053A37CD, 0xE2BA3C2B, 0x7BA06619);
    NextWord(61, 0x458544D6, 0x0000F600, 0x74458547, 0x000060C0, 0x6380AEA2);
    NextWord(62, 0x44584CB7, 0x1E84C7A3, 0xDA9415ED, 0x053A37CD, 0x0AE55269);
    NextWord(63, 0x7BA06619, 0x98E04D98, 0x26380A16, 0x74458547, 0x627B49A1);
  }

  lemma Words64()
    ensures W(BLOCK, 64) == 0x7CD45C9D && W(BLOCK, 65) == 0x000F0000 && W(BLOCK, 66) == 0xFB50753A && W(BLOCK, 67) == 0xEC6765E8
    ensures W(BLOCK, 68) == 0xBA3C2BE2 && W(BLOCK, 69) == 0x0060C000 && W(BLOCK, 70) == 0x3A37CD05 && W(BLOCK, 71) == 0x458546F4
    ensures W(BLOCK, 72) == 0xB8599DD6 && W(BLOCK, 73) == 0x380A1A26 && W(BLOCK, 74) == 0x01E02203 && W(BLOCK, 75) == 0xE7CC3456
    ensures W(BLOCK, 76) == 0xE6E60B69 && W(BLOCK, 77) == 0x00F60A00 && W(BLOCK, 78) == 0x5795EF4F && W(BLOCK, 79) == 0x822E0879
  {
    hide W;
    Words48();
    NextWord(64, 0x6380AEA2, 0x651D16A0, 0x626383A1, 0xDA9415ED, 0x7CD45C9D);
    NextWord(65, 0x0AE55269, 0x62658CA1, 0x4EBF54DE, 0x26380A16, 0x000F0000);
    NextWord(66, 0x627B49A1, 0x458544D6, 0x3835B44B, 0x626383A1, 0xFB50753A);
    NextWord(67, 0x7CD45C9D, 0x44584CB7, 0x0000F600, 0x4EBF54DE, 0xEC6765E8);
    NextWord(68, 0x000F0000, 0x7BA06619, 0x1E84C7A3, 0x3835B44B, 0xBA3C2BE2);
    NextWord(69, 0xFB50753A, 0x6380AEA2, 0x98E04D98, 0x0000F600, 0x0060C000);
    NextWord(70, 0xEC6765E8, 0x0AE55269, 0x651D16A0, 0x1E84C7A3, 0x3A37CD05);
    NextWord(71, 0xBA3C2BE2, 0x627B49A1, 0x62658CA1, 0x98E04D98, 0x458546F4);
    NextWord(72, 0x0060C000, 0x7CD45C9D, 0x458544D6, 0x651D16A0, 0xB8599DD6);
    NextWord(73, 0x3A37CD05, 0x000F0000, 0x44584CB7, 0x62658CA1, 0x380A1A26);
    NextWord(74, 0x458546F4, 0xFB50753A, 0x7BA06619, 0x458544D6, 0x01E02203);
    NextWord(75, 0xB8599DD6, 0xEC6765E8, 0x6380AEA2, 0x44584CB7, 0xE7CC3456);
    NextWord(76, 0x380A1A26, 0xBA3C2BE2, 0x0AE55269, 0x7BA06619, 0xE6E60B69);
    NextWord(77, 0x01E02203, 0x0060C000, 0x627B49A1, 0x6380AEA2, 0x00F60A00);
    NextWord(78, 0xE7CC3456, 0x3A37CD05, 0x7CD45C9D, 0x0AE55269, 0x5795EF4F);
    NextWord(79, 0xE6E60B69, 0x458546F4, 0x000F0000, 0x627B49A1, 0x822E0879);
  }

  lemma Rounds10()
    ensures Rounds(FIRST, BLOCK, 10) == Vars(0x8351F929, 0x4B6AE328, 0x27A301F5, 0x664F8C30, 0x0FF1F290)
  {
    hide Rounds, W;
    NoRounds();
    FirstWords();
    NextRound(0, 0x61626380, Vars(0x0116FC33, 0x67452301, 0x7BF36AE2, 0x98BADCFE, 0x10325476));
    NextRound(1, 0x00000000, Vars(0x8990536D, 0x0116FC33, 0x59D148C0, 0x7BF36AE2, 0x98BADCFE));
    NextRound(2, 0x00000000, Vars(0xA1390F08, 0x8990536D, 0xC045BF0C, 0x59D148C0, 0x7BF36AE2));
    NextRound(3, 0x00000000, Vars(0xCDD8E11B, 0xA1390F08, 0x626414DB, 0xC045BF0C, 0x59D148C0));
    NextRound(4, 0x00000000, Vars(0xCFD499DE, 0xCDD8E11B, 0x284E43C2, 0x626414DB, 0xC045BF0C));
    NextRound(5, 0x00000000, Vars(0x3FC7CA40, 0xCFD499DE, 0xF3763846, 0x284E43C2, 0x626414DB));
    NextRound(6, 0x00000000, Vars(0x993E30C1, 0x3FC7CA40, 0xB3F52677, 0xF3763846, 0x284E43C2));
    NextRound(7, 0x00000000, Vars(0x9E8C07D4, 0x993E30C1, 0x0FF1F290, 0xB3F52677, 0xF3763846));
    NextRound(8, 0x00000000, Vars(0x4B6AE328, 0x9E8C07D4, 0x664F8C30, 0x0FF1F290, 0xB3F52677));
    NextRound(9, 0x00000000, Vars(0x8351F929, 0x4B6AE328, 0x27A301F5, 0x664F8C30, 0x0FF1F290));
  }

  lemma Rounds20()
    ensures Rounds(FIRST, BLOCK, 20) == Vars(0xFD9E1D7D, 0xDC64901D, 0x20AA99CA, 0xD3A49608, 0xC82F758B)
  {
    hide Rounds, W;
    Rounds10();
    FirstWords();
    Words16();
    NextRound(10, 0x00000000, Vars(0xFBDA9E89, 0x8351F929, 0x12DAB8CA, 0x27A301F5, 0x664F8C30));
    NextRound(11, 0x00000000, Vars(0x63188FE4, 0xFBDA9E89, 0x60D47E4A, 0x12DAB8CA, 0x27A301F5));
    NextRound(12, 0x00000000, Vars(0x4607B664, 0x63188FE4, 0x7EF6A7A2, 0x60D47E4A, 0x12DAB8CA));
    NextRound(13, 0x00000000, Vars(0x9128F695, 0x4607B664, 0x18C623F9, 0x7EF6A7A2, 0x60D47E4A));
    NextRound(14, 0x00000000, Vars(0x196BEE77, 0x9128F695, 0x1181ED99, 0x18C623F9, 0x7EF6A7A2));
    NextRound(15, 0x00000018, Vars(0x20BDD62F, 0x196BEE77, 0x644A3DA5, 0x1181ED99, 0x18C623F9));
    NextRound(16, 0xC2C4C700, Vars(0x4E925823, 0x20BDD62F, 0xC65AFB9D, 0x644A3DA5, 0x1181ED99));
    NextRound(17, 0x00000000, Vars(0x82AA6728, 0x4E925823, 0xC82F758B, 0xC65AFB9D, 0x644A3DA5));
    NextRound(18, 0x00000030, Vars(0xDC64901D, 0x82AA6728, 0xD3A49608, 0xC82F758B, 0xC65AFB9D));
    NextRound(19, 0x85898E01, Vars(0xFD9E1D7D, 0xDC64901D, 0x20AA99CA, 0xD3A49608, 0xC82F758B));
  }

  lemma Rounds30()
    ensures Rounds(FIRST, BLOCK, 30) == Vars(0xC5FBAF5D, 0x8370B52E, 0xD2AA1365, 0x6F8D7EF5, 0x12104EE9)
  {
    hide Rounds, W;
    Rounds20();
    Words16();
    NextRound(20, 0x00000000, Vars(0x1A37B0CA, 0xFD9E1D7D, 0x77192407, 0x20AA99CA, 0xD3A49608));
    NextRound(21, 0x00000060, Vars(0x33A23BFC, 0x1A37B0CA, 0x7F67875F, 0x77192407, 0x20AA99CA));
    NextRound(22, 0x0B131C03, Vars(0x21283486, 0x33A23BFC, 0x868DEC32, 0x7F67875F, 0x77192407));
    NextRound(23, 0x00000030, Vars(0xD541F12D, 0x21283486, 0x0CE88EFF, 0x868DEC32, 0x7F67875F));
    NextRound(24, 0x85898EC1, Vars(0xC7567DC6, 0xD541F12D, 0x884A0D21, 0x0CE88EFF, 0x868DEC32));
    NextRound(25, 0x16263806, Vars(0x48413BA4, 0xC7567DC6, 0x75507C4B, 0x884A0D21, 0x0CE88EFF));
    NextRound(26, 0x00000000, Vars(0xBE35FBD5, 0x48413BA4, 0xB1D59F71, 0x75507C4B, 0x884A0D21));
    NextRound(27, 0x00000180, Vars(0x4AA84D97, 0xBE35FBD5, 0x12104EE9, 0xB1D59F71, 0x75507C4B));
    NextRound(28, 0x2C4C700C, Vars(0x8370B52E, 0x4AA84D97, 0x6F8D7EF5, 0x12104EE9, 0xB1D59F71));
    NextRound(29, 0x000000F0, Vars(0xC5FBAF5D, 0x8370B52E, 0xD2AA1365, 0x6F8D7EF5, 0x12104EE9));
  }

  lemma Rounds40()
    ensures Rounds(FIRST, BLOCK, 40) == Vars(0x32DE1CBA, 0x4C986405, 0xF718E5CF, 0x03D447F6, 0xF72EEC32)
  {
    hide Rounds, W;
    Rounds30();
    Words16();
    Words32();
    NextRound(30, 0x93AFB507, Vars(0x1267B407, 0xC5FBAF5D, 0xA0DC2D4B, 0xD2AA1365, 0x6F8D7EF5));
    NextRound(31, 0x5898E048, Vars(0x3B845D33, 0x1267B407, 0x717EEBD7, 0xA0DC2D4B, 0xD2AA1365));
    NextRound(32, 0x8E9A9202, Vars(0x046FAA0A, 0x3B845D33, 0xC499ED01, 0x717EEBD7, 0xA0DC2D4B));
    NextRound(33, 0x00000600, Vars(0x2C0EBC11, 0x046FAA0A, 0xCEE1174C, 0xC499ED01, 0x717EEBD7));
    NextRound(34, 0xB131C0F0, Vars(0x21796AD4, 0x2C0EBC11, 0x811BEA82, 0xCEE1174C, 0xC499ED01));
    NextRound(35, 0x16263BC6, Vars(0xDCBBB0CB, 0x21796AD4, 0x4B03AF04, 0x811BEA82, 0xCEE1174C));
    NextRound(36, 0x4EBED41E, Vars(0x0F511FD8, 0xDCBBB0CB, 0x085E5AB5, 0x4B03AF04, 0x811BEA82));
    NextRound(37, 0x626380A1, Vars(0xDC63973F, 0x0F511FD8, 0xF72EEC32, 0x085E5AB5, 0x4B03AF04));
    NextRound(38, 0x16263806, Vars(0x4C986405, 0xDC63973F, 0x03D447F6, 0xF72EEC32, 0x085E5AB5));
    NextRound(39, 0x000018C0, Vars(0x32DE1CBA, 0x4C986405, 0xF718E5CF, 0x03D447F6, 0xF72EEC32));
  }

  lemma Rounds50()
    ensures Rounds(FIRST, BLOCK, 50) == Vars(0x120731C5, 0xBAF39337, 0xAFAB40B2, 0x2806E11B, 0x8714787C)
  {
    hide Rounds, W;
    Rounds40();
    Words32();
    Words48();
    NextRound(40, 0xD2E138C4, Vars(0xFC87DEDF, 0x32DE1CBA, 0x53261901, 0xF718E5CF, 0x03D447F6));
    NextRound(41, 0x00000F00, Vars(0x970A0D5C, 0xFC87DEDF, 0x8CB7872E, 0x53261901, 0xF718E5CF));
    NextRound(42, 0x3AFB5079, Vars(0x7F193DC5, 0x970A0D5C, 0xFF21F7B7, 0x8CB7872E, 0x53261901));
    NextRound(43, 0x898E04E5, Vars(0xEE1B1AAF, 0x7F193DC5, 0x25C28357, 0xFF21F7B7, 0x8CB7872E));
    NextRound(44, 0xE2BA3C2B, Vars(0x40F28E09, 0xEE1B1AAF, 0x5FC64F71, 0x25C28357, 0xFF21F7B7));
    NextRound(45, 0x000060C0, Vars(0x1C51E1F2, 0x40F28E09, 0xFB86C6AB, 0x5FC64F71, 0x25C28357));
    NextRound(46, 0x053A37CD, Vars(0xA01B846C, 0x1C51E1F2, 0x503CA382, 0xFB86C6AB, 0x5FC64F71));
    NextRound(47, 0x74458547, Vars(0xBEAD02CA, 0xA01B846C, 0x8714787C, 0x503CA382, 0xFB86C6AB));
    NextRound(48, 0xDA9415ED, Vars(0xBAF39337, 0xBEAD02CA, 0x2806E11B, 0x8714787C, 0x503CA382));
    NextRound(49, 0x26380A16, Vars(0x120731C5, 0xBAF39337, 0xAFAB40B2, 0x2806E11B, 0x8714787C));
  }

  lemma Rounds60()
    ensures Rounds(FIRST, BLOCK, 60) == Vars(0x3F52DE5A, 0x09D785FD, 0x3498BFD4, 0xF211824F, 0xD79915AB)
  {
    hide Rounds, W;
    Rounds50();
    Words48();
    NextRound(50, 0x626383A1, Vars(0x641DB2CE, 0x120731C5, 0xEEBCE4CD, 0xAFAB40B2, 0x2806E11B));
    NextRound(51, 0x4EBF54DE, Vars(0x3847AD66, 0x641DB2CE, 0x4481CC71, 0xEEBCE4CD, 0xAFAB40B2));
    NextRound(52, 0x3835B44B, Vars(0xE490436D, 0x3847AD66, 0x99076CB3, 0x4481CC71, 0xEEBCE4CD));
    NextRound(53, 0x0000F600, Vars(0x27E9F1D8, 0xE490436D, 0x8E11EB59, 0x99076CB3, 0x4481CC71));
    NextRound(54, 0x1E84C7A3, Vars(0x7B71F76D, 0x27E9F1D8, 0x792410DB, 0x8E11EB59, 0x99076CB3));
    NextRound(55, 0x98E04D98, Vars(0x5E6456AF, 0x7B71F76D, 0x09FA7C76, 0x792410DB, 0x8E11EB59));
    NextRound(56, 0x651D16A0, Vars(0xC846093F, 0x5E6456AF, 0x5EDC7DDB, 0x09FA7C76, 0x792410DB));
    NextRound(57, 0x62658CA1, Vars(0xD262FF50, 0xC846093F, 0xD79915AB, 0x5EDC7DDB, 0x09FA7C76));
    NextRound(58, 0x458544D6, Vars(0x09D785FD, 0xD262FF50, 0xF211824F, 0xD79915AB, 0x5EDC7DDB));
    NextRound(59, 0x44584CB7, Vars(0x3F52DE5A, 0x09D785FD, 0x3498BFD4, 0xF211824F, 0xD79915AB));
  }

  lemma Rounds70()
    ensures Rounds(FIRST, BLOCK, 70) == Vars(0x3F2588C2, 0x497093C0, 0xDE37534A, 0x030F7CAD, 0x4405957E)
  {
    hide Rounds, W;
    Rounds60();
    Words48();
    Words64();
    NextRound(60, 0x7BA06619, Vars(0xD756C147, 0x3F52DE5A, 0x4275E17F, 0x3498BFD4, 0xF211824F));
    NextRound(61, 0x6380AEA2, Vars(0x548C9CB2, 0xD756C147, 0x8FD4B796, 0x4275E17F, 0x3498BFD4));
    NextRound(62, 0x0AE55269, Vars(0xB66C020B, 0x548C9CB2, 0xF5D5B051, 0x8FD4B796, 0x4275E17F));
    NextRound(63, 0x627B49A1, Vars(0x6B61C9E1, 0xB66C020B, 0x9523272C, 0xF5D5B051, 0x8FD4B796));
    NextRound(64, 0x7CD45C9D, Vars(0x19DFA7AC, 0x6B61C9E1, 0xED9B0082, 0x9523272C, 0xF5D5B051));
    NextRound(65, 0x000F0000, Vars(0x101655F9, 0x19DFA7AC, 0x5AD87278, 0xED9B0082, 0x9523272C));
    NextRound(66, 0xFB50753A, Vars(0x0C3DF2B4, 0x101655F9, 0x0677E9EB, 0x5AD87278, 0xED9B0082));
    NextRound(67, 0xEC6765E8, Vars(0x78DD4D2B, 0x0C3DF2B4, 0x4405957E, 0x0677E9EB, 0x5AD87278));
    NextRound(68, 0xBA3C2BE2, Vars(0x497093C0, 0x78DD4D2B, 0x030F7CAD, 0x4405957E, 0x0677E9EB));
    NextRound(69, 0x0060C000, Vars(0x3F2588C2, 0x497093C0, 0xDE37534A, 0x030F7CAD, 0x4405957E));
  }

  lemma Rounds80()
    ensures Rounds(FIRST, BLOCK, 80) == Vars(0x42541B35, 0x5738D5E1, 0x21834873, 0x681E6DF6, 0xD8FDF6AD)
  {
    hide Rounds, W;
    Rounds70();
    Words64();
    NextRound(70, 0x3A37CD05, Vars(0xC199F8C7, 0x3F2588C2, 0x125C24F0, 0xDE37534A, 0x030F7CAD));
    NextRound(71, 0x458546F4, Vars(0x39859DE7, 0xC199F8C7, 0x8FC96230, 0x125C24F0, 0xDE37534A));
    NextRound(72, 0xB8599DD6, Vars(0xEDB42DE4, 0x39859DE7, 0xF0667E31, 0x8FC96230, 0x125C24F0));
    NextRound(73, 0x380A1A26, Vars(0x11793F6F, 0xEDB42DE4, 0xCE616779, 0xF0667E31, 0x8FC96230));
    NextRound(74, 0x01E02203, Vars(0x5EE76897, 0x11793F6F, 0x3B6D0B79, 0xCE616779, 0xF0667E31));
    NextRound(75, 0xE7CC3456, Vars(0x63F7DAB7, 0x5EE76897, 0xC45E4FDB, 0x3B6D0B79, 0xCE616779));
    NextRound(76, 0xE6E60B69, Vars(0xA079B7D9, 0x63F7DAB7, 0xD7B9DA25, 0xC45E4FDB, 0x3B6D0B79));
    NextRound(77, 0x00F60A00, Vars(0x860D21CC, 0xA079B7D9, 0xD8FDF6AD, 0xD7B9DA25, 0xC45E4FDB));
    NextRound(78, 0x5795EF4F, Vars(0x5738D5E1, 0x860D21CC, 0x681E6DF6, 0xD8FDF6AD, 0xD7B9DA25));
    NextRound(79, 0x822E0879, Vars(0x42541B35, 0x5738D5E1, 0x21834873, 0x681E6DF6, 0xD8FDF6AD));
  }
  lemma NoRounds()
    ensures Rounds(FIRST, BLOCK, 0) == Vars(0x67452301, 0xEFCDAB89, 0x98BADCFE, 0x10325476, 0xC3D2E1F0)
  {
  }

  lemma DigestABC()
    ensures Digest(ABC) == [0xA9993E36, 0x4706816A, 0xBA3E2571, 0x7850C26C, 0x9CD0D89D]
  {
    PaddedABC();
    Rounds80();
    hide Rounds, Padded;
    assert BLOCK[..0] == [] && BLOCK[0..] == BLOCK;
  }

  /** SHA-1 of "abc", as in the example that comes with FIPS 180. */
  lemma HexABC()
    ensures Hex(Digest(ABC)) == "a9993e364706816aba3e25717850c26c9cd0d89d"
  {
    DigestABC();
    hide Digest, HexWord;
    HexStart();
    HexEnd();
  }

  lemma HexStart()
    ensures HexWord(0xA9993E36) == "a9993e36" && HexWord(0x4706816A) == "4706816a"
  {
  }

  lemma HexEnd()
    ensures HexWord(0xBA3E2571) == "ba3e2571" && HexWord(0x7850C26C) == "7850c26c" && HexWord(0x9CD0D89D) == "9cd0d89d"
  {
  }
}
