/** The first worked example of the standard, Appendix A of FIPS PUB 180-1: the digest of "abc", word by word of
    the schedule and round by round. */
module Sha1Example {
  import opened Sha1Spec
  import opened Sha1

  const ABC: seq<Octet> := [0x61, 0x62, 0x63]

  /** The one block that the message is padded to. */
  const BLOCK: seq<Octet> := ABC + [0x80] + Zeros(59) + [24]

  lemma AbcPadded()
    ensures |BLOCK| == 64 && Pad(ABC) == BLOCK
  {
    hide LengthField, Low, Zeros;
    LengthOfAbc();
    ZeroCountByRange(3);
    assert Zeros(52) + Zeros(7) == Zeros(59);
  }

  lemma LengthOfAbc()
    ensures LengthField(24) == Zeros(7) + [24]
  {
    hide Low;
    LowOf(0, 0);
    LowOf(24, 24);
  }

  // ---------- The schedule ----------

  lemma {:induction false} FirstWordsOfAbc()
    ensures |BLOCK| == 64 && W(BLOCK, 0) == 0x61626380 && W(BLOCK, 15) == 0x00000018
    ensures forall t :: 0 < t < 15 ==> W(BLOCK, t) == 0x00000000
  {
  }

  /** One more word, from the four it is made of. */
  lemma {:induction false} NextWord(t: nat, w3: Word, w8: Word, w14: Word, w16: Word)
    requires 16 <= t && |BLOCK| == 64
    requires W(BLOCK, t - 3) == w3 && W(BLOCK, t - 8) == w8 && W(BLOCK, t - 14) == w14 && W(BLOCK, t - 16) == w16
    ensures W(BLOCK, t) == S(1, w3 ^ w8 ^ w14 ^ w16)
  {
    hide BLOCK, S, WordOf;
  }

  lemma {:induction false} Words16To31()
    requires |BLOCK| == 64
    requires W(BLOCK, 0) == 0x61626380 && W(BLOCK, 1) == 0x00000000 && W(BLOCK, 2) == 0x00000000
    requires W(BLOCK, 3) == 0x00000000 && W(BLOCK, 4) == 0x00000000 && W(BLOCK, 5) == 0x00000000
    requires W(BLOCK, 6) == 0x00000000 && W(BLOCK, 7) == 0x00000000 && W(BLOCK, 8) == 0x00000000
    requires W(BLOCK, 9) == 0x00000000 && W(BLOCK, 10) == 0x00000000 && W(BLOCK, 11) == 0x00000000
    requires W(BLOCK, 12) == 0x00000000 && W(BLOCK, 13) == 0x00000000 && W(BLOCK, 14) == 0x00000000
    requires W(BLOCK, 15) == 0x00000018
    ensures W(BLOCK, 16) == 0xC2C4C700 && W(BLOCK, 17) == 0x00000000 && W(BLOCK, 18) == 0x00000030
    ensures W(BLOCK, 19) == 0x85898E01 && W(BLOCK, 20) == 0x00000000 && W(BLOCK, 21) == 0x00000060
    ensures W(BLOCK, 22) == 0x0B131C03 && W(BLOCK, 23) == 0x00000030 && W(BLOCK, 24) == 0x85898EC1
    ensures W(BLOCK, 25) == 0x16263806 && W(BLOCK, 26) == 0x00000000 && W(BLOCK, 27) == 0x00000180
    ensures W(BLOCK, 28) == 0x2C4C700C && W(BLOCK, 29) == 0x000000F0 && W(BLOCK, 30) == 0x93AFB507
    ensures W(BLOCK, 31) == 0x5898E048
  {
    hide W, BLOCK;
    NextWord(16, 0x00000000, 0x00000000, 0x00000000, 0x61626380);
    NextWord(17, 0x00000000, 0x00000000, 0x00000000, 0x00000000);
    NextWord(18, 0x00000018, 0x00000000, 0x00000000, 0x00000000);
    NextWord(19, 0xC2C4C700, 0x00000000, 0x00000000, 0x00000000);
    NextWord(20, 0x00000000, 0x00000000, 0x00000000, 0x00000000);
    NextWord(21, 0x00000030, 0x00000000, 0x00000000, 0x00000000);
    NextWord(22, 0x85898E01, 0x00000000, 0x00000000, 0x00000000);
    NextWord(23, 0x00000000, 0x00000018, 0x00000000, 0x00000000);
    NextWord(24, 0x00000060, 0xC2C4C700, 0x00000000, 0x00000000);
    NextWord(25, 0x0B131C03, 0x00000000, 0x00000000, 0x00000000);
    NextWord(26, 0x00000030, 0x00000030, 0x00000000, 0x00000000);
    NextWord(27, 0x85898EC1, 0x85898E01, 0x00000000, 0x00000000);
    NextWord(28, 0x16263806, 0x00000000, 0x00000000, 0x00000000);
    NextWord(29, 0x00000000, 0x00000060, 0x00000018, 0x00000000);
    NextWord(30, 0x00000180, 0x0B131C03, 0xC2C4C700, 0x00000000);
    NextWord(31, 0x2C4C700C, 0x00000030, 0x00000000, 0x00000018);
  }

  lemma {:induction false} Words32To47()
    requires |BLOCK| == 64
    requires W(BLOCK, 16) == 0xC2C4C700 && W(BLOCK, 17) == 0x00000000 && W(BLOCK, 18) == 0x00000030
    requires W(BLOCK, 19) == 0x85898E01 && W(BLOCK, 20) == 0x00000000 && W(BLOCK, 21) == 0x00000060
    requires W(BLOCK, 22) == 0x0B131C03 && W(BLOCK, 23) == 0x00000030 && W(BLOCK, 24) == 0x85898EC1
    requires W(BLOCK, 25) == 0x16263806 && W(BLOCK, 26) == 0x00000000 && W(BLOCK, 27) == 0x00000180
    requires W(BLOCK, 28) == 0x2C4C700C && W(BLOCK, 29) == 0x000000F0 && W(BLOCK, 30) == 0x93AFB507
    requires W(BLOCK, 31) == 0x5898E048
    ensures W(BLOCK, 32) == 0x8E9A9202 && W(BLOCK, 33) == 0x00000600 && W(BLOCK, 34) == 0xB131C0F0
    ensures W(BLOCK, 35) == 0x16263BC6 && W(BLOCK, 36) == 0x4EBED41E && W(BLOCK, 37) == 0x626380A1
    ensures W(BLOCK, 38) == 0x16263806 && W(BLOCK, 39) == 0x000018C0 && W(BLOCK, 40) == 0xD2E138C4
    ensures W(BLOCK, 41) == 0x00000F00 && W(BLOCK, 42) == 0x3AFB5079 && W(BLOCK, 43) == 0x898E04E5
    ensures W(BLOCK, 44) == 0xE2BA3C2B && W(BLOCK, 45) == 0x000060C0 && W(BLOCK, 46) == 0x053A37CD
    ensures W(BLOCK, 47) == 0x74458547
  {
    hide W, BLOCK;
    NextWord(32, 0x000000F0, 0x85898EC1, 0x00000030, 0xC2C4C700);
    NextWord(33, 0x93AFB507, 0x16263806, 0x85898E01, 0x00000000);
    NextWord(34, 0x5898E048, 0x00000000, 0x00000000, 0x00000030);
    NextWord(35, 0x8E9A9202, 0x00000180, 0x00000060, 0x85898E01);
    NextWord(36, 0x00000600, 0x2C4C700C, 0x0B131C03, 0x00000000);
    NextWord(37, 0xB131C0F0, 0x000000F0, 0x00000030, 0x00000060);
    NextWord(38, 0x16263BC6, 0x93AFB507, 0x85898EC1, 0x0B131C03);
    NextWord(39, 0x4EBED41E, 0x5898E048, 0x16263806, 0x00000030);
    NextWord(40, 0x626380A1, 0x8E9A9202, 0x00000000, 0x85898EC1);
    NextWord(41, 0x16263806, 0x00000600, 0x00000180, 0x16263806);
    NextWord(42, 0x000018C0, 0xB131C0F0, 0x2C4C700C, 0x00000000);
    NextWord(43, 0xD2E138C4, 0x16263BC6, 0x000000F0, 0x00000180);
    NextWord(44, 0x00000F00, 0x4EBED41E, 0x93AFB507, 0x2C4C700C);
    NextWord(45, 0x3AFB5079, 0x626380A1, 0x5898E048, 0x000000F0);
    NextWord(46, 0x898E04E5, 0x16263806, 0x8E9A9202, 0x93AFB507);
    NextWord(47, 0xE2BA3C2B, 0x000018C0, 0x00000600, 0x5898E048);
  }

  lemma {:induction false} Words48To63()
    requires |BLOCK| == 64
    requires W(BLOCK, 32) == 0x8E9A9202 && W(BLOCK, 33) == 0x00000600 && W(BLOCK, 34) == 0xB131C0F0
    requires W(BLOCK, 35) == 0x16263BC6 && W(BLOCK, 36) == 0x4EBED41E && W(BLOCK, 37) == 0x626380A1
    requires W(BLOCK, 38) == 0x16263806 && W(BLOCK, 39) == 0x000018C0 && W(BLOCK, 40) == 0xD2E138C4
    requires W(BLOCK, 41) == 0x00000F00 && W(BLOCK, 42) == 0x3AFB5079 && W(BLOCK, 43) == 0x898E04E5
    requires W(BLOCK, 44) == 0xE2BA3C2B && W(BLOCK, 45) == 0x000060C0 && W(BLOCK, 46) == 0x053A37CD
    requires W(BLOCK, 47) == 0x74458547
    ensures W(BLOCK, 48) == 0xDA9415ED && W(BLOCK, 49) == 0x26380A16 && W(BLOCK, 50) == 0x626383A1
    ensures W(BLOCK, 51) == 0x4EBF54DE && W(BLOCK, 52) == 0x3835B44B && W(BLOCK, 53) == 0x0000F600
    ensures W(BLOCK, 54) == 0x1E84C7A3 && W(BLOCK, 55) == 0x98E04D98 && W(BLOCK, 56) == 0x651D16A0
    ensures W(BLOCK, 57) == 0x62658CA1 && W(BLOCK, 58) == 0x458544D6 && W(BLOCK, 59) == 0x44584CB7
    ensures W(BLOCK, 60) == 0x7BA06619 && W(BLOCK, 61) == 0x6380AEA2 && W(BLOCK, 62) == 0x0AE55269
    ensures W(BLOCK, 63) == 0x627B49A1
  {
    hide W, BLOCK;
    NextWord(48, 0x000060C0, 0xD2E138C4, 0xB131C0F0, 0x8E9A9202);
    NextWord(49, 0x053A37CD, 0x00000F00, 0x16263BC6, 0x00000600);
    NextWord(50, 0x74458547, 0x3AFB5079, 0x4EBED41E, 0xB131C0F0);
    NextWord(51, 0xDA9415ED, 0x898E04E5, 0x626380A1, 0x16263BC6);
    NextWord(52, 0x26380A16, 0xE2BA3C2B, 0x16263806, 0x4EBED41E);
    NextWord(53, 0x626383A1, 0x000060C0, 0x000018C0, 0x626380A1);
    NextWord(54, 0x4EBF54DE, 0x053A37CD, 0xD2E138C4, 0x16263806);
    NextWord(55, 0x3835B44B, 0x74458547, 0x00000F00, 0x000018C0);
    NextWord(56, 0x0000F600, 0xDA9415ED, 0x3AFB5079, 0xD2E138C4);
    NextWord(57, 0x1E84C7A3, 0x26380A16, 0x898E04E5, 0x00000F00);
    NextWord(58, 0x98E04D98, 0x626383A1, 0xE2BA3C2B, 0x3AFB5079);
    NextWord(59, 0x651D16A0, 0x4EBF54DE, 0x000060C0, 0x898E04E5);
    NextWord(60, 0x62658CA1, 0x3835B44B, 0x053A37CD, 0xE2BA3C2B);
    NextWord(61, 0x458544D6, 0x0000F600, 0x74458547, 0x000060C0);
    NextWord(62, 0x44584CB7, 0x1E84C7A3, 0xDA9415ED, 0x053A37CD);
    NextWord(63, 0x7BA06619, 0x98E04D98, 0x26380A16, 0x74458547);
  }

  lemma {:induction false} Words64To79()
    requires |BLOCK| == 64
    requires W(BLOCK, 48) == 0xDA9415ED && W(BLOCK, 49) == 0x26380A16 && W(BLOCK, 50) == 0x626383A1
    requires W(BLOCK, 51) == 0x4EBF54DE && W(BLOCK, 52) == 0x3835B44B && W(BLOCK, 53) == 0x0000F600
    requires W(BLOCK, 54) == 0x1E84C7A3 && W(BLOCK, 55) == 0x98E04D98 && W(BLOCK, 56) == 0x651D16A0
    requires W(BLOCK, 57) == 0x62658CA1 && W(BLOCK, 58) == 0x458544D6 && W(BLOCK, 59) == 0x44584CB7
    requires W(BLOCK, 60) == 0x7BA06619 && W(BLOCK, 61) == 0x6380AEA2 && W(BLOCK, 62) == 0x0AE55269
    requires W(BLOCK, 63) == 0x627B49A1
    ensures W(BLOCK, 64) == 0x7CD45C9D && W(BLOCK, 65) == 0x000F0000 && W(BLOCK, 66) == 0xFB50753A
    ensures W(BLOCK, 67) == 0xEC6765E8 && W(BLOCK, 68) == 0xBA3C2BE2 && W(BLOCK, 69) == 0x0060C000
    ensures W(BLOCK, 70) == 0x3A37CD05 && W(BLOCK, 71) == 0x458546F4 && W(BLOCK, 72) == 0xB8599DD6
    ensures W(BLOCK, 73) == 0x380A1A26 && W(BLOCK, 74) == 0x01E02203 && W(BLOCK, 75) == 0xE7CC3456
    ensures W(BLOCK, 76) == 0xE6E60B69 && W(BLOCK, 77) == 0x00F60A00 && W(BLOCK, 78) == 0x5795EF4F
    ensures W(BLOCK, 79) == 0x822E0879
  {
    hide W, BLOCK;
    NextWord(64, 0x6380AEA2, 0x651D16A0, 0x626383A1, 0xDA9415ED);
    NextWord(65, 0x0AE55269, 0x62658CA1, 0x4EBF54DE, 0x26380A16);
    NextWord(66, 0x627B49A1, 0x458544D6, 0x3835B44B, 0x626383A1);
    NextWord(67, 0x7CD45C9D, 0x44584CB7, 0x0000F600, 0x4EBF54DE);
    NextWord(68, 0x000F0000, 0x7BA06619, 0x1E84C7A3, 0x3835B44B);
    NextWord(69, 0xFB50753A, 0x6380AEA2, 0x98E04D98, 0x0000F600);
    NextWord(70, 0xEC6765E8, 0x0AE55269, 0x651D16A0, 0x1E84C7A3);
    NextWord(71, 0xBA3C2BE2, 0x627B49A1, 0x62658CA1, 0x98E04D98);
    NextWord(72, 0x0060C000, 0x7CD45C9D, 0x458544D6, 0x651D16A0);
    NextWord(73, 0x3A37CD05, 0x000F0000, 0x44584CB7, 0x62658CA1);
    NextWord(74, 0x458546F4, 0xFB50753A, 0x7BA06619, 0x458544D6);
    NextWord(75, 0xB8599DD6, 0xEC6765E8, 0x6380AEA2, 0x44584CB7);
    NextWord(76, 0x380A1A26, 0xBA3C2BE2, 0x0AE55269, 0x7BA06619);
    NextWord(77, 0x01E02203, 0x0060C000, 0x627B49A1, 0x6380AEA2);
    NextWord(78, 0xE7CC3456, 0x3A37CD05, 0x7CD45C9D, 0x0AE55269);
    NextWord(79, 0xE6E60B69, 0x458546F4, 0x000F0000, 0x627B49A1);
  }

  // ---------- The rounds ----------

  /** The word buffers after the first t rounds. */
  ghost predicate At(t: nat, s: Digest) {
    |BLOCK| == 64 && t <= 80 && Rounds(INITIAL, Schedule(BLOCK)[..t]) == s
  }

  lemma {:induction false} NextRoundOfAbc(t: nat, before: Digest, w: Word, after: Digest)
    requires t < 80 && At(t, before) && W(BLOCK, t) == w && Round(before, t, w) == after
    ensures At(t + 1, after)
  {
    hide W, BLOCK, Round, Rounds;
    RoundsStep(INITIAL, Schedule(BLOCK), t);
  }

  lemma Rounds0To19()
    requires At(0, Digest(0x67452301, 0xEFCDAB89, 0x98BADCFE, 0x10325476, 0xC3D2E1F0))
    requires W(BLOCK, 0) == 0x61626380 && W(BLOCK, 1) == 0x00000000 && W(BLOCK, 2) == 0x00000000
    requires W(BLOCK, 3) == 0x00000000 && W(BLOCK, 4) == 0x00000000 && W(BLOCK, 5) == 0x00000000
    requires W(BLOCK, 6) == 0x00000000 && W(BLOCK, 7) == 0x00000000 && W(BLOCK, 8) == 0x00000000
    requires W(BLOCK, 9) == 0x00000000 && W(BLOCK, 10) == 0x00000000 && W(BLOCK, 11) == 0x00000000
    requires W(BLOCK, 12) == 0x00000000 && W(BLOCK, 13) == 0x00000000 && W(BLOCK, 14) == 0x00000000
    requires W(BLOCK, 15) == 0x00000018 && W(BLOCK, 16) == 0xC2C4C700 && W(BLOCK, 17) == 0x00000000
    requires W(BLOCK, 18) == 0x00000030 && W(BLOCK, 19) == 0x85898E01
    ensures At(20, Digest(0xFD9E1D7D, 0xDC64901D, 0x20AA99CA, 0xD3A49608, 0xC82F758B))
  {
    hide W, BLOCK, Rounds, At;
    NextRoundOfAbc(0, Digest(0x67452301, 0xEFCDAB89, 0x98BADCFE, 0x10325476, 0xC3D2E1F0), 0x61626380,
                   Digest(0x0116FC33, 0x67452301, 0x7BF36AE2, 0x98BADCFE, 0x10325476));
    NextRoundOfAbc(1, Digest(0x0116FC33, 0x67452301, 0x7BF36AE2, 0x98BADCFE, 0x10325476), 0x00000000,
                   Digest(0x8990536D, 0x0116FC33, 0x59D148C0, 0x7BF36AE2, 0x98BADCFE));
    NextRoundOfAbc(2, Digest(0x8990536D, 0x0116FC33, 0x59D148C0, 0x7BF36AE2, 0x98BADCFE), 0x00000000,
                   Digest(0xA1390F08, 0x8990536D, 0xC045BF0C, 0x59D148C0, 0x7BF36AE2));
    NextRoundOfAbc(3, Digest(0xA1390F08, 0x8990536D, 0xC045BF0C, 0x59D148C0, 0x7BF36AE2), 0x00000000,
                   Digest(0xCDD8E11B, 0xA1390F08, 0x626414DB, 0xC045BF0C, 0x59D148C0));
    NextRoundOfAbc(4, Digest(0xCDD8E11B, 0xA1390F08, 0x626414DB, 0xC045BF0C, 0x59D148C0), 0x00000000,
                   Digest(0xCFD499DE, 0xCDD8E11B, 0x284E43C2, 0x626414DB, 0xC045BF0C));
    NextRoundOfAbc(5, Digest(0xCFD499DE, 0xCDD8E11B, 0x284E43C2, 0x626414DB, 0xC045BF0C), 0x00000000,
                   Digest(0x3FC7CA40, 0xCFD499DE, 0xF3763846, 0x284E43C2, 0x626414DB));
    NextRoundOfAbc(6, Digest(0x3FC7CA40, 0xCFD499DE, 0xF3763846, 0x284E43C2, 0x626414DB), 0x00000000,
                   Digest(0x993E30C1, 0x3FC7CA40, 0xB3F52677, 0xF3763846, 0x284E43C2));
    NextRoundOfAbc(7, Digest(0x993E30C1, 0x3FC7CA40, 0xB3F52677, 0xF3763846, 0x284E43C2), 0x00000000,
                   Digest(0x9E8C07D4, 0x993E30C1, 0x0FF1F290, 0xB3F52677, 0xF3763846));
    NextRoundOfAbc(8, Digest(0x9E8C07D4, 0x993E30C1, 0x0FF1F290, 0xB3F52677, 0xF3763846), 0x00000000,
                   Digest(0x4B6AE328, 0x9E8C07D4, 0x664F8C30, 0x0FF1F290, 0xB3F52677));
    NextRoundOfAbc(9, Digest(0x4B6AE328, 0x9E8C07D4, 0x664F8C30, 0x0FF1F290, 0xB3F52677), 0x00000000,
                   Digest(0x8351F929, 0x4B6AE328, 0x27A301F5, 0x664F8C30, 0x0FF1F290));
    NextRoundOfAbc(10, Digest(0x8351F929, 0x4B6AE328, 0x27A301F5, 0x664F8C30, 0x0FF1F290), 0x00000000,
                   Digest(0xFBDA9E89, 0x8351F929, 0x12DAB8CA, 0x27A301F5, 0x664F8C30));
    NextRoundOfAbc(11, Digest(0xFBDA9E89, 0x8351F929, 0x12DAB8CA, 0x27A301F5, 0x664F8C30), 0x00000000,
                   Digest(0x63188FE4, 0xFBDA9E89, 0x60D47E4A, 0x12DAB8CA, 0x27A301F5));
    NextRoundOfAbc(12, Digest(0x63188FE4, 0xFBDA9E89, 0x60D47E4A, 0x12DAB8CA, 0x27A301F5), 0x00000000,
                   Digest(0x4607B664, 0x63188FE4, 0x7EF6A7A2, 0x60D47E4A, 0x12DAB8CA));
    NextRoundOfAbc(13, Digest(0x4607B664, 0x63188FE4, 0x7EF6A7A2, 0x60D47E4A, 0x12DAB8CA), 0x00000000,
                   Digest(0x9128F695, 0x4607B664, 0x18C623F9, 0x7EF6A7A2, 0x60D47E4A));
    NextRoundOfAbc(14, Digest(0x9128F695, 0x4607B664, 0x18C623F9, 0x7EF6A7A2, 0x60D47E4A), 0x00000000,
                   Digest(0x196BEE77, 0x9128F695, 0x1181ED99, 0x18C623F9, 0x7EF6A7A2));
    NextRoundOfAbc(15, Digest(0x196BEE77, 0x9128F695, 0x1181ED99, 0x18C623F9, 0x7EF6A7A2), 0x00000018,
                   Digest(0x20BDD62F, 0x196BEE77, 0x644A3DA5, 0x1181ED99, 0x18C623F9));
    NextRoundOfAbc(16, Digest(0x20BDD62F, 0x196BEE77, 0x644A3DA5, 0x1181ED99, 0x18C623F9), 0xC2C4C700,
                   Digest(0x4E925823, 0x20BDD62F, 0xC65AFB9D, 0x644A3DA5, 0x1181ED99));
    NextRoundOfAbc(17, Digest(0x4E925823, 0x20BDD62F, 0xC65AFB9D, 0x644A3DA5, 0x1181ED99), 0x00000000,
                   Digest(0x82AA6728, 0x4E925823, 0xC82F758B, 0xC65AFB9D, 0x644A3DA5));
    NextRoundOfAbc(18, Digest(0x82AA6728, 0x4E925823, 0xC82F758B, 0xC65AFB9D, 0x644A3DA5), 0x00000030,
                   Digest(0xDC64901D, 0x82AA6728, 0xD3A49608, 0xC82F758B, 0xC65AFB9D));
    NextRoundOfAbc(19, Digest(0xDC64901D, 0x82AA6728, 0xD3A49608, 0xC82F758B, 0xC65AFB9D), 0x85898E01,
                   Digest(0xFD9E1D7D, 0xDC64901D, 0x20AA99CA, 0xD3A49608, 0xC82F758B));
  }

  lemma Rounds20To39()
    requires At(20, Digest(0xFD9E1D7D, 0xDC64901D, 0x20AA99CA, 0xD3A49608, 0xC82F758B))
    requires W(BLOCK, 20) == 0x00000000 && W(BLOCK, 21) == 0x00000060 && W(BLOCK, 22) == 0x0B131C03
    requires W(BLOCK, 23) == 0x00000030 && W(BLOCK, 24) == 0x85898EC1 && W(BLOCK, 25) == 0x16263806
    requires W(BLOCK, 26) == 0x00000000 && W(BLOCK, 27) == 0x00000180 && W(BLOCK, 28) == 0x2C4C700C
    requires W(BLOCK, 29) == 0x000000F0 && W(BLOCK, 30) == 0x93AFB507 && W(BLOCK, 31) == 0x5898E048
    requires W(BLOCK, 32) == 0x8E9A9202 && W(BLOCK, 33) == 0x00000600 && W(BLOCK, 34) == 0xB131C0F0
    requires W(BLOCK, 35) == 0x16263BC6 && W(BLOCK, 36) == 0x4EBED41E && W(BLOCK, 37) == 0x626380A1
    requires W(BLOCK, 38) == 0x16263806 && W(BLOCK, 39) == 0x000018C0
    ensures At(40, Digest(0x32DE1CBA, 0x4C986405, 0xF718E5CF, 0x03D447F6, 0xF72EEC32))
  {
    hide W, BLOCK, Rounds, At;
    NextRoundOfAbc(20, Digest(0xFD9E1D7D, 0xDC64901D, 0x20AA99CA, 0xD3A49608, 0xC82F758B), 0x00000000,
                   Digest(0x1A37B0CA, 0xFD9E1D7D, 0x77192407, 0x20AA99CA, 0xD3A49608));
    NextRoundOfAbc(21, Digest(0x1A37B0CA, 0xFD9E1D7D, 0x77192407, 0x20AA99CA, 0xD3A49608), 0x00000060,
                   Digest(0x33A23BFC, 0x1A37B0CA, 0x7F67875F, 0x77192407, 0x20AA99CA));
    NextRoundOfAbc(22, Digest(0x33A23BFC, 0x1A37B0CA, 0x7F67875F, 0x77192407, 0x20AA99CA), 0x0B131C03,
                   Digest(0x21283486, 0x33A23BFC, 0x868DEC32, 0x7F67875F, 0x77192407));
    NextRoundOfAbc(23, Digest(0x21283486, 0x33A23BFC, 0x868DEC32, 0x7F67875F, 0x77192407), 0x00000030,
                   Digest(0xD541F12D, 0x21283486, 0x0CE88EFF, 0x868DEC32, 0x7F67875F));
    NextRoundOfAbc(24, Digest(0xD541F12D, 0x21283486, 0x0CE88EFF, 0x868DEC32, 0x7F67875F), 0x85898EC1,
                   Digest(0xC7567DC6, 0xD541F12D, 0x884A0D21, 0x0CE88EFF, 0x868DEC32));
    NextRoundOfAbc(25, Digest(0xC7567DC6, 0xD541F12D, 0x884A0D21, 0x0CE88EFF, 0x868DEC32), 0x16263806,
                   Digest(0x48413BA4, 0xC7567DC6, 0x75507C4B, 0x884A0D21, 0x0CE88EFF));
    NextRoundOfAbc(26, Digest(0x48413BA4, 0xC7567DC6, 0x75507C4B, 0x884A0D21, 0x0CE88EFF), 0x00000000,
                   Digest(0xBE35FBD5, 0x48413BA4, 0xB1D59F71, 0x75507C4B, 0x884A0D21));
    NextRoundOfAbc(27, Digest(0xBE35FBD5, 0x48413BA4, 0xB1D59F71, 0x75507C4B, 0x884A0D21), 0x00000180,
                   Digest(0x4AA84D97, 0xBE35FBD5, 0x12104EE9, 0xB1D59F71, 0x75507C4B));
    NextRoundOfAbc(28, Digest(0x4AA84D97, 0xBE35FBD5, 0x12104EE9, 0xB1D59F71, 0x75507C4B), 0x2C4C700C,
                   Digest(0x8370B52E, 0x4AA84D97, 0x6F8D7EF5, 0x12104EE9, 0xB1D59F71));
    NextRoundOfAbc(29, Digest(0x8370B52E, 0x4AA84D97, 0x6F8D7EF5, 0x12104EE9, 0xB1D59F71), 0x000000F0,
                   Digest(0xC5FBAF5D, 0x8370B52E, 0xD2AA1365, 0x6F8D7EF5, 0x12104EE9));
    NextRoundOfAbc(30, Digest(0xC5FBAF5D, 0x8370B52E, 0xD2AA1365, 0x6F8D7EF5, 0x12104EE9), 0x93AFB507,
                   Digest(0x1267B407, 0xC5FBAF5D, 0xA0DC2D4B, 0xD2AA1365, 0x6F8D7EF5));
    NextRoundOfAbc(31, Digest(0x1267B407, 0xC5FBAF5D, 0xA0DC2D4B, 0xD2AA1365, 0x6F8D7EF5), 0x5898E048,
                   Digest(0x3B845D33, 0x1267B407, 0x717EEBD7, 0xA0DC2D4B, 0xD2AA1365));
    NextRoundOfAbc(32, Digest(0x3B845D33, 0x1267B407, 0x717EEBD7, 0xA0DC2D4B, 0xD2AA1365), 0x8E9A9202,
                   Digest(0x046FAA0A, 0x3B845D33, 0xC499ED01, 0x717EEBD7, 0xA0DC2D4B));
    NextRoundOfAbc(33, Digest(0x046FAA0A, 0x3B845D33, 0xC499ED01, 0x717EEBD7, 0xA0DC2D4B), 0x00000600,
                   Digest(0x2C0EBC11, 0x046FAA0A, 0xCEE1174C, 0xC499ED01, 0x717EEBD7));
    NextRoundOfAbc(34, Digest(0x2C0EBC11, 0x046FAA0A, 0xCEE1174C, 0xC499ED01, 0x717EEBD7), 0xB131C0F0,
                   Digest(0x21796AD4, 0x2C0EBC11, 0x811BEA82, 0xCEE1174C, 0xC499ED01));
    NextRoundOfAbc(35, Digest(0x21796AD4, 0x2C0EBC11, 0x811BEA82, 0xCEE1174C, 0xC499ED01), 0x16263BC6,
                   Digest(0xDCBBB0CB, 0x21796AD4, 0x4B03AF04, 0x811BEA82, 0xCEE1174C));
    NextRoundOfAbc(36, Digest(0xDCBBB0CB, 0x21796AD4, 0x4B03AF04, 0x811BEA82, 0xCEE1174C), 0x4EBED41E,
                   Digest(0x0F511FD8, 0xDCBBB0CB, 0x085E5AB5, 0x4B03AF04, 0x811BEA82));
    NextRoundOfAbc(37, Digest(0x0F511FD8, 0xDCBBB0CB, 0x085E5AB5, 0x4B03AF04, 0x811BEA82), 0x626380A1,
                   Digest(0xDC63973F, 0x0F511FD8, 0xF72EEC32, 0x085E5AB5, 0x4B03AF04));
    NextRoundOfAbc(38, Digest(0xDC63973F, 0x0F511FD8, 0xF72EEC32, 0x085E5AB5, 0x4B03AF04), 0x16263806,
                   Digest(0x4C986405, 0xDC63973F, 0x03D447F6, 0xF72EEC32, 0x085E5AB5));
    NextRoundOfAbc(39, Digest(0x4C986405, 0xDC63973F, 0x03D447F6, 0xF72EEC32, 0x085E5AB5), 0x000018C0,
                   Digest(0x32DE1CBA, 0x4C986405, 0xF718E5CF, 0x03D447F6, 0xF72EEC32));
  }

  lemma Rounds40To59()
    requires At(40, Digest(0x32DE1CBA, 0x4C986405, 0xF718E5CF, 0x03D447F6, 0xF72EEC32))
    requires W(BLOCK, 40) == 0xD2E138C4 && W(BLOCK, 41) == 0x00000F00 && W(BLOCK, 42) == 0x3AFB5079
    requires W(BLOCK, 43) == 0x898E04E5 && W(BLOCK, 44) == 0xE2BA3C2B && W(BLOCK, 45) == 0x000060C0
    requires W(BLOCK, 46) == 0x053A37CD && W(BLOCK, 47) == 0x74458547 && W(BLOCK, 48) == 0xDA9415ED
    requires W(BLOCK, 49) == 0x26380A16 && W(BLOCK, 50) == 0x626383A1 && W(BLOCK, 51) == 0x4EBF54DE
    requires W(BLOCK, 52) == 0x3835B44B && W(BLOCK, 53) == 0x0000F600 && W(BLOCK, 54) == 0x1E84C7A3
    requires W(BLOCK, 55) == 0x98E04D98 && W(BLOCK, 56) == 0x651D16A0 && W(BLOCK, 57) == 0x62658CA1
    requires W(BLOCK, 58) == 0x458544D6 && W(BLOCK, 59) == 0x44584CB7
    ensures At(60, Digest(0x3F52DE5A, 0x09D785FD, 0x3498BFD4, 0xF211824F, 0xD79915AB))
  {
    hide W, BLOCK, Rounds, At;
    NextRoundOfAbc(40, Digest(0x32DE1CBA, 0x4C986405, 0xF718E5CF, 0x03D447F6, 0xF72EEC32), 0xD2E138C4,
                   Digest(0xFC87DEDF, 0x32DE1CBA, 0x53261901, 0xF718E5CF, 0x03D447F6));
    NextRoundOfAbc(41, Digest(0xFC87DEDF, 0x32DE1CBA, 0x53261901, 0xF718E5CF, 0x03D447F6), 0x00000F00,
                   Digest(0x970A0D5C, 0xFC87DEDF, 0x8CB7872E, 0x53261901, 0xF718E5CF));
    NextRoundOfAbc(42, Digest(0x970A0D5C, 0xFC87DEDF, 0x8CB7872E, 0x53261901, 0xF718E5CF), 0x3AFB5079,
                   Digest(0x7F193DC5, 0x970A0D5C, 0xFF21F7B7, 0x8CB7872E, 0x53261901));
    NextRoundOfAbc(43, Digest(0x7F193DC5, 0x970A0D5C, 0xFF21F7B7, 0x8CB7872E, 0x53261901), 0x898E04E5,
                   Digest(0xEE1B1AAF, 0x7F193DC5, 0x25C28357, 0xFF21F7B7, 0x8CB7872E));
    NextRoundOfAbc(44, Digest(0xEE1B1AAF, 0x7F193DC5, 0x25C28357, 0xFF21F7B7, 0x8CB7872E), 0xE2BA3C2B,
                   Digest(0x40F28E09, 0xEE1B1AAF, 0x5FC64F71, 0x25C28357, 0xFF21F7B7));
    NextRoundOfAbc(45, Digest(0x40F28E09, 0xEE1B1AAF, 0x5FC64F71, 0x25C28357, 0xFF21F7B7), 0x000060C0,
                   Digest(0x1C51E1F2, 0x40F28E09, 0xFB86C6AB, 0x5FC64F71, 0x25C28357));
    NextRoundOfAbc(46, Digest(0x1C51E1F2, 0x40F28E09, 0xFB86C6AB, 0x5FC64F71, 0x25C28357), 0x053A37CD,
                   Digest(0xA01B846C, 0x1C51E1F2, 0x503CA382, 0xFB86C6AB, 0x5FC64F71));
    NextRoundOfAbc(47, Digest(0xA01B846C, 0x1C51E1F2, 0x503CA382, 0xFB86C6AB, 0x5FC64F71), 0x74458547,
                   Digest(0xBEAD02CA, 0xA01B846C, 0x8714787C, 0x503CA382, 0xFB86C6AB));
    NextRoundOfAbc(48, Digest(0xBEAD02CA, 0xA01B846C, 0x8714787C, 0x503CA382, 0xFB86C6AB), 0xDA9415ED,
                   Digest(0xBAF39337, 0xBEAD02CA, 0x2806E11B, 0x8714787C, 0x503CA382));
    NextRoundOfAbc(49, Digest(0xBAF39337, 0xBEAD02CA, 0x2806E11B, 0x8714787C, 0x503CA382), 0x26380A16,
                   Digest(0x120731C5, 0xBAF39337, 0xAFAB40B2, 0x2806E11B, 0x8714787C));
    NextRoundOfAbc(50, Digest(0x120731C5, 0xBAF39337, 0xAFAB40B2, 0x2806E11B, 0x8714787C), 0x626383A1,
                   Digest(0x641DB2CE, 0x120731C5, 0xEEBCE4CD, 0xAFAB40B2, 0x2806E11B));
    NextRoundOfAbc(51, Digest(0x641DB2CE, 0x120731C5, 0xEEBCE4CD, 0xAFAB40B2, 0x2806E11B), 0x4EBF54DE,
                   Digest(0x3847AD66, 0x641DB2CE, 0x4481CC71, 0xEEBCE4CD, 0xAFAB40B2));
    NextRoundOfAbc(52, Digest(0x3847AD66, 0x641DB2CE, 0x4481CC71, 0xEEBCE4CD, 0xAFAB40B2), 0x3835B44B,
                   Digest(0xE490436D, 0x3847AD66, 0x99076CB3, 0x4481CC71, 0xEEBCE4CD));
    NextRoundOfAbc(53, Digest(0xE490436D, 0x3847AD66, 0x99076CB3, 0x4481CC71, 0xEEBCE4CD), 0x0000F600,
                   Digest(0x27E9F1D8, 0xE490436D, 0x8E11EB59, 0x99076CB3, 0x4481CC71));
    NextRoundOfAbc(54, Digest(0x27E9F1D8, 0xE490436D, 0x8E11EB59, 0x99076CB3, 0x4481CC71), 0x1E84C7A3,
                   Digest(0x7B71F76D, 0x27E9F1D8, 0x792410DB, 0x8E11EB59, 0x99076CB3));
    NextRoundOfAbc(55, Digest(0x7B71F76D, 0x27E9F1D8, 0x792410DB, 0x8E11EB59, 0x99076CB3), 0x98E04D98,
                   Digest(0x5E6456AF, 0x7B71F76D, 0x09FA7C76, 0x792410DB, 0x8E11EB59));
    NextRoundOfAbc(56, Digest(0x5E6456AF, 0x7B71F76D, 0x09FA7C76, 0x792410DB, 0x8E11EB59), 0x651D16A0,
                   Digest(0xC846093F, 0x5E6456AF, 0x5EDC7DDB, 0x09FA7C76, 0x792410DB));
    NextRoundOfAbc(57, Digest(0xC846093F, 0x5E6456AF, 0x5EDC7DDB, 0x09FA7C76, 0x792410DB), 0x62658CA1,
                   Digest(0xD262FF50, 0xC846093F, 0xD79915AB, 0x5EDC7DDB, 0x09FA7C76));
    NextRoundOfAbc(58, Digest(0xD262FF50, 0xC846093F, 0xD79915AB, 0x5EDC7DDB, 0x09FA7C76), 0x458544D6,
                   Digest(0x09D785FD, 0xD262FF50, 0xF211824F, 0xD79915AB, 0x5EDC7DDB));
    NextRoundOfAbc(59, Digest(0x09D785FD, 0xD262FF50, 0xF211824F, 0xD79915AB, 0x5EDC7DDB), 0x44584CB7,
                   Digest(0x3F52DE5A, 0x09D785FD, 0x3498BFD4, 0xF211824F, 0xD79915AB));
  }

  lemma Rounds60To79()
    requires At(60, Digest(0x3F52DE5A, 0x09D785FD, 0x3498BFD4, 0xF211824F, 0xD79915AB))
    requires W(BLOCK, 60) == 0x7BA06619 && W(BLOCK, 61) == 0x6380AEA2 && W(BLOCK, 62) == 0x0AE55269
    requires W(BLOCK, 63) == 0x627B49A1 && W(BLOCK, 64) == 0x7CD45C9D && W(BLOCK, 65) == 0x000F0000
    requires W(BLOCK, 66) == 0xFB50753A && W(BLOCK, 67) == 0xEC6765E8 && W(BLOCK, 68) == 0xBA3C2BE2
    requires W(BLOCK, 69) == 0x0060C000 && W(BLOCK, 70) == 0x3A37CD05 && W(BLOCK, 71) == 0x458546F4
    requires W(BLOCK, 72) == 0xB8599DD6 && W(BLOCK, 73) == 0x380A1A26 && W(BLOCK, 74) == 0x01E02203
    requires W(BLOCK, 75) == 0xE7CC3456 && W(BLOCK, 76) == 0xE6E60B69 && W(BLOCK, 77) == 0x00F60A00
    requires W(BLOCK, 78) == 0x5795EF4F && W(BLOCK, 79) == 0x822E0879
    ensures At(80, Digest(0x42541B35, 0x5738D5E1, 0x21834873, 0x681E6DF6, 0xD8FDF6AD))
  {
    hide W, BLOCK, Rounds, At;
    NextRoundOfAbc(60, Digest(0x3F52DE5A, 0x09D785FD, 0x3498BFD4, 0xF211824F, 0xD79915AB), 0x7BA06619,
                   Digest(0xD756C147, 0x3F52DE5A, 0x4275E17F, 0x3498BFD4, 0xF211824F));
    NextRoundOfAbc(61, Digest(0xD756C147, 0x3F52DE5A, 0x4275E17F, 0x3498BFD4, 0xF211824F), 0x6380AEA2,
                   Digest(0x548C9CB2, 0xD756C147, 0x8FD4B796, 0x4275E17F, 0x3498BFD4));
    NextRoundOfAbc(62, Digest(0x548C9CB2, 0xD756C147, 0x8FD4B796, 0x4275E17F, 0x3498BFD4), 0x0AE55269,
                   Digest(0xB66C020B, 0x548C9CB2, 0xF5D5B051, 0x8FD4B796, 0x4275E17F));
    NextRoundOfAbc(63, Digest(0xB66C020B, 0x548C9CB2, 0xF5D5B051, 0x8FD4B796, 0x4275E17F), 0x627B49A1,
                   Digest(0x6B61C9E1, 0xB66C020B, 0x9523272C, 0xF5D5B051, 0x8FD4B796));
    NextRoundOfAbc(64, Digest(0x6B61C9E1, 0xB66C020B, 0x9523272C, 0xF5D5B051, 0x8FD4B796), 0x7CD45C9D,
                   Digest(0x19DFA7AC, 0x6B61C9E1, 0xED9B0082, 0x9523272C, 0xF5D5B051));
    NextRoundOfAbc(65, Digest(0x19DFA7AC, 0x6B61C9E1, 0xED9B0082, 0x9523272C, 0xF5D5B051), 0x000F0000,
                   Digest(0x101655F9, 0x19DFA7AC, 0x5AD87278, 0xED9B0082, 0x9523272C));
    NextRoundOfAbc(66, Digest(0x101655F9, 0x19DFA7AC, 0x5AD87278, 0xED9B0082, 0x9523272C), 0xFB50753A,
                   Digest(0x0C3DF2B4, 0x101655F9, 0x0677E9EB, 0x5AD87278, 0xED9B0082));
    NextRoundOfAbc(67, Digest(0x0C3DF2B4, 0x101655F9, 0x0677E9EB, 0x5AD87278, 0xED9B0082), 0xEC6765E8,
                   Digest(0x78DD4D2B, 0x0C3DF2B4, 0x4405957E, 0x0677E9EB, 0x5AD87278));
    NextRoundOfAbc(68, Digest(0x78DD4D2B, 0x0C3DF2B4, 0x4405957E, 0x0677E9EB, 0x5AD87278), 0xBA3C2BE2,
                   Digest(0x497093C0, 0x78DD4D2B, 0x030F7CAD, 0x4405957E, 0x0677E9EB));
    NextRoundOfAbc(69, Digest(0x497093C0, 0x78DD4D2B, 0x030F7CAD, 0x4405957E, 0x0677E9EB), 0x0060C000,
                   Digest(0x3F2588C2, 0x497093C0, 0xDE37534A, 0x030F7CAD, 0x4405957E));
    NextRoundOfAbc(70, Digest(0x3F2588C2, 0x497093C0, 0xDE37534A, 0x030F7CAD, 0x4405957E), 0x3A37CD05,
                   Digest(0xC199F8C7, 0x3F2588C2, 0x125C24F0, 0xDE37534A, 0x030F7CAD));
    NextRoundOfAbc(71, Digest(0xC199F8C7, 0x3F2588C2, 0x125C24F0, 0xDE37534A, 0x030F7CAD), 0x458546F4,
                   Digest(0x39859DE7, 0xC199F8C7, 0x8FC96230, 0x125C24F0, 0xDE37534A));
    NextRoundOfAbc(72, Digest(0x39859DE7, 0xC199F8C7, 0x8FC96230, 0x125C24F0, 0xDE37534A), 0xB8599DD6,
                   Digest(0xEDB42DE4, 0x39859DE7, 0xF0667E31, 0x8FC96230, 0x125C24F0));
    NextRoundOfAbc(73, Digest(0xEDB42DE4, 0x39859DE7, 0xF0667E31, 0x8FC96230, 0x125C24F0), 0x380A1A26,
                   Digest(0x11793F6F, 0xEDB42DE4, 0xCE616779, 0xF0667E31, 0x8FC96230));
    NextRoundOfAbc(74, Digest(0x11793F6F, 0xEDB42DE4, 0xCE616779, 0xF0667E31, 0x8FC96230), 0x01E02203,
                   Digest(0x5EE76897, 0x11793F6F, 0x3B6D0B79, 0xCE616779, 0xF0667E31));
    NextRoundOfAbc(75, Digest(0x5EE76897, 0x11793F6F, 0x3B6D0B79, 0xCE616779, 0xF0667E31), 0xE7CC3456,
                   Digest(0x63F7DAB7, 0x5EE76897, 0xC45E4FDB, 0x3B6D0B79, 0xCE616779));
    NextRoundOfAbc(76, Digest(0x63F7DAB7, 0x5EE76897, 0xC45E4FDB, 0x3B6D0B79, 0xCE616779), 0xE6E60B69,
                   Digest(0xA079B7D9, 0x63F7DAB7, 0xD7B9DA25, 0xC45E4FDB, 0x3B6D0B79));
    NextRoundOfAbc(77, Digest(0xA079B7D9, 0x63F7DAB7, 0xD7B9DA25, 0xC45E4FDB, 0x3B6D0B79), 0x00F60A00,
                   Digest(0x860D21CC, 0xA079B7D9, 0xD8FDF6AD, 0xD7B9DA25, 0xC45E4FDB));
    NextRoundOfAbc(78, Digest(0x860D21CC, 0xA079B7D9, 0xD8FDF6AD, 0xD7B9DA25, 0xC45E4FDB), 0x5795EF4F,
                   Digest(0x5738D5E1, 0x860D21CC, 0x681E6DF6, 0xD8FDF6AD, 0xD7B9DA25));
    NextRoundOfAbc(79, Digest(0x5738D5E1, 0x860D21CC, 0x681E6DF6, 0xD8FDF6AD, 0xD7B9DA25), 0x822E0879,
                   Digest(0x42541B35, 0x5738D5E1, 0x21834873, 0x681E6DF6, 0xD8FDF6AD));
  }

  lemma {:induction false} NoRoundsYet()
    ensures At(0, INITIAL)
  {
    AbcPadded();
  }

  /** The digest of "abc". */
  lemma DigestOfAbc()
    ensures Sha1Spec.Sha1([0x61, 0x62, 0x63])
         == Digest(0xA9993E36, 0x4706816A, 0xBA3E2571, 0x7850C26C, 0x9CD0D89D)
  {
    hide W, BLOCK, Rounds, Pad, HashBlocks;
    AbcPadded();
    FirstWordsOfAbc();
    Words16To31();
    Words32To47();
    Words48To63();
    Words64To79();
    NoRoundsYet();
    Rounds0To19();
    Rounds20To39();
    Rounds40To59();
    Rounds60To79();
    assert Schedule(BLOCK)[..80] == Schedule(BLOCK);
    OneBlock(INITIAL, BLOCK);
  }

  lemma {:induction false} OneBlock(h: Digest, block: seq<Octet>)
    requires |block| == 64
    ensures HashBlocks(h, block) == Compress(h, block)
  {
    hide Compress;
    assert block[..0] == [] && block[0..] == block;
  }
}
