/** Known answers of SHA-1: "abc" of FIPS PUB 180-1, and the example of section 1.3 of RFC 6455. */
module Sha1Vectors {
  import opened Bytes
  import opened Sha1

  // ---------------------------------------------------------------- rotation

  /** S^n(X) in arithmetic modulo 2^32: what leaves the word on the left comes back on the right. */
  lemma RotationByOne(x: Word)
    ensures RotateLeft(1, x) == x * 2 + x / 0x8000_0000
  {
  }

  lemma RotationByFive(x: Word)
    ensures RotateLeft(5, x) == x * 32 + x / 0x800_0000
  {
  }

  lemma RotationByThirty(x: Word)
    ensures RotateLeft(30, x) == x * 0x4000_0000 + x / 4
  {
  }

  // ---------------------------------------------------------------- schedules

  predicate Eight(w: seq<Word>, t: nat, a: Word, b: Word, c: Word, d: Word, e: Word, f: Word, g: Word, h: Word) {
    && t + 8 <= |w| && w[t] == a && w[t + 1] == b && w[t + 2] == c && w[t + 3] == d
    && w[t + 4] == e && w[t + 5] == f && w[t + 6] == g && w[t + 7] == h
  }

  /** From word 16 on each is made of four before it. */
  predicate Extended(w: seq<Word>) {
    && |w| == 80
    && forall t {:trigger w[t]} :: 16 <= t < 80 ==>
         w[t] == RotateLeft(1, Xor4(w[t - 3], w[t - 8], w[t - 14], w[t - 16]))
  }

  lemma {:induction false} SchedulePrefix(block: seq<byte>, n: nat, m: nat)
    requires |block| == 64 && n <= m
    ensures Schedule(block, m)[..n] == Schedule(block, n)
    decreases m
  {
    if n < m {
      SchedulePrefix(block, n, m - 1);
      assert Schedule(block, m)[..m - 1] == Schedule(block, m - 1);
      assert Schedule(block, m)[..n] == Schedule(block, m)[..m - 1][..n];
    }
  }

  lemma ScheduleExtends(block: seq<byte>)
    requires |block| == 64
    ensures Extended(Schedule(block, 80))
  {
    hide RotateLeft, Xor4;
    var w := Schedule(block, 80);
    forall t | 16 <= t < 80 ensures w[t] == RotateLeft(1, Xor4(w[t - 3], w[t - 8], w[t - 14], w[t - 16])) {
      SchedulePrefix(block, t + 1, 80);
      SchedulePrefix(block, t, t + 1);
      assert w[..t + 1] == Schedule(block, t + 1);
      assert w[..t] == w[..t + 1][..t];
    }
  }

  /** The first words are the octets of the block. */
  lemma ScheduleStarts(block: seq<byte>, t: nat)
    requires |block| == 64 && t < 16
    ensures Schedule(block, 80)[t]
      == WordOf(block[4 * t], block[4 * t + 1], block[4 * t + 2], block[4 * t + 3])
  {
    hide WordOf;
    SchedulePrefix(block, t + 1, 80);
    assert Schedule(block, 80)[..t + 1][t] == Schedule(block, 80)[t];
  }

  lemma FourWords(block: seq<byte>, t: nat, s: seq<byte>)
    requires |block| == 64 && t <= 12 && |s| == 16 && block[4 * t..4 * t + 16] == s
    ensures var w := Schedule(block, 80);
      && w[t] == WordOf(s[0], s[1], s[2], s[3]) && w[t + 1] == WordOf(s[4], s[5], s[6], s[7])
      && w[t + 2] == WordOf(s[8], s[9], s[10], s[11]) && w[t + 3] == WordOf(s[12], s[13], s[14], s[15])
  {
    hide WordOf, Schedule;
    ScheduleStarts(block, t);
    ScheduleStarts(block, t + 1);
    ScheduleStarts(block, t + 2);
    ScheduleStarts(block, t + 3);
    forall i | 0 <= i < 16 ensures s[i] == block[4 * t..4 * t + 16][i] {
    }
  }

  lemma NoRounds(s: Words, w: seq<Word>)
    ensures Rounds(s, w, 0) == s
  {
  }

  // ---------------------------------------------------------------- "abc"

  lemma AbcWords1(w: seq<Word>)
    requires Extended(w)
      && Eight(w, 0, 0x61626380, 0x00000000, 0x00000000, 0x00000000, 0x00000000, 0x00000000, 0x00000000, 0x00000000)
      && Eight(w, 8, 0x00000000, 0x00000000, 0x00000000, 0x00000000, 0x00000000, 0x00000000, 0x00000000, 0x00000018)
    ensures Eight(w, 16, 0xC2C4C700, 0x00000000, 0x00000030, 0x85898E01, 0x00000000, 0x00000060, 0x0B131C03, 0x00000030)
      && Eight(w, 24, 0x85898EC1, 0x16263806, 0x00000000, 0x00000180, 0x2C4C700C, 0x000000F0, 0x93AFB507, 0x5898E048)
  {
  }

  lemma AbcWords2(w: seq<Word>)
    requires Extended(w)
      && Eight(w, 16, 0xC2C4C700, 0x00000000, 0x00000030, 0x85898E01, 0x00000000, 0x00000060, 0x0B131C03, 0x00000030)
      && Eight(w, 24, 0x85898EC1, 0x16263806, 0x00000000, 0x00000180, 0x2C4C700C, 0x000000F0, 0x93AFB507, 0x5898E048)
    ensures Eight(w, 32, 0x8E9A9202, 0x00000600, 0xB131C0F0, 0x16263BC6, 0x4EBED41E, 0x626380A1, 0x16263806, 0x000018C0)
      && Eight(w, 40, 0xD2E138C4, 0x00000F00, 0x3AFB5079, 0x898E04E5, 0xE2BA3C2B, 0x000060C0, 0x053A37CD, 0x74458547)
  {
  }

  lemma AbcWords3(w: seq<Word>)
    requires Extended(w)
      && Eight(w, 32, 0x8E9A9202, 0x00000600, 0xB131C0F0, 0x16263BC6, 0x4EBED41E, 0x626380A1, 0x16263806, 0x000018C0)
      && Eight(w, 40, 0xD2E138C4, 0x00000F00, 0x3AFB5079, 0x898E04E5, 0xE2BA3C2B, 0x000060C0, 0x053A37CD, 0x74458547)
    ensures Eight(w, 48, 0xDA9415ED, 0x26380A16, 0x626383A1, 0x4EBF54DE, 0x3835B44B, 0x0000F600, 0x1E84C7A3, 0x98E04D98)
      && Eight(w, 56, 0x651D16A0, 0x62658CA1, 0x458544D6, 0x44584CB7, 0x7BA06619, 0x6380AEA2, 0x0AE55269, 0x627B49A1)
  {
  }

  lemma AbcWords4(w: seq<Word>)
    requires Extended(w)
      && Eight(w, 48, 0xDA9415ED, 0x26380A16, 0x626383A1, 0x4EBF54DE, 0x3835B44B, 0x0000F600, 0x1E84C7A3, 0x98E04D98)
      && Eight(w, 56, 0x651D16A0, 0x62658CA1, 0x458544D6, 0x44584CB7, 0x7BA06619, 0x6380AEA2, 0x0AE55269, 0x627B49A1)
    ensures Eight(w, 64, 0x7CD45C9D, 0x000F0000, 0xFB50753A, 0xEC6765E8, 0xBA3C2BE2, 0x0060C000, 0x3A37CD05, 0x458546F4)
      && Eight(w, 72, 0xB8599DD6, 0x380A1A26, 0x01E02203, 0xE7CC3456, 0xE6E60B69, 0x00F60A00, 0x5795EF4F, 0x822E0879)
  {
  }

  lemma AbcRounds0(s: Words, w: seq<Word>)
    requires |w| == 80
      && Eight(w, 0, 0x61626380, 0x00000000, 0x00000000, 0x00000000, 0x00000000, 0x00000000, 0x00000000, 0x00000000)
      && Eight(w, 8, 0x00000000, 0x00000000, 0x00000000, 0x00000000, 0x00000000, 0x00000000, 0x00000000, 0x00000018)
    requires Rounds(s, w, 0) == Words(0x67452301, 0xEFCDAB89, 0x98BADCFE, 0x10325476, 0xC3D2E1F0)
    ensures Rounds(s, w, 16) == Words(0x20BDD62F, 0x196BEE77, 0x644A3DA5, 0x1181ED99, 0x18C623F9)
  {
    assert Rounds(s, w, 2) == Words(0x8990536D, 0x0116FC33, 0x59D148C0, 0x7BF36AE2, 0x98BADCFE);
    assert Rounds(s, w, 4) == Words(0xCDD8E11B, 0xA1390F08, 0x626414DB, 0xC045BF0C, 0x59D148C0);
    assert Rounds(s, w, 6) == Words(0x3FC7CA40, 0xCFD499DE, 0xF3763846, 0x284E43C2, 0x626414DB);
    assert Rounds(s, w, 8) == Words(0x9E8C07D4, 0x993E30C1, 0x0FF1F290, 0xB3F52677, 0xF3763846);
    assert Rounds(s, w, 10) == Words(0x8351F929, 0x4B6AE328, 0x27A301F5, 0x664F8C30, 0x0FF1F290);
    assert Rounds(s, w, 12) == Words(0x63188FE4, 0xFBDA9E89, 0x60D47E4A, 0x12DAB8CA, 0x27A301F5);
    assert Rounds(s, w, 14) == Words(0x9128F695, 0x4607B664, 0x18C623F9, 0x7EF6A7A2, 0x60D47E4A);
  }

  lemma AbcRounds1(s: Words, w: seq<Word>)
    requires |w| == 80
      && Eight(w, 16, 0xC2C4C700, 0x00000000, 0x00000030, 0x85898E01, 0x00000000, 0x00000060, 0x0B131C03, 0x00000030)
      && Eight(w, 24, 0x85898EC1, 0x16263806, 0x00000000, 0x00000180, 0x2C4C700C, 0x000000F0, 0x93AFB507, 0x5898E048)
    requires Rounds(s, w, 16) == Words(0x20BDD62F, 0x196BEE77, 0x644A3DA5, 0x1181ED99, 0x18C623F9)
    ensures Rounds(s, w, 32) == Words(0x3B845D33, 0x1267B407, 0x717EEBD7, 0xA0DC2D4B, 0xD2AA1365)
  {
    assert Rounds(s, w, 18) == Words(0x82AA6728, 0x4E925823, 0xC82F758B, 0xC65AFB9D, 0x644A3DA5);
    assert Rounds(s, w, 20) == Words(0xFD9E1D7D, 0xDC64901D, 0x20AA99CA, 0xD3A49608, 0xC82F758B);
    assert Rounds(s, w, 22) == Words(0x33A23BFC, 0x1A37B0CA, 0x7F67875F, 0x77192407, 0x20AA99CA);
    assert Rounds(s, w, 24) == Words(0xD541F12D, 0x21283486, 0x0CE88EFF, 0x868DEC32, 0x7F67875F);
    assert Rounds(s, w, 26) == Words(0x48413BA4, 0xC7567DC6, 0x75507C4B, 0x884A0D21, 0x0CE88EFF);
    assert Rounds(s, w, 28) == Words(0x4AA84D97, 0xBE35FBD5, 0x12104EE9, 0xB1D59F71, 0x75507C4B);
    assert Rounds(s, w, 30) == Words(0xC5FBAF5D, 0x8370B52E, 0xD2AA1365, 0x6F8D7EF5, 0x12104EE9);
  }

  lemma AbcRounds2(s: Words, w: seq<Word>)
    requires |w| == 80
      && Eight(w, 32, 0x8E9A9202, 0x00000600, 0xB131C0F0, 0x16263BC6, 0x4EBED41E, 0x626380A1, 0x16263806, 0x000018C0)
      && Eight(w, 40, 0xD2E138C4, 0x00000F00, 0x3AFB5079, 0x898E04E5, 0xE2BA3C2B, 0x000060C0, 0x053A37CD, 0x74458547)
    requires Rounds(s, w, 32) == Words(0x3B845D33, 0x1267B407, 0x717EEBD7, 0xA0DC2D4B, 0xD2AA1365)
    ensures Rounds(s, w, 48) == Words(0xBEAD02CA, 0xA01B846C, 0x8714787C, 0x503CA382, 0xFB86C6AB)
  {
    assert Rounds(s, w, 34) == Words(0x2C0EBC11, 0x046FAA0A, 0xCEE1174C, 0xC499ED01, 0x717EEBD7);
    assert Rounds(s, w, 36) == Words(0xDCBBB0CB, 0x21796AD4, 0x4B03AF04, 0x811BEA82, 0xCEE1174C);
    assert Rounds(s, w, 38) == Words(0xDC63973F, 0x0F511FD8, 0xF72EEC32, 0x085E5AB5, 0x4B03AF04);
    assert Rounds(s, w, 40) == Words(0x32DE1CBA, 0x4C986405, 0xF718E5CF, 0x03D447F6, 0xF72EEC32);
    assert Rounds(s, w, 42) == Words(0x970A0D5C, 0xFC87DEDF, 0x8CB7872E, 0x53261901, 0xF718E5CF);
    assert Rounds(s, w, 44) == Words(0xEE1B1AAF, 0x7F193DC5, 0x25C28357, 0xFF21F7B7, 0x8CB7872E);
    assert Rounds(s, w, 46) == Words(0x1C51E1F2, 0x40F28E09, 0xFB86C6AB, 0x5FC64F71, 0x25C28357);
  }

  lemma AbcRounds3(s: Words, w: seq<Word>)
    requires |w| == 80
      && Eight(w, 48, 0xDA9415ED, 0x26380A16, 0x626383A1, 0x4EBF54DE, 0x3835B44B, 0x0000F600, 0x1E84C7A3, 0x98E04D98)
      && Eight(w, 56, 0x651D16A0, 0x62658CA1, 0x458544D6, 0x44584CB7, 0x7BA06619, 0x6380AEA2, 0x0AE55269, 0x627B49A1)
    requires Rounds(s, w, 48) == Words(0xBEAD02CA, 0xA01B846C, 0x8714787C, 0x503CA382, 0xFB86C6AB)
    ensures Rounds(s, w, 64) == Words(0x6B61C9E1, 0xB66C020B, 0x9523272C, 0xF5D5B051, 0x8FD4B796)
  {
    assert Rounds(s, w, 50) == Words(0x120731C5, 0xBAF39337, 0xAFAB40B2, 0x2806E11B, 0x8714787C);
    assert Rounds(s, w, 52) == Words(0x3847AD66, 0x641DB2CE, 0x4481CC71, 0xEEBCE4CD, 0xAFAB40B2);
    assert Rounds(s, w, 54) == Words(0x27E9F1D8, 0xE490436D, 0x8E11EB59, 0x99076CB3, 0x4481CC71);
    assert Rounds(s, w, 56) == Words(0x5E6456AF, 0x7B71F76D, 0x09FA7C76, 0x792410DB, 0x8E11EB59);
    assert Rounds(s, w, 58) == Words(0xD262FF50, 0xC846093F, 0xD79915AB, 0x5EDC7DDB, 0x09FA7C76);
    assert Rounds(s, w, 60) == Words(0x3F52DE5A, 0x09D785FD, 0x3498BFD4, 0xF211824F, 0xD79915AB);
    assert Rounds(s, w, 62) == Words(0x548C9CB2, 0xD756C147, 0x8FD4B796, 0x4275E17F, 0x3498BFD4);
  }

  lemma AbcRounds4(s: Words, w: seq<Word>)
    requires |w| == 80
      && Eight(w, 64, 0x7CD45C9D, 0x000F0000, 0xFB50753A, 0xEC6765E8, 0xBA3C2BE2, 0x0060C000, 0x3A37CD05, 0x458546F4)
      && Eight(w, 72, 0xB8599DD6, 0x380A1A26, 0x01E02203, 0xE7CC3456, 0xE6E60B69, 0x00F60A00, 0x5795EF4F, 0x822E0879)
    requires Rounds(s, w, 64) == Words(0x6B61C9E1, 0xB66C020B, 0x9523272C, 0xF5D5B051, 0x8FD4B796)
    ensures Rounds(s, w, 80) == Words(0x42541B35, 0x5738D5E1, 0x21834873, 0x681E6DF6, 0xD8FDF6AD)
  {
    assert Rounds(s, w, 66) == Words(0x101655F9, 0x19DFA7AC, 0x5AD87278, 0xED9B0082, 0x9523272C);
    assert Rounds(s, w, 68) == Words(0x78DD4D2B, 0x0C3DF2B4, 0x4405957E, 0x0677E9EB, 0x5AD87278);
    assert Rounds(s, w, 70) == Words(0x3F2588C2, 0x497093C0, 0xDE37534A, 0x030F7CAD, 0x4405957E);
    assert Rounds(s, w, 72) == Words(0x39859DE7, 0xC199F8C7, 0x8FC96230, 0x125C24F0, 0xDE37534A);
    assert Rounds(s, w, 74) == Words(0x11793F6F, 0xEDB42DE4, 0xCE616779, 0xF0667E31, 0x8FC96230);
    assert Rounds(s, w, 76) == Words(0x63F7DAB7, 0x5EE76897, 0xC45E4FDB, 0x3B6D0B79, 0xCE616779);
    assert Rounds(s, w, 78) == Words(0x860D21CC, 0xA079B7D9, 0xD8FDF6AD, 0xD7B9DA25, 0xC45E4FDB);
  }

  lemma AbcBlock(block: seq<byte>)
    requires |block| == 64
      && var w := Schedule(block, 80);
         && Eight(w, 0, 0x61626380, 0x00000000, 0x00000000, 0x00000000, 0x00000000, 0x00000000, 0x00000000, 0x00000000)
         && Eight(w, 8, 0x00000000, 0x00000000, 0x00000000, 0x00000000, 0x00000000, 0x00000000, 0x00000000, 0x00000018)
    ensures Compress(Words(0x67452301, 0xEFCDAB89, 0x98BADCFE, 0x10325476, 0xC3D2E1F0), block)
      == Words(0xA9993E36, 0x4706816A, 0xBA3E2571, 0x7850C26C, 0x9CD0D89D)
  {
    hide Rounds, Schedule, Extended;
    var s, w := Words(0x67452301, 0xEFCDAB89, 0x98BADCFE, 0x10325476, 0xC3D2E1F0), Schedule(block, 80);
    ScheduleExtends(block);
    NoRounds(s, w);
    AbcWords1(w);
    AbcWords2(w);
    AbcWords3(w);
    AbcWords4(w);
    AbcRounds0(s, w);
    AbcRounds1(s, w);
    AbcRounds2(s, w);
    AbcRounds3(s, w);
    AbcRounds4(s, w);
  }

  lemma AbcStart(block: seq<byte>)
    requires |block| == 64
    requires block[0..16]
      == [0x61, 0x62, 0x63, 0x80, 0, 0, 0, 0, 0, 0, 0, 0, 0, 0, 0, 0]
    requires block[16..32]
      == [0, 0, 0, 0, 0, 0, 0, 0, 0, 0, 0, 0, 0, 0, 0, 0]
    requires block[32..48]
      == [0, 0, 0, 0, 0, 0, 0, 0, 0, 0, 0, 0, 0, 0, 0, 0]
    requires block[48..64]
      == [0, 0, 0, 0, 0, 0, 0, 0, 0, 0, 0, 0, 0, 0, 0, 0x18]
    ensures var w := Schedule(block, 80);
      && Eight(w, 0, 0x61626380, 0x00000000, 0x00000000, 0x00000000, 0x00000000, 0x00000000, 0x00000000, 0x00000000)
      && Eight(w, 8, 0x00000000, 0x00000000, 0x00000000, 0x00000000, 0x00000000, 0x00000000, 0x00000000, 0x00000018)
  {
    hide Schedule;
    FourWords(block, 0, block[0..16]);
    FourWords(block, 4, block[16..32]);
    FourWords(block, 8, block[32..48]);
    FourWords(block, 12, block[48..64]);
  }

  lemma LengthsInOctets()
    ensures BigEndian(24, 8) == [0, 0, 0, 0, 0, 0, 0, 24] && BigEndian(480, 8) == [0, 0, 0, 0, 0, 0, 1, 0xE0]
  {
    ZerosInFront(7);
    ZerosInFront(6);
    assert BigEndian(24, 8) == BigEndian(0, 7) + [24];
    assert BigEndian(480, 8) == BigEndian(1, 7) + [0xE0];
    assert BigEndian(1, 7) == BigEndian(0, 6) + [1];
  }

  lemma {:induction false} ZerosInFront(k: nat)
    ensures BigEndian(0, k) == Zeros(k)
  {
    if k > 0 {
      ZerosInFront(k - 1);
    }
  }

  /** Appendix A of FIPS PUB 180-1. */
  lemma DigestOfAbc()
    ensures DigestOf([0x61, 0x62, 0x63]) ==
      [0xA9, 0x99, 0x3E, 0x36, 0x47, 0x06, 0x81, 0x6A, 0xBA, 0x3E,
       0x25, 0x71, 0x78, 0x50, 0xC2, 0x6C, 0x9C, 0xD0, 0xD8, 0x9D]
  {
    hide Compress, Schedule, HashAfter, BigEndian;
    var m: seq<byte> := [0x61, 0x62, 0x63];
    var block := m + [0x80] + Zeros(52) + BigEndian(24, 8);
    LengthsInOctets();
    LastBlocks(m);
    assert m[0..] == m && HashAfter(m, 0) == INITIAL by { NothingHashed(m); }
    AbcStart(block);
    AbcBlock(block);
    AbcDigest();
  }

  lemma NothingHashed(m: seq<byte>)
    ensures HashAfter(m, 0) == Words(0x67452301, 0xEFCDAB89, 0x98BADCFE, 0x10325476, 0xC3D2E1F0)
  {
  }

  lemma AbcDigest()
    ensures Digest(Words(0xA9993E36, 0x4706816A, 0xBA3E2571, 0x7850C26C, 0x9CD0D89D)) ==
      [0xA9, 0x99, 0x3E, 0x36, 0x47, 0x06, 0x81, 0x6A, 0xBA, 0x3E,
       0x25, 0x71, 0x78, 0x50, 0xC2, 0x6C, 0x9C, 0xD0, 0xD8, 0x9D]
  {
  }

  // ---------------------------------------------------------------- the example of RFC 6455

  lemma FirstWords1(w: seq<Word>)
    requires Extended(w)
      && Eight(w, 0, 0x6447686C, 0x49484E68, 0x62584273, 0x5A534275, 0x6232356A, 0x5A513D3D, 0x32353845, 0x41464135)
      && Eight(w, 8, 0x2D453931, 0x342D3437, 0x44412D39, 0x3543412D, 0x43354142, 0x30444338, 0x35423131, 0x80000000)
    ensures Eight(w, 16, 0x363CA02C, 0x24E81236, 0x8856B441, 0x06FB3C92, 0x6FB4BCB6, 0x460B16E3, 0x599219AE, 0x35BF9369)
      && Eight(w, 24, 0x3267458E, 0xF828FD04, 0x753A96A7, 0x6336F612, 0xC3D66383, 0x06EB86F9, 0x73B4FD42, 0xA503C5B8)
  {
  }

  lemma FirstWords2(w: seq<Word>)
    requires Extended(w)
      && Eight(w, 16, 0x363CA02C, 0x24E81236, 0x8856B441, 0x06FB3C92, 0x6FB4BCB6, 0x460B16E3, 0x599219AE, 0x35BF9369)
      && Eight(w, 24, 0x3267458E, 0xF828FD04, 0x753A96A7, 0x6336F612, 0xC3D66383, 0x06EB86F9, 0x73B4FD42, 0xA503C5B8)
    ensures Eight(w, 32, 0x15CDAE35, 0x531E5DC5, 0x6FB6B7D0, 0x6C16E4AC, 0x4DDD36BD, 0x35D36946, 0xE8AE8B9C, 0x4A933AD0)
      && Eight(w, 40, 0xCE8628B4, 0x415DBA9E, 0x2792F049, 0x8E9B79E7, 0x79C425C5, 0x6353B49D, 0x00994218, 0x8A950ED1)
  {
  }

  lemma FirstWords3(w: seq<Word>)
    requires Extended(w)
      && Eight(w, 32, 0x15CDAE35, 0x531E5DC5, 0x6FB6B7D0, 0x6C16E4AC, 0x4DDD36BD, 0x35D36946, 0xE8AE8B9C, 0x4A933AD0)
      && Eight(w, 40, 0xCE8628B4, 0x415DBA9E, 0x2792F049, 0x8E9B79E7, 0x79C425C5, 0x6353B49D, 0x00994218, 0x8A950ED1)
    ensures Eight(w, 48, 0xAF5D0B99, 0xFD9883DE, 0x1ED8FFEB, 0xF007FF28, 0x425E3674, 0x059631C0, 0xAD6C3C31, 0x860B71D7)
      && Eight(w, 56, 0x87BFC548, 0x3E64F92D, 0x8D0AB761, 0x34E1EE35, 0x0ACF5108, 0xC2B479DA, 0x6C93370A, 0xF7935BA1)
  {
  }

  lemma FirstWords4(w: seq<Word>)
    requires Extended(w)
      && Eight(w, 48, 0xAF5D0B99, 0xFD9883DE, 0x1ED8FFEB, 0xF007FF28, 0x425E3674, 0x059631C0, 0xAD6C3C31, 0x860B71D7)
      && Eight(w, 56, 0x87BFC548, 0x3E64F92D, 0x8D0AB761, 0x34E1EE35, 0x0ACF5108, 0xC2B479DA, 0x6C93370A, 0xF7935BA1)
    ensures Eight(w, 64, 0xE91C91C1, 0xBED165A2, 0x4C3E4ABE, 0x50D96238, 0xB6587DDE, 0x1A2EE6E6, 0x2D335896, 0xF3495D0B)
      && Eight(w, 72, 0xF30E0A1D, 0x32CE5459, 0x7165E3B8, 0xAB05FF94, 0xC5949F0B, 0xBCD84E4A, 0x07720392, 0xFF3FF806)
  {
  }

  lemma FirstRounds0(s: Words, w: seq<Word>)
    requires |w| == 80
      && Eight(w, 0, 0x6447686C, 0x49484E68, 0x62584273, 0x5A534275, 0x6232356A, 0x5A513D3D, 0x32353845, 0x41464135)
      && Eight(w, 8, 0x2D453931, 0x342D3437, 0x44412D39, 0x3543412D, 0x43354142, 0x30444338, 0x35423131, 0x80000000)
    requires Rounds(s, w, 0) == Words(0x67452301, 0xEFCDAB89, 0x98BADCFE, 0x10325476, 0xC3D2E1F0)
    ensures Rounds(s, w, 16) == Words(0xA004C468, 0xE922CC9D, 0xAB86825B, 0xD86F6CAF, 0x8D33AE61)
  {
    assert Rounds(s, w, 2) == Words(0x2F793F55, 0x03FC011F, 0x59D148C0, 0x7BF36AE2, 0x98BADCFE);
    assert Rounds(s, w, 4) == Words(0x53E039AC, 0xBE90EE8F, 0x4BDE4FD5, 0xC0FF0047, 0x59D148C0);
    assert Rounds(s, w, 6) == Words(0x7320B969, 0xDD8C7C12, 0x14F80E6B, 0xEFA43BA3, 0x4BDE4FD5);
    assert Rounds(s, w, 8) == Words(0x2E0CE601, 0x73553E84, 0x5CC82E5A, 0xB7631F04, 0x14F80E6B);
    assert Rounds(s, w, 10) == Words(0xFAAD2675, 0x32BEB05A, 0x4B833980, 0x1CD54FA1, 0x5CC82E5A);
    assert Rounds(s, w, 12) == Words(0x34CEB986, 0x5FF4238C, 0x7EAB499D, 0x8CAFAC16, 0x4B833980);
    assert Rounds(s, w, 14) == Words(0xAE1A096E, 0x61BDB2BF, 0x8D33AE61, 0x17FD08E3, 0x7EAB499D);
  }

  lemma FirstRounds1(s: Words, w: seq<Word>)
    requires |w| == 80
      && Eight(w, 16, 0x363CA02C, 0x24E81236, 0x8856B441, 0x06FB3C92, 0x6FB4BCB6, 0x460B16E3, 0x599219AE, 0x35BF9369)
      && Eight(w, 24, 0x3267458E, 0xF828FD04, 0x753A96A7, 0x6336F612, 0xC3D66383, 0x06EB86F9, 0x73B4FD42, 0xA503C5B8)
    requires Rounds(s, w, 16) == Words(0xA004C468, 0xE922CC9D, 0xAB86825B, 0xD86F6CAF, 0x8D33AE61)
    ensures Rounds(s, w, 32) == Words(0xA6680A1F, 0xB7DABC8B, 0x4206D8F9, 0xC6AEC70D, 0x95C7DF60)
  {
    assert Rounds(s, w, 18) == Words(0x7EBB296B, 0xD7DAF575, 0x2801311A, 0x7A48B327, 0xAB86825B);
    assert Rounds(s, w, 20) == Words(0x091AB97C, 0x8DC510B6, 0xDFAECA5A, 0x75F6BD5D, 0x2801311A);
    assert Rounds(s, w, 22) == Words(0xD12F0B56, 0x518470A3, 0x0246AE5F, 0xA371442D, 0xDFAECA5A);
    assert Rounds(s, w, 24) == Words(0x250E26EF, 0xBEAFD554, 0xB44BC2D5, 0xD4611C28, 0x0246AE5F);
    assert Rounds(s, w, 26) == Words(0x748B39A0, 0x23D1C91B, 0xC94389BB, 0x2FABF555, 0xB44BC2D5);
    assert Rounds(s, w, 28) == Words(0x571F7D82, 0xEF012F20, 0x1D22CE68, 0xC8F47246, 0xC94389BB);
    assert Rounds(s, w, 30) == Words(0x081B63E5, 0x1ABB1C37, 0x95C7DF60, 0x3BC04BC8, 0x1D22CE68);
  }

  lemma FirstRounds2(s: Words, w: seq<Word>)
    requires |w| == 80
      && Eight(w, 32, 0x15CDAE35, 0x531E5DC5, 0x6FB6B7D0, 0x6C16E4AC, 0x4DDD36BD, 0x35D36946, 0xE8AE8B9C, 0x4A933AD0)
      && Eight(w, 40, 0xCE8628B4, 0x415DBA9E, 0x2792F049, 0x8E9B79E7, 0x79C425C5, 0x6353B49D, 0x00994218, 0x8A950ED1)
    requires Rounds(s, w, 32) == Words(0xA6680A1F, 0xB7DABC8B, 0x4206D8F9, 0xC6AEC70D, 0x95C7DF60)
    ensures Rounds(s, w, 48) == Words(0xABE1748A, 0xDEE4B7A8, 0x5CBFCCD3, 0x97D7CD14, 0xDB71A8F5)
  {
    assert Rounds(s, w, 34) == Words(0xEEABA35A, 0x1AE360A9, 0xE99A0287, 0xEDF6AF22, 0x4206D8F9);
    assert Rounds(s, w, 36) == Words(0x9DE793C8, 0x149BB4D3, 0xBBAAE8D6, 0x46B8D82A, 0xE99A0287);
    assert Rounds(s, w, 38) == Words(0x68760824, 0x4CCD2227, 0x2779E4F2, 0xC526ED34, 0xBBAAE8D6);
    assert Rounds(s, w, 40) == Words(0x2BA2C83E, 0xD0869081, 0x1A1D8209, 0xD3334889, 0x2779E4F2);
    assert Rounds(s, w, 42) == Words(0x4F589A44, 0xCB8C52D0, 0x8AE8B20F, 0x7421A420, 0x1A1D8209);
    assert Rounds(s, w, 44) == Words(0x6DC6A3D7, 0x868829B7, 0x13D62691, 0x32E314B4, 0x8AE8B20F);
    assert Rounds(s, w, 46) == Words(0x72FF334D, 0x5F5F3452, 0xDB71A8F5, 0xE1A20A6D, 0x13D62691);
  }

  lemma FirstRounds3(s: Words, w: seq<Word>)
    requires |w| == 80
      && Eight(w, 48, 0xAF5D0B99, 0xFD9883DE, 0x1ED8FFEB, 0xF007FF28, 0x425E3674, 0x059631C0, 0xAD6C3C31, 0x860B71D7)
      && Eight(w, 56, 0x87BFC548, 0x3E64F92D, 0x8D0AB761, 0x34E1EE35, 0x0ACF5108, 0xC2B479DA, 0x6C93370A, 0xF7935BA1)
    requires Rounds(s, w, 48) == Words(0xABE1748A, 0xDEE4B7A8, 0x5CBFCCD3, 0x97D7CD14, 0xDB71A8F5)
    ensures Rounds(s, w, 64) == Words(0x685E2FF6, 0x840054D3, 0xE43C0363, 0x3350802E, 0x921CB616)
  {
    assert Rounds(s, w, 50) == Words(0x065F8486, 0x7510D04F, 0xAAF85D22, 0x37B92DEA, 0x5CBFCCD3);
    assert Rounds(s, w, 52) == Words(0x10E7F671, 0x0E5D77C4, 0x8197E121, 0xDD443413, 0xAAF85D22);
    assert Rounds(s, w, 54) == Words(0x4C608AC4, 0x26C69395, 0x4439FD9C, 0x03975DF1, 0x8197E121);
    assert Rounds(s, w, 56) == Words(0x7E1242F2, 0x50C9104C, 0x131822B1, 0x49B1A4E5, 0x4439FD9C);
    assert Rounds(s, w, 58) == Words(0x0C247C2E, 0x6EF6FEF4, 0x9F8490BC, 0x14324413, 0x131822B1);
    assert Rounds(s, w, 60) == Words(0x4872D85A, 0xD284F163, 0x83091F0B, 0x1BBDBFBD, 0x9F8490BC);
    assert Rounds(s, w, 62) == Words(0x90F00D8F, 0xCD4200B8, 0x921CB616, 0xF4A13C58, 0x83091F0B);
  }

  lemma FirstRounds4(s: Words, w: seq<Word>)
    requires |w| == 80
      && Eight(w, 64, 0xE91C91C1, 0xBED165A2, 0x4C3E4ABE, 0x50D96238, 0xB6587DDE, 0x1A2EE6E6, 0x2D335896, 0xF3495D0B)
      && Eight(w, 72, 0xF30E0A1D, 0x32CE5459, 0x7165E3B8, 0xAB05FF94, 0xC5949F0B, 0xBCD84E4A, 0x07720392, 0xFF3FF806)
    requires Rounds(s, w, 64) == Words(0x685E2FF6, 0x840054D3, 0xE43C0363, 0x3350802E, 0x921CB616)
    ensures Rounds(s, w, 80) == Words(0xF48A5426, 0x835995E1, 0x25C11EFB, 0x4A45C402, 0x9A73C2F2)
  {
    assert Rounds(s, w, 66) == Words(0xC3C2E45B, 0xA4CEE018, 0x9A178BFD, 0xE1001534, 0xE43C0363);
    assert Rounds(s, w, 68) == Words(0xCF8658EC, 0x53131A40, 0xF0F0B916, 0x2933B806, 0x9A178BFD);
    assert Rounds(s, w, 70) == Words(0x07381B7E, 0x966E049A, 0x33E1963B, 0x14C4C690, 0xF0F0B916);
    assert Rounds(s, w, 72) == Words(0x7E65E044, 0x80D59773, 0x81CE06DF, 0xA59B8126, 0x33E1963B);
    assert Rounds(s, w, 74) == Words(0x143A8388, 0x628E7B47, 0x1F997811, 0xE03565DC, 0x81CE06DF);
    assert Rounds(s, w, 76) == Words(0x69CF0BCA, 0xE20983F9, 0x050EA0E2, 0xD8A39ED1, 0x1F997811);
    assert Rounds(s, w, 78) == Words(0x97047BEC, 0x29171009, 0x9A73C2F2, 0x788260FE, 0x050EA0E2);
  }

  lemma FirstBlock(block: seq<byte>)
    requires |block| == 64
      && var w := Schedule(block, 80);
         && Eight(w, 0, 0x6447686C, 0x49484E68, 0x62584273, 0x5A534275, 0x6232356A, 0x5A513D3D, 0x32353845, 0x41464135)
         && Eight(w, 8, 0x2D453931, 0x342D3437, 0x44412D39, 0x3543412D, 0x43354142, 0x30444338, 0x35423131, 0x80000000)
    ensures Compress(Words(0x67452301, 0xEFCDAB89, 0x98BADCFE, 0x10325476, 0xC3D2E1F0), block)
      == Words(0x5BCF7727, 0x7327416A, 0xBE7BFBF9, 0x5A781878, 0x5E46A4E2)
  {
    hide Rounds, Schedule, Extended;
    var s, w := Words(0x67452301, 0xEFCDAB89, 0x98BADCFE, 0x10325476, 0xC3D2E1F0), Schedule(block, 80);
    ScheduleExtends(block);
    NoRounds(s, w);
    FirstWords1(w);
    FirstWords2(w);
    FirstWords3(w);
    FirstWords4(w);
    FirstRounds0(s, w);
    FirstRounds1(s, w);
    FirstRounds2(s, w);
    FirstRounds3(s, w);
    FirstRounds4(s, w);
  }

  lemma FirstStart(block: seq<byte>)
    requires |block| == 64
    requires block[0..16]
      == [0x64, 0x47, 0x68, 0x6C, 0x49, 0x48, 0x4E, 0x68, 0x62, 0x58, 0x42, 0x73, 0x5A, 0x53, 0x42, 0x75]
    requires block[16..32]
      == [0x62, 0x32, 0x35, 0x6A, 0x5A, 0x51, 0x3D, 0x3D, 0x32, 0x35, 0x38, 0x45, 0x41, 0x46, 0x41, 0x35]
    requires block[32..48]
      == [0x2D, 0x45, 0x39, 0x31, 0x34, 0x2D, 0x34, 0x37, 0x44, 0x41, 0x2D, 0x39, 0x35, 0x43, 0x41, 0x2D]
    requires block[48..64]
      == [0x43, 0x35, 0x41, 0x42, 0x30, 0x44, 0x43, 0x38, 0x35, 0x42, 0x31, 0x31, 0x80, 0, 0, 0]
    ensures var w := Schedule(block, 80);
      && Eight(w, 0, 0x6447686C, 0x49484E68, 0x62584273, 0x5A534275, 0x6232356A, 0x5A513D3D, 0x32353845, 0x41464135)
      && Eight(w, 8, 0x2D453931, 0x342D3437, 0x44412D39, 0x3543412D, 0x43354142, 0x30444338, 0x35423131, 0x80000000)
  {
    hide Schedule;
    FourWords(block, 0, block[0..16]);
    FourWords(block, 4, block[16..32]);
    FourWords(block, 8, block[32..48]);
    FourWords(block, 12, block[48..64]);
  }

  lemma SecondWords1(w: seq<Word>)
    requires Extended(w)
      && Eight(w, 0, 0x00000000, 0x00000000, 0x00000000, 0x00000000, 0x00000000, 0x00000000, 0x00000000, 0x00000000)
      && Eight(w, 8, 0x00000000, 0x00000000, 0x00000000, 0x00000000, 0x00000000, 0x00000000, 0x00000000, 0x000001E0)
    ensures Eight(w, 16, 0x00000000, 0x00000000, 0x000003C0, 0x00000000, 0x00000000, 0x00000780, 0x00000000, 0x000003C0)
      && Eight(w, 24, 0x00000F00, 0x00000000, 0x00000000, 0x00001E00, 0x00000000, 0x00000CC0, 0x00003C00, 0x00000440)
  {
  }

  lemma SecondWords2(w: seq<Word>)
    requires Extended(w)
      && Eight(w, 16, 0x00000000, 0x00000000, 0x000003C0, 0x00000000, 0x00000000, 0x00000780, 0x00000000, 0x000003C0)
      && Eight(w, 24, 0x00000F00, 0x00000000, 0x00000000, 0x00001E00, 0x00000000, 0x00000CC0, 0x00003C00, 0x00000440)
    ensures Eight(w, 32, 0x00000000, 0x00007800, 0x00000F00, 0x00003300, 0x0000F000, 0x00000F00, 0x00000000, 0x0001EF00)
      && Eight(w, 40, 0x00000000, 0x0000CC00, 0x0003C000, 0x00004380, 0x00000000, 0x00078F00, 0x0000FF00, 0x00032680)
  {
  }

  lemma SecondWords3(w: seq<Word>)
    requires Extended(w)
      && Eight(w, 32, 0x00000000, 0x00007800, 0x00000F00, 0x00003300, 0x0000F000, 0x00000F00, 0x00000000, 0x0001EF00)
      && Eight(w, 40, 0x00000000, 0x0000CC00, 0x0003C000, 0x00004380, 0x00000000, 0x00078F00, 0x0000FF00, 0x00032680)
    ensures Eight(w, 48, 0x000F0000, 0x0000F000, 0x00003300, 0x001EFF00, 0x00000000, 0x000CB800, 0x003C0000, 0x00040B00)
      && Eight(w, 56, 0x0000F000, 0x0078FF00, 0x000FF000, 0x00338700, 0x00F00000, 0x000FC300, 0x0000F000, 0x01EFBB00)
  {
  }

  lemma SecondWords4(w: seq<Word>)
    requires Extended(w)
      && Eight(w, 48, 0x000F0000, 0x0000F000, 0x00003300, 0x001EFF00, 0x00000000, 0x000CB800, 0x003C0000, 0x00040B00)
      && Eight(w, 56, 0x0000F000, 0x0078FF00, 0x000FF000, 0x00338700, 0x00F00000, 0x000FC300, 0x0000F000, 0x01EFBB00)
    ensures Eight(w, 64, 0x00000000, 0x00CC0000, 0x03C0F000, 0x00438000, 0x00000000, 0x078F0000, 0x00FF0000, 0x03269E00)
      && Eight(w, 72, 0x0F000000, 0x00F0F000, 0x00333C00, 0x1EFF8800, 0x00000000, 0x0CB88800, 0x3C00F000, 0x040A4A00)
  {
  }

  lemma SecondRounds0(s: Words, w: seq<Word>)
    requires |w| == 80
      && Eight(w, 0, 0x00000000, 0x00000000, 0x00000000, 0x00000000, 0x00000000, 0x00000000, 0x00000000, 0x00000000)
      && Eight(w, 8, 0x00000000, 0x00000000, 0x00000000, 0x00000000, 0x00000000, 0x00000000, 0x00000000, 0x000001E0)
    requires Rounds(s, w, 0) == Words(0x5BCF7727, 0x7327416A, 0xBE7BFBF9, 0x5A781878, 0x5E46A4E2)
    ensures Rounds(s, w, 16) == Words(0x986DF268, 0x990B7BE7, 0xAB50FCE7, 0x195DB4B7, 0x4941806B)
  {
    assert Rounds(s, w, 2) == Words(0x186006B8, 0x6D335CDE, 0xD6F3DDC9, 0x9CC9D05A, 0xBE7BFBF9);
    assert Rounds(s, w, 4) == Words(0x15855523, 0xF9FB295D, 0x061801AE, 0x9B4CD737, 0xD6F3DDC9);
    assert Rounds(s, w, 6) == Words(0x93A5EFBB, 0xE43DD2F2, 0xC5615548, 0x7E7ECA57, 0x061801AE);
    assert Rounds(s, w, 8) == Words(0x25C018BE, 0xB3BBCAFE, 0xE4E97BEE, 0xB90F74BC, 0xC5615548);
    assert Rounds(s, w, 10) == Words(0x0B0814C3, 0x80946593, 0x8970062F, 0xACEEF2BF, 0xE4E97BEE);
    assert Rounds(s, w, 12) == Words(0x250601AD, 0x4CE92417, 0xC2C20530, 0xE0251964, 0x8970062F);
    assert Rounds(s, w, 14) == Words(0xAD43F39E, 0x6576D2DC, 0x4941806B, 0xD33A4905, 0xC2C20530);
  }

  lemma SecondRounds1(s: Words, w: seq<Word>)
    requires |w| == 80
      && Eight(w, 16, 0x00000000, 0x00000000, 0x000003C0, 0x00000000, 0x00000000, 0x00000780, 0x00000000, 0x000003C0)
      && Eight(w, 24, 0x00000F00, 0x00000000, 0x00000000, 0x00001E00, 0x00000000, 0x00000CC0, 0x00003C00, 0x00000440)
    requires Rounds(s, w, 16) == Words(0x986DF268, 0x990B7BE7, 0xAB50FCE7, 0x195DB4B7, 0x4941806B)
    ensures Rounds(s, w, 32) == Words(0x3CF6EB58, 0xF4DDD7B7, 0xC90FB815, 0xBD5F2D4F, 0xE4C9F7DB)
  {
    assert Rounds(s, w, 18) == Words(0x72198F06, 0x3AD7440E, 0x261B7C9A, 0xE642DEF9, 0xAB50FCE7);
    assert Rounds(s, w, 20) == Words(0x2A008B51, 0x2F193A09, 0x9C8663C1, 0x8EB5D103, 0x261B7C9A);
    assert Rounds(s, w, 22) == Words(0x40FBCF98, 0x12315B2B, 0x4A8022D4, 0x4BC64E82, 0x9C8663C1);
    assert Rounds(s, w, 24) == Words(0x53C73650, 0x3E5179E7, 0x103EF3E6, 0xC48C56CA, 0x4A8022D4);
    assert Rounds(s, w, 26) == Words(0x646C677D, 0x1D24C44A, 0x14F1CD94, 0xCF945E79, 0x103EF3E6);
    assert Rounds(s, w, 28) == Words(0x9327DF6F, 0xD2E726DA, 0x591B19DF, 0x87493112, 0x14F1CD94);
    assert Rounds(s, w, 30) == Words(0x243EE057, 0xF57CB53E, 0xE4C9F7DB, 0xB4B9C9B6, 0x591B19DF);
  }

  lemma SecondRounds2(s: Words, w: seq<Word>)
    requires |w| == 80
      && Eight(w, 32, 0x00000000, 0x00007800, 0x00000F00, 0x00003300, 0x0000F000, 0x00000F00, 0x00000000, 0x0001EF00)
      && Eight(w, 40, 0x00000000, 0x0000CC00, 0x0003C000, 0x00004380, 0x00000000, 0x00078F00, 0x0000FF00, 0x00032680)
    requires Rounds(s, w, 32) == Words(0x3CF6EB58, 0xF4DDD7B7, 0xC90FB815, 0xBD5F2D4F, 0xE4C9F7DB)
    ensures Rounds(s, w, 48) == Words(0xA3EF857E, 0xC8CDA3DA, 0xCEF6480E, 0xFF1EF4D7, 0xC7A4D2B3)
  {
    assert Rounds(s, w, 34) == Words(0x96D9E59E, 0x730E9170, 0x0F3DBAD6, 0xFD3775ED, 0xC90FB815);
    assert Rounds(s, w, 36) == Words(0x76922A14, 0x942AC4D3, 0xA5B67967, 0x1CC3A45C, 0x0F3DBAD6);
    assert Rounds(s, w, 38) == Words(0x796ADEF3, 0x7DBCF2ED, 0x1DA48A85, 0xE50AB134, 0xA5B67967);
    assert Rounds(s, w, 40) == Words(0x6F698F1A, 0xC6FF0CD3, 0xDE5AB7BC, 0x5F6F3CBB, 0x1DA48A85);
    assert Rounds(s, w, 42) == Words(0xFC343A02, 0x78716769, 0x9BDA63C6, 0xF1BFC334, 0xDE5AB7BC);
    assert Rounds(s, w, 44) == Words(0x1E934ACF, 0xEDFCD85B, 0xBF0D0E80, 0x5E1C59DA, 0x9BDA63C6);
    assert Rounds(s, w, 46) == Words(0x3BD9203B, 0xFC7BD35F, 0xC7A4D2B3, 0xFB7F3616, 0xBF0D0E80);
  }

  lemma SecondRounds3(s: Words, w: seq<Word>)
    requires |w| == 80
      && Eight(w, 48, 0x000F0000, 0x0000F000, 0x00003300, 0x001EFF00, 0x00000000, 0x000CB800, 0x003C0000, 0x00040B00)
      && Eight(w, 56, 0x0000F000, 0x0078FF00, 0x000FF000, 0x00338700, 0x00F00000, 0x000FC300, 0x0000F000, 0x01EFBB00)
    requires Rounds(s, w, 48) == Words(0xA3EF857E, 0xC8CDA3DA, 0xCEF6480E, 0xFF1EF4D7, 0xC7A4D2B3)
    ensures Rounds(s, w, 64) == Words(0xA5937450, 0xD5EF1ED7, 0xC444CBE3, 0xDDD22788, 0x558467C6)
  {
    assert Rounds(s, w, 50) == Words(0xA516F265, 0xA39F2041, 0xA8FBE15F, 0xB23368F6, 0xCEF6480E);
    assert Rounds(s, w, 52) == Words(0x5FE2A3DB, 0xA3ABE4F5, 0x6945BC99, 0x68E7C810, 0xA8FBE15F);
    assert Rounds(s, w, 54) == Words(0x2C73BD78, 0x9E540637, 0xD7F8A8F6, 0x68EAF93D, 0x6945BC99);
    assert Rounds(s, w, 56) == Words(0xA1B68141, 0x660DD0B1, 0x0B1CEF5E, 0xE795018D, 0xD7F8A8F6);
    assert Rounds(s, w, 58) == Words(0x21289715, 0x05033FA3, 0x686DA050, 0x5983742C, 0x0B1CEF5E);
    assert Rounds(s, w, 60) == Words(0x56119F19, 0x085EB2FE, 0x484A25C5, 0xC140CFE8, 0x686DA050);
    assert Rounds(s, w, 62) == Words(0x11132F8F, 0x77489E23, 0x558467C6, 0x8217ACBF, 0x484A25C5);
  }

  lemma SecondRounds4(s: Words, w: seq<Word>)
    requires |w| == 80
      && Eight(w, 64, 0x00000000, 0x00CC0000, 0x03C0F000, 0x00438000, 0x00000000, 0x078F0000, 0x00FF0000, 0x03269E00)
      && Eight(w, 72, 0x0F000000, 0x00F0F000, 0x00333C00, 0x1EFF8800, 0x00000000, 0x0CB88800, 0x3C00F000, 0x040A4A00)
    requires Rounds(s, w, 64) == Words(0xA5937450, 0xD5EF1ED7, 0xC444CBE3, 0xDDD22788, 0x558467C6)
    ensures Rounds(s, w, 80) == Words(0x57AAD805, 0x4D3B0DAC, 0xD27A4A0D, 0x74C040CD, 0x54782008)
  {
    assert Rounds(s, w, 66) == Words(0x17A22EF7, 0x9ECFA66C, 0x2964DD14, 0xF57BC7B5, 0xC444CBE3);
    assert Rounds(s, w, 68) == Words(0x097A511C, 0xC97F1968, 0xC5E88BBD, 0x27B3E99B, 0x2964DD14);
    assert Rounds(s, w, 70) == Words(0xBF3A7F95, 0x4E363DB9, 0x025E9447, 0x325FC65A, 0xC5E88BBD);
    assert Rounds(s, w, 72) == Words(0xC90888CA, 0xF6D1AFEE, 0x6FCE9FE5, 0x538D8F6E, 0x025E9447);
    assert Rounds(s, w, 74) == Words(0x26F99990, 0xC7652EDB, 0xB2422232, 0xBDB46BFB, 0x6FCE9FE5);
    assert Rounds(s, w, 76) == Words(0x51E08021, 0xE22B36D1, 0x09BE6664, 0xF1D94BB6, 0xB2422232);
    assert Rounds(s, w, 78) == Words(0x49E92837, 0xD3010335, 0x54782008, 0x788ACDB4, 0x09BE6664);
  }

  lemma SecondBlock(block: seq<byte>)
    requires |block| == 64
      && var w := Schedule(block, 80);
         && Eight(w, 0, 0x00000000, 0x00000000, 0x00000000, 0x00000000, 0x00000000, 0x00000000, 0x00000000, 0x00000000)
         && Eight(w, 8, 0x00000000, 0x00000000, 0x00000000, 0x00000000, 0x00000000, 0x00000000, 0x00000000, 0x000001E0)
    ensures Compress(Words(0x5BCF7727, 0x7327416A, 0xBE7BFBF9, 0x5A781878, 0x5E46A4E2), block)
      == Words(0xB37A4F2C, 0xC0624F16, 0x90F64606, 0xCF385945, 0xB2BEC4EA)
  {
    hide Rounds, Schedule, Extended;
    var s, w := Words(0x5BCF7727, 0x7327416A, 0xBE7BFBF9, 0x5A781878, 0x5E46A4E2), Schedule(block, 80);
    ScheduleExtends(block);
    NoRounds(s, w);
    SecondWords1(w);
    SecondWords2(w);
    SecondWords3(w);
    SecondWords4(w);
    SecondRounds0(s, w);
    SecondRounds1(s, w);
    SecondRounds2(s, w);
    SecondRounds3(s, w);
    SecondRounds4(s, w);
  }

  lemma SecondStart(block: seq<byte>)
    requires |block| == 64
    requires block[0..16]
      == [0, 0, 0, 0, 0, 0, 0, 0, 0, 0, 0, 0, 0, 0, 0, 0]
    requires block[16..32]
      == [0, 0, 0, 0, 0, 0, 0, 0, 0, 0, 0, 0, 0, 0, 0, 0]
    requires block[32..48]
      == [0, 0, 0, 0, 0, 0, 0, 0, 0, 0, 0, 0, 0, 0, 0, 0]
    requires block[48..64]
      == [0, 0, 0, 0, 0, 0, 0, 0, 0, 0, 0, 0, 0, 0, 0x01, 0xE0]
    ensures var w := Schedule(block, 80);
      && Eight(w, 0, 0x00000000, 0x00000000, 0x00000000, 0x00000000, 0x00000000, 0x00000000, 0x00000000, 0x00000000)
      && Eight(w, 8, 0x00000000, 0x00000000, 0x00000000, 0x00000000, 0x00000000, 0x00000000, 0x00000000, 0x000001E0)
  {
    hide Schedule;
    FourWords(block, 0, block[0..16]);
    FourWords(block, 4, block[16..32]);
    FourWords(block, 8, block[32..48]);
    FourWords(block, 12, block[48..64]);
  }

  /** Two blocks, the second of which has nothing but the length. */
  lemma DigestOfSample(m: seq<byte>)
    requires |m| == 60
    requires m[0..16]
      == [0x64, 0x47, 0x68, 0x6C, 0x49, 0x48, 0x4E, 0x68, 0x62, 0x58, 0x42, 0x73, 0x5A, 0x53, 0x42, 0x75]
    requires m[16..32]
      == [0x62, 0x32, 0x35, 0x6A, 0x5A, 0x51, 0x3D, 0x3D, 0x32, 0x35, 0x38, 0x45, 0x41, 0x46, 0x41, 0x35]
    requires m[32..48]
      == [0x2D, 0x45, 0x39, 0x31, 0x34, 0x2D, 0x34, 0x37, 0x44, 0x41, 0x2D, 0x39, 0x35, 0x43, 0x41, 0x2D]
    requires m[48..] == [0x43, 0x35, 0x41, 0x42, 0x30, 0x44, 0x43, 0x38, 0x35, 0x42, 0x31, 0x31]
    ensures DigestOf(m) ==
      [0xB3, 0x7A, 0x4F, 0x2C, 0xC0, 0x62, 0x4F, 0x16, 0x90, 0xF6,
       0x46, 0x06, 0xCF, 0x38, 0x59, 0x45, 0xB2, 0xBE, 0xC4, 0xEA]
  {
    hide Compress, Schedule, HashAfter, BigEndian;
    var first, second := m + [0x80] + Zeros(3), Zeros(56) + BigEndian(480, 8);
    LengthsInOctets();
    LastBlocks(m);
    assert m[0..] == m && HashAfter(m, 0) == INITIAL by { NothingHashed(m); }
    assert first[0..16] == m[0..16] && first[16..32] == m[16..32] && first[32..48] == m[32..48];
    assert first[48..64] == m[48..] + [0x80, 0, 0, 0];
    FirstStart(first);
    FirstBlock(first);
    SecondStart(second);
    SecondBlock(second);
    SampleDigest();
  }

  lemma SampleDigest()
    ensures Digest(Words(0xB37A4F2C, 0xC0624F16, 0x90F64606, 0xCF385945, 0xB2BEC4EA)) ==
      [0xB3, 0x7A, 0x4F, 0x2C, 0xC0, 0x62, 0x4F, 0x16, 0x90, 0xF6,
       0x46, 0x06, 0xCF, 0x38, 0x59, 0x45, 0xB2, 0xBE, 0xC4, 0xEA]
  {
  }
}
