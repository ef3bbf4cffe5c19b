/** Section 3.3 of RFC 1321 as it is printed, and two digests of the test suite in its appendix A.5, worked out step by
    step. */
module Md5Vectors {
  import opened Rfc1321

  /** The initial registers, low-order bytes first: the sixteen hexadecimal digits upwards, and then downwards. */
  lemma InitialBytes()
    ensures Output(InitialState)
         == [0x01, 0x23, 0x45, 0x67, 0x89, 0xab, 0xcd, 0xef, 0xfe, 0xdc, 0xba, 0x98, 0x76, 0x54, 0x32, 0x10]
  {
  }

  // ---- Steps --------------------------------------------------------------------------------

  /** The registers before step i. */
  function Entering(s: State, x: seq<word>, i: nat): State
    requires |x| == 16 && i <= 64
  {
    if i == 0 then s else After(s, x, i - 1)
  }

  /** The word that step i makes of the registers. */
  function Word(x: seq<word>, i: nat, a: word, b: word, c: word, d: word): word
    requires |x| == 16 && i < 64
  {
    var op := OperationAt(i);
    Combine(Mix(i, b, c, d), a, b, x[op.k], op.s, op.t)
  }

  lemma OneStep(s: State, x: seq<word>, i: nat, a: word, b: word, c: word, d: word)
    requires |x| == 16 && i < 64 && Entering(s, x, i) == State(a, b, c, d)
    ensures Entering(s, x, i + 1) == State(d, Word(x, i, a, b, c, d), b, c)
  {
    hide OperationAt, Mix, Combine;
    assert i > 0 ==> Entering(s, x, i) == After(s, x, i - 1);
    assert After(s, x, i) == State(d, Stored(s, x, i), b, c);
  }

  /** Four steps, after which the roles of the registers are the same again. */
  lemma FourSteps(s: State, x: seq<word>, i: nat, a0: word, b0: word, c0: word, d0: word,
                  a: word, d: word, c: word, b: word)
    requires |x| == 16 && i <= 60 && Entering(s, x, i) == State(a0, b0, c0, d0)
    requires Word(x, i, a0, b0, c0, d0) == a && Word(x, i + 1, d0, a, b0, c0) == d
    requires Word(x, i + 2, c0, d, a, b0) == c && Word(x, i + 3, b0, c, d, a) == b
    ensures Entering(s, x, i + 4) == State(a, b, c, d)
  {
    hide Entering, Word;
    OneStep(s, x, i, a0, b0, c0, d0);
    OneStep(s, x, i + 1, d0, a, b0, c0);
    OneStep(s, x, i + 2, c0, d, a, b0);
    OneStep(s, x, i + 3, b0, c, d, a);
  }

  lemma AtFirst(s: State, x: seq<word>)
    requires |x| == 16
    ensures Entering(s, x, 0) == s
  {
  }

  lemma Compressed(s: State, block: seq<byte>, p: State)
    requires |block| == 64 && p == Entering(s, WordsOf(block), 64)
    ensures Compress(s, block) == Plus(p, s)
  {
    hide WordsOf, After;
  }

  /** The words of the only block of the empty message. */
  ghost predicate Empty(x: seq<word>) {
    |x| == 16 && x[0] == 0x00000080 && x[1] == 0x00000000 && x[2] == 0x00000000 && x[3] == 0x00000000
    && x[4] == 0x00000000 && x[5] == 0x00000000 && x[6] == 0x00000000 && x[7] == 0x00000000
    && x[8] == 0x00000000 && x[9] == 0x00000000 && x[10] == 0x00000000 && x[11] == 0x00000000
    && x[12] == 0x00000000 && x[13] == 0x00000000 && x[14] == 0x00000000 && x[15] == 0x00000000
  }

  lemma EmptyRound1(x: seq<word>)
    requires Empty(x)
    ensures Entering(State(0x67452301, 0xefcdab89, 0x98badcfe, 0x10325476), x, 16)
         == State(0xf56c7cf1, 0xd6819c6a, 0x5aa53f75, 0x374943a7)
  {
    var s := State(0x67452301, 0xefcdab89, 0x98badcfe, 0x10325476);
    hide Entering;
    AtFirst(s, x);
    FourSteps(s, x, 0, 0x67452301, 0xefcdab89, 0x98badcfe, 0x10325476,
              0xa5202774, 0xf59592dd, 0xe7f06b23, 0x1b163203);
    FourSteps(s, x, 4, 0xa5202774, 0x1b163203, 0xe7f06b23, 0xf59592dd,
              0x32033344, 0x2f35d494, 0xf5b158db, 0x9bc13ce9);
    FourSteps(s, x, 8, 0x32033344, 0x9bc13ce9, 0xf5b158db, 0x2f35d494,
              0x3893b991, 0xfce4a312, 0xe1ef0576, 0x70768a29);
    FourSteps(s, x, 12, 0x3893b991, 0x70768a29, 0xe1ef0576, 0xfce4a312,
              0xf56c7cf1, 0x374943a7, 0x5aa53f75, 0xd6819c6a);
  }

  lemma EmptyRound2(x: seq<word>)
    requires Empty(x)
    requires Entering(State(0x67452301, 0xefcdab89, 0x98badcfe, 0x10325476), x, 16)
          == State(0xf56c7cf1, 0xd6819c6a, 0x5aa53f75, 0x374943a7)
    ensures Entering(State(0x67452301, 0xefcdab89, 0x98badcfe, 0x10325476), x, 32)
         == State(0x13707036, 0xa2205f1f, 0x1c31c384, 0xae7813db)
  {
    var s := State(0x67452301, 0xefcdab89, 0x98badcfe, 0x10325476);
    hide Entering;
    FourSteps(s, x, 16, 0xf56c7cf1, 0xd6819c6a, 0x5aa53f75, 0x374943a7,
              0x1c7d7513, 0x7bd57a3a, 0xc095f13a, 0xbd782e17);
    FourSteps(s, x, 20, 0x1c7d7513, 0xbd782e17, 0xc095f13a, 0x7bd57a3a,
              0x3d1e3e6c, 0x68b7b3e3, 0xeb41643e, 0xe422531a);
    FourSteps(s, x, 24, 0x3d1e3e6c, 0xe422531a, 0xeb41643e, 0x68b7b3e3,
              0x306ec122, 0xd28c77c2, 0xa3c663da, 0xa0572807);
    FourSteps(s, x, 28, 0x306ec122, 0xa0572807, 0xa3c663da, 0xd28c77c2,
              0x13707036, 0xae7813db, 0x1c31c384, 0xa2205f1f);
  }

  lemma EmptyRound3(x: seq<word>)
    requires Empty(x)
    requires Entering(State(0x67452301, 0xefcdab89, 0x98badcfe, 0x10325476), x, 32)
          == State(0x13707036, 0xa2205f1f, 0x1c31c384, 0xae7813db)
    ensures Entering(State(0x67452301, 0xefcdab89, 0x98badcfe, 0x10325476), x, 48)
         == State(0x3f55edfd, 0xca7d2dbd, 0x68d84ea2, 0x22a31f54)
  {
    var s := State(0x67452301, 0xefcdab89, 0x98badcfe, 0x10325476);
    hide Entering;
    FourSteps(s, x, 32, 0x13707036, 0xa2205f1f, 0x1c31c384, 0xae7813db,
              0xdf63eaa1, 0xc3689f5b, 0x12f3e755, 0x004b6669);
    FourSteps(s, x, 36, 0xdf63eaa1, 0x004b6669, 0x12f3e755, 0xc3689f5b,
              0x5f7a9b2e, 0xabc34e16, 0x91ca4cb7, 0xc5dc8c15);
    FourSteps(s, x, 40, 0x5f7a9b2e, 0xc5dc8c15, 0x91ca4cb7, 0xabc34e16,
              0x4497169d, 0x76fd93d4, 0xfd95f243, 0x0fe32453);
    FourSteps(s, x, 44, 0x4497169d, 0x0fe32453, 0xfd95f243, 0x76fd93d4,
              0x3f55edfd, 0x22a31f54, 0x68d84ea2, 0xca7d2dbd);
  }

  lemma EmptyRound4(x: seq<word>)
    requires Empty(x)
    requires Entering(State(0x67452301, 0xefcdab89, 0x98badcfe, 0x10325476), x, 48)
          == State(0x3f55edfd, 0xca7d2dbd, 0x68d84ea2, 0x22a31f54)
    ensures Entering(State(0x67452301, 0xefcdab89, 0x98badcfe, 0x10325476), x, 64)
         == State(0x7246fad3, 0x14e45506, 0xff4ea3eb, 0x6e10a476)
  {
    var s := State(0x67452301, 0xefcdab89, 0x98badcfe, 0x10325476);
    hide Entering;
    FourSteps(s, x, 48, 0x3f55edfd, 0xca7d2dbd, 0x68d84ea2, 0x22a31f54,
              0x93aa2577, 0x1688dc85, 0xcd85b8cb, 0x561e0689);
    FourSteps(s, x, 52, 0x93aa2577, 0x561e0689, 0xcd85b8cb, 0x1688dc85,
              0x5625a114, 0x3450f42b, 0x392ad0d0, 0x1e77fa61);
    FourSteps(s, x, 56, 0x5625a114, 0x1e77fa61, 0x392ad0d0, 0x3450f42b,
              0x474a9c8c, 0xdfce00bc, 0x36594b14, 0x30130182);
    FourSteps(s, x, 60, 0x474a9c8c, 0x30130182, 0x36594b14, 0xdfce00bc,
              0x7246fad3, 0x6e10a476, 0xff4ea3eb, 0x14e45506);
  }

  lemma EmptyCompressed(block: seq<byte>)
    requires |block| == 64 && Empty(WordsOf(block))
    ensures Compress(State(0x67452301, 0xefcdab89, 0x98badcfe, 0x10325476), block)
         == State(0xd98c1dd4, 0x04b2008f, 0x980980e9, 0x7e42f8ec)
  {
    hide Empty, WordsOf, Entering;
    var x := WordsOf(block);
    EmptyRound1(x);
    EmptyRound2(x);
    EmptyRound3(x);
    EmptyRound4(x);
    Compressed(State(0x67452301, 0xefcdab89, 0x98badcfe, 0x10325476), block,
               State(0x7246fad3, 0x14e45506, 0xff4ea3eb, 0x6e10a476));
  }

  /** The words of the first block of the 62 letters and digits. */
  ghost predicate First(x: seq<word>) {
    |x| == 16 && x[0] == 0x44434241 && x[1] == 0x48474645 && x[2] == 0x4c4b4a49 && x[3] == 0x504f4e4d
    && x[4] == 0x54535251 && x[5] == 0x58575655 && x[6] == 0x62615a59 && x[7] == 0x66656463
    && x[8] == 0x6a696867 && x[9] == 0x6e6d6c6b && x[10] == 0x7271706f && x[11] == 0x76757473
    && x[12] == 0x7a797877 && x[13] == 0x33323130 && x[14] == 0x37363534 && x[15] == 0x00803938
  }

  lemma FirstRound1(x: seq<word>)
    requires First(x)
    ensures Entering(State(0x67452301, 0xefcdab89, 0x98badcfe, 0x10325476), x, 16)
         == State(0x3cbdcd45, 0x5d38e690, 0xfa148c8a, 0xb8dec763)
  {
    var s := State(0x67452301, 0xefcdab89, 0x98badcfe, 0x10325476);
    hide Entering;
    AtFirst(s, x);
    FourSteps(s, x, 0, 0x67452301, 0xefcdab89, 0x98badcfe, 0x10325476,
              0xc6c10796, 0x99a09999, 0x11067980, 0x27bce07a);
    FourSteps(s, x, 4, 0xc6c10796, 0x27bce07a, 0x11067980, 0x99a09999,
              0xf22e6c4e, 0xb4ac9218, 0xa95a2fc0, 0xa4799506);
    FourSteps(s, x, 8, 0xf22e6c4e, 0xa4799506, 0xa95a2fc0, 0xb4ac9218,
              0x1eb3e7c1, 0xa6e70cfe, 0xca27520b, 0x8a7612ec);
    FourSteps(s, x, 12, 0x1eb3e7c1, 0x8a7612ec, 0xca27520b, 0xa6e70cfe,
              0x3cbdcd45, 0xb8dec763, 0xfa148c8a, 0x5d38e690);
  }

  lemma FirstRound2(x: seq<word>)
    requires First(x)
    requires Entering(State(0x67452301, 0xefcdab89, 0x98badcfe, 0x10325476), x, 16)
          == State(0x3cbdcd45, 0x5d38e690, 0xfa148c8a, 0xb8dec763)
    ensures Entering(State(0x67452301, 0xefcdab89, 0x98badcfe, 0x10325476), x, 32)
         == State(0x9b085fa9, 0xdd789ecc, 0x5993248f, 0x4400a9bd)
  {
    var s := State(0x67452301, 0xefcdab89, 0x98badcfe, 0x10325476);
    hide Entering;
    FourSteps(s, x, 16, 0x3cbdcd45, 0x5d38e690, 0xfa148c8a, 0xb8dec763,
              0x04b9d52a, 0x783002eb, 0xd3ee3ed1, 0x47ae7c81);
    FourSteps(s, x, 20, 0x04b9d52a, 0x47ae7c81, 0xd3ee3ed1, 0x783002eb,
              0x2d7d8a3f, 0xd1210823, 0x4b534dc3, 0x75292030);
    FourSteps(s, x, 24, 0x2d7d8a3f, 0x75292030, 0x4b534dc3, 0xd1210823,
              0x9d2a6e33, 0x0e8d2e44, 0xd473b564, 0xf2ff6ea0);
    FourSteps(s, x, 28, 0x9d2a6e33, 0xf2ff6ea0, 0xd473b564, 0x0e8d2e44,
              0x9b085fa9, 0x4400a9bd, 0x5993248f, 0xdd789ecc);
  }

  lemma FirstRound3(x: seq<word>)
    requires First(x)
    requires Entering(State(0x67452301, 0xefcdab89, 0x98badcfe, 0x10325476), x, 32)
          == State(0x9b085fa9, 0xdd789ecc, 0x5993248f, 0x4400a9bd)
    ensures Entering(State(0x67452301, 0xefcdab89, 0x98badcfe, 0x10325476), x, 48)
         == State(0x2dbee21d, 0xf166f514, 0xee46e961, 0xe95c3a43)
  {
    var s := State(0x67452301, 0xefcdab89, 0x98badcfe, 0x10325476);
    hide Entering;
    FourSteps(s, x, 32, 0x9b085fa9, 0xdd789ecc, 0x5993248f, 0x4400a9bd,
              0x21c8d2b7, 0x1d55a18e, 0x056ec119, 0x1b9504f8);
    FourSteps(s, x, 36, 0x21c8d2b7, 0x1b9504f8, 0x056ec119, 0x1d55a18e,
              0x436b7fe9, 0x075800c1, 0xf404c2f6, 0xcf0341ed);
    FourSteps(s, x, 40, 0x436b7fe9, 0xcf0341ed, 0xf404c2f6, 0x075800c1,
              0x888e7d8a, 0xbbdaecd8, 0xce620273, 0x047b9419);
    FourSteps(s, x, 44, 0x888e7d8a, 0x047b9419, 0xce620273, 0xbbdaecd8,
              0x2dbee21d, 0xe95c3a43, 0xee46e961, 0xf166f514);
  }

  lemma FirstRound4(x: seq<word>)
    requires First(x)
    requires Entering(State(0x67452301, 0xefcdab89, 0x98badcfe, 0x10325476), x, 48)
          == State(0x2dbee21d, 0xf166f514, 0xee46e961, 0xe95c3a43)
    ensures Entering(State(0x67452301, 0xefcdab89, 0x98badcfe, 0x10325476), x, 64)
         == State(0x1cb80f0a, 0xef2e3a46, 0x10f68731, 0xea3d3eb4)
  {
    var s := State(0x67452301, 0xefcdab89, 0x98badcfe, 0x10325476);
    hide Entering;
    FourSteps(s, x, 48, 0x2dbee21d, 0xf166f514, 0xee46e961, 0xe95c3a43,
              0xe47fd4f3, 0xfb887751, 0xf22aedcc, 0x7a13bc5c);
    FourSteps(s, x, 52, 0xe47fd4f3, 0x7a13bc5c, 0xf22aedcc, 0xfb887751,
              0xa691d430, 0x528452f2, 0x3fc23df6, 0xefb0e72f);
    FourSteps(s, x, 56, 0xa691d430, 0xefb0e72f, 0x3fc23df6, 0x528452f2,
              0x27145703, 0x21a11069, 0x374fbe79, 0x49d9a5b4);
    FourSteps(s, x, 60, 0x27145703, 0x49d9a5b4, 0x374fbe79, 0x21a11069,
              0x1cb80f0a, 0xea3d3eb4, 0x10f68731, 0xef2e3a46);
  }

  lemma FirstCompressed(block: seq<byte>)
    requires |block| == 64 && First(WordsOf(block))
    ensures Compress(State(0x67452301, 0xefcdab89, 0x98badcfe, 0x10325476), block)
         == State(0x83fd320b, 0xdefbe5cf, 0xa9b1642f, 0xfa6f932a)
  {
    hide First, WordsOf, Entering;
    var x := WordsOf(block);
    FirstRound1(x);
    FirstRound2(x);
    FirstRound3(x);
    FirstRound4(x);
    Compressed(State(0x67452301, 0xefcdab89, 0x98badcfe, 0x10325476), block,
               State(0x1cb80f0a, 0xef2e3a46, 0x10f68731, 0xea3d3eb4));
  }

  /** The words of its second block. */
  ghost predicate Second(x: seq<word>) {
    |x| == 16 && x[0] == 0x00000000 && x[1] == 0x00000000 && x[2] == 0x00000000 && x[3] == 0x00000000
    && x[4] == 0x00000000 && x[5] == 0x00000000 && x[6] == 0x00000000 && x[7] == 0x00000000
    && x[8] == 0x00000000 && x[9] == 0x00000000 && x[10] == 0x00000000 && x[11] == 0x00000000
    && x[12] == 0x00000000 && x[13] == 0x00000000 && x[14] == 0x000001f0 && x[15] == 0x00000000
  }

  lemma SecondRound1(x: seq<word>)
    requires Second(x)
    ensures Entering(State(0x83fd320b, 0xdefbe5cf, 0xa9b1642f, 0xfa6f932a), x, 16)
         == State(0xa70737da, 0xa36f556f, 0x96f6586e, 0x5473f8a7)
  {
    var s := State(0x83fd320b, 0xdefbe5cf, 0xa9b1642f, 0xfa6f932a);
    hide Entering;
    AtFirst(s, x);
    FourSteps(s, x, 0, 0x83fd320b, 0xdefbe5cf, 0xa9b1642f, 0xfa6f932a,
              0xeda23ed1, 0x989939cf, 0x3c307338, 0xddcf0634);
    FourSteps(s, x, 4, 0xeda23ed1, 0xddcf0634, 0x3c307338, 0x989939cf,
              0x75144433, 0xc8875807, 0xc783cb60, 0x99b6b699);
    FourSteps(s, x, 8, 0x75144433, 0x99b6b699, 0xc783cb60, 0xc8875807,
              0xa60a3f69, 0xaa6630be, 0x64db26e9, 0x64cc7c5a);
    FourSteps(s, x, 12, 0xa60a3f69, 0x64cc7c5a, 0x64db26e9, 0xaa6630be,
              0xa70737da, 0x5473f8a7, 0x96f6586e, 0xa36f556f);
  }

  lemma SecondRound2(x: seq<word>)
    requires Second(x)
    requires Entering(State(0x83fd320b, 0xdefbe5cf, 0xa9b1642f, 0xfa6f932a), x, 16)
          == State(0xa70737da, 0xa36f556f, 0x96f6586e, 0x5473f8a7)
    ensures Entering(State(0x83fd320b, 0xdefbe5cf, 0xa9b1642f, 0xfa6f932a), x, 32)
         == State(0x24eba695, 0x9c03e2e8, 0x10c42a2f, 0x4bd0378b)
  {
    var s := State(0x83fd320b, 0xdefbe5cf, 0xa9b1642f, 0xfa6f932a);
    hide Entering;
    FourSteps(s, x, 16, 0xa70737da, 0xa36f556f, 0x96f6586e, 0x5473f8a7,
              0xa5050ad3, 0x28776046, 0x27dcd8b4, 0x82b8827c);
    FourSteps(s, x, 20, 0xa5050ad3, 0x82b8827c, 0x27dcd8b4, 0x28776046,
              0xe04f070c, 0x2f3cd2a2, 0xc0d22b61, 0xdf35cb56);
    FourSteps(s, x, 24, 0xe04f070c, 0xdf35cb56, 0xc0d22b61, 0x2f3cd2a2,
              0x242dd210, 0x576ace33, 0x5c295967, 0x2291191a);
    FourSteps(s, x, 28, 0x242dd210, 0x2291191a, 0x5c295967, 0x576ace33,
              0x24eba695, 0x4bd0378b, 0x10c42a2f, 0x9c03e2e8);
  }

  lemma SecondRound3(x: seq<word>)
    requires Second(x)
    requires Entering(State(0x83fd320b, 0xdefbe5cf, 0xa9b1642f, 0xfa6f932a), x, 32)
          == State(0x24eba695, 0x9c03e2e8, 0x10c42a2f, 0x4bd0378b)
    ensures Entering(State(0x83fd320b, 0xdefbe5cf, 0xa9b1642f, 0xfa6f932a), x, 48)
         == State(0x54c9eb3a, 0x79c0710a, 0x2ec86f72, 0xd4d9c6ac)
  {
    var s := State(0x83fd320b, 0xdefbe5cf, 0xa9b1642f, 0xfa6f932a);
    hide Entering;
    FourSteps(s, x, 32, 0x24eba695, 0x9c03e2e8, 0x10c42a2f, 0x4bd0378b,
              0x5be1d526, 0x9e414279, 0x9f4a1a7e, 0xa2448453);
    FourSteps(s, x, 36, 0x5be1d526, 0xa2448453, 0x9f4a1a7e, 0x9e414279,
              0xe14e403d, 0xe8cfd670, 0x60cc183a, 0xfe314121);
    FourSteps(s, x, 40, 0xe14e403d, 0xfe314121, 0x60cc183a, 0xe8cfd670,
              0xfff62809, 0xe37209ac, 0x8cb5221c, 0x7c7e974c);
    FourSteps(s, x, 44, 0xfff62809, 0x7c7e974c, 0x8cb5221c, 0xe37209ac,
              0x54c9eb3a, 0xd4d9c6ac, 0x2ec86f72, 0x79c0710a);
  }

  lemma SecondRound4(x: seq<word>)
    requires Second(x)
    requires Entering(State(0x83fd320b, 0xdefbe5cf, 0xa9b1642f, 0xfa6f932a), x, 48)
          == State(0x54c9eb3a, 0x79c0710a, 0x2ec86f72, 0xd4d9c6ac)
    ensures Entering(State(0x83fd320b, 0xdefbe5cf, 0xa9b1642f, 0xfa6f932a), x, 64)
         == State(0x14ae42c6, 0x16dd9203, 0x826afd76, 0xa52dae75)
  {
    var s := State(0x83fd320b, 0xdefbe5cf, 0xa9b1642f, 0xfa6f932a);
    hide Entering;
    FourSteps(s, x, 48, 0x54c9eb3a, 0x79c0710a, 0x2ec86f72, 0xd4d9c6ac,
              0x02095af1, 0x13d245fd, 0xa8dcfe26, 0x2ba98e3f);
    FourSteps(s, x, 52, 0x02095af1, 0x2ba98e3f, 0xa8dcfe26, 0x13d245fd,
              0xe126c1aa, 0x96b00fa7, 0x6f287ff5, 0xfb7bcee0);
    FourSteps(s, x, 56, 0xe126c1aa, 0xfb7bcee0, 0x6f287ff5, 0x96b00fa7,
              0x452c1099, 0xca801ba6, 0xc197ea8e, 0x5ac74608);
    FourSteps(s, x, 60, 0x452c1099, 0x5ac74608, 0xc197ea8e, 0xca801ba6,
              0x14ae42c6, 0xa52dae75, 0x826afd76, 0x16dd9203);
  }

  lemma SecondCompressed(block: seq<byte>)
    requires |block| == 64 && Second(WordsOf(block))
    ensures Compress(State(0x83fd320b, 0xdefbe5cf, 0xa9b1642f, 0xfa6f932a), block)
         == State(0x98ab74d1, 0xf5d977d2, 0x2c1c61a5, 0x9f9d419f)
  {
    hide Second, WordsOf, Entering;
    var x := WordsOf(block);
    SecondRound1(x);
    SecondRound2(x);
    SecondRound3(x);
    SecondRound4(x);
    Compressed(State(0x83fd320b, 0xdefbe5cf, 0xa9b1642f, 0xfa6f932a), block,
               State(0x14ae42c6, 0x16dd9203, 0x826afd76, 0xa52dae75));
  }

  // ---- The digests --------------------------------------------------------------------------

  lemma OneBlock(s: State, block: seq<byte>)
    requires |block| == 64
    ensures Fold(s, block) == Compress(s, block)
  {
    hide Compress;
    assert block[..64] == block && block[64..] == [];
  }

  /** A word of zero bytes. */
  lemma ZeroWord(block: seq<byte>, i: nat)
    requires 4 * i + 4 <= |block| && forall k | 4 * i <= k < 4 * i + 4 :: block[k] == 0
    ensures WordAt(block, i) == 0
  {
  }

  lemma ZeroWords(block: seq<byte>, from: nat, to: nat)
    requires from <= to && 4 * to <= |block| && forall k | 4 * from <= k < 4 * to :: block[k] == 0
    ensures forall i | from <= i < to :: WordAt(block, i) == 0
  {
    forall i | from <= i < to ensures WordAt(block, i) == 0 {
      ZeroWord(block, i);
    }
  }

  lemma ByteIs(v: nat, unit: nat, n: nat)
    requires unit > 0 && v / unit == n < 0x100
    ensures ByteOf(v, unit) == n as byte
  {
  }

  lemma HighBytes(v: nat)
    requires v < 0x1_0000
    ensures ByteOf(v, 0x1_0000) == ByteOf(v, 0x100_0000) == ByteOf(v, 0x1_0000_0000) == 0
    ensures ByteOf(v, 0x100_0000_0000) == ByteOf(v, 0x1_0000_0000_0000) == ByteOf(v, 0x100_0000_0000_0000) == 0
  {
    hide ByteOf;
    ByteIs(v, 0x1_0000, 0);
    ByteIs(v, 0x100_0000, 0);
    ByteIs(v, 0x1_0000_0000, 0);
    ByteIs(v, 0x100_0000_0000, 0);
    ByteIs(v, 0x1_0000_0000_0000, 0);
    ByteIs(v, 0x100_0000_0000_0000, 0);
  }

  lemma LowBytes496()
    ensures ByteOf(496, 0x1) == 0xf0 && ByteOf(496, 0x100) == 0x01
  {
    hide ByteOf;
    Digit(496, 0x1, 0xf0);
    Digit(496, 0x100, 0x01);
  }

  lemma Digit(v: nat, unit: nat, n: nat)
    requires unit > 0 && v / unit % 0x100 == n
    ensures ByteOf(v, unit) == n as byte
  {
  }

  lemma ZeroLength()
    ensures LittleEndian64(0) == Zeros(8)
  {
    hide ByteOf;
    ByteIs(0, 0x1, 0);
    ByteIs(0, 0x100, 0);
    HighBytes(0);
  }

  lemma Length496()
    ensures LittleEndian64(496) == [0xf0, 0x01] + Zeros(6)
  {
    hide ByteOf;
    LowBytes496();
    HighBytes(496);
  }

  lemma EmptyWords(block: seq<byte>)
    requires block == [0x80] + Zeros(63)
    ensures |block| == 64 && Empty(WordsOf(block))
  {
    ZeroWords(block, 1, 16);
  }

  /** "" in the test suite. */
  lemma DigestOfNothing()
    ensures Digest([])
         == [0xd4, 0x1d, 0x8c, 0xd9, 0x8f, 0x00, 0xb2, 0x04, 0xe9, 0x80, 0x09, 0x98, 0xec, 0xf8, 0x42, 0x7e]
  {
    hide Fold, Compress, WordsOf, Empty, LittleEndian64;
    var block := [0x80] + Zeros(63);
    ZeroLength();
    assert [] + Padding(0) == block;
    EmptyWords(block);
    EmptyCompressed(block);
    OneBlock(InitialState, block);
  }

  /** "ABCDEFGHIJKLMNOP". */
  function Part1(): (text: seq<byte>)
    ensures |text| == 16
  {
    [0x41, 0x42, 0x43, 0x44, 0x45, 0x46, 0x47, 0x48, 0x49, 0x4a, 0x4b, 0x4c, 0x4d, 0x4e, 0x4f, 0x50]
  }

  /** "QRSTUVWXYZabcdef". */
  function Part2(): (text: seq<byte>)
    ensures |text| == 16
  {
    [0x51, 0x52, 0x53, 0x54, 0x55, 0x56, 0x57, 0x58, 0x59, 0x5a, 0x61, 0x62, 0x63, 0x64, 0x65, 0x66]
  }

  /** "ghijklmnopqrstuv". */
  function Part3(): (text: seq<byte>)
    ensures |text| == 16
  {
    [0x67, 0x68, 0x69, 0x6a, 0x6b, 0x6c, 0x6d, 0x6e, 0x6f, 0x70, 0x71, 0x72, 0x73, 0x74, 0x75, 0x76]
  }

  /** "wxyz0123456789". */
  function Part4(): (text: seq<byte>)
    ensures |text| == 14
  {
    [0x77, 0x78, 0x79, 0x7a, 0x30, 0x31, 0x32, 0x33, 0x34, 0x35, 0x36, 0x37, 0x38, 0x39]
  }

  /** The capitals, the small letters and the digits, from 0 to 9. */
  function Letters(): (text: seq<byte>)
    ensures |text| == 62
  {
    Part1() + Part2() + Part3() + Part4()
  }

  /** A word of the block is a word of the part in which it lies. */
  lemma WordOfPart(block: seq<byte>, i: nat, part: seq<byte>, j: nat)
    requires 4 * i + 16 <= |block| && |part| == 16 && block[4 * i..4 * i + 16] == part && j < 4
    ensures WordAt(block, i + j) == WordAt(part, j)
  {
    var from := 4 * (i + j);
    assert part[4 * j] == block[from] && part[4 * j + 1] == block[from + 1];
    assert part[4 * j + 2] == block[from + 2] && part[4 * j + 3] == block[from + 3];
  }

  lemma WordsOfPart(block: seq<byte>, i: nat, part: seq<byte>)
    requires 4 * i + 16 <= |block| && |part| == 16 && block[4 * i..4 * i + 16] == part
    ensures WordAt(block, i) == WordAt(part, 0) && WordAt(block, i + 1) == WordAt(part, 1)
    ensures WordAt(block, i + 2) == WordAt(part, 2) && WordAt(block, i + 3) == WordAt(part, 3)
  {
    hide WordAt;
    WordOfPart(block, i, part, 0);
    WordOfPart(block, i, part, 1);
    WordOfPart(block, i, part, 2);
    WordOfPart(block, i, part, 3);
  }

  lemma Part1Words()
    ensures var part := Part1();
            && WordAt(part, 0) == 0x44434241 && WordAt(part, 1) == 0x48474645
            && WordAt(part, 2) == 0x4c4b4a49 && WordAt(part, 3) == 0x504f4e4d
  {
  }

  lemma Part2Words()
    ensures var part := Part2();
            && WordAt(part, 0) == 0x54535251 && WordAt(part, 1) == 0x58575655
            && WordAt(part, 2) == 0x62615a59 && WordAt(part, 3) == 0x66656463
  {
  }

  lemma Part3Words()
    ensures var part := Part3();
            && WordAt(part, 0) == 0x6a696867 && WordAt(part, 1) == 0x6e6d6c6b
            && WordAt(part, 2) == 0x7271706f && WordAt(part, 3) == 0x76757473
  {
  }

  lemma Part4Words()
    ensures var part := Part4() + [0x80, 0x00];
            && WordAt(part, 0) == 0x7a797877 && WordAt(part, 1) == 0x33323130
            && WordAt(part, 2) == 0x37363534 && WordAt(part, 3) == 0x00803938
  {
  }

  lemma Parts(block: seq<byte>)
    requires block == Letters() + [0x80, 0x00]
    ensures |block| == 64 && block[0..16] == Part1() && block[16..32] == Part2()
    ensures block[32..48] == Part3() && block[48..64] == Part4() + [0x80, 0x00]
  {
    hide Part1, Part2, Part3, Part4;
  }

  lemma FirstWords(block: seq<byte>)
    requires block == Letters() + [0x80, 0x00]
    ensures First(WordsOf(block))
  {
    hide WordAt, Part1, Part2, Part3, Part4, Letters;
    Parts(block);
    WordsOfPart(block, 0, Part1());
    WordsOfPart(block, 4, Part2());
    WordsOfPart(block, 8, Part3());
    WordsOfPart(block, 12, Part4() + [0x80, 0x00]);
    Part1Words();
    Part2Words();
    Part3Words();
    Part4Words();
  }

  lemma SecondWords(block: seq<byte>)
    requires block == Zeros(56) + [0xf0, 0x01] + Zeros(6)
    ensures |block| == 64 && Second(WordsOf(block))
  {
    ZeroWords(block, 0, 14);
    ZeroWords(block, 15, 16);
    assert block[56] == 0xf0 && block[57] == 0x01;
  }

  /** The letters and digits in the test suite, which with their padding make two blocks. */
  lemma DigestOfLetters()
    ensures Digest(Letters())
         == [0xd1, 0x74, 0xab, 0x98, 0xd2, 0x77, 0xd9, 0xf5, 0xa5, 0x61, 0x1c, 0x2c, 0x9f, 0x41, 0x9d, 0x9f]
  {
    hide Fold, Compress, WordsOf, First, Second, Letters, LittleEndian64;
    var one, two := Letters() + [0x80, 0x00], Zeros(56) + [0xf0, 0x01] + Zeros(6);
    Length496();
    assert Letters() + Padding(62) == one + two;
    FirstWords(one);
    SecondWords(two);
    FirstCompressed(one);
    SecondCompressed(two);
    OneBlock(InitialState, one);
    OneBlock(Compress(InitialState, one), two);
    FoldConcat(InitialState, one, two);
  }

}
