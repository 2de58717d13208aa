/** What MD5 gives: its four functions bit by bit, its first state byte by byte, and two of the known
    answers of RFC 1321 section A.5, worked out step by step. */
module Md5Known {
  import opened Bytes
  import opened Md5Transform
  import opened Md5

  // ---------------------------------------------------------------- the four functions

  /** Where x has a one, F takes y's bit, elsewhere z's. */
  lemma FChooses(x: bv32, y: bv32, z: bv32)
    ensures Combine(F, x, y, z) & x == y & x && Combine(F, x, y, z) & !x == z & !x
  {
  }

  /** Where z has a one, G takes x's bit, elsewhere y's. */
  lemma GChooses(x: bv32, y: bv32, z: bv32)
    ensures Combine(G, x, y, z) & z == x & z && Combine(G, x, y, z) & !z == y & !z
  {
  }

  /** H is the odd one out: any two of the words take it back to the third. */
  lemma HIsParity(x: bv32, y: bv32, z: bv32)
    ensures Combine(H, x, y, z) ^ x ^ y == z && Combine(H, x, y, z) ^ y ^ z == x
    ensures Combine(H, 0, y, 0) == y
  {
  }

  /** Where z has a one, I compares x and y, elsewhere it turns y's bit over. */
  lemma IChooses(x: bv32, y: bv32, z: bv32)
    ensures Combine(I, x, y, z) & z == (x ^ y) & z && Combine(I, x, y, z) & !z == !y & !z
  {
  }

  /** The first state's bytes, low byte first, count up and down (RFC 1321 section 3.3). */
  lemma FirstState()
    ensures Encode(INIT) == [0x01, 0x23, 0x45, 0x67, 0x89, 0xab, 0xcd, 0xef, 0xfe, 0xdc, 0xba, 0x98, 0x76, 0x54, 0x32, 0x10]
  {
  }

  // ---------------------------------------------------------------- one step on given words

  lemma BitsBack(a: bv32)
    ensures (a as word) as bv32 == a
  {
  }

  lemma MixIs(k: Kind, a: bv32, b: bv32, c: bv32, d: bv32, x: bv32, s: nat, ac: bv32)
    requires s < 32
    ensures Mix(k, a as word, b as word, c as word, d as word, x as word, s, ac as word) == MixBits(k, a, b, c, d, x, s, ac) as word
  {
    hide MixBits;
    BitsBack(a);
    BitsBack(b);
    BitsBack(c);
    BitsBack(d);
    BitsBack(x);
    BitsBack(ac);
  }

  /** Step i takes x, turns by s and adds ac; next is what it mixes. */
  lemma Step(q: Quad, block: seq<byte>, i: nat, a: bv32, b: bv32, c: bv32, d: bv32, x: bv32, k: Kind, s: nat, ac: bv32, next: bv32)
    requires |block| == 64 && i < 64 && s < 32
    requires Turns(q, block, 0, i) == Quad(a as word, b as word, c as word, d as word)
    requires WordAt(block, IndexOf(i)) == x as word
    requires KindOf(i) == k && ShiftOf(i) == s && Sine(i) == ac as word && next == MixBits(k, a, b, c, d, x, s, ac)
    ensures Turns(q, block, 0, i + 1) == Quad(d as word, next as word, b as word, c as word)
  {
    hide WordAt, IndexOf, KindOf, ShiftOf, Sine, Turns, Mix, MixBits;
    MixIs(k, a, b, c, d, x, s, ac);
    OneMore(q, block, 0, i);
  }

  lemma SinesOf1()
    ensures Sine(0) == 0xd76aa478 && Sine(1) == 0xe8c7b756 && Sine(2) == 0x242070db && Sine(3) == 0xc1bdceee
    ensures Sine(4) == 0xf57c0faf && Sine(5) == 0x4787c62a && Sine(6) == 0xa8304613 && Sine(7) == 0xfd469501
    ensures Sine(8) == 0x698098d8 && Sine(9) == 0x8b44f7af && Sine(10) == 0xffff5bb1 && Sine(11) == 0x895cd7be
    ensures Sine(12) == 0x6b901122 && Sine(13) == 0xfd987193 && Sine(14) == 0xa679438e && Sine(15) == 0x49b40821
  {
  }

  lemma SinesOf2()
    ensures Sine(16) == 0xf61e2562 && Sine(17) == 0xc040b340 && Sine(18) == 0x265e5a51 && Sine(19) == 0xe9b6c7aa
    ensures Sine(20) == 0xd62f105d && Sine(21) == 0x2441453 && Sine(22) == 0xd8a1e681 && Sine(23) == 0xe7d3fbc8
    ensures Sine(24) == 0x21e1cde6 && Sine(25) == 0xc33707d6 && Sine(26) == 0xf4d50d87 && Sine(27) == 0x455a14ed
    ensures Sine(28) == 0xa9e3e905 && Sine(29) == 0xfcefa3f8 && Sine(30) == 0x676f02d9 && Sine(31) == 0x8d2a4c8a
  {
  }

  lemma SinesOf3()
    ensures Sine(32) == 0xfffa3942 && Sine(33) == 0x8771f681 && Sine(34) == 0x6d9d6122 && Sine(35) == 0xfde5380c
    ensures Sine(36) == 0xa4beea44 && Sine(37) == 0x4bdecfa9 && Sine(38) == 0xf6bb4b60 && Sine(39) == 0xbebfbc70
    ensures Sine(40) == 0x289b7ec6 && Sine(41) == 0xeaa127fa && Sine(42) == 0xd4ef3085 && Sine(43) == 0x4881d05
    ensures Sine(44) == 0xd9d4d039 && Sine(45) == 0xe6db99e5 && Sine(46) == 0x1fa27cf8 && Sine(47) == 0xc4ac5665
  {
  }

  lemma SinesOf4()
    ensures Sine(48) == 0xf4292244 && Sine(49) == 0x432aff97 && Sine(50) == 0xab9423a7 && Sine(51) == 0xfc93a039
    ensures Sine(52) == 0x655b59c3 && Sine(53) == 0x8f0ccc92 && Sine(54) == 0xffeff47d && Sine(55) == 0x85845dd1
    ensures Sine(56) == 0x6fa87e4f && Sine(57) == 0xfe2ce6e0 && Sine(58) == 0xa3014314 && Sine(59) == 0x4e0811a1
    ensures Sine(60) == 0xf7537e82 && Sine(61) == 0xbd3af235 && Sine(62) == 0x2ad7d2bb && Sine(63) == 0xeb86d391
  {
  }

  lemma OneBlock(p: seq<byte>)
    requires |p| == 64
    ensures Fold(p) == Transform(INIT, p)
  {
    hide Transform;
    FoldAppend([], p);
    assert [] + p == p;
  }

  lemma TwoBlocks(p: seq<byte>)
    requires |p| == 128
    ensures Fold(p) == Transform(Fold(p[..64]), p[64..])
  {
    hide Transform, Fold;
    FoldAppend(p[..64], p[64..]);
    assert p[..64] + p[64..] == p;
  }

  // ---------------------------------------------------------------- the empty message

  /** The padding of no bytes: a one bit and nothing else. */
  predicate EmptyBlock(block: seq<byte>) {
    && |block| == 64
    && WordAt(block, 0) == 0x80 && WordAt(block, 1) == 0x0 && WordAt(block, 2) == 0x0 && WordAt(block, 3) == 0x0
    && WordAt(block, 4) == 0x0 && WordAt(block, 5) == 0x0 && WordAt(block, 6) == 0x0 && WordAt(block, 7) == 0x0
    && WordAt(block, 8) == 0x0 && WordAt(block, 9) == 0x0 && WordAt(block, 10) == 0x0 && WordAt(block, 11) == 0x0
    && WordAt(block, 12) == 0x0 && WordAt(block, 13) == 0x0 && WordAt(block, 14) == 0x0 && WordAt(block, 15) == 0x0
  }

  lemma EmptyRound1(q: Quad, block: seq<byte>)
    requires EmptyBlock(block) && Turns(q, block, 0, 0) == Quad(0x67452301, 0xefcdab89, 0x98badcfe, 0x10325476)
    ensures Turns(q, block, 0, 16) == Quad(0xf56c7cf1, 0xd6819c6a, 0x5aa53f75, 0x374943a7)
  {
    hide WordAt, Turns, Mix, Sine;
    SinesOf1();
    Step(q, block, 0, 0x67452301, 0xefcdab89, 0x98badcfe, 0x10325476, 0x80, F, 7, 0xd76aa478, 0xa5202774);
    Step(q, block, 1, 0x10325476, 0xa5202774, 0xefcdab89, 0x98badcfe, 0x0, F, 12, 0xe8c7b756, 0xf59592dd);
    Step(q, block, 2, 0x98badcfe, 0xf59592dd, 0xa5202774, 0xefcdab89, 0x0, F, 17, 0x242070db, 0xe7f06b23);
    Step(q, block, 3, 0xefcdab89, 0xe7f06b23, 0xf59592dd, 0xa5202774, 0x0, F, 22, 0xc1bdceee, 0x1b163203);
    Step(q, block, 4, 0xa5202774, 0x1b163203, 0xe7f06b23, 0xf59592dd, 0x0, F, 7, 0xf57c0faf, 0x32033344);
    Step(q, block, 5, 0xf59592dd, 0x32033344, 0x1b163203, 0xe7f06b23, 0x0, F, 12, 0x4787c62a, 0x2f35d494);
    Step(q, block, 6, 0xe7f06b23, 0x2f35d494, 0x32033344, 0x1b163203, 0x0, F, 17, 0xa8304613, 0xf5b158db);
    Step(q, block, 7, 0x1b163203, 0xf5b158db, 0x2f35d494, 0x32033344, 0x0, F, 22, 0xfd469501, 0x9bc13ce9);
    Step(q, block, 8, 0x32033344, 0x9bc13ce9, 0xf5b158db, 0x2f35d494, 0x0, F, 7, 0x698098d8, 0x3893b991);
    Step(q, block, 9, 0x2f35d494, 0x3893b991, 0x9bc13ce9, 0xf5b158db, 0x0, F, 12, 0x8b44f7af, 0xfce4a312);
    Step(q, block, 10, 0xf5b158db, 0xfce4a312, 0x3893b991, 0x9bc13ce9, 0x0, F, 17, 0xffff5bb1, 0xe1ef0576);
    Step(q, block, 11, 0x9bc13ce9, 0xe1ef0576, 0xfce4a312, 0x3893b991, 0x0, F, 22, 0x895cd7be, 0x70768a29);
    Step(q, block, 12, 0x3893b991, 0x70768a29, 0xe1ef0576, 0xfce4a312, 0x0, F, 7, 0x6b901122, 0xf56c7cf1);
    Step(q, block, 13, 0xfce4a312, 0xf56c7cf1, 0x70768a29, 0xe1ef0576, 0x0, F, 12, 0xfd987193, 0x374943a7);
    Step(q, block, 14, 0xe1ef0576, 0x374943a7, 0xf56c7cf1, 0x70768a29, 0x0, F, 17, 0xa679438e, 0x5aa53f75);
    Step(q, block, 15, 0x70768a29, 0x5aa53f75, 0x374943a7, 0xf56c7cf1, 0x0, F, 22, 0x49b40821, 0xd6819c6a);
  }

  lemma EmptyRound2(q: Quad, block: seq<byte>)
    requires EmptyBlock(block) && Turns(q, block, 0, 16) == Quad(0xf56c7cf1, 0xd6819c6a, 0x5aa53f75, 0x374943a7)
    ensures Turns(q, block, 0, 32) == Quad(0x13707036, 0xa2205f1f, 0x1c31c384, 0xae7813db)
  {
    hide WordAt, Turns, Mix, Sine;
    SinesOf2();
    Step(q, block, 16, 0xf56c7cf1, 0xd6819c6a, 0x5aa53f75, 0x374943a7, 0x0, G, 5, 0xf61e2562, 0x1c7d7513);
    Step(q, block, 17, 0x374943a7, 0x1c7d7513, 0xd6819c6a, 0x5aa53f75, 0x0, G, 9, 0xc040b340, 0x7bd57a3a);
    Step(q, block, 18, 0x5aa53f75, 0x7bd57a3a, 0x1c7d7513, 0xd6819c6a, 0x0, G, 14, 0x265e5a51, 0xc095f13a);
    Step(q, block, 19, 0xd6819c6a, 0xc095f13a, 0x7bd57a3a, 0x1c7d7513, 0x80, G, 20, 0xe9b6c7aa, 0xbd782e17);
    Step(q, block, 20, 0x1c7d7513, 0xbd782e17, 0xc095f13a, 0x7bd57a3a, 0x0, G, 5, 0xd62f105d, 0x3d1e3e6c);
    Step(q, block, 21, 0x7bd57a3a, 0x3d1e3e6c, 0xbd782e17, 0xc095f13a, 0x0, G, 9, 0x2441453, 0x68b7b3e3);
    Step(q, block, 22, 0xc095f13a, 0x68b7b3e3, 0x3d1e3e6c, 0xbd782e17, 0x0, G, 14, 0xd8a1e681, 0xeb41643e);
    Step(q, block, 23, 0xbd782e17, 0xeb41643e, 0x68b7b3e3, 0x3d1e3e6c, 0x0, G, 20, 0xe7d3fbc8, 0xe422531a);
    Step(q, block, 24, 0x3d1e3e6c, 0xe422531a, 0xeb41643e, 0x68b7b3e3, 0x0, G, 5, 0x21e1cde6, 0x306ec122);
    Step(q, block, 25, 0x68b7b3e3, 0x306ec122, 0xe422531a, 0xeb41643e, 0x0, G, 9, 0xc33707d6, 0xd28c77c2);
    Step(q, block, 26, 0xeb41643e, 0xd28c77c2, 0x306ec122, 0xe422531a, 0x0, G, 14, 0xf4d50d87, 0xa3c663da);
    Step(q, block, 27, 0xe422531a, 0xa3c663da, 0xd28c77c2, 0x306ec122, 0x0, G, 20, 0x455a14ed, 0xa0572807);
    Step(q, block, 28, 0x306ec122, 0xa0572807, 0xa3c663da, 0xd28c77c2, 0x0, G, 5, 0xa9e3e905, 0x13707036);
    Step(q, block, 29, 0xd28c77c2, 0x13707036, 0xa0572807, 0xa3c663da, 0x0, G, 9, 0xfcefa3f8, 0xae7813db);
    Step(q, block, 30, 0xa3c663da, 0xae7813db, 0x13707036, 0xa0572807, 0x0, G, 14, 0x676f02d9, 0x1c31c384);
    Step(q, block, 31, 0xa0572807, 0x1c31c384, 0xae7813db, 0x13707036, 0x0, G, 20, 0x8d2a4c8a, 0xa2205f1f);
  }

  lemma EmptyRound3(q: Quad, block: seq<byte>)
    requires EmptyBlock(block) && Turns(q, block, 0, 32) == Quad(0x13707036, 0xa2205f1f, 0x1c31c384, 0xae7813db)
    ensures Turns(q, block, 0, 48) == Quad(0x3f55edfd, 0xca7d2dbd, 0x68d84ea2, 0x22a31f54)
  {
    hide WordAt, Turns, Mix, Sine;
    SinesOf3();
    Step(q, block, 32, 0x13707036, 0xa2205f1f, 0x1c31c384, 0xae7813db, 0x0, H, 4, 0xfffa3942, 0xdf63eaa1);
    Step(q, block, 33, 0xae7813db, 0xdf63eaa1, 0xa2205f1f, 0x1c31c384, 0x0, H, 11, 0x8771f681, 0xc3689f5b);
    Step(q, block, 34, 0x1c31c384, 0xc3689f5b, 0xdf63eaa1, 0xa2205f1f, 0x0, H, 16, 0x6d9d6122, 0x12f3e755);
    Step(q, block, 35, 0xa2205f1f, 0x12f3e755, 0xc3689f5b, 0xdf63eaa1, 0x0, H, 23, 0xfde5380c, 0x4b6669);
    Step(q, block, 36, 0xdf63eaa1, 0x4b6669, 0x12f3e755, 0xc3689f5b, 0x0, H, 4, 0xa4beea44, 0x5f7a9b2e);
    Step(q, block, 37, 0xc3689f5b, 0x5f7a9b2e, 0x4b6669, 0x12f3e755, 0x0, H, 11, 0x4bdecfa9, 0xabc34e16);
    Step(q, block, 38, 0x12f3e755, 0xabc34e16, 0x5f7a9b2e, 0x4b6669, 0x0, H, 16, 0xf6bb4b60, 0x91ca4cb7);
    Step(q, block, 39, 0x4b6669, 0x91ca4cb7, 0xabc34e16, 0x5f7a9b2e, 0x0, H, 23, 0xbebfbc70, 0xc5dc8c15);
    Step(q, block, 40, 0x5f7a9b2e, 0xc5dc8c15, 0x91ca4cb7, 0xabc34e16, 0x0, H, 4, 0x289b7ec6, 0x4497169d);
    Step(q, block, 41, 0xabc34e16, 0x4497169d, 0xc5dc8c15, 0x91ca4cb7, 0x80, H, 11, 0xeaa127fa, 0x76fd93d4);
    Step(q, block, 42, 0x91ca4cb7, 0x76fd93d4, 0x4497169d, 0xc5dc8c15, 0x0, H, 16, 0xd4ef3085, 0xfd95f243);
    Step(q, block, 43, 0xc5dc8c15, 0xfd95f243, 0x76fd93d4, 0x4497169d, 0x0, H, 23, 0x4881d05, 0xfe32453);
    Step(q, block, 44, 0x4497169d, 0xfe32453, 0xfd95f243, 0x76fd93d4, 0x0, H, 4, 0xd9d4d039, 0x3f55edfd);
    Step(q, block, 45, 0x76fd93d4, 0x3f55edfd, 0xfe32453, 0xfd95f243, 0x0, H, 11, 0xe6db99e5, 0x22a31f54);
    Step(q, block, 46, 0xfd95f243, 0x22a31f54, 0x3f55edfd, 0xfe32453, 0x0, H, 16, 0x1fa27cf8, 0x68d84ea2);
    Step(q, block, 47, 0xfe32453, 0x68d84ea2, 0x22a31f54, 0x3f55edfd, 0x0, H, 23, 0xc4ac5665, 0xca7d2dbd);
  }

  lemma EmptyRound4(q: Quad, block: seq<byte>)
    requires EmptyBlock(block) && Turns(q, block, 0, 48) == Quad(0x3f55edfd, 0xca7d2dbd, 0x68d84ea2, 0x22a31f54)
    ensures Turns(q, block, 0, 64) == Quad(0x7246fad3, 0x14e45506, 0xff4ea3eb, 0x6e10a476)
  {
    hide WordAt, Turns, Mix, Sine;
    SinesOf4();
    Step(q, block, 48, 0x3f55edfd, 0xca7d2dbd, 0x68d84ea2, 0x22a31f54, 0x80, I, 6, 0xf4292244, 0x93aa2577);
    Step(q, block, 49, 0x22a31f54, 0x93aa2577, 0xca7d2dbd, 0x68d84ea2, 0x0, I, 10, 0x432aff97, 0x1688dc85);
    Step(q, block, 50, 0x68d84ea2, 0x1688dc85, 0x93aa2577, 0xca7d2dbd, 0x0, I, 15, 0xab9423a7, 0xcd85b8cb);
    Step(q, block, 51, 0xca7d2dbd, 0xcd85b8cb, 0x1688dc85, 0x93aa2577, 0x0, I, 21, 0xfc93a039, 0x561e0689);
    Step(q, block, 52, 0x93aa2577, 0x561e0689, 0xcd85b8cb, 0x1688dc85, 0x0, I, 6, 0x655b59c3, 0x5625a114);
    Step(q, block, 53, 0x1688dc85, 0x5625a114, 0x561e0689, 0xcd85b8cb, 0x0, I, 10, 0x8f0ccc92, 0x3450f42b);
    Step(q, block, 54, 0xcd85b8cb, 0x3450f42b, 0x5625a114, 0x561e0689, 0x0, I, 15, 0xffeff47d, 0x392ad0d0);
    Step(q, block, 55, 0x561e0689, 0x392ad0d0, 0x3450f42b, 0x5625a114, 0x0, I, 21, 0x85845dd1, 0x1e77fa61);
    Step(q, block, 56, 0x5625a114, 0x1e77fa61, 0x392ad0d0, 0x3450f42b, 0x0, I, 6, 0x6fa87e4f, 0x474a9c8c);
    Step(q, block, 57, 0x3450f42b, 0x474a9c8c, 0x1e77fa61, 0x392ad0d0, 0x0, I, 10, 0xfe2ce6e0, 0xdfce00bc);
    Step(q, block, 58, 0x392ad0d0, 0xdfce00bc, 0x474a9c8c, 0x1e77fa61, 0x0, I, 15, 0xa3014314, 0x36594b14);
    Step(q, block, 59, 0x1e77fa61, 0x36594b14, 0xdfce00bc, 0x474a9c8c, 0x0, I, 21, 0x4e0811a1, 0x30130182);
    Step(q, block, 60, 0x474a9c8c, 0x30130182, 0x36594b14, 0xdfce00bc, 0x0, I, 6, 0xf7537e82, 0x7246fad3);
    Step(q, block, 61, 0xdfce00bc, 0x7246fad3, 0x30130182, 0x36594b14, 0x0, I, 10, 0xbd3af235, 0x6e10a476);
    Step(q, block, 62, 0x36594b14, 0x6e10a476, 0x7246fad3, 0x30130182, 0x0, I, 15, 0x2ad7d2bb, 0xff4ea3eb);
    Step(q, block, 63, 0x30130182, 0xff4ea3eb, 0x6e10a476, 0x7246fad3, 0x0, I, 21, 0xeb86d391, 0x14e45506);
  }

  lemma EmptyTransform(block: seq<byte>)
    requires EmptyBlock(block)
    ensures Transform(Quad(0x67452301, 0xefcdab89, 0x98badcfe, 0x10325476), block) == Quad(0xd98c1dd4, 0x4b2008f, 0x980980e9, 0x7e42f8ec)
  {
    hide WordAt, Turns;
    var q := Quad(0x67452301, 0xefcdab89, 0x98badcfe, 0x10325476);
    NoneYet(q, block, 0);
    EmptyRound1(q, block);
    EmptyRound2(q, block);
    EmptyRound3(q, block);
    EmptyRound4(q, block);
  }

  /** MD5("") = d41d8cd98f00b204e9800998ecf8427e. */
  lemma EmptyDigest()
    ensures Digest([]) == [0xd4, 0x1d, 0x8c, 0xd9, 0x8f, 0x00, 0xb2, 0x04, 0xe9, 0x80, 0x09, 0x98, 0xec, 0xf8, 0x42, 0x7e]
  {
    hide Transform, Encode, EmptyBlock, Padded;
    EmptyPadded();
    OneBlock(Padded([]));
    EmptyTransform(Padded([]));
    EmptyEncoded();
  }

  lemma EmptyPadded()
    ensures EmptyBlock(Padded([]))
  {
    var p := Padded([]);
    assert LengthBytes(0) == [0, 0, 0, 0, 0, 0, 0, 0];
    assert p == [0x80] + Repeat<byte>(0, 55) + [0, 0, 0, 0, 0, 0, 0, 0];
    assert p[0] == 0x80 && forall k | 1 <= k < 64 :: p[k] == 0;
  }

  lemma EmptyEncoded()
    ensures Encode(Quad(0xd98c1dd4, 0x4b2008f, 0x980980e9, 0x7e42f8ec)) ==
      [0xd4, 0x1d, 0x8c, 0xd9, 0x8f, 0x00, 0xb2, 0x04, 0xe9, 0x80, 0x09, 0x98, 0xec, 0xf8, 0x42, 0x7e]
  {
  }

  // ---------------------------------------------------------------- letters and digits

  /** ABCDEFGHIJKLMNOPQRSTUVWXYZabcdefghijklmnopqrstuvwxyz0123456789 */
  function LettersAndDigits(): seq<byte> {
    seq(62, i requires 0 <= i < 62 => (if i < 26 then 65 + i else if i < 52 then 71 + i else i - 4) as byte)
  }

  /** The 62 bytes, a one bit and a zero byte. */
  predicate FirstBlock(block: seq<byte>) {
    && |block| == 64
    && WordAt(block, 0) == 0x44434241 && WordAt(block, 1) == 0x48474645 && WordAt(block, 2) == 0x4c4b4a49 && WordAt(block, 3) == 0x504f4e4d
    && WordAt(block, 4) == 0x54535251 && WordAt(block, 5) == 0x58575655 && WordAt(block, 6) == 0x62615a59 && WordAt(block, 7) == 0x66656463
    && WordAt(block, 8) == 0x6a696867 && WordAt(block, 9) == 0x6e6d6c6b && WordAt(block, 10) == 0x7271706f && WordAt(block, 11) == 0x76757473
    && WordAt(block, 12) == 0x7a797877 && WordAt(block, 13) == 0x33323130 && WordAt(block, 14) == 0x37363534 && WordAt(block, 15) == 0x803938
  }

  /** 56 zero bytes and the length of 496 bits. */
  predicate SecondBlock(block: seq<byte>) {
    && |block| == 64
    && WordAt(block, 0) == 0x0 && WordAt(block, 1) == 0x0 && WordAt(block, 2) == 0x0 && WordAt(block, 3) == 0x0
    && WordAt(block, 4) == 0x0 && WordAt(block, 5) == 0x0 && WordAt(block, 6) == 0x0 && WordAt(block, 7) == 0x0
    && WordAt(block, 8) == 0x0 && WordAt(block, 9) == 0x0 && WordAt(block, 10) == 0x0 && WordAt(block, 11) == 0x0
    && WordAt(block, 12) == 0x0 && WordAt(block, 13) == 0x0 && WordAt(block, 14) == 0x1f0 && WordAt(block, 15) == 0x0
  }

  lemma FirstRound1(q: Quad, block: seq<byte>)
    requires FirstBlock(block) && Turns(q, block, 0, 0) == Quad(0x67452301, 0xefcdab89, 0x98badcfe, 0x10325476)
    ensures Turns(q, block, 0, 16) == Quad(0x3cbdcd45, 0x5d38e690, 0xfa148c8a, 0xb8dec763)
  {
    hide WordAt, Turns, Mix, Sine;
    SinesOf1();
    Step(q, block, 0, 0x67452301, 0xefcdab89, 0x98badcfe, 0x10325476, 0x44434241, F, 7, 0xd76aa478, 0xc6c10796);
    Step(q, block, 1, 0x10325476, 0xc6c10796, 0xefcdab89, 0x98badcfe, 0x48474645, F, 12, 0xe8c7b756, 0x99a09999);
    Step(q, block, 2, 0x98badcfe, 0x99a09999, 0xc6c10796, 0xefcdab89, 0x4c4b4a49, F, 17, 0x242070db, 0x11067980);
    Step(q, block, 3, 0xefcdab89, 0x11067980, 0x99a09999, 0xc6c10796, 0x504f4e4d, F, 22, 0xc1bdceee, 0x27bce07a);
    Step(q, block, 4, 0xc6c10796, 0x27bce07a, 0x11067980, 0x99a09999, 0x54535251, F, 7, 0xf57c0faf, 0xf22e6c4e);
    Step(q, block, 5, 0x99a09999, 0xf22e6c4e, 0x27bce07a, 0x11067980, 0x58575655, F, 12, 0x4787c62a, 0xb4ac9218);
    Step(q, block, 6, 0x11067980, 0xb4ac9218, 0xf22e6c4e, 0x27bce07a, 0x62615a59, F, 17, 0xa8304613, 0xa95a2fc0);
    Step(q, block, 7, 0x27bce07a, 0xa95a2fc0, 0xb4ac9218, 0xf22e6c4e, 0x66656463, F, 22, 0xfd469501, 0xa4799506);
    Step(q, block, 8, 0xf22e6c4e, 0xa4799506, 0xa95a2fc0, 0xb4ac9218, 0x6a696867, F, 7, 0x698098d8, 0x1eb3e7c1);
    Step(q, block, 9, 0xb4ac9218, 0x1eb3e7c1, 0xa4799506, 0xa95a2fc0, 0x6e6d6c6b, F, 12, 0x8b44f7af, 0xa6e70cfe);
    Step(q, block, 10, 0xa95a2fc0, 0xa6e70cfe, 0x1eb3e7c1, 0xa4799506, 0x7271706f, F, 17, 0xffff5bb1, 0xca27520b);
    Step(q, block, 11, 0xa4799506, 0xca27520b, 0xa6e70cfe, 0x1eb3e7c1, 0x76757473, F, 22, 0x895cd7be, 0x8a7612ec);
    Step(q, block, 12, 0x1eb3e7c1, 0x8a7612ec, 0xca27520b, 0xa6e70cfe, 0x7a797877, F, 7, 0x6b901122, 0x3cbdcd45);
    Step(q, block, 13, 0xa6e70cfe, 0x3cbdcd45, 0x8a7612ec, 0xca27520b, 0x33323130, F, 12, 0xfd987193, 0xb8dec763);
    Step(q, block, 14, 0xca27520b, 0xb8dec763, 0x3cbdcd45, 0x8a7612ec, 0x37363534, F, 17, 0xa679438e, 0xfa148c8a);
    Step(q, block, 15, 0x8a7612ec, 0xfa148c8a, 0xb8dec763, 0x3cbdcd45, 0x803938, F, 22, 0x49b40821, 0x5d38e690);
  }

  lemma FirstRound2(q: Quad, block: seq<byte>)
    requires FirstBlock(block) && Turns(q, block, 0, 16) == Quad(0x3cbdcd45, 0x5d38e690, 0xfa148c8a, 0xb8dec763)
    ensures Turns(q, block, 0, 32) == Quad(0x9b085fa9, 0xdd789ecc, 0x5993248f, 0x4400a9bd)
  {
    hide WordAt, Turns, Mix, Sine;
    SinesOf2();
    Step(q, block, 16, 0x3cbdcd45, 0x5d38e690, 0xfa148c8a, 0xb8dec763, 0x48474645, G, 5, 0xf61e2562, 0x4b9d52a);
    Step(q, block, 17, 0xb8dec763, 0x4b9d52a, 0x5d38e690, 0xfa148c8a, 0x62615a59, G, 9, 0xc040b340, 0x783002eb);
    Step(q, block, 18, 0xfa148c8a, 0x783002eb, 0x4b9d52a, 0x5d38e690, 0x76757473, G, 14, 0x265e5a51, 0xd3ee3ed1);
    Step(q, block, 19, 0x5d38e690, 0xd3ee3ed1, 0x783002eb, 0x4b9d52a, 0x44434241, G, 20, 0xe9b6c7aa, 0x47ae7c81);
    Step(q, block, 20, 0x4b9d52a, 0x47ae7c81, 0xd3ee3ed1, 0x783002eb, 0x58575655, G, 5, 0xd62f105d, 0x2d7d8a3f);
    Step(q, block, 21, 0x783002eb, 0x2d7d8a3f, 0x47ae7c81, 0xd3ee3ed1, 0x7271706f, G, 9, 0x2441453, 0xd1210823);
    Step(q, block, 22, 0xd3ee3ed1, 0xd1210823, 0x2d7d8a3f, 0x47ae7c81, 0x803938, G, 14, 0xd8a1e681, 0x4b534dc3);
    Step(q, block, 23, 0x47ae7c81, 0x4b534dc3, 0xd1210823, 0x2d7d8a3f, 0x54535251, G, 20, 0xe7d3fbc8, 0x75292030);
    Step(q, block, 24, 0x2d7d8a3f, 0x75292030, 0x4b534dc3, 0xd1210823, 0x6e6d6c6b, G, 5, 0x21e1cde6, 0x9d2a6e33);
    Step(q, block, 25, 0xd1210823, 0x9d2a6e33, 0x75292030, 0x4b534dc3, 0x37363534, G, 9, 0xc33707d6, 0xe8d2e44);
    Step(q, block, 26, 0x4b534dc3, 0xe8d2e44, 0x9d2a6e33, 0x75292030, 0x504f4e4d, G, 14, 0xf4d50d87, 0xd473b564);
    Step(q, block, 27, 0x75292030, 0xd473b564, 0xe8d2e44, 0x9d2a6e33, 0x6a696867, G, 20, 0x455a14ed, 0xf2ff6ea0);
    Step(q, block, 28, 0x9d2a6e33, 0xf2ff6ea0, 0xd473b564, 0xe8d2e44, 0x33323130, G, 5, 0xa9e3e905, 0x9b085fa9);
    Step(q, block, 29, 0xe8d2e44, 0x9b085fa9, 0xf2ff6ea0, 0xd473b564, 0x4c4b4a49, G, 9, 0xfcefa3f8, 0x4400a9bd);
    Step(q, block, 30, 0xd473b564, 0x4400a9bd, 0x9b085fa9, 0xf2ff6ea0, 0x66656463, G, 14, 0x676f02d9, 0x5993248f);
    Step(q, block, 31, 0xf2ff6ea0, 0x5993248f, 0x4400a9bd, 0x9b085fa9, 0x7a797877, G, 20, 0x8d2a4c8a, 0xdd789ecc);
  }

  lemma FirstRound3(q: Quad, block: seq<byte>)
    requires FirstBlock(block) && Turns(q, block, 0, 32) == Quad(0x9b085fa9, 0xdd789ecc, 0x5993248f, 0x4400a9bd)
    ensures Turns(q, block, 0, 48) == Quad(0x2dbee21d, 0xf166f514, 0xee46e961, 0xe95c3a43)
  {
    hide WordAt, Turns, Mix, Sine;
    SinesOf3();
    Step(q, block, 32, 0x9b085fa9, 0xdd789ecc, 0x5993248f, 0x4400a9bd, 0x58575655, H, 4, 0xfffa3942, 0x21c8d2b7);
    Step(q, block, 33, 0x4400a9bd, 0x21c8d2b7, 0xdd789ecc, 0x5993248f, 0x6a696867, H, 11, 0x8771f681, 0x1d55a18e);
    Step(q, block, 34, 0x5993248f, 0x1d55a18e, 0x21c8d2b7, 0xdd789ecc, 0x76757473, H, 16, 0x6d9d6122, 0x56ec119);
    Step(q, block, 35, 0xdd789ecc, 0x56ec119, 0x1d55a18e, 0x21c8d2b7, 0x37363534, H, 23, 0xfde5380c, 0x1b9504f8);
    Step(q, block, 36, 0x21c8d2b7, 0x1b9504f8, 0x56ec119, 0x1d55a18e, 0x48474645, H, 4, 0xa4beea44, 0x436b7fe9);
    Step(q, block, 37, 0x1d55a18e, 0x436b7fe9, 0x1b9504f8, 0x56ec119, 0x54535251, H, 11, 0x4bdecfa9, 0x75800c1);
    Step(q, block, 38, 0x56ec119, 0x75800c1, 0x436b7fe9, 0x1b9504f8, 0x66656463, H, 16, 0xf6bb4b60, 0xf404c2f6);
    Step(q, block, 39, 0x1b9504f8, 0xf404c2f6, 0x75800c1, 0x436b7fe9, 0x7271706f, H, 23, 0xbebfbc70, 0xcf0341ed);
    Step(q, block, 40, 0x436b7fe9, 0xcf0341ed, 0xf404c2f6, 0x75800c1, 0x33323130, H, 4, 0x289b7ec6, 0x888e7d8a);
    Step(q, block, 41, 0x75800c1, 0x888e7d8a, 0xcf0341ed, 0xf404c2f6, 0x44434241, H, 11, 0xeaa127fa, 0xbbdaecd8);
    Step(q, block, 42, 0xf404c2f6, 0xbbdaecd8, 0x888e7d8a, 0xcf0341ed, 0x504f4e4d, H, 16, 0xd4ef3085, 0xce620273);
    Step(q, block, 43, 0xcf0341ed, 0xce620273, 0xbbdaecd8, 0x888e7d8a, 0x62615a59, H, 23, 0x4881d05, 0x47b9419);
    Step(q, block, 44, 0x888e7d8a, 0x47b9419, 0xce620273, 0xbbdaecd8, 0x6e6d6c6b, H, 4, 0xd9d4d039, 0x2dbee21d);
    Step(q, block, 45, 0xbbdaecd8, 0x2dbee21d, 0x47b9419, 0xce620273, 0x7a797877, H, 11, 0xe6db99e5, 0xe95c3a43);
    Step(q, block, 46, 0xce620273, 0xe95c3a43, 0x2dbee21d, 0x47b9419, 0x803938, H, 16, 0x1fa27cf8, 0xee46e961);
    Step(q, block, 47, 0x47b9419, 0xee46e961, 0xe95c3a43, 0x2dbee21d, 0x4c4b4a49, H, 23, 0xc4ac5665, 0xf166f514);
  }

  lemma FirstRound4(q: Quad, block: seq<byte>)
    requires FirstBlock(block) && Turns(q, block, 0, 48) == Quad(0x2dbee21d, 0xf166f514, 0xee46e961, 0xe95c3a43)
    ensures Turns(q, block, 0, 64) == Quad(0x1cb80f0a, 0xef2e3a46, 0x10f68731, 0xea3d3eb4)
  {
    hide WordAt, Turns, Mix, Sine;
    SinesOf4();
    Step(q, block, 48, 0x2dbee21d, 0xf166f514, 0xee46e961, 0xe95c3a43, 0x44434241, I, 6, 0xf4292244, 0xe47fd4f3);
    Step(q, block, 49, 0xe95c3a43, 0xe47fd4f3, 0xf166f514, 0xee46e961, 0x66656463, I, 10, 0x432aff97, 0xfb887751);
    Step(q, block, 50, 0xee46e961, 0xfb887751, 0xe47fd4f3, 0xf166f514, 0x37363534, I, 15, 0xab9423a7, 0xf22aedcc);
    Step(q, block, 51, 0xf166f514, 0xf22aedcc, 0xfb887751, 0xe47fd4f3, 0x58575655, I, 21, 0xfc93a039, 0x7a13bc5c);
    Step(q, block, 52, 0xe47fd4f3, 0x7a13bc5c, 0xf22aedcc, 0xfb887751, 0x7a797877, I, 6, 0x655b59c3, 0xa691d430);
    Step(q, block, 53, 0xfb887751, 0xa691d430, 0x7a13bc5c, 0xf22aedcc, 0x504f4e4d, I, 10, 0x8f0ccc92, 0x528452f2);
    Step(q, block, 54, 0xf22aedcc, 0x528452f2, 0xa691d430, 0x7a13bc5c, 0x7271706f, I, 15, 0xffeff47d, 0x3fc23df6);
    Step(q, block, 55, 0x7a13bc5c, 0x3fc23df6, 0x528452f2, 0xa691d430, 0x48474645, I, 21, 0x85845dd1, 0xefb0e72f);
    Step(q, block, 56, 0xa691d430, 0xefb0e72f, 0x3fc23df6, 0x528452f2, 0x6a696867, I, 6, 0x6fa87e4f, 0x27145703);
    Step(q, block, 57, 0x528452f2, 0x27145703, 0xefb0e72f, 0x3fc23df6, 0x803938, I, 10, 0xfe2ce6e0, 0x21a11069);
    Step(q, block, 58, 0x3fc23df6, 0x21a11069, 0x27145703, 0xefb0e72f, 0x62615a59, I, 15, 0xa3014314, 0x374fbe79);
    Step(q, block, 59, 0xefb0e72f, 0x374fbe79, 0x21a11069, 0x27145703, 0x33323130, I, 21, 0x4e0811a1, 0x49d9a5b4);
    Step(q, block, 60, 0x27145703, 0x49d9a5b4, 0x374fbe79, 0x21a11069, 0x54535251, I, 6, 0xf7537e82, 0x1cb80f0a);
    Step(q, block, 61, 0x21a11069, 0x1cb80f0a, 0x49d9a5b4, 0x374fbe79, 0x76757473, I, 10, 0xbd3af235, 0xea3d3eb4);
    Step(q, block, 62, 0x374fbe79, 0xea3d3eb4, 0x1cb80f0a, 0x49d9a5b4, 0x4c4b4a49, I, 15, 0x2ad7d2bb, 0x10f68731);
    Step(q, block, 63, 0x49d9a5b4, 0x10f68731, 0xea3d3eb4, 0x1cb80f0a, 0x6e6d6c6b, I, 21, 0xeb86d391, 0xef2e3a46);
  }

  lemma FirstTransform(block: seq<byte>)
    requires FirstBlock(block)
    ensures Transform(Quad(0x67452301, 0xefcdab89, 0x98badcfe, 0x10325476), block) == Quad(0x83fd320b, 0xdefbe5cf, 0xa9b1642f, 0xfa6f932a)
  {
    hide WordAt, Turns;
    var q := Quad(0x67452301, 0xefcdab89, 0x98badcfe, 0x10325476);
    NoneYet(q, block, 0);
    FirstRound1(q, block);
    FirstRound2(q, block);
    FirstRound3(q, block);
    FirstRound4(q, block);
  }

  lemma SecondRound1(q: Quad, block: seq<byte>)
    requires SecondBlock(block) && Turns(q, block, 0, 0) == Quad(0x83fd320b, 0xdefbe5cf, 0xa9b1642f, 0xfa6f932a)
    ensures Turns(q, block, 0, 16) == Quad(0xa70737da, 0xa36f556f, 0x96f6586e, 0x5473f8a7)
  {
    hide WordAt, Turns, Mix, Sine;
    SinesOf1();
    Step(q, block, 0, 0x83fd320b, 0xdefbe5cf, 0xa9b1642f, 0xfa6f932a, 0x0, F, 7, 0xd76aa478, 0xeda23ed1);
    Step(q, block, 1, 0xfa6f932a, 0xeda23ed1, 0xdefbe5cf, 0xa9b1642f, 0x0, F, 12, 0xe8c7b756, 0x989939cf);
    Step(q, block, 2, 0xa9b1642f, 0x989939cf, 0xeda23ed1, 0xdefbe5cf, 0x0, F, 17, 0x242070db, 0x3c307338);
    Step(q, block, 3, 0xdefbe5cf, 0x3c307338, 0x989939cf, 0xeda23ed1, 0x0, F, 22, 0xc1bdceee, 0xddcf0634);
    Step(q, block, 4, 0xeda23ed1, 0xddcf0634, 0x3c307338, 0x989939cf, 0x0, F, 7, 0xf57c0faf, 0x75144433);
    Step(q, block, 5, 0x989939cf, 0x75144433, 0xddcf0634, 0x3c307338, 0x0, F, 12, 0x4787c62a, 0xc8875807);
    Step(q, block, 6, 0x3c307338, 0xc8875807, 0x75144433, 0xddcf0634, 0x0, F, 17, 0xa8304613, 0xc783cb60);
    Step(q, block, 7, 0xddcf0634, 0xc783cb60, 0xc8875807, 0x75144433, 0x0, F, 22, 0xfd469501, 0x99b6b699);
    Step(q, block, 8, 0x75144433, 0x99b6b699, 0xc783cb60, 0xc8875807, 0x0, F, 7, 0x698098d8, 0xa60a3f69);
    Step(q, block, 9, 0xc8875807, 0xa60a3f69, 0x99b6b699, 0xc783cb60, 0x0, F, 12, 0x8b44f7af, 0xaa6630be);
    Step(q, block, 10, 0xc783cb60, 0xaa6630be, 0xa60a3f69, 0x99b6b699, 0x0, F, 17, 0xffff5bb1, 0x64db26e9);
    Step(q, block, 11, 0x99b6b699, 0x64db26e9, 0xaa6630be, 0xa60a3f69, 0x0, F, 22, 0x895cd7be, 0x64cc7c5a);
    Step(q, block, 12, 0xa60a3f69, 0x64cc7c5a, 0x64db26e9, 0xaa6630be, 0x0, F, 7, 0x6b901122, 0xa70737da);
    Step(q, block, 13, 0xaa6630be, 0xa70737da, 0x64cc7c5a, 0x64db26e9, 0x0, F, 12, 0xfd987193, 0x5473f8a7);
    Step(q, block, 14, 0x64db26e9, 0x5473f8a7, 0xa70737da, 0x64cc7c5a, 0x1f0, F, 17, 0xa679438e, 0x96f6586e);
    Step(q, block, 15, 0x64cc7c5a, 0x96f6586e, 0x5473f8a7, 0xa70737da, 0x0, F, 22, 0x49b40821, 0xa36f556f);
  }

  lemma SecondRound2(q: Quad, block: seq<byte>)
    requires SecondBlock(block) && Turns(q, block, 0, 16) == Quad(0xa70737da, 0xa36f556f, 0x96f6586e, 0x5473f8a7)
    ensures Turns(q, block, 0, 32) == Quad(0x24eba695, 0x9c03e2e8, 0x10c42a2f, 0x4bd0378b)
  {
    hide WordAt, Turns, Mix, Sine;
    SinesOf2();
    Step(q, block, 16, 0xa70737da, 0xa36f556f, 0x96f6586e, 0x5473f8a7, 0x0, G, 5, 0xf61e2562, 0xa5050ad3);
    Step(q, block, 17, 0x5473f8a7, 0xa5050ad3, 0xa36f556f, 0x96f6586e, 0x0, G, 9, 0xc040b340, 0x28776046);
    Step(q, block, 18, 0x96f6586e, 0x28776046, 0xa5050ad3, 0xa36f556f, 0x0, G, 14, 0x265e5a51, 0x27dcd8b4);
    Step(q, block, 19, 0xa36f556f, 0x27dcd8b4, 0x28776046, 0xa5050ad3, 0x0, G, 20, 0xe9b6c7aa, 0x82b8827c);
    Step(q, block, 20, 0xa5050ad3, 0x82b8827c, 0x27dcd8b4, 0x28776046, 0x0, G, 5, 0xd62f105d, 0xe04f070c);
    Step(q, block, 21, 0x28776046, 0xe04f070c, 0x82b8827c, 0x27dcd8b4, 0x0, G, 9, 0x2441453, 0x2f3cd2a2);
    Step(q, block, 22, 0x27dcd8b4, 0x2f3cd2a2, 0xe04f070c, 0x82b8827c, 0x0, G, 14, 0xd8a1e681, 0xc0d22b61);
    Step(q, block, 23, 0x82b8827c, 0xc0d22b61, 0x2f3cd2a2, 0xe04f070c, 0x0, G, 20, 0xe7d3fbc8, 0xdf35cb56);
    Step(q, block, 24, 0xe04f070c, 0xdf35cb56, 0xc0d22b61, 0x2f3cd2a2, 0x0, G, 5, 0x21e1cde6, 0x242dd210);
    Step(q, block, 25, 0x2f3cd2a2, 0x242dd210, 0xdf35cb56, 0xc0d22b61, 0x1f0, G, 9, 0xc33707d6, 0x576ace33);
    Step(q, block, 26, 0xc0d22b61, 0x576ace33, 0x242dd210, 0xdf35cb56, 0x0, G, 14, 0xf4d50d87, 0x5c295967);
    Step(q, block, 27, 0xdf35cb56, 0x5c295967, 0x576ace33, 0x242dd210, 0x0, G, 20, 0x455a14ed, 0x2291191a);
    Step(q, block, 28, 0x242dd210, 0x2291191a, 0x5c295967, 0x576ace33, 0x0, G, 5, 0xa9e3e905, 0x24eba695);
    Step(q, block, 29, 0x576ace33, 0x24eba695, 0x2291191a, 0x5c295967, 0x0, G, 9, 0xfcefa3f8, 0x4bd0378b);
    Step(q, block, 30, 0x5c295967, 0x4bd0378b, 0x24eba695, 0x2291191a, 0x0, G, 14, 0x676f02d9, 0x10c42a2f);
    Step(q, block, 31, 0x2291191a, 0x10c42a2f, 0x4bd0378b, 0x24eba695, 0x0, G, 20, 0x8d2a4c8a, 0x9c03e2e8);
  }

  lemma SecondRound3(q: Quad, block: seq<byte>)
    requires SecondBlock(block) && Turns(q, block, 0, 32) == Quad(0x24eba695, 0x9c03e2e8, 0x10c42a2f, 0x4bd0378b)
    ensures Turns(q, block, 0, 48) == Quad(0x54c9eb3a, 0x79c0710a, 0x2ec86f72, 0xd4d9c6ac)
  {
    hide WordAt, Turns, Mix, Sine;
    SinesOf3();
    Step(q, block, 32, 0x24eba695, 0x9c03e2e8, 0x10c42a2f, 0x4bd0378b, 0x0, H, 4, 0xfffa3942, 0x5be1d526);
    Step(q, block, 33, 0x4bd0378b, 0x5be1d526, 0x9c03e2e8, 0x10c42a2f, 0x0, H, 11, 0x8771f681, 0x9e414279);
    Step(q, block, 34, 0x10c42a2f, 0x9e414279, 0x5be1d526, 0x9c03e2e8, 0x0, H, 16, 0x6d9d6122, 0x9f4a1a7e);
    Step(q, block, 35, 0x9c03e2e8, 0x9f4a1a7e, 0x9e414279, 0x5be1d526, 0x1f0, H, 23, 0xfde5380c, 0xa2448453);
    Step(q, block, 36, 0x5be1d526, 0xa2448453, 0x9f4a1a7e, 0x9e414279, 0x0, H, 4, 0xa4beea44, 0xe14e403d);
    Step(q, block, 37, 0x9e414279, 0xe14e403d, 0xa2448453, 0x9f4a1a7e, 0x0, H, 11, 0x4bdecfa9, 0xe8cfd670);
    Step(q, block, 38, 0x9f4a1a7e, 0xe8cfd670, 0xe14e403d, 0xa2448453, 0x0, H, 16, 0xf6bb4b60, 0x60cc183a);
    Step(q, block, 39, 0xa2448453, 0x60cc183a, 0xe8cfd670, 0xe14e403d, 0x0, H, 23, 0xbebfbc70, 0xfe314121);
    Step(q, block, 40, 0xe14e403d, 0xfe314121, 0x60cc183a, 0xe8cfd670, 0x0, H, 4, 0x289b7ec6, 0xfff62809);
    Step(q, block, 41, 0xe8cfd670, 0xfff62809, 0xfe314121, 0x60cc183a, 0x0, H, 11, 0xeaa127fa, 0xe37209ac);
    Step(q, block, 42, 0x60cc183a, 0xe37209ac, 0xfff62809, 0xfe314121, 0x0, H, 16, 0xd4ef3085, 0x8cb5221c);
    Step(q, block, 43, 0xfe314121, 0x8cb5221c, 0xe37209ac, 0xfff62809, 0x0, H, 23, 0x4881d05, 0x7c7e974c);
    Step(q, block, 44, 0xfff62809, 0x7c7e974c, 0x8cb5221c, 0xe37209ac, 0x0, H, 4, 0xd9d4d039, 0x54c9eb3a);
    Step(q, block, 45, 0xe37209ac, 0x54c9eb3a, 0x7c7e974c, 0x8cb5221c, 0x0, H, 11, 0xe6db99e5, 0xd4d9c6ac);
    Step(q, block, 46, 0x8cb5221c, 0xd4d9c6ac, 0x54c9eb3a, 0x7c7e974c, 0x0, H, 16, 0x1fa27cf8, 0x2ec86f72);
    Step(q, block, 47, 0x7c7e974c, 0x2ec86f72, 0xd4d9c6ac, 0x54c9eb3a, 0x0, H, 23, 0xc4ac5665, 0x79c0710a);
  }

  lemma SecondRound4(q: Quad, block: seq<byte>)
    requires SecondBlock(block) && Turns(q, block, 0, 48) == Quad(0x54c9eb3a, 0x79c0710a, 0x2ec86f72, 0xd4d9c6ac)
    ensures Turns(q, block, 0, 64) == Quad(0x14ae42c6, 0x16dd9203, 0x826afd76, 0xa52dae75)
  {
    hide WordAt, Turns, Mix, Sine;
    SinesOf4();
    Step(q, block, 48, 0x54c9eb3a, 0x79c0710a, 0x2ec86f72, 0xd4d9c6ac, 0x0, I, 6, 0xf4292244, 0x2095af1);
    Step(q, block, 49, 0xd4d9c6ac, 0x2095af1, 0x79c0710a, 0x2ec86f72, 0x0, I, 10, 0x432aff97, 0x13d245fd);
    Step(q, block, 50, 0x2ec86f72, 0x13d245fd, 0x2095af1, 0x79c0710a, 0x1f0, I, 15, 0xab9423a7, 0xa8dcfe26);
    Step(q, block, 51, 0x79c0710a, 0xa8dcfe26, 0x13d245fd, 0x2095af1, 0x0, I, 21, 0xfc93a039, 0x2ba98e3f);
    Step(q, block, 52, 0x2095af1, 0x2ba98e3f, 0xa8dcfe26, 0x13d245fd, 0x0, I, 6, 0x655b59c3, 0xe126c1aa);
    Step(q, block, 53, 0x13d245fd, 0xe126c1aa, 0x2ba98e3f, 0xa8dcfe26, 0x0, I, 10, 0x8f0ccc92, 0x96b00fa7);
    Step(q, block, 54, 0xa8dcfe26, 0x96b00fa7, 0xe126c1aa, 0x2ba98e3f, 0x0, I, 15, 0xffeff47d, 0x6f287ff5);
    Step(q, block, 55, 0x2ba98e3f, 0x6f287ff5, 0x96b00fa7, 0xe126c1aa, 0x0, I, 21, 0x85845dd1, 0xfb7bcee0);
    Step(q, block, 56, 0xe126c1aa, 0xfb7bcee0, 0x6f287ff5, 0x96b00fa7, 0x0, I, 6, 0x6fa87e4f, 0x452c1099);
    Step(q, block, 57, 0x96b00fa7, 0x452c1099, 0xfb7bcee0, 0x6f287ff5, 0x0, I, 10, 0xfe2ce6e0, 0xca801ba6);
    Step(q, block, 58, 0x6f287ff5, 0xca801ba6, 0x452c1099, 0xfb7bcee0, 0x0, I, 15, 0xa3014314, 0xc197ea8e);
    Step(q, block, 59, 0xfb7bcee0, 0xc197ea8e, 0xca801ba6, 0x452c1099, 0x0, I, 21, 0x4e0811a1, 0x5ac74608);
    Step(q, block, 60, 0x452c1099, 0x5ac74608, 0xc197ea8e, 0xca801ba6, 0x0, I, 6, 0xf7537e82, 0x14ae42c6);
    Step(q, block, 61, 0xca801ba6, 0x14ae42c6, 0x5ac74608, 0xc197ea8e, 0x0, I, 10, 0xbd3af235, 0xa52dae75);
    Step(q, block, 62, 0xc197ea8e, 0xa52dae75, 0x14ae42c6, 0x5ac74608, 0x0, I, 15, 0x2ad7d2bb, 0x826afd76);
    Step(q, block, 63, 0x5ac74608, 0x826afd76, 0xa52dae75, 0x14ae42c6, 0x0, I, 21, 0xeb86d391, 0x16dd9203);
  }

  lemma SecondTransform(block: seq<byte>)
    requires SecondBlock(block)
    ensures Transform(Quad(0x83fd320b, 0xdefbe5cf, 0xa9b1642f, 0xfa6f932a), block) == Quad(0x98ab74d1, 0xf5d977d2, 0x2c1c61a5, 0x9f9d419f)
  {
    hide WordAt, Turns;
    var q := Quad(0x83fd320b, 0xdefbe5cf, 0xa9b1642f, 0xfa6f932a);
    NoneYet(q, block, 0);
    SecondRound1(q, block);
    SecondRound2(q, block);
    SecondRound3(q, block);
    SecondRound4(q, block);
  }

  /** MD5 of the upper-case letters, the lower-case letters and the digits = d174ab98d277d9f5a5611c2c9f419d9f. */
  lemma LettersAndDigitsDigest()
    ensures Digest(LettersAndDigits()) == [0xd1, 0x74, 0xab, 0x98, 0xd2, 0x77, 0xd9, 0xf5, 0xa5, 0x61, 0x1c, 0x2c, 0x9f, 0x41, 0x9d, 0x9f]
  {
    hide Transform, Encode, FirstBlock, SecondBlock, Padded, LettersAndDigits;
    LettersAndDigitsPadded();
    var p := Padded(LettersAndDigits());
    OneBlock(p[..64]);
    FirstTransform(p[..64]);
    TwoBlocks(p);
    SecondTransform(p[64..]);
    LettersAndDigitsEncoded();
  }

  lemma LettersAndDigitsPadded()
    ensures var p := Padded(LettersAndDigits()); |p| == 128 && FirstBlock(p[..64]) && SecondBlock(p[64..])
  {
    var m, p := LettersAndDigits(), Padded(LettersAndDigits());
    assert LengthBytes(62) == [0xf0, 1, 0, 0, 0, 0, 0, 0];
    assert p == m + [0x80] + Repeat<byte>(0, 57) + [0xf0, 1, 0, 0, 0, 0, 0, 0];
    hide *;
    assert p[..62] == m && p[62] == 0x80 && p[63] == 0 && forall k | 64 <= k < 120 :: p[k] == 0;
    assert p[120..] == [0xf0, 1, 0, 0, 0, 0, 0, 0];
    FirstIs(p);
    SecondIs(p);
  }

  lemma FirstIs(p: seq<byte>)
    requires |p| == 128 && p[..62] == LettersAndDigits() && p[62] == 0x80 && p[63] == 0
    ensures FirstBlock(p[..64])
  {
    forall i | 0 <= i < 62 ensures p[..64][i] == LettersAndDigits()[i] { assert p[i] == p[..62][i]; }
  }

  lemma SecondIs(p: seq<byte>)
    requires |p| == 128 && (forall k | 64 <= k < 120 :: p[k] == 0) && p[120..] == [0xf0, 1, 0, 0, 0, 0, 0, 0]
    ensures SecondBlock(p[64..])
  {
    forall i | 0 <= i < 8 ensures p[120 + i] == p[120..][i] { }
  }

  lemma LettersAndDigitsEncoded()
    ensures Encode(Quad(0x98ab74d1, 0xf5d977d2, 0x2c1c61a5, 0x9f9d419f)) ==
      [0xd1, 0x74, 0xab, 0x98, 0xd2, 0x77, 0xd9, 0xf5, 0xa5, 0x61, 0x1c, 0x2c, 0x9f, 0x41, 0x9d, 0x9f]
  {
  }
}
