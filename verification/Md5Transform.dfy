/** MD5Transform (md5.cpp:208-300) against the table form of RFC 1321 section 3.4. */
module Md5Transform {
  import opened Bytes

  datatype Quad = Quad(a: word, b: word, c: word, d: word)

  datatype Kind = F | G | H | I

  function Combine(k: Kind, x: bv32, y: bv32, z: bv32): bv32 {
    match k
    case F => (x & y) | (!x & z)
    case G => (x & z) | (y & !z)
    case H => x ^ y ^ z
    case I => y ^ (x | !z)
  }

  /** The four macros FF, GG, HH and II: b + ((a + k(b, c, d) + x + ac) <<< s). */
  function Mix(k: Kind, a: word, b: word, c: word, d: word, x: word, s: nat, ac: word): word
    requires s < 32
  {
    MixBits(k, a as bv32, b as bv32, c as bv32, d as bv32, x as bv32, s, ac as bv32) as word
  }

  function MixBits(k: Kind, a: bv32, b: bv32, c: bv32, d: bv32, x: bv32, s: nat, ac: bv32): bv32
    requires s < 32
  {
    (a + Combine(k, b, c, d) + x + ac).RotateLeft(s) + b
  }

  /** Word i of a block, low byte first. */
  function WordAt(block: seq<byte>, i: nat): word
    requires 4 * i + 4 <= |block|
  {
    block[4 * i] as word + 0x100 * block[4 * i + 1] as word + 0x1_0000 * block[4 * i + 2] as word + 0x100_0000 * block[4 * i + 3] as word
  }

  // ---------------------------------------------------------------- RFC 1321 section 3.4

  function KindOf(i: nat): Kind {
    if i < 16 then F else if i < 32 then G else if i < 48 then H else I
  }

  /** Which word of the block step i uses. */
  function IndexOf(i: nat): nat {
    if i < 16 then i else if i < 32 then (5 * i + 1) % 16 else if i < 48 then (3 * i + 5) % 16 else 7 * i % 16
  }

  function ShiftOf(i: nat): (s: nat)
    ensures s < 32
  {
    var r := i % 4;
    if i < 16 then (if r == 0 then 7 else if r == 1 then 12 else if r == 2 then 17 else 22)
    else if i < 32 then (if r == 0 then 5 else if r == 1 then 9 else if r == 2 then 14 else 20)
    else if i < 48 then (if r == 0 then 4 else if r == 1 then 11 else if r == 2 then 16 else 23)
    else (if r == 0 then 6 else if r == 1 then 10 else if r == 2 then 15 else 21)
  }

  /** The integer part of 4294967296 times abs(sin(i + 1)). */
  function Sine(i: nat): word {
    if i < 16 then Sine1(i) else if i < 32 then Sine2(i - 16) else if i < 48 then Sine3(i - 32) else Sine4(i - 48)
  }

  function Sine1(r: nat): word {
    match r
    case 0 => 0xd76aa478
    case 1 => 0xe8c7b756
    case 2 => 0x242070db
    case 3 => 0xc1bdceee
    case 4 => 0xf57c0faf
    case 5 => 0x4787c62a
    case 6 => 0xa8304613
    case 7 => 0xfd469501
    case 8 => 0x698098d8
    case 9 => 0x8b44f7af
    case 10 => 0xffff5bb1
    case 11 => 0x895cd7be
    case 12 => 0x6b901122
    case 13 => 0xfd987193
    case 14 => 0xa679438e
    case _ => 0x49b40821
  }

  function Sine2(r: nat): word {
    match r
    case 0 => 0xf61e2562
    case 1 => 0xc040b340
    case 2 => 0x265e5a51
    case 3 => 0xe9b6c7aa
    case 4 => 0xd62f105d
    case 5 => 0x2441453
    case 6 => 0xd8a1e681
    case 7 => 0xe7d3fbc8
    case 8 => 0x21e1cde6
    case 9 => 0xc33707d6
    case 10 => 0xf4d50d87
    case 11 => 0x455a14ed
    case 12 => 0xa9e3e905
    case 13 => 0xfcefa3f8
    case 14 => 0x676f02d9
    case _ => 0x8d2a4c8a
  }

  function Sine3(r: nat): word {
    match r
    case 0 => 0xfffa3942
    case 1 => 0x8771f681
    case 2 => 0x6d9d6122
    case 3 => 0xfde5380c
    case 4 => 0xa4beea44
    case 5 => 0x4bdecfa9
    case 6 => 0xf6bb4b60
    case 7 => 0xbebfbc70
    case 8 => 0x289b7ec6
    case 9 => 0xeaa127fa
    case 10 => 0xd4ef3085
    case 11 => 0x4881d05
    case 12 => 0xd9d4d039
    case 13 => 0xe6db99e5
    case 14 => 0x1fa27cf8
    case _ => 0xc4ac5665
  }

  function Sine4(r: nat): word {
    match r
    case 0 => 0xf4292244
    case 1 => 0x432aff97
    case 2 => 0xab9423a7
    case 3 => 0xfc93a039
    case 4 => 0x655b59c3
    case 5 => 0x8f0ccc92
    case 6 => 0xffeff47d
    case 7 => 0x85845dd1
    case 8 => 0x6fa87e4f
    case 9 => 0xfe2ce6e0
    case 10 => 0xa3014314
    case 11 => 0x4e0811a1
    case 12 => 0xf7537e82
    case 13 => 0xbd3af235
    case 14 => 0x2ad7d2bb
    case _ => 0xeb86d391
  }

  /** One step: the four registers turn by one place, the first of them mixed. */
  function Turn(q: Quad, block: seq<byte>, i: nat): Quad
    requires |block| == 64 && i < 64
  {
    Quad(q.d, Mix(KindOf(i), q.a, q.b, q.c, q.d, WordAt(block, IndexOf(i)), ShiftOf(i), Sine(i)), q.b, q.c)
  }

  /** Steps from to n - 1. */
  function Turns(q: Quad, block: seq<byte>, from: nat, n: nat): Quad
    requires |block| == 64 && n <= 64
  {
    if n <= from then q else Turn(Turns(q, block, from, n - 1), block, n - 1)
  }

  function Plus(x: word, y: word): word {
    ((x as int + y as int) % 0x1_0000_0000) as word
  }

  /** The block's 64 steps, added to the state they started from. */
  function Transform(q: Quad, block: seq<byte>): Quad
    requires |block| == 64
  {
    var r := Turns(q, block, 0, 64);
    Quad(Plus(q.a, r.a), Plus(q.b, r.b), Plus(q.c, r.c), Plus(q.d, r.d))
  }

  // ---------------------------------------------------------------- the original's four rounds

  lemma OneMore(q: Quad, block: seq<byte>, from: nat, n: nat)
    requires |block| == 64 && from <= n < 64
    ensures Turns(q, block, from, n + 1) == Turn(Turns(q, block, from, n), block, n)
  {
  }

  lemma NoneYet(q: Quad, block: seq<byte>, from: nat)
    requires |block| == 64 && from <= 64
    ensures Turns(q, block, from, from) == q
  {
  }

  lemma {:induction false} TurnsJoin(q: Quad, block: seq<byte>, from: nat, mid: nat, n: nat)
    requires |block| == 64 && from <= mid <= n <= 64
    ensures Turns(Turns(q, block, from, mid), block, mid, n) == Turns(q, block, from, n)
    decreases n
  {
    hide Turn;
    if mid < n { TurnsJoin(q, block, from, mid, n - 1); }
  }

  method Round1(q: Quad, block: seq<byte>) returns (r: Quad)
    requires |block| == 64
    ensures r == Turns(q, block, 0, 16)
  {
    hide Mix, WordAt, Turns;
    NoneYet(q, block, 0);
    var a, b, c, d := q.a, q.b, q.c, q.d;
    a := Mix(F, a, b, c, d, WordAt(block, 0), 7, 0xd76aa478);
    OneMore(q, block, 0, 0);
    assert Turns(q, block, 0, 1) == Quad(d, a, b, c);
    d := Mix(F, d, a, b, c, WordAt(block, 1), 12, 0xe8c7b756);
    OneMore(q, block, 0, 1);
    assert Turns(q, block, 0, 2) == Quad(c, d, a, b);
    c := Mix(F, c, d, a, b, WordAt(block, 2), 17, 0x242070db);
    OneMore(q, block, 0, 2);
    assert Turns(q, block, 0, 3) == Quad(b, c, d, a);
    b := Mix(F, b, c, d, a, WordAt(block, 3), 22, 0xc1bdceee);
    OneMore(q, block, 0, 3);
    assert Turns(q, block, 0, 4) == Quad(a, b, c, d);
    a := Mix(F, a, b, c, d, WordAt(block, 4), 7, 0xf57c0faf);
    OneMore(q, block, 0, 4);
    assert Turns(q, block, 0, 5) == Quad(d, a, b, c);
    d := Mix(F, d, a, b, c, WordAt(block, 5), 12, 0x4787c62a);
    OneMore(q, block, 0, 5);
    assert Turns(q, block, 0, 6) == Quad(c, d, a, b);
    c := Mix(F, c, d, a, b, WordAt(block, 6), 17, 0xa8304613);
    OneMore(q, block, 0, 6);
    assert Turns(q, block, 0, 7) == Quad(b, c, d, a);
    b := Mix(F, b, c, d, a, WordAt(block, 7), 22, 0xfd469501);
    OneMore(q, block, 0, 7);
    assert Turns(q, block, 0, 8) == Quad(a, b, c, d);
    a := Mix(F, a, b, c, d, WordAt(block, 8), 7, 0x698098d8);
    OneMore(q, block, 0, 8);
    assert Turns(q, block, 0, 9) == Quad(d, a, b, c);
    d := Mix(F, d, a, b, c, WordAt(block, 9), 12, 0x8b44f7af);
    OneMore(q, block, 0, 9);
    assert Turns(q, block, 0, 10) == Quad(c, d, a, b);
    c := Mix(F, c, d, a, b, WordAt(block, 10), 17, 0xffff5bb1);
    OneMore(q, block, 0, 10);
    assert Turns(q, block, 0, 11) == Quad(b, c, d, a);
    b := Mix(F, b, c, d, a, WordAt(block, 11), 22, 0x895cd7be);
    OneMore(q, block, 0, 11);
    assert Turns(q, block, 0, 12) == Quad(a, b, c, d);
    a := Mix(F, a, b, c, d, WordAt(block, 12), 7, 0x6b901122);
    OneMore(q, block, 0, 12);
    assert Turns(q, block, 0, 13) == Quad(d, a, b, c);
    d := Mix(F, d, a, b, c, WordAt(block, 13), 12, 0xfd987193);
    OneMore(q, block, 0, 13);
    assert Turns(q, block, 0, 14) == Quad(c, d, a, b);
    c := Mix(F, c, d, a, b, WordAt(block, 14), 17, 0xa679438e);
    OneMore(q, block, 0, 14);
    assert Turns(q, block, 0, 15) == Quad(b, c, d, a);
    b := Mix(F, b, c, d, a, WordAt(block, 15), 22, 0x49b40821);
    OneMore(q, block, 0, 15);
    assert Turns(q, block, 0, 16) == Quad(a, b, c, d);
    r := Quad(a, b, c, d);
  }

  method Round2(q: Quad, block: seq<byte>) returns (r: Quad)
    requires |block| == 64
    ensures r == Turns(q, block, 16, 32)
  {
    hide Mix, WordAt, Turns;
    NoneYet(q, block, 16);
    var a, b, c, d := q.a, q.b, q.c, q.d;
    a := Mix(G, a, b, c, d, WordAt(block, 1), 5, 0xf61e2562);
    OneMore(q, block, 16, 16);
    assert Turns(q, block, 16, 17) == Quad(d, a, b, c);
    d := Mix(G, d, a, b, c, WordAt(block, 6), 9, 0xc040b340);
    OneMore(q, block, 16, 17);
    assert Turns(q, block, 16, 18) == Quad(c, d, a, b);
    c := Mix(G, c, d, a, b, WordAt(block, 11), 14, 0x265e5a51);
    OneMore(q, block, 16, 18);
    assert Turns(q, block, 16, 19) == Quad(b, c, d, a);
    b := Mix(G, b, c, d, a, WordAt(block, 0), 20, 0xe9b6c7aa);
    OneMore(q, block, 16, 19);
    assert Turns(q, block, 16, 20) == Quad(a, b, c, d);
    a := Mix(G, a, b, c, d, WordAt(block, 5), 5, 0xd62f105d);
    OneMore(q, block, 16, 20);
    assert Turns(q, block, 16, 21) == Quad(d, a, b, c);
    d := Mix(G, d, a, b, c, WordAt(block, 10), 9, 0x2441453);
    OneMore(q, block, 16, 21);
    assert Turns(q, block, 16, 22) == Quad(c, d, a, b);
    c := Mix(G, c, d, a, b, WordAt(block, 15), 14, 0xd8a1e681);
    OneMore(q, block, 16, 22);
    assert Turns(q, block, 16, 23) == Quad(b, c, d, a);
    b := Mix(G, b, c, d, a, WordAt(block, 4), 20, 0xe7d3fbc8);
    OneMore(q, block, 16, 23);
    assert Turns(q, block, 16, 24) == Quad(a, b, c, d);
    a := Mix(G, a, b, c, d, WordAt(block, 9), 5, 0x21e1cde6);
    OneMore(q, block, 16, 24);
    assert Turns(q, block, 16, 25) == Quad(d, a, b, c);
    d := Mix(G, d, a, b, c, WordAt(block, 14), 9, 0xc33707d6);
    OneMore(q, block, 16, 25);
    assert Turns(q, block, 16, 26) == Quad(c, d, a, b);
    c := Mix(G, c, d, a, b, WordAt(block, 3), 14, 0xf4d50d87);
    OneMore(q, block, 16, 26);
    assert Turns(q, block, 16, 27) == Quad(b, c, d, a);
    b := Mix(G, b, c, d, a, WordAt(block, 8), 20, 0x455a14ed);
    OneMore(q, block, 16, 27);
    assert Turns(q, block, 16, 28) == Quad(a, b, c, d);
    a := Mix(G, a, b, c, d, WordAt(block, 13), 5, 0xa9e3e905);
    OneMore(q, block, 16, 28);
    assert Turns(q, block, 16, 29) == Quad(d, a, b, c);
    d := Mix(G, d, a, b, c, WordAt(block, 2), 9, 0xfcefa3f8);
    OneMore(q, block, 16, 29);
    assert Turns(q, block, 16, 30) == Quad(c, d, a, b);
    c := Mix(G, c, d, a, b, WordAt(block, 7), 14, 0x676f02d9);
    OneMore(q, block, 16, 30);
    assert Turns(q, block, 16, 31) == Quad(b, c, d, a);
    b := Mix(G, b, c, d, a, WordAt(block, 12), 20, 0x8d2a4c8a);
    OneMore(q, block, 16, 31);
    assert Turns(q, block, 16, 32) == Quad(a, b, c, d);
    r := Quad(a, b, c, d);
  }

  method Round3(q: Quad, block: seq<byte>) returns (r: Quad)
    requires |block| == 64
    ensures r == Turns(q, block, 32, 48)
  {
    hide Mix, WordAt, Turns;
    NoneYet(q, block, 32);
    var a, b, c, d := q.a, q.b, q.c, q.d;
    a := Mix(H, a, b, c, d, WordAt(block, 5), 4, 0xfffa3942);
    OneMore(q, block, 32, 32);
    assert Turns(q, block, 32, 33) == Quad(d, a, b, c);
    d := Mix(H, d, a, b, c, WordAt(block, 8), 11, 0x8771f681);
    OneMore(q, block, 32, 33);
    assert Turns(q, block, 32, 34) == Quad(c, d, a, b);
    c := Mix(H, c, d, a, b, WordAt(block, 11), 16, 0x6d9d6122);
    OneMore(q, block, 32, 34);
    assert Turns(q, block, 32, 35) == Quad(b, c, d, a);
    b := Mix(H, b, c, d, a, WordAt(block, 14), 23, 0xfde5380c);
    OneMore(q, block, 32, 35);
    assert Turns(q, block, 32, 36) == Quad(a, b, c, d);
    a := Mix(H, a, b, c, d, WordAt(block, 1), 4, 0xa4beea44);
    OneMore(q, block, 32, 36);
    assert Turns(q, block, 32, 37) == Quad(d, a, b, c);
    d := Mix(H, d, a, b, c, WordAt(block, 4), 11, 0x4bdecfa9);
    OneMore(q, block, 32, 37);
    assert Turns(q, block, 32, 38) == Quad(c, d, a, b);
    c := Mix(H, c, d, a, b, WordAt(block, 7), 16, 0xf6bb4b60);
    OneMore(q, block, 32, 38);
    assert Turns(q, block, 32, 39) == Quad(b, c, d, a);
    b := Mix(H, b, c, d, a, WordAt(block, 10), 23, 0xbebfbc70);
    OneMore(q, block, 32, 39);
    assert Turns(q, block, 32, 40) == Quad(a, b, c, d);
    a := Mix(H, a, b, c, d, WordAt(block, 13), 4, 0x289b7ec6);
    OneMore(q, block, 32, 40);
    assert Turns(q, block, 32, 41) == Quad(d, a, b, c);
    d := Mix(H, d, a, b, c, WordAt(block, 0), 11, 0xeaa127fa);
    OneMore(q, block, 32, 41);
    assert Turns(q, block, 32, 42) == Quad(c, d, a, b);
    c := Mix(H, c, d, a, b, WordAt(block, 3), 16, 0xd4ef3085);
    OneMore(q, block, 32, 42);
    assert Turns(q, block, 32, 43) == Quad(b, c, d, a);
    b := Mix(H, b, c, d, a, WordAt(block, 6), 23, 0x4881d05);
    OneMore(q, block, 32, 43);
    assert Turns(q, block, 32, 44) == Quad(a, b, c, d);
    a := Mix(H, a, b, c, d, WordAt(block, 9), 4, 0xd9d4d039);
    OneMore(q, block, 32, 44);
    assert Turns(q, block, 32, 45) == Quad(d, a, b, c);
    d := Mix(H, d, a, b, c, WordAt(block, 12), 11, 0xe6db99e5);
    OneMore(q, block, 32, 45);
    assert Turns(q, block, 32, 46) == Quad(c, d, a, b);
    c := Mix(H, c, d, a, b, WordAt(block, 15), 16, 0x1fa27cf8);
    OneMore(q, block, 32, 46);
    assert Turns(q, block, 32, 47) == Quad(b, c, d, a);
    b := Mix(H, b, c, d, a, WordAt(block, 2), 23, 0xc4ac5665);
    OneMore(q, block, 32, 47);
    assert Turns(q, block, 32, 48) == Quad(a, b, c, d);
    r := Quad(a, b, c, d);
  }

  method Round4(q: Quad, block: seq<byte>) returns (r: Quad)
    requires |block| == 64
    ensures r == Turns(q, block, 48, 64)
  {
    hide Mix, WordAt, Turns;
    NoneYet(q, block, 48);
    var a, b, c, d := q.a, q.b, q.c, q.d;
    a := Mix(I, a, b, c, d, WordAt(block, 0), 6, 0xf4292244);
    OneMore(q, block, 48, 48);
    assert Turns(q, block, 48, 49) == Quad(d, a, b, c);
    d := Mix(I, d, a, b, c, WordAt(block, 7), 10, 0x432aff97);
    OneMore(q, block, 48, 49);
    assert Turns(q, block, 48, 50) == Quad(c, d, a, b);
    c := Mix(I, c, d, a, b, WordAt(block, 14), 15, 0xab9423a7);
    OneMore(q, block, 48, 50);
    assert Turns(q, block, 48, 51) == Quad(b, c, d, a);
    b := Mix(I, b, c, d, a, WordAt(block, 5), 21, 0xfc93a039);
    OneMore(q, block, 48, 51);
    assert Turns(q, block, 48, 52) == Quad(a, b, c, d);
    a := Mix(I, a, b, c, d, WordAt(block, 12), 6, 0x655b59c3);
    OneMore(q, block, 48, 52);
    assert Turns(q, block, 48, 53) == Quad(d, a, b, c);
    d := Mix(I, d, a, b, c, WordAt(block, 3), 10, 0x8f0ccc92);
    OneMore(q, block, 48, 53);
    assert Turns(q, block, 48, 54) == Quad(c, d, a, b);
    c := Mix(I, c, d, a, b, WordAt(block, 10), 15, 0xffeff47d);
    OneMore(q, block, 48, 54);
    assert Turns(q, block, 48, 55) == Quad(b, c, d, a);
    b := Mix(I, b, c, d, a, WordAt(block, 1), 21, 0x85845dd1);
    OneMore(q, block, 48, 55);
    assert Turns(q, block, 48, 56) == Quad(a, b, c, d);
    a := Mix(I, a, b, c, d, WordAt(block, 8), 6, 0x6fa87e4f);
    OneMore(q, block, 48, 56);
    assert Turns(q, block, 48, 57) == Quad(d, a, b, c);
    d := Mix(I, d, a, b, c, WordAt(block, 15), 10, 0xfe2ce6e0);
    OneMore(q, block, 48, 57);
    assert Turns(q, block, 48, 58) == Quad(c, d, a, b);
    c := Mix(I, c, d, a, b, WordAt(block, 6), 15, 0xa3014314);
    OneMore(q, block, 48, 58);
    assert Turns(q, block, 48, 59) == Quad(b, c, d, a);
    b := Mix(I, b, c, d, a, WordAt(block, 13), 21, 0x4e0811a1);
    OneMore(q, block, 48, 59);
    assert Turns(q, block, 48, 60) == Quad(a, b, c, d);
    a := Mix(I, a, b, c, d, WordAt(block, 4), 6, 0xf7537e82);
    OneMore(q, block, 48, 60);
    assert Turns(q, block, 48, 61) == Quad(d, a, b, c);
    d := Mix(I, d, a, b, c, WordAt(block, 11), 10, 0xbd3af235);
    OneMore(q, block, 48, 61);
    assert Turns(q, block, 48, 62) == Quad(c, d, a, b);
    c := Mix(I, c, d, a, b, WordAt(block, 2), 15, 0x2ad7d2bb);
    OneMore(q, block, 48, 62);
    assert Turns(q, block, 48, 63) == Quad(b, c, d, a);
    b := Mix(I, b, c, d, a, WordAt(block, 9), 21, 0xeb86d391);
    OneMore(q, block, 48, 63);
    assert Turns(q, block, 48, 64) == Quad(a, b, c, d);
    r := Quad(a, b, c, d);
  }

  method MD5Transform(q: Quad, block: seq<byte>) returns (r: Quad)
    requires |block| == 64
    ensures r == Transform(q, block)
  {
    hide Turns, Plus;
    var s := Round1(q, block);
    s := Round2(s, block);
    TurnsJoin(q, block, 0, 16, 32);
    s := Round3(s, block);
    TurnsJoin(q, block, 0, 32, 48);
    s := Round4(s, block);
    TurnsJoin(q, block, 0, 48, 64);
    r := Quad(Plus(q.a, s.a), Plus(q.b, s.b), Plus(q.c, s.c), Plus(q.d, s.d));
  }
}
