/** MD5 in pieces (md5.cpp:122-206) against RFC 1321 sections 3.1 to 3.5 on the whole message. */
module Md5 {
  import opened Bytes
  import opened Md5Transform

  const BLOCK: nat := 64

  const INIT := Quad(0x67452301, 0xefcdab89, 0x98badcfe, 0x10325476)

  // ---------------------------------------------------------------- RFC 1321, the whole message

  function LittleEndian(w: word): (b: seq<byte>)
    ensures |b| == 4
  {
    [(w % 0x100) as byte, (w / 0x100 % 0x100) as byte, (w / 0x1_0000 % 0x100) as byte, (w / 0x100_0000) as byte]
  }

  /** The bit length modulo 2^64, low word first. */
  function LengthBytes(n: nat): (b: seq<byte>)
    ensures |b| == 8
  {
    LittleEndian((8 * n % TWO_32) as word) + LittleEndian((8 * n / TWO_32 % TWO_32) as word)
  }

  /** Zero bytes behind the 0x80 that bring the length to 56 modulo 64. */
  function PadZeros(n: nat): nat {
    (119 - n % BLOCK) % BLOCK
  }

  lemma PadFills(n: nat)
    ensures (n + 1 + PadZeros(n) + 8) % BLOCK == 0
  {
    var q, r := n / BLOCK, n % BLOCK;
    var z := if r < 56 then 55 - r else 119 - r;
    assert PadZeros(n) == z;
    assert n + 1 + z + 8 == BLOCK * (q + if r < 56 then 1 else 2);
  }

  /** Sections 3.1 and 3.2: a one bit, zeros, the length. */
  function Padded(m: seq<byte>): (p: seq<byte>)
    ensures |p| % BLOCK == 0
  {
    PadFills(|m|);
    m + [0x80] + Repeat<byte>(0, PadZeros(|m|)) + LengthBytes(|m|)
  }

  /** Sections 3.3 and 3.4: the state after every whole block. */
  function Fold(m: seq<byte>): Quad
    decreases |m|
  {
    if |m| < BLOCK then INIT
    else Transform(Fold(m[..|m| - BLOCK]), m[|m| - BLOCK..])
  }

  function Encode(q: Quad): (d: seq<byte>)
    ensures |d| == 16
  {
    LittleEndian(q.a) + LittleEndian(q.b) + LittleEndian(q.c) + LittleEndian(q.d)
  }

  /** Section 3.5. */
  function Digest(m: seq<byte>): seq<byte> {
    Encode(Fold(Padded(m)))
  }

  lemma FoldAppend(m: seq<byte>, b: seq<byte>)
    requires |b| == BLOCK
    ensures Fold(m + b) == Transform(Fold(m), b)
  {
    hide Transform;
    assert (m + b)[..|m + b| - BLOCK] == m && (m + b)[|m + b| - BLOCK..] == b;
  }

  /** How much of a message is whole blocks. */
  function Whole(n: nat): nat { n - n % BLOCK }

  // ---------------------------------------------------------------- the bit counter

  /** count[1] and count[0] as one number. */
  function Joined(lo: word, hi: word): nat {
    lo as nat + TWO_32 * hi as nat
  }

  /** MD5Update's counter (md5.cpp:150-153): the shifted length, a carry when the low word comes out
      smaller, and the length's top three bits. */
  function Counted(lo: word, hi: word, len: word): (word, word) {
    var shifted := (8 * len as nat % TWO_32) as word;
    var lo' := ((lo as nat + shifted as nat) % TWO_32) as word;
    var carried := if lo' < shifted then (hi as nat + 1) % TWO_32 else hi as nat;
    (lo', ((carried + (len / 0x2000_0000) as nat) % TWO_32) as word)
  }

  /** The two words count bits modulo 2^64, carries and all. */
  lemma CounterCounts(lo: word, hi: word, len: word)
    ensures var (lo', hi') := Counted(lo, hi, len);
      Joined(lo', hi') == (Joined(lo, hi) + 8 * len as nat) % TWO_64
  {
    var n := len as nat;
    var top, shifted := n / 0x2000_0000, 8 * n % TWO_32;
    assert 8 * n == shifted + TWO_32 * top;
    var (lo', hi') := Counted(lo, hi, len);
    var carry := if lo as nat + shifted >= TWO_32 then 1 else 0;
    assert lo' as nat == lo as nat + shifted - TWO_32 * carry;
    assert hi' as nat == (hi as nat + carry + top) % TWO_32;
    var h := hi as nat + carry + top;
    Wraps(lo' as nat, h);
  }

  lemma Wraps(l: nat, h: nat)
    requires l < TWO_32
    ensures (l + TWO_32 * h) % TWO_64 == l + TWO_32 * (h % TWO_32)
  {
    var q, r := h / TWO_32, h % TWO_32;
    assert l + TWO_32 * h == TWO_64 * q + (l + TWO_32 * r);
    assert 0 <= l + TWO_32 * r < TWO_64;
  }

  /** The low word alone tells where the buffer stands. */
  lemma BufferIndex(lo: word, hi: word, n: nat)
    requires Joined(lo, hi) == 8 * n % TWO_64
    ensures (lo / 8 % 64) as nat == n % BLOCK
    ensures lo as nat == 8 * n % TWO_32 && hi as nat == 8 * n / TWO_32 % TWO_32
  {
    var x, q := Joined(lo, hi), 8 * n / TWO_64;
    var k := TWO_32 * q + hi as nat;
    assert 8 * n == TWO_64 * q + x;
    Divides(8 * n, k, lo as nat);
    Divides(k, q, hi as nat);
    LowBits(n, k, lo);
  }

  lemma LowBits(n: nat, k: nat, lo: word)
    requires 8 * n == TWO_32 * k + lo as nat
    ensures (lo / 8 % 64) as nat == n % BLOCK
  {
    var h := lo as nat / 8;
    assert n == h + 0x2000_0000 * k;
    InBlock(n, h / BLOCK + 0x80_0000 * k, h % BLOCK);
  }

  lemma InBlock(n: nat, q: nat, r: nat)
    requires n == BLOCK * q + r && r < BLOCK
    ensures n % BLOCK == r
  {
  }

  lemma Divides(a: nat, k: nat, r: nat)
    requires a == TWO_32 * k + r && r < TWO_32
    ensures a / TWO_32 == k && a % TWO_32 == r
  {
  }

  // ---------------------------------------------------------------- the streaming context

  class MD5Context {
    var state: Quad
    var count0: word
    var count1: word
    const buffer: array<byte>
    ghost var msg: seq<byte>

    /** What the fields stand for: every whole block folded, the rest buffered, all bits counted. */
    ghost predicate Valid()
      reads this, buffer
    {
      && buffer.Length == BLOCK
      && Joined(count0, count1) == 8 * |msg| % TWO_64
      && state == Fold(msg[..Whole(|msg|)])
      && buffer[..|msg| % BLOCK] == msg[Whole(|msg|)..]
    }

    /** MD5Init (md5.cpp:122-132). */
    constructor ()
      ensures Valid() && msg == [] && fresh(buffer)
    {
      buffer := new byte[BLOCK](_ => 0);
      count0, count1 := 0, 0;
      state := INIT;
      msg := [];
    }

    /** MD5Update (md5.cpp:138-176), for input that with what is buffered stays below 2^32 bytes;
        past that its loop does not end (EndlessLoop). */
    method MD5Update(input: seq<byte>)
      requires Valid() && |msg| % BLOCK + |input| < TWO_32
      modifies this, buffer
      ensures Valid() && msg == old(msg) + input
    {
      hide Fold, Joined, Counted, Whole;
      ghost var m, all := msg, msg + input;
      BufferIndex(count0, count1, |m|);
      CounterCounts(count0, count1, |input| as word);
      CountsOn(|m|, |input|);
      var index := (count0 / 8 % 64) as nat;
      count0, count1 := Count(count0, count1, |input| as word);
      var i;
      i, index := FoldBlocks(input, index);
      ghost var was := buffer[..];
      assert i == 0 ==> was[..index] == buffer[..index];
      CopyIn(index, input[i..]);
      msg := all;
      Rest(m, input, i, index, was, buffer[..]);
    }

    /** Transform as many times as possible (md5.cpp:155-170): i bytes of input folded, the buffer
        refilled from index. */
    method FoldBlocks(input: seq<byte>, from: nat) returns (i: nat, index: nat)
      requires buffer.Length == BLOCK && from == |msg| % BLOCK && from + |input| < TWO_32
      requires state == Fold(msg[..Whole(|msg|)]) && buffer[..from] == msg[Whole(|msg|)..]
      modifies this`state, buffer
      ensures i <= |input| && index + (|input| - i) < BLOCK
      ensures i == 0 ==> index == from && buffer[..] == old(buffer[..]) && state == old(state)
      ensures i != 0 ==> index == 0 && (|msg| + i) % BLOCK == 0 && state == Fold((msg + input)[..|msg| + i])
    {
      hide Fold, Transform;
      i, index := 0, from;
      var partLen := 64 - index;
      if |input| >= partLen {
        CopyIn(index, input[..partLen]);
        assert buffer[..BLOCK] == buffer[..];
        FoldFilled(msg, input, buffer[..]);
        state := MD5Transform(state, buffer[..]);
        i := partLen;
        NoWrap(from, i, |input|, |msg|);
        while (i + 63) % TWO_32 < |input|
          invariant partLen <= i <= |input| && (|msg| + i) % BLOCK == 0
          invariant (i + 63) % TWO_32 == i + 63
          invariant state == Fold((msg + input)[..|msg| + i])
        {
          FoldNext(msg, input, i);
          state := MD5Transform(state, input[i..i + BLOCK]);
          i := i + 64;
          NoWrap(from, i, |input|, |msg|);
        }
        index := 0;
      }
    }

    method CopyIn(index: nat, bytes: seq<byte>)
      requires index + |bytes| <= buffer.Length
      modifies buffer
      ensures buffer[..index + |bytes|] == old(buffer[..index]) + bytes
    {
      forall k | 0 <= k < |bytes| { buffer[index + k] := bytes[k]; }
    }

    /** MD5Final (md5.cpp:181-206): the digest of everything hashed, and a context wiped clean. */
    method MD5Final() returns (digest: seq<byte>)
      requires Valid()
      modifies this, buffer
      ensures digest == Digest(old(msg))
      ensures state == Quad(0, 0, 0, 0) && count0 == count1 == 0
      ensures buffer[..] == Repeat<byte>(0, buffer.Length)
    {
      hide Fold, Joined;
      ghost var m := msg;
      BufferIndex(count0, count1, |m|);
      var bits := LittleEndian(count0) + LittleEndian(count1);
      var index := (count0 / 8 % 64) as nat;
      var padLen := if index < 56 then 56 - index else 120 - index;
      MD5Update(([0x80] + Repeat<byte>(0, 63))[..padLen]);
      MD5Update(bits);
      PaddedInPieces(m, padLen, bits);
      digest := Encode(state);
      state, count0, count1 := Quad(0, 0, 0, 0), 0, 0;
      forall k | 0 <= k < buffer.Length { buffer[k] := 0; }
      msg := [];
    }
  }

  /** i + 63 stays in 32 bits while what is buffered and the input do. */
  lemma NoWrap(from: nat, i: nat, len: nat, n: nat)
    requires from == n % BLOCK && (n + i) % BLOCK == 0 && i <= len && from + len < TWO_32
    ensures (i + 63) % TWO_32 == i + 63
  {
    var q := n / BLOCK;
    assert n + i == BLOCK * q + (from + i);
    assert (from + i) % BLOCK == 0;
  }

  /** And only then: with a partly filled buffer and longer input, the loop's test i + 63 < inputLen
      holds at every turn, each i being 64 more than the last in 32 bits. */
  lemma EndlessLoop(index: nat, inputLen: nat, turn: nat)
    requires index < BLOCK && inputLen < TWO_32 && index + inputLen >= TWO_32
    ensures var i := (BLOCK - index + BLOCK * turn) % TWO_32; (i + 63) % TWO_32 < inputLen
  {
    var x := BLOCK - index + BLOCK * turn;
    var q, i := x / TWO_32, x % TWO_32;
    var j := 1 + turn - 0x400_0000 * q;
    assert i == BLOCK * j - index;
    assert j <= 0x400_0000;
  }

  /** The counter's statements, one by one. */
  method Count(c0: word, c1: word, inputLen: word) returns (lo: word, hi: word)
    ensures (lo, hi) == Counted(c0, c1, inputLen)
  {
    var shifted := (8 * inputLen as nat % TWO_32) as word;
    lo := ((c0 as nat + shifted as nat) % TWO_32) as word;
    hi := c1;
    if lo < shifted {
      hi := ((hi as nat + 1) % TWO_32) as word;
    }
    hi := ((hi as nat + (inputLen / 0x2000_0000) as nat) % TWO_32) as word;
  }

  lemma CountsOn(n: nat, k: nat)
    ensures (8 * n % TWO_64 + 8 * k) % TWO_64 == 8 * (n + k) % TWO_64
  {
    var q := 8 * n / TWO_64;
    assert 8 * n == TWO_64 * q + 8 * n % TWO_64;
    AddMultiple(8 * n % TWO_64 + 8 * k, q);
  }

  lemma AddMultiple(a: nat, q: nat)
    ensures (a + TWO_64 * q) % TWO_64 == a % TWO_64
  {
    var d, r := a / TWO_64, a % TWO_64;
    assert a + TWO_64 * q == TWO_64 * (d + q) + r;
  }

  /** The buffer, filled up from the input, is the next block of the message. */
  lemma FoldFilled(m: seq<byte>, input: seq<byte>, block: seq<byte>)
    requires BLOCK - |m| % BLOCK <= |input| && |block| == BLOCK
    requires block == m[Whole(|m|)..] + input[..BLOCK - |m| % BLOCK]
    ensures var part := BLOCK - |m| % BLOCK; var all := m + input;
      && (|m| + part) % BLOCK == 0
      && Fold(all[..|m| + part]) == Transform(Fold(m[..Whole(|m|)]), block)
  {
    hide Transform, Fold;
    var part, all := BLOCK - |m| % BLOCK, m + input;
    assert all[..|m| + part] == m[..Whole(|m|)] + block;
    FoldAppend(m[..Whole(|m|)], block);
  }

  lemma FoldNext(m: seq<byte>, input: seq<byte>, i: nat)
    requires i + BLOCK <= |input|
    ensures var all := m + input;
      Fold(all[..|m| + i + BLOCK]) == Transform(Fold(all[..|m| + i]), input[i..i + BLOCK])
  {
    hide Transform, Fold;
    var all := m + input;
    assert all[..|m| + i + BLOCK] == all[..|m| + i] + input[i..i + BLOCK];
    FoldAppend(all[..|m| + i], input[i..i + BLOCK]);
  }

  /** What is left of the input ends up in the buffer. */
  lemma Rest(m: seq<byte>, input: seq<byte>, i: nat, index: nat, was: seq<byte>, buf: seq<byte>)
    requires |was| == |buf| == BLOCK && i <= |input| && |input| - i < BLOCK - index
    requires i == 0 ==> was[..|m| % BLOCK] == m[Whole(|m|)..]
    requires if i == 0 then index == |m| % BLOCK else index == 0 && (|m| + i) % BLOCK == 0
    requires buf[..index + (|input| - i)] == (if i == 0 then was[..index] else []) + input[i..]
    ensures var all := m + input;
      && Whole(|all|) == (if i == 0 then Whole(|m|) else |m| + i)
      && buf[..|all| % BLOCK] == all[Whole(|all|)..]
      && (i == 0 ==> all[..Whole(|all|)] == m[..Whole(|m|)])
  {
    var all := m + input;
    RestCount(|m|, |input|, i, index);
    if i == 0 {
      assert all[Whole(|m|)..] == m[Whole(|m|)..] + input;
    } else {
      assert all[|m| + i..] == input[i..];
    }
  }

  lemma RestCount(n: nat, k: nat, i: nat, index: nat)
    requires i <= k && k - i < BLOCK - index
    requires if i == 0 then index == n % BLOCK else index == 0 && (n + i) % BLOCK == 0
    ensures (n + k) % BLOCK == index + (k - i)
    ensures Whole(n + k) == (if i == 0 then Whole(n) else n + i)
  {
  }

  /** The two closing updates append exactly the padding of the standard. */
  lemma PaddedInPieces(m: seq<byte>, padLen: nat, bits: seq<byte>)
    requires padLen == if |m| % BLOCK < 56 then 56 - |m| % BLOCK else 120 - |m| % BLOCK
    requires bits == LengthBytes(|m|)
    ensures var all := m + ([0x80] + Repeat<byte>(0, 63))[..padLen] + bits;
      all == Padded(m) && all[..Whole(|all|)] == Padded(m)
  {
    hide LengthBytes;
    assert ([0x80] + Repeat<byte>(0, 63))[..padLen] == [0x80] + Repeat<byte>(0, PadZeros(|m|));
    assert m + ([0x80] + Repeat<byte>(0, PadZeros(|m|))) == m + [0x80] + Repeat<byte>(0, PadZeros(|m|));
  }

  function Concat(chunks: seq<seq<byte>>): seq<byte> {
    if chunks == [] then [] else Concat(chunks[..|chunks| - 1]) + chunks[|chunks| - 1]
  }

  /** However a message is cut, the digest is that of the whole. */
  method HashChunks(chunks: seq<seq<byte>>) returns (digest: seq<byte>)
    requires forall k :: 0 <= k < |chunks| ==> |Concat(chunks[..k])| % BLOCK + |chunks[k]| < TWO_32
    ensures digest == Digest(Concat(chunks))
  {
    hide Digest;
    var c := new MD5Context();
    for k := 0 to |chunks|
      invariant c.Valid() && c.msg == Concat(chunks[..k]) && fresh(c) && fresh(c.buffer)
    {
      assert chunks[..k + 1][..k] == chunks[..k];
      c.MD5Update(chunks[k]);
    }
    assert chunks[..|chunks|] == chunks;
    digest := c.MD5Final();
  }
}
