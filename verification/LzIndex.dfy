/** The packer's position index (pkbig.cpp): for every two-byte word, where it starts. */
module LzIndex {
  import opened Bytes

  const WORDS: nat := 0x10000
  const CSH_SIZE: nat := 0x80000 * 3

  function Word(s: seq<byte>, i: nat): (w: nat)
    requires i + 1 < |s|
    ensures w < WORDS
  {
    s[i] as nat + 0x100 * s[i + 1] as nat
  }

  /** The positions below n where word w starts, in increasing order. */
  function Positions(s: seq<byte>, w: nat, n: nat): (p: seq<nat>)
    requires n < |s| || n == 0
    ensures |p| <= n
  {
    if n == 0 then []
    else if Word(s, n - 1) == w then Positions(s, w, n - 1) + [n - 1]
    else Positions(s, w, n - 1)
  }

  lemma {:induction false} PositionsAre(s: seq<byte>, w: nat, n: nat)
    requires n < |s| || n == 0
    ensures forall i :: i in Positions(s, w, n) <==> 0 <= i < n && Word(s, i) == w
    ensures forall a, b :: 0 <= a < b < |Positions(s, w, n)| ==> Positions(s, w, n)[a] < Positions(s, w, n)[b]
  {
    hide Word;
    if n > 0 {
      PositionsAre(s, w, n - 1);
      var p := Positions(s, w, n - 1);
      forall a | 0 <= a < |p| ensures p[a] < n - 1 {
        assert p[a] in p;
      }
    }
  }

  /** Positions below m <= n come first. */
  lemma {:induction false} PositionsPrefix(s: seq<byte>, w: nat, m: nat, n: nat)
    requires m <= n && (n < |s| || n == 0)
    ensures Positions(s, w, m) <= Positions(s, w, n)
    decreases n
  {
    hide Word;
    if m < n { PositionsPrefix(s, w, m, n - 1); }
  }

  /** Where the bucket of word w starts: each bucket before it takes three bytes a position and four
      zero bytes. */
  function Off(s: seq<byte>, n: nat, w: nat): nat
    requires n < |s| || n == 0
  {
    if w == 0 then 0 else Off(s, n, w - 1) + 4 + 3 * |Positions(s, w - 1, n)|
  }

  lemma {:induction false} OffTotal(s: seq<byte>, n: nat, w: nat)
    requires n < |s| || n == 0
    ensures Off(s, n, w) <= 4 * w + 3 * n
    ensures w >= WORDS ==> Off(s, n, w) == 4 * w + 3 * n
  {
    SumPositions(s, n, w);
    OffIsSum(s, n, w);
  }

  function SumBelow(s: seq<byte>, n: nat, w: nat): nat
    requires n < |s| || n == 0
  {
    if w == 0 then 0 else SumBelow(s, n, w - 1) + |Positions(s, w - 1, n)|
  }

  lemma {:induction false} OffIsSum(s: seq<byte>, n: nat, w: nat)
    requires n < |s| || n == 0
    ensures Off(s, n, w) == 4 * w + 3 * SumBelow(s, n, w)
  {
    if w > 0 { OffIsSum(s, n, w - 1); }
  }

  lemma {:induction false} SumPositions(s: seq<byte>, n: nat, w: nat)
    requires n < |s| || n == 0
    ensures SumBelow(s, n, w) <= n && (w >= WORDS ==> SumBelow(s, n, w) == n)
    decreases n
  {
    if n == 0 {
      SumOfNone(s, w);
    } else {
      SumPositions(s, n - 1, w);
      SumStep(s, n, w);
    }
  }

  lemma {:induction false} SumOfNone(s: seq<byte>, w: nat)
    ensures SumBelow(s, 0, w) == 0
  {
    if w > 0 { SumOfNone(s, w - 1); }
  }

  lemma {:induction false} SumStep(s: seq<byte>, n: nat, w: nat)
    requires 0 < n < |s|
    ensures SumBelow(s, n, w) == SumBelow(s, n - 1, w) + if Word(s, n - 1) < w then 1 else 0
    decreases w
  {
    hide Word;
    if w > 0 { SumStep(s, n, w - 1); }
  }

  /** Buckets follow one another without overlap. */
  lemma {:induction false} OffApart(s: seq<byte>, n: nat, v: nat, w: nat)
    requires (n < |s| || n == 0) && v < w
    ensures Off(s, n, v) + 3 * |Positions(s, v, n)| + 4 <= Off(s, n, w)
    decreases w
  {
    if v < w - 1 { OffApart(s, n, v, w - 1); }
  }

  // ---------------------------------------------------------------- buckets in memory

  /** M3: the three-byte number at o. */
  function M3(m: seq<byte>, o: nat): nat
    requires o + 3 <= |m|
  {
    m[o] as nat + 0x100 * m[o + 1] as nat + 0x1_0000 * m[o + 2] as nat
  }

  /** The bucket at off holds pos, has room for cap positions, and is zero from there on through
      the four bytes behind it. */
  ghost predicate Holds(m: seq<byte>, off: nat, pos: seq<nat>, cap: nat) {
    && |pos| <= cap && off + 3 * cap + 4 <= |m|
    && (forall c :: 0 <= c < |pos| ==> M3(m, off + 3 * c) == pos[c])
    && (forall q :: off + 3 * |pos| <= q < off + 3 * cap + 4 ==> m[q] == 0)
  }

  lemma HoldsElsewhere(m: seq<byte>, m': seq<byte>, o: nat, off: nat, pos: seq<nat>, cap: nat)
    requires Holds(m, off, pos, cap) && |m'| == |m|
    requires forall q :: 0 <= q < |m| && !(o <= q < o + 3) ==> m'[q] == m[q]
    requires o + 3 <= off || off + 3 * cap + 4 <= o
    ensures Holds(m', off, pos, cap)
  {
    forall c | 0 <= c < |pos| ensures M3(m', off + 3 * c) == pos[c] {
      assert M3(m, off + 3 * c) == pos[c];
    }
  }

  lemma HoldsMore(m: seq<byte>, m': seq<byte>, off: nat, pos: seq<nat>, cap: nat, v: nat)
    requires Holds(m, off, pos, cap) && |m'| == |m| && |pos| < cap
    requires forall q :: 0 <= q < |m| && !(off + 3 * |pos| <= q < off + 3 * |pos| + 3) ==> m'[q] == m[q]
    requires M3(m', off + 3 * |pos|) == v
    ensures Holds(m', off, pos + [v], cap)
  {
    var pos' := pos + [v];
    forall c | 0 <= c < |pos'| ensures M3(m', off + 3 * c) == pos'[c] {
      if c < |pos| { assert M3(m, off + 3 * c) == pos[c]; }
    }
  }

  /** Every bucket below n holds the positions below i; offs are the bucket starts. */
  ghost predicate Filled(s: seq<byte>, n: nat, offs: seq<nat>, m: seq<byte>, i: nat)
    requires n < |s| || n == 0
  {
    && i <= n && |offs| >= WORDS
    && (forall w :: 0 <= w < WORDS ==> offs[w] == Off(s, n, w))
    && (forall w {:trigger Positions(s, w, i)} :: 0 <= w < WORDS ==> Holds(m, Off(s, n, w), Positions(s, w, i), |Positions(s, w, n)|))
  }

  /** What InitCache leaves: the bucket of every word holds exactly the positions where it starts. */
  ghost predicate Indexed(s: seq<byte>, n: nat, offs: seq<nat>, m: seq<byte>)
    requires n < |s| || n == 0
  {
    Filled(s, n, offs, m, n)
  }

  lemma FillStep(s: seq<byte>, n: nat, offs: seq<nat>, m: seq<byte>, m': seq<byte>, i: nat)
    requires i < n < |s| && Filled(s, n, offs, m, i) && |m'| == |m|
    requires var o := Off(s, n, Word(s, i)) + 3 * |Positions(s, Word(s, i), i)|;
      && o + 3 <= |m|
      && (forall q :: 0 <= q < |m| && !(o <= q < o + 3) ==> m'[q] == m[q])
      && M3(m', o) == i
    ensures Filled(s, n, offs, m', i + 1)
  {
    hide Word, Holds, M3;
    var v := Word(s, i);
    forall w | 0 <= w < WORDS
      ensures Holds(m', Off(s, n, w), Positions(s, w, i + 1), |Positions(s, w, n)|)
    {
      FillOne(s, n, m, m', i, w);
    }
  }

  lemma FillOne(s: seq<byte>, n: nat, m: seq<byte>, m': seq<byte>, i: nat, w: nat)
    requires i < n < |s| && |m'| == |m|
    requires Holds(m, Off(s, n, w), Positions(s, w, i), |Positions(s, w, n)|)
    requires var o := Off(s, n, Word(s, i)) + 3 * |Positions(s, Word(s, i), i)|;
      && o + 3 <= |m|
      && (forall q :: 0 <= q < |m| && !(o <= q < o + 3) ==> m'[q] == m[q])
      && M3(m', o) == i
    ensures Holds(m', Off(s, n, w), Positions(s, w, i + 1), |Positions(s, w, n)|)
  {
    hide Word, Holds, M3;
    var v := Word(s, i);
    var o := Off(s, n, v) + 3 * |Positions(s, v, i)|;
    PositionsPrefix(s, v, i + 1, n);
    if w == v {
      HoldsMore(m, m', Off(s, n, w), Positions(s, w, i), |Positions(s, w, n)|, i);
    } else {
      if w < v { OffApart(s, n, w, v); } else { OffApart(s, n, v, w); }
      HoldsElsewhere(m, m', o, Off(s, n, w), Positions(s, w, i), |Positions(s, w, n)|);
      assert Positions(s, w, i + 1) == Positions(s, w, i);
    }
  }
}
