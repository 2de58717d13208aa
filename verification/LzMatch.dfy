/** The packer's buffers: InitCache builds the position index in place, fbest searches it. */
module LzMatch {
  import opened Bytes
  import opened LzIndex

  const MIN_SEK: nat := 5
  const MIN_SEK2: nat := 3
  const FRAME_2: nat := 0x6000
  const FRAME4: nat := 0x100

  /** Input whose buckets fit Csh. */
  predicate Fits(l: nat) {
    l >= 1 && 4 * WORDS + 3 * (l - 1) <= CSH_SIZE
  }

  /** That is 1 to 436907 bytes: beyond, whatever the bytes, the buckets together are longer than Csh. */
  lemma FitsExactly(s: seq<byte>, l: nat)
    requires 1 <= l <= |s|
    ensures Fits(l) <==> l <= 436_907
    ensures Fits(l) <==> Off(s, l - 1, WORDS) <= CSH_SIZE
  {
    OffTotal(s, l - 1, WORDS);
  }

  /** A copy worth a token: b bytes from n back, costing no more than it saves. */
  predicate Worth(b: nat, n: nat) {
    b >= MIN_SEK || (b >= MIN_SEK2 && n < FRAME_2) || (b >= 2 && n < FRAME4)
  }

  /** Two bytes are worth a token from up to 255 back, which one byte holds; three or four from up to
      24575 back, which two bytes hold; five or more from anywhere. */
  lemma WorthByLength(b: nat, n: nat)
    requires b >= 2
    ensures Worth(b, n) <==> n <= (if b == 2 then 255 else if b <= 4 then 24_575 else n)
  {
  }

  /** The b bytes at pos are those n back. */
  predicate Repeats(s: seq<byte>, pos: nat, b: nat, n: nat) {
    && 0 < n <= pos && pos + b <= |s|
    && forall q :: pos <= q < pos + b ==> s[q] == s[q - n]
  }

  /** Bytes i to r - 1 behind k are those behind pos. */
  predicate Alike(s: seq<byte>, k: nat, pos: nat, i: nat, r: nat)
    requires k < pos && (i < r ==> pos + r <= |s|)
  {
    forall q :: pos + i <= q < pos + r ==> s[q] == s[q - (pos - k)]
  }

  /** How far the bytes at k and at pos agree, counting on from i. */
  function Agree(s: seq<byte>, k: nat, pos: nat, l: nat, i: nat): (r: nat)
    requires k < pos < l < |s|
    ensures i <= r && (r > i ==> pos + r <= l)
    ensures Alike(s, k, pos, i, r)
    ensures pos + r < l ==> s[k + r] != s[pos + r]
    decreases l - pos - i
  {
    if i < l - pos && s[k + i] == s[pos + i] then Agree(s, k, pos, l, i + 1) else i
  }

  /** The length of the match at k, whose first two bytes are those at pos. */
  function Len(s: seq<byte>, k: nat, pos: nat, l: nat): (r: nat)
    requires k < pos < l < |s|
    ensures r >= 2
  {
    Agree(s, k, pos, l, 2)
  }

  /** As much of it as one token takes. */
  function Sent(s: seq<byte>, k: nat, pos: nat, l: nat): (b: nat)
    requires k < pos < l < |s|
    ensures 2 <= b <= 256
  {
    if Len(s, k, pos, l) < 256 then Len(s, k, pos, l) else 256
  }

  /** The places fbest looks at: an entry of 0 ends a bucket, so a word that also starts the
      input is never matched. */
  predicate Candidate(s: seq<byte>, k: nat, pos: nat)
    requires pos + 1 < |s|
  {
    0 < k < pos && Word(s, k) == Word(s, pos) && Word(s, 0) != Word(s, pos)
  }

  /** Of two matches the later one is kept unless the earlier is longer, and by more than one byte
      if it is far away and the later one near. */
  predicate Keeps(s: seq<byte>, k: nat, r: nat, pos: nat, l: nat)
    requires k < pos < l < |s| && r < pos
  {
    if k <= r then
      Len(s, k, pos, l) <= Len(s, r, pos, l)
      || (Len(s, k, pos, l) == Len(s, r, pos, l) + 1 && pos - k > 0x8000 > pos - r)
    else
      Len(s, k, pos, l) < Len(s, r, pos, l)
      && (pos - r > 0x8000 > pos - k ==> Len(s, k, pos, l) + 1 < Len(s, r, pos, l))
  }

  /** The match fbest settles on: the first of 256 bytes or more, else the best of all. */
  ghost predicate Choice(s: seq<byte>, r: nat, pos: nat, l: nat)
    requires pos < l < |s|
  {
    && Candidate(s, r, pos)
    && if Len(s, r, pos, l) >= 256 then forall k: nat :: k < r && Candidate(s, k, pos) ==> Len(s, k, pos, l) < 256
       else forall k: nat :: Candidate(s, k, pos) ==> Len(s, k, pos, l) < 256 && Keeps(s, k, r, pos, l)
  }

  /** Of two matches, the one at k in front, exactly one is kept: the one at r, unless the other is
      longer by two bytes, or by one where it is not it alone that is more than 32768 back. */
  lemma KeepsByLength(s: seq<byte>, k: nat, r: nat, pos: nat, l: nat)
    requires k < r < pos < l < |s|
    ensures var a, c := Len(s, k, pos, l), Len(s, r, pos, l); var apart := pos - k > 32_768 > pos - r;
      && (Keeps(s, k, r, pos, l) <==> a <= c || (a == c + 1 && apart))
      && (Keeps(s, r, k, pos, l) <==> a > c + 1 || (a == c + 1 && !apart))
  {
    hide Len;
  }

  lemma ChoiceIsUnique(s: seq<byte>, r: nat, q: nat, pos: nat, l: nat)
    requires pos < l < |s| && Choice(s, r, pos, l) && Choice(s, q, pos, l)
    ensures r == q
  {
    hide Len, Word;
    assert Len(s, q, pos, l) >= 256 || Keeps(s, r, q, pos, l);
    assert Len(s, r, pos, l) >= 256 || Keeps(s, q, r, pos, l);
  }

  /** The first c entries of the bucket looked at, and the best of them. */
  ghost predicate Picked(s: seq<byte>, pos: nat, l: nat, p: seq<nat>, c: nat, bst: nat, r: nat)
    requires pos < l < |s|
  {
    && c <= |p| && (bst == 0 <==> c == 0)
    && (forall j :: 0 <= j < c ==> 0 < p[j] < pos && Len(s, p[j], pos, l) < 256)
    && (c > 0 ==> r < pos && bst == Len(s, r, pos, l) && r in p[..c])
    && (forall j :: 0 <= j < c ==> Keeps(s, p[j], r, pos, l))
  }

  class Cache {
    const csh: array<byte>
    const cash: array<nat>

    ghost predicate Shape() {
      csh.Length == CSH_SIZE && cash.Length == WORDS + 1
    }

    constructor ()
      ensures Shape() && fresh(csh) && fresh(cash)
    {
      csh := new byte[CSH_SIZE](_ => 0);
      cash := new nat[WORDS + 1](_ => 0);
    }

    /** InitCache (pkbig.cpp:88-112). */
    method InitCache(s: seq<byte>, l: nat)
      requires Shape() && Fits(l) && l < |s|
      modifies csh, cash
      ensures Indexed(s, l - 1, cash[..], csh[..])
    {
      hide Positions, Off, Holds;
      forall q | 0 <= q < csh.Length { csh[q] := 0; }
      CountWords(s, l - 1);
      PlaceBuckets(s, l - 1);
      var cind := new nat[WORDS](_ => 0);
      ghost var n := l - 1;
      FilledAtFirst(s, n, cash[..], csh[..]);
      for i := 0 to l - 1
        invariant Filled(s, n, cash[..], csh[..], i)
        invariant forall w :: 0 <= w < WORDS ==> cind[w] == |Positions(s, w, i)|
      {
        var j := Word(s, i);
        SlotFree(s, n, cash[..], csh[..], i);
        ghost var m := csh[..];
        SetM3(cash[j], cind[j], i);
        FillStep(s, n, cash[..], m, csh[..], i);
        CountStep(s, i);
        cind[j] := cind[j] + 1;
      }
    }

    /** How often each word occurs, one place up. */
    method CountWords(s: seq<byte>, n: nat)
      requires Shape() && n < |s|
      modifies cash
      ensures forall w :: 0 <= w < WORDS ==> cash[w + 1] == |Positions(s, w, n)|
    {
      hide Positions, Word;
      forall w | 0 <= w <= WORDS { cash[w] := 0; }
      forall w | 0 <= w < WORDS ensures |Positions(s, w, 0)| == 0 {
        CountNone(s, w);
      }
      for i := 0 to n
        invariant forall w :: 1 <= w <= WORDS ==> cash[w] == |Positions(s, w - 1, i)|
      {
        CountStep(s, i);
        var w := Word(s, i);
        cash[1 + w] := cash[1 + w] + 1;
      }
    }

    /** Counts become bucket starts. */
    method PlaceBuckets(s: seq<byte>, n: nat)
      requires Shape() && n < |s|
      requires forall w :: 0 <= w < WORDS ==> cash[w + 1] == |Positions(s, w, n)|
      modifies cash
      ensures forall w :: 0 <= w < WORDS ==> cash[w] == Off(s, n, w)
    {
      hide Positions, Off;
      OffFirst(s, n);
      cash[0] := 0;
      for i := 1 to WORDS
        invariant forall w :: 0 <= w < i ==> cash[w] == Off(s, n, w)
        invariant forall w :: i <= w <= WORDS ==> cash[w] == |Positions(s, w - 1, n)|
      {
        OffNext(s, n, i);
        cash[i] := cash[i - 1] + 4 + 3 * cash[i];
      }
    }

    /** SetM3: the original ORs four bytes, which here are zero, with a number of three. */
    method SetM3(a: nat, i: nat, v: nat)
      requires a + 3 * i + 3 <= csh.Length && v < 0x100_0000
      requires csh[a + 3 * i] == csh[a + 3 * i + 1] == csh[a + 3 * i + 2] == 0
      modifies csh
      ensures M3(csh[..], a + 3 * i) == v
      ensures forall q :: 0 <= q < csh.Length && !(a + 3 * i <= q < a + 3 * i + 3) ==> csh[q] == old(csh[q])
    {
      var o := a + 3 * i;
      csh[o], csh[o + 1], csh[o + 2] := (v % 0x100) as byte, (v / 0x100 % 0x100) as byte, (v / 0x1_0000) as byte;
      assert v / 0x100 / 0x100 == v / 0x1_0000;
    }

    /** fbest (pkbig.cpp:116-155): the length and distance of the match it settles on, if that is
        worth a token, else b = 0. Two bytes at the last position reach one byte past the input. */
    method Fbest(s: seq<byte>, pos: nat, l: nat) returns (b: nat, n: nat, ghost pick: Option<nat>)
      requires Shape() && Fits(l) && l < |s| && 0 < pos < l
      requires Indexed(s, l - 1, cash[..], csh[..])
      ensures b == 0 || Found(s, pos, l, b, n)
      ensures match pick
        case None => b == 0 && forall k: nat :: !Candidate(s, k, pos)
        case Some(r) =>
          && Choice(s, r, pos, l)
          && if Worth(Sent(s, r, pos, l), pos - r) then b == Sent(s, r, pos, l) && n == pos - r else b == 0
    {
      hide Word, Positions, Off, Filled, Repeats, Len, Candidate, Choice, Picked;
      var w := Word(s, pos);
      ghost var p := Positions(s, w, l - 1);
      Bucket(s, l - 1, cash[..], csh[..], w);
      var bst: nat, r: nat, rr, cc := 0, 0, 0, cash[w];
      ghost var c := 0;
      PickedAtFirst(s, pos, l, p);
      while true
        invariant c <= |p| && cc == cash[w] + 3 * c
        invariant Picked(s, pos, l, p, c, bst, r) && (bst == 0 || (r < pos && rr == pos - r))
        invariant bst != 0 ==> bst == Len(s, r, pos, l) && Repeats(s, pos, bst, pos - r)
        invariant bst == 0 || (2 <= bst && 0 < r && (bst > 2 ==> pos + bst <= l))
        decreases |p| - c
      {
        var k := ReadM3(cc);
        if !(k < pos && k != 0) {
          pick := if bst == 0 then None else Some(r);
          AllPicked(s, pos, l, csh[..], cash[w], p, c, bst, r);
          break;
        }
        Entry(s, l - 1, csh[..], cash[w], w, c);
        var i := MatchLength(s, k, pos, l);
        if i >= bst || (i + 1 == bst && pos - k < 0x8000 && rr > 0x8000) {
          ghost var oldR, oldB := r, bst;
          bst, r := i, k;
          rr := pos - r;
          if bst >= 256 {
            pick := Some(r);
            FirstLong(s, pos, l, p, c, oldB, oldR);
            break;
          }
          PickTaken(s, pos, l, p, c, oldB, oldR);
        } else {
          PickKept(s, pos, l, p, c, bst, r);
        }
        cc := cc + 3;
        c := c + 1;
      }
      if bst >= 256 {
        RepeatsLess(s, pos, bst, pos - r, 256);
        bst := 256;
      }
      b, n := 0, 0;
      if bst >= MIN_SEK || (bst >= MIN_SEK2 && pos - r < FRAME_2) || (bst >= 2 && pos - r < FRAME4) {
        b, n := bst, pos - r;
      }
    }

    method ReadM3(cc: nat) returns (k: nat)
      requires cc + 3 <= csh.Length
      ensures k == M3(csh[..], cc)
    {
      k := csh[cc] as nat + 0x100 * csh[cc + 1] as nat + 0x1_0000 * csh[cc + 2] as nat;
    }
  }

  /** What fbest promises when it finds something. */
  predicate Found(s: seq<byte>, pos: nat, l: nat, b: nat, n: nat) {
    2 <= b <= 256 && n < pos && Worth(b, n) && Repeats(s, pos, b, n) && (b > 2 ==> pos + b <= l)
  }

  /** The comparison loop: the first two bytes agree since both places start the same word. */
  method MatchLength(s: seq<byte>, k: nat, pos: nat, l: nat) returns (i: nat)
    requires k < pos < l < |s| && Word(s, k) == Word(s, pos)
    ensures i == Len(s, k, pos, l) && 2 <= i && (i > 2 ==> pos + i <= l) && Repeats(s, pos, i, pos - k)
  {
    hide Repeats, Word, Alike, Agree;
    FirstPair(s, k, pos);
    i := 2;
    AgreeTurn(s, k, pos, l, i);
    while i < l - pos && s[k + i] == s[pos + i]
      invariant 2 <= i && (i > 2 ==> pos + i <= l) && Len(s, k, pos, l) == Agree(s, k, pos, l, i)
      invariant Agree(s, k, pos, l, i) == if i < l - pos && s[k + i] == s[pos + i] then Agree(s, k, pos, l, i + 1) else i
      invariant Repeats(s, pos, i, pos - k)
    {
      RepeatsOn(s, pos, i, pos - k);
      i := i + 1;
      AgreeTurn(s, k, pos, l, i);
    }
  }

  lemma AgreeTurn(s: seq<byte>, k: nat, pos: nat, l: nat, i: nat)
    requires k < pos < l < |s|
    ensures Agree(s, k, pos, l, i) == if i < l - pos && s[k + i] == s[pos + i] then Agree(s, k, pos, l, i + 1) else i
  {
  }

  lemma FirstPair(s: seq<byte>, k: nat, pos: nat)
    requires k < pos && pos + 1 < |s| && Word(s, k) == Word(s, pos)
    ensures Repeats(s, pos, 2, pos - k)
  {
    SameWord(s, k, pos);
  }

  lemma RepeatsOn(s: seq<byte>, pos: nat, b: nat, n: nat)
    requires Repeats(s, pos, b, n) && pos + b < |s| && s[pos + b] == s[pos + b - n]
    ensures Repeats(s, pos, b + 1, n)
  {
  }

  lemma PickedAtFirst(s: seq<byte>, pos: nat, l: nat, p: seq<nat>)
    requires pos < l < |s|
    ensures Picked(s, pos, l, p, 0, 0, 0)
  {
  }

  /** The entry at c takes over from the best before it. */
  lemma PickTaken(s: seq<byte>, pos: nat, l: nat, p: seq<nat>, c: nat, bst: nat, r: nat)
    requires pos < l < |s| && Picked(s, pos, l, p, c, bst, r) && c < |p| && 0 < p[c] < pos
    requires forall j :: 0 <= j < c ==> p[j] < p[c]
    requires var i := Len(s, p[c], pos, l);
      i < 256 && (i >= bst || (i + 1 == bst && pos - p[c] < 0x8000 && pos - r > 0x8000))
    ensures Picked(s, pos, l, p, c + 1, Len(s, p[c], pos, l), p[c])
  {
    hide Len;
    assert p[..c + 1] == p[..c] + [p[c]];
    if c > 0 {
      var x :| 0 <= x < c && p[..c][x] == r;
      forall j | 0 <= j < c ensures Keeps(s, p[j], p[c], pos, l) {
        assert Keeps(s, p[j], r, pos, l);
      }
    }
  }

  /** The entry at c does not. */
  lemma PickKept(s: seq<byte>, pos: nat, l: nat, p: seq<nat>, c: nat, bst: nat, r: nat)
    requires pos < l < |s| && Picked(s, pos, l, p, c, bst, r) && c < |p| && 0 < p[c] < pos
    requires forall j :: 0 <= j < c ==> p[j] < p[c]
    requires var i := Len(s, p[c], pos, l);
      i < bst && !(i + 1 == bst && pos - p[c] < 0x8000 && pos - r > 0x8000)
    ensures Picked(s, pos, l, p, c + 1, bst, r)
  {
    hide Len;
    assert p[..c + 1] == p[..c] + [p[c]];
    var x :| 0 <= x < c && p[..c][x] == r;
    assert Keeps(s, r, r, pos, l);
  }

  lemma FirstLong(s: seq<byte>, pos: nat, l: nat, p: seq<nat>, c: nat, bst: nat, r: nat)
    requires pos < l < |s| && p == Positions(s, Word(s, pos), l - 1)
    requires Picked(s, pos, l, p, c, bst, r) && c < |p| && 0 < p[c] < pos && Len(s, p[c], pos, l) >= 256
    ensures Choice(s, p[c], pos, l)
  {
    hide Len, Keeps, Word, Positions;
    PositionsAre(s, Word(s, pos), l - 1);
    ZeroFirst(s, pos, l, p, c);
    forall k: nat | k < p[c] && Candidate(s, k, pos) ensures Len(s, k, pos, l) < 256 {
      var x :| 0 <= x < |p| && p[x] == k;
    }
  }

  /** An entry behind others is not 0, so 0 is no entry at all. */
  lemma ZeroFirst(s: seq<byte>, pos: nat, l: nat, p: seq<nat>, c: nat)
    requires pos < l < |s| && p == Positions(s, Word(s, pos), l - 1)
    requires c < |p| && (forall j :: 0 <= j <= c ==> p[j] > 0)
    ensures Candidate(s, p[c], pos) <==> p[c] < pos
  {
    hide Word, Positions;
    PositionsAre(s, Word(s, pos), l - 1);
    assert p[c] in p;
    assert 0 !in p by {
      assert forall j :: c < j < |p| ==> p[c] < p[j];
    }
  }

  /** The scan ends at 0 or at an entry not before pos: nothing is left to look at. */
  lemma AllPicked(s: seq<byte>, pos: nat, l: nat, m: seq<byte>, off: nat, p: seq<nat>, c: nat, bst: nat, r: nat)
    requires 0 < pos < l < |s| && p == Positions(s, Word(s, pos), l - 1) && Holds(m, off, p, |p|)
    requires Picked(s, pos, l, p, c, bst, r)
    requires M3(m, off + 3 * c) == 0 || M3(m, off + 3 * c) >= pos
    ensures bst == 0 ==> forall k: nat :: !Candidate(s, k, pos)
    ensures bst != 0 ==> bst == Len(s, r, pos, l) < 256 && Choice(s, r, pos, l)
  {
    hide Len, Keeps, Word, Positions, M3;
    PositionsAre(s, Word(s, pos), l - 1);
    assert c < |p| ==> p[c] == M3(m, off + 3 * c) && p[c] in p;
    forall k: nat | Candidate(s, k, pos) ensures k in p[..c] {
      var x :| 0 <= x < |p| && p[x] == k;
      assert x < c && p[..c][x] == k;
    }
    if bst != 0 {
      var x :| 0 <= x < c && p[..c][x] == r;
      ZeroFirst(s, pos, l, p, x);
    }
  }

  lemma SameWord(s: seq<byte>, k: nat, pos: nat)
    requires k + 1 < |s| && pos + 1 < |s| && Word(s, k) == Word(s, pos)
    ensures s[k] == s[pos] && s[k + 1] == s[pos + 1]
  {
  }

  lemma RepeatsLess(s: seq<byte>, pos: nat, b: nat, n: nat, b': nat)
    requires Repeats(s, pos, b, n) && b' <= b
    ensures Repeats(s, pos, b', n)
  {
  }

  lemma Bucket(s: seq<byte>, n: nat, offs: seq<nat>, m: seq<byte>, w: nat)
    requires n < |s| && Indexed(s, n, offs, m) && w < WORDS
    ensures |offs| >= WORDS && offs[w] == Off(s, n, w)
    ensures Holds(m, offs[w], Positions(s, w, n), |Positions(s, w, n)|)
  {
    hide Holds, Off;
  }

  /** An entry that is not zero is a position of the bucket's word; the one behind the last is zero. */
  lemma Entry(s: seq<byte>, n: nat, m: seq<byte>, off: nat, w: nat, c: nat)
    requires n < |s| && Holds(m, off, Positions(s, w, n), |Positions(s, w, n)|) && c <= |Positions(s, w, n)|
    requires M3(m, off + 3 * c) != 0
    ensures var p := Positions(s, w, n); var k := M3(m, off + 3 * c);
      && c < |p| && p[c] == k < n && Word(s, k) == w
      && forall j :: 0 <= j < c ==> p[j] < k
  {
    hide Word;
    var p := Positions(s, w, n);
    PositionsAre(s, w, n);
    if c < |p| { assert p[c] in p; }
  }

  lemma OffFirst(s: seq<byte>, n: nat)
    requires n < |s|
    ensures Off(s, n, 0) == 0
  {
  }

  lemma OffNext(s: seq<byte>, n: nat, w: nat)
    requires n < |s| && w > 0
    ensures Off(s, n, w) == Off(s, n, w - 1) + 4 + 3 * |Positions(s, w - 1, n)|
  {
  }

  lemma CountNone(s: seq<byte>, w: nat)
    ensures Positions(s, w, 0) == []
  {
  }

  lemma CountStep(s: seq<byte>, i: nat)
    requires i + 1 < |s|
    ensures forall w :: |Positions(s, w, i + 1)| == |Positions(s, w, i)| + if Word(s, i) == w then 1 else 0
  {
  }

  lemma FilledAtFirst(s: seq<byte>, n: nat, offs: seq<nat>, m: seq<byte>)
    requires n < |s| && |offs| >= WORDS && |m| == CSH_SIZE && 4 * WORDS + 3 * n <= CSH_SIZE
    requires forall w :: 0 <= w < WORDS ==> offs[w] == Off(s, n, w)
    requires forall q :: 0 <= q < |m| ==> m[q] == 0
    ensures Filled(s, n, offs, m, 0)
  {
    hide Off;
    OffTotal(s, n, WORDS);
    forall w | 0 <= w < WORDS
      ensures Holds(m, Off(s, n, w), Positions(s, w, 0), |Positions(s, w, n)|)
    {
      OffApart(s, n, w, WORDS);
      CountNone(s, w);
    }
  }

  /** The next free slot of a bucket is in bounds and still zero. */
  lemma SlotFree(s: seq<byte>, n: nat, offs: seq<nat>, m: seq<byte>, i: nat)
    requires i < n < |s| && Filled(s, n, offs, m, i)
    ensures var w := Word(s, i); var o := offs[w] + 3 * |Positions(s, w, i)|;
      o + 3 <= |m| && m[o] == 0 && m[o + 1] == 0 && m[o + 2] == 0
  {
    hide Word, Off;
    var w := Word(s, i);
    PositionsPrefix(s, w, i + 1, n);
    assert Holds(m, Off(s, n, w), Positions(s, w, i), |Positions(s, w, n)|);
  }
}
