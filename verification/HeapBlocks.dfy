/** The DNS heap's word array as values: blocks behind headers, runs of free blocks, live payloads. */
module HeapBlocks {

  import opened Bytes

  const MEM_USED: word := 0x8000_0000

  /** d & ~MEM_USED. */
  function Size(w: word): nat {
    (w % MEM_USED) as nat
  }

  predicate Used(w: word) {
    w >= MEM_USED
  }

  /** The block at a is not empty and ends where another begins. */
  ghost predicate Steps(s: seq<word>, starts: set<nat>, a: nat)
    requires a < |s|
  {
    Size(s[a]) >= 1 && a + Size(s[a]) in starts
  }

  /** The block at a ends at or before b. */
  ghost predicate Clear(s: seq<word>, a: nat, b: nat)
    requires a < |s|
  {
    a + Size(s[a]) <= b
  }

  ghost predicate Ends(s: seq<word>, starts: set<nat>) {
    && 2 <= |s| <= 0x8000_0000
    && 0 in starts && |s| - 1 in starts && Used(s[|s| - 1])
    && (forall i :: i in starts ==> i < |s|)
  }

  /** starts are the header positions, the used sentinel at the last word among them. Blocks tile
      the array, and no live block is the single word before the sentinel. */
  ghost predicate Tiled(s: seq<word>, starts: set<nat>) {
    && Ends(s, starts)
    && (forall i {:trigger Steps(s, starts, i)} :: i in starts && i < |s| - 1 ==> Steps(s, starts, i))
    && (forall i, j {:trigger Clear(s, i, j)} :: i in starts && j in starts && i < j ==> Clear(s, i, j))
    && (|s| - 2 in starts ==> !Used(s[|s| - 2]))
  }

  /** The scan stops before a single word at the end; no free block, but possibly the one at but,
      leaves a free one unmerged behind it. */
  ghost predicate NoTail(s: seq<word>, starts: set<nat>, but: nat) {
    Free(s, starts, |s| - 2) ==>
      forall k {:trigger Size(s[k])} :: k in starts && k + 2 < |s| && k != but && k + Size(s[k]) + 2 == |s| ==> Used(s[k])
  }

  predicate Free(s: seq<word>, starts: set<nat>, i: int) {
    0 <= i < |s| && i in starts && !Used(s[i])
  }

  ghost predicate LiveAt(s: seq<word>, starts: set<nat>, i: int) {
    0 <= i < |s| - 1 && i in starts && Used(s[i])
  }

  /** The words behind the header of a block. */
  ghost function Payload(s: seq<word>, starts: set<nat>, p: nat): (b: seq<word>)
    requires Tiled(s, starts) && 0 < p && LiveAt(s, starts, p - 1)
    ensures |b| == Size(s[p - 1]) - 1
  {
    assert Steps(s, starts, p - 1);
    s[p..p - 1 + Size(s[p - 1])]
  }

  /** The heap as its users see it: each pointer handed out and what its words hold. */
  ghost function Live(s: seq<word>, starts: set<nat>): map<nat, seq<word>>
    requires Tiled(s, starts)
  {
    map p: nat | 0 < p < |s| && LiveAt(s, starts, p - 1) :: Payload(s, starts, p)
  }

  // ---------------------------------------------------------------- runs of free blocks

  /** Where the free blocks from j on end. */
  function RunEnd(s: seq<word>, j: nat): (e: nat)
    ensures j <= e
    decreases |s| - j
  {
    if j >= |s| || Used(s[j]) || Size(s[j]) == 0 then j else RunEnd(s, j + Size(s[j]))
  }

  function Run(s: seq<word>, i: nat): nat {
    RunEnd(s, i) - i
  }

  lemma {:induction false} RunEndIsUsed(s: seq<word>, starts: set<nat>, j: nat)
    requires Tiled(s, starts) && j in starts
    ensures RunEnd(s, j) in starts && Used(s[RunEnd(s, j)])
    decreases |s| - j
  {
    assert Steps(s, starts, j) || j == |s| - 1;
    if !Used(s[j]) {
      RunEndIsUsed(s, starts, j + Size(s[j]));
    }
  }

  /** A block inside a run ends where the run ends. */
  lemma {:induction false} RunInside(s: seq<word>, starts: set<nat>, i: nat, k: nat)
    requires Tiled(s, starts) && i in starts && k in starts && i <= k < RunEnd(s, i)
    ensures RunEnd(s, k) == RunEnd(s, i) && !Used(s[k])
    decreases |s| - i
  {
    assert Steps(s, starts, i) || i == |s| - 1;
    if i < k {
      assert Clear(s, i, k);
      RunInside(s, starts, i + Size(s[i]), k);
    }
  }

  lemma {:induction false} RunEndLocal(s: seq<word>, s': seq<word>, j: nat)
    requires |s| == |s'| && j <= |s| && s[j..] == s'[j..]
    ensures RunEnd(s, j) == RunEnd(s', j)
    decreases |s| - j
  {
    if j < |s| {
      assert s[j..][0] == s'[j..][0];
      var n := Size(s[j]);
      if n > 0 && j + n <= |s| {
        assert s[j..][n..] == s[j + n..] && s'[j..][n..] == s'[j + n..];
        RunEndLocal(s, s', j + n);
      }
    }
  }

  // ---------------------------------------------------------------- following headers

  function Headers(s: seq<word>, i: nat): set<nat>
    decreases |s| - i
  {
    if i + 1 >= |s| || Size(s[i]) == 0 then {i} else {i} + Headers(s, i + Size(s[i]))
  }

  function LandsOn(s: seq<word>, i: nat): nat
    decreases |s| - i
  {
    if i + 1 >= |s| || Size(s[i]) == 0 then i else LandsOn(s, i + Size(s[i]))
  }

  function SizesFrom(s: seq<word>, i: nat): nat
    decreases |s| - i
  {
    if i + 1 >= |s| || Size(s[i]) == 0 then 0 else Size(s[i]) + SizesFrom(s, i + Size(s[i]))
  }

  /** Following headers lands exactly on the sentinel, the sizes on the way sum to it, and the
      headers met are exactly starts. */
  lemma {:induction false} WalkFrom(s: seq<word>, starts: set<nat>, i: nat)
    requires Tiled(s, starts) && i in starts
    ensures LandsOn(s, i) == |s| - 1
    ensures i + SizesFrom(s, i) == |s| - 1
    ensures Headers(s, i) == set k | k in starts && k >= i
    decreases |s| - i
  {
    if i < |s| - 1 {
      assert Steps(s, starts, i);
      var j := i + Size(s[i]);
      WalkFrom(s, starts, j);
      assert forall k :: k in starts && k > i ==> Clear(s, i, k);
    }
  }

  lemma WalkTiles(s: seq<word>, starts: set<nat>)
    requires Tiled(s, starts)
    ensures LandsOn(s, 0) == |s| - 1 && SizesFrom(s, 0) == |s| - 1 && Headers(s, 0) == starts
  {
    WalkFrom(s, starts, 0);
    assert (set k | k in starts && k >= 0) == starts;
  }

  /** No two live payloads share a word, and none touches a header. */
  lemma PayloadsApart(s: seq<word>, starts: set<nat>, p: nat, q: nat)
    requires Tiled(s, starts) && p in Live(s, starts) && q in Live(s, starts) && p < q
    ensures p + |Live(s, starts)[p]| < q && q + |Live(s, starts)[q]| < |s|
  {
    assert Steps(s, starts, p - 1) && Steps(s, starts, q - 1) && Clear(s, p - 1, q - 1);
  }

  // ---------------------------------------------------------------- what each write does

  /** A free header is its block's size. */
  lemma FreeWord(w: word)
    requires !Used(w)
    ensures Size(w) == w as int && Size(w) < 0x8000_0000
  {
  }

  /** The array after the free block at i took in the free block behind it. */
  ghost predicate Joined(s: seq<word>, t: seq<word>, i: nat) {
    && |t| == |s| && i < |s| - 1 && !Used(s[i]) && !Used(t[i])
    && i + Size(s[i]) < |s| - 1 && !Used(s[i + Size(s[i])])
    && Size(t[i]) == Size(s[i]) + Size(s[i + Size(s[i])])
    && forall q :: 0 <= q < |s| && q != i ==> t[q] == s[q]
  }

  lemma JoinSteps(s: seq<word>, starts: set<nat>, t: seq<word>, i: nat, a: nat)
    requires Tiled(s, starts) && i in starts && Joined(s, t, i)
    requires a in starts && a < |s| - 1 && a != i + Size(s[i])
    ensures Steps(t, starts - {i + Size(s[i])}, a)
  {
    hide Size, Used;
    assert Steps(s, starts, a) && Steps(s, starts, i);
    if a < i {
      assert Clear(s, a, i);
    } else if a > i {
      assert Clear(s, i, a);
    } else {
      assert Steps(s, starts, i + Size(s[i]));
    }
  }

  lemma JoinClear(s: seq<word>, starts: set<nat>, t: seq<word>, i: nat, a: nat, b: nat)
    requires Tiled(s, starts) && i in starts && Joined(s, t, i)
    requires a in starts && b in starts && a != i + Size(s[i]) && b != i + Size(s[i]) && a < b
    ensures b < |s| && Clear(t, a, b)
  {
    hide Size, Used;
    assert Steps(s, starts, i);
    assert Clear(s, a, b);
    if a == i {
      assert Clear(s, i + Size(s[i]), b);
    }
  }

  lemma JoinTiles(s: seq<word>, starts: set<nat>, t: seq<word>, i: nat)
    requires Tiled(s, starts) && i in starts && Joined(s, t, i)
    ensures Tiled(t, starts - {i + Size(s[i])})
  {
    hide Size, Used, Steps, Clear;
    var rest := starts - {i + Size(s[i])};
    forall a | a in rest && a < |s| - 1 ensures Steps(t, rest, a) {
      JoinSteps(s, starts, t, i, a);
    }
    forall a, b | a in rest && b in rest && a < b ensures Clear(t, a, b) {
      JoinClear(s, starts, t, i, a, b);
    }
    JoinEnds(s, starts, t, i);
  }

  lemma JoinEnds(s: seq<word>, starts: set<nat>, t: seq<word>, i: nat)
    requires Tiled(s, starts) && i in starts && Joined(s, t, i)
    ensures Ends(t, starts - {i + Size(s[i])})
    ensures |s| - 2 in starts ==> !Used(t[|s| - 2])
  {
    hide Size, Used;
    assert Steps(s, starts, i);
    assert t[|s| - 1] == s[|s| - 1];
  }

  lemma JoinLives(s: seq<word>, starts: set<nat>, t: seq<word>, i: nat)
    requires Tiled(s, starts) && i in starts && Joined(s, t, i) && Tiled(t, starts - {i + Size(s[i])})
    ensures Live(t, starts - {i + Size(s[i])}) == Live(s, starts)
  {
    hide Size, Used;
    forall k | LiveAt(s, starts, k) ensures Same(s, t, k) {
      assert Steps(s, starts, k);
      assert k < i ==> Clear(s, k, i);
    }
    LiveUnmoved(s, starts, t, starts - {i + Size(s[i])});
  }

  /** What the loop in Free and Compact writes is a join. */
  lemma JoinOf(s: seq<word>, starts: set<nat>, i: nat)
    requires Tiled(s, starts) && i in starts && i < |s| - 1 && !Used(s[i])
    requires i + Size(s[i]) < |s| - 1 && !Used(s[i + Size(s[i])])
    ensures s[i] as int + s[i + Size(s[i])] as int < 0x8000_0000
    ensures Joined(s, s[i := s[i] + s[i + Size(s[i])]], i)
  {
    assert Steps(s, starts, i) && Steps(s, starts, i + Size(s[i]));
    FreeWord(s[i]);
    FreeWord(s[i + Size(s[i])]);
  }

  /** With no free block but i leaving a single free word behind it, the loop never stops short. */
  lemma JoinNoTail(s: seq<word>, starts: set<nat>, t: seq<word>, i: nat)
    requires Tiled(s, starts) && i in starts && Joined(s, t, i) && NoTail(s, starts, i)
    ensures NoTail(t, starts - {i + Size(s[i])}, i)
    ensures i + Size(t[i]) >= |s| - 2 ==> i + Size(t[i]) == |s| - 1
  {
    hide Size, Used;
    var j := i + Size(s[i]);
    assert Steps(s, starts, i) && Steps(s, starts, j);
    assert |s| - 2 in starts ==> Free(s, starts, |s| - 2);
  }

  /** The block at k, header and payload, is word for word the same in both arrays. */
  ghost predicate Same(s: seq<word>, t: seq<word>, k: nat) {
    && k < |s| == |t| && t[k] == s[k]
    && forall q :: k < q < k + Size(s[k]) && q < |s| ==> t[q] == s[q]
  }

  lemma PayloadUnmoved(s: seq<word>, starts: set<nat>, t: seq<word>, starts': set<nat>, p: nat)
    requires Tiled(s, starts) && Tiled(t, starts') && 0 < p
    requires LiveAt(s, starts, p - 1) && LiveAt(t, starts', p - 1) && Same(s, t, p - 1)
    ensures Payload(t, starts', p) == Payload(s, starts, p)
  {
    assert Steps(s, starts, p - 1);
  }

  /** Payloads stay put when live blocks are the same ones, word for word. */
  lemma LiveUnmoved(s: seq<word>, starts: set<nat>, t: seq<word>, starts': set<nat>)
    requires Tiled(s, starts) && Tiled(t, starts') && |s| == |t|
    requires forall k: nat :: LiveAt(s, starts, k) <==> LiveAt(t, starts', k)
    requires forall k: nat :: LiveAt(s, starts, k) ==> Same(s, t, k)
    ensures Live(t, starts') == Live(s, starts)
  {
    hide Tiled, Payload, LiveAt, Same;
    var a, b := Live(s, starts), Live(t, starts');
    assert a.Keys == b.Keys;
    forall p | p in a ensures a[p] == b[p] {
      PayloadUnmoved(s, starts, t, starts', p);
    }
  }

  /** The array after Alloc took the first w words of the free block at i: the rest split off, the
      payload zeroed, nothing else touched. */
  ghost predicate Claimed(s: seq<word>, u: seq<word>, i: nat, w: nat) {
    && |u| == |s| && i + w < |s| && 1 <= w <= Size(s[i])
    && !Used(s[i]) && Used(u[i]) && Size(u[i]) == w
    && (Size(s[i]) > w ==> !Used(u[i + w]) && Size(u[i + w]) == Size(s[i]) - w)
    && (Size(s[i]) == w ==> u[i + w] == s[i + w])
    && (forall q :: i < q < i + w ==> u[q] == 0)
    && (forall q :: 0 <= q < i || i + w < q < |s| ==> u[q] == s[q])
  }

  /** The other blocks are the same, word for word. */
  lemma ClaimLeavesOthers(s: seq<word>, starts: set<nat>, u: seq<word>, i: nat, w: nat, a: nat)
    requires Tiled(s, starts) && i in starts && i < |s| - 2 && Claimed(s, u, i, w)
    requires a in starts && a != i && a < |s| - 1
    ensures Same(s, u, a) && (a < i || i + Size(s[i]) <= a)
  {
    hide Size;
    assert if a < i then Clear(s, a, i) else Clear(s, i, a);
  }

  lemma ClaimSteps(s: seq<word>, starts: set<nat>, u: seq<word>, i: nat, w: nat, a: nat)
    requires Tiled(s, starts) && i in starts && i < |s| - 2 && Claimed(s, u, i, w)
    requires a in starts + {i + w} && a < |s| - 1
    ensures Steps(u, starts + {i + w}, a)
  {
    hide Size, Used;
    assert Steps(s, starts, i);
    if a in starts && a != i {
      ClaimLeavesOthers(s, starts, u, i, w, a);
      assert Steps(s, starts, a);
    }
  }

  lemma ClaimClear(s: seq<word>, starts: set<nat>, u: seq<word>, i: nat, w: nat, a: nat, b: nat)
    requires Tiled(s, starts) && i in starts && i < |s| - 2 && Claimed(s, u, i, w)
    requires a in starts + {i + w} && b in starts + {i + w} && a < b
    ensures b < |s| && Clear(u, a, b)
  {
    hide Size, Used;
    assert Steps(s, starts, i);
    if a in starts && a != i {
      ClaimLeavesOthers(s, starts, u, i, w, a);
      assert Clear(s, a, if b in starts then b else i);
    } else if b in starts {
      assert Clear(s, i, b);
    }
  }

  lemma ClaimEnds(s: seq<word>, starts: set<nat>, u: seq<word>, i: nat, w: nat)
    requires Tiled(s, starts) && i in starts && i < |s| - 2 && Claimed(s, u, i, w)
    ensures Ends(u, starts + {i + w})
    ensures |s| - 2 in starts + {i + w} ==> !Used(u[|s| - 2])
  {
    hide Size, Used;
    assert Steps(s, starts, i);
    assert u[|s| - 1] == s[|s| - 1];
    if |s| - 2 in starts && |s| - 2 != i + w {
      ClaimLeavesOthers(s, starts, u, i, w, |s| - 2);
    }
  }

  lemma ClaimTiles(s: seq<word>, starts: set<nat>, u: seq<word>, i: nat, w: nat)
    requires Tiled(s, starts) && i in starts && i < |s| - 2 && Claimed(s, u, i, w)
    ensures Tiled(u, starts + {i + w})
  {
    hide Size, Used, Steps, Clear;
    var starts' := starts + {i + w};
    ClaimEnds(s, starts, u, i, w);
    forall a | a in starts' && a < |s| - 1 ensures Steps(u, starts', a) {
      ClaimSteps(s, starts, u, i, w, a);
    }
    forall a, b | a in starts' && b in starts' && a < b ensures Clear(u, a, b) {
      ClaimClear(s, starts, u, i, w, a, b);
    }
  }

  lemma ClaimNoTail(s: seq<word>, starts: set<nat>, u: seq<word>, i: nat, w: nat)
    requires Tiled(s, starts) && i in starts && i < |s| - 2 && Claimed(s, u, i, w)
    requires NoTail(s, starts, |s|)
    ensures NoTail(u, starts + {i + w}, |s|)
  {
    hide Size, Used;
    assert Steps(s, starts, i);
    var starts', e, n := starts + {i + w}, i + Size(s[i]), |s| - 2;
    forall k | k in starts' && k < n && k + Size(u[k]) == n && Free(u, starts', n) ensures Used(u[k]) {
      if k in starts && k != i {
        ClaimLeavesOthers(s, starts, u, i, w, k);
      } 
    }
  }

  lemma ClaimLives(s: seq<word>, starts: set<nat>, u: seq<word>, i: nat, w: nat)
    requires Tiled(s, starts) && i in starts && i < |s| - 2 && Claimed(s, u, i, w)
    requires Tiled(u, starts + {i + w})
    ensures i + 1 !in Live(s, starts)
    ensures Live(u, starts + {i + w}) == Live(s, starts)[i + 1 := Repeat<word>(0, w - 1)]
  {
    hide Size, Used, Tiled, Payload;
    var starts' := starts + {i + w};
    var a, b := Live(s, starts)[i + 1 := Repeat<word>(0, w - 1)], Live(u, starts');
    assert LiveAt(u, starts', i);
    forall p: nat | 0 < p < |s| ensures p in a <==> p in b {
      if p != i + 1 {
        ClaimLiveAt(s, starts, u, i, w, p - 1);
      }
    }
    assert a.Keys == b.Keys;
    forall p | p in a ensures a[p] == b[p] {
      if p == i + 1 {
        ClaimZeroes(s, starts, u, i, w);
      } else {
        ClaimLeavesOthers(s, starts, u, i, w, p - 1);
        PayloadUnmoved(s, starts, u, starts', p);
      }
    }
  }

  lemma ClaimLiveAt(s: seq<word>, starts: set<nat>, u: seq<word>, i: nat, w: nat, k: nat)
    requires Tiled(s, starts) && i in starts && i < |s| - 2 && Claimed(s, u, i, w) && k != i
    ensures LiveAt(s, starts, k) <==> LiveAt(u, starts + {i + w}, k)
  {
    hide Size, Used;
    if k in starts && k < |s| - 1 {
      ClaimLeavesOthers(s, starts, u, i, w, k);
    }
    assert Steps(s, starts, i);
  }

  lemma ClaimZeroes(s: seq<word>, starts: set<nat>, u: seq<word>, i: nat, w: nat)
    requires Tiled(u, starts + {i + w}) && i in starts && i < |s| - 2 && Claimed(s, u, i, w)
    ensures LiveAt(u, starts + {i + w}, i) && Payload(u, starts + {i + w}, i + 1) == Repeat<word>(0, w - 1)
  {
  }

  /** Free's first write: the used bit goes. */
  lemma ReleaseKeeps(s: seq<word>, starts: set<nat>, i: nat)
    requires Tiled(s, starts) && i + 1 in Live(s, starts)
    ensures !Used(s[i] - MEM_USED) && Size(s[i] - MEM_USED) == Size(s[i]) && i < |s| - 2
    ensures Tiled(s[i := s[i] - MEM_USED], starts)
    ensures Live(s[i := s[i] - MEM_USED], starts) == Live(s, starts) - {i + 1}
    ensures NoTail(s, starts, |s|) ==> NoTail(s[i := s[i] - MEM_USED], starts, i)
  {
    var t := s[i := s[i] - MEM_USED];
    assert LiveAt(s, starts, i);
    hide Live, NoTail;
    assert Size(t[i]) == Size(s[i]) && !Used(t[i]);
    ReleaseNoTail(s, starts, t, i);
    hide Size, Used;
    HeadersKeep(s, starts, t);
    hide Tiled;
    OneGone(s, starts, t, i);
  }

  /** Only the block itself can now stand before a free one-word tail. */
  lemma ReleaseNoTail(s: seq<word>, starts: set<nat>, t: seq<word>, i: nat)
    requires LiveAt(s, starts, i) && i < |s| - 2
    requires |t| == |s| && t == s[i := t[i]] && Size(t[i]) == Size(s[i])
    ensures NoTail(s, starts, |s|) ==> NoTail(t, starts, i)
  {
    hide Size, Used;
  }

  lemma OneGone(s: seq<word>, starts: set<nat>, t: seq<word>, i: nat)
    requires Tiled(s, starts) && Tiled(t, starts) && LiveAt(s, starts, i)
    requires |t| == |s| && t == s[i := t[i]] && !Used(t[i])
    ensures Live(t, starts) == Live(s, starts) - {i + 1}
  {
    hide Size, Used, Payload, Tiled;
    var x, y := Live(s, starts) - {i + 1}, Live(t, starts);
    forall p: nat | 0 < p < |s| ensures p in x <==> p in y {
      assert p != i + 1 ==> (LiveAt(s, starts, p - 1) <==> LiveAt(t, starts, p - 1));
    }
    assert x.Keys == y.Keys;
    forall p | p in x ensures x[p] == y[p] {
      assert Same(s, t, p - 1) by {
        BlockClear(s, starts, p - 1, i);
      }
      PayloadUnmoved(s, starts, t, starts, p);
    }
  }

  /** A header lies outside every other block. */
  lemma BlockClear(s: seq<word>, starts: set<nat>, a: nat, b: nat)
    requires Tiled(s, starts) && a in starts && b in starts && a != b
    ensures a < |s| && (b < a || a + Size(s[a]) <= b)
  {
    hide Size;
    assert a < b ==> Clear(s, a, b);
  }

  /** Tiling looks only at the sizes in headers, and at the last two blocks' used bits. */
  lemma HeadersKeep(s: seq<word>, starts: set<nat>, t: seq<word>)
    requires Tiled(s, starts) && |t| == |s|
    requires forall a :: a in starts && a < |s| ==> Size(t[a]) == Size(s[a])
    requires Used(t[|s| - 1]) && (|s| - 2 in starts ==> !Used(t[|s| - 2]))
    ensures Tiled(t, starts)
  {
    hide Size, Used;
    forall a | a in starts && a < |s| - 1 ensures Steps(t, starts, a) {
      assert Steps(s, starts, a);
    }
    forall a, b | a in starts && b in starts && a < b ensures Clear(t, a, b) {
      BlockEnds(s, starts, a, b);
      ClearAlike(s, t, a, b);
    }
  }

  lemma ClearAlike(s: seq<word>, t: seq<word>, a: nat, b: nat)
    requires a < |s| == |t| && Size(t[a]) == Size(s[a]) && Clear(s, a, b)
    ensures Clear(t, a, b)
  {
  }

  lemma BlockEnds(s: seq<word>, starts: set<nat>, a: nat, b: nat)
    requires Tiled(s, starts) && a in starts && b in starts && a < b
    ensures a < |s| && Clear(s, a, b)
  {
    hide Size;
  }

  /** A user's own write into its payload. */
  lemma WriteKeeps(s: seq<word>, starts: set<nat>, p: nat, off: nat, v: word)
    requires Tiled(s, starts) && p in Live(s, starts) && off < |Live(s, starts)[p]|
    ensures p + off < |s| && Tiled(s[p + off := v], starts)
    ensures Live(s[p + off := v], starts) == Live(s, starts)[p := Live(s, starts)[p][off := v]]
    ensures NoTail(s, starts, |s|) ==> NoTail(s[p + off := v], starts, |s|)
  {
    hide Size, Used;
    var i := p - 1;
    assert Steps(s, starts, i);
    var t := s[p + off := v];
    forall a | a in starts && a < |s| ensures t[a] == s[a] {
      if a > i { assert Clear(s, i, a); }
    }
    HeadersKeep(s, starts, t);
    WriteLives(s, starts, t, p, off, v);
  }

  lemma WritePayload(s: seq<word>, starts: set<nat>, t: seq<word>, p: nat, off: nat, v: word)
    requires Tiled(s, starts) && Tiled(t, starts) && 0 < p && LiveAt(s, starts, p - 1) && LiveAt(t, starts, p - 1)
    requires off < |Payload(s, starts, p)| && p + off < |s| && t == s[p + off := v] && t[p - 1] == s[p - 1]
    ensures Payload(t, starts, p) == Payload(s, starts, p)[off := v]
  {
    hide Size, Used;
    assert Steps(s, starts, p - 1);
    var e := p - 1 + Size(s[p - 1]);
    assert t[p..e] == s[p..e][off := v];
  }

  lemma WriteElsewhere(s: seq<word>, starts: set<nat>, t: seq<word>, p: nat, off: nat, v: word, q: nat)
    requires Tiled(s, starts) && 0 < p && LiveAt(s, starts, p - 1) && 0 < q && LiveAt(s, starts, q - 1) && p != q
    requires off + 1 < Size(s[p - 1]) && p + off < |s| && t == s[p + off := v]
    ensures Same(s, t, q - 1)
  {
    hide Size, Used, Tiled;
    BlockClear(s, starts, q - 1, p - 1);
    BlockClear(s, starts, p - 1, q - 1);
  }

  lemma WriteLives(s: seq<word>, starts: set<nat>, t: seq<word>, p: nat, off: nat, v: word)
    requires Tiled(s, starts) && Tiled(t, starts) && p in Live(s, starts) && off < |Live(s, starts)[p]|
    requires p + off < |s| && t == s[p + off := v] && p - 1 + Size(s[p - 1]) <= |s|
    requires forall a :: a in starts && a < |s| ==> t[a] == s[a]
    ensures Live(t, starts) == Live(s, starts)[p := Live(s, starts)[p][off := v]]
  {
    hide Size, Used, Tiled, Payload, Same;
    var x, y := Live(s, starts)[p := Live(s, starts)[p][off := v]], Live(t, starts);
    forall q: nat | 0 < q < |s| ensures q in x <==> q in y {
      assert LiveAt(s, starts, q - 1) <==> LiveAt(t, starts, q - 1);
    }
    assert x.Keys == y.Keys;
    forall q | q in x ensures x[q] == y[q] {
      if q == p {
        WritePayload(s, starts, t, p, off, v);
      } else {
        WriteElsewhere(s, starts, t, p, off, v, q);
        PayloadUnmoved(s, starts, t, starts, q);
      }
    }
  }
}
