/** The allocator of the DNS cache (heap.cpp): first fit inside one word array, changed in place. */
module HeapAlloc {
  import opened HeapBlocks
  import opened Bytes

  /** The words a request takes, header included, as the 32-bit sum rounds it. */
  function Words(bytes: word): nat {
    ((bytes as int + 7) % 0x1_0000_0000) / 4
  }

  /** Rounding is right, room for every byte and one header, exactly when the sum does not wrap. */
  lemma WordsCover(bytes: word)
    ensures 4 * (Words(bytes) - 1) >= bytes as int <==> bytes <= 0xFFFF_FFF8
    ensures 4 * (Words(bytes) - 1) <= bytes as int + 3
  {
  }

  /** Four requests round to no words at all, not even a header. */
  lemma NoWordsAsked(bytes: word)
    ensures Words(bytes) == 0 <==> 0xFFFF_FFF9 <= bytes <= 0xFFFF_FFFC
  {
  }

  /** What Alloc then does to a free block at i (heap.cpp:72-78): its header, a size of nothing with
      the used bit, is no header of any heap, and following headers never gets past it. */
  lemma NoWordsClaimed(s: seq<word>, starts: set<nat>, i: nat, from: set<nat>)
    requires Tiled(s, starts) && i in starts && i < |s| - 2
    ensures LandsOn(s[i := MEM_USED], 0) == i && !Tiled(s[i := MEM_USED], from)
  {
    var u := s[i := MEM_USED];
    WalkReaches(s, starts, u, i, 0);
    if Tiled(u, from) { WalkTiles(u, from); }
  }

  lemma {:induction false} WalkReaches(s: seq<word>, starts: set<nat>, u: seq<word>, i: nat, k: nat)
    requires Tiled(s, starts) && i in starts && k in starts && k <= i < |s| - 2
    requires |u| == |s| && Size(u[i]) == 0 && forall q :: 0 <= q < i ==> u[q] == s[q]
    ensures LandsOn(u, k) == i
    decreases i - k
  {
    if k < i {
      assert Steps(s, starts, k) && Clear(s, k, i);
      WalkReaches(s, starts, u, i, k + Size(s[k]));
    }
  }

  class Heap {
    const d: array<word>
    var size: nat
    ghost var starts: set<nat>

    ghost predicate Valid()
      reads this, d
    {
      && Tiled(d[..], starts) && NoTail(d[..], starts, d.Length) && size == d.Length - 2
    }

    /** Each pointer handed out, and what its words hold. */
    ghost function Contents(): map<nat, seq<word>>
      requires Valid()
      reads this, d
    {
      Live(d[..], starts)
    }

    /** Init (heap.cpp:40) over s words of memory. */
    constructor (s: nat)
      requires 2 <= s <= 0x8000_0000
      ensures Valid() && Contents() == map[] && d.Length == s
      ensures Run(d[..], 0) == s - 1
    {
      size := s - 2;
      d := new word[s](_ => 0);
      new;
      d[0] := (s - 1) as word;
      d[s - 1] := (s - 1) as word + MEM_USED;
      starts := {0, s - 1};
      hide *;
      OneFreeBlock(d[..]);
    }

    /** The loop Free and Compact share (heap.cpp:104-109, heap.cpp:132-137): the free block at i
        takes in every free block behind it. */
    method JoinForward(i: nat)
      requires Tiled(d[..], starts) && NoTail(d[..], starts, i) && size == d.Length - 2
      requires i in starts && i < size && !Used(d[i])
      modifies d, `starts
      ensures Valid() && Contents() == Live(old(d[..]), old(starts))
      ensures starts == set k | k in old(starts) && !(i < k < RunEnd(old(d[..]), i))
      ensures forall q :: 0 <= q < d.Length && q != i ==> d[q] == old(d[q])
      ensures !Used(d[i]) && Size(d[i]) == Run(old(d[..]), i)
    {
      hide Joining, Size, Used;
      ghost var s, from := d[..], starts;
      JoiningStarts(s, from, i);
      var j := i + Size(d[i]);
      while !Used(d[j])
        invariant Joining(s, from, d[..], starts, i, j)
        invariant i < size && j < d.Length
        decreases d.Length - j
      {
        JoiningGoesOn(s, from, d[..], starts, i, j);
        ghost var t := d[..];
        d[i] := d[i] + d[j];
        assert d[..] == t[i := t[i] + t[j]];
        starts := starts - {j};
        j := j + Size(d[j]);
        if j >= size {
          break;
        }
      }
      JoiningEnds(s, from, d[..], starts, i, j);
    }

    /** Compact (heap.cpp:95-113): every run of free blocks merged, and the largest reported. The
        single word the scan never reaches is left out of both. */
    method Compact() returns (r: nat)
      requires Valid()
      modifies d, `starts
      ensures Valid() && Contents() == old(Contents()) && starts <= old(starts)
      ensures forall i :: i in starts && i < size && !Used(d[i]) ==> Size(d[i]) == Run(old(d[..]), i)
      ensures forall i :: i in old(starts) && i < size && !Used(old(d[..])[i]) ==> Run(old(d[..]), i) <= r
      ensures r > 0 ==> exists i: nat :: Largest(old(d[..]), old(starts), d[..], starts, i, r)
    {
      hide Compacting, Largest, Size, Used, Live, Tiled, NoTail;
      ghost var s, from := d[..], starts;
      var i := 0;
      r := 0;
      CompactingStarts(s, from);
      while i < size
        invariant Compacting(s, from, d[..], starts, i, r)
        invariant i < d.Length && size == d.Length - 2
        decreases d.Length - i
      {
        ghost var t, was := d[..], starts;
        CompactingAt(s, from, t, was, i, r);
        if !Used(d[i]) {
          JoinForward(i);
          ghost var e := CompactingFree(s, from, t, was, d[..], starts, i, r);
          if r < Size(d[i]) {
            r := Size(d[i]);
          }
        } else {
          CompactingUsed(s, from, t, was, i, r);
        }
        i := i + Size(d[i]);
      }
      CompactingEnds(s, from, d[..], starts, i, r);
    }

    /** Free (heap.cpp:116-140). */
    method Free(p: nat)
      requires Valid() && p in Contents()
      modifies d, `starts
      ensures Valid() && Contents() == old(Contents()) - {p}
    {
      hide Live, Size, Used, Tiled, NoTail;
      var i := p - 1;
      ghost var s := d[..];
      LiveIsBlock(s, starts, p);
      if i < size {
        ReleaseKeeps(s, starts, i);
        d[i] := d[i] - MEM_USED;
        assert d[..] == s[i := s[i] - MEM_USED];
        JoinForward(i);
      } else {
        assert false;
      }
    }

    /** A user writes one word of its block. */
    method Write(p: nat, off: nat, v: word)
      requires Valid() && p in Contents() && off < |Contents()[p]|
      modifies d
      ensures Valid() && Contents() == old(Contents())[p := old(Contents())[p][off := v]]
    {
      hide Live, Tiled, NoTail;
      ghost var s := d[..];
      WriteKeeps(s, starts, p, off, v);
      d[p + off] := v;
      assert d[..] == s[p + off := v];
    }

    /** memset4 (heap.cpp:48-53). */
    method Memset4(t: nat, v: word, l: nat)
      requires t + l <= d.Length
      modifies d
      ensures forall q :: t <= q < t + l ==> d[q] == v
      ensures forall q :: 0 <= q < d.Length && !(t <= q < t + l) ==> d[q] == old(d[q])
    {
      var b := t;
      while b < t + l
        invariant t <= b <= t + l
        invariant forall q :: t <= q < b ==> d[q] == v
        invariant forall q :: 0 <= q < d.Length && !(t <= q < b) ==> d[q] == old(d[q])
      {
        d[b] := v;
        b := b + 1;
      }
    }

    /** One pass of Alloc's scan (heap.cpp:68-90): the first free block of at least w words. */
    method Scan(w: nat) returns (p: Option<nat>)
      requires Valid() && w >= 1
      modifies d, `starts
      ensures Valid()
      ensures p.None? ==> d[..] == old(d[..]) && starts == old(starts)
      ensures p.None? <==> forall i :: !Fits(old(d[..]), old(starts), i, w)
      ensures p.Some? ==> p.value > 0 && Fits(old(d[..]), old(starts), p.value - 1, w)
      ensures p.Some? ==> forall i :: i < p.value - 1 ==> !Fits(old(d[..]), old(starts), i, w)
      ensures p.Some? ==> p.value !in old(Contents())
      ensures p.Some? ==> Contents() == old(Contents())[p.value := Repeat<word>(0, w - 1)]
    {
      hide Live, Size, Used, Tiled, NoTail;
      ghost var s, from := d[..], starts;
      var i := 0;
      ScanStarts(s, from);
      while i < size
        invariant i in starts && i < d.Length && size == d.Length - 2
        invariant Tiled(d[..], starts) && NoTail(d[..], starts, d.Length) && d[..] == s && starts == from
        invariant forall k :: k < i ==> !Fits(s, from, k, w)
        decreases d.Length - i
      {
        if Size(d[i]) >= w && !Used(d[i]) {
          assert Fits(s, from, i, w);
          Claim(i, w);
          return Some(i + 1);
        }
        StepsTo(s, from, i);
        ScanSkips(s, from, i, w);
        i := i + Size(d[i]);
      }
      p := None;
    }

    /** Split, mark, zero (heap.cpp:72-83). */
    method Claim(i: nat, w: nat)
      requires Valid() && i in starts && i < size && !Used(d[i]) && Size(d[i]) >= w >= 1
      modifies d, `starts
      ensures Valid()
      ensures i + 1 !in old(Contents()) && Contents() == old(Contents())[i + 1 := Repeat<word>(0, w - 1)]
    {
      hide Live, Tiled, NoTail;
      ghost var s, from := d[..], starts;
      StepsTo(s, from, i);
      FreeWord(d[i]);
      if d[i] as nat > w {
        d[i + w] := d[i] - w as word;
        d[i] := w as word;
      }
      d[i] := d[i] + MEM_USED;
      starts := starts + {i + w};
      Memset4(i + 1, 0, w - 1);
      ghost var u := d[..];
      assert Claimed(s, u, i, w);
      ClaimTiles(s, from, u, i, w);
      ClaimNoTail(s, from, u, i, w);
      ClaimLives(s, from, u, i, w);
    }

    /** Alloc (heap.cpp:55-93): at most two scans, the second of which cannot fail. It returns null
        exactly when no run of free blocks the scan reaches totals the rounded request. */
    method Alloc(bytes: word) returns (p: Option<nat>)
      requires Valid() && Words(bytes) >= 1
      modifies d, `starts
      ensures Valid()
      ensures p.None? ==> Contents() == old(Contents())
      ensures p.Some? ==> p.value !in old(Contents())
      ensures p.Some? ==> Contents() == old(Contents())[p.value := Repeat<word>(0, Words(bytes) - 1)]
      ensures p.None? <==>
        forall i :: i in old(starts) && i < size && !Used(old(d[..])[i]) ==> Run(old(d[..]), i) < Words(bytes)
    {
      hide Live, Size, Used, Tiled, NoTail, Run, Largest;
      ghost var s, from := d[..], starts;
      var w := Words(bytes);
      ghost var again := false;
      while true
        invariant Valid() && Contents() == Live(s, from) && Tiled(s, from)
        invariant !again ==> d[..] == s && starts == from
        invariant again ==> exists i :: Fits(d[..], starts, i, w)
        invariant again ==> exists i: nat :: i in from && i < size && !Used(s[i]) && Run(s, i) >= w
        decreases if again then 0 else 1
      {
        p := Scan(w);
        if p.Some? {
          if !again { FitsRun(s, from, p.value - 1, w); }
          return;
        }
        var r := Compact();
        if r < w {
          return None;
        }
        LargestFits(s, from, d[..], starts, r, w);
        again := true;
      }
    }
  }

  /** What the users of one heap do: ask for memory, give back or write into the k-th block they
      asked for, compact. Requests with no answer and requests out of place are passed over. */
  datatype Op = Ask(bytes: word) | GiveBack(k: nat) | Put(k: nat, off: nat, v: word) | Squeeze

  /** One operation on blocks that are each a memory of its own; got says which requests were
      answered. */
  function After(m: seq<Option<seq<word>>>, op: Op, got: seq<bool>): (m': seq<Option<seq<word>>>) {
    match op
    case Ask(bytes) => m + [if |m| < |got| && got[|m|] && Words(bytes) >= 1 then Some(Repeat<word>(0, Words(bytes) - 1)) else None]
    case GiveBack(k) => if k < |m| then m[k := None] else m
    case Put(k, off, v) =>
      if k < |m| && m[k].Some? && off < |m[k].value| then m[k := Some(m[k].value[off := v])] else m
    case Squeeze => m
  }

  /** What the k-th block asked for holds when every block is a memory of its own: zeroes at first,
      then what its owner puts there. */
  function Alone(ops: seq<Op>, got: seq<bool>): (m: seq<Option<seq<word>>>) {
    if ops == [] then [] else After(Alone(ops[..|ops| - 1], got), ops[|ops| - 1], got)
  }

  /** The pointers held, distinct, are exactly the heap's live ones, and each block holds what it
      would hold alone. */
  ghost predicate Apart(live: map<nat, seq<word>>, ptrs: seq<nat>, m: seq<Option<seq<word>>>) {
    && |ptrs| == |m|
    && (forall k :: 0 <= k < |m| && m[k].Some? ==> ptrs[k] in live && live[ptrs[k]] == m[k].value)
    && (forall j, k :: 0 <= j < k < |m| && m[j].Some? && m[k].Some? ==> ptrs[j] != ptrs[k])
    && (forall p :: p in live ==> exists k :: 0 <= k < |m| && m[k].Some? && ptrs[k] == p)
  }

  /** One operation; m is what the users know of their blocks. A request goes unanswered only when
      no run of free blocks the scan reaches is large enough. */
  method RunOne(h: Heap, op: Op, ptrs: seq<nat>, got: seq<bool>, m: seq<Option<seq<word>>>)
    returns (ptrs': seq<nat>, got': seq<bool>, m': seq<Option<seq<word>>>)
    requires h.Valid() && |ptrs| == |got| == |m| && Apart(h.Contents(), ptrs, m)
    requires op.Ask? ==> Words(op.bytes) >= 1
    modifies h, h.d
    ensures h.Valid() && |ptrs'| == |got'| == |m'| && Apart(h.Contents(), ptrs', m')
    ensures m' == After(m, op, got') && ptrs <= ptrs'
    ensures if op.Ask? then got' == got + [got'[|got|]] else got' == got
    ensures op.Ask? ==> (got'[|got|] <==>
      exists i :: i in old(h.starts) && i < old(h.size) && !Used(old(h.d[..])[i]) && Run(old(h.d[..]), i) >= Words(op.bytes))
  {
    hide Apart, Run, Tiled, NoTail, Live, Used;
    ptrs', got', m' := ptrs, got, m;
    ghost var live := h.Contents();
    match op
    case Ask(bytes) =>
      var p := h.Alloc(bytes);
      if p.Some? {
        ApartAsk(live, ptrs, m, p.value, Repeat<word>(0, Words(bytes) - 1));
        ptrs', got', m' := ptrs + [p.value], got + [true], m + [Some(Repeat<word>(0, Words(bytes) - 1))];
      } else {
        ApartRefused(live, ptrs, m);
        ptrs', got', m' := ptrs + [0], got + [false], m + [None];
      }
    case GiveBack(k) =>
      if k < |m| {
        ApartGive(live, ptrs, m, k);
        if m[k].Some? {
          h.Free(ptrs[k]);
        }
        m' := m[k := None];
      }
    case Put(k, off, v) =>
      if k < |m| && m[k].Some? && off < |m[k].value| {
        ApartPut(live, ptrs, m, k, m[k].value[off := v]);
        h.Write(ptrs[k], off, v);
        m' := m[k := Some(m[k].value[off := v])];
      }
    case Squeeze =>
      var _ := h.Compact();
  }

  /** Over any run, no operation on one block is felt by another: each holds at the end what it
      would hold alone, and nothing is lost or kept back. */
  method RunAll(h: Heap, ops: seq<Op>) returns (ptrs: seq<nat>, got: seq<bool>)
    requires h.Valid() && h.Contents() == map[]
    requires forall op :: op in ops && op.Ask? ==> Words(op.bytes) >= 1
    modifies h, h.d
    ensures h.Valid() && |got| == |ptrs|
    ensures Apart(h.Contents(), ptrs, Alone(ops, got))
  {
    hide Apart, After, Heap.Valid;
    ptrs, got := [], [];
    var m: seq<Option<seq<word>>> := [];
    ApartAtFirst();
    for i := 0 to |ops|
      invariant h.Valid() && |got| == |ptrs| == |m|
      invariant m == Alone(ops[..i], got)
      invariant Apart(h.Contents(), ptrs, m)
    {
      assert ops[..i + 1][..i] == ops[..i] && ops[i] in ops;
      ghost var before := got;
      ptrs, got, m := RunOne(h, ops[i], ptrs, got, m);
      if ops[i].Ask? {
        AloneGrows(ops[..i], before, got[|before|]);
      }
    }
    assert ops[..|ops|] == ops;
  }

  /** One free block and the sentinel. */
  lemma OneFreeBlock(s: seq<word>)
    requires 2 <= |s| <= 0x8000_0000
    requires s[0] == (|s| - 1) as word && s[|s| - 1] == (|s| - 1) as word + MEM_USED
    ensures var starts := {0, |s| - 1};
      && Tiled(s, starts) && NoTail(s, starts, |s|) && Live(s, starts) == map[] && Run(s, 0) == |s| - 1
  {
    FreeWord(s[0]);
    assert RunEnd(s, |s| - 1) == |s| - 1;
    assert Live(s, {0, |s| - 1}).Keys == {};
  }

  lemma ApartAtFirst()
    ensures Apart(map[], [], [])
  {
  }

  /** Later answers do not change what earlier operations meant. */
  lemma {:induction false} AloneGrows(ops: seq<Op>, got: seq<bool>, b: bool)
    requires |Alone(ops, got)| <= |got|
    ensures Alone(ops, got + [b]) == Alone(ops, got)
    decreases |ops|
  {
    if ops != [] {
      AloneGrows(ops[..|ops| - 1], got, b);
    }
  }

  lemma ApartAsk(live: map<nat, seq<word>>, ptrs: seq<nat>, m: seq<Option<seq<word>>>, p: nat, z: seq<word>)
    requires Apart(live, ptrs, m) && p !in live
    ensures Apart(live[p := z], ptrs + [p], m + [Some(z)])
  {
    var ptrs', m', n := ptrs + [p], m + [Some(z)], |m|;
    assert m'[n].Some? && ptrs'[n] == p;
    forall q | q in live ensures exists k :: 0 <= k < |m'| && m'[k].Some? && ptrs'[k] == q {
      var k :| 0 <= k < |m| && m[k].Some? && ptrs[k] == q;
      assert m'[k] == m[k] && ptrs'[k] == q;
    }
  }

  lemma ApartRefused(live: map<nat, seq<word>>, ptrs: seq<nat>, m: seq<Option<seq<word>>>)
    requires Apart(live, ptrs, m)
    ensures Apart(live, ptrs + [0], m + [None])
  {
    var ptrs', m' := ptrs + [0], m + [None];
    forall q | q in live ensures exists k :: 0 <= k < |m'| && m'[k].Some? && ptrs'[k] == q {
      var k :| 0 <= k < |m| && m[k].Some? && ptrs[k] == q;
      assert m'[k] == m[k] && ptrs'[k] == q;
    }
  }

  lemma ApartGive(live: map<nat, seq<word>>, ptrs: seq<nat>, m: seq<Option<seq<word>>>, k: nat)
    requires Apart(live, ptrs, m) && k < |m|
    ensures k < |ptrs| && (m[k].Some? ==> ptrs[k] in live)
    ensures Apart(if m[k].Some? then live - {ptrs[k]} else live, ptrs, m[k := None])
  {
    var live', m' := if m[k].Some? then live - {ptrs[k]} else live, m[k := None];
    forall q | q in live' ensures exists j :: 0 <= j < |m'| && m'[j].Some? && ptrs[j] == q {
      var j :| 0 <= j < |m| && m[j].Some? && ptrs[j] == q;
      assert m'[j] == m[j];
    }
  }

  lemma ApartPut(live: map<nat, seq<word>>, ptrs: seq<nat>, m: seq<Option<seq<word>>>, k: nat, b: seq<word>)
    requires Apart(live, ptrs, m) && k < |m| && m[k].Some?
    ensures k < |ptrs| && ptrs[k] in live && live[ptrs[k]] == m[k].value
    ensures Apart(live[ptrs[k] := b], ptrs, m[k := Some(b)])
  {
    var live', m' := live[ptrs[k] := b], m[k := Some(b)];
    forall q | q in live' ensures exists j :: 0 <= j < |m'| && m'[j].Some? && ptrs[j] == q {
      var j :| 0 <= j < |m| && m[j].Some? && ptrs[j] == q;
      assert m'[j].Some?;
    }
  }

  /** The bound on null that holds of every run, the unreachable last word included. */
  lemma NullMeansNoRun(s: seq<word>, starts: set<nat>, w: nat)
    requires Tiled(s, starts) && w >= 1
    requires forall i :: i in starts && i < |s| - 2 && !Used(s[i]) ==> Run(s, i) < w
    ensures forall i :: i in starts && i < |s| ==> Run(s, i) <= w
  {
    forall i | i in starts && i < |s| ensures Run(s, i) <= w {
      if i == |s| - 2 {
        StepsTo(s, starts, i);
        BlockClear(s, starts, i, |s| - 1);
        RunEndIsUsed(s, starts, i);
      }
    }
  }

  /** And it is not w - 1: a single free word before the sentinel is a run of one, yet a request
      of one word is refused. */
  lemma LoneFreeWord() returns (s: seq<word>, starts: set<nat>)
    ensures Tiled(s, starts) && NoTail(s, starts, |s|)
    ensures 1 in starts && |s| == 3 && !Used(s[1]) && Run(s, 1) == 1
    ensures forall i :: i in starts && i < |s| - 2 && !Used(s[i]) ==> Run(s, i) < Words(0)
  {
    s, starts := [1 + MEM_USED, 1, 2 + MEM_USED], {0, 1, 2};
    assert Size(s[0]) == 1 && Size(s[1]) == 1 && Size(s[2]) == 2;
    assert RunEnd(s, 2) == 2;
  }

  /** A block Alloc may take w words from, where its scan sees it. */
  ghost predicate Fits(s: seq<word>, starts: set<nat>, i: int, w: nat) {
    0 <= i < |s| - 2 && i in starts && !Used(s[i]) && Size(s[i]) >= w
  }

  /** A run of r words in s, merged into one block in t. */
  ghost predicate Largest(s: seq<word>, from: set<nat>, t: seq<word>, starts: set<nat>, i: nat, r: nat) {
    && i in from && i < |s| - 2 && !Used(s[i]) && Run(s, i) == r
    && i in starts && i < |t| - 2 && !Used(t[i]) && Size(t[i]) == r
  }

  /** Where the joining loop stands: i's block has grown from what it was in s up to j. */
  ghost predicate Joining(s: seq<word>, from: set<nat>, t: seq<word>, starts: set<nat>, i: nat, j: nat) {
    && Tiled(s, from) && |t| == |s| && i < |s| - 2 && !Used(s[i]) && i in from
    && Tiled(t, starts) && NoTail(t, starts, i) && Live(t, starts) == Live(s, from)
    && i in starts && !Used(t[i]) && j == i + Size(t[i]) < |s| && j in from
    && (forall q :: 0 <= q < |s| && q != i ==> t[q] == s[q])
    && RunEnd(s, i) == RunEnd(s, j)
    && starts == set k | k in from && !(i < k < j)
  }

  lemma JoiningStarts(s: seq<word>, from: set<nat>, i: nat)
    requires Tiled(s, from) && NoTail(s, from, i) && i in from && i < |s| - 2 && !Used(s[i])
    ensures Joining(s, from, s, from, i, i + Size(s[i]))
    ensures i + Size(s[i]) < |s|
  {
    StepsTo(s, from, i);
    forall k | k in from && i < k ensures i + Size(s[i]) <= k {
      BlockClear(s, from, i, k);
    }
    assert from == set k | k in from && !(i < k < i + Size(s[i]));
  }

  lemma JoiningGoesOn(s: seq<word>, from: set<nat>, t: seq<word>, starts: set<nat>, i: nat, j: nat)
    requires Joining(s, from, t, starts, i, j) && !Used(t[j])
    ensures i < j && t[i] as int + t[j] as int < 0x1_0000_0000
    ensures Joining(s, from, t[i := t[i] + t[j]], starts - {j}, i, j + Size(t[j]))
    ensures j < j + Size(t[j]) < |t|
    ensures j + Size(t[j]) >= |t| - 2 ==> j + Size(t[j]) == |t| - 1
  {
    hide Live, Used, Size;
    StepsTo(t, starts, i);
    assert s[j] == t[j] && Used(s[|s| - 1]);
    StepsTo(s, from, j);
    JoinOf(t, starts, i);
    var u := t[i := t[i] + t[j]];
    JoinTiles(t, starts, u, i);
    JoinLives(t, starts, u, i);
    JoinNoTail(t, starts, u, i);
    RunEndStep(s, j);
    forall k | k in from && j < k ensures j + Size(t[j]) <= k {
      BlockClear(s, from, j, k);
    }
    assert starts - {j} == set k | k in from && !(i < k < j + Size(t[j]));
  }

  lemma RunEndStep(s: seq<word>, j: nat)
    requires j < |s| && !Used(s[j]) && Size(s[j]) >= 1
    ensures RunEnd(s, j) == RunEnd(s, j + Size(s[j]))
  {
  }

  lemma JoiningEnds(s: seq<word>, from: set<nat>, t: seq<word>, starts: set<nat>, i: nat, j: nat)
    requires Joining(s, from, t, starts, i, j) && (Used(t[j]) || j == |t| - 1)
    ensures Tiled(t, starts) && NoTail(t, starts, |t|) && Live(t, starts) == Live(s, from)
    ensures starts == set k | k in from && !(i < k < RunEnd(s, i))
    ensures forall q :: 0 <= q < |t| && q != i ==> t[q] == s[q]
    ensures |t| == |s| && !Used(t[i]) && Size(t[i]) == Run(s, i)
  {
    hide Live;
    assert Used(s[j]);
    assert j != |t| - 2;
  }

  lemma StepsTo(s: seq<word>, starts: set<nat>, i: nat)
    requires Tiled(s, starts) && i in starts && i < |s| - 1
    ensures 1 <= Size(s[i]) && i + Size(s[i]) < |s| && i + Size(s[i]) in starts
  {
    hide Size;
    assert Steps(s, starts, i);
  }

  lemma LiveIsBlock(s: seq<word>, starts: set<nat>, p: nat)
    requires Tiled(s, starts) && p in Live(s, starts)
    ensures 0 < p < |s| - 1 && p - 1 in starts && Used(s[p - 1]) && p - 1 < |s| - 2
  {
  }

  lemma ScanStarts(s: seq<word>, starts: set<nat>)
    requires Tiled(s, starts)
    ensures 0 in starts && 2 <= |s|
  {
  }

  lemma ScanSkips(s: seq<word>, starts: set<nat>, i: nat, w: nat)
    requires Tiled(s, starts) && i in starts && i < |s| - 2 && !(Size(s[i]) >= w && !Used(s[i]))
    ensures forall k: int :: i <= k < i + Size(s[i]) ==> !Fits(s, starts, k, w)
  {
    hide Size, Used;
    forall k | i <= k < i + Size(s[i]) ensures !Fits(s, starts, k, w) {
      if k in starts && k > i { BlockClear(s, starts, i, k); }
    }
  }

  /** A block's run is at least the block. */
  lemma FitsRun(s: seq<word>, starts: set<nat>, i: nat, w: nat)
    requires Tiled(s, starts) && Fits(s, starts, i, w)
    ensures i in starts && i < |s| - 2 && !Used(s[i]) && Run(s, i) >= w
  {
    StepsTo(s, starts, i);
    RunEndStep(s, i);
  }

  lemma LargestFits(s: seq<word>, from: set<nat>, t: seq<word>, starts: set<nat>, r: nat, w: nat)
    requires |s| == |t| && r >= w >= 1 && exists i: nat :: Largest(s, from, t, starts, i, r)
    ensures exists i :: Fits(t, starts, i, w)
    ensures exists i: nat :: i in from && i < |s| - 2 && !Used(s[i]) && Run(s, i) >= w
  {
    hide Run, Size, Used;
    var i: nat :| Largest(s, from, t, starts, i, r);
    assert Fits(t, starts, i, w);
  }

  // ---------------------------------------------------------------- Compact's scan

  /** Up to i the runs of s are merged in t and none exceeds r; from i on nothing has changed. */
  ghost predicate Compacting(s: seq<word>, from: set<nat>, t: seq<word>, starts: set<nat>, i: nat, r: nat) {
    && Tiled(s, from) && Tiled(t, starts) && NoTail(t, starts, |t|) && Live(t, starts) == Live(s, from)
    && |t| == |s| && i < |s| && i in starts && starts <= from && t[i..] == s[i..]
    && (forall k :: k in from && k >= i ==> k in starts)
    && (forall k :: k in from && k < i && k < |s| - 2 && !Used(s[k]) ==> Run(s, k) <= r)
    && (r > 0 ==> exists h: nat :: h < i && Largest(s, from, t, starts, h, r))
    && Merged(s, t, starts, i)
  }

  /** Every free block of t the scan has passed is a whole run of s. */
  ghost predicate Merged(s: seq<word>, t: seq<word>, starts: set<nat>, i: nat) {
    |t| == |s| && forall k :: k in starts && k < i && k < |s| - 2 && !Used(t[k]) ==> Size(t[k]) == Run(s, k)
  }

  lemma MergedPastUsed(s: seq<word>, t: seq<word>, starts: set<nat>, i: nat, e: nat)
    requires Merged(s, t, starts, i) && i < |t| && Used(t[i])
    requires forall k :: k in starts && i < k ==> e <= k
    ensures Merged(s, t, starts, e)
  {
    hide Size, Run;
  }

  lemma MergedPastFree(s: seq<word>, t: seq<word>, was: set<nat>, u: seq<word>, starts: set<nat>, i: nat, e: nat)
    requires Merged(s, t, was, i) && i < |t| == |u| && Size(u[i]) == Run(s, i)
    requires starts == set k | k in was && !(i < k < e)
    requires forall q :: 0 <= q < |u| && q != i ==> u[q] == t[q]
    ensures Merged(s, u, starts, e)
  {
    hide Size, Run;
  }

  lemma CompactingStarts(s: seq<word>, from: set<nat>)
    requires Tiled(s, from) && NoTail(s, from, |s|)
    ensures Compacting(s, from, s, from, 0, 0)
  {
  }

  lemma CompactingAt(s: seq<word>, from: set<nat>, t: seq<word>, starts: set<nat>, i: nat, r: nat)
    requires Compacting(s, from, t, starts, i, r) && i < |s| - 2
    ensures |t| == |s| && t[i] == s[i] && i in starts && Tiled(t, starts) && NoTail(t, starts, |t|) && NoTail(t, starts, i)
    ensures Size(t[i]) >= 1 && i + Size(t[i]) < |t|
  {
    assert t[i..][0] == s[i..][0];
    StepsTo(t, starts, i);
  }

  lemma CompactingUsed(s: seq<word>, from: set<nat>, t: seq<word>, starts: set<nat>, i: nat, r: nat)
    requires Compacting(s, from, t, starts, i, r) && i < |s| - 2 && Used(t[i])
    ensures Compacting(s, from, t, starts, i + Size(t[i]), r)
  {
    CompactingAt(s, from, t, starts, i, r);
    StepsTo(t, starts, i);
    hide Size, Used, Live, Run;
    var n := Size(t[i]);
    assert t[i..][n..] == t[i + n..] && s[i..][n..] == s[i + n..];
    forall k | k in from && i < k ensures i + n <= k {
      BlockClear(t, starts, i, k);
    }
    MergedPastUsed(s, t, starts, i, i + n);
  }

  lemma CompactingFree(s: seq<word>, from: set<nat>, t: seq<word>, was: set<nat>, u: seq<word>, starts: set<nat>, i: nat, r: nat)
    returns (e: nat)
    requires Compacting(s, from, t, was, i, r) && i < |s| - 2 && !Used(t[i])
    requires |u| == |t| && Tiled(u, starts) && NoTail(u, starts, |u|) && Live(u, starts) == Live(t, was)
    requires starts == set k | k in was && !(i < k < RunEnd(t, i))
    requires forall q :: 0 <= q < |u| && q != i ==> u[q] == t[q]
    requires !Used(u[i]) && Size(u[i]) == Run(t, i)
    ensures i < e < |u| && e == i + Size(u[i])
    ensures Compacting(s, from, u, starts, e, if r < Size(u[i]) then Size(u[i]) else r)
  {
    CompactingAt(s, from, t, was, i, r);
    RunEndLocal(s, t, i);
    RunEndIsUsed(t, was, i);
    StepsTo(t, was, i);
    RunEndStep(t, i);
    e := RunEnd(t, i);
    var r' := if r < Size(u[i]) then Size(u[i]) else r;
    HeadersLeft(from, was, starts, i, e);
    assert Size(u[i]) == e - i == Run(s, i) && e == RunEnd(s, i);
    hide Size, Used, Live, RunEnd, Tiled, NoTail, Run;
    MergedPastFree(s, t, was, u, starts, i, e);
    hide Merged;
    TailsAgree(s, t, u, i, e);
    RunsBounded(s, from, i, e, r, r');
    if r < Size(u[i]) {
      LargestHere(s, from, u, starts, i);
    } else if r > 0 {
      LargestStays(s, from, t, was, u, starts, i, r);
    }
  }

  lemma LargestHere(s: seq<word>, from: set<nat>, u: seq<word>, starts: set<nat>, i: nat)
    requires |s| == |u| && i in from && i in starts && i < |s| - 2 && !Used(s[i]) && !Used(u[i]) && Size(u[i]) == Run(s, i)
    ensures Largest(s, from, u, starts, i, Size(u[i]))
  {
  }

  lemma HeadersLeft(from: set<nat>, was: set<nat>, starts: set<nat>, i: nat, e: nat)
    requires starts == set k | k in was && !(i < k < e)
    requires was <= from && i in was && e in was && i < e && forall k :: k in from && k >= i ==> k in was
    ensures starts <= from && i in starts && e in starts
    ensures forall k :: k in from && k >= e ==> k in starts
    ensures forall k :: k in was && k < i ==> k in starts
  {
  }

  lemma LargestStays(s: seq<word>, from: set<nat>, t: seq<word>, was: set<nat>, u: seq<word>, starts: set<nat>, i: nat, r: nat)
    requires |u| == |t| && exists h: nat :: h < i && Largest(s, from, t, was, h, r)
    requires forall k :: k in was && k < i ==> k in starts
    requires forall q :: 0 <= q < |u| && q != i ==> u[q] == t[q]
    ensures exists h: nat :: h < i && Largest(s, from, u, starts, h, r)
  {
    hide Size, Used, Run;
    var h: nat :| h < i && Largest(s, from, t, was, h, r);
    assert Largest(s, from, u, starts, h, r);
  }

  lemma RunsBounded(s: seq<word>, from: set<nat>, i: nat, e: nat, r: nat, r': nat)
    requires Tiled(s, from) && i in from && e == RunEnd(s, i) && r <= r' && Run(s, i) <= r'
    requires forall k :: k in from && k < i && k < |s| - 2 && !Used(s[k]) ==> Run(s, k) <= r
    ensures forall k :: k in from && k < e && k < |s| - 2 && !Used(s[k]) ==> Run(s, k) <= r'
  {
    hide RunEnd, Used;
    forall k | k in from && k < e && k < |s| - 2 && !Used(s[k]) ensures Run(s, k) <= r' {
      if k >= i {
        RunInside(s, from, i, k);
      }
    }
  }

  lemma TailsAgree(s: seq<word>, t: seq<word>, u: seq<word>, i: nat, e: nat)
    requires |s| == |t| == |u| && i < e <= |s| && t[i..] == s[i..]
    requires forall q :: 0 <= q < |u| && q != i ==> u[q] == t[q]
    ensures u[e..] == s[e..]
  {
    forall q | e <= q < |s| ensures u[q] == s[q] {
      assert t[i..][q - i] == s[i..][q - i];
    }
  }

  lemma CompactingEnds(s: seq<word>, from: set<nat>, t: seq<word>, starts: set<nat>, i: nat, r: nat)
    requires Compacting(s, from, t, starts, i, r) && i >= |s| - 2
    ensures Tiled(t, starts) && NoTail(t, starts, |t|) && Live(t, starts) == Live(s, from) && starts <= from && |t| == |s|
    ensures forall k :: k in from && k < |s| - 2 && !Used(s[k]) ==> Run(s, k) <= r
    ensures r > 0 ==> exists h: nat :: Largest(s, from, t, starts, h, r)
    ensures forall k :: k in starts && k < |s| - 2 && !Used(t[k]) ==> Size(t[k]) == Run(s, k)
  {
    hide Size, Used, Live, Run;
  }
}
