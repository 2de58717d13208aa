/** Formatting into a bounded target through a flushed buffer: mvsprintfchk over BFILE::bvprintf,
    for formats of literals and plain %s (msprintfchk.cpp:46-72, bvprintfv.cpp:185-391). */
module BoundedPrint {
  import opened Bytes

  const BFR_LIM: nat := 0x800
  const PERCENT: byte := 37
  const LETTER_S: byte := 115

  /** Conversions and flags other than s, which the formats here do without: + - # l L h 0 space
      1-9 . u i d o X x. */
  const SPECIAL: set<byte> := {43, 45, 35, 108, 76, 104, 48, 32, 49, 50, 51, 52, 53, 54, 55, 56, 57, 46, 117, 105, 100, 111, 88, 120}

  /** Literals and plain %s from k on; a percent sign before any other character prints that one. */
  predicate Plain(fmt: seq<byte>, k: nat)
    decreases |fmt| - k
  {
    if k >= |fmt| then true
    else if fmt[k] != PERCENT then fmt[k] != 0 && Plain(fmt, k + 1)
    else if k + 1 == |fmt| then true
    else fmt[k + 1] != 0 && fmt[k + 1] !in SPECIAL && Plain(fmt, k + 2)
  }

  function Conversions(fmt: seq<byte>, k: nat): nat
    decreases |fmt| - k
  {
    if k >= |fmt| then 0
    else if fmt[k] != PERCENT then Conversions(fmt, k + 1)
    else if k + 1 == |fmt| then 0
    else (if fmt[k + 1] == LETTER_S then 1 else 0) + Conversions(fmt, k + 2)
  }

  /** A null string prints nothing, any other up to its NUL. */
  function Text(arg: Option<seq<byte>>): seq<byte> {
    match arg case None => [] case Some(s) => CStr(s)
  }

  /** The full rendering from k on, with the arguments from a on. */
  function Render(fmt: seq<byte>, k: nat, args: seq<Option<seq<byte>>>, a: nat): seq<byte>
    requires a + Conversions(fmt, k) <= |args|
    decreases |fmt| - k
  {
    if k >= |fmt| then []
    else if fmt[k] != PERCENT then [fmt[k]] + Render(fmt, k + 1, args, a)
    else if k + 1 == |fmt| then []
    else if fmt[k + 1] == LETTER_S then Text(args[a]) + Render(fmt, k + 2, args, a + 1)
    else [fmt[k + 1]] + Render(fmt, k + 2, args, a)
  }

  /** What the character or conversion at k adds to the rendering. */
  lemma Turn(fmt: seq<byte>, k: nat, args: seq<Option<seq<byte>>>, a: nat)
    requires Plain(fmt, k) && k < |fmt| && a + Conversions(fmt, k) <= |args|
    ensures fmt[k] == PERCENT && k + 1 == |fmt| ==>
      Plain(fmt, k + 1) && a + Conversions(fmt, k + 1) <= |args|
      && Render(fmt, k, args, a) == Render(fmt, k + 1, args, a) == []
    ensures fmt[k] == PERCENT && k + 1 < |fmt| && fmt[k + 1] == LETTER_S ==>
      Plain(fmt, k + 2) && a < a + 1 + Conversions(fmt, k + 2) <= |args|
      && Render(fmt, k, args, a) == Text(args[a]) + Render(fmt, k + 2, args, a + 1)
    ensures var c := if fmt[k] == PERCENT then k + 1 else k;
      c < |fmt| && !(fmt[k] == PERCENT && fmt[c] == LETTER_S) ==>
        Plain(fmt, c + 1) && a + Conversions(fmt, c + 1) <= |args|
        && Render(fmt, k, args, a) == [fmt[c]] + Render(fmt, c + 1, args, a)
  {
    hide Text;
  }

  // ---------------------------------------------------------------- what a rendering is

  /** A string conversion prints its argument up to the first NUL, and nothing for a null one. */
  lemma StringRenders(s: seq<byte>, rest: seq<byte>)
    requires 0 !in s
    ensures Conversions([37, 115], 0) == 1
    ensures Render([37, 115], 0, [Some(s)], 0) == s
    ensures Render([37, 115], 0, [Some(s + [0] + rest)], 0) == s
    ensures Render([37, 115], 0, [None], 0) == []
  {
    forall i | 0 <= i < |s| ensures s[i] != 0 && (s + [0] + rest)[i] != 0 {
      assert s[i] in s;
    }
    CStrIs(s, |s|);
    CStrIs(s + [0] + rest, |s|);
    assert s[..|s|] == s && (s + [0] + rest)[..|s|] == s;
    hide CStr;
    var f: seq<byte> := [37, 115];
    assert Render(f, 2, [Some(s)], 1) == Render(f, 2, [Some(s + [0] + rest)], 1) == Render(f, 2, [None], 1) == [];
    assert s + [] == s;
  }

  /** A percent sign before any other character prints that character. */
  lemma EscapeRenders(c: byte)
    requires c != 115
    ensures Conversions([37, c], 0) == 0 && Render([37, c], 0, [], 0) == [c]
  {
    var f: seq<byte> := [37, c];
    assert Render(f, 2, [], 0) == [];
    assert [f[1]] + [] == [c];
  }

  /** A format without percent signs prints itself. */
  lemma LiteralRenders(fmt: seq<byte>)
    requires 37 !in fmt
    ensures Conversions(fmt, 0) == 0 && Render(fmt, 0, [], 0) == fmt
  {
    LiteralFrom(fmt, 0);
    assert fmt[0..] == fmt;
  }

  lemma {:induction false} LiteralFrom(fmt: seq<byte>, k: nat)
    requires 37 !in fmt && k <= |fmt|
    ensures Conversions(fmt, k) == 0 && Render(fmt, k, [], 0) == fmt[k..]
    decreases |fmt| - k
  {
    if k < |fmt| {
      assert fmt[k] in fmt;
      LiteralFrom(fmt, k + 1);
      assert [fmt[k]] + fmt[k + 1..] == fmt[k..];
    }
  }

  /** The format does not break off behind a percent sign. */
  predicate Closed(fmt: seq<byte>, k: nat)
    decreases |fmt| - k
  {
    if k >= |fmt| then k == |fmt|
    else if fmt[k] != 37 then Closed(fmt, k + 1)
    else Closed(fmt, k + 2)
  }

  /** Behind the first piece the second goes on as if it stood alone. */
  lemma {:induction false} Behind(a: seq<byte>, b: seq<byte>, k: nat, args: seq<Option<seq<byte>>>, i: nat)
    ensures Conversions(a + b, |a| + k) == Conversions(b, k)
    ensures i + Conversions(b, k) <= |args| ==> Render(a + b, |a| + k, args, i) == Render(b, k, args, i)
    decreases |b| - k
  {
    hide Text;
    if k < |b| {
      assert (a + b)[|a| + k] == b[k];
      if b[k] != 37 {
        Behind(a, b, k + 1, args, i);
      } else if k + 1 < |b| {
        assert (a + b)[|a| + k + 1] == b[k + 1];
        Behind(a, b, k + 2, args, if b[k + 1] == 115 then i + 1 else i);
      }
    }
  }

  lemma AtLiteral(fmt: seq<byte>, k: nat, args: seq<Option<seq<byte>>>, i: nat)
    requires k < |fmt| && fmt[k] != 37
    ensures Conversions(fmt, k) == Conversions(fmt, k + 1)
    ensures i + Conversions(fmt, k) <= |args| ==> Render(fmt, k, args, i) == [fmt[k]] + Render(fmt, k + 1, args, i)
  {
    hide Text;
  }

  lemma AtPercent(fmt: seq<byte>, k: nat, args: seq<Option<seq<byte>>>, i: nat)
    requires k + 1 < |fmt| && fmt[k] == 37
    ensures var n := if fmt[k + 1] == 115 then 1 else 0;
      && Conversions(fmt, k) == n + Conversions(fmt, k + 2)
      && (i + Conversions(fmt, k) <= |args| ==>
        Render(fmt, k, args, i) == (if n == 1 then Text(args[i]) else [fmt[k + 1]]) + Render(fmt, k + 2, args, i + n))
  {
    hide Text;
  }

  lemma {:induction false} JoinCounts(a: seq<byte>, b: seq<byte>, k: nat)
    requires Closed(a, k)
    ensures Conversions(a + b, k) == Conversions(a, k) + Conversions(b, 0)
    decreases |a| - k
  {
    if k >= |a| {
      Behind(a, b, 0, [], 0);
    } else if a[k] != 37 {
      JoinCounts(a, b, k + 1);
    } else {
      JoinCounts(a, b, k + 2);
    }
  }

  /** A closed piece renders as it stands, and what follows goes on with the next argument. */
  lemma {:induction false} JoinFrom(a: seq<byte>, b: seq<byte>, k: nat, args: seq<Option<seq<byte>>>, i: nat)
    requires Closed(a, k) && i + Conversions(a, k) + Conversions(b, 0) <= |args|
    ensures Conversions(a + b, k) == Conversions(a, k) + Conversions(b, 0)
    ensures Render(a + b, k, args, i) == Render(a, k, args, i) + Render(b, 0, args, i + Conversions(a, k))
    decreases |a| - k
  {
    hide Text, Render, Conversions;
    JoinCounts(a, b, k);
    if k >= |a| {
      NothingLeft(a, k, args, i);
      Behind(a, b, 0, args, i);
      assert [] + Render(b, 0, args, i) == Render(b, 0, args, i);
    } else if a[k] != 37 {
      AtLiteral(a, k, args, i);
      AtLiteral(a + b, k, args, i);
      JoinFrom(a, b, k + 1, args, i);
      Regroup([a[k]], Render(a, k + 1, args, i), Render(b, 0, args, i + Conversions(a, k)));
    } else {
      AtPercent(a, k, args, i);
      AtPercent(a + b, k, args, i);
      var n, put := if a[k + 1] == 115 then 1 else 0, if a[k + 1] == 115 then Text(args[i]) else [a[k + 1]];
      JoinFrom(a, b, k + 2, args, i + n);
      Regroup(put, Render(a, k + 2, args, i + n), Render(b, 0, args, i + Conversions(a, k)));
    }
  }

  lemma NothingLeft(fmt: seq<byte>, k: nat, args: seq<Option<seq<byte>>>, i: nat)
    requires k >= |fmt| && i <= |args|
    ensures Conversions(fmt, k) == 0 && Render(fmt, k, args, i) == []
  {
  }

  /** A format sees its own arguments only. */
  lemma {:induction false} OwnArguments(fmt: seq<byte>, k: nat, before: seq<Option<seq<byte>>>, args: seq<Option<seq<byte>>>, after: seq<Option<seq<byte>>>, i: nat)
    requires i + Conversions(fmt, k) <= |args|
    ensures Render(fmt, k, before + args + after, |before| + i) == Render(fmt, k, args, i)
    decreases |fmt| - k
  {
    hide Text;
    if k < |fmt| {
      if fmt[k] != 37 {
        OwnArguments(fmt, k + 1, before, args, after, i);
      } else if k + 1 < |fmt| {
        if fmt[k + 1] == 115 {
          assert (before + args + after)[|before| + i] == args[i];
          OwnArguments(fmt, k + 2, before, args, after, i + 1);
        } else {
          OwnArguments(fmt, k + 2, before, args, after, i);
        }
      }
    }
  }

  /** A format with the arguments it takes. */
  datatype Piece = Piece(fmt: seq<byte>, args: seq<Option<seq<byte>>>) {
    predicate Whole() { Closed(fmt, 0) && |args| == Conversions(fmt, 0) }

    function Rendering(): seq<byte>
      requires Whole()
    {
      Render(fmt, 0, args, 0)
    }

    function Then(p: Piece): Piece { Piece(fmt + p.fmt, args + p.args) }
  }

  /** A format put together renders as its pieces in order, each with its own arguments. */
  lemma PiecesRender(p: Piece, q: Piece)
    requires p.Whole() && q.Whole()
    ensures p.Then(q).Whole() && p.Then(q).Rendering() == p.Rendering() + q.Rendering()
  {
    hide Text;
    JoinFrom(p.fmt, q.fmt, 0, p.args + q.args, 0);
    ClosedJoins(p.fmt, q.fmt, 0);
    OwnArguments(p.fmt, 0, [], p.args, q.args, 0);
    assert [] + p.args + q.args == p.args + q.args;
    OwnArguments(q.fmt, 0, p.args, q.args, [], 0);
    assert p.args + q.args + [] == p.args + q.args;
  }

  lemma {:induction false} ClosedJoins(a: seq<byte>, b: seq<byte>, k: nat)
    requires Closed(a, k) && Closed(b, 0)
    ensures Closed(a + b, k)
    decreases |a| - k
  {
    if k >= |a| {
      ClosedBehind(a, b, 0);
    } else if a[k] != 37 {
      ClosedJoins(a, b, k + 1);
    } else {
      ClosedJoins(a, b, k + 2);
    }
  }

  lemma {:induction false} ClosedBehind(a: seq<byte>, b: seq<byte>, k: nat)
    requires Closed(b, k)
    ensures Closed(a + b, |a| + k)
    decreases |b| - k
  {
    if k < |b| {
      assert (a + b)[|a| + k] == b[k];
      ClosedBehind(a, b, if b[k] != 37 then k + 1 else k + 2);
    }
  }

  function Min(a: nat, b: nat): nat { if a < b then a else b }

  /** SprintfPars: where the next byte goes, and how many still fit. */
  class SprintfPars {
    const target: array<byte>
    var t: nat
    var l: nat

    constructor (target: array<byte>, t: nat, l: nat)
      ensures this.target == target && this.t == t && this.l == l
    {
      this.target, this.t, this.l := target, t, l;
    }

    /** SPrintChkFlush (msprintfchk.cpp:46-56). */
    method Flush(b: seq<byte>) returns (n: nat)
      requires t + l <= target.Length
      modifies this, target
      ensures n == Min(old(l), |b|) && t == old(t) + n && l == old(l) - n
      ensures target[..t] == old(target[..t]) + b[..n]
      ensures forall q :: t <= q < target.Length ==> target[q] == old(target[q])
    {
      n := |b|;
      if l < n { n := l; }
      if n > 0 {
        forall k | 0 <= k < n { target[t + k] := b[k]; }
        l := l - n;
        t := t + n;
      }
    }
  }

  class BFILE {
    const par: SprintfPars
    const bfr: array<byte>
    var t: nat

    constructor (par: SprintfPars)
      ensures this.par == par && fresh(bfr) && bfr.Length == BFR_LIM * 2 && t == 0
    {
      this.par := par;
      bfr := new byte[BFR_LIM * 2](_ => 0);
      t := 0;
    }

    ghost predicate Shape()
      reads this, par
    {
      bfr.Length == BFR_LIM * 2 && bfr != par.target && par.t + par.l < par.target.Length
    }

    /** Everything put so far is behind head in the target or waits in the buffer. */
    ghost predicate Going(head: seq<byte>, cap: nat, put: seq<byte>, ii: nat)
      reads this, par, bfr, par.target
    {
      && Shape() && t < BFR_LIM && ii + t == |put| && ii <= cap && ii == |put| / BFR_LIM * BFR_LIM
      && par.t == |head| + ii && par.l == cap - ii
      && par.target[..par.t] == head + put[..ii]
      && bfr[..t] == put[ii..]
    }

    /** The target is full: it holds the first cap bytes, and the buffer is dropped. */
    ghost predicate Full(head: seq<byte>, cap: nat, put: seq<byte>, ii: nat)
      reads this, par, bfr, par.target
    {
      && Shape() && t == 0 && ii == cap < |put| && |put| % BFR_LIM == 0
      && par.t == |head| + cap && par.l == 0
      && par.target[..par.t] == head + put[..cap]
    }

    /** *t++ = c, and a flush when the buffer reaches its limit. */
    method PutChar(c: byte, i0: nat, ghost head: seq<byte>, ghost cap: nat, ghost put: seq<byte>)
      returns (stop: bool, ii: nat)
      requires Going(head, cap, put, i0)
      modifies this`t, bfr, par, par.target
      ensures if stop then Full(head, cap, put + [c], ii) else Going(head, cap, put + [c], ii)
      ensures forall q :: |head| + cap <= q < par.target.Length ==> par.target[q] == old(par.target[q])
    {
      ghost var all := put + [c];
      ghost var waiting := bfr[..t];
      stop, ii := false, i0;
      bfr[t] := c;
      t := t + 1;
      assert bfr[..t] == waiting + [c];
      OneMoreByte(put, c, i0);
      if t >= BFR_LIM {
        var x := par.Flush(bfr[..t]);
        ii := ii + x;
        stop := t != x;
        t := 0;
        TwoPieces(all, i0, x);
        Regroup(head, all[..i0], all[i0..][..x]);
      }
    }

    /** The %s loop (bvprintfv.cpp:289-320) without width or precision. */
    method PutString(s: seq<byte>, i0: nat, ghost head: seq<byte>, ghost cap: nat, ghost put: seq<byte>)
      returns (stop: bool, ii: nat, ghost j: nat)
      requires Going(head, cap, put, i0)
      modifies this`t, bfr, par, par.target
      ensures j <= |s| && (!stop ==> j == |s|)
      ensures if stop then Full(head, cap, put + s[..j], ii) else Going(head, cap, put + s[..j], ii)
      ensures forall q :: |head| + cap <= q < par.target.Length ==> par.target[q] == old(par.target[q])
    {
      hide Going, Full;
      stop, ii, j := false, i0, 0;
      assert put + s[..0] == put;
      for k := 0 to |s|
        invariant j == k && !stop && Going(head, cap, put + s[..j], ii)
        invariant forall q :: |head| + cap <= q < par.target.Length ==> par.target[q] == old(par.target[q])
      {
        assert put + s[..k] + [s[k]] == put + s[..k + 1];
        stop, ii := PutChar(s[k], ii, head, cap, put + s[..k]);
        j := k + 1;
        if stop {
          return;
        }
      }
    }

    /** One turn of bvprintf's loop: the character or conversion at k. */
    method PutNext(fmt: seq<byte>, k0: nat, args: seq<Option<seq<byte>>>, a0: nat, i0: nat,
        ghost head: seq<byte>, ghost cap: nat, ghost put: seq<byte>)
      returns (stop: bool, i: nat, k: nat, a: nat, ghost put': seq<byte>)
      requires Plain(fmt, k0) && k0 < |fmt| && a0 + Conversions(fmt, k0) <= |args| && Going(head, cap, put, i0)
      modifies this`t, bfr, par, par.target
      ensures k0 < k <= |fmt| && Plain(fmt, k) && a + Conversions(fmt, k) <= |args|
      ensures if stop then Full(head, cap, put', i) else Going(head, cap, put', i)
      ensures put' <= put + Render(fmt, k0, args, a0)
      ensures !stop ==> put' + Render(fmt, k, args, a) == put + Render(fmt, k0, args, a0)
      ensures forall q :: |head| + cap <= q < par.target.Length ==> par.target[q] == old(par.target[q])
    {
      hide Full, Going, Plain, Conversions, Render, Text;
      stop, i, k, a := false, i0, k0, a0;
      Turn(fmt, k, args, a);
      if fmt[k] == PERCENT && k + 1 == |fmt| {
        k := k + 1;
        put' := put;
      } else if fmt[k] == PERCENT && fmt[k + 1] == LETTER_S {
        ghost var j;
        stop, i, j := PutString(Text(args[a]), i, head, cap, put);
        put' := put + Text(args[a])[..j];
        Taken(put, Text(args[a]), j, Render(fmt, k + 2, args, a + 1));
        k, a := k + 2, a + 1;
      } else {
        if fmt[k] == PERCENT { k := k + 1; }
        stop, i := PutChar(fmt[k], i, head, cap, put);
        put' := put + [fmt[k]];
        k := k + 1;
        Taken(put, [fmt[k - 1]], 1, Render(fmt, k, args, a));
      }
    }

    /** bvprintf's loop. It ends with the whole rendering put, or with the target full. */
    method Bvprintf(fmt: seq<byte>, args: seq<Option<seq<byte>>>, ghost head: seq<byte>, ghost cap: nat)
      returns (r: nat, ghost stop: bool, ghost put: seq<byte>, ghost ii: nat)
      requires Plain(fmt, 0) && Conversions(fmt, 0) <= |args| && Going(head, cap, [], 0)
      modifies this`t, bfr, par, par.target
      ensures put <= Render(fmt, 0, args, 0)
      ensures if stop then Full(head, cap, put, ii) && r == cap
        else put == Render(fmt, 0, args, 0) && Going(head, cap, put, ii) && r == |put|
      ensures forall q :: |head| + cap <= q < par.target.Length ==> par.target[q] == old(par.target[q])
    {
      hide Plain, Conversions;
      ghost var all := Render(fmt, 0, args, 0);
      var k, a, i, done := 0, 0, 0, false;
      put := [];
      while k < |fmt| && !done
        invariant 0 <= k <= |fmt| && 0 <= a && Plain(fmt, k) && a + Conversions(fmt, k) <= |args|
        invariant 0 <= i && put <= all
        invariant !done ==> put + Render(fmt, k, args, a) == all && Going(head, cap, put, i)
        invariant done ==> Full(head, cap, put, i)
        invariant forall q :: |head| + cap <= q < par.target.Length ==> par.target[q] == old(par.target[q])
        decreases |fmt| - k
      {
        done, i, k, a, put := PutNext(fmt, k, args, a, i, head, cap, put);
      }
      r := i + t;
      stop, ii := done, i;
    }
  }

  lemma OneMoreByte(put: seq<byte>, c: byte, i: nat)
    requires i <= |put|
    ensures (put + [c])[..i] == put[..i] && (put + [c])[i..] == put[i..] + [c]
  {
  }

  lemma TwoPieces(all: seq<byte>, i: nat, x: nat)
    requires i + x <= |all|
    ensures all[..i] + all[i..][..x] == all[..i + x]
  {
  }

  /** The first j bytes of a piece, then the rest of it and of the rendering. */
  lemma Taken(was: seq<byte>, piece: seq<byte>, j: nat, rest: seq<byte>)
    requires j <= |piece|
    ensures was + piece[..j] <= was + (piece + rest)
    ensures j == |piece| ==> was + piece[..j] + rest == was + (piece + rest)
  {
    assert was + (piece + rest) == was + piece[..j] + (piece[j..] + rest);
  }

  /** mvsprintfchk (msprintfchk.cpp:58-72): the target ends up with as much of the rendering as fits
      and a NUL, however often the buffer was flushed; a target with no room is left alone. The
      count returned is the rendering's length unless the target filled during a flush. */
  method Mvsprintfchk(m: array<byte>, t: nat, et: nat, fmt: seq<byte>, args: seq<Option<seq<byte>>>) returns (r: nat)
    requires t <= m.Length && et <= m.Length && m.Length < 0x8000_0000
    requires Plain(fmt, 0) && Conversions(fmt, 0) <= |args|
    modifies m
    ensures et <= t + 1 ==> r == 0 && m[..] == old(m[..])
    ensures et > t + 1 ==>
      var all := Render(fmt, 0, args, 0); var cap := et - t - 1; var n := Min(|all|, cap);
      && m[t..t + n] == all[..n] && m[t + n] == 0
      && m[..t] == old(m[..t]) && m[et..] == old(m[et..])
      && r == if |all| / BFR_LIM * BFR_LIM <= cap then |all| else cap
  {
    hide Plain, Conversions, Render;
    if et - t - 1 <= 0 {
      return 0;
    }
    ghost var head, cap, was := m[..t], et - t - 1, m[..];
    var th := new SprintfPars(m, t, et - t - 1);
    var bf := new BFILE(th);
    ghost var stop, put, ii;
    assert bf.Going(head, cap, [], 0);
    r, stop, put, ii := bf.Bvprintf(fmt, args, head, cap);
    Rendered(Render(fmt, 0, args, 0), put, cap, ii, stop);
    Finish(bf, head, cap, put, ii, stop, Render(fmt, 0, args, 0));
  }

  /** fflush and the closing NUL (msprintfchk.cpp:69-70). */
  method Finish(bf: BFILE, ghost head: seq<byte>, ghost cap: nat, ghost put: seq<byte>, ghost ii: nat, ghost stop: bool, ghost all: seq<byte>)
    requires if stop then bf.Full(head, cap, put, ii) else bf.Going(head, cap, put, ii)
    requires ii <= |put| && put[..ii] == all[..Min(ii, |all|)] && (stop ==> Min(|all|, cap) == ii)
    requires !stop ==> put[..ii] + put[ii..][..Min(cap - ii, |put| - ii)] == all[..Min(|all|, cap)]
    modifies bf.par, bf.par.target
    ensures var n := Min(|all|, cap); var m := bf.par.target;
      && |head| + n < m.Length && m[..|head| + n] == head + all[..n] && m[|head| + n] == 0
      && forall q :: |head| + cap < q < m.Length ==> m[q] == old(m[q])
  {
    var th := bf.par;
    if bf.t > 0 {
      var x := th.Flush(bf.bfr[..bf.t]);
      Regroup(head, put[..ii], put[ii..][..x]);
    }
    ghost var n := Min(|all|, cap);
    assert th.target[..th.t] == head + all[..n];
    th.target[th.t] := 0;
    assert th.target[..|head| + n] == head + all[..n];
  }

  lemma Rendered(all: seq<byte>, put: seq<byte>, cap: nat, ii: nat, stop: bool)
    requires put <= all && ii <= |put|
    requires if stop then ii == cap < |put| && |put| % BFR_LIM == 0 else put == all && ii <= cap && ii == |put| / BFR_LIM * BFR_LIM
    ensures |all| / BFR_LIM * BFR_LIM <= cap <==> !stop
    ensures ii <= |all| && put[..ii] == all[..ii] && (stop ==> Min(|all|, cap) == ii)
    ensures !stop ==> ii + Min(cap - ii, |put| - ii) == Min(|all|, cap)
    ensures !stop ==> put[..ii] + put[ii..][..Min(cap - ii, |put| - ii)] == all[..Min(|all|, cap)]
  {
  }
}
