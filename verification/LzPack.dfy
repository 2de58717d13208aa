/** LZZPk fills the five streams, LZZUnpk expands them (pkbig.cpp:159-220, pkbig.cpp:353-388). The
    entropy coder between them is taken as the identity, the checksum as any function of the bytes. */
module LzPack {
  import opened Bytes
  import opened LzIndex
  import opened LzMatch
  import opened LzTokens

  const BLK_LIMIT: nat := 0x80000

  /** The token for pos: the match fbest settles on, if worth one, else the byte itself. */
  ghost predicate Best(s: seq<byte>, l: nat, pos: nat, t: Token)
    requires pos < l < |s|
  {
    match t
    case Lit(c) => c == s[pos] && forall r: nat :: r < pos && Choice(s, r, pos, l) ==> !Worth(Sent(s, r, pos, l), pos - r)
    case Copy(b, n) => 0 < n < pos && Choice(s, pos - n, pos, l) && b == Sent(s, pos - n, pos, l) && Worth(b, n)
  }

  /** Every token is the best where it starts. */
  ghost predicate Greedy(s: seq<byte>, l: nat, toks: seq<Token>)
    requires 0 < l < |s|
    decreases |toks|
  {
    toks == [] ||
      var front := toks[..|toks| - 1];
      && AllSendable(s[0], front) && Greedy(s, l, front)
      && |Out(s[0], front)| < l && Best(s, l, |Out(s[0], front)|, toks[|toks| - 1])
  }

  class Packer {
    const cache: Cache
    const tdat: array<byte>
    const ddat: array<byte>
    const wdat: array<byte>
    const bdat: array<byte>
    const odat: array<byte>

    ghost predicate Shape() {
      && cache.Shape()
      && tdat.Length == BLK_LIMIT && odat.Length == BLK_LIMIT
      && ddat.Length == BLK_LIMIT / 4 + 20 && wdat.Length == BLK_LIMIT / 3 + 20 && bdat.Length == BLK_LIMIT / 2 + 20
      && tdat !in {ddat, wdat, bdat, odat, cache.csh} && ddat !in {wdat, bdat, odat, cache.csh}
      && wdat !in {bdat, odat, cache.csh} && bdat !in {odat, cache.csh} && odat != cache.csh
    }

    constructor ()
      ensures Shape() && fresh(cache) && fresh(cache.csh) && fresh(cache.cash)
      ensures fresh(tdat) && fresh(ddat) && fresh(wdat) && fresh(bdat) && fresh(odat)
    {
      cache := new Cache();
      tdat := new byte[BLK_LIMIT](_ => 0);
      ddat := new byte[BLK_LIMIT / 4 + 20](_ => 0);
      wdat := new byte[BLK_LIMIT / 3 + 20](_ => 0);
      bdat := new byte[BLK_LIMIT / 2 + 20](_ => 0);
      odat := new byte[BLK_LIMIT](_ => 0);
    }

    /** What the cursors have put behind them. */
    function Written(c: Cursors): Streams
      requires Shape() && InBounds(c)
      reads tdat, ddat, wdat, bdat, odat
    {
      Streams(tdat[..c.x], odat[..c.o], bdat[..c.b], wdat[..c.w], ddat[..c.d])
    }

    predicate InBounds(c: Cursors) {
      c.x <= tdat.Length && c.o <= odat.Length && c.b <= bdat.Length && c.w <= wdat.Length && c.d <= ddat.Length
    }

    /** The token bytes of one step (pkbig.cpp:189-199). */
    method Emit(c: Cursors, t: Token, pos: nat) returns (c': Cursors)
      requires Shape() && InBounds(c) && Sendable(t, pos)
      requires c.x < tdat.Length && c.o < odat.Length && c.b < bdat.Length && c.w < wdat.Length && c.d < ddat.Length
      modifies tdat, ddat, wdat, bdat, odat
      ensures InBounds(c') && Written(c') == Put(old(Written(c)), t, pos)
      ensures c'.x == c.x + 1
      ensures match t
        case Lit(_) => c' == c.(x := c.x + 1, o := c.o + 1)
        case Copy(len, _) =>
          && c'.o == c.o && c'.b == c.b + 1
          && c.w <= c'.w <= c.w + (if len >= MIN_SEK2 then 1 else 0)
          && c.d <= c'.d <= c.d + (if len >= MIN_SEK then 1 else 0)
    {
      match t
      case Lit(ch) =>
        odat[c.o] := ch;
        tdat[c.x] := 0;
        c' := c.(x := c.x + 1, o := c.o + 1);
      case Copy(len, n) =>
        tdat[c.x] := (len - 1) as byte;
        bdat[c.b] := (n % 0x100) as byte;
        c' := c.(x := c.x + 1, b := c.b + 1);
        if len >= MIN_SEK2 {
          if Short(len, pos, n) {
            wdat[c.w] := (n / 0x100 % 0x100) as byte;
            c' := c'.(w := c.w + 1);
          } else {
            wdat[c.w] := Mark(n / 0x100 % 0x100);
            ddat[c.d] := (n / 0x8000 % 0x100) as byte;
            c' := c'.(w := c.w + 1, d := c.d + 1);
          }
        }
    }

    /** Every index in bounds: a token with a byte in a stream takes at least so many input bytes. */
    ghost predicate Thrifty(c: Cursors, pos: nat) {
      c.x < pos && 1 <= c.o <= pos && 1 + 2 * c.b <= pos && 1 + 3 * c.w <= pos && 1 + 5 * c.d <= pos
    }

    /** LZZPk's packing loop. s holds one readable byte past the l bytes to pack. */
    method LZZPk(s: seq<byte>, l: nat, sum: seq<byte> -> nat) returns (c: Cursors, chk: nat, ghost toks: seq<Token>)
      requires Shape() && Fits(l) && l < |s|
      modifies cache.csh, cache.cash, tdat, ddat, wdat, bdat, odat
      ensures InBounds(c) && chk == sum(s[..l])
      ensures AllSendable(s[0], toks) && Written(c) == Lay(s[0], toks)
      ensures Greedy(s, l, toks)
      ensures l <= |Out(s[0], toks)| <= l + 1 && Out(s[0], toks) == s[..|Out(s[0], toks)|]
    {
      hide Indexed, Put, Lay, AllSendable, Out, Apply, Found, Choice, Candidate, Len, Sent, Worth, Sendable, Best, Greedy;
      cache.InitCache(s, l);
      ghost var csh, cash := cache.csh[..], cache.cash[..];
      chk := sum(s[..l]);
      odat[0] := s[0];
      c := Cursors(0, 1, 0, 0, 0);
      toks := [];
      var pos := 1;
      NothingYet(s);
      while pos < l
        invariant 1 <= pos <= l + 1 && (pos == l + 1 ==> l > 0)
        invariant InBounds(c) && Thrifty(c, pos)
        invariant cache.csh[..] == csh && cache.cash[..] == cash
        invariant AllSendable(s[0], toks) && Written(c) == Lay(s[0], toks)
        invariant Out(s[0], toks) == s[..pos] && Greedy(s, l, toks)
        decreases l + 1 - pos
      {
        var j, n, pick := cache.Fbest(s, pos, l);
        var t := if j < 2 then Lit(s[pos]) else Copy(j, n);
        BestToken(s, pos, l, j, n, pick);
        TokenFits(s, pos, l, j, n);
        Append(s, toks, pos, t);
        GreedyMore(s, l, toks, t);
        c := Emit(c, t, pos);
        toks := toks + [t];
        pos := pos + if j < 2 then 1 else j;
      }
    }
  }

  lemma NothingYet(s: seq<byte>)
    requires |s| > 0
    ensures AllSendable(s[0], []) && Out(s[0], []) == s[..1] && forall l :: 0 < l < |s| ==> Greedy(s, l, [])
    ensures Lay(s[0], []) == Streams([], [s[0]], [], [], [])
  {
  }

  lemma BestToken(s: seq<byte>, pos: nat, l: nat, j: nat, n: nat, pick: Option<nat>)
    requires pos < l < |s|
    requires match pick
      case None => j == 0 && forall k: nat :: !Candidate(s, k, pos)
      case Some(r) =>
        && Choice(s, r, pos, l)
        && if Worth(Sent(s, r, pos, l), pos - r) then j == Sent(s, r, pos, l) && n == pos - r else j == 0
    ensures Best(s, l, pos, if j < 2 then Lit(s[pos]) else Copy(j, n))
  {
    hide Len, Sent, Worth, Keeps;
    forall r: nat | r < pos && Choice(s, r, pos, l) ensures pick == Some(r) {
      if pick.Some? { ChoiceIsUnique(s, r, pick.value, pos, l); }
    }
  }

  lemma GreedyMore(s: seq<byte>, l: nat, toks: seq<Token>, t: Token)
    requires 0 < l < |s| && AllSendable(s[0], toks) && Greedy(s, l, toks)
    requires |Out(s[0], toks)| < l && Best(s, l, |Out(s[0], toks)|, t)
    ensures Greedy(s, l, toks + [t])
  {
    hide Best, Out, AllSendable;
    assert (toks + [t])[..|toks|] == toks;
  }

  lemma TokenFits(s: seq<byte>, pos: nat, l: nat, j: nat, n: nat)
    requires Fits(l) && 0 < pos < l < |s| && (j == 0 || Found(s, pos, l, j, n))
    ensures j == 0 || (2 <= j <= 256 && pos + j <= l + 1 && Sendable(Copy(j, n), pos))
    ensures j != 0 ==> 0 < n <= pos && CopyOn(s[..pos], n, j) == s[..pos + j]
  {
    if j != 0 {
      CopyRepeats(s, pos, j, n);
    }
  }

  lemma Append(s: seq<byte>, toks: seq<Token>, pos: nat, t: Token)
    requires 0 < pos < |s| && AllSendable(s[0], toks) && Out(s[0], toks) == s[..pos]
    requires Sendable(t, pos)
    requires t.Lit? ==> t.c == s[pos]
    requires t.Copy? ==> pos + t.len <= |s| && CopyOn(s[..pos], t.dist, t.len) == s[..pos + t.len]
    ensures AllSendable(s[0], toks + [t])
    ensures Out(s[0], toks + [t]) == s[..pos + if t.Lit? then 1 else t.len]
    ensures Lay(s[0], toks + [t]) == Put(Lay(s[0], toks), t, pos)
  {
    assert (toks + [t])[..|toks|] == toks;
    assert s[..pos] + [s[pos]] == s[..pos + 1];
  }

  /** memcpy forwards over itself. */
  method CopyForward(t: array<byte>, s: nat, n: nat, j: nat)
    requires 0 < n <= s && s + j <= t.Length
    modifies t
    ensures t[..s + j] == CopyOn(old(t[..s]), n, j)
    ensures forall q :: s + j <= q < t.Length ==> t[q] == old(t[q])
  {
    ghost var was := t[..s];
    var k := 0;
    while k < j
      invariant k <= j
      invariant CopyOn(was, n, j) == CopyOn(t[..s + k], n, j - k)
      invariant forall q :: s + j <= q < t.Length ==> t[q] == old(t[q])
    {
      ghost var now := t[..s + k];
      CopyOnStep(now, n, j - k);
      t[s + k] := t[s + k - n];
      k := k + 1;
      assert t[..s + k] == now + [now[|now| - n]];
      assert CopyOn(was, n, j) == CopyOn(now + [now[|now| - n]], n, j - k);
    }
  }

  lemma CopyOnStep(out: seq<byte>, n: nat, len: nat)
    requires 0 < n <= |out| && len > 0
    ensures CopyOn(out, n, len) == CopyOn(out + [out[|out| - n]], n, len - 1)
  {
  }

  /** LZZUnpk's loop on streams a packer wrote: the tokens' bytes, and the length if the checksum
      of the first l of them is the one recorded, else 0. */
  method LZZUnpk(t: array<byte>, st: Streams, l: nat, chk: nat, sum: seq<byte> -> nat, ghost first: byte, ghost toks: seq<Token>)
    returns (ret: nat)
    requires AllSendable(first, toks) && st == Lay(first, toks)
    requires l <= |Out(first, toks)| <= t.Length
    modifies t
    ensures t[..|Out(first, toks)|] == Out(first, toks)
    ensures ret == if sum(Out(first, toks)[..l]) == chk then l else 0
    ensures forall q :: |Out(first, toks)| <= q < t.Length ==> t[q] == old(t[q])
  {
    hide Lay, Out, AllSendable, Put, Take;
    LayStarts(first, toks);
    t[0] := st.o[0];
    var s, c := 1, Cursors(0, 1, 0, 0, 0);
    ghost var k := 0;
    while c.x < |st.x|
      invariant k <= |toks| && c.x == k && AllSendable(first, toks[..k])
      invariant c == Lay(first, toks[..k]).Sizes() && s == |Out(first, toks[..k])| <= t.Length
      invariant t[..s] == Out(first, toks[..k])
      invariant forall q :: |Out(first, toks)| <= q < t.Length ==> t[q] == old(t[q])
      decreases |toks| - k
    {
      InStep(first, toks, k);
      OutGrows(first, toks, k + 1);
      LayStarts(first, toks[..k + 1]);
      var (tok, next) := Take(st, c, s);
      assert tok == toks[k];
      ghost var now := t[..s];
      match tok {
        case Lit(ch) =>
          t[s] := ch;
          s := s + 1;
          assert t[..s] == now + [ch] == Apply(now, toks[k]);
        case Copy(len, n) =>
          CopyForward(t, s, n, len);
          s := s + len;
          assert t[..s] == Apply(now, toks[k]);
      }
      c := next;
      k := k + 1;
    }
    assert k == |toks| && toks[..k] == toks;
    assert t[..l] == t[..s][..l];
    ret := if sum(t[..l]) == chk then l else 0;
  }

  lemma LayStarts(first: byte, toks: seq<Token>)
    requires AllSendable(first, toks)
    ensures |Lay(first, toks).x| == |toks| && At(Lay(first, toks).o, 0) == first && |Lay(first, toks).o| > 0
    ensures AllSendable(first, toks[..0]) && Out(first, toks[..0]) == [first]
    ensures Lay(first, toks[..0]).Sizes() == Cursors(0, 1, 0, 0, 0)
  {
  }

  lemma OutGrows(first: byte, toks: seq<Token>, k: nat)
    requires AllSendable(first, toks) && k <= |toks|
    ensures AllSendable(first, toks[..k]) && |Out(first, toks[..k])| <= |Out(first, toks)|
    decreases |toks|
  {
    if k == |toks| {
      assert toks[..k] == toks;
    } else {
      OutGrows(first, toks[..|toks| - 1], k);
      assert toks[..|toks| - 1][..k] == toks[..k];
    }
  }

  /** Packing then unpacking any non-empty input whose buckets fit gives it back as the first l
      bytes, with at most one byte written past them. */
  method PackUnpack(p: Packer, s: seq<byte>, l: nat, sum: seq<byte> -> nat, t: array<byte>) returns (ret: nat)
    requires p.Shape() && Fits(l) && l < |s| && l + 1 <= t.Length
    requires t !in {p.tdat, p.ddat, p.wdat, p.bdat, p.odat, p.cache.csh}
    modifies t, p.cache.csh, p.cache.cash, p.tdat, p.ddat, p.wdat, p.bdat, p.odat
    ensures t[..l] == s[..l] && ret == l
    ensures forall q :: l + 1 <= q < t.Length ==> t[q] == old(t[q])
  {
    var c, chk, toks := p.LZZPk(s, l, sum);
    ret := LZZUnpk(t, p.Written(c), l, chk, sum, s[0], toks);
    ghost var out := Out(s[0], toks);
    assert out[..l] == s[..l] && t[..l] == t[..|out|][..l];
  }
}
