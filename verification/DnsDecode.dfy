/** DecodeName, and the round trip of a compressed name (RFC 1035 section 4.1.4). */
module DnsDecode {
  import opened Bytes
  import opened DnsName

  const MAX_HOPS := 35
  const MAX_OUT := 63

  /** Where the decoder stands: the byte it reads next, the labels copied so far (each with a dot
      behind it), the pointers followed, and where reading resumes after the first pointer. */
  datatype Cursor = Cursor(s: nat, out: seq<byte>, hops: nat, ret: Option<nat>) {
    predicate InRange(start: nat) {
      && |out| <= MAX_OUT && hops <= MAX_HOPS && s <= start + |out|
      && match ret
         case None => s == start + |out|
         case Some(r) => start < r <= start + MAX_OUT + 2
    }
  }

  datatype Turn = Stop(at: Cursor) | Go(to: Cursor)

  /** One turn of the decoder's loop on arbitrary bytes. A pointer must lead before the place where
      decoding started, and spends one of 35 hops; a label spends some of 63 bytes of room. */
  function Step(m: seq<byte>, start: nat, c: Cursor): (e: Turn)
    requires c.InRange(start)
    ensures e.Stop? ==> e.at.InRange(start) && e.at.out == c.out && e.at.hops == c.hops
    ensures e.Go? ==> e.to.InRange(start)
    ensures e.Go? ==> e.to.hops == c.hops + 1 || (e.to.hops == c.hops && |e.to.out| > |c.out|)
  {
    var j := At(m, c.s);
    if j == 0 then Stop(c)
    else if j >= 0xC0 then
      var ret := if c.ret.None? then Some(c.s + 2) else c.ret;
      var target := (j as nat - 0xC0) * 256 + At(m, c.s + 1) as nat;
      if target >= start || c.hops == MAX_HOPS then Stop(c.(ret := ret))
      else Go(Cursor(target, c.out, c.hops + 1, ret))
    else if |c.out| + j as nat >= 63 then Stop(c)
    else Go(Cursor(c.s + 1 + j as nat, c.out + Slice(m, c.s + 1, j as nat) + [DOT], c.hops, c.ret))
  }

  function Walk(m: seq<byte>, start: nat, c: Cursor): (e: Cursor)
    requires c.InRange(start)
    ensures e.InRange(start)
    decreases MAX_HOPS - c.hops, MAX_OUT - |c.out|
  {
    match Step(m, start, c)
    case Stop(at) => at
    case Go(to) => Walk(m, start, to)
  }

  function Start(s0: nat): Cursor {
    Cursor(s0, [], 0, None)
  }

  /** The text DecodeName leaves, or None when it ends before the first label (HoldsText). */
  function DecodeText(m: seq<byte>, s0: nat): (text: Option<seq<byte>>)
    ensures text.Some? ==> |text.value| <= 62
  {
    var e := Walk(m, s0, Start(s0));
    if At(m, s0) == 0 then Some([])
    else if e.out == [] then None
    else Some(e.out[..|e.out| - 1])
  }

  /** The position DecodeName returns: after the first pointer, or after the last byte read. */
  function DecodeNext(m: seq<byte>, s0: nat): (next: nat)
    ensures s0 < next <= s0 + MAX_OUT + 2
  {
    var e := Walk(m, s0, Start(s0));
    match e.ret
    case Some(r) => r
    case None => e.s + 1
  }

  // ---------------------------------------------------------------- when there is a text

  /** Where pointers lead from p, following only those to before start, and at most hops of them. */
  function Chase(m: seq<byte>, start: nat, p: nat, hops: nat): nat
    decreases hops
  {
    var j := At(m, p);
    var target := (j as int - 0xC0) * 256 + At(m, p + 1) as int;
    if j >= 0xC0 && target < start && hops > 0 then Chase(m, start, target, hops - 1) else p
  }

  /** Exactly when DecodeName leaves a text: the name is the root's zero byte in place, or what its
      pointers lead to is a label of at most 62 bytes. */
  lemma HoldsText(m: seq<byte>, s0: nat)
    ensures DecodeText(m, s0).Some? <==> At(m, s0) == 0 || 1 <= At(m, Chase(m, s0, s0, MAX_HOPS)) <= 62
  {
    WalkChase(m, s0, Start(s0));
  }

  lemma {:induction false} WalkChase(m: seq<byte>, start: nat, c: Cursor)
    requires c.InRange(start) && c.out == []
    ensures Walk(m, start, c).out != [] <==> 1 <= At(m, Chase(m, start, c.s, MAX_HOPS - c.hops)) <= 62
    decreases MAX_HOPS - c.hops
  {
    match Step(m, start, c)
    case Stop(at) =>
    case Go(to) =>
      if to.hops > c.hops {
        WalkChase(m, start, to);
      } else {
        WalkGrows(m, start, to);
      }
  }

  /** Labels once copied stay. */
  lemma {:induction false} WalkGrows(m: seq<byte>, start: nat, c: Cursor)
    requires c.InRange(start)
    ensures |c.out| <= |Walk(m, start, c).out|
    decreases MAX_HOPS - c.hops, MAX_OUT - |c.out|
  {
    match Step(m, start, c)
    case Stop(at) =>
    case Go(to) =>
      WalkGrows(m, start, to);
  }

  /** A pointer to an earlier zero byte is a legal spelling of the root, and leaves no text. */
  lemma PointerToRoot() returns (m: seq<byte>)
    ensures |m| == 15 && m[12] == 0 && m[13..15] == [0xC0, 12]
    ensures DecodeText(m, 13) == None && DecodeNext(m, 13) == 15
  {
    m := Repeat<byte>(0, 13) + [0xC0, 12];
    var c := Start(13);
    assert Step(m, 13, c) == Go(Cursor(12, [], 1, Some(15)));
    assert Step(m, 13, Cursor(12, [], 1, Some(15))) == Stop(Cursor(12, [], 1, Some(15)));
  }

  // ---------------------------------------------------------------- the decoder in place

  /** One turn of the loop: (s, t, n, r) is the cursor, tt[b..b + t] the labels copied so far. */
  method DecodeTurn(tt: array<byte>, b: nat, m: array<byte>, s0: nat, s: nat, t: nat, n: nat, r: Option<nat>)
    returns (stop: bool, s': nat, t': nat, n': nat, r': Option<nat>)
    requires tt != m && b + 64 <= tt.Length && s0 + 65 <= m.Length && t <= MAX_OUT
    requires Cursor(s, tt[b..b + t], n, r).InRange(s0)
    modifies tt
    ensures t <= t' <= MAX_OUT
    ensures Step(m[..], s0, old(Cursor(s, tt[b..b + t], n, r)))
      == var c := Cursor(s', tt[b..b + t'], n', r'); if stop then Stop(c) else Go(c)
    ensures t' == 0 ==> tt[..] == old(tt[..])
    ensures forall k :: 0 <= k < b || b + 64 <= k < tt.Length ==> tt[k] == old(tt[k])
  {
    stop, s', t', n', r' := true, s, t, n, r;
    var j := m[s];
    if j == 0 {
    } else if j >= 0xC0 {
      if r.None? { r' := Some(s + 2); }
      var target := (j as nat - 0xC0) * 256 + m[s + 1] as nat;
      if target < s0 && n + 1 < 36 {
        stop, n', s' := false, n + 1, target;
      }
    } else if t + j as nat < 63 {
      CopyLabel(tt, b, t, m, s + 1, j as nat);
      stop, t', s' := false, t + j as nat + 1, s + 1 + j as nat;
    }
  }

  /** memcpy of one label, and its dot. */
  method CopyLabel(tt: array<byte>, b: nat, t: nat, m: array<byte>, from: nat, len: nat)
    requires tt != m && b + 64 <= tt.Length && t + len < 63 && from + len <= m.Length
    modifies tt
    ensures tt[b..b + t + len + 1] == old(tt[b..b + t]) + Slice(m[..], from, len) + [DOT]
    ensures forall k :: 0 <= k < b || b + 64 <= k < tt.Length ==> tt[k] == old(tt[k])
  {
    forall k | 0 <= k < len { tt[b + t + k] := m[from + k]; }
    tt[b + t + len] := DOT;
  }

  /** DecodeName (dnsd.cpp:1388-1428) on any bytes, into the buffer that starts at b: it stops and
      reads within 65 bytes of where it starts. With a text, it writes that and a NUL, at most 63
      bytes of the buffer. Without one, the closing zero lands on the byte before the buffer, and
      the buffer keeps what it held. */
  method DecodeName(tt: array<byte>, b: nat, s0: nat, m: array<byte>) returns (next: nat)
    requires tt != m && 1 <= b && b + 64 <= tt.Length && s0 + 65 <= m.Length
    modifies tt
    ensures next == DecodeNext(m[..], s0)
    ensures match DecodeText(m[..], s0)
      case Some(text) =>
        && |text| <= 62 && tt[b..b + |text|] == text && tt[b + |text|] == 0
        && forall k :: 0 <= k < b || b + 64 <= k < tt.Length ==> tt[k] == old(tt[k])
      case None => tt[..] == old(tt[..])[b - 1 := 0]
  {
    hide Step;
    var s: nat, t: nat, n: nat := s0, 0, 0;
    var r: Option<nat> := None;
    if m[s] == 0 {
      StopsAtNul(m[..], s0);
      tt[b] := 0;
      return s + 1;
    }
    var stop := false;
    while !stop
      invariant t <= MAX_OUT && Cursor(s, tt[b..b + t], n, r).InRange(s0)
      invariant Walk(m[..], s0, Start(s0)) ==
        if stop then Cursor(s, tt[b..b + t], n, r) else Walk(m[..], s0, Cursor(s, tt[b..b + t], n, r))
      invariant t == 0 ==> tt[..] == old(tt[..])
      invariant forall k :: 0 <= k < b || b + 64 <= k < tt.Length ==> tt[k] == old(tt[k])
      decreases if stop then 0 else 1, MAX_HOPS - n, MAX_OUT - t
    {
      stop, s, t, n, r := DecodeTurn(tt, b, m, s0, s, t, n, r);
    }
    tt[b + t - 1] := 0;
    next := match r { case Some(p) => p case None => s + 1 };
  }

  lemma StopsAtNul(m: seq<byte>, s0: nat)
    requires At(m, s0) == 0
    ensures DecodeText(m, s0) == Some([]) && DecodeNext(m, s0) == s0 + 1
  {
  }

  /** A pointer cycle among earlier bytes uses up the 35 hops and no more: a pointer at p that
      leads back to p, met with n hops left. */
  lemma {:induction false} CycleStops(m: seq<byte>, start: nat, p: nat, c: Cursor, n: nat)
    requires c.InRange(start) && c.s == p && c.ret.Some? && n == MAX_HOPS - c.hops
    requires p < start && p < 0x4000 && p + 1 < |m|
    requires m[p] as int == 0xC0 + p / 256 && m[p + 1] as int == p % 256
    ensures Walk(m, start, c) == c.(hops := MAX_HOPS)
    decreases n
  {
    if n > 0 {
      var to := Cursor(p, c.out, c.hops + 1, c.ret);
      assert Step(m, start, c) == Go(to);
      CycleStops(m, start, p, to, n - 1);
    }
  }
}
