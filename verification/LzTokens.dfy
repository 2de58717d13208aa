/** The packer's tokens, and how they are spread over five byte streams. */
module LzTokens {
  import opened Bytes
  import opened LzMatch

  datatype Token = Lit(c: byte) | Copy(len: nat, dist: nat)

  /** x: one byte a token. o: literals. b, w, d: the low, middle and high bytes of distances. */
  datatype Streams = Streams(x: seq<byte>, o: seq<byte>, b: seq<byte>, w: seq<byte>, d: seq<byte>) {
    function Sizes(): Cursors { Cursors(|x|, |o|, |b|, |w|, |d|) }
  }

  datatype Cursors = Cursors(x: nat, o: nat, b: nat, w: nat, d: nat)

  // ---------------------------------------------------------------- what tokens mean

  /** memcpy(s, s - dist, len) byte by byte forwards, so that a copy may read what it wrote. */
  function CopyOn(out: seq<byte>, dist: nat, len: nat): (r: seq<byte>)
    requires 0 < dist <= |out|
    ensures |r| == |out| + len && out <= r
    decreases len
  {
    if len == 0 then out else CopyOn(out + [out[|out| - dist]], dist, len - 1)
  }

  /** Tokens the packer may emit when pos bytes are out. */
  predicate Sendable(t: Token, pos: nat) {
    t.Copy? ==> 2 <= t.len <= 256 && 0 < t.dist < 0x80_0000 && t.dist <= pos && Worth(t.len, t.dist)
  }

  function Apply(out: seq<byte>, t: Token): (r: seq<byte>)
    requires Sendable(t, |out|)
    ensures out <= r
  {
    match t
    case Lit(c) => out + [c]
    case Copy(len, dist) => CopyOn(out, dist, len)
  }

  predicate AllSendable(first: byte, toks: seq<Token>)
    decreases |toks|, 0
  {
    toks == [] || (AllSendable(first, toks[..|toks| - 1]) && Sendable(toks[|toks| - 1], |Out(first, toks[..|toks| - 1])|))
  }

  /** The bytes a token list stands for; the first byte has no token. */
  function Out(first: byte, toks: seq<Token>): (r: seq<byte>)
    requires AllSendable(first, toks)
    ensures |r| > 0
    decreases |toks|, 1
  {
    if toks == [] then [first] else Apply(Out(first, toks[..|toks| - 1]), toks[|toks| - 1])
  }

  // ---------------------------------------------------------------- how they are written

  /** Whether a distance takes the middle byte only: short matches, early positions, near copies. */
  predicate Short(len: nat, pos: nat, n: nat) {
    len < MIN_SEK || pos < 0x1_0000 || n <= 0x7FFF
  }

  /** v | 0x80 on eight bits. */
  function Mark(v: nat): byte
    requires v < 0x100
  {
    if v < 0x80 then (v + 0x80) as byte else v as byte
  }

  /** LZZPk's token bytes (pkbig.cpp:189-199). */
  function Put(st: Streams, t: Token, pos: nat): Streams
    requires Sendable(t, pos)
  {
    match t
    case Lit(c) => st.(x := st.x + [0], o := st.o + [c])
    case Copy(len, n) =>
      var two := st.(x := st.x + [(len - 1) as byte], b := st.b + [(n % 0x100) as byte]);
      if len < MIN_SEK2 then two
      else if Short(len, pos, n) then two.(w := two.w + [(n / 0x100 % 0x100) as byte])
      else two.(w := two.w + [Mark(n / 0x100 % 0x100)], d := two.d + [(n / 0x8000 % 0x100) as byte])
  }

  function Lay(first: byte, toks: seq<Token>): Streams
    requires AllSendable(first, toks)
    decreases |toks|
  {
    if toks == [] then Streams([], [first], [], [], [])
    else
      var n := |toks| - 1;
      Put(Lay(first, toks[..n]), toks[n], |Out(first, toks[..n])|)
  }

  // ---------------------------------------------------------------- how they are read

  /** One turn of LZZUnpk's loop (pkbig.cpp:359-371): the token at the cursors, and the cursors after it. */
  function Take(st: Streams, c: Cursors, pos: nat): (Token, Cursors) {
    var j := At(st.x, c.x);
    if j == 0 then (Lit(At(st.o, c.o)), c.(x := c.x + 1, o := c.o + 1))
    else
      var len := j as nat + 1;
      var low := At(st.b, c.b) as nat;
      var c2 := c.(x := c.x + 1, b := c.b + 1);
      if len < MIN_SEK2 then (Copy(len, low), c2)
      else
        var n := low + 0x100 * At(st.w, c.w) as nat;
        if Short(len, pos, n) then (Copy(len, n), c2.(w := c.w + 1))
        else (Copy(len, n % 0x8000 + 0x8000 * At(st.d, c.d) as nat), c2.(w := c.w + 1, d := c.d + 1))
  }

  /** The bytes at or after the cursors begin with what t takes when it is put at pos. */
  predicate Begins(st: Streams, c: Cursors, st': Streams) {
    st.x <= st'.x && st.o <= st'.o && st.b <= st'.b && st.w <= st'.w && st.d <= st'.d && c == st.Sizes()
  }

  /** Every length and distance survives the split into bytes, whatever follows in the streams. */
  lemma TokenSurvives(st: Streams, t: Token, pos: nat, all: Streams)
    requires Sendable(t, pos)
    requires Begins(Put(st, t, pos), Put(st, t, pos).Sizes(), all)
    ensures Take(all, st.Sizes(), pos) == (t, Put(st, t, pos).Sizes())
  {
    var put, c := Put(st, t, pos), st.Sizes();
    assert At(all.x, c.x) == put.x[c.x];
    match t
    case Lit(_) =>
      assert At(all.o, c.o) == put.o[c.o];
    case Copy(len, n) =>
      assert At(all.b, c.b) == put.b[c.b];
      if len >= MIN_SEK2 {
        assert At(all.w, c.w) == put.w[c.w];
        DistanceSurvives(len, n, pos);
        if !Short(len, pos, n) {
          assert At(all.d, c.d) == put.d[c.d];
        }
      }
  }

  /** The bytes of a token: zero and the byte itself, or the length less one and the distance, low
      byte first, in one byte for a length of 2, else in two, or in three for a length of 5 and more,
      with 65536 bytes out, from more than 32767 back; then the second byte has its top bit set and
      the third counts in 32768s. */
  lemma TokenBytes(st: Streams, t: Token, pos: nat)
    requires Sendable(t, pos)
    ensures var p := Put(st, t, pos);
      match t
      case Lit(c) => p == Streams(st.x + [0], st.o + [c], st.b, st.w, st.d)
      case Copy(len, n) =>
        var second, third := p.w[|st.w|..], p.d[|st.d|..];
        && (exists one, low: byte :: p.x == st.x + [one] && one as int == len - 1 && p.b == st.b + [low] && low as int == n % 256)
        && p.o == st.o && st.w <= p.w && st.d <= p.d
        && |second| == (if len == 2 then 0 else 1)
        && |third| == (if len >= 5 && pos >= 65_536 && n > 32_767 then 1 else 0)
        && (|third| == 1 ==> second[0] >= 128 && n == n % 256 + 256 * (second[0] - 128) as nat + 32_768 * third[0] as nat)
        && (|second| == 1 && |third| == 0 ==> n == n % 256 + 256 * second[0] as nat)
        && (|second| == 0 ==> n < 256)
  {
    hide Mark;
    if t.Copy? {
      DistanceBytes(t.dist);
      var one, low := (t.len - 1) as byte, (t.dist % 0x100) as byte;
      assert Put(st, t, pos).x == st.x + [one] && Put(st, t, pos).b == st.b + [low];
    }
  }

  lemma DistanceBytes(n: nat)
    requires n < 0x80_0000
    ensures n < 0x1_0000 ==> n == n % 256 + 256 * (n / 0x100 % 0x100)
    ensures Mark(n / 0x100 % 0x100) >= 128
    ensures n == n % 256 + 256 * (Mark(n / 0x100 % 0x100) - 128) as nat + 32_768 * (n / 0x8000 % 0x100)
  {
    var h := n / 0x100;
    assert n / 0x8000 == h / 0x80 && h < 0x8000;
    assert h % 0x100 == if h % 0x100 < 0x80 then h % 0x80 else h % 0x80 + 0x80;
  }

  /** The marker bit costs the middle byte its top bit, which the third byte carries. */
  lemma MarkMeaning(mid: nat, low: nat)
    requires low < 0x100
    ensures var seen := low + 0x100 * Mark(mid % 0x100) as nat;
      seen > 0x7FFF && seen % 0x8000 == low + 0x100 * (mid % 0x80)
  {
    var m := mid % 0x100;
    assert m % 0x80 == mid % 0x80;
    assert Mark(m) as nat == 0x80 + m % 0x80;
  }

  lemma DistanceSurvives(len: nat, n: nat, pos: nat)
    requires MIN_SEK2 <= len && Sendable(Copy(len, n), pos)
    ensures var low, mid := n % 0x100, n / 0x100 % 0x100;
      if Short(len, pos, n) then low + 0x100 * mid == n
      else
        var seen := low + 0x100 * Mark(mid) as nat;
        seen > 0x7FFF && seen % 0x8000 + 0x8000 * (n / 0x8000 % 0x100) == n
  {
    var mid := n / 0x100;
    assert n == n % 0x100 + 0x100 * mid;
    if !Short(len, pos, n) {
      assert n / 0x8000 == mid / 0x80;
      MarkMeaning(mid, n % 0x100);
    }
  }

  lemma {:induction false} LayGrows(first: byte, toks: seq<Token>, k: nat)
    requires AllSendable(first, toks) && k <= |toks|
    ensures AllSendable(first, toks[..k])
    ensures Begins(Lay(first, toks[..k]), Lay(first, toks[..k]).Sizes(), Lay(first, toks))
    decreases |toks|
  {
    if k == |toks| {
      assert toks[..k] == toks;
    } else {
      var n := |toks| - 1;
      LayGrows(first, toks[..n], k);
      assert toks[..n][..k] == toks[..k];
      PutGrows(Lay(first, toks[..n]), toks[n], |Out(first, toks[..n])|);
    }
  }

  lemma PutGrows(st: Streams, t: Token, pos: nat)
    requires Sendable(t, pos)
    ensures Begins(st, st.Sizes(), Put(st, t, pos))
  {
  }

  /** Encoder and decoder stay in step: at token k the decoder's five cursors are the sizes the
      encoder's streams had, and it reads token k. */
  lemma InStep(first: byte, toks: seq<Token>, k: nat)
    requires AllSendable(first, toks) && k < |toks|
    ensures AllSendable(first, toks[..k]) && AllSendable(first, toks[..k + 1])
    ensures Take(Lay(first, toks), Lay(first, toks[..k]).Sizes(), |Out(first, toks[..k])|)
      == (toks[k], Lay(first, toks[..k + 1]).Sizes())
    ensures Sendable(toks[k], |Out(first, toks[..k])|)
    ensures Out(first, toks[..k + 1]) == Apply(Out(first, toks[..k]), toks[k])
  {
    hide Put, Take, Apply;
    LayGrows(first, toks, k);
    LayGrows(first, toks, k + 1);
    assert toks[..k + 1][..k] == toks[..k];
    TokenSurvives(Lay(first, toks[..k]), toks[k], |Out(first, toks[..k])|, Lay(first, toks));
  }

  /** A copy whose bytes repeat the input extends the copied input. */
  lemma {:induction false} CopyRepeats(s: seq<byte>, pos: nat, b: nat, n: nat)
    requires Repeats(s, pos, b, n)
    ensures CopyOn(s[..pos], n, b) == s[..pos + b]
    decreases b
  {
    if b > 0 {
      assert s[..pos] + [s[..pos][pos - n]] == s[..pos + 1] by {
        assert s[pos] == s[pos - n];
      }
      CopyRepeats(s, pos + 1, b - 1, n);
    }
  }
}
