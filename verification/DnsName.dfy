/** Domain names on the wire: ConvertDomain compresses, DecodeName follows pointers (RFC 1035 section 4.1.4). */
module DnsName {
  import opened Bytes

  // ---------------------------------------------------------------- dotted names

  /** The first dot at or after k, or the end of the text. */
  function NextDot(text: seq<byte>, k: nat): (e: nat)
    requires k <= |text|
    ensures k <= e <= |text|
    ensures forall j :: k <= j < e ==> text[j] != DOT
    ensures e < |text| ==> text[e] == DOT
    decreases |text| - k
  {
    if k == |text| || text[k] == DOT then k else NextDot(text, k + 1)
  }

  lemma NextDotIs(text: seq<byte>, k: nat, e: nat)
    requires k <= e <= |text| && (e < |text| ==> text[e] == DOT)
    requires forall j :: k <= j < e ==> text[j] != DOT
    ensures NextDot(text, k) == e
  {
    assert !(NextDot(text, k) < e) && !(e < NextDot(text, k));
  }

  predicate LabelStart(text: seq<byte>, k: nat)
    requires k <= |text|
  {
    k == 0 || text[k - 1] == DOT
  }

  /** Labels of 1 to 63 bytes, none holding a NUL, no trailing dot; the empty text is the root. */
  predicate ValidName(text: seq<byte>) {
    text != [] ==>
      && 0 !in text
      && forall k :: 0 <= k <= |text| && LabelStart(text, k) ==> 1 <= NextDot(text, k) - k <= 63
  }

  /** Byte k of the uncompressed form: the byte before each label holds the label's length. */
  function WireByte(text: seq<byte>, k: nat): byte
    requires text != [] && ValidName(text) && k <= |text| + 1
  {
    if k == |text| + 1 then 0
    else if LabelStart(text, k) then (NextDot(text, k) - k) as byte
    else text[k - 1]
  }

  /** The uncompressed form of the labels from off on. */
  function Wire(text: seq<byte>, off: nat): (w: seq<byte>)
    requires text != [] && ValidName(text) && off <= |text| + 1
    ensures |w| == |text| + 2 - off
    decreases |text| + 1 - off
  {
    [WireByte(text, off)] + if off == |text| + 1 then [] else Wire(text, off + 1)
  }

  lemma {:induction false} WireAt(text: seq<byte>, off: nat)
    requires text != [] && ValidName(text) && off <= |text| + 1
    ensures forall k :: 0 <= k < |text| + 2 - off ==> Wire(text, off)[k] == WireByte(text, off + k)
    decreases |text| + 1 - off
  {
    hide WireByte;
    if off <= |text| {
      WireAt(text, off + 1);
      assert Wire(text, off) == [WireByte(text, off)] + Wire(text, off + 1);
    }
  }

  lemma WireIsCString(text: seq<byte>, off: nat)
    requires text != [] && ValidName(text) && off <= |text|
    ensures IsCString(Wire(text, off))
  {
    WireAt(text, off);
    forall k | 0 <= k <= |text| ensures WireByte(text, k) != 0 {
      assert !LabelStart(text, k) ==> text[k - 1] in text;
    }
  }

  lemma {:induction false} WireTail(text: seq<byte>, off: nat, to: nat)
    requires text != [] && ValidName(text) && off <= to <= |text| + 1
    ensures Wire(text, off)[to - off..] == Wire(text, to)
    decreases |text| + 1 - off
  {
    hide WireByte;
    if off < to {
      WireTail(text, off + 1, to);
      ConsDrop(WireByte(text, off), Wire(text, off + 1), to - off - 1);
    }
  }

  lemma WireEnd(text: seq<byte>)
    requires text != [] && ValidName(text)
    ensures Wire(text, |text| + 1) == [0]
  {
  }

  /** A label on the wire is its length and its bytes. */
  lemma WireLabel(text: seq<byte>, off: nat)
    requires text != [] && ValidName(text) && off <= |text| && LabelStart(text, off)
    ensures var k := NextDot(text, off);
      Wire(text, off)[..k - off + 1] == [(k - off) as byte] + text[off..k]
  {
    WireAt(text, off);
    var k := NextDot(text, off);
    forall j | 1 <= j < k - off + 1 ensures Wire(text, off)[j] == text[off..k][j - 1] {
      assert WireByte(text, off + j) == text[off + j - 1];
    }
  }

  // ---------------------------------------------------------------- compression

  /** The earlier bytes spell w, letter case aside, from r on. */
  predicate MatchAt(m: seq<byte>, r: nat, w: seq<byte>) {
    r + |w| <= |m| && EqNoCase(m[r..r + |w|], w)
  }

  function FirstMatch(prefix: seq<byte>, w: seq<byte>, r: nat): (f: Option<nat>)
    ensures f.Some? ==> r <= f.value < 256 && MatchAt(prefix, f.value, w)
    decreases 256 - r
  {
    if r >= 256 || r >= |prefix| then None
    else if MatchAt(prefix, r, w) then Some(r)
    else FirstMatch(prefix, w, r + 1)
  }

  /** What is written for the labels from off on: a pointer to the first place in the first 256
      bytes that spells them all, else one label and then the rest. A function of earlier bytes only. */
  function LabelBytes(prefix: seq<byte>, text: seq<byte>, off: nat): (b: seq<byte>)
    requires text != [] && ValidName(text) && off <= |text| + 1
    requires off <= |text| ==> LabelStart(text, off)
    ensures 1 <= |b| <= |text| + 2 - off
    decreases |text| + 1 - off
  {
    if off == |text| + 1 then [0]
    else match FirstMatch(prefix, Wire(text, off), 12)
      case Some(r) => [0xC0, r as byte]
      case None =>
        var k := NextDot(text, off);
        [(k - off) as byte] + text[off..k] + LabelBytes(prefix, text, k + 1)
  }

  function NameBytes(prefix: seq<byte>, text: seq<byte>): (b: seq<byte>)
    requires ValidName(text)
    ensures 1 <= |b| <= |text| + 2
  {
    if text == [] then [0] else LabelBytes(prefix, text, 0)
  }

  lemma {:induction false} FirstMatchIs(prefix: seq<byte>, w: seq<byte>, from: nat, r: nat)
    requires from <= r
    requires forall q: nat :: from <= q < r && q < 256 ==> !MatchAt(prefix, q, w)
    ensures r >= 256 || r + |w| > |prefix| ==> FirstMatch(prefix, w, from).None?
    ensures r < 256 && r < |prefix| && MatchAt(prefix, r, w) ==> FirstMatch(prefix, w, from) == Some(r)
    decreases if from < r then r - from else 0, |prefix| - from
  {
    if from < 256 && from < |prefix| {
      if from < r {
        assert !MatchAt(prefix, from, w);
        FirstMatchIs(prefix, w, from + 1, r);
      } else if r + |w| > |prefix| {
        FirstMatchIs(prefix, w, from + 1, r + 1);
      }
    }
  }

  /** A match that starts before s cannot reach into the name being written: its NUL would have
      to be the name's own. */
  lemma MatchLiesBefore(m: seq<byte>, r: nat, t: nat, s: nat, w: seq<byte>)
    requires IsCString(w) && r < s && t <= s && s + |w| <= |m|
    requires forall q :: t <= q < s + |w| - 1 ==> m[q] != 0
    requires EqNoCase(m[r..r + |w|], w)
    ensures r + |w| <= t
  {
    var e := |w| - 1;
    assert m[r..r + |w|][e] == m[r + e];
    assert Lower(m[r + e]) == Lower(w[e]) == 0;
  }

  /** ConvertDomain (dnsd.cpp:1194-1233): m[t0 + 1..] holds the NUL-terminated text; the name is
      rewritten in place from t0 and the position after it returned. */
  method ConvertDomain(m: array<byte>, t0: nat, ghost text: seq<byte>) returns (next: nat)
    requires 12 <= t0 && t0 + |text| + 2 <= m.Length
    requires ValidName(text)
    requires m[t0 + 1..t0 + 1 + |text|] == text && m[t0 + 1 + |text|] == 0
    modifies m
    ensures t0 < next <= t0 + |text| + 2
    ensures m[..next] == old(m[..t0]) + NameBytes(old(m[..t0]), text)
    ensures m[t0 + |text| + 2..] == old(m[t0 + |text| + 2..])
  {
    ghost var P := m[..t0];
    forall q | t0 < q <= t0 + |text| ensures m[q] == text[q - t0 - 1] {
      assert m[t0 + 1..t0 + 1 + |text|][q - t0 - 1] == m[q];
    }
    if m[t0 + 1] == 0 {
      assert text == [];
      m[t0] := 0;
      assert m[..t0 + 1] == P + [0];
      return t0 + 1;
    }
    hide *;
    var end := LabelLengths(m, t0, text);
    assert m[..t0] == P;
    assert m[end..] == old(m[t0 + |text| + 2..]);
    next := Compress(m, t0, end, text);
  }

  lemma WireIs(text: seq<byte>, b: seq<byte>)
    requires text != [] && ValidName(text) && |b| == |text| + 2
    requires forall k :: 0 <= k < |b| ==> b[k] == WireByte(text, k)
    ensures b == Wire(text, 0)
  {
    WireAt(text, 0);
  }

  /** The first loop: overwrite the byte before each label with the label's length. */
  method LabelLengths(m: array<byte>, t0: nat, ghost text: seq<byte>) returns (end: nat)
    requires t0 + |text| + 2 <= m.Length
    requires text != [] && ValidName(text)
    requires forall q :: t0 < q <= t0 + |text| ==> m[q] == text[q - t0 - 1]
    requires m[t0 + 1 + |text|] == 0
    modifies m
    ensures end == t0 + |text| + 2
    ensures m[t0..end] == Wire(text, 0)
    ensures forall q :: 0 <= q < t0 || end <= q < m.Length ==> m[q] == old(m[q])
  {
    hide NextDot;
    hide Wire;
    ghost var n := |text|;
    ghost var off := 0;
    var t, i := t0, 1;
    while m[t + i] != 0
      invariant t == t0 + off && 1 <= i && off + i <= n + 1
      invariant LabelStart(text, off)
      invariant forall k :: off <= k < off + i - 1 ==> text[k] != DOT
      invariant forall q :: t0 <= q < t ==> m[q] == WireByte(text, q - t0)
      invariant forall q :: t < q <= t0 + n ==> m[q] == text[q - t0 - 1]
      invariant m[t0 + n + 1] == 0
      invariant forall q :: 0 <= q < t0 || t0 + n + 2 <= q < m.Length ==> m[q] == old(m[q])
      decreases n + 1 - off - i
    {
      if m[t + i] == DOT {
        NextDotIs(text, off, off + i - 1);
        m[t] := (i - 1) as byte;
        t := t + i;
        off := off + i;
        i := 0;
      }
      i := i + 1;
    }
    assert forall q :: t < q <= t0 + n ==> m[q] in text;
    NextDotIs(text, off, n);
    m[t] := (i - 1) as byte;
    end := t + i + 1;
    WireIs(text, m[t0..end]);
  }

  /** The search behind one suffix: r runs over every earlier byte, not only label starts. */
  method FindEarlier(m: array<byte>, t0: nat, s: nat, ghost w: seq<byte>)
    returns (f: Option<nat>)
    requires 12 <= t0 <= s && s + |w| <= m.Length
    requires IsCString(w) && m[s..s + |w|] == w
    requires forall q :: t0 <= q < s + |w| - 1 ==> m[q] != 0
    ensures f == FirstMatch(m[..t0], w, 12)
  {
    ghost var P := m[..t0];
    var r := 12;
    while r < s && r < 256
      invariant 12 <= r <= s && r <= 256
      invariant forall q: nat :: 12 <= q < r ==> !MatchAt(P, q, w)
    {
      StrCaseEqMeaning(m[..], r, s, w);
      assert r + |w| <= t0 ==> P[r..r + |w|] == m[..][r..r + |w|];
      if StrCaseEq(m[..], r, s) {
        MatchLiesBefore(m[..], r, t0, s, w);
        FirstMatchIs(P, w, 12, r);
        return Some(r);
      }
      r := r + 1;
    }
    FirstMatchIs(P, w, 12, r);
    return None;
  }

  lemma LabelBytesEnd(prefix: seq<byte>, text: seq<byte>)
    requires text != [] && ValidName(text)
    ensures LabelBytes(prefix, text, |text| + 1) == [0]
  {
  }

  lemma LabelBytesPointer(prefix: seq<byte>, text: seq<byte>, off: nat, r: nat)
    requires text != [] && ValidName(text) && off <= |text| && LabelStart(text, off)
    requires FirstMatch(prefix, Wire(text, off), 12) == Some(r)
    ensures r < 256 && LabelBytes(prefix, text, off) == [0xC0, r as byte]
  {
    hide Wire;
    hide FirstMatch;
    hide NextDot;
    hide ValidName;
    hide MatchAt;
  }

  lemma LabelBytesLabel(prefix: seq<byte>, text: seq<byte>, off: nat)
    requires text != [] && ValidName(text) && off <= |text| && LabelStart(text, off)
    requires FirstMatch(prefix, Wire(text, off), 12).None?
    ensures LabelBytes(prefix, text, off) ==
      [(NextDot(text, off) - off) as byte] + text[off..NextDot(text, off)] + LabelBytes(prefix, text, NextDot(text, off) + 1)
  {
    hide Wire;
    hide FirstMatch;
    hide NextDot;
    hide MatchAt;
    var all := LabelBytes(prefix, text, off);
  }

  lemma WireHead(text: seq<byte>, off: nat)
    requires text != [] && ValidName(text) && off <= |text| && LabelStart(text, off)
    ensures var b := Wire(text, 0); var k := NextDot(text, off);
      && b[off..] == Wire(text, off) && IsCString(b[off..])
      && b[off] as int == k - off
      && b[..k + 1] == b[..off] + ([(k - off) as byte] + text[off..k])
  {
    hide Wire;
    WireTail(text, 0, off);
    WireIsCString(text, off);
    WireLabel(text, off);
    var b, k := Wire(text, 0), NextDot(text, off);
    TakeSplit(b, off, k - off + 1);
  }

  lemma SearchStep(prefix: seq<byte>, text: seq<byte>, off: nat)
    requires text != [] && ValidName(text) && off <= |text| && LabelStart(text, off)
    ensures var b := Wire(text, 0); var next := off + b[off] as nat + 1;
      && b[off..] == Wire(text, off) && IsCString(b[off..])
      && off + 1 < next <= |text| + 1 && (next <= |text| ==> LabelStart(text, next))
      && (FirstMatch(prefix, b[off..], 12).None? ==>
        b[..next] + LabelBytes(prefix, text, next) == b[..off] + LabelBytes(prefix, text, off))
  {
    hide Wire;
    hide LabelBytes;
    hide FirstMatch;
    WireHead(text, off);
    var b, k := Wire(text, 0), NextDot(text, off);
    if FirstMatch(prefix, b[off..], 12).None? {
      LabelBytesLabel(prefix, text, off);
      Regroup(b[..off], [(k - off) as byte] + text[off..k], LabelBytes(prefix, text, k + 1));
    }
  }

  /** The second loop, up to the first suffix that is already in the message. */
  method FindSuffix(m: array<byte>, t0: nat, end: nat, ghost text: seq<byte>)
    returns (s: nat, f: Option<nat>)
    requires 12 <= t0 && end == t0 + |text| + 2 <= m.Length
    requires text != [] && ValidName(text) && m[t0..end] == Wire(text, 0)
    ensures t0 <= s < end
    ensures f.Some? ==> s + 1 < end && f.value < 256
    ensures m[t0..s] + (if f.Some? then [0xC0, f.value as byte] else [0]) == NameBytes(m[..t0], text)
    ensures f.None? ==> s == end - 1 && m[s] == 0
  {
    hide Wire;
    hide LabelBytes;
    hide FirstMatch;
    hide ValidName;
    hide WireByte;
    hide NextDot;
    hide EqNoCase;
    ghost var P, b := m[..t0], m[t0..end];
    WireIsCString(text, 0);
    assert forall q :: t0 <= q < end ==> m[q] == b[q - t0];
    ghost var off := 0;
    s := t0;
    f := None;
    while m[s] != 0
      invariant s == t0 + off && off <= |text| + 1 && f == None
      invariant off <= |text| ==> LabelStart(text, off)
      invariant b[..off] + LabelBytes(P, text, off) == NameBytes(P, text)
      decreases end - s
    {
      SearchStep(P, text, off);
      assert m[s..end] == b[off..];
      f := FindEarlier(m, t0, s, b[off..]);
      if f.Some? {
        LabelBytesPointer(P, text, off, f.value);
        break;
      }
      assert m[s] == b[off];
      off := off + b[off] as nat + 1;
      s := s + m[s] as nat + 1;
    }
    assert m[t0..s] == b[..off];
    LabelBytesEnd(P, text);
  }

  /** Replace the longest suffix already in the message by a pointer. */
  method Compress(m: array<byte>, t0: nat, end: nat, ghost text: seq<byte>) returns (next: nat)
    requires 12 <= t0 && end == t0 + |text| + 2 <= m.Length
    requires text != [] && ValidName(text) && m[t0..end] == Wire(text, 0)
    modifies m
    ensures t0 < next <= end
    ensures m[..next] == old(m[..t0]) + NameBytes(old(m[..t0]), text)
    ensures m[end..] == old(m[end..])
  {
    var s, f := FindSuffix(m, t0, end, text);
    hide *;
    ghost var P, labels := m[..t0], m[t0..s];
    assert m[..s] == P + labels;
    if f.Some? {
      Regroup(P, labels, [0xC0, f.value as byte]);
      m[s], m[s + 1] := 0xC0, f.value as byte;
      next := s + 2;
      assert m[..next] == m[..s] + [0xC0, f.value as byte];
    } else {
      Regroup(P, labels, [0]);
      next := end;
      assert m[..next] == m[..s] + [0];
    }
  }
}
