/** What ConvertDomain writes, DecodeName reads back (RFC 1035 section 4.1.4). */
module DnsRoundTrip {
  import opened Bytes
  import opened DnsName
  import opened DnsDecode

  const MAX_TEXT := 62

  /** Every place of prefix that spells a suffix of text still spells it in m. */
  ghost predicate Carries(prefix: seq<byte>, m: seq<byte>, text: seq<byte>)
    requires text != [] && ValidName(text)
  {
    forall r: nat, off: nat ::
      off <= |text| && LabelStart(text, off) && MatchAt(prefix, r, Wire(text, off)) ==> MatchAt(m, r, Wire(text, off))
  }

  /** The labels before off have been copied, letter case aside. */
  predicate Copied(out: seq<byte>, text: seq<byte>, off: nat) {
    |out| == off <= |text| + 1 && EqNoCase(out, (text + [DOT])[..off])
  }

  /** One label read in place. */
  lemma LabelTurn(m: seq<byte>, start: nat, text: seq<byte>, off: nat, c: Cursor)
    requires text != [] && ValidName(text) && |text| <= MAX_TEXT && off <= |text| && LabelStart(text, off)
    requires c.InRange(start) && Copied(c.out, text, off)
    requires c.s + NextDot(text, off) - off + 1 <= |m|
    requires EqNoCase(m[c.s..c.s + NextDot(text, off) - off + 1], [(NextDot(text, off) - off) as byte] + text[off..NextDot(text, off)])
    ensures var k := NextDot(text, off); var e := Step(m, start, c);
      && e.Go? && e.to.s == c.s + k - off + 1 && e.to.hops == c.hops && e.to.ret == c.ret
      && Copied(e.to.out, text, k + 1)
  {
    var k := NextDot(text, off);
    var len := k - off;
    var seen := m[c.s..c.s + len + 1];
    assert seen[0] == m[c.s] && Lower(seen[0]) == Lower(len as byte);
    assert m[c.s] as int == len;
    var out := c.out + Slice(m, c.s + 1, len) + [DOT];
    forall q | 0 <= q < k + 1 ensures Lower(out[q]) == Lower((text + [DOT])[..k + 1][q]) {
      if q < off {
        assert c.out[q] == out[q] && (text + [DOT])[..off][q] == (text + [DOT])[q];
      } else if q < k {
        assert out[q] == seen[q - off + 1] && text[off..k][q - off] == text[q];
      }
    }
  }

  /** Labels spelled out, letter case aside, down to the root: read without following a pointer. */
  lemma {:induction false} WalkLabels(m: seq<byte>, start: nat, text: seq<byte>, off: nat, c: Cursor)
    requires text != [] && ValidName(text) && |text| <= MAX_TEXT && off <= |text| && LabelStart(text, off)
    requires c.InRange(start) && Copied(c.out, text, off)
    requires MatchAt(m, c.s, Wire(text, off))
    ensures var e := Walk(m, start, c);
      && e.s == c.s + |text| + 1 - off && e.ret == c.ret
      && Copied(e.out, text, |text| + 1)
    decreases |text| - off
  {
    hide Wire;
    hide ValidName;
    hide EqNoCase;
    var k := NextDot(text, off);
    LabelOfMatch(m, c.s, text, off);
    LabelTurn(m, start, text, off, c);
    var to := Step(m, start, c).to;
    if k == |text| {
      assert Step(m, start, to) == Stop(to);
    } else {
      WalkLabels(m, start, text, k + 1, to);
    }
  }

  /** A match of a suffix begins with a match of its first label, and goes on with the rest. */
  lemma LabelOfMatch(m: seq<byte>, s: nat, text: seq<byte>, off: nat)
    requires text != [] && ValidName(text) && off <= |text| && LabelStart(text, off)
    requires MatchAt(m, s, Wire(text, off))
    ensures var k := NextDot(text, off);
      && s + k - off + 1 < |m|
      && EqNoCase(m[s..s + k - off + 1], [(k - off) as byte] + text[off..k])
      && (k < |text| ==> MatchAt(m, s + k - off + 1, Wire(text, k + 1)))
      && (k == |text| ==> m[s + k - off + 1] == 0)
  {
    hide Wire;
    var k := NextDot(text, off);
    var w := Wire(text, off);
    var seen := m[s..s + |w|];
    WireLabel(text, off);
    WireTail(text, off, k + 1);
    WireEnd(text);
    EqNoCaseSlice(seen, w, 0, k - off + 1);
    EqNoCaseSlice(seen, w, k - off + 1, |w|);
    SubSlice(m, s, |w|, 0, k - off + 1);
    SubSlice(m, s, |w|, k - off + 1, |w|);
    assert w[0..k - off + 1] == w[..k - off + 1] && w[k - off + 1..|w|] == w[k - off + 1..];
  }

  lemma PointerTurn(m: seq<byte>, start: nat, c: Cursor, r: nat)
    requires c.InRange(start) && c.hops == 0 && c.ret.None?
    requires c.s + 1 < |m| && m[c.s] == 0xC0 && r < 256 && m[c.s + 1] as int == r && r < start
    ensures Cursor(r, c.out, 1, Some(c.s + 2)).InRange(start)
    ensures Walk(m, start, c) == Walk(m, start, Cursor(r, c.out, 1, Some(c.s + 2)))
  {
  }

  lemma WalkGoes(m: seq<byte>, start: nat, c: Cursor)
    requires c.InRange(start) && Step(m, start, c).Go?
    ensures Walk(m, start, c) == Walk(m, start, Step(m, start, c).to)
  {
    hide Step;
  }

  lemma WalkStops(m: seq<byte>, start: nat, c: Cursor)
    requires c.InRange(start) && At(m, c.s) == 0
    ensures Walk(m, start, c) == c
  {
  }

  /** A pointer at the cursor, and what it points at. */
  lemma WalkPointer(m: seq<byte>, start: nat, text: seq<byte>, off: nat, c: Cursor, r: nat)
    requires text != [] && ValidName(text) && |text| <= MAX_TEXT && off <= |text| && LabelStart(text, off)
    requires c.InRange(start) && Copied(c.out, text, off) && c.hops == 0 && c.ret.None?
    requires r < 256 && r < start && MatchAt(m, r, Wire(text, off))
    requires c.s + 2 <= |m| && m[c.s..c.s + 2] == [0xC0, r as byte]
    ensures var e := Walk(m, start, c);
      Copied(e.out, text, |text| + 1) && e.ret == Some(c.s + 2)
  {
    hide *;
    assert m[c.s] == m[c.s..c.s + 2][0] && m[c.s + 1] == m[c.s..c.s + 2][1];
    PointerTurn(m, start, c, r);
    WalkLabels(m, start, text, off, Cursor(r, c.out, 1, Some(c.s + 2)));
  }

  /** The name as written, from label off on: labels up to the pointer, then what it points at. */
  lemma {:induction false} WalkName(m: seq<byte>, prefix: seq<byte>, text: seq<byte>, off: nat, c: Cursor)
    requires text != [] && ValidName(text) && |text| <= MAX_TEXT && off <= |text| + 1
    requires off <= |text| ==> LabelStart(text, off)
    requires c.InRange(|prefix|) && Copied(c.out, text, off) && c.hops == 0 && c.ret.None?
    requires Carries(prefix, m, text)
    requires c.s + |LabelBytes(prefix, text, off)| <= |m|
    requires m[c.s..c.s + |LabelBytes(prefix, text, off)|] == LabelBytes(prefix, text, off)
    ensures var e := Walk(m, |prefix|, c);
      && Copied(e.out, text, |text| + 1)
      && (match e.ret case Some(r) => r case None => e.s + 1) == c.s + |LabelBytes(prefix, text, off)|
    decreases |text| + 1 - off
  {
    hide Wire, ValidName, EqNoCase, FirstMatch, NextDot, Step, Walk, LabelBytes, Copied;
    var start, b := |prefix|, LabelBytes(prefix, text, off);
    if off == |text| + 1 {
      LabelBytesEnd(prefix, text);
      assert m[c.s] == m[c.s..c.s + |b|][0];
      WalkStops(m, start, c);
      return;
    }
    match FirstMatch(prefix, Wire(text, off), 12)
    case Some(r) =>
      LabelBytesPointer(prefix, text, off, r);
      assert MatchAt(prefix, r, Wire(text, off)) && MatchAt(m, r, Wire(text, off));
      WalkPointer(m, start, text, off, c, r);
    case None =>
      hide Carries, MatchAt;
      LabelBytesLabel(prefix, text, off);
      var k := NextDot(text, off);
      var head := [(k - off) as byte] + text[off..k];
      SplitSlice(m, c.s, head, LabelBytes(prefix, text, k + 1));
      EqNoCaseReflexive(head);
      LabelTurn(m, start, text, off, c);
      WalkGoes(m, start, c);
      WalkName(m, prefix, text, k + 1, Step(m, start, c).to);
  }

  /** RFC 1035 section 4.1.4: a name written by ConvertDomain behind any bytes reads back equal up
      to letter case, and the reader stops where the writer did. */
  lemma NameReadsBack(m: seq<byte>, prefix: seq<byte>, text: seq<byte>)
    requires ValidName(text) && |text| <= MAX_TEXT
    requires text != [] ==> Carries(prefix, m, text)
    requires |prefix| + |NameBytes(prefix, text)| <= |m|
    requires m[|prefix|..|prefix| + |NameBytes(prefix, text)|] == NameBytes(prefix, text)
    ensures DecodeText(m, |prefix|).Some? && EqNoCase(DecodeText(m, |prefix|).value, text)
    ensures DecodeNext(m, |prefix|) == |prefix| + |NameBytes(prefix, text)|
  {
    var start, b := |prefix|, NameBytes(prefix, text);
    assert m[start] == m[start..start + |b|][0];
    if text == [] {
      StopsAtNul(m, start);
    } else {
      WalkName(m, prefix, text, 0, Start(start));
      var e := Walk(m, start, Start(start));
      EqNoCaseSlice(e.out, (text + [DOT])[..|text| + 1], 0, |text|);
      assert e.out[0..|text|] == e.out[..|e.out| - 1];
      assert (text + [DOT])[..|text| + 1][0..|text|] == text;
    }
  }

  /** Bytes appended behind a name change nothing it can match. */
  lemma AppendCarries(prefix: seq<byte>, m: seq<byte>, text: seq<byte>)
    requires text != [] && ValidName(text) && prefix <= m
    ensures Carries(prefix, m, text)
  {
    hide Wire;
    hide ValidName;
    hide EqNoCase;
    forall r: nat, off: nat | off <= |text| && LabelStart(text, off) && MatchAt(prefix, r, Wire(text, off))
      ensures MatchAt(m, r, Wire(text, off))
    {
      assert m[r..r + |Wire(text, off)|] == prefix[r..r + |Wire(text, off)|];
    }
  }

  lemma NameRoundTrip(prefix: seq<byte>, text: seq<byte>, tail: seq<byte>)
    requires ValidName(text) && |text| <= MAX_TEXT
    ensures var m := prefix + NameBytes(prefix, text) + tail;
      && DecodeText(m, |prefix|).Some? && EqNoCase(DecodeText(m, |prefix|).value, text)
      && DecodeNext(m, |prefix|) == |prefix| + |NameBytes(prefix, text)|
  {
    var b := NameBytes(prefix, text);
    var m := prefix + b + tail;
    assert m == prefix + (b + tail);
    assert m[|prefix|..|prefix| + |b|] == b;
    if text != [] { AppendCarries(prefix, m, text); }
    NameReadsBack(m, prefix, text);
  }

  /** What ends a name: a pointer or the root's zero byte. */
  function Closing(f: Option<nat>): seq<byte>
    requires f.Some? ==> f.value < 256
  {
    match f
    case Some(r) => [0xC0, r as byte]
    case None => [0]
  }

  /** The compressor cuts at the longest suffix it could find: off is where the pointer (or, with
      no match, the root) takes over, its target lies wholly before the name and below 256, and no
      longer suffix occurs anywhere in bytes 12 to 255. */
  lemma {:induction false} PointerIsLongestSuffix(prefix: seq<byte>, text: seq<byte>, from: nat) returns (off: nat, f: Option<nat>)
    requires text != [] && ValidName(text) && from <= |text| && LabelStart(text, from)
    ensures from <= off <= |text| + 1 && (off <= |text| ==> LabelStart(text, off))
    ensures f.Some? ==> f.value < 256
    ensures LabelBytes(prefix, text, from) ==
      Wire(text, from)[..off - from] + Closing(f)
    ensures match f
      case Some(r) => off <= |text| && 12 <= r < 256 && r + |Wire(text, off)| <= |prefix| && MatchAt(prefix, r, Wire(text, off))
      case None => off == |text| + 1
    ensures forall o: nat, q: nat :: from <= o < off && LabelStart(text, o) && 12 <= q < 256 ==>
      !MatchAt(prefix, q, Wire(text, o))
    decreases |text| - from
  {
    hide Wire;
    hide NextDot;
    hide ValidName;
    hide LabelBytes;
    hide FirstMatch;
    hide EqNoCase;
    f := FirstMatch(prefix, Wire(text, from), 12);
    off := from;
    if f.Some? {
      LabelBytesPointer(prefix, text, from, f.value);
    } else {
      LabelBytesLabel(prefix, text, from);
      NoMatchAnywhere(prefix, Wire(text, from), 12);
      var k := NextDot(text, from);
      WireLabel(text, from);
      WireTail(text, from, k + 1);
      if k == |text| {
        off := k + 1;
        f := None;
        LabelBytesEnd(prefix, text);
      } else {
        off, f := PointerIsLongestSuffix(prefix, text, k + 1);
      }
      Regroup(Wire(text, from)[..k + 1 - from], Wire(text, k + 1)[..off - (k + 1)], Closing(f));
      TakeSplit(Wire(text, from), k + 1 - from, off - (k + 1));
      forall o: nat, q: nat | from <= o < off && LabelStart(text, o) && 12 <= q < 256
        ensures !MatchAt(prefix, q, Wire(text, o))
      {
      }
    }
  }

  lemma {:induction false} NoMatchAnywhere(prefix: seq<byte>, w: seq<byte>, from: nat)
    requires w != [] && FirstMatch(prefix, w, from).None?
    ensures forall q: nat :: from <= q < 256 ==> !MatchAt(prefix, q, w)
    decreases 256 - from
  {
    if from < 256 && from < |prefix| {
      NoMatchAnywhere(prefix, w, from + 1);
    }
  }
}
