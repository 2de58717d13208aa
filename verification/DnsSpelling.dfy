/** What a message spells, by RFC 1035 section 4.1.4 alone, and that DecodeName reads it: names of any
    server, with pointers to any earlier byte, behind labels and behind pointers. */
module DnsSpelling {
  import opened Bytes
  import opened DnsDecode

  // ---------------------------------------------------------------- what bytes spell

  /** Two bytes at p that point at q. */
  predicate PointsAt(m: seq<byte>, p: nat, q: nat) {
    p + 1 < |m| && q < 0x4000 && m[p] as int == 0xC0 + q / 0x100 && m[p + 1] as int == q % 0x100
  }

  /** A length and a label of that length. */
  predicate LabelAt(m: seq<byte>, p: nat, one: seq<byte>) {
    1 <= |one| <= 63 && p + 1 + |one| <= |m| && m[p] as int == |one| && m[p + 1..p + 1 + |one|] == one
  }

  /** From p on the message spells the labels, through at most so many pointers, each to a byte
      before start. */
  ghost predicate Spells(m: seq<byte>, start: nat, p: nat, labels: seq<seq<byte>>, hops: nat)
    decreases |labels|, hops
  {
    || (labels == [] && p < |m| && m[p] == 0)
    || (labels != [] && LabelAt(m, p, labels[0]) && Spells(m, start, p + 1 + |labels[0]|, labels[1..], hops))
    || (hops > 0 && exists q: nat :: PointsAt(m, p, q) && q < start && Spells(m, start, q, labels, hops - 1))
  }

  /** The labels with a dot between each two. */
  function Dotted(labels: seq<seq<byte>>): seq<byte> {
    if labels == [] then [] else if |labels| == 1 then labels[0] else labels[0] + [DOT] + Dotted(labels[1..])
  }

  /** Where a name ends in place: behind its first pointer, or behind its zero byte. */
  function After(m: seq<byte>, p: nat): nat
    decreases |m| - p
  {
    if p >= |m| || m[p] == 0 then p + 1
    else if m[p] >= 0xC0 then p + 2
    else After(m, p + 1 + m[p] as nat)
  }

  // ---------------------------------------------------------------- the decoder reads it

  /** Each label with a dot behind it, as the decoder copies them. */
  function Dots(labels: seq<seq<byte>>): seq<byte> {
    if labels == [] then [] else labels[0] + [DOT] + Dots(labels[1..])
  }

  lemma {:induction false} DotsOf(labels: seq<seq<byte>>)
    requires labels != []
    ensures Dots(labels) == Dotted(labels) + [DOT]
    decreases |labels|
  {
    if |labels| == 1 {
      assert labels[1..] == [];
    } else {
      DotsOf(labels[1..]);
    }
  }

  lemma LabelStep(m: seq<byte>, start: nat, c: Cursor, one: seq<byte>)
    requires c.InRange(start) && LabelAt(m, c.s, one)
    ensures Step(m, start, c) ==
      if |c.out| + |one| < 63 then Go(Cursor(c.s + 1 + |one|, c.out + one + [DOT], c.hops, c.ret)) else Stop(c)
  {
    assert m[c.s] as nat == |one| && Slice(m, c.s + 1, |one|) == one;
  }

  lemma AfterLabel(m: seq<byte>, p: nat, one: seq<byte>)
    requires LabelAt(m, p, one)
    ensures After(m, p) == After(m, p + 1 + |one|)
  {
  }

  lemma PointerStep(m: seq<byte>, start: nat, c: Cursor, q: nat)
    requires c.InRange(start) && PointsAt(m, c.s, q) && q < start && c.hops < MAX_HOPS
    ensures Step(m, start, c) == Go(Cursor(q, c.out, c.hops + 1, if c.ret.None? then Some(c.s + 2) else c.ret))
    ensures After(m, c.s) == c.s + 2
  {
  }

  /** The position the decoder returns from where it stopped. */
  function Resume(e: Cursor): nat {
    match e.ret case Some(r) => r case None => e.s + 1
  }

  /** How many of the labels, each with a dot behind it, there is room for. */
  function Fitting(labels: seq<seq<byte>>, room: int): (n: nat)
    ensures n <= |labels|
    decreases |labels|
  {
    if labels == [] || |labels[0]| >= room then 0 else 1 + Fitting(labels[1..], room - |labels[0]| - 1)
  }

  lemma {:induction false} AllFit(labels: seq<seq<byte>>, room: int)
    requires |Dots(labels)| <= room
    ensures Fitting(labels, room) == |labels|
    decreases |labels|
  {
    if labels != [] { AllFit(labels[1..], room - |labels[0]| - 1); }
  }

  /** There is room for those, and not for one more. */
  lemma {:induction false} FittingIs(labels: seq<seq<byte>>, room: nat)
    ensures var n := Fitting(labels, room);
      |Dots(labels[..n])| <= room && (n < |labels| ==> |Dots(labels[..n + 1])| > room)
    decreases |labels|
  {
    var n := Fitting(labels, room);
    if labels != [] {
      DotsOn(labels, 0);
      assert labels[1..][..0] == [] && labels[..0] == [];
      if n > 0 {
        FittingIs(labels[1..], room - |labels[0]| - 1);
        DotsOn(labels, n - 1);
        if n < |labels| { DotsOn(labels, n); }
      }
    }
  }

  lemma DotsOn(labels: seq<seq<byte>>, n: nat)
    requires n < |labels|
    ensures Dots(labels[..n + 1]) == labels[0] + [DOT] + Dots(labels[1..][..n])
  {
    assert labels[..n + 1][0] == labels[0] && labels[..n + 1][1..] == labels[1..][..n];
  }

  lemma {:induction false} WalkSpelled(m: seq<byte>, start: nat, labels: seq<seq<byte>>, hops: nat, c: Cursor)
    requires c.InRange(start) && Spells(m, start, c.s, labels, hops) && hops <= MAX_HOPS - c.hops
    ensures var n := Fitting(labels, MAX_OUT - |c.out|); var e := Walk(m, start, c);
      && e.out == c.out + Dots(labels[..n])
      && (n == |labels| ==> Resume(e) == match c.ret case Some(r) => r case None => After(m, c.s))
    decreases |labels|, hops
  {
    hide Step, After, LabelAt, PointsAt, Dots;
    if labels == [] && c.s < |m| && m[c.s] == 0 {
      StopStep(m, start, c);
      NoDots();
    } else if labels != [] && LabelAt(m, c.s, labels[0]) && Spells(m, start, c.s + 1 + |labels[0]|, labels[1..], hops) {
      LabelStep(m, start, c, labels[0]);
      AfterLabel(m, c.s, labels[0]);
      if |c.out| + |labels[0]| < 63 {
        var to := Step(m, start, c).to;
        WalkSpelled(m, start, labels[1..], hops, to);
        var n := Fitting(labels[1..], MAX_OUT - |to.out|);
        DotsOn(labels, n);
        Regroup(c.out, labels[0] + [DOT], Dots(labels[1..][..n]));
      } else {
        NoDots();
        assert labels[..0] == [];
      }
    } else {
      var q: nat :| PointsAt(m, c.s, q) && q < start && Spells(m, start, q, labels, hops - 1);
      PointerStep(m, start, c, q);
      WalkSpelled(m, start, labels, hops - 1, Step(m, start, c).to);
    }
  }

  lemma NoDots()
    ensures Dots([]) == []
  {
  }

  lemma StopStep(m: seq<byte>, start: nat, c: Cursor)
    requires c.InRange(start) && c.s < |m| && m[c.s] == 0
    ensures Step(m, start, c) == Stop(c) && After(m, c.s) == c.s + 1
  {
  }

  /** RFC 1035 section 4.1.4 for the reader: whatever labels the message spells, through at most 35
      pointers to anywhere before the name, are read as their dotted text if that has 1 to 62
      characters, and reading resumes where the name ends in place. */
  lemma SpelledIsRead(m: seq<byte>, s0: nat, labels: seq<seq<byte>>)
    requires Spells(m, s0, s0, labels, 35) && 1 <= |Dotted(labels)| <= 62
    ensures DecodeText(m, s0) == Some(Dotted(labels)) && DecodeNext(m, s0) == After(m, s0)
  {
    hide Walk, Step;
    DotsOf(labels);
    AllFit(labels, MAX_OUT);
    LongIsCut(m, s0, labels);
    assert labels[..|labels|] == labels;
    WalkSpelled(m, s0, labels, 35, Start(s0));
  }

  /** A longer one is cut behind the last label that fits; if not even the first does, no text is
      left. */
  lemma LongIsCut(m: seq<byte>, s0: nat, labels: seq<seq<byte>>)
    requires Spells(m, s0, s0, labels, 35) && labels != []
    ensures var n := Fitting(labels, 63);
      DecodeText(m, s0) == if n == 0 then None else Some(Dotted(labels[..n]))
  {
    hide Walk, Step;
    WalkSpelled(m, s0, labels, 35, Start(s0));
    SpelledStarts(m, s0, s0, labels, 35);
    var n, out := Fitting(labels, 63), Walk(m, s0, Start(s0)).out;
    if n > 0 {
      DotsOf(labels[..n]);
      assert out == Dotted(labels[..n]) + [DOT];
      assert out[..|out| - 1] == Dotted(labels[..n]);
    } else {
      assert labels[..0] == [];
    }
  }

  /** Labels are not spelled by a zero byte. */
  lemma SpelledStarts(m: seq<byte>, start: nat, p: nat, labels: seq<seq<byte>>, hops: nat)
    requires Spells(m, start, p, labels, hops) && labels != []
    ensures At(m, p) != 0
  {
    if LabelAt(m, p, labels[0]) {
      assert m[p] as int == |labels[0]|;
    } else {
      var q: nat :| PointsAt(m, p, q) && q < start && Spells(m, start, q, labels, hops - 1);
      assert m[p] as int == 0xC0 + q / 0x100;
    }
  }

  /** The root, in place or behind pointers: a text of no characters, or none at all. */
  lemma RootIsRead(m: seq<byte>, s0: nat)
    requires Spells(m, s0, s0, [], 35)
    ensures DecodeText(m, s0) == (if m[s0] == 0 then Some([]) else None) && DecodeNext(m, s0) == After(m, s0)
  {
    hide Walk, Step;
    var none: seq<seq<byte>> := [];
    WalkSpelled(m, s0, none, 35, Start(s0));
    NoDots();
    assert none[..0] == none;
  }
}
