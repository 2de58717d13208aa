/** Where the records in the cache come from, over any run. */
module DnsStored {
  import opened Bytes
  import opened DnsConst
  import opened DnsHash
  import opened DnsIndex
  import opened DnsCache

  /** The same name, data and hash, as DelDup compares them. */
  predicate SameBytes(a: Rec, b: Rec) {
    a.hash == b.hash && a.Stored() == b.Stored()
  }

  /** A record that was live in s0 or is one of those stored. */
  ghost predicate Known(x: Rec, s0: seq<Rec>, es: seq<Rec>) {
    (x.Live() && x in s0) || x in es
  }

  /** r is a record known, but for its TTL, which is that of a record known with the same bytes. */
  ghost predicate Sourced(r: Rec, s0: seq<Rec>, es: seq<Rec>) {
    exists x, y :: Known(x, s0, es) && Known(y, s0, es) && SameBytes(x, y) && r == x.(ttl := y.ttl)
  }

  ghost predicate AllSourced(s: seq<Rec>, s0: seq<Rec>, es: seq<Rec>) {
    forall i :: 0 <= i < |s| && s[i].Live() ==> Sourced(s[i], s0, es)
  }

  /** The records a run stores. */
  function PutsOf(ops: seq<Op>): seq<Rec> {
    if ops == [] then []
    else PutsOf(ops[..|ops| - 1]) + if ops[|ops| - 1].Put? then [ops[|ops| - 1].rec] else []
  }

  lemma AtFirst(s0: seq<Rec>)
    ensures AllSourced(s0, s0, [])
  {
    hide Rec.Stored;
    forall i | 0 <= i < |s0| && s0[i].Live() ensures Sourced(s0[i], s0, []) {
      assert s0[i] == s0[i].(ttl := s0[i].ttl) && SameBytes(s0[i], s0[i]) && Known(s0[i], s0, []);
    }
  }

  lemma SourcedStill(r: Rec, s0: seq<Rec>, es: seq<Rec>, e: Rec)
    requires Sourced(r, s0, es)
    ensures Sourced(r, s0, es + [e])
  {
    hide Rec.Stored;
    var x, y :| Known(x, s0, es) && Known(y, s0, es) && SameBytes(x, y) && r == x.(ttl := y.ttl);
    assert Known(x, s0, es + [e]) && Known(y, s0, es + [e]);
  }

  lemma SourcedNow(s0: seq<Rec>, es: seq<Rec>, e: Rec)
    ensures Sourced(e, s0, es + [e])
  {
    hide Rec.Stored;
    assert Known(e, s0, es + [e]) && SameBytes(e, e) && e == e.(ttl := e.ttl);
  }

  /** A record refreshed by a duplicate has one of both TTLs. */
  lemma SourcedMerged(e: Rec, d: Rec, s0: seq<Rec>, es: seq<Rec>)
    requires Sourced(d, s0, es) && Dup(d, e)
    ensures Sourced(e.(ttl := Later(d.ttl, e.ttl)), s0, es + [e])
  {
    if d.ttl > e.ttl {
      var x, y :| Known(x, s0, es) && Known(y, s0, es) && SameBytes(x, y) && d == x.(ttl := y.ttl);
      BytesAside(x, y.ttl);
      assert Known(e, s0, es + [e]) && Known(y, s0, es + [e]) && SameBytes(e, y);
    } else {
      SourcedNow(s0, es, e);
    }
  }

  lemma BytesAside(r: Rec, t: nat)
    ensures r.(ttl := t).Stored() == r.Stored()
  {
  }

  /** One step under any index. */
  lemma StepSourced(op: Op, s: seq<Rec>, s': seq<Rec>, hits: seq<nat>, s0: seq<Rec>, es: seq<Rec>)
    requires LooseStep(op, s, s', hits) && AllSourced(s, s0, es)
    ensures AllSourced(s', s0, es + if op.Put? then [op.rec] else [])
  {
    hide Rec.Stored, SomeHits, MkName, Sourced, IsNS, Dup, IsFreeSlot;
    match op
    case Put(e, now) =>
      if s != [] {
        PutSourced(s, s', e, now, s0, es);
      }
    case Look(_, _) => assert es + [] == es;
    case Forget(_) => assert es + [] == es;
    case Refresh => assert es + [] == es;
  }

  lemma PutSourced(s: seq<Rec>, s': seq<Rec>, e: Rec, now: nat, s0: seq<Rec>, es: seq<Rec>)
    requires AllSourced(s, s0, es)
    requires exists r: nat :: IsFreeSlot(s, now, true, r) && LooselyWithoutDup(s[r := e], r, s')
    ensures AllSourced(s', s0, es + [e])
  {
    hide Rec.Stored, Sourced, Dup, Later;
    var r: nat :| IsFreeSlot(s, now, true, r) && LooselyWithoutDup(s[r := e], r, s');
    var t := s[r := e];
    SourcedNow(s0, es, e);
    forall i | 0 <= i < |s'| && s'[i].Live() ensures Sourced(s'[i], s0, es + [e]) {
      if i != r {
        assert s'[i] == s[i];
        SourcedStill(s[i], s0, es, e);
      } else if s' != t {
        var j: nat :| j < |t| && j != r && Dup(t[j], t[r]) && s' == Merged(t, r, j);
        DupLives(t[j], t[r]);
        SourcedMerged(e, s[j], s0, es);
      }
    }
  }

  lemma DupLives(d: Rec, e: Rec)
    requires Dup(d, e)
    ensures d.Live()
  {
  }

  /** Over any run, whatever the index: every live record is one that was there or was stored, under
      the TTL of one with the same bytes; so no TTL exceeds the largest of theirs. */
  lemma {:induction false} RunSourced(ops: seq<Op>, states: seq<seq<Rec>>, answers: seq<seq<nat>>, n: nat)
    requires |states| == |ops| + 1 && |answers| == |ops| && n <= |ops|
    requires forall k :: 0 <= k < |ops| ==> LooseStep(ops[k], states[k], states[k + 1], answers[k])
    ensures AllSourced(states[n], states[0], PutsOf(ops[..n]))
  {
    hide LooseStep, AllSourced;
    if n == 0 {
      AtFirst(states[0]);
      assert ops[..0] == [];
    } else {
      RunSourced(ops, states, answers, n - 1);
      StepSourced(ops[n - 1], states[n - 1], states[n], answers[n - 1], states[0], PutsOf(ops[..n - 1]));
      assert ops[..n][..n - 1] == ops[..n - 1];
    }
  }

  /** So what a lookup answers was there or was stored before, has the name asked for, and is not
      past the TTL it carries, unless that is a static one of at most sixty days. */
  lemma AnswersSourced(ops: seq<Op>, states: seq<seq<Rec>>, answers: seq<seq<nat>>, k: nat, x: nat)
    requires |states| == |ops| + 1 && |answers| == |ops| && k < |ops| && ops[k].Look? && x < |answers[k]|
    requires forall k :: 0 <= k < |ops| ==> LooseStep(ops[k], states[k], states[k + 1], answers[k])
    ensures answers[k][x] < |states[k]|
    ensures var r := states[k][answers[k][x]];
      && r.Live() && Sourced(r, states[0], PutsOf(ops[..k])) && EqNoCase(ops[k].nm, r.name)
      && (r.ttl >= ops[k].now || r.ttl <= 60 * 24 * 3600)
  {
    hide Sourced, EqNoCase, MkName;
    RunSourced(ops, states, answers, k);
    assert LooseStep(ops[k], states[k], states[k + 1], answers[k]);
  }

  // ---------------------------------------------------------------- static and host records

  /** A record of at most sixty days' TTL is static: no lookup ever lets it go, at any time. */
  lemma StaticStays(s: seq<Rec>, s': seq<Rec>, now: nat, i: nat)
    requires OnlyExpired(s, s', now) && i < |s| && s[i].ttl <= 5_184_000
    ensures s'[i] == s[i]
  {
  }

  /** And a hit at any time, as any other is as long as its TTL has not run out. */
  lemma HitUntil(r: Rec, nm: seq<byte>, now: nat)
    requires r.Live() && r.hash == MkName(r.name)
    ensures Hit(r, MkName(nm), nm, now) <==> EqNoCase(nm, r.name) && (r.ttl <= 5_184_000 || r.ttl >= now)
  {
    hide MkName, EqNoCase;
    if EqNoCase(nm, r.name) {
      MkNameIgnoresCase(nm, r.name);
    }
  }

  /** Outside the cache a store takes a live record's slot only when no slot is free, however old the
      record is. */
  lemma HostsYieldLast(s: seq<Rec>, now: nat, r: nat)
    requires IsFreeSlot(s, now, false, r) && s[r].Live()
    ensures forall i :: 0 <= i < |s| ==> s[i].Live() && s[r].ttl <= s[i].ttl
  {
  }
}
