/** A reply taken into the cache: the other half of AddRRfromReply (dnsd.cpp:384-461), and the way of a
    record from AddRR through the wire and the cache to a lookup. */
module DnsReply {
  import opened Bytes
  import opened DnsConst
  import opened DnsHash
  import opened DnsIndex
  import opened DnsEvict
  import opened DnsCache
  import opened DnsStored
  import opened DnsName
  import opened DnsDecode
  import opened DnsRecord
  import opened DnsRecordRoundTrip

  // ---------------------------------------------------------------- what is stored

  /** Both DecodeName calls left a text. */
  predicate Complete(p: Parsed) {
    p.name.Some? && p.data.Some?
  }

  /** The four address bytes as the number kept in ip. */
  function Address(b: seq<byte>): nat {
    At(b, 0) as nat + 0x100 * At(b, 1) as nat + 0x1_0000 * At(b, 2) as nat + 0x100_0000 * At(b, 3) as nat
  }

  /** The data bytes of a slot: room only for an address, a name with its NUL and a byte or two to
      spare, two bytes to spare behind an SOA's counters, else the data (dnsd.cpp:420-453). */
  function SlotData(rtype: nat, data: seq<byte>): seq<byte> {
    if rtype == TYPE_A then Repeat<byte>(0, 4)
    else if rtype == TYPE_SOA then data + Repeat<byte>(0, 2)
    else if HoldsName(rtype) then data + Repeat<byte>(0, 3 - Leading(rtype))
    else data
  }

  /** The record SetRecord and the switch behind it leave in the slot. */
  function SlotOf(p: Parsed): Rec
    requires Complete(p)
  {
    Rec(p.rtype, p.ttl, MkName(p.name.value), p.name.value, SlotData(p.rtype, p.data.value),
        if p.rtype == TYPE_A then Address(p.data.value) else 0)
  }

  /** What record k of a message is stored as. Where DecodeName left no text, its buffers hold what
      they held before, and stale says what that comes to. */
  function Entry(k: nat, p: Parsed, stale: (nat, Parsed) -> Rec): Rec {
    if Complete(p) then SlotOf(p) else stale(k, p)
  }

  /** The length kept in one byte is never cut off. */
  lemma LengthFits(m: seq<byte>, t: nat, expire: nat)
    requires !Malformed(m, DecodeNext(m, t)) && Complete(ParsedAt(m, t, expire))
    ensures |SlotOf(ParsedAt(m, t, expire)).Stored()| <= 255 && SlotOf(ParsedAt(m, t, expire)).Live()
    ensures 0 !in SlotOf(ParsedAt(m, t, expire)).name
  {
    hide DecodeText, DecodeNext, CStr, MkName;
  }

  /** The first byte is the lowest. */
  lemma AddressBytes(b: seq<byte>)
    requires |b| == 4
    ensures Address(b) == b[0] as nat + 256 * b[1] as nat + 65536 * b[2] as nat + 16777216 * b[3] as nat
  {
  }

  /** The room each type's data takes, as the calls of SetRecord ask for it. */
  lemma DataRoom(p: Parsed)
    requires Complete(p)
    ensures p.rtype == 1 ==> |SlotOf(p).data| == 4 && SlotOf(p).ip == Address(p.data.value)
    ensures p.rtype in {2, 5, 12} ==> SlotOf(p).data == p.data.value + [0, 0, 0]
    ensures p.rtype == 15 ==> SlotOf(p).data == p.data.value + [0]
    ensures p.rtype == 6 ==> SlotOf(p).data == p.data.value + [0, 0]
    ensures p.rtype !in {1, 2, 5, 6, 12, 15} ==> SlotOf(p).data == p.data.value
  {
    hide MkName;
  }

  /** An NS record stored from a message goes when its server's name is given in any letter case. */
  lemma ServerForgotten(p: Parsed, nm: seq<byte>)
    requires Complete(p) && 0 !in p.data.value
    ensures IsNS(SlotOf(p), nm) <==> p.rtype == 2 && EqNoCase(nm, p.data.value)
  {
    hide MkName, EqNoCase;
    if p.rtype == 2 {
      var x := p.data.value;
      assert SlotOf(p).data == x + [0, 0, 0];
      forall i | 0 <= i < |x| ensures (x + [0, 0, 0])[i] != 0 {
        assert x[i] in x;
      }
      CStrIs(x + [0, 0, 0], |x|);
      assert (x + [0, 0, 0])[..|x|] == x;
    }
  }

  lemma AddressDetermines(a: seq<byte>, b: seq<byte>)
    requires |a| == |b| == 4 && Address(a) == Address(b)
    ensures a == b
  {
    LowByte(Address(a), a[1] as nat + 0x100 * a[2] as nat + 0x1_0000 * a[3] as nat, a[0]);
    LowByte(Address(b), b[1] as nat + 0x100 * b[2] as nat + 0x1_0000 * b[3] as nat, b[0]);
    LowByte(Address(a) / 0x100, a[2] as nat + 0x100 * a[3] as nat, a[1]);
    LowByte(Address(b) / 0x100, b[2] as nat + 0x100 * b[3] as nat, b[1]);
    LowByte(Address(a) / 0x100 / 0x100, a[3] as nat, a[2]);
    LowByte(Address(b) / 0x100 / 0x100, b[3] as nat, b[2]);
  }

  lemma LowByte(x: nat, q: nat, r: byte)
    requires x == 0x100 * q + r as nat
    ensures x % 0x100 == r as nat && x / 0x100 == q
  {
  }

  // ---------------------------------------------------------------- the whole loop

  /** One store: s to s', the index right before and after or not. */
  ghost predicate StoreStep(s: seq<Rec>, s': seq<Rec>, wasRight: bool, isRight: bool, e: Rec, now: nat, own: bool) {
    && LooseStep(Put(e, now), s, s', [])
    && (wasRight ==> (isRight <==> own || Gentle(Put(e, now), s)))
    && (wasRight && isRight ==> PlainStep(Put(e, now), s, s', []))
  }

  /** AddRRfromReply (dnsd.cpp:384-461) whole: each record of the reply goes through the cache's store
      in turn. states are the slots before, between and after, right says when the index is right. */
  method AddRRfromReply(c: NSRecordArray, m: array<byte>, t0: nat, et: nat, rtyp: nat, now: nat, ancount: nat,
      own: bool, stale: (nat, Parsed) -> Rec)
    returns (ret: nat, ghost recs: seq<Parsed>, ghost states: seq<seq<Rec>>, ghost right: seq<bool>)
    requires c.Sane() && c.d.Length > 0 && et + 335 <= m.Length && forall k: nat, p :: stale(k, p).Live()
    modifies c, c.d, c.lo, c.hi, c.ct
    ensures c.Sane() && recs == ParseAll(m[..], t0, et, Expiry(rtyp, now)).0 && ret == Wanted(recs, rtyp, ancount)
    ensures |states| == |right| == |recs| + 1
    ensures states[0] == old(c.d[..]) && states[|recs|] == c.d[..]
    ensures right[0] == old(c.Valid()) && right[|recs|] == c.Valid()
    ensures forall k :: 0 <= k < |recs| ==>
      StoreStep(states[k], states[k + 1], right[k], right[k + 1], Entry(k, recs[k], stale), now, own)
  {
    hide *;
    ghost var M := m[..];
    var expire := Expiry(rtyp, now);
    recs, states, right, ret := [], [c.d[..]], [c.Valid()], 0;
    var t, r1 := t0, 0;
    WantedNone(rtyp, ancount);
    while t < et
      invariant c.Sane() && m[..] == M && |states| == |right| == |recs| + 1 && r1 == |recs|
      invariant ParseAll(M, t0, et, expire).0 == recs + ParseAll(M, t, et, expire).0
      invariant ret == Wanted(recs, rtyp, ancount)
      invariant states[0] == old(c.d[..]) && states[|recs|] == c.d[..]
      invariant right[0] == old(c.Valid()) && right[|recs|] == c.Valid()
      invariant forall k :: 0 <= k < |recs| ==>
        StoreStep(states[k], states[k + 1], right[k], right[k + 1], Entry(k, recs[k], stale), now, own)
      decreases et - t
    {
      var one, next := ReadRecord(m, t, expire);
      if one.None? {
        ParsedNoMore(M, t, et, expire);
        return;
      }
      ParsedOn(M, t, et, expire);
      var p := one.value;
      EntryLives(M, t, expire, r1, stale);
      StoreOne(c, Entry(r1, p, stale), now, own);
      if p.rtype % 0x100 == rtyp && r1 < ancount {
        ret := ret + 1;
      }
      Regroup(recs, [p], ParseAll(M, next, et, expire).0);
      WantedOn(recs, p, rtyp, ancount);
      recs, states, right := recs + [p], states + [c.d[..]], right + [c.Valid()];
      r1 := r1 + 1;
      t := next;
    }
    ParsedUp(M, t, et, expire);
  }

  lemma WantedNone(rtyp: nat, ancount: nat)
    ensures Wanted([], rtyp, ancount) == 0
  {
  }

  lemma WantedOn(recs: seq<Parsed>, p: Parsed, rtyp: nat, ancount: nat)
    ensures Wanted(recs + [p], rtyp, ancount) ==
      Wanted(recs, rtyp, ancount) + if |recs| < ancount && p.rtype % 0x100 == rtyp then 1 else 0
  {
    assert (recs + [p])[..|recs|] == recs;
  }

  method StoreOne(c: NSRecordArray, e: Rec, now: nat, own: bool)
    requires c.Sane() && e.Live()
    modifies c, c.d, c.lo, c.hi, c.ct
    ensures c.Sane() && StoreStep(old(c.d[..]), c.d[..], old(c.Valid()), c.Valid(), e, now, own)
  {
    hide NSRecordArray.Sane, NSRecordArray.Valid, Gentle, CoveredStep;
    var _ := c.RunOne(Put(e, now), own);
  }

  lemma EntryLives(m: seq<byte>, t: nat, expire: nat, k: nat, stale: (nat, Parsed) -> Rec)
    requires !Malformed(m, DecodeNext(m, t)) && forall k: nat, p :: stale(k, p).Live()
    ensures Entry(k, ParsedAt(m, t, expire), stale).Live()
  {
    hide NameAt, DecodeNext, DataAt, MkName, SlotData;
  }

  // ---------------------------------------------------------------- what stays stored

  /** The record e stands in a slot, its TTL not shortened. */
  ghost predicate Kept(s: seq<Rec>, e: Rec) {
    exists i: nat :: i < |s| && StandsFor(s[i], e)
  }

  predicate StandsFor(r: Rec, e: Rec) {
    && r.Live() && r.rtype == e.rtype && r.hash == e.hash && r.name == e.name && r.data == e.data
    && (e.rtype == TYPE_A ==> r.ip == e.ip) && r.ttl >= e.ttl
  }

  /** Slots SetRecord would not take while another is left. */
  function Busy(s: seq<Rec>, now: nat): (n: nat)
    ensures n <= |s|
  {
    if s == [] then 0 else Busy(s[..|s| - 1], now) + if Reusable(s[|s| - 1], now, true) then 0 else 1
  }

  lemma {:induction false} BusyUpdate(s: seq<Rec>, now: nat, i: nat, r: Rec)
    requires i < |s|
    ensures Busy(s[i := r], now) + (if Reusable(s[i], now, true) then 0 else 1)
      == Busy(s, now) + (if Reusable(r, now, true) then 0 else 1)
  {
    var n := |s| - 1;
    if i == n {
      assert s[i := r][..n] == s[..n];
    } else {
      assert s[i := r][..n] == s[..n][i := r];
      BusyUpdate(s[..n], now, i, r);
    }
  }

  lemma {:induction false} RoomLeft(s: seq<Rec>, now: nat) returns (i: nat)
    requires Busy(s, now) < |s|
    ensures i < |s| && Reusable(s[i], now, true)
  {
    i := |s| - 1;
    if !Reusable(s[i], now, true) { i := RoomLeft(s[..i], now); }
  }

  /** Stored bytes fix name and data, the name having no NUL. */
  lemma StoredFixes(a: Rec, b: Rec)
    requires a.Stored() == b.Stored() && 0 !in a.name && 0 !in b.name
    ensures a.name == b.name && a.data == b.data
  {
    var x, y, s := |a.name|, |b.name|, a.Stored();
    forall k | 0 <= k < x ensures s[k] != 0 {
      assert s[k] == a.name[k];
    }
    forall k | 0 <= k < y ensures s[k] != 0 {
      assert s[k] == b.name[k];
    }
    assert s[x] == 0 && s[y] == 0;
    assert a.name == s[..x] && b.name == s[..y];
    assert a.data == s[x + 1..|s| - 1] && b.data == s[y + 1..|s| - 1];
  }

  /** The record just stored is there. */
  lemma KeptNow(s: seq<Rec>, r: nat, e: Rec)
    requires r < |s| && e.Live()
    ensures Kept(WithoutDup(s[r := e], r), e)
  {
    var s' := WithoutDup(s[r := e], r);
    assert StandsFor(s'[r], e);
  }

  /** A record that is not yet reusable outlives a store while there is room: its slot is left alone,
      or it is merged into the same record stored anew. */
  lemma KeptOn(s: seq<Rec>, now: nat, r: nat, e': Rec, e: Rec)
    requires Kept(s, e) && e.ttl >= now && 0 !in e.name && 0 !in e'.name && e'.Live()
    requires e.Stored() == e'.Stored() ==> e.rtype == e'.rtype
    requires r < |s| && Reusable(s[r], now, true)
    ensures Kept(WithoutDup(s[r := e'], r), e)
  {
    hide Rec.Stored;
    var h: nat :| h < |s| && StandsFor(s[h], e);
    var t := s[r := e'];
    var s' := WithoutDup(t, r);
    assert t[h] == s[h] && h != r;
    if FirstDup(t, r, 0) == Some(h) {
      SameStored(s[h], e);
      StoredFixes(e, e');
      assert StandsFor(s'[r], e);
    } else {
      assert s'[h] == s[h];
    }
  }

  lemma SameStored(a: Rec, b: Rec)
    requires a.name == b.name && a.data == b.data
    ensures a.Stored() == b.Stored()
  {
  }

  lemma BusyOneMore(s: seq<Rec>, now: nat, r: nat, e: Rec)
    requires r < |s| && Reusable(s[r], now, true)
    ensures Busy(WithoutDup(s[r := e], r), now) <= Busy(s, now) + 1
  {
    hide Dup;
    BusyUpdate(s, now, r, e);
    var t := s[r := e];
    match FirstDup(t, r, 0)
    case None =>
    case Some(j) =>
      var f := t[r].(ttl := Later(t[j].ttl, t[r].ttl));
      BusyUpdate(s, now, r, f);
      assert t[r := f] == s[r := f];
      BusyUpdate(t[r := f], now, j, t[j].Freed());
  }

  /** Entries fit to be stored together: live, named, not yet reusable, types told apart by their
      stored bytes. */
  ghost predicate Together(es: seq<Rec>, now: nat) {
    && (forall k :: 0 <= k < |es| ==> es[k].Live() && es[k].ttl >= now && 0 !in es[k].name)
    && (forall j, k :: 0 <= j < |es| && 0 <= k < |es| && es[j].Stored() == es[k].Stored() ==> es[j].rtype == es[k].rtype)
  }

  /** With room for all of them, every record of a run of stores is there after it. */
  lemma {:induction false} AllKept(es: seq<Rec>, states: seq<seq<Rec>>, now: nat, n: nat)
    requires |states| == |es| + 1 && n <= |es| && Together(es, now)
    requires forall k :: 0 <= k < n ==> PlainStep(Put(es[k], now), states[k], states[k + 1], [])
    requires Busy(states[0], now) + |es| <= |states[0]|
    ensures |states[n]| == |states[0]| && Busy(states[n], now) <= Busy(states[0], now) + n
    ensures forall k :: 0 <= k < n ==> Kept(states[n], es[k])
  {
    hide Kept, WithoutDup, Rec.Stored, IsFreeSlot;
    if n > 0 {
      AllKept(es, states, now, n - 1);
      var s, s' := states[n - 1], states[n];
      var r := SlotTaken(s, s', es[n - 1], now);
      BusyOneMore(s, now, r, es[n - 1]);
      KeptNow(s, r, es[n - 1]);
      forall k | 0 <= k < n - 1 ensures Kept(s', es[k]) {
        KeptOn(s, now, r, es[n - 1], es[k]);
      }
    }
  }

  lemma SlotTaken(s: seq<Rec>, s': seq<Rec>, e: Rec, now: nat) returns (r: nat)
    requires PlainStep(Put(e, now), s, s', []) && Busy(s, now) < |s|
    ensures r < |s| && Reusable(s[r], now, true) && s' == WithoutDup(s[r := e], r)
  {
    hide WithoutDup;
    r :| IsFreeSlot(s, now, true, r) && s' == WithoutDup(s[r := e], r);
    var i := RoomLeft(s, now);
  }

  // ---------------------------------------------------------------- the code as written

  /** Free slots that stand before the first live record past its TTL. */
  function FreeAhead(s: seq<Rec>, now: nat): (n: nat)
    ensures n <= |s|
  {
    if s == [] || (s[0].Live() && s[0].ttl < now) then 0
    else (if s[0].Live() then 0 else 1) + FreeAhead(s[1..], now)
  }

  /** If there is one, SetRecord takes a free slot. */
  lemma {:induction false} FreeTaken(s: seq<Rec>, now: nat) returns (i: nat)
    requires FreeAhead(s, now) > 0
    ensures i < |s| && !s[i].Live() && forall j :: 0 <= j < i ==> !Reusable(s[j], now, true)
    decreases |s|
  {
    i := 0;
    if s[0].Live() {
      i := FreeTaken(s[1..], now);
      assert forall j :: 1 <= j < i + 1 ==> s[j] == s[1..][j - 1];
      i := i + 1;
    }
  }

  /** Filling a slot takes one of them at most; a change that leaves no record past its TTL in its
      slot, none. */
  lemma {:induction false} FreeAheadUpdate(s: seq<Rec>, now: nat, i: nat, r: Rec)
    requires i < |s| && (r.Live() ==> r.ttl >= now)
    ensures FreeAhead(s[i := r], now) + (if s[i].Live() || !r.Live() then 0 else 1) >= FreeAhead(s, now)
    decreases |s|
  {
    if i == 0 {
      assert s[0 := r][1..] == s[1..];
    } else {
      assert s[i := r][1..] == s[1..][i - 1 := r];
      FreeAheadUpdate(s[1..], now, i - 1, r);
    }
  }

  lemma FreeAheadOneLess(s: seq<Rec>, now: nat, r: nat, e: Rec)
    requires r < |s| && e.ttl >= now && e.Live()
    ensures FreeAhead(WithoutDup(s[r := e], r), now) + 1 >= FreeAhead(s, now)
  {
    hide Dup;
    FreeAheadUpdate(s, now, r, e);
    var t := s[r := e];
    match FirstDup(t, r, 0)
    case None =>
    case Some(j) =>
      var f := t[r].(ttl := Later(t[j].ttl, t[r].ttl));
      FreeAheadUpdate(t, now, r, f);
      FreeAheadUpdate(t[r := f], now, j, t[j].Freed());
  }

  /** There are at least so many slots of room. */
  lemma {:induction false} FreeIsRoom(s: seq<Rec>, now: nat)
    ensures Busy(s, now) + FreeAhead(s, now) <= |s|
    decreases |s|
  {
    if s != [] {
      FreeIsRoom(s[1..], now);
      BusyFirst(s, now);
    }
  }

  lemma {:induction false} BusyFirst(s: seq<Rec>, now: nat)
    requires s != []
    ensures Busy(s, now) == (if Reusable(s[0], now, true) then 0 else 1) + Busy(s[1..], now)
  {
    var n := |s| - 1;
    if n == 0 {
      assert s[..0] == s[1..] == [];
    } else {
      BusyFirst(s[..n], now);
      assert s[..n][1..] == s[1..][..n - 1];
    }
  }

  /** With no live record past its TTL, all room is free slots. */
  lemma {:induction false} AllRoomFree(s: seq<Rec>, now: nat)
    requires forall i :: 0 <= i < |s| && s[i].Live() ==> s[i].ttl >= now
    ensures Busy(s, now) + FreeAhead(s, now) == |s|
    decreases |s|
  {
    if s != [] {
      AllRoomFree(s[1..], now);
      BusyFirst(s, now);
    }
  }

  /** Room enough for n records: for the code as written, free slots ahead of every live record past
      its TTL; with own, those count as room too. */
  predicate Room(s: seq<Rec>, now: nat, own: bool, n: nat) {
    if own then Busy(s, now) + n <= |s| else FreeAhead(s, now) >= n
  }

  lemma GentleWithRoom(s: seq<Rec>, e: Rec, now: nat)
    requires FreeAhead(s, now) > 0
    ensures Gentle(Put(e, now), s)
  {
    var i := FreeTaken(s, now);
  }

  lemma RoomIsRoom(s: seq<Rec>, now: nat, own: bool, n: nat)
    requires Room(s, now, own, n)
    ensures Busy(s, now) + n <= |s|
  {
    FreeIsRoom(s, now);
  }

  /** With room for all of them, stores keep a right index right, own or not. */
  lemma {:induction false} AllRight(es: seq<Rec>, states: seq<seq<Rec>>, right: seq<bool>, now: nat, own: bool, n: nat)
    requires |states| == |right| == |es| + 1 && n <= |es| && Together(es, now) && right[0]
    requires forall k :: 0 <= k < |es| ==> StoreStep(states[k], states[k + 1], right[k], right[k + 1], es[k], now, own)
    requires Room(states[0], now, own, |es|)
    ensures right[n] && (own || FreeAhead(states[n], now) >= |es| - n)
    ensures forall k :: 0 <= k < n ==> PlainStep(Put(es[k], now), states[k], states[k + 1], [])
  {
    hide PlainStep, Gentle, LooseStep, FreeAhead, Busy;
    FreeIsRoom(states[0], now);
    if n > 0 {
      var m := n - 1;
      AllRight(es, states, right, now, own, m);
      AllKept(es, states, now, m);
      assert StoreStep(states[m], states[n], right[m], right[n], es[m], now, own);
      if !own { GentleWithRoom(states[m], es[m], now); }
      var r := SlotTaken(states[m], states[n], es[m], now);
      if !own { FreeAheadOneLess(states[m], now, r, es[m]); }
    }
  }

  // ---------------------------------------------------------------- from AddRR to a lookup

  /** Names and slot data that differ in letter case at most. */
  predicate Alike(a: Record, b: Record) {
    EqNoCase(OwnerText(a.name), OwnerText(b.name)) && EqNoCase(SlotData(a.rtype, a.data), SlotData(b.rtype, b.data))
  }

  /** Records of different types are told apart by more than that. */
  ghost predicate TypesTold(rrs: seq<Record>) {
    forall j, k :: 0 <= j < |rrs| && 0 <= k < |rrs| && Alike(rrs[j], rrs[k]) ==> rrs[j].rtype == rrs[k].rtype
  }

  /** A slot that holds rr, names up to letter case. */
  predicate Holding(r: Rec, rr: Record) {
    && r.Live() && r.rtype == rr.rtype && EqNoCase(r.name, OwnerText(rr.name))
    && if rr.rtype == TYPE_A then r.ip == Address(rr.data)
       else |r.data| >= |rr.data| && SameData(r.data[..|rr.data|], rr)
  }

  lemma EqNoCaseJoins(a: seq<byte>, b: seq<byte>, c: seq<byte>)
    requires EqNoCase(a, c) && EqNoCase(b, c)
    ensures EqNoCase(a, b)
  {
  }

  lemma NoNulEither(a: seq<byte>, name: seq<byte>)
    requires EqNoCase(a, name) && 0 !in name
    ensures 0 !in a
  {
    forall i | 0 <= i < |a| ensures a[i] != 0 {
      assert Lower(a[i]) == Lower(name[i]) && name[i] in name;
    }
  }

  lemma SlotDataAlike(rtype: nat, data: seq<byte>, rr: Record)
    requires Readable(rr) && rtype == rr.rtype && SameData(data, rr)
    ensures EqNoCase(SlotData(rtype, data), SlotData(rr.rtype, rr.data))
    ensures rtype != TYPE_A ==> |SlotData(rtype, data)| >= |rr.data| && SlotData(rtype, data)[..|rr.data|] == data
  {
    hide ValidName;
    if HoldsName(rtype) {
      var l := Leading(rtype);
      forall k | 0 <= k < |data| ensures Lower(data[k]) == Lower(rr.data[k]) {
        if k < l {
          assert data[..l][k] == rr.data[..l][k];
        } else {
          assert Lower(data[l..][k - l]) == Lower(rr.data[l..][k - l]);
        }
      }
    }
  }

  /** The entry a record read back becomes. */
  lemma EntryOfSame(p: Parsed, rr: Record, now: nat, e: Rec)
    requires Readable(rr) && Same(p, rr, now) && now + 20 + SIXTY_DAYS < TWO_32
    requires e == SlotOf(p.(ttl := (p.ttl + now + 20) % TWO_32))
    ensures e.Live() && e.rtype == rr.rtype && e.ttl == now + 20 + WireTtl(rr.ttl, now)
    ensures e.hash == MkName(e.name) && EqNoCase(e.name, OwnerText(rr.name)) && 0 !in e.name
    ensures EqNoCase(e.data, SlotData(rr.rtype, rr.data)) && Holding(e, rr)
  {
    hide MkName, EqNoCase, SlotData, SameData, ValidName;
    SlotDataAlike(p.rtype, p.data.value, rr);
    NameHasNoNul(OwnerText(rr.name));
    NoNulEither(e.name, OwnerText(rr.name));
    assert rr.rtype == TYPE_A ==> p.data.value == rr.data by { AddressSame(p.data.value, rr); }
  }

  lemma AddressSame(data: seq<byte>, rr: Record)
    requires SameData(data, rr)
    ensures !HoldsName(rr.rtype) ==> data == rr.data
  {
  }

  lemma NameHasNoNul(name: seq<byte>)
    requires ValidName(name)
    ensures 0 !in name
  {
  }

  /** A record that stands in the cache under its name's hash is found by any spelling of it, as long
      as it is not past its TTL. */
  lemma FoundByAnySpelling(s: seq<Rec>, e: Rec, spelling: seq<byte>, owner: seq<byte>, later: nat) returns (i: nat)
    requires Kept(s, e) && e.hash == MkName(e.name) && EqNoCase(e.name, owner) && EqNoCase(spelling, owner)
    requires later <= e.ttl
    ensures i < |s| && StandsFor(s[i], e) && !s[i].Expired(later) && i in AllHits(s, 0, MkName(spelling), spelling, later)
  {
    hide MkName, EqNoCase, AllHits;
    i :| i < |s| && StandsFor(s[i], e);
    EqNoCaseJoins(spelling, e.name, owner);
    MkNameIgnoresCase(spelling, e.name);
    AllHitsAre(s, 0, MkName(spelling), spelling, later);
  }

  /** e is the entry rr becomes, when it is read at time now. */
  ghost predicate Becomes(rr: Record, e: Rec, now: nat) {
    && rr.ttl < TWO_32 && now < TWO_32
    && e.Live() && e.rtype == rr.rtype && e.ttl == now + 20 + WireTtl(rr.ttl, now)
    && e.hash == MkName(e.name) && EqNoCase(e.name, OwnerText(rr.name)) && 0 !in e.name
    && EqNoCase(e.data, SlotData(rr.rtype, rr.data)) && Holding(e, rr)
  }

  /** A whole message read back becomes entries that can be stored together. */
  lemma EntriesOf(base: seq<Parsed>, recs: seq<Parsed>, rrs: seq<Record>, now: nat, stale: (nat, Parsed) -> Rec)
    returns (es: seq<Rec>)
    requires AllReadable(rrs) && AllSame(base, rrs, now) && TypesTold(rrs) && now + 20 + SIXTY_DAYS < TWO_32
    requires |recs| == |base|
    requires forall k :: 0 <= k < |recs| ==> recs[k] == base[k].(ttl := (base[k].ttl + (now + 20)) % TWO_32)
    ensures |es| == |rrs| == |recs| && Together(es, now)
    ensures forall k :: 0 <= k < |rrs| ==> es[k] == Entry(k, recs[k], stale) && Becomes(rrs[k], es[k], now)
  {
    hide Readable, EqNoCase, MkName, SlotData, WireTtl, Holding, SlotOf, Rec.Stored;
    es := seq(|recs|, k requires 0 <= k < |recs| => Entry(k, recs[k], stale));
    forall k | 0 <= k < |rrs| ensures es[k] == Entry(k, recs[k], stale) && Becomes(rrs[k], es[k], now) {
      assert Same(base[k], rrs[k], now);
      EntryOfSame(base[k], rrs[k], now, es[k]);
    }
    forall j, k | 0 <= j < |es| && 0 <= k < |es| && es[j].Stored() == es[k].Stored()
      ensures es[j].rtype == es[k].rtype
    {
      StoredFixes(es[j], es[k]);
      AlikeEntries(rrs[j], rrs[k], es[j], es[k], now);
    }
  }

  lemma AlikeEntries(a: Record, b: Record, x: Rec, y: Rec, now: nat)
    requires Becomes(a, x, now) && Becomes(b, y, now) && x.name == y.name && x.data == y.data
    ensures Alike(a, b)
  {
    hide SlotData, OwnerText, MkName, Holding, WireTtl;
  }

  /** Records written by AddRR, read out of the reply and stored: with room for them all, each has its
      slot. */
  method StoreMessage(c: NSRecordArray, m: array<byte>, t0: nat, rrs: seq<Record>, rtyp: nat, now: nat, own: bool,
      stale: (nat, Parsed) -> Rec)
    returns (ghost es: seq<Rec>)
    requires c.Valid() && c.d.Length > 0 && Room(c.d[..], now, own, |rrs|)
    requires 12 <= t0 && t0 + 203 * |rrs| + 335 <= m.Length && rtyp != 0 && now + 20 + SIXTY_DAYS < TWO_32
    requires AllReadable(rrs) && TypesTold(rrs) && forall k: nat, p :: stale(k, p).Live()
    modifies m, c, c.d, c.lo, c.hi, c.ct
    ensures c.Valid() && |es| == |rrs|
    ensures forall k :: 0 <= k < |rrs| ==> Becomes(rrs[k], es[k], now) && Kept(c.d[..], es[k])
    ensures AllSourced(c.d[..], old(c.d[..]), es)
  {
    assert c.Sane();
    hide *;
    ghost var P, s0 := m[..t0], c.d[..];
    var end := WriteAll(m, t0, rrs, now);
    ghost var M := m[..];
    assert P + AllBytes(P, rrs, now) <= M && end == |P + AllBytes(P, rrs, now)|;
    es := MessageEntries(M, P, rrs, now, stale);
    StoreEntries(c, m, t0, end, rtyp, now, own, stale, es);
  }

  /** The entries of a message stored, with room for them all. */
  method StoreEntries(c: NSRecordArray, m: array<byte>, t0: nat, end: nat, rtyp: nat, now: nat, own: bool,
      stale: (nat, Parsed) -> Rec, ghost es: seq<Rec>)
    requires c.Sane() && c.Valid() && c.d.Length > 0 && Room(c.d[..], now, own, |es|)
    requires end + 335 <= m.Length && rtyp != 0 && Together(es, now) && forall k: nat, p :: stale(k, p).Live()
    requires var recs := ParseAll(m[..], t0, end, now + 20).0;
      |es| == |recs| && forall k :: 0 <= k < |es| ==> es[k] == Entry(k, recs[k], stale)
    modifies c, c.d, c.lo, c.hi, c.ct
    ensures c.Valid() && AllSourced(c.d[..], old(c.d[..]), es)
    ensures forall k :: 0 <= k < |es| ==> Kept(c.d[..], es[k])
  {
    hide *;
    IsReply(rtyp, now);
    ghost var recs, states, right;
    var ret;
    ret, recs, states, right := AddRRfromReply(c, m, t0, end, rtyp, now, 0, own, stale);
    TraceKept(es, recs, states, right, now, own, stale);
    TraceSourced(es, recs, states, right, now, own, stale, |es|);
    assert es[..|es|] == es;
  }

  /** What the stores leave comes from the cache before and from the entries. */
  lemma {:induction false} TraceSourced(es: seq<Rec>, recs: seq<Parsed>, states: seq<seq<Rec>>, right: seq<bool>, now: nat,
      own: bool, stale: (nat, Parsed) -> Rec, n: nat)
    requires |states| == |right| == |es| + 1 && |recs| == |es| && n <= |es|
    requires forall k :: 0 <= k < |es| ==> es[k] == Entry(k, recs[k], stale)
    requires forall k :: 0 <= k < |recs| ==>
      StoreStep(states[k], states[k + 1], right[k], right[k + 1], Entry(k, recs[k], stale), now, own)
    ensures AllSourced(states[n], states[0], es[..n])
  {
    hide AllSourced, LooseStep, Entry, PlainStep, Gentle;
    if n == 0 {
      AtFirst(states[0]);
    } else {
      var k := n - 1;
      TraceSourced(es, recs, states, right, now, own, stale, k);
      assert es[k] == Entry(k, recs[k], stale);
      StepSourced(Put(es[k], now), states[k], states[n], [], states[0], es[..k]);
      assert es[..n] == es[..k] + [es[k]];
    }
  }

  lemma IsReply(rtyp: nat, now: nat)
    requires rtyp != 0
    ensures Expiry(rtyp, now) == now + 20
  {
  }

  lemma MessageEntries(m: seq<byte>, prefix: seq<byte>, rrs: seq<Record>, now: nat, stale: (nat, Parsed) -> Rec)
    returns (es: seq<Rec>)
    requires AllReadable(rrs) && TypesTold(rrs) && now + 20 + SIXTY_DAYS < TWO_32
    requires prefix + AllBytes(prefix, rrs, now) <= m
    ensures var recs := ParseAll(m, |prefix|, |prefix + AllBytes(prefix, rrs, now)|, now + 20).0;
      && |es| == |rrs| == |recs| && Together(es, now)
      && forall k :: 0 <= k < |rrs| ==> es[k] == Entry(k, recs[k], stale) && Becomes(rrs[k], es[k], now)
  {
    hide *;
    var end := |prefix + AllBytes(prefix, rrs, now)|;
    RecordsReadBack(m, prefix, rrs, now);
    ExpiryAside(m, |prefix|, end, now + 20);
    es := EntriesOf(ParseAll(m, |prefix|, end, 0).0, ParseAll(m, |prefix|, end, now + 20).0, rrs, now, stale);
  }

  lemma TraceKept(es: seq<Rec>, recs: seq<Parsed>, states: seq<seq<Rec>>, right: seq<bool>, now: nat, own: bool,
      stale: (nat, Parsed) -> Rec)
    requires |states| == |right| == |es| + 1 && |recs| == |es| && Together(es, now) && right[0]
    requires forall k :: 0 <= k < |es| ==> es[k] == Entry(k, recs[k], stale)
    requires forall k :: 0 <= k < |recs| ==>
      StoreStep(states[k], states[k + 1], right[k], right[k + 1], Entry(k, recs[k], stale), now, own)
    requires Room(states[0], now, own, |es|)
    ensures right[|es|] && forall k :: 0 <= k < |es| ==> Kept(states[|es|], es[k])
  {
    hide *;
    forall k | 0 <= k < |es| ensures StoreStep(states[k], states[k + 1], right[k], right[k + 1], es[k], now, own) {
      assert es[k] == Entry(k, recs[k], stale);
    }
    AllRight(es, states, right, now, own, |es|);
    RoomIsRoom(states[0], now, own, |es|);
    AllKept(es, states, now, |es|);
  }

  /** From end to end: whatever the cache held, if it has room for the records of a message, each is
      found by any spelling of its name until its TTL runs out, nothing having happened in between;
      and whatever is found is a record of the message or of the cache before, under the TTL of one with
      the same bytes, which has not run out. es are the message's entries. */
  method StoreAndFind(c: NSRecordArray, m: array<byte>, t0: nat, rrs: seq<Record>, rtyp: nat, now: nat, own: bool,
      stale: (nat, Parsed) -> Rec, spelling: seq<byte>, later: nat)
    returns (hits: seq<nat>, ghost es: seq<Rec>)
    requires c.Valid() && c.d.Length > 0 && Room(c.d[..], now, own, |rrs|)
    requires 12 <= t0 && t0 + 203 * |rrs| + 335 <= m.Length && rtyp != 0 && now + 20 + SIXTY_DAYS < TWO_32
    requires AllReadable(rrs) && TypesTold(rrs) && forall k: nat, p :: stale(k, p).Live()
    modifies m, c, c.d, c.lo, c.hi, c.ct
    ensures c.Valid()
    ensures forall k :: 0 <= k < |rrs| && EqNoCase(spelling, OwnerText(rrs[k].name)) && later <= now + 20 + WireTtl(rrs[k].ttl, now) ==>
      exists h :: h in hits && h < c.d.Length && Holding(c.d[h], rrs[k])
    ensures |es| == |rrs| && forall k :: 0 <= k < |rrs| ==> Becomes(rrs[k], es[k], now)
    ensures forall h :: h in hits ==>
      && h < c.d.Length && c.d[h].Live() && EqNoCase(spelling, c.d[h].name)
      && (c.d[h].ttl >= later || c.d[h].ttl <= 5_184_000) && Sourced(c.d[h], old(c.d[..]), es)
  {
    ghost var s0 := c.d[..];
    es := StoreMessage(c, m, t0, rrs, rtyp, now, own, stale);
    assert c.Sane() && forall k :: 0 <= k < |rrs| ==> rrs[k].ttl < TWO_32;
    hide *;
    hits := FindSpelled(c, spelling, later, rrs, es, now, s0);
  }

  /** The lookup behind the stores. */
  method FindSpelled(c: NSRecordArray, spelling: seq<byte>, later: nat, ghost rrs: seq<Record>, ghost es: seq<Rec>,
      ghost now: nat, ghost s0: seq<Rec>)
    returns (hits: seq<nat>)
    requires c.Sane() && c.Valid() && |es| == |rrs| && AllSourced(c.d[..], s0, es)
    requires now < TWO_32 && forall k :: 0 <= k < |rrs| ==> rrs[k].ttl < TWO_32
    requires forall k :: 0 <= k < |rrs| ==> Becomes(rrs[k], es[k], now) && Kept(c.d[..], es[k])
    modifies c, c.d, c.lo, c.hi, c.ct
    ensures c.Valid()
    ensures forall k :: 0 <= k < |rrs| && EqNoCase(spelling, OwnerText(rrs[k].name)) && later <= now + 20 + WireTtl(rrs[k].ttl, now) ==>
      exists h :: h in hits && h < c.d.Length && Holding(c.d[h], rrs[k])
    ensures forall h :: h in hits ==>
      && h < c.d.Length && c.d[h].Live() && EqNoCase(spelling, c.d[h].name)
      && (c.d[h].ttl >= later || c.d[h].ttl <= 5_184_000) && Sourced(c.d[h], s0, es)
  {
    hide *;
    ghost var s := c.d[..];
    hits := c.FindAll(MkName(spelling), spelling, later);
    ghost var s' := c.d[..];
    forall k | 0 <= k < |rrs| && EqNoCase(spelling, OwnerText(rrs[k].name)) && later <= now + 20 + WireTtl(rrs[k].ttl, now)
      ensures exists h :: h in hits && h < |s'| && Holding(s'[h], rrs[k])
    {
      var h := StillHolding(s, s', rrs[k], es[k], now, spelling, later);
    }
    forall h | h in hits
      ensures h < |s'| && s'[h].Live() && EqNoCase(spelling, s'[h].name)
      ensures (s'[h].ttl >= later || s'[h].ttl <= 5_184_000) && Sourced(s'[h], s0, es)
    {
      FoundSourced(s, s', spelling, later, hits, h, s0, es);
    }
  }

  lemma FoundSourced(s: seq<Rec>, s': seq<Rec>, nm: seq<byte>, now: nat, hits: seq<nat>, h: nat, s0: seq<Rec>, es: seq<Rec>)
    requires SomeHits(s, MkName(nm), nm, now, hits) && OnlyExpired(s, s', now) && h in hits && AllSourced(s, s0, es)
    ensures h < |s'| && s'[h].Live() && EqNoCase(nm, s'[h].name)
    ensures (s'[h].ttl >= now || s'[h].ttl <= 5_184_000) && Sourced(s'[h], s0, es)
  {
    hide MkName, EqNoCase, Sourced;
    assert s'[h] == s[h];
  }

  lemma StillHolding(s: seq<Rec>, s': seq<Rec>, rr: Record, e: Rec, now: nat, spelling: seq<byte>, later: nat) returns (h: nat)
    requires Kept(s, e) && Becomes(rr, e, now) && EqNoCase(spelling, OwnerText(rr.name)) && OnlyExpired(s, s', later)
    requires later <= now + 20 + WireTtl(rr.ttl, now)
    ensures h < |s'| && Holding(s'[h], rr)
    ensures h in AllHits(s, 0, MkName(spelling), spelling, later)
  {
    hide EqNoCase, MkName, AllHits, WireTtl;
    h := FoundByAnySpelling(s, e, spelling, OwnerText(rr.name), later);
  }
}
