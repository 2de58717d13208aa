/** The DNS record cache: one array of slots under the hash index, changed in place. */
module DnsCache {
  import opened Bytes
  import opened DnsHash
  import opened DnsIndex
  import opened DnsEvict

  class NSRecordArray {
    const d: array<Rec>
    const lo: array<nat>
    const hi: array<nat>
    const ct: array<nat>
    var needRehash: nat

    ghost function Ix(): Index
      reads this, lo, hi, ct
    {
      Index(lo[..], hi[..], ct[..], needRehash)
    }

    ghost predicate Shape()
    {
      && d.Length <= MAX_SLOTS
      && lo.Length == hi.Length == ct.Length == BUCKETS
      && lo != hi && lo != ct && hi != ct
    }

    ghost predicate Valid()
      reads this, d, lo, hi, ct
    {
      Shape() && Indexed(d[..], Ix())
    }

    /** A window may miss records, but reaches no further than the slots. */
    ghost predicate Sane()
      reads this, d, lo, hi, ct
    {
      Shape() && Bounded(Ix(), d.Length)
    }

    /** Every live record lies in its bucket's window, whatever the counts. */
    ghost predicate Covering()
      requires Shape()
      reads this, d, lo, hi, ct
    {
      InWindows(d[..], Ix())
    }

    /** The empty cache (dnsd.cpp:3630-3642): 256 to 4096 zeroed slots, then Rehash. */
    constructor (cnt: nat)
      requires cnt <= MAX_SLOTS
      ensures Valid() && fresh(d) && fresh(lo) && fresh(hi) && fresh(ct)
      ensures d.Length == cnt && forall i :: 0 <= i < cnt ==> !d[i].Live()
    {
      d := new Rec[cnt](_ => Rec(0, 0, 0, [], [], 0));
      lo := new nat[BUCKETS](_ => 0);
      hi := new nat[BUCKETS](_ => 0);
      ct := new nat[BUCKETS](_ => 0);
      needRehash := 0;
      new;
      Rehash();
    }

    /** UpdHash (dnsd.cpp:559-566). */
    method UpdHash(hash: nat, i: nat)
      requires Shape() && i < d.Length
      modifies lo, hi, ct
      ensures Ix() == Upd(old(Ix()), hash, i)
    {
      var b := hash % BUCKETS;
      if lo[b] > i { lo[b] := i; }
      if hi[b] <= i { hi[b] := i + 1; }
      ct[b] := (ct[b] + 1) % 0x1_0000;
    }

    /** DelHash (dnsd.cpp:583-596). */
    method DelHash(k: nat)
      requires Shape()
      modifies this, lo, hi, ct
      ensures Ix() == Del(old(Ix()), d.Length, k)
    {
      var b := k % BUCKETS;
      if ct[b] != 0 {
        ct[b] := ct[b] - 1;
        if ct[b] == 0 {
          lo[b] := d.Length;
          hi[b] := 0;
        } else {
          needRehash := needRehash + 1;
        }
      } else {
        needRehash := 1024;
      }
    }

    /** Rehash (dnsd.cpp:568-581): the index rebuilt from the slots, whatever it was. */
    method Rehash()
      requires Shape()
      modifies this, lo, hi, ct
      ensures Valid() && Ix() == Rebuilt(d[..], d.Length)
    {
      forall b | 0 <= b < BUCKETS { hi[b] := 0; }
      forall b | 0 <= b < BUCKETS { ct[b] := 0; }
      forall b | 0 <= b < BUCKETS { lo[b] := d.Length; }
      for i := 0 to d.Length
        invariant Ix().(stale := 0) == Rebuilt(d[..], i)
      {
        if d[i].Live() {
          UpdHash(d[i].hash, i);
        }
      }
      needRehash := 0;
      RebuiltIsRight(d[..], d.Length);
    }

    /** A record leaves its slot: DelHash under its own hash, then FreeRR. */
    method Drop(i: nat)
      requires Sane() && i < d.Length && d[i].Live()
      modifies this, d, lo, hi, ct
      ensures Sane() && d[..] == old(d[..])[i := old(d[i]).Freed()]
      ensures Ix() == Del(old(Ix()), d.Length, old(d[i]).hash)
      ensures old(Valid()) ==> Valid()
    {
      hide InWindows, CountLive;
      if Valid() { DropKeeps(d[..], Ix(), i); }
      DelHash(d[i].hash);
      d[i] := d[i].Freed();
    }

    /** FindFree (dnsd.cpp:697-727) on one array: the first slot that is free or, in the cache,
        expired; else the first of the slots with the lowest TTL. */
    method FindFree(now: nat, isCache: bool) returns (r: Option<nat>)
      ensures r.None? <==> d.Length == 0
      ensures r.Some? ==> IsFreeSlot(d[..], now, isCache, r.value)
    {
      if d.Length == 0 {
        return None;
      }
      var best := 0;
      for i := 0 to d.Length
        invariant best < d.Length && best <= i && (i > 0 ==> best < i)
        invariant forall j :: 0 <= j < i ==> !Reusable(d[j], now, isCache)
        invariant forall j :: 0 <= j < i ==> d[best].ttl <= d[j].ttl
        invariant forall j :: 0 <= j < best ==> d[best].ttl < d[j].ttl
      {
        if Reusable(d[i], now, isCache) {
          return Some(i);
        }
        if d[i].ttl < d[best].ttl {
          best := i;
        }
      }
      return Some(best);
    }

    /** SetRecord as written (dnsd.cpp:360-381): evicting a live record, it calls DelHash with the
        incoming hash. A right index stays right if and only if nothing live is evicted or the
        evicted record shares the incoming record's bucket. */
    method SetRecord(name: seq<byte>, hash: nat, rtype: nat, ttl: nat, ladv: nat, now: nat, isCache: bool)
      returns (r: Option<nat>)
      requires Sane() && rtype != 0
      modifies this, d, lo, hi, ct
      ensures Sane() && (r.None? <==> d.Length == 0)
      ensures r.None? ==> d[..] == old(d[..]) && Ix() == old(Ix())
      ensures r.Some? ==> IsFreeSlot(old(d[..]), now, isCache, r.value)
      ensures r.Some? ==> d[..] == old(d[..])[r.value := Blank(name, hash, rtype, ttl, ladv)]
      ensures r.Some? ==> Ix() == AsWritten(old(d[..]), old(Ix()), r.value, hash)
      ensures r.Some? && old(Valid()) ==>
        (Valid() <==> (old(d[..])[r.value].Live() ==> old(d[..])[r.value].Bucket() == hash % BUCKETS))
    {
      hide InWindows, CountLive, Miscounted;
      r := FindFree(now, isCache);
      if r.Some? {
        var i := r.value;
        var blank := Blank(name, hash, rtype, ttl, ladv);
        if Valid() { EvictAsWritten(d[..], Ix(), i, blank); }
        if d[i].Live() {
          DelHash(hash);
        }
        d[i] := blank;
        UpdHash(hash, i);
      }
    }

    /** SetRecord as evidently meant, and as the four other callers of DelHash do it: the count that
        drops is the evicted record's. */
    method SetRecordOwnHash(name: seq<byte>, hash: nat, rtype: nat, ttl: nat, ladv: nat, now: nat, isCache: bool)
      returns (r: Option<nat>)
      requires Sane() && rtype != 0
      modifies this, d, lo, hi, ct
      ensures Sane() && (r.None? <==> d.Length == 0)
      ensures r.None? ==> d[..] == old(d[..]) && Ix() == old(Ix())
      ensures r.Some? ==> IsFreeSlot(old(d[..]), now, isCache, r.value)
      ensures r.Some? ==> d[..] == old(d[..])[r.value := Blank(name, hash, rtype, ttl, ladv)]
      ensures old(Valid()) ==> Valid()
    {
      hide InWindows, CountLive;
      r := FindFree(now, isCache);
      if r.Some? {
        var i := r.value;
        var blank := Blank(name, hash, rtype, ttl, ladv);
        ghost var s := d[..];
        if d[i].Live() {
          Drop(i);
        }
        if Valid() { FillKeeps(d[..], Ix(), i, blank); }
        assert d[..][i := blank] == s[i := blank];
        d[i] := blank;
        UpdHash(hash, i);
      }
    }

    /** DelDup (dnsd.cpp:653-694): a scan of the filled record's window only, for the first duplicate
        in it. */
    method DelDup(at: nat)
      requires Sane() && at < d.Length && d[at].Live()
      modifies this, d, lo, hi, ct
      ensures Sane() && WindowScanned(old(d[..]), old(Ix()), at, d[..], Ix())
    {
      hide Rec.Stored, Merged, Del, Indexed;
      ghost var s := d[..];
      var b := d[at].Bucket();
      var first, last := lo[b], hi[b];
      while first < last
        invariant lo[b] <= first && d[..] == s && Ix() == old(Ix())
        invariant NoDupIn(s, at, lo[b], first)
        decreases last - first
      {
        if first != at && Dup(d[first], d[at]) {
          assert IsDupIn(s, at, lo[b], hi[b], first);
          MergedIs(s, at, first);
          d[at] := d[at].(ttl := Later(d[first].ttl, d[at].ttl));
          Drop(first);
          return;
        }
        first := first + 1;
      }
    }

    /** A record as AddRRfromReply stores it: SetRecord, its data, DelDup (dnsd.cpp:420-455). With
        own, SetRecord is the one that passes the evicted record's hash; from a right index the
        duplicate goes and the index stays right. As written, a right index stays right if and only
        if no live record of another bucket is evicted, and windows that cover still do if and only
        if the store is not hiding. */
    method Store(rec: Rec, now: nat, isCache: bool, own: bool) returns (r: Option<nat>)
      requires Sane() && rec.Live()
      modifies this, d, lo, hi, ct
      ensures Sane() && (r.None? <==> d.Length == 0)
      ensures r.None? ==> d[..] == old(d[..]) && Ix() == old(Ix())
      ensures r.Some? ==> IsFreeSlot(old(d[..]), now, isCache, r.value)
      ensures r.Some? ==> LooselyWithoutDup(old(d[..])[r.value := rec], r.value, d[..])
      ensures own && old(Valid()) ==> Valid() && (r.Some? ==> d[..] == WithoutDup(old(d[..])[r.value := rec], r.value))
      ensures r.Some? && !own && old(Valid()) ==>
        && (Valid() <==> SameBucket(old(d[..]), r.value, rec))
        && (Covering() <==> SameBucket(old(d[..]), r.value, rec) || CountLive(old(d[..]), rec.Bucket()) != 1)
      ensures r.Some? && !own && old(Covering()) ==>
        && (Covering() <==> !Hiding(old(d[..]), old(Ix()), r.value, rec))
        && (Covering() ==> d[..] == WithoutDup(old(d[..])[r.value := rec], r.value))
      ensures r.Some? && !own && old(d[..])[r.value].Live() && old(Ix()).ct[rec.Bucket()] == 0 ==> needRehash > 128
    {
      hide InWindows, CountLive, Rec.Stored, WithoutDup, LooselyWithoutDup, IsFreeSlot, WindowScanned, Hiding, AsWritten;
      ghost var s, ix := d[..], Ix();
      if own {
        r := SetRecordOwnHash(rec.name, rec.hash, rec.rtype, rec.ttl, |rec.data|, now, isCache);
      } else {
        r := SetRecord(rec.name, rec.hash, rec.rtype, rec.ttl, |rec.data|, now, isCache);
      }
      if r.Some? {
        var i := r.value;
        FreeSlotInside(s, now, isCache, i);
        if own && Valid() { RewriteKeeps(d[..], Ix(), i, rec); }
        d[i] := rec;
        ghost var t, between := s[i := rec], Ix();
        assert d[..] == t;
        DelDup(i);
        ScanIsLoose(t, between, i, d[..], Ix());
        if own {
          if Indexed(t, between) { ScanKeeps(t, between, i, d[..], Ix()); }
        } else {
          if Indexed(s, ix) { StoreFromRight(s, ix, i, rec, d[..], Ix()); }
          if InWindows(s, ix) { StoreHides(s, ix, i, rec, d[..], Ix()); }
          if s[i].Live() && ix.ct[rec.Bucket()] == 0 { EvictFromZero(s, ix, i, rec, d[..], Ix()); }
        }
      }
    }

    /** FastFindRec (dnsd.cpp:598-650) on one array: first is the slot to start from, None the null
        pointer. What it returns is always a hit; with windows that cover, whatever the counts, or
        after the rehash it does when that is due, it is the plain scan's answer. */
    method FastFindRec(first: Option<nat>, hash: nat, nm: seq<byte>, now: nat) returns (r: Option<nat>)
      requires Sane()
      modifies this, d, lo, hi, ct
      ensures Sane() && OnlyExpired(old(d[..]), d[..], now)
      ensures r.Some? ==> r.value < d.Length && Hit(old(d[..])[r.value], hash, nm, now)
      ensures r.Some? && first.Some? ==> first.value <= r.value
      ensures old(Covering()) ==> r == PlainFind(old(d[..]), if first.Some? then first.value else 0, hash, nm, now)
      ensures old(Valid()) || old(needRehash) > 128 ==>
        Valid() && r == PlainFind(old(d[..]), if first.Some? then first.value else 0, hash, nm, now)
    {
      hide CountLive, InWindows, Hit;
      if needRehash > 128 {
        Rehash();
      }
      ghost var right, covered := Valid(), Covering();
      var b := hash % BUCKETS;
      var i := if first.Some? then first.value else lo[b];
      var last := hi[b];
      ghost var from := if first.Some? then first.value else 0;
      ghost var s := d[..];
      if covered { NoHitOutside(s, Ix(), hash, nm, now); }
      while i < last
        invariant Sane() && last <= d.Length && OnlyExpired(s, d[..], now) && (right ==> Valid())
        invariant covered ==> forall j :: from <= j < i && j < |s| ==> !Hit(s[j], hash, nm, now)
        invariant covered ==> forall j :: last <= j < |s| ==> !Hit(s[j], hash, nm, now)
        invariant first.Some? ==> from <= i
        decreases last - i
      {
        HitNow(s[i], d[i], hash, nm, now);
        if d[i].Live() {
          if d[i].Expired(now) {
            Drop(i);
          } else if d[i].hash == hash && EqNoCase(nm, d[i].name) {
            if covered { PlainFindIs(s, from, hash, nm, now, Some(i)); }
            return Some(i);
          }
        }
        i := i + 1;
      }
      if covered { PlainFindIs(s, from, hash, nm, now, None); }
      r := None;
    }

    /** The callers' loop (dnsd.cpp:1619-1632): from each hit on to the next. */
    method FindAll(hash: nat, nm: seq<byte>, now: nat) returns (hits: seq<nat>)
      requires Sane()
      modifies this, d, lo, hi, ct
      ensures Sane() && OnlyExpired(old(d[..]), d[..], now)
      ensures SomeHits(old(d[..]), hash, nm, now, hits)
      ensures old(Covering()) ==> (if hits == [] then None else Some(hits[0])) == PlainFind(old(d[..]), 0, hash, nm, now)
      ensures old(Valid()) || old(needRehash) > 128 ==> Valid() && hits == AllHits(old(d[..]), 0, hash, nm, now)
    {
      hide AllHits, PlainFind, Hit, OnlyExpired, SomeHits, NSRecordArray.Valid, NSRecordArray.Sane, NSRecordArray.Covering;
      ghost var s := d[..];
      hits := [];
      HitsBegin(s, hash, nm, now);
      var r := FastFindRec(None, hash, nm, now);
      ghost var right := old(Valid()) || old(needRehash) > 128;
      ghost var first := r;
      while r.Some?
        invariant Sane() && OnlyExpired(s, d[..], now) && SomeHits(s, hash, nm, now, hits)
        invariant r.Some? ==> r.value < d.Length && Hit(s[r.value], hash, nm, now)
        invariant (if hits == [] then r else Some(hits[0])) == first
        invariant r.Some? ==> r.value >= if hits == [] then 0 else hits[|hits| - 1] + 1
        invariant right ==> Valid() && AllHits(s, 0, hash, nm, now) == hits + From(s, r, hash, nm, now)
        decreases if r.Some? then d.Length - r.value else 0
      {
        var j := r.value;
        ghost var t := d[..];
        HitsGoOn(s, t, hash, nm, now, hits, j);
        hits := hits + [j];
        r := FastFindRec(Some(j + 1), hash, nm, now);
        ExpiredTwice(s, t, d[..], now);
        if r.Some? { HitBefore(s, t, r.value, hash, nm, now); }
      }
    }

    /** RemoveNS (dnsd.cpp:537-557) on one array. */
    method RemoveNS(nm: seq<byte>)
      requires Sane()
      modifies this, d, lo, hi, ct
      ensures Sane() && d[..] == WithoutNS(old(d[..]), nm)
      ensures old(Valid()) ==> Valid()
    {
      hide Indexed, Bounded, EqNoCase;
      ghost var s := d[..];
      for i := 0 to d.Length
        invariant Sane() && (old(Valid()) ==> Valid())
        invariant forall j :: 0 <= j < i ==> d[j] == if IsNS(s[j], nm) then s[j].Freed() else s[j]
        invariant forall j :: i <= j < d.Length ==> d[j] == s[j]
      {
        if IsNS(d[i], nm) {
          Drop(i);
        }
      }
    }

    method RunOne(op: Op, own: bool) returns (hits: seq<nat>)
      requires Sane() && op.Storable()
      modifies this, d, lo, hi, ct
      ensures Sane() && LooseStep(op, old(d[..]), d[..], hits)
      ensures RightStep(op, own, old(d[..]), d[..], hits, old(Valid()), Valid())
      ensures CoveredStep(op, own, old(d[..]), hits, old(Valid()), old(Covering()), Covering())
      ensures op.Look? && old(needRehash) > 128 ==> Valid() && PlainStep(op, old(d[..]), d[..], hits)
    {
      hide InWindows, CountLive, Bounded, MkName, Rec.Stored, WithoutDup, LooselyWithoutDup, AllHits, Hit;
      hits := [];
      match op
      case Put(rec, now) =>
        ghost var s := d[..];
        var r := Store(rec, now, true, own);
        if r.Some? { GentleAt(op, s, r.value); } else { RightCovers(d[..], Ix()); }
      case Look(nm, now) =>
        hits := FindAll(MkName(nm), nm, now);
      case Forget(nm) =>
        RemoveNS(nm);
      case Refresh =>
        Rehash();
    }

    /** Any run of stores, lookups, removals and rehashes, evicting and expiring on the way: states
        are the slots before, between and after; right says when the index is right, covers when its
        windows leave no live record out. No lookup ever answers what is no hit. */
    method Run(ops: seq<Op>, own: bool)
      returns (answers: seq<seq<nat>>, ghost states: seq<seq<Rec>>, ghost right: seq<bool>, ghost covers: seq<bool>)
      requires Sane() && forall op :: op in ops ==> op.Storable()
      modifies this, d, lo, hi, ct
      ensures Sane() && |answers| == |ops| && |states| == |right| == |covers| == |ops| + 1
      ensures states[0] == old(d[..]) && states[|ops|] == d[..]
      ensures right[0] == old(Valid()) && right[|ops|] == Valid()
      ensures covers[0] == old(Covering()) && covers[|ops|] == Covering()
      ensures forall k :: 0 <= k < |ops| ==> LooseStep(ops[k], states[k], states[k + 1], answers[k])
      ensures forall k :: 0 <= k < |ops| ==>
        RightStep(ops[k], own, states[k], states[k + 1], answers[k], right[k], right[k + 1])
      ensures forall k :: 0 <= k < |ops| ==>
        CoveredStep(ops[k], own, states[k], answers[k], right[k], covers[k], covers[k + 1])
    {
      hide LooseStep, RightStep, CoveredStep, CountLive, InWindows, Bounded, NSRecordArray.Valid;
      answers, states, right, covers := [], [d[..]], [Valid()], [Covering()];
      for k := 0 to |ops|
        invariant Sane() && |answers| == k && |states| == |right| == |covers| == k + 1
        invariant states[0] == old(d[..]) && states[k] == d[..]
        invariant right[0] == old(Valid()) && right[k] == Valid()
        invariant covers[0] == old(Covering()) && covers[k] == Covering()
        invariant forall j :: 0 <= j < k ==> LooseStep(ops[j], states[j], states[j + 1], answers[j])
        invariant forall j :: 0 <= j < k ==>
          RightStep(ops[j], own, states[j], states[j + 1], answers[j], right[j], right[j + 1])
        invariant forall j :: 0 <= j < k ==>
          CoveredStep(ops[j], own, states[j], answers[j], right[j], covers[j], covers[j + 1])
      {
        assert ops[k] in ops;
        var hits := RunOne(ops[k], own);
        answers, states := answers + [hits], states + [d[..]];
        right, covers := right + [Valid()], covers + [Covering()];
      }
    }
  }

  /** The hits from the one found on. */
  function From(s: seq<Rec>, r: Option<nat>, hash: nat, nm: seq<byte>, now: nat): seq<nat> {
    match r case None => [] case Some(j) => [j] + AllHits(s, j + 1, hash, nm, now)
  }

  lemma HitsBegin(s: seq<Rec>, hash: nat, nm: seq<byte>, now: nat)
    ensures OnlyExpired(s, s, now) && SomeHits(s, hash, nm, now, [])
    ensures AllHits(s, 0, hash, nm, now) == From(s, PlainFind(s, 0, hash, nm, now), hash, nm, now)
  {
    FromNext(s, 0, hash, nm, now);
  }

  lemma FromNext(s: seq<Rec>, from: nat, hash: nat, nm: seq<byte>, now: nat)
    ensures AllHits(s, from, hash, nm, now) == From(s, PlainFind(s, from, hash, nm, now), hash, nm, now)
  {
    hide AllHits, PlainFind, Hit;
    NextHit(s, from, hash, nm, now);
  }

  lemma FromHit(s: seq<Rec>, j: nat, hash: nat, nm: seq<byte>, now: nat)
    ensures From(s, Some(j), hash, nm, now) == [j] + AllHits(s, j + 1, hash, nm, now)
  {
    hide AllHits;
  }

  lemma HitsGoOn(s: seq<Rec>, t: seq<Rec>, hash: nat, nm: seq<byte>, now: nat, hits: seq<nat>, j: nat)
    requires OnlyExpired(s, t, now) && SomeHits(s, hash, nm, now, hits)
    requires j < |s| && Hit(s[j], hash, nm, now) && j >= if hits == [] then 0 else hits[|hits| - 1] + 1
    ensures SomeHits(s, hash, nm, now, hits + [j])
    ensures hits + From(s, Some(j), hash, nm, now)
      == hits + [j] + From(s, PlainFind(t, j + 1, hash, nm, now), hash, nm, now)
  {
    hide *;
    OneMoreHit(s, hash, nm, now, hits, j);
    FromNext(s, j + 1, hash, nm, now);
    FromHit(s, j, hash, nm, now);
    HitsSurvive(s, t, j + 1, hash, nm, now);
    Regroup(hits, [j], AllHits(s, j + 1, hash, nm, now));
  }

  lemma OneMoreHit(s: seq<Rec>, hash: nat, nm: seq<byte>, now: nat, hits: seq<nat>, j: nat)
    requires SomeHits(s, hash, nm, now, hits)
    requires j < |s| && Hit(s[j], hash, nm, now) && j >= if hits == [] then 0 else hits[|hits| - 1] + 1
    ensures SomeHits(s, hash, nm, now, hits + [j])
  {
    hide Hit;
  }

  lemma ExpiredTwice(s: seq<Rec>, t: seq<Rec>, u: seq<Rec>, now: nat)
    requires OnlyExpired(s, t, now) && OnlyExpired(t, u, now)
    ensures OnlyExpired(s, u, now)
  {
  }

  lemma FreeSlotInside(s: seq<Rec>, now: nat, isCache: bool, i: nat)
    requires IsFreeSlot(s, now, isCache, i)
    ensures i < |s|
  {
  }

  lemma MergedIs(s: seq<Rec>, at: nat, j: nat)
    requires at < |s| && j < |s| && at != j && Dup(s[j], s[at])
    ensures var t := s[at := s[at].(ttl := Later(s[j].ttl, s[at].ttl))];
      t[j] == s[j] && t[j := t[j].Freed()] == Merged(s, at, j) && s[j].hash == s[at].hash
  {
  }

  lemma ScanIsLoose(s: seq<Rec>, ix: Index, at: nat, s': seq<Rec>, ix': Index)
    requires at < |s| && ix.Shaped() && WindowScanned(s, ix, at, s', ix')
    ensures LooselyWithoutDup(s, at, s')
  {
    hide Dup, Merged, Del;
  }

  /** Windows that cover have the hits inside. */
  lemma NoHitOutside(s: seq<Rec>, ix: Index, hash: nat, nm: seq<byte>, now: nat)
    requires ix.Shaped() && InWindows(s, ix)
    ensures forall j :: 0 <= j < |s| && !(ix.lo[hash % BUCKETS] <= j < ix.hi[hash % BUCKETS]) ==> !Hit(s[j], hash, nm, now)
  {
    hide EqNoCase;
  }

  lemma HitNow(r: Rec, r': Rec, hash: nat, nm: seq<byte>, now: nat)
    requires r' == r || (r.Live() && r.Expired(now) && r' == r.Freed())
    ensures Hit(r, hash, nm, now) <==> r'.Live() && !r'.Expired(now) && r'.hash == hash && EqNoCase(nm, r'.name)
  {
    hide EqNoCase;
  }

  lemma HitBefore(s: seq<Rec>, t: seq<Rec>, j: nat, hash: nat, nm: seq<byte>, now: nat)
    requires OnlyExpired(s, t, now) && j < |s| && Hit(t[j], hash, nm, now)
    ensures Hit(s[j], hash, nm, now)
  {
    hide EqNoCase;
  }

  datatype Op =
    | Put(rec: Rec, now: nat)
    | Look(nm: seq<byte>, now: nat)
    | Forget(nm: seq<byte>)
    | Refresh
  {
    predicate Storable() { Put? ==> rec.Live() }
  }

  /** A step that evicts no live record of another bucket than the incoming one's. */
  ghost predicate Gentle(op: Op, s: seq<Rec>) {
    op.Put? ==> forall r: nat :: IsFreeSlot(s, op.now, true, r) ==> SameBucket(s, r, op.rec)
  }

  /** Or one that does so while the incoming record's bucket has not exactly one live record. */
  ghost predicate Mild(op: Op, s: seq<Rec>) {
    op.Put? ==> Gentle(op, s) || CountLive(s, op.rec.Bucket()) != 1
  }

  /** A lookup's first answer is the plain scan's, none included. */
  ghost predicate FirstExact(op: Op, s: seq<Rec>, hits: seq<nat>) {
    op.Look? ==> (if hits == [] then None else Some(hits[0])) == PlainFind(s, 0, MkName(op.nm), op.nm, op.now)
  }

  /** A step leaves a right index right if and only if own or it evicts no live record of another
      bucket, and is then the plain operation; a rehash makes any index right. */
  ghost predicate RightStep(op: Op, own: bool, s: seq<Rec>, s': seq<Rec>, hits: seq<nat>, wasRight: bool, isRight: bool) {
    && (wasRight ==> (isRight <==> own || Gentle(op, s)))
    && (wasRight && isRight ==> PlainStep(op, s, s', hits))
    && (op.Refresh? ==> isRight)
  }

  /** From a right index a store as written hides a live record if and only if it is not mild. While
      windows cover, whatever the counts, a lookup's first answer is the plain scan's. */
  ghost predicate CoveredStep(op: Op, own: bool, s: seq<Rec>, hits: seq<nat>, wasRight: bool, covered: bool, covers: bool) {
    && (wasRight && op.Put? && !own ==> (covers <==> Mild(op, s)))
    && (covered ==> FirstExact(op, s, hits))
  }

  lemma RightCovers(s: seq<Rec>, ix: Index)
    ensures Indexed(s, ix) ==> InWindows(s, ix)
  {
  }

  lemma GentleAt(op: Op, s: seq<Rec>, r: nat)
    requires op.Put? && IsFreeSlot(s, op.now, true, r)
    ensures r < |s| && (Gentle(op, s) <==> SameBucket(s, r, op.rec))
  {
    hide SameBucket;
    forall q: nat | IsFreeSlot(s, op.now, true, q) ensures q == r {
      FreeSlotIsUnique(s, op.now, true, r, q);
    }
  }

  /** Increasing slots, each a hit. */
  ghost predicate SomeHits(s: seq<Rec>, hash: nat, nm: seq<byte>, now: nat, hits: seq<nat>) {
    && (forall x :: 0 <= x < |hits| ==> hits[x] < |s| && Hit(s[hits[x]], hash, nm, now))
    && (forall x, y :: 0 <= x < y < |hits| ==> hits[x] < hits[y])
  }

  /** The operations on plain slots, with no index: a store takes the free slot and drops a
      duplicate, a lookup lists every hit and may let expired records go. */
  ghost predicate PlainStep(op: Op, s: seq<Rec>, s': seq<Rec>, hits: seq<nat>) {
    match op
    case Put(rec, now) =>
      if s == [] then s' == []
      else exists r: nat :: IsFreeSlot(s, now, true, r) && s' == WithoutDup(s[r := rec], r)
    case Look(nm, now) => OnlyExpired(s, s', now) && hits == AllHits(s, 0, MkName(nm), nm, now)
    case Forget(nm) => s' == WithoutNS(s, nm)
    case Refresh => s' == s
  }

  /** What of this holds under any index: a duplicate or a hit may be missed. */
  ghost predicate LooseStep(op: Op, s: seq<Rec>, s': seq<Rec>, hits: seq<nat>) {
    match op
    case Put(rec, now) =>
      if s == [] then s' == []
      else exists r: nat :: IsFreeSlot(s, now, true, r) && LooselyWithoutDup(s[r := rec], r, s')
    case Look(nm, now) => OnlyExpired(s, s', now) && SomeHits(s, MkName(nm), nm, now, hits)
    case Forget(nm) => s' == WithoutNS(s, nm)
    case Refresh => s' == s
  }

  /** Slots as a run keeps them: names under their hashes, no record twice. */
  ghost predicate Clean(s: seq<Rec>) {
    Named(s) && NoTwoSame(s)
  }

  predicate Proper(op: Op) {
    op.Put? ==> op.rec.Live() && op.rec.hash == MkName(op.rec.name)
  }

  /** A store whose DelDup drops nothing of another type. */
  ghost predicate DropsOwnKind(op: Op, s: seq<Rec>) {
    op.Put? ==> forall r: nat :: IsFreeSlot(s, op.now, true, r) ==> OneKind(s[r := op.rec], r)
  }

  lemma PlainStepKeeps(op: Op, s: seq<Rec>, s': seq<Rec>, hits: seq<nat>)
    requires PlainStep(op, s, s', hits) && Clean(s) && Proper(op) && DropsOwnKind(op, s)
    ensures Clean(s')
  {
    hide Named, NoTwoSame, MkName, Rec.Stored, WithoutDup, AllHits, IsNS, OneKind;
    match op
    case Put(rec, now) =>
      if s != [] {
        var r: nat :| IsFreeSlot(s, now, true, r) && s' == WithoutDup(s[r := rec], r);
        StoredApart(s, r, rec);
        assert s[r := rec][r := rec.Freed()] == s[r := rec][r := s[r := rec][r].Freed()];
        DelDupLeavesOne(s[r := rec], r);
        NamedStays(s, r, rec);
      }
    case Look(_, _) => FreedKeeps(s, s');
    case Forget(_) => FreedKeeps(s, s');
    case Refresh =>
  }

  /** So over a whole run of plain steps no two records are ever the same, as long as no store drops
      a record of another type. */
  lemma {:induction false} PlainRunKeeps(ops: seq<Op>, states: seq<seq<Rec>>, answers: seq<seq<nat>>, n: nat)
    requires |states| == |ops| + 1 && |answers| == |ops| && n <= |ops|
    requires forall k :: 0 <= k < |ops| ==> PlainStep(ops[k], states[k], states[k + 1], answers[k])
    requires forall k :: 0 <= k < |ops| ==> Proper(ops[k]) && DropsOwnKind(ops[k], states[k])
    requires Clean(states[0])
    ensures Clean(states[n])
  {
    hide Clean, PlainStep, Proper, DropsOwnKind;
    if n > 0 {
      PlainRunKeeps(ops, states, answers, n - 1);
      PlainStepKeeps(ops[n - 1], states[n - 1], states[n], answers[n - 1]);
    }
  }

  /** None does where stored bytes fix the type of every record in the cache and of every one stored. */
  lemma {:induction false} TypedRun(ops: seq<Op>, states: seq<seq<Rec>>, answers: seq<seq<nat>>, kind: seq<byte> -> nat, n: nat)
    requires |states| == |ops| + 1 && |answers| == |ops| && n <= |ops|
    requires forall k :: 0 <= k < |ops| ==> PlainStep(ops[k], states[k], states[k + 1], answers[k]) && Proper(ops[k])
    requires forall k :: 0 <= k < |ops| && ops[k].Put? ==> ops[k].rec.rtype == kind(ops[k].rec.Stored())
    requires Typed(states[0], kind)
    ensures Typed(states[n], kind) && (n < |ops| ==> DropsOwnKind(ops[n], states[n]))
  {
    hide Typed, PlainStep, Rec.Stored;
    if n > 0 {
      TypedRun(ops, states, answers, kind, n - 1);
      TypedStep(ops[n - 1], states[n - 1], states[n], answers[n - 1], kind);
    }
    if n < |ops| && ops[n].Put? {
      forall r: nat | IsFreeSlot(states[n], ops[n].now, true, r) ensures OneKind(states[n][r := ops[n].rec], r) {
        TypedIsOneKind(states[n], kind, r, ops[n].rec);
      }
    }
  }

  lemma TypedStep(op: Op, s: seq<Rec>, s': seq<Rec>, hits: seq<nat>, kind: seq<byte> -> nat)
    requires PlainStep(op, s, s', hits) && Typed(s, kind) && (op.Put? ==> op.rec.rtype == kind(op.rec.Stored()))
    ensures Typed(s', kind)
  {
    hide Typed, MkName, Rec.Stored, WithoutDup, AllHits, IsNS;
    match op
    case Put(rec, now) =>
      if s != [] {
        var r: nat :| IsFreeSlot(s, now, true, r) && s' == WithoutDup(s[r := rec], r);
        TypedStays(s, kind, r, rec);
      }
    case Look(_, _) => FreedTyped(s, s', kind);
    case Forget(_) => FreedTyped(s, s', kind);
    case Refresh =>
  }

  /** What SetRecord leaves in the slot: zeroed data behind the name. */
  function Blank(name: seq<byte>, hash: nat, rtype: nat, ttl: nat, ladv: nat): Rec {
    Rec(rtype, ttl, hash, name, seq(ladv, _ => 0), 0)
  }
}
