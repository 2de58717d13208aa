/** What SetRecord's eviction, as it is written, does to the index (dnsd.cpp:360-381). */
module DnsEvict {
  import opened Bytes
  import opened DnsConst
  import opened DnsHash
  import opened DnsIndex

  predicate SameBucket(s: seq<Rec>, i: nat, rec: Rec)
    requires i < |s|
  {
    s[i].Live() ==> s[i].Bucket() == rec.Bucket()
  }

  /** The index after SetRecord as written: a live record in the slot goes under the incoming hash. */
  function AsWritten(s: seq<Rec>, ix: Index, i: nat, hash: nat): (r: Index)
    requires i < |s| && ix.Shaped()
    ensures r.Shaped()
  {
    Upd(if s[i].Live() then Del(ix, |s|, hash) else ix, hash, i)
  }

  // ---------------------------------------------------------------- the whole index

  /** The index stays right if and only if no live record of another bucket is evicted. */
  lemma EvictAsWritten(s: seq<Rec>, ix: Index, i: nat, r: Rec)
    requires Indexed(s, ix) && i < |s| && r.Live()
    ensures Indexed(s[i := r], AsWritten(s, ix, i, r.hash)) <==> SameBucket(s, i, r)
    ensures !SameBucket(s, i, r) ==> Miscounted(s[i := r], AsWritten(s, ix, i, r.hash), s[i].Bucket())
  {
    hide CountLive;
    var s' := s[i := r];
    if !s[i].Live() {
      FillKeeps(s, ix, i, r);
    } else if s[i].Bucket() == r.Bucket() {
      DropKeeps(s, ix, i);
      var freed := s[i := s[i].Freed()];
      FillKeeps(freed, Del(ix, |s|, s[i].hash), i, r);
      assert freed[i := r] == s';
    } else {
      EvictMiscounts(s, ix, i, r);
    }
  }

  /** Bucket b counts a number of live records that it does not have. */
  ghost predicate Miscounted(s: seq<Rec>, ix: Index, b: nat) {
    ix.Shaped() && b < BUCKETS && ix.ct[b] != CountLive(s, b)
  }

  lemma EvictMiscounts(s: seq<Rec>, ix: Index, i: nat, r: Rec)
    requires Indexed(s, ix) && i < |s| && r.Live() && !SameBucket(s, i, r)
    ensures Miscounted(s[i := r], AsWritten(s, ix, i, r.hash), s[i].Bucket())
  {
    var b := s[i].Bucket();
    CountUpdate(s, i, r, b);
    assert AsWritten(s, ix, i, r.hash).ct[b] == ix.ct[b];
  }

  /** A miscount stays while other buckets change. */
  lemma MiscountStays(s: seq<Rec>, ix: Index, b: nat, i: nat, r: Rec, ix': Index)
    requires Miscounted(s, ix, b) && i < |s| && ix'.Shaped() && ix'.ct[b] == ix.ct[b]
    requires LiveIn(s[i], b) <==> LiveIn(r, b)
    ensures Miscounted(s[i := r], ix', b)
  {
    CountUpdate(s, i, r, b);
  }

  /** What DelHash notes: a bucket that counts none makes a rehash due, with the next lookup; one that
      counts more than one brings it a step nearer. */
  lemma RehashDue(ix: Index, cnt: nat, hash: nat)
    requires ix.Shaped()
    ensures var b := hash % 1024;
      && (ix.ct[b] == 0 ==> Del(ix, cnt, hash).stale > 128)
      && (ix.ct[b] == 1 ==> Del(ix, cnt, hash).stale == ix.stale)
      && (ix.ct[b] > 1 ==> Del(ix, cnt, hash).stale == ix.stale + 1)
  {
  }

  // ---------------------------------------------------------------- the windows

  /** Another live record of bucket b than the one at i. */
  ghost predicate Another(s: seq<Rec>, i: nat, b: nat) {
    exists j: nat :: j < |s| && j != i && LiveIn(s[j], b)
  }

  /** Whatever the counts: SetRecord leaves a live record outside its window if and only if it evicts
      a live record while the incoming record's bucket counts one and has another. That bucket's
      window is then closed, and opened again around the new record alone. */
  lemma EvictHides(s: seq<Rec>, ix: Index, i: nat, r: Rec)
    requires Bounded(ix, |s|) && InWindows(s, ix) && i < |s| && r.Live()
    ensures InWindows(s[i := r], AsWritten(s, ix, i, r.hash)) <==>
      !(s[i].Live() && ix.ct[r.Bucket()] == 1 && Another(s, i, r.Bucket()))
  {
    var s', b, after := s[i := r], r.Bucket(), AsWritten(s, ix, i, r.hash);
    if s[i].Live() && ix.ct[b] == 1 {
      if Another(s, i, b) {
        var j: nat :| j < |s| && j != i && LiveIn(s[j], b);
        WindowReopened(s, ix, i, r, j);
        assert s'[j] == s[j];
      } else {
        forall j | 0 <= j < |s| && s'[j].Live() ensures after.lo[s'[j].Bucket()] <= j < after.hi[s'[j].Bucket()] {
          assert j != i ==> s'[j] == s[j] && s[j].Bucket() != b;
        }
      }
    } else {
      forall j | 0 <= j < |s| && s'[j].Live() ensures after.lo[s'[j].Bucket()] <= j < after.hi[s'[j].Bucket()] {
        assert j != i ==> s'[j] == s[j];
      }
    }
  }

  lemma WindowReopened(s: seq<Rec>, ix: Index, i: nat, r: Rec, j: nat)
    requires Bounded(ix, |s|) && i < |s| && j < |s| && i != j && s[i].Live() && ix.ct[r.Bucket()] == 1
    ensures var after := AsWritten(s, ix, i, r.hash);
      !(after.lo[r.Bucket()] <= j < after.hi[r.Bucket()]) && after.stale == ix.stale
  {
  }

  // ---------------------------------------------------------------- DelDup behind it

  /** DelDup's scan of the filled record's window: the first duplicate in it goes under its hash. */
  ghost predicate WindowScanned(s: seq<Rec>, ix: Index, at: nat, s': seq<Rec>, ix': Index)
    requires at < |s| && ix.Shaped()
  {
    var lo, hi := ix.lo[s[at].Bucket()], ix.hi[s[at].Bucket()];
    || (NoDupIn(s, at, lo, hi) && s' == s && ix' == ix)
    || exists j: nat :: IsDupIn(s, at, lo, hi, j) && s' == Merged(s, at, j) && ix' == Del(ix, |s|, s[at].hash)
  }

  ghost predicate NoDupIn(s: seq<Rec>, at: nat, lo: nat, hi: nat)
    requires at < |s|
  {
    forall j :: lo <= j < hi && j < |s| && j != at ==> !Dup(s[j], s[at])
  }

  /** The first duplicate in the window. */
  ghost predicate IsDupIn(s: seq<Rec>, at: nat, lo: nat, hi: nat, j: nat)
    requires at < |s|
  {
    j < |s| && lo <= j < hi && j != at && Dup(s[j], s[at]) && NoDupIn(s, at, lo, j)
  }

  /** A window that covers its bucket shows every duplicate. */
  lemma CoveredScan(s: seq<Rec>, ix: Index, at: nat, s': seq<Rec>, ix': Index)
    requires at < |s| && s[at].Live() && ix.Shaped() && InWindows(s, ix) && WindowScanned(s, ix, at, s', ix')
    ensures s' == WithoutDup(s, at)
    ensures ix' == if FirstDup(s, at, 0).Some? then Del(ix, |s|, s[at].hash) else ix
  {
    hide Rec.Stored, Merged, Del;
    var lo, hi := ix.lo[s[at].Bucket()], ix.hi[s[at].Bucket()];
    assert forall j :: 0 <= j < |s| && Dup(s[j], s[at]) ==> lo <= j < hi;
    if NoDupIn(s, at, lo, hi) {
      FirstDupIs(s, at, None);
    } else {
      var j: nat :| IsDupIn(s, at, lo, hi, j) && s' == Merged(s, at, j) && ix' == Del(ix, |s|, s[at].hash);
      FirstDupIs(s, at, Some(j));
    }
  }

  /** From a right index DelDup leaves a right one. */
  lemma ScanKeeps(s: seq<Rec>, ix: Index, at: nat, s': seq<Rec>, ix': Index)
    requires at < |s| && s[at].Live() && Indexed(s, ix) && WindowScanned(s, ix, at, s', ix')
    ensures Indexed(s', ix') && s' == WithoutDup(s, at)
  {
    hide Rec.Stored, CountLive, InWindows, Del;
    CoveredScan(s, ix, at, s', ix');
    match FirstDup(s, at, 0)
    case None =>
    case Some(j) =>
      var filled := s[at].(ttl := Later(s[j].ttl, s[at].ttl));
      RewriteKeeps(s, ix, at, filled);
      DropKeeps(s[at := filled], ix, j);
  }

  /** DelDup hides a record from covering windows if and only if it drops a duplicate while the count
      reads one: it then closes the window over the filled record. */
  lemma ScanHides(s: seq<Rec>, ix: Index, at: nat, s': seq<Rec>, ix': Index)
    requires at < |s| && s[at].Live() && Bounded(ix, |s|) && InWindows(s, ix) && WindowScanned(s, ix, at, s', ix')
    ensures InWindows(s', ix') <==> !(FirstDup(s, at, 0).Some? && ix.ct[s[at].Bucket()] == 1)
  {
    hide Rec.Stored;
    CoveredScan(s, ix, at, s', ix');
    match FirstDup(s, at, 0)
    case None =>
    case Some(j) =>
      assert s'[at].Live() && s'[at].Bucket() == s[at].Bucket();
      assert forall k :: 0 <= k < |s| && s'[k].Live() ==> s[k].Live() && s'[k].Bucket() == s[k].Bucket();
  }

  // ---------------------------------------------------------------- a whole store

  /** What leaves a live record outside its window, from windows that cover: the eviction, or the drop
      of a duplicate behind it. */
  ghost predicate Hiding(s: seq<Rec>, ix: Index, i: nat, rec: Rec)
    requires i < |s| && ix.Shaped()
  {
    || (s[i].Live() && ix.ct[rec.Bucket()] == 1 && Another(s, i, rec.Bucket()))
    || (FirstDup(s[i := rec], i, 0).Some? && AsWritten(s, ix, i, rec.hash).ct[rec.Bucket()] == 1)
  }

  /** The store as written from covering windows, whatever the counts: they still cover if and only if
      it is not hiding, and then the first duplicate is gone. */
  lemma StoreHides(s: seq<Rec>, ix: Index, i: nat, rec: Rec, s': seq<Rec>, ix': Index)
    requires Bounded(ix, |s|) && InWindows(s, ix) && i < |s| && rec.Live()
    requires WindowScanned(s[i := rec], AsWritten(s, ix, i, rec.hash), i, s', ix')
    ensures ix'.Shaped() && (InWindows(s', ix') <==> !Hiding(s, ix, i, rec))
    ensures InWindows(s', ix') ==> s' == WithoutDup(s[i := rec], i)
  {
    hide Rec.Stored, InWindows, WithoutDup, Merged;
    var t, after := s[i := rec], AsWritten(s, ix, i, rec.hash);
    EvictHides(s, ix, i, rec);
    AsWrittenBounded(s, ix, i, rec.hash);
    if InWindows(t, after) {
      CoveredScan(t, after, i, s', ix');
      ScanHides(t, after, i, s', ix');
    } else {
      assert after.lo[rec.Bucket()] == i && after.hi[rec.Bucket()] == i + 1;
      assert NoDupIn(t, i, i, i + 1);
      assert s' == t && ix' == after;
    }
  }

  /** Evicting while the incoming bucket counts none, a store makes a rehash due. */
  lemma EvictFromZero(s: seq<Rec>, ix: Index, i: nat, rec: Rec, s': seq<Rec>, ix': Index)
    requires i < |s| && ix.Shaped() && s[i].Live() && ix.ct[rec.Bucket()] == 0
    requires WindowScanned(s[i := rec], AsWritten(s, ix, i, rec.hash), i, s', ix')
    ensures ix'.stale > 128
  {
    hide Rec.Stored, Dup, Merged;
  }

  lemma AsWrittenBounded(s: seq<Rec>, ix: Index, i: nat, hash: nat)
    requires Bounded(ix, |s|) && i < |s|
    ensures Bounded(AsWritten(s, ix, i, hash), |s|)
  {
  }

  /** From a right index: a live record is hidden if and only if a live record of another bucket is
      evicted and the incoming record's bucket has exactly one. */
  lemma HidingFromRight(s: seq<Rec>, ix: Index, i: nat, rec: Rec)
    requires Indexed(s, ix) && i < |s| && rec.Live()
    ensures Hiding(s, ix, i, rec) <==> !SameBucket(s, i, rec) && CountLive(s, rec.Bucket()) == 1
  {
    hide Rec.Stored, CountLive, InWindows, Another, Dup;
    var b, t := rec.Bucket(), s[i := rec];
    AnotherCounts(s, i, b);
    if FirstDup(t, i, 0).Some? { DupIsAnother(s, i, rec, FirstDup(t, i, 0).value); }
  }

  lemma DupIsAnother(s: seq<Rec>, i: nat, rec: Rec, j: nat)
    requires i < |s| && j < |s| && i != j && Dup(s[i := rec][j], s[i := rec][i])
    ensures Another(s, i, rec.Bucket())
  {
    hide Rec.Stored;
    assert LiveIn(s[j], rec.Bucket());
  }

  lemma AnotherCounts(s: seq<Rec>, i: nat, b: nat)
    requires i < |s|
    ensures Another(s, i, b) <==> CountLive(s, b) >= if LiveIn(s[i], b) then 2 else 1
  {
    if Another(s, i, b) {
      var j: nat :| j < |s| && j != i && LiveIn(s[j], b);
      CountOthers(s, i, j, b);
    } else if CountLive(s, b) > 0 {
      var f := Rec(0, 0, 0, [], [], 0);
      CountUpdate(s, i, f, b);
      if CountLive(s[i := f], b) > 0 {
        var j := CountSome(s[i := f], b);
      }
    }
  }

  lemma CountOthers(s: seq<Rec>, i: nat, j: nat, b: nat)
    requires i < |s| && j < |s| && i != j && LiveIn(s[j], b)
    ensures CountLive(s, b) >= if LiveIn(s[i], b) then 2 else 1
  {
    var f := Rec(0, 0, 0, [], [], 0);
    CountUpdate(s, i, f, b);
    CountPositive(s[i := f], j, b);
  }

  /** From a right index, the whole store: the index stays right if and only if no live record of
      another bucket is evicted, and no record is hidden if and only if moreover the incoming
      record's bucket had exactly one. */
  lemma StoreFromRight(s: seq<Rec>, ix: Index, i: nat, rec: Rec, s': seq<Rec>, ix': Index)
    requires Indexed(s, ix) && i < |s| && rec.Live()
    requires WindowScanned(s[i := rec], AsWritten(s, ix, i, rec.hash), i, s', ix')
    ensures Indexed(s', ix') <==> SameBucket(s, i, rec)
    ensures ix'.Shaped() && (InWindows(s', ix') <==> SameBucket(s, i, rec) || CountLive(s, rec.Bucket()) != 1)
    ensures InWindows(s', ix') ==> s' == WithoutDup(s[i := rec], i)
  {
    hide Rec.Stored, InWindows, WithoutDup, Merged, CountLive, WindowScanned, Hiding;
    var t, after := s[i := rec], AsWritten(s, ix, i, rec.hash);
    StoreHides(s, ix, i, rec, s', ix');
    HidingFromRight(s, ix, i, rec);
    EvictAsWritten(s, ix, i, rec);
    if SameBucket(s, i, rec) {
      ScanKeeps(t, after, i, s', ix');
    } else {
      ScanMiscounts(t, after, i, s', ix', s[i].Bucket());
    }
  }

  /** DelDup mends no other bucket's count. */
  lemma ScanMiscounts(s: seq<Rec>, ix: Index, at: nat, s': seq<Rec>, ix': Index, e: nat)
    requires at < |s| && s[at].Live() && Miscounted(s, ix, e) && e != s[at].Bucket()
    requires WindowScanned(s, ix, at, s', ix')
    ensures Miscounted(s', ix', e)
  {
    hide Rec.Stored, CountLive;
    var lo, hi := ix.lo[s[at].Bucket()], ix.hi[s[at].Bucket()];
    if s' != s || ix' != ix {
      var j: nat :| IsDupIn(s, at, lo, hi, j) && s' == Merged(s, at, j) && ix' == Del(ix, |s|, s[at].hash);
      var filled := s[at].(ttl := Later(s[j].ttl, s[at].ttl));
      var t := s[at := filled];
      MiscountStays(s, ix, e, at, filled, ix);
      MiscountStays(t, ix, e, j, t[j].Freed(), ix');
    }
  }

  // ---------------------------------------------------------------- caches on which it happens

  const A: seq<byte> := [97]
  const B: seq<byte> := [98]
  const FREE := Rec(0, 0, 0, [], [], 0)

  /** An address record as it is stored. */
  function AddressRec(name: seq<byte>, ttl: nat, ip: nat): Rec {
    Rec(TYPE_A, ttl, MkName(name), name, Repeat<byte>(0, 4), ip)
  }

  lemma BucketsOfAAndB(ttl: nat, ip: nat)
    ensures AddressRec(A, ttl, ip).Bucket() == 194 && AddressRec(B, ttl, ip).Bucket() == 196
  {
    hide MkName;
    HashesOfAAndB();
  }

  /** A full cache of any size: one address of a, else addresses of b, the second slot's the soonest
      to run out. */
  function FullCache(n: nat, now: nat): (s: seq<Rec>)
    ensures |s| == n && forall i :: 0 <= i < n ==> s[i] == FullSlot(now, i)
  {
    seq(n, i requires 0 <= i => FullSlot(now, i))
  }

  function FullSlot(now: nat, i: nat): Rec {
    if i == 0 then AddressRec(A, now + 300, 0) else AddressRec(B, if i == 1 then now + 20 else now + 300, i)
  }

  lemma {:induction false} OnlyFirst(s: seq<Rec>, b: nat)
    requires s != [] && LiveIn(s[0], b) && forall i :: 1 <= i < |s| ==> !LiveIn(s[i], b)
    ensures CountLive(s, b) == 1
  {
    if |s| == 1 {
      assert s[..0] == [];
    } else {
      OnlyFirst(s[..|s| - 1], b);
    }
  }

  /** With its index just rebuilt, a second address of a evicts the second slot: the first address
      is live and unexpired but no longer in its bucket's window, and no rehash is due. */
  lemma EvictHidesARecord(n: nat, now: nat)
    requires 2 <= n <= MAX_SLOTS
    ensures var s, r := FullCache(n, now), AddressRec(A, now + 300, n);
      && Indexed(s, Rebuilt(s, n)) && Named(s) && NoTwoSame(s + [r]) && IsFreeSlot(s, now, true, 1)
      && PlainFind(s[1 := r], 0, r.hash, A, now) == Some(0)
      && var after := AsWritten(s, Rebuilt(s, n), 1, r.hash);
         !(after.lo[r.Bucket()] <= 0 < after.hi[r.Bucket()]) && after.stale == 0
  {
    hide MkName, Rec.Stored, Upd, Del, CountLive, Rebuilt;
    var s, r := FullCache(n, now), AddressRec(A, now + 300, n);
    BucketsOfAAndB(now + 300, 0);
    forall i | 0 <= i < n ensures LiveIn(s[i], 194) <==> i == 0 {
      BucketsOfAAndB(s[i].ttl, i);
    }
    OnlyFirst(s, 194);
    RebuiltIsRight(s, n);
    BucketsOfAAndB(now + 300, n);
    WindowReopened(s, Rebuilt(s, n), 1, r, 0);
    PlainFindIs(s[1 := r], 0, r.hash, A, now, Some(0));
  }

  /** A cache with one free slot, then a record of b past its TTL, then free slots. */
  function StaleCache(n: nat, now: nat): (s: seq<Rec>)
    requires n >= 2 && now > 0
    ensures |s| == n
  {
    [FREE, AddressRec(B, now - 1, 0)] + Repeat(FREE, n - 2)
  }

  /** A reply that brings two addresses of a into it, with room for both: the first takes the free
      slot, the second evicts the expired record and closes a's window over itself. Half the reply is
      lost to lookups, and no rehash is due. */
  lemma ReplyHalfLost(n: nat, now: nat)
    requires 2 <= n <= MAX_SLOTS && now > SIXTY_DAYS + 1
    ensures var s, x, y := StaleCache(n, now), AddressRec(A, now + 320, 1), AddressRec(A, now + 320, 2);
      var ix, t, u := Rebuilt(s, n), s[0 := x], s[0 := x][1 := y];
      && Indexed(s, ix) && Named(s) && s[1].Expired(now)
      && IsFreeSlot(s, now, true, 0) && WithoutDup(t, 0) == t
      && IsFreeSlot(t, now, true, 1) && WithoutDup(u, 1) == u
      && var after := AsWritten(t, AsWritten(s, ix, 0, x.hash), 1, y.hash);
         && PlainFind(u, 0, x.hash, A, now) == Some(0)
         && !(after.lo[x.Bucket()] <= 0 < after.hi[x.Bucket()]) && after.stale == 0
  {
    hide MkName, Rec.Stored, Upd, Del, CountLive, Rebuilt;
    var s, x, y := StaleCache(n, now), AddressRec(A, now + 320, 1), AddressRec(A, now + 320, 2);
    var ix, t, u := Rebuilt(s, n), s[0 := x], s[0 := x][1 := y];
    BucketsOfAAndB(now + 320, 1);
    BucketsOfAAndB(now + 320, 2);
    BucketsOfAAndB(now - 1, 0);
    RebuiltIsRight(s, n);
    FillKeeps(s, ix, 0, x);
    OnlyFirst(t, 194);
    assert AsWritten(s, ix, 0, x.hash).stale == 0 by { UpdStale(ix, x.hash, 0); }
    WindowReopened(t, AsWritten(s, ix, 0, x.hash), 1, y, 0);
    FirstDupIs(t, 0, None);
    FirstDupIs(u, 1, None);
    PlainFindIs(u, 0, x.hash, A, now, Some(0));
  }

  lemma UpdStale(ix: Index, hash: nat, i: nat)
    requires ix.Shaped()
    ensures Upd(ix, hash, i).stale == ix.stale
  {
  }
}
