/** The DNS cache's hash index as values: per bucket a window [lo, hi) of slots and a count. */
module DnsIndex {
  import opened Bytes
  import opened DnsConst
  import opened DnsHash

  const BUCKETS := 1024
  const MAX_SLOTS := 0x1000

  /** One slot of the record array; type 0 marks it free. */
  datatype Rec = Rec(rtype: nat, ttl: nat, hash: nat, name: seq<byte>, data: seq<byte>, ip: nat) {
    predicate Live() { rtype != 0 }

    /** FreeRR: the type goes, the rest of the slot is left behind. */
    function Freed(): Rec { this.(rtype := 0) }

    /** A TTL beyond sixty days is an absolute time. */
    predicate Expired(now: nat) { ttl < now && ttl > SIXTY_DAYS }

    function Bucket(): (b: nat)
      ensures b < BUCKETS
    {
      hash % BUCKETS
    }

    /** The bytes at dt: the name, the data, and one zero byte more. */
    function Stored(): seq<byte> { name + [0] + data + [0] }
  }

  datatype Index = Index(lo: seq<nat>, hi: seq<nat>, ct: seq<nat>, stale: nat) {
    predicate Shaped() { |lo| == |hi| == |ct| == BUCKETS }
  }

  predicate LiveIn(r: Rec, b: nat) { r.Live() && r.Bucket() == b }

  function CountLive(s: seq<Rec>, b: nat): (n: nat)
    ensures n <= |s|
  {
    if s == [] then 0 else CountLive(s[..|s| - 1], b) + if LiveIn(s[|s| - 1], b) then 1 else 0
  }

  /** No window reaches past the n slots. */
  ghost predicate Bounded(ix: Index, n: nat) {
    ix.Shaped() && forall b :: 0 <= b < BUCKETS ==> ix.hi[b] <= n
  }

  /** Every live record lies in its bucket's window. */
  ghost predicate InWindows(s: seq<Rec>, ix: Index)
    requires ix.Shaped()
  {
    forall i :: 0 <= i < |s| && s[i].Live() ==> ix.lo[s[i].Bucket()] <= i < ix.hi[s[i].Bucket()]
  }

  /** Every live record lies in its bucket's window, and the count is the number of them. */
  ghost predicate Indexed(s: seq<Rec>, ix: Index) {
    && Bounded(ix, |s|) && |s| <= MAX_SLOTS
    && InWindows(s, ix)
    && (forall b :: 0 <= b < BUCKETS ==> ix.ct[b] == CountLive(s, b))
  }

  /** UpdHash; counts have sixteen bits. */
  function Upd(ix: Index, hash: nat, i: nat): (r: Index)
    requires ix.Shaped()
    ensures r.Shaped()
  {
    var b := hash % BUCKETS;
    Index(if ix.lo[b] > i then ix.lo[b := i] else ix.lo,
          if ix.hi[b] <= i then ix.hi[b := i + 1] else ix.hi,
          ix.ct[b := (ix.ct[b] + 1) % 0x1_0000], ix.stale)
  }

  /** DelHash: the last record out empties the window; a miscount asks for a rehash. */
  function Del(ix: Index, cnt: nat, hash: nat): (r: Index)
    requires ix.Shaped()
    ensures r.Shaped()
  {
    var b := hash % BUCKETS;
    if ix.ct[b] == 0 then ix.(stale := 1024)
    else if ix.ct[b] == 1 then Index(ix.lo[b := cnt], ix.hi[b := 0], ix.ct[b := 0], ix.stale)
    else ix.(ct := ix.ct[b := ix.ct[b] - 1], stale := ix.stale + 1)
  }

  // ---------------------------------------------------------------- counting

  lemma {:induction false} CountUpdate(s: seq<Rec>, i: nat, r: Rec, b: nat)
    requires i < |s|
    ensures CountLive(s[i := r], b) + (if LiveIn(s[i], b) then 1 else 0)
      == CountLive(s, b) + (if LiveIn(r, b) then 1 else 0)
    decreases |s|
  {
    var n := |s| - 1;
    if i == n {
      assert s[i := r][..n] == s[..n];
    } else {
      assert s[i := r][..n] == s[..n][i := r];
      CountUpdate(s[..n], i, r, b);
    }
  }

  lemma {:induction false} CountPositive(s: seq<Rec>, i: nat, b: nat)
    requires i < |s| && LiveIn(s[i], b)
    ensures CountLive(s, b) > 0
  {
    if i < |s| - 1 {
      CountPositive(s[..|s| - 1], i, b);
    }
  }

  lemma {:induction false} CountSome(s: seq<Rec>, b: nat) returns (i: nat)
    requires CountLive(s, b) > 0
    ensures i < |s| && LiveIn(s[i], b)
  {
    i := |s| - 1;
    if !LiveIn(s[i], b) { i := CountSome(s[..i], b); }
  }

  lemma CountNone(s: seq<Rec>, b: nat)
    requires CountLive(s, b) == 0
    ensures forall i :: 0 <= i < |s| ==> !LiveIn(s[i], b)
  {
    forall i | 0 <= i < |s| ensures !LiveIn(s[i], b) {
      if LiveIn(s[i], b) { CountPositive(s, i, b); }
    }
  }

  // ---------------------------------------------------------------- what keeps the index right

  /** Dropping a live record under its own hash. */
  lemma DropKeeps(s: seq<Rec>, ix: Index, i: nat)
    requires Indexed(s, ix) && i < |s| && s[i].Live()
    ensures ix.ct[s[i].Bucket()] > 0
    ensures Indexed(s[i := s[i].Freed()], Del(ix, |s|, s[i].hash))
  {
    var h, s' := s[i].Bucket(), s[i := s[i].Freed()];
    CountPositive(s, i, h);
    forall b | 0 <= b < BUCKETS
      ensures CountLive(s', b) == CountLive(s, b) - if b == h then 1 else 0
    {
      CountUpdate(s, i, s[i].Freed(), b);
    }
    if ix.ct[h] == 1 {
      CountNone(s', h);
    }
    assert forall j :: 0 <= j < |s| && s'[j].Live() ==> s'[j] == s[j];
  }

  /** Filling a free slot. */
  lemma FillKeeps(s: seq<Rec>, ix: Index, i: nat, r: Rec)
    requires Indexed(s, ix) && i < |s| && !s[i].Live() && r.Live()
    ensures Indexed(s[i := r], Upd(ix, r.hash, i))
  {
    var s' := s[i := r];
    forall b | 0 <= b < BUCKETS
      ensures CountLive(s', b) == CountLive(s, b) + if b == r.Bucket() then 1 else 0
    {
      CountUpdate(s, i, r, b);
    }
    assert forall j :: 0 <= j < |s| && j != i ==> s'[j] == s[j];
  }

  /** The index looks only at whether a slot is live and under which hash. */
  lemma RewriteKeeps(s: seq<Rec>, ix: Index, i: nat, r: Rec)
    requires Indexed(s, ix) && i < |s| && r.Live() == s[i].Live() && r.hash == s[i].hash
    ensures Indexed(s[i := r], ix)
  {
    forall b | 0 <= b < BUCKETS ensures CountLive(s[i := r], b) == CountLive(s, b) {
      CountUpdate(s, i, r, b);
    }
  }

  /** The index of the first n slots, while Rehash runs over them. */
  ghost predicate IndexedUpTo(s: seq<Rec>, ix: Index, n: nat) {
    && Bounded(ix, n) && n <= |s| <= MAX_SLOTS
    && (forall i :: 0 <= i < n && s[i].Live() ==> ix.lo[s[i].Bucket()] <= i < ix.hi[s[i].Bucket()])
    && (forall b :: 0 <= b < BUCKETS ==> ix.ct[b] == CountLive(s[..n], b))
  }

  /** The index of n empty slots. */
  function Empty(n: nat): (ix: Index)
    ensures ix.Shaped()
  {
    Index(seq(BUCKETS, _ => n), seq(BUCKETS, _ => 0), seq(BUCKETS, _ => 0), 0)
  }

  /** What Rehash makes of the first n slots. */
  function Rebuilt(s: seq<Rec>, n: nat): (ix: Index)
    requires n <= |s|
    ensures ix.Shaped() && ix.stale == 0
  {
    if n == 0 then Empty(|s|)
    else
      var ix := Rebuilt(s, n - 1);
      if s[n - 1].Live() then Upd(ix, s[n - 1].hash, n - 1) else ix
  }

  lemma {:induction false} RebuiltIsRight(s: seq<Rec>, n: nat)
    requires n <= |s| <= MAX_SLOTS
    ensures IndexedUpTo(s, Rebuilt(s, n), n)
    ensures n == |s| ==> Indexed(s, Rebuilt(s, n))
    decreases n
  {
    if n == 0 {
      assert s[..0] == [];
    } else {
      RebuiltIsRight(s, n - 1);
      RehashStep(s, Rebuilt(s, n - 1), n - 1);
    }
    if n == |s| { assert s[..n] == s; }
  }

  lemma RehashStep(s: seq<Rec>, ix: Index, n: nat)
    requires IndexedUpTo(s, ix, n) && n < |s|
    ensures IndexedUpTo(s, if s[n].Live() then Upd(ix, s[n].hash, n) else ix, n + 1)
  {
    assert s[..n + 1][..n] == s[..n];
  }

  // ---------------------------------------------------------------- the slot to fill

  /** A slot SetRecord may take at once: free, or expired in the cache. */
  predicate Reusable(r: Rec, now: nat, isCache: bool) {
    !r.Live() || (r.ttl < now && isCache)
  }

  /** The slot SetRecord takes: the first reusable one, else the first of the lowest TTL. */
  ghost predicate IsFreeSlot(s: seq<Rec>, now: nat, isCache: bool, r: nat) {
    && r < |s|
    && if Reusable(s[r], now, isCache) then forall j :: 0 <= j < r ==> !Reusable(s[j], now, isCache)
       else
         && (forall j :: 0 <= j < |s| ==> !Reusable(s[j], now, isCache) && s[r].ttl <= s[j].ttl)
         && (forall j :: 0 <= j < r ==> s[r].ttl < s[j].ttl)
  }

  lemma FreeSlotIsUnique(s: seq<Rec>, now: nat, isCache: bool, r: nat, q: nat)
    requires IsFreeSlot(s, now, isCache, r) && IsFreeSlot(s, now, isCache, q)
    ensures r == q
  {
  }

  // ---------------------------------------------------------------- looking up

  /** The plain scan's test (dnsd.cpp:499-518, without wildcards): live, not expired, hash and
      name as asked, letter case aside. */
  predicate Hit(r: Rec, hash: nat, nm: seq<byte>, now: nat) {
    r.Live() && !r.Expired(now) && r.hash == hash && EqNoCase(nm, r.name)
  }

  /** The plain scan: the first hit at or after from. */
  function PlainFind(s: seq<Rec>, from: nat, hash: nat, nm: seq<byte>, now: nat): (r: Option<nat>)
    ensures r.Some? ==> from <= r.value < |s| && Hit(s[r.value], hash, nm, now)
    ensures forall i :: from <= i < (match r case Some(j) => j case None => |s|) ==> !Hit(s[i], hash, nm, now)
    decreases |s| - from
  {
    if from >= |s| then None
    else if Hit(s[from], hash, nm, now) then Some(from)
    else PlainFind(s, from + 1, hash, nm, now)
  }

  lemma PlainFindIs(s: seq<Rec>, from: nat, hash: nat, nm: seq<byte>, now: nat, r: Option<nat>)
    requires r.Some? ==> from <= r.value < |s| && Hit(s[r.value], hash, nm, now)
    requires forall i :: from <= i < (match r case Some(j) => j case None => |s|) ==> !Hit(s[i], hash, nm, now)
    ensures PlainFind(s, from, hash, nm, now) == r
  {
    hide Hit;
    var p := PlainFind(s, from, hash, nm, now);
    assert p.Some? ==> !(r.None?) && !(p.value < r.value);
    assert r.Some? ==> !(p.None?) && !(r.value < p.value);
  }

  /** Every record is stored under the hash of its own name. */
  ghost predicate Named(s: seq<Rec>) {
    forall i :: 0 <= i < |s| && s[i].Live() ==> s[i].hash == MkName(s[i].name)
  }

  /** Under the hash of the name asked for, in any letter case, the hits are exactly the live
      unexpired records of that name. */
  lemma HitsByName(s: seq<Rec>, nm: seq<byte>, now: nat, i: nat)
    requires Named(s) && i < |s|
    ensures Hit(s[i], MkName(nm), nm, now) <==> s[i].Live() && !s[i].Expired(now) && EqNoCase(nm, s[i].name)
  {
    hide MkName, EqNoCase;
    if EqNoCase(nm, s[i].name) {
      MkNameIgnoresCase(nm, s[i].name);
    }
  }

  /** Every hit from a slot on, in slot order. */
  function AllHits(s: seq<Rec>, from: nat, hash: nat, nm: seq<byte>, now: nat): seq<nat>
    decreases |s| - from
  {
    if from >= |s| then []
    else if Hit(s[from], hash, nm, now) then [from] + AllHits(s, from + 1, hash, nm, now)
    else AllHits(s, from + 1, hash, nm, now)
  }

  /** Nothing changed but that some expired records are gone. */
  ghost predicate OnlyExpired(s: seq<Rec>, s': seq<Rec>, now: nat) {
    && |s'| == |s|
    && forall i :: 0 <= i < |s| ==> s'[i] == s[i] || (s[i].Live() && s[i].Expired(now) && s'[i] == s[i].Freed())
  }

  lemma {:induction false} HitsSurvive(s: seq<Rec>, s': seq<Rec>, from: nat, hash: nat, nm: seq<byte>, now: nat)
    requires OnlyExpired(s, s', now)
    ensures AllHits(s, from, hash, nm, now) == AllHits(s', from, hash, nm, now)
    ensures PlainFind(s, from, hash, nm, now) == PlainFind(s', from, hash, nm, now)
    decreases |s| - from
  {
    if from < |s| {
      assert s'[from] == s[from] || s'[from] == s[from].Freed();
      HitsSurvive(s, s', from + 1, hash, nm, now);
    }
  }

  /** AllHits walks from hit to hit. */
  lemma {:induction false} NextHit(s: seq<Rec>, from: nat, hash: nat, nm: seq<byte>, now: nat)
    ensures var r := PlainFind(s, from, hash, nm, now);
      AllHits(s, from, hash, nm, now) == match r
        case None => []
        case Some(j) => [j] + AllHits(s, j + 1, hash, nm, now)
    decreases |s| - from
  {
    hide Hit;
    if from < |s| && !Hit(s[from], hash, nm, now) {
      NextHit(s, from + 1, hash, nm, now);
    }
  }

  /** AllHits is exactly the set of hits, increasing, each once. */
  lemma {:induction false} AllHitsAre(s: seq<Rec>, from: nat, hash: nat, nm: seq<byte>, now: nat)
    ensures var a := AllHits(s, from, hash, nm, now);
      && (forall i :: i in a <==> from <= i < |s| && Hit(s[i], hash, nm, now))
      && (forall x, y :: 0 <= x < y < |a| ==> a[x] < a[y])
    decreases |s| - from
  {
    hide Hit;
    if from < |s| {
      AllHitsAre(s, from + 1, hash, nm, now);
      var a, rest := AllHits(s, from, hash, nm, now), AllHits(s, from + 1, hash, nm, now);
      assert a == (if Hit(s[from], hash, nm, now) then [from] + rest else rest);
      assert forall k :: 0 <= k < |rest| ==> rest[k] in rest;
    }
  }

  // ---------------------------------------------------------------- duplicates

  /** DelDup's test of a stored record against the one just filled. */
  predicate Dup(r: Rec, filled: Rec) {
    && filled.hash == r.hash && r.Live() && r.Stored() == filled.Stored()
    && (r.rtype != TYPE_A || r.ip == filled.ip)
  }

  function FirstDup(s: seq<Rec>, at: nat, from: nat): (r: Option<nat>)
    requires at < |s|
    ensures r.Some? ==> from <= r.value < |s| && r.value != at && Dup(s[r.value], s[at])
    ensures forall i :: from <= i < (match r case Some(j) => j case None => |s|) && i != at ==> !Dup(s[i], s[at])
    decreases |s| - from
  {
    if from >= |s| then None
    else if from != at && Dup(s[from], s[at]) then Some(from)
    else FirstDup(s, at, from + 1)
  }

  lemma FirstDupIs(s: seq<Rec>, at: nat, r: Option<nat>)
    requires at < |s|
    requires r.Some? ==> r.value < |s| && r.value != at && Dup(s[r.value], s[at])
    requires forall i :: 0 <= i < (match r case Some(j) => j case None => |s|) && i != at ==> !Dup(s[i], s[at])
    ensures FirstDup(s, at, 0) == r
  {
    hide Dup;
    var p := FirstDup(s, at, 0);
    assert p.Some? ==> !(r.None?) && !(p.value < r.value);
    assert r.Some? ==> !(p.None?) && !(r.value < p.value);
  }

  function Later(a: nat, b: nat): nat { if a > b then a else b }

  /** A duplicate at j goes, the filled record keeps the later TTL. */
  function Merged(s: seq<Rec>, at: nat, j: nat): (s': seq<Rec>)
    requires at < |s| && j < |s|
    ensures |s'| == |s|
  {
    s[at := s[at].(ttl := Later(s[j].ttl, s[at].ttl))][j := s[j].Freed()]
  }

  /** DelDup: the first duplicate goes. */
  function WithoutDup(s: seq<Rec>, at: nat): (s': seq<Rec>)
    requires at < |s|
    ensures |s'| == |s|
  {
    match FirstDup(s, at, 0)
    case None => s
    case Some(j) => Merged(s, at, j)
  }

  /** DelDup where windows may miss records: no duplicate goes, or one of them. */
  ghost predicate LooselyWithoutDup(s: seq<Rec>, at: nat, s': seq<Rec>)
    requires at < |s|
  {
    s' == s || exists j: nat :: j < |s| && j != at && Dup(s[j], s[at]) && s' == Merged(s, at, j)
  }

  /** The same record twice: type and stored bytes, and the address of an A record. */
  predicate SameRec(a: Rec, b: Rec) {
    a.rtype == b.rtype && a.hash == b.hash && a.Stored() == b.Stored() && (a.rtype == TYPE_A ==> a.ip == b.ip)
  }

  ghost predicate NoTwoSame(s: seq<Rec>) {
    forall i, j :: 0 <= i < j < |s| && s[i].Live() && s[j].Live() ==> !SameRec(s[i], s[j])
  }

  /** DelDup does not compare types: what it drops is of the filled record's type. */
  predicate OneKind(s: seq<Rec>, at: nat)
    requires at < |s|
  {
    FirstDup(s, at, 0).Some? ==> s[FirstDup(s, at, 0).value].rtype == s[at].rtype
  }

  /** No other record than a same one is gone. */
  ghost predicate OnlySameGone(s: seq<Rec>, at: nat, s': seq<Rec>)
    requires at < |s|
  {
    |s'| == |s| && forall i :: 0 <= i < |s| && i != at && s[i].Live() && !SameRec(s[i], s[at]) ==> s'[i] == s[i]
  }

  lemma TtlAside(r: Rec, t: nat)
    ensures SameRec(r.(ttl := t), r)
  {
  }

  lemma StoredApart(s: seq<Rec>, i: nat, rec: Rec)
    requires i < |s| && NoTwoSame(s)
    ensures NoTwoSame(s[i := rec][i := rec.Freed()])
  {
    hide SameRec;
    var u := s[i := rec][i := rec.Freed()];
    forall a, b | 0 <= a < b < |u| && u[a].Live() && u[b].Live() ensures !SameRec(u[a], u[b]) {
      assert u[a] == s[a] && u[b] == s[b];
    }
  }

  /** What a run may know of its records: the stored bytes fix the type. */
  ghost predicate Typed(s: seq<Rec>, kind: seq<byte> -> nat) {
    forall i :: 0 <= i < |s| && s[i].Live() ==> s[i].rtype == kind(s[i].Stored())
  }

  lemma TypedIsOneKind(s: seq<Rec>, kind: seq<byte> -> nat, i: nat, rec: Rec)
    requires i < |s| && rec.Live() && Typed(s, kind) && rec.rtype == kind(rec.Stored())
    ensures OneKind(s[i := rec], i)
  {
    hide Rec.Stored;
  }

  /** Typing and naming look only at what DelDup and expiry leave alone. */
  lemma TypedStays(s: seq<Rec>, kind: seq<byte> -> nat, i: nat, rec: Rec)
    requires i < |s| && Typed(s, kind) && rec.rtype == kind(rec.Stored())
    ensures Typed(WithoutDup(s[i := rec], i), kind)
  {
    var t, u := s[i := rec], WithoutDup(s[i := rec], i);
    forall j | 0 <= j < |u| && u[j].Live() ensures u[j].rtype == kind(u[j].Stored()) {
      assert u[j] == t[j].(ttl := u[j].ttl);
      assert u[j].Stored() == t[j].Stored();
    }
  }

  lemma NamedStays(s: seq<Rec>, i: nat, rec: Rec)
    requires i < |s| && Named(s) && rec.hash == MkName(rec.name)
    ensures Named(WithoutDup(s[i := rec], i))
  {
    hide MkName;
    var t, u := s[i := rec], WithoutDup(s[i := rec], i);
    forall j | 0 <= j < |u| && u[j].Live() ensures u[j].hash == MkName(u[j].name) {
      assert u[j] == t[j].(ttl := u[j].ttl);
    }
  }

  /** The slots that survive a change are as they were. */
  ghost predicate OnlyFreed(s: seq<Rec>, s': seq<Rec>) {
    |s'| == |s| && forall i :: 0 <= i < |s| ==> s'[i] == s[i] || s'[i] == s[i].Freed()
  }

  lemma FreedKeeps(s: seq<Rec>, s': seq<Rec>)
    requires OnlyFreed(s, s') && Named(s) && NoTwoSame(s)
    ensures Named(s') && NoTwoSame(s')
  {
    hide MkName, Rec.Stored, SameRec;
    assert forall i :: 0 <= i < |s| && s'[i].Live() ==> s'[i] == s[i];
  }

  lemma FreedTyped(s: seq<Rec>, s': seq<Rec>, kind: seq<byte> -> nat)
    requires OnlyFreed(s, s') && Typed(s, kind)
    ensures Typed(s', kind)
  {
    hide Rec.Stored;
    assert forall i :: 0 <= i < |s| && s'[i].Live() ==> s'[i] == s[i];
  }

  // ---------------------------------------------------------------- name servers

  /** RemoveNS's test: an NS record whose data is the given name. */
  predicate IsNS(r: Rec, nm: seq<byte>) {
    r.rtype == TYPE_NS && EqNoCase(nm, CStr(r.data))
  }

  function WithoutNS(s: seq<Rec>, nm: seq<byte>): (s': seq<Rec>)
    ensures |s'| == |s| && forall i :: 0 <= i < |s| ==> s'[i] == if IsNS(s[i], nm) then s[i].Freed() else s[i]
  {
    seq(|s|, i requires 0 <= i < |s| => if IsNS(s[i], nm) then s[i].Freed() else s[i])
  }

  // ---------------------------------------------------------------- when DelDup goes right

  /** Where at most the filled record is a double: DelDup leaves no two the same and drops nothing
      but a same record, if and only if the first duplicate it finds is of the filled record's type. */
  lemma DelDupExact(s: seq<Rec>, at: nat)
    requires at < |s| && s[at].Live() && NoTwoSame(s[at := s[at].Freed()])
    ensures NoTwoSame(WithoutDup(s, at)) && OnlySameGone(s, at, WithoutDup(s, at)) <==> OneKind(s, at)
  {
    hide Rec.Stored;
    if OneKind(s, at) {
      DelDupLeavesOne(s, at);
    } else {
      assert !SameRec(s[FirstDup(s, at, 0).value], s[at]);
    }
  }

  /** And then the one that is left has the later of both TTLs. */
  lemma DelDupLeavesOne(s: seq<Rec>, at: nat)
    requires at < |s| && s[at].Live() && OneKind(s, at) && NoTwoSame(s[at := s[at].Freed()])
    ensures NoTwoSame(WithoutDup(s, at)) && OnlySameGone(s, at, WithoutDup(s, at))
    ensures forall i :: 0 <= i < |s| && i != at && s[i].Live() && SameRec(s[i], s[at]) ==>
      var t := WithoutDup(s, at)[at].ttl;
      && !WithoutDup(s, at)[i].Live()
      && t >= s[i].ttl && t >= s[at].ttl && (t == s[i].ttl || t == s[at].ttl)
  {
    hide Rec.Stored;
    var s', was := WithoutDup(s, at), s[at := s[at].Freed()];
    forall i, j | 0 <= i < |s| && 0 <= j < |s| && i != j && i != at && j != at && s[i].Live() && s[j].Live()
      ensures !SameRec(s[i], s[j])
    {
      assert was[i] == s[i] && was[j] == s[j];
      assert !SameRec(was[i], was[j]) && !SameRec(was[j], was[i]);
    }
    forall i | 0 <= i < |s| && i != at && s[i].Live()
      ensures SameRec(s[i], s[at]) <==> FirstDup(s, at, 0) == Some(i)
    {
      assert SameRec(s[i], s[at]) ==> Dup(s[i], s[at]);
      var f := FirstDup(s, at, 0);
      if f.Some? && SameRec(s[i], s[at]) {
        assert Dup(s[f.value], s[at]) && SameRec(s[f.value], s[i]);
      }
    }
    TtlAside(s[at], s'[at].ttl);
    assert forall i :: 0 <= i < |s| && i != at && s'[i].Live() ==> s'[i] == s[i] && FirstDup(s, at, 0) != Some(i);
  }

  /** Two types may share their stored bytes: once d CNAME e is stored, d NS e is gone. */
  lemma DelDupDropsOtherType(n: nat, ttl: nat) returns (s: seq<Rec>)
    requires 2 <= n
    ensures |s| == n && s[0].Live() && s[1].Live() && NoTwoSame(s) && Named(s)
    ensures s[0].rtype == TYPE_NS && s[1].rtype == TYPE_CNAME && !WithoutDup(s, 1)[0].Live()
  {
    var h := MkName([100]);
    s := [Rec(TYPE_NS, ttl, h, [100], [101, 0, 0, 0], 0), Rec(TYPE_CNAME, ttl, h, [100], [101, 0, 0, 0], 0)]
      + Repeat(Rec(0, 0, 0, [], [], 0), n - 2);
    FirstDupIs(s, 1, Some(0));
  }
}
