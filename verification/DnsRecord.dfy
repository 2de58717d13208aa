/** Resource records on the wire: AddRR writes them, AddRRfromReply reads them (RFC 1035 section 4.1.3). */
module DnsRecord {
  import opened Bytes
  import opened DnsName
  import opened DnsDecode
  import opened DnsConst

  /** A stored record. The data of an A record is its address, of NS, CNAME and PTR the text of a
      name, of MX two preference bytes and the text of a name, else opaque. */
  datatype Record = Record(name: seq<byte>, rtype: nat, ttl: nat, data: seq<byte>)

  predicate HoldsName(rtype: nat) {
    rtype in {TYPE_NS, TYPE_CNAME, TYPE_PTR, TYPE_MX}
  }

  /** Bytes of the data before the name it ends in. */
  function Leading(rtype: nat): nat {
    if rtype == TYPE_MX then 2 else 0
  }

  /** A name stored as one dot is the root. */
  function OwnerText(name: seq<byte>): seq<byte> {
    if name == [DOT] then [] else name
  }

  /** A TTL beyond sixty days is an absolute time; one already past becomes a minute. */
  function WireTtl(ttl: nat, now: nat): (w: nat)
    requires ttl < TWO_32 && now < TWO_32
    ensures ttl <= SIXTY_DAYS ==> w == ttl
    ensures ttl > SIXTY_DAYS ==> w == if now <= ttl <= now + SIXTY_DAYS then ttl - now else 60
  {
    var left := if ttl > SIXTY_DAYS then (ttl - now + TWO_32) % TWO_32 else ttl;
    if left > SIXTY_DAYS then 60 else left
  }

  function BigEndian(v: nat): (b: seq<byte>)
    requires v < TWO_32
    ensures |b| == 4
  {
    [(v / 0x100_0000) as byte, (v / 0x1_0000 % 0x100) as byte, (v / 0x100 % 0x100) as byte, (v % 0x100) as byte]
  }

  function FromBigEndian(m: seq<byte>, p: nat): (v: nat)
    ensures v < TWO_32
  {
    At(m, p) as nat * 0x100_0000 + At(m, p + 1) as nat * 0x1_0000 + At(m, p + 2) as nat * 0x100 + At(m, p + 3) as nat
  }

  /** Type, class IN, TTL and RDLENGTH. */
  function Head(rtype: nat, ttl: nat, rdlength: byte): (h: seq<byte>)
    requires rtype < 0x1_0000 && ttl < TWO_32
    ensures |h| == 10
  {
    [(rtype / 0x100) as byte, (rtype % 0x100) as byte, 0, 1] + BigEndian(ttl) + [0, rdlength]
  }

  /** What AddRR demands of a record: names ConvertDomain takes, data that fits its length byte. */
  predicate Writable(rr: Record) {
    && ValidName(OwnerText(rr.name)) && rr.rtype < 0x1_0000 && rr.ttl < TWO_32 && |rr.data| <= 255
    && rr.rtype != TYPE_SOA
    && (rr.rtype == TYPE_A ==> |rr.data| == 4)
    && (HoldsName(rr.rtype) ==>
      Leading(rr.rtype) <= |rr.data| <= Leading(rr.rtype) + 64 && ValidName(rr.data[Leading(rr.rtype)..]))
  }

  /** The record data behind everything written so far; its name is compressed while RDLENGTH
      still reads 4. */
  function RData(before: seq<byte>, rr: Record): (d: seq<byte>)
    requires Writable(rr)
    ensures |d| <= 255
    ensures rr.rtype == TYPE_A ==> |d| == 4
  {
    if HoldsName(rr.rtype) then
      var lead := rr.data[..Leading(rr.rtype)];
      lead + NameBytes(before + lead, rr.data[Leading(rr.rtype)..])
    else rr.data
  }

  function RRBytes(prefix: seq<byte>, rr: Record, now: nat): seq<byte>
    requires Writable(rr) && now < TWO_32
  {
    var owner := NameBytes(prefix, OwnerText(rr.name));
    var ttl := WireTtl(rr.ttl, now);
    var d := RData(prefix + owner + Head(rr.rtype, ttl, 4), rr);
    owner + Head(rr.rtype, ttl, |d| as byte) + d
  }

  // ---------------------------------------------------------------- writing

  /** strcpy behind the length byte to come, then ConvertDomain. */
  method PutName(m: array<byte>, t: nat, name: seq<byte>) returns (next: nat)
    requires 12 <= t && t + |name| + 2 <= m.Length && ValidName(name)
    modifies m
    ensures t < next <= t + |name| + 2
    ensures m[..next] == old(m[..t]) + NameBytes(old(m[..t]), name)
  {
    hide *;
    forall k | 0 <= k < |name| { m[t + 1 + k] := name[k]; }
    m[t + 1 + |name|] := 0;
    assert m[t + 1..t + 1 + |name|] == name;
    assert m[..t] == old(m[..t]);
    next := ConvertDomain(m, t, name);
  }

  method PutBytes(m: array<byte>, t: nat, b: seq<byte>) returns (next: nat)
    requires t + |b| <= m.Length
    modifies m
    ensures next == t + |b|
    ensures m[..next] == old(m[..t]) + b
  {
    forall k | 0 <= k < |b| { m[t + k] := b[k]; }
    next := t + |b|;
  }

  method PutData(m: array<byte>, t: nat, rr: Record) returns (next: nat)
    requires 12 <= t && Writable(rr) && t + |rr.data| + 2 <= m.Length
    modifies m
    ensures t <= next <= t + |rr.data| + 2
    ensures m[..next] == old(m[..t]) + RData(old(m[..t]), rr)
  {
    hide NameBytes, ValidName;
    if HoldsName(rr.rtype) {
      var lead, text := rr.data[..Leading(rr.rtype)], rr.data[Leading(rr.rtype)..];
      ghost var before := m[..t];
      next := PutBytes(m, t, lead);
      next := PutName(m, next, text);
      Regroup(before, lead, NameBytes(before + lead, text));
    } else {
      next := PutBytes(m, t, rr.data);
    }
  }

  /** AddRR (dnsd.cpp:1273-1386) with wc = 1 and no IF_DOWN list. */
  method AddRR(m: array<byte>, t: nat, rr: Record, now: nat) returns (next: nat)
    requires 12 <= t && Writable(rr) && now < TWO_32
    requires t + |rr.name| + |rr.data| + 14 <= m.Length
    modifies m
    ensures t < next <= t + |rr.name| + |rr.data| + 14
    ensures m[..next] == old(m[..t]) + RRBytes(old(m[..t]), rr, now)
  {
    hide Head, NameBytes, ValidName, WireTtl, RData;
    ghost var prefix := m[..t];
    var name, ttl := OwnerText(rr.name), WireTtl(rr.ttl, now);
    var p := PutName(m, t, name);
    ghost var owner := NameBytes(prefix, name);
    var q := PutBytes(m, p, Head(rr.rtype, ttl, 4));
    ghost var before := m[..q];
    ghost var d := RData(before, rr);
    next := PutData(m, q, rr);
    ghost var body := m[..next];
    if rr.rtype != TYPE_A {
      m[p + 9] := (next - q) as byte;
    }
    PatchedBody(prefix, owner, rr, ttl, d, body);
    assert m[..next] == if rr.rtype == TYPE_A then body else body[p + 9 := |d| as byte];
  }

  /** Patching RDLENGTH is as if the right length had been written in the first place. */
  lemma PatchedBody(prefix: seq<byte>, owner: seq<byte>, rr: Record, ttl: nat, d: seq<byte>, body: seq<byte>)
    requires Writable(rr) && ttl < TWO_32 && |d| < 256 && (rr.rtype == TYPE_A ==> |d| == 4)
    requires body == prefix + owner + Head(rr.rtype, ttl, 4) + d
    ensures var q := |prefix + owner| + 9;
      (if rr.rtype == TYPE_A then body else body[q := |d| as byte])
        == prefix + (owner + Head(rr.rtype, ttl, |d| as byte) + d)
  {
    hide Head;
    HeadPatch(rr.rtype, ttl, 4, |d| as byte);
    PatchInside(prefix + owner, Head(rr.rtype, ttl, 4), d, 9, |d| as byte);
    var h := Head(rr.rtype, ttl, |d| as byte);
    Regroup(prefix, owner, h);
    Regroup(prefix, owner + h, d);
  }

  lemma HeadPatch(rtype: nat, ttl: nat, x: byte, y: byte)
    requires rtype < 0x1_0000 && ttl < TWO_32
    ensures Head(rtype, ttl, x)[9] == x
    ensures Head(rtype, ttl, x)[9 := y] == Head(rtype, ttl, y)
  {
  }

  // ---------------------------------------------------------------- reading

  /** A record as AddRRfromReply hands it to SetRecord. A name or data is None where DecodeName
      failed before its first label, so that the buffer it was given still held older bytes. */
  datatype Parsed = Parsed(name: Option<seq<byte>>, rtype: nat, ttl: nat, data: Option<seq<byte>>)

  function NameAt(m: seq<byte>, p: nat): Option<seq<byte>> {
    match DecodeText(m, p)
    case None => None
    case Some(text) => Some(CStr(text))
  }

  function Append(a: Option<seq<byte>>, b: seq<byte>): Option<seq<byte>> {
    match a case None => None case Some(x) => Some(x + b)
  }

  /** Both names of an SOA record, each with its NUL, and its five counters. */
  function SoaData(m: seq<byte>, p: nat): Option<seq<byte>> {
    var second := DecodeNext(m, p);
    var after := DecodeNext(m, second);
    match (NameAt(m, p), NameAt(m, second))
    case (Some(x), Some(y)) => Some(x + [0] + y + [0] + Slice(m, after, 20))
    case _ => None
  }

  /** The data of the record whose fixed part starts at p. */
  function DataAt(m: seq<byte>, p: nat): Option<seq<byte>> {
    var rtype := At(m, p) as nat * 0x100 + At(m, p + 1) as nat;
    if rtype == TYPE_A then Some(Slice(m, p + 10, 4))
    else if rtype == TYPE_SOA then SoaData(m, p + 10)
    else if HoldsName(rtype) then
      match NameAt(m, p + 10 + Leading(rtype))
      case None => None
      case Some(x) => Some(Slice(m, p + 10, Leading(rtype)) + x)
    else Some(Slice(m, p + 10, At(m, p + 9) as nat))
  }

  /** The loop stops at a record whose low type byte or low length byte is not a positive char. */
  predicate Malformed(m: seq<byte>, p: nat) {
    At(m, p + 1) == 0 || At(m, p + 1) >= 128 || At(m, p + 9) >= 128
  }

  /** What is added to each TTL: the time and 20 seconds in the reply to a query, nothing in a
      zone transfer. */
  function Expiry(rtyp: nat, now: nat): nat {
    if rtyp != 0 then now + 20 else 0
  }

  /** The whole loop: the records read and the position where it ends. */
  function ParseAll(m: seq<byte>, t: nat, et: nat, expire: nat): (r: (seq<Parsed>, nat))
    decreases et - t
  {
    if t >= et then ([], t)
    else
      var p := DecodeNext(m, t);
      if Malformed(m, p) then ([], p)
      else
        var one := ParsedAt(m, t, expire);
        var rest := ParseAll(m, p + 10 + At(m, p + 9) as nat, et, expire);
        ([one] + rest.0, rest.1)
  }

  function ParsedAt(m: seq<byte>, t: nat, expire: nat): Parsed {
    var p := DecodeNext(m, t);
    Parsed(NameAt(m, t), At(m, p) as nat * 0x100 + At(m, p + 1) as nat,
           (FromBigEndian(m, p + 4) + expire) % TWO_32, DataAt(m, p))
  }

  /** How many of the first ancount records carry the wanted low type byte. */
  function Wanted(recs: seq<Parsed>, rtyp: nat, ancount: nat): (n: nat)
    ensures n <= |recs|
  {
    if recs == [] then 0
    else
      var last := |recs| - 1;
      Wanted(recs[..last], rtyp, ancount) + if last < ancount && recs[last].rtype % 0x100 == rtyp then 1 else 0
  }

  method ReadName(m: array<byte>, p: nat) returns (text: Option<seq<byte>>, next: nat)
    requires p + 65 <= m.Length
    ensures text == NameAt(m[..], p) && next == DecodeNext(m[..], p)
  {
    hide DecodeText, DecodeNext, CStr;
    // bfr stands behind one byte that is not zero, which tells whether the closing zero fell there.
    var bfr := new byte[69](_ => 1);
    ghost var M := m[..];
    next := DecodeName(bfr, 1, p, m);
    assert m[..] == M;
    if bfr[0] == 0 {
      return None, next;
    }
    ghost var all := DecodeText(M, p).value;
    var k := 0;
    while bfr[1 + k] != 0
      invariant k <= |all|
      invariant forall i :: 1 <= i < 1 + k ==> bfr[i] != 0
      invariant bfr[1..1 + |all|] == all && bfr[1 + |all|] == 0
      decreases |all| - k
    {
      k := k + 1;
    }
    text := Some(bfr[1..1 + k]);
    assert forall i :: 0 <= i < |all| ==> all[i] == bfr[1..1 + |all|][i] == bfr[1 + i];
    CStrIs(all, k);
    assert bfr[1..1 + k] == all[..k];
  }

  method ReadData(m: array<byte>, p: nat) returns (data: Option<seq<byte>>)
    requires p + 270 <= m.Length
    ensures data == DataAt(m[..], p)
  {
    hide NameAt, DecodeNext;
    ghost var M := m[..];
    var rtype := m[p] as nat * 0x100 + m[p + 1] as nat;
    if rtype == TYPE_A {
      data := Some(m[p + 10..p + 14]);
    } else if rtype == TYPE_SOA {
      var x, second := ReadName(m, p + 10);
      var y, after := ReadName(m, second);
      data := match (x, y)
        case (Some(x), Some(y)) => Some(x + [0] + y + [0] + m[after..after + 20])
        case _ => None;
    } else if HoldsName(rtype) {
      var x, _ := ReadName(m, p + 10 + Leading(rtype));
      data := match x case None => None case Some(x) => Some(m[p + 10..p + 10 + Leading(rtype)] + x);
    } else {
      data := Some(m[p + 10..p + 10 + m[p + 9] as nat]);
    }
  }

  method ReadTtl(m: array<byte>, p: nat) returns (ttl: nat)
    requires p + 4 <= m.Length
    ensures ttl == FromBigEndian(m[..], p)
  {
    ttl := m[p] as nat * 0x100_0000 + m[p + 1] as nat * 0x1_0000 + m[p + 2] as nat * 0x100 + m[p + 3] as nat;
  }

  /** One turn of the loop: the record at t, or where reading stopped. */
  method ReadRecord(m: array<byte>, t: nat, expire: nat) returns (one: Option<Parsed>, next: nat)
    requires t + 335 <= m.Length
    ensures t < next
    ensures var p := DecodeNext(m[..], t);
      if Malformed(m[..], p) then one.None? && next == p
      else one == Some(ParsedAt(m[..], t, expire)) && next == p + 10 + At(m[..], p + 9) as nat
  {
    hide NameAt, DecodeNext, DataAt, FromBigEndian;
    var name, p := ReadName(m, t);
    if m[p + 1] == 0 || m[p + 1] >= 128 || m[p + 9] >= 128 {
      return None, p;
    }
    var ttl := ReadTtl(m, p + 4);
    var data := ReadData(m, p);
    one := Some(Parsed(name, m[p] as nat * 0x100 + m[p + 1] as nat, (ttl + expire) % TWO_32, data));
    next := p + 10 + m[p + 9] as nat;
  }

  /** The reading half of AddRRfromReply's loop (dnsd.cpp:384-461) on any bytes: it stops, reads at
      most 335 bytes past the end of the message, and hands over exactly the records ParseAll names. */
  method ReadReply(m: array<byte>, t0: nat, et: nat, rtyp: nat, now: nat, ancount: nat)
    returns (recs: seq<Parsed>, end: nat, ret: nat)
    requires et + 335 <= m.Length
    ensures recs == ParseAll(m[..], t0, et, Expiry(rtyp, now)).0
    ensures end == ParseAll(m[..], t0, et, Expiry(rtyp, now)).1
    ensures ret == Wanted(recs, rtyp, ancount)
  {
    hide DecodeNext, Malformed, ParsedAt;
    ghost var M := m[..];
    var expire := Expiry(rtyp, now);
    recs, ret := [], 0;
    var t := t0;
    while t < et
      invariant ParseAll(M, t0, et, expire).0 == recs + ParseAll(M, t, et, expire).0
      invariant ParseAll(M, t0, et, expire).1 == ParseAll(M, t, et, expire).1
      invariant ret == Wanted(recs, rtyp, ancount)
      decreases et - t
    {
      var one, next := ReadRecord(m, t, expire);
      if one.None? {
        return recs, next, ret;
      }
      if one.value.rtype % 0x100 == rtyp && |recs| < ancount {
        ret := ret + 1;
      }
      Regroup(recs, [one.value], ParseAll(M, next, et, expire).0);
      assert (recs + [one.value])[..|recs|] == recs;
      recs := recs + [one.value];
      t := next;
    }
    end := t;
  }
}
