/** What AddRR writes, AddRRfromReply reads back (RFC 1035 section 4.1.3). */
module DnsRecordRoundTrip {
  import opened Bytes
  import opened DnsName
  import opened DnsDecode
  import opened DnsRoundTrip
  import opened DnsRecord
  import opened DnsConst

  /** Records the reader can tell apart from garbage: its chars are signed, so the low type byte
      runs from 1 to 127 and opaque data stays under 128 bytes; a decoded name has room for 62. */
  predicate Readable(rr: Record) {
    && Writable(rr)
    && 1 <= rr.rtype % 0x100 <= 127
    && |OwnerText(rr.name)| <= MAX_TEXT
    && (if HoldsName(rr.rtype) then |rr.data| <= Leading(rr.rtype) + MAX_TEXT else |rr.data| < 128)
  }

  /** The same data, a name in it equal up to letter case. */
  predicate SameData(data: seq<byte>, rr: Record) {
    if HoldsName(rr.rtype) then
      && |data| == |rr.data| >= Leading(rr.rtype)
      && data[..Leading(rr.rtype)] == rr.data[..Leading(rr.rtype)]
      && EqNoCase(data[Leading(rr.rtype)..], rr.data[Leading(rr.rtype)..])
    else data == rr.data
  }

  /** The same record: type, TTL and data, names equal up to letter case. */
  predicate Same(p: Parsed, rr: Record, now: nat) {
    && rr.ttl < TWO_32 && now < TWO_32
    && p.name.Some? && EqNoCase(p.name.value, OwnerText(rr.name))
    && p.rtype == rr.rtype && p.ttl == WireTtl(rr.ttl, now)
    && p.data.Some? && SameData(p.data.value, rr)
  }

  lemma BigEndianReadsBack(m: seq<byte>, p: nat, v: nat)
    requires v < TWO_32 && p + 4 <= |m| && m[p..p + 4] == BigEndian(v)
    ensures FromBigEndian(m, p) == v
  {
    var b := m[p..p + 4];
    assert m[p] == b[0] && m[p + 1] == b[1] && m[p + 2] == b[2] && m[p + 3] == b[3];
    Positional(v);
  }

  lemma Positional(v: nat)
    requires v < TWO_32
    ensures v == v / 0x100_0000 * 0x100_0000 + v / 0x1_0000 % 0x100 * 0x1_0000 + v / 0x100 % 0x100 * 0x100 + v % 0x100
  {
    var a, b, c := v / 0x100, v / 0x1_0000, v / 0x100_0000;
    assert b == a / 0x100 && c == b / 0x100;
  }

  /** A name with no NUL inside is a whole C string whatever its letter case. */
  lemma CStrOfName(text: seq<byte>, name: seq<byte>)
    requires ValidName(name) && EqNoCase(text, name)
    ensures CStr(text) == text
  {
    forall i | 0 <= i < |text| ensures text[i] != 0 {
      assert Lower(text[i]) == Lower(name[i]) && name[i] in name;
    }
  }

  /** A written name read as a C string. */
  lemma NameAtReadsBack(m: seq<byte>, prefix: seq<byte>, text: seq<byte>)
    requires ValidName(text) && |text| <= MAX_TEXT
    requires text != [] ==> Carries(prefix, m, text)
    requires |prefix| + |NameBytes(prefix, text)| <= |m|
    requires m[|prefix|..|prefix| + |NameBytes(prefix, text)|] == NameBytes(prefix, text)
    ensures NameAt(m, |prefix|).Some? && EqNoCase(NameAt(m, |prefix|).value, text)
    ensures DecodeNext(m, |prefix|) == |prefix| + |NameBytes(prefix, text)|
  {
    hide DecodeText, DecodeNext, EqNoCase, CStr, ValidName, NameBytes, Carries;
    NameReadsBack(m, prefix, text);
    CStrOfName(DecodeText(m, |prefix|).value, text);
  }

  /** The bytes a compressed name may point at never include RDLENGTH: the byte before it is a
      NUL, it reads 4 while the name is compressed, and at most two bytes follow it. */
  lemma MatchAvoidsLength(prefix: seq<byte>, q: nat, r: nat, text: seq<byte>, off: nat)
    requires text != [] && ValidName(text) && off <= |text| && LabelStart(text, off)
    requires 1 <= q < |prefix| <= q + 3 && prefix[q] == 4 && prefix[q - 1] == 0
    requires MatchAt(prefix, r, Wire(text, off))
    ensures r + |Wire(text, off)| <= q
  {
    hide Wire;
    var w := Wire(text, off);
    var seen := prefix[r..r + |w|];
    WireIsCString(text, off);
    WireLabel(text, off);
    forall i | r <= i < r + |w| - 1 ensures prefix[i] != 0 {
      assert seen[i - r] == prefix[i] && Lower(seen[i - r]) == Lower(w[i - r]);
    }
    assert w[0] as int == NextDot(text, off) - off by {
      assert w[..NextDot(text, off) - off + 1][0] == w[0];
    }
    assert prefix[r] == w[0] by {
      assert seen[0] == prefix[r] && Lower(seen[0]) == Lower(w[0]);
    }
  }

  /** Patching RDLENGTH leaves every place the name points at as it was. */
  lemma PatchCarries(prefix: seq<byte>, q: nat, m: seq<byte>, text: seq<byte>)
    requires text != [] && ValidName(text) && |prefix| <= |m|
    requires 1 <= q < |prefix| <= q + 3 && prefix[q] == 4 && prefix[q - 1] == 0
    requires m[..q] == prefix[..q]
    ensures Carries(prefix, m, text)
  {
    hide Wire, ValidName, EqNoCase;
    forall r: nat, off: nat | off <= |text| && LabelStart(text, off) && MatchAt(prefix, r, Wire(text, off))
      ensures MatchAt(m, r, Wire(text, off))
    {
      MatchAvoidsLength(prefix, q, r, text, off);
      var n := |Wire(text, off)|;
      assert m[r..r + n] == m[..q][r..r + n] && prefix[r..r + n] == prefix[..q][r..r + n];
    }
  }

  /** The parts of a written record, and where each of them starts. */
  ghost predicate Layout(m: seq<byte>, t: nat, owner: seq<byte>, head: seq<byte>, d: seq<byte>) {
    && t + |owner| + |head| + |d| <= |m|
    && m[t..t + |owner|] == owner
    && m[t + |owner|..t + |owner| + |head|] == head
    && m[t + |owner| + |head|..t + |owner| + |head| + |d|] == d
  }

  lemma LayoutOf(m: seq<byte>, t: nat, owner: seq<byte>, head: seq<byte>, d: seq<byte>)
    requires t + |owner + head + d| <= |m| && m[t..t + |owner + head + d|] == owner + head + d
    ensures Layout(m, t, owner, head, d)
  {
    SplitSlice(m, t, owner + head, d);
    SplitSlice(m, t, owner, head);
  }

  /** The fixed part reads back. */
  lemma HeadReadsBack(m: seq<byte>, p: nat, rtype: nat, ttl: nat, n: byte)
    requires rtype < 0x1_0000 && ttl < TWO_32
    requires p + 10 <= |m| && m[p..p + 10] == Head(rtype, ttl, n)
    ensures At(m, p) as nat * 0x100 + At(m, p + 1) as nat == rtype && At(m, p + 1) as nat == rtype % 0x100
    ensures FromBigEndian(m, p + 4) == ttl && At(m, p + 8) == 0 && At(m, p + 9) == n
  {
    hide FromBigEndian, BigEndian;
    var h := m[p..p + 10];
    assert m[p] == h[0] && m[p + 1] == h[1] && m[p + 8] == h[8] && m[p + 9] == h[9];
    var x, be := [(rtype / 0x100) as byte, (rtype % 0x100) as byte, 0, 1], BigEndian(ttl);
    assert h == x + be + [0, n];
    SubSlice(m, p, 10, 4, 8);
    assert (x + be + [0, n])[4..8] == be;
    BigEndianReadsBack(m, p + 4, ttl);
  }

  /** The record data reads back, though RDLENGTH was patched after its name was compressed. */
  lemma DataReadsBack(m: seq<byte>, before: seq<byte>, rr: Record)
    requires Readable(rr) && |before| >= 10
    requires before[|before| - 1] == 4 && before[|before| - 2] == 0
    requires |before| + |RData(before, rr)| <= |m|
    requires m[..|before| - 1] == before[..|before| - 1]
    requires m[|before|..|before| + |RData(before, rr)|] == RData(before, rr)
    requires At(m, |before| - 10) as nat * 0x100 + At(m, |before| - 9) as nat == rr.rtype
    requires At(m, |before| - 1) as nat == |RData(before, rr)|
    ensures DataAt(m, |before| - 10).Some? && SameData(DataAt(m, |before| - 10).value, rr)
  {
    hide NameAt, DecodeNext, NameBytes, ValidName, EqNoCase, Carries;
    var b, d := |before|, RData(before, rr);
    if HoldsName(rr.rtype) {
      var lead, text := rr.data[..Leading(rr.rtype)], rr.data[Leading(rr.rtype)..];
      var prefix := before + lead;
      SplitSlice(m, b, lead, NameBytes(prefix, text));
      if text != [] {
        PatchCarries(prefix, b - 1, m, text);
      }
      NameAtReadsBack(m, prefix, text);
      EqNoCaseLength(NameAt(m, |prefix|).value, text);
    } else {
      assert m[b..b + |d|] == rr.data;
    }
  }

  // ---------------------------------------------------------------- byte by byte

  /** The record at t as RFC 1035 section 4.1.3 lays it out: type, class IN, TTL and RDLENGTH behind
      the name, and behind them an address, a name, a preference and a name, or the bytes. */
  ghost predicate OnWire(m: seq<byte>, t: nat, rr: Record, now: nat) {
    var p, end := DecodeNext(m, t), RecordEnd(m, t);
    && rr.ttl < TWO_32 && now < TWO_32 && p + 10 <= end <= |m|
    && NameOnWire(m, t, p, if rr.name == [46] then [] else rr.name)
    && 0x100 * m[p] as nat + m[p + 1] as nat == rr.rtype
    && m[p + 2] == 0 && m[p + 3] == 1
    && 0x100_0000 * m[p + 4] as nat + 0x1_0000 * m[p + 5] as nat + 0x100 * m[p + 6] as nat + m[p + 7] as nat == WireTtl(rr.ttl, now)
    && DataOnWire(m, p + 10, end, rr)
  }

  /** Where the record at t ends, by its RDLENGTH. */
  function RecordEnd(m: seq<byte>, t: nat): nat {
    var p := DecodeNext(m, t);
    p + 10 + 0x100 * At(m, p + 8) as nat + At(m, p + 9) as nat
  }

  /** Types 1 (A), 2 (NS), 5 (CNAME), 12 (PTR), 15 (MX), and the rest. */
  ghost predicate DataOnWire(m: seq<byte>, d: nat, end: nat, rr: Record)
    requires d <= end <= |m|
  {
    if rr.rtype in {2, 5, 12} then NameOnWire(m, d, end, rr.data)
    else if rr.rtype == 15 then
      |rr.data| >= 2 && d + 2 <= end && m[d..d + 2] == rr.data[..2] && NameOnWire(m, d + 2, end, rr.data[2..])
    else m[d..end] == rr.data && (rr.rtype == 1 ==> end == d + 4)
  }

  ghost predicate NameOnWire(m: seq<byte>, d: nat, end: nat, text: seq<byte>) {
    DecodeText(m, d).Some? && EqNoCase(DecodeText(m, d).value, text) && DecodeNext(m, d) == end
  }

  lemma HeadOnWire(m: seq<byte>, p: nat, rtype: nat, ttl: nat, n: byte)
    requires rtype < 0x1_0000 && ttl < TWO_32
    requires p + 10 <= |m| && m[p..p + 10] == Head(rtype, ttl, n)
    ensures 0x100 * m[p] as nat + m[p + 1] as nat == rtype && m[p + 2] == 0 && m[p + 3] == 1
    ensures 0x100_0000 * m[p + 4] as nat + 0x1_0000 * m[p + 5] as nat + 0x100 * m[p + 6] as nat + m[p + 7] as nat == ttl
    ensures m[p + 8] == 0 && m[p + 9] == n
  {
    hide BigEndian;
    var h := m[p..p + 10];
    HeadReadsBack(m, p, rtype, ttl, n);
    assert m[p + 2] == h[2] && m[p + 3] == h[3];
  }

  lemma DataIsOnWire(m: seq<byte>, before: seq<byte>, rr: Record)
    requires Readable(rr) && |before| >= 10
    requires before[|before| - 1] == 4 && before[|before| - 2] == 0
    requires |before| + |RData(before, rr)| <= |m|
    requires m[..|before| - 1] == before[..|before| - 1]
    requires m[|before|..|before| + |RData(before, rr)|] == RData(before, rr)
    ensures DataOnWire(m, |before|, |before| + |RData(before, rr)|, rr)
  {
    hide DecodeText, DecodeNext, NameBytes, ValidName, EqNoCase, Carries;
    var b, d := |before|, RData(before, rr);
    if HoldsName(rr.rtype) {
      var lead, text := rr.data[..Leading(rr.rtype)], rr.data[Leading(rr.rtype)..];
      var prefix := before + lead;
      SplitSlice(m, b, lead, NameBytes(prefix, text));
      if text != [] {
        PatchCarries(prefix, b - 1, m, text);
      }
      NameReadsBack(m, prefix, text);
    }
  }

  lemma RRLayout(m: seq<byte>, prefix: seq<byte>, rr: Record, now: nat)
    requires Readable(rr) && now < TWO_32
    requires |prefix| + |RRBytes(prefix, rr, now)| <= |m|
    requires m[|prefix|..|prefix| + |RRBytes(prefix, rr, now)|] == RRBytes(prefix, rr, now)
    ensures var owner, ttl := NameBytes(prefix, OwnerText(rr.name)), WireTtl(rr.ttl, now);
      var d := RData(prefix + owner + Head(rr.rtype, ttl, 4), rr);
      && |d| < 128 && |RRBytes(prefix, rr, now)| == |owner| + 10 + |d|
      && Layout(m, |prefix|, owner, Head(rr.rtype, ttl, |d| as byte), d)
  {
    hide NameBytes, ValidName, Head, WireTtl, Layout;
    var owner, ttl := NameBytes(prefix, OwnerText(rr.name)), WireTtl(rr.ttl, now);
    var d := RData(prefix + owner + Head(rr.rtype, ttl, 4), rr);
    LayoutOf(m, |prefix|, owner, Head(rr.rtype, ttl, |d| as byte), d);
  }

  /** Where the parts of a written record stand in the message, and what stood before its data. */
  lemma RecordParts(m: seq<byte>, prefix: seq<byte>, rr: Record, now: nat) returns (p: nat, before: seq<byte>, d: seq<byte>)
    requires Readable(rr) && now < TWO_32 && prefix <= m
    requires |prefix| + |RRBytes(prefix, rr, now)| <= |m|
    requires m[|prefix|..|prefix| + |RRBytes(prefix, rr, now)|] == RRBytes(prefix, rr, now)
    ensures p == DecodeNext(m, |prefix|) && |before| == p + 10 && d == RData(before, rr) && |d| < 128
    ensures p + 10 + |d| == |prefix| + |RRBytes(prefix, rr, now)| <= |m|
    ensures NameAt(m, |prefix|).Some? && EqNoCase(NameAt(m, |prefix|).value, OwnerText(rr.name))
    ensures NameOnWire(m, |prefix|, p, OwnerText(rr.name))
    ensures m[p..p + 10] == Head(rr.rtype, WireTtl(rr.ttl, now), |d| as byte) && m[p + 10..p + 10 + |d|] == d
    ensures before[p + 9] == 4 && before[p + 8] == 0 && m[..p + 9] == before[..p + 9]
  {
    hide NameAt, DecodeText, DecodeNext, NameBytes, ValidName, EqNoCase, Carries, WireTtl, Head, RRBytes, RData, OwnerText, HoldsName;
    RRLayout(m, prefix, rr, now);
    var name := OwnerText(rr.name);
    var owner, ttl := NameBytes(prefix, name), WireTtl(rr.ttl, now);
    p, before := |prefix| + |owner|, prefix + owner + Head(rr.rtype, ttl, 4);
    d := RData(before, rr);
    if name != [] {
      AppendCarries(prefix, m, name);
    }
    NameAtReadsBack(m, prefix, name);
    NameReadsBack(m, prefix, name);
    BeforeOf(m, prefix, owner, rr.rtype, ttl, |d| as byte);
  }

  /** One record: the reader accepts it, finds it the same, and stops where the writer did; and it
      stands on the wire as the standard has it. */
  lemma RecordReadsBack(m: seq<byte>, prefix: seq<byte>, rr: Record, now: nat)
    requires Readable(rr) && now < TWO_32 && prefix <= m
    requires |prefix| + |RRBytes(prefix, rr, now)| <= |m|
    requires m[|prefix|..|prefix| + |RRBytes(prefix, rr, now)|] == RRBytes(prefix, rr, now)
    ensures var p := DecodeNext(m, |prefix|);
      && !Malformed(m, p) && Same(ParsedAt(m, |prefix|, 0), rr, now)
      && p + 10 + At(m, p + 9) as nat == |prefix| + |RRBytes(prefix, rr, now)|
    ensures OnWire(m, |prefix|, rr, now) && RecordEnd(m, |prefix|) == |prefix| + |RRBytes(prefix, rr, now)|
  {
    hide NameAt, DecodeNext, DataAt, NameBytes, ValidName, EqNoCase, WireTtl, Head, FromBigEndian,
      RRBytes, RData, SameData, OwnerText, HoldsName, Slice, OnWire, RecordEnd, NameOnWire;
    var p, before, d := RecordParts(m, prefix, rr, now);
    HeadReadsBack(m, p, rr.rtype, WireTtl(rr.ttl, now), |d| as byte);
    DataReadsBack(m, before, rr);
    RecordIsOnWire(m, |prefix|, rr, now, p, before, d);
  }

  lemma RecordIsOnWire(m: seq<byte>, t: nat, rr: Record, now: nat, p: nat, before: seq<byte>, d: seq<byte>)
    requires Readable(rr) && now < TWO_32 && p == DecodeNext(m, t) && |before| == p + 10 && p + 10 + |d| <= |m|
    requires d == RData(before, rr) && |d| < 128 && m[p + 10..p + 10 + |d|] == d
    requires m[p..p + 10] == Head(rr.rtype, WireTtl(rr.ttl, now), |d| as byte)
    requires before[p + 9] == 4 && before[p + 8] == 0 && m[..p + 9] == before[..p + 9]
    requires NameOnWire(m, t, p, OwnerText(rr.name))
    ensures OnWire(m, t, rr, now) && RecordEnd(m, t) == p + 10 + |d|
  {
    hide DecodeNext, ValidName, WireTtl, Head, RData, HoldsName, NameOnWire, DataOnWire;
    HeadOnWire(m, p, rr.rtype, WireTtl(rr.ttl, now), |d| as byte);
    DataIsOnWire(m, before, rr);
  }

  /** The message as it stood while the record's own name was compressed: all but RDLENGTH. */
  lemma BeforeOf(m: seq<byte>, prefix: seq<byte>, owner: seq<byte>, rtype: nat, ttl: nat, n: byte)
    requires rtype < 0x1_0000 && ttl < TWO_32 && prefix <= m
    requires |prefix| + |owner| + 10 <= |m|
    requires m[|prefix|..|prefix| + |owner|] == owner
    requires m[|prefix| + |owner|..|prefix| + |owner| + 10] == Head(rtype, ttl, n)
    ensures var b := prefix + owner + Head(rtype, ttl, 4); var q := |b| - 1;
      b[q] == 4 && b[q - 1] == 0 && m[..q] == b[..q]
  {
  }

  // ---------------------------------------------------------------- whole messages

  predicate AllReadable(rrs: seq<Record>) {
    forall k :: 0 <= k < |rrs| ==> Readable(rrs[k])
  }

  predicate AllSame(recs: seq<Parsed>, rrs: seq<Record>, now: nat) {
    |recs| == |rrs| && forall k :: 0 <= k < |rrs| ==> Same(recs[k], rrs[k], now)
  }

  /** Records written one after another, each behind all that came before it. */
  function AllBytes(prefix: seq<byte>, rrs: seq<Record>, now: nat): seq<byte>
    requires now < TWO_32 && AllReadable(rrs)
    decreases |rrs|
  {
    if rrs == [] then []
    else
      var one := RRBytes(prefix, rrs[0], now);
      one + AllBytes(prefix + one, rrs[1..], now)
  }

  /** The records stand one behind the other, from t to end. */
  ghost predicate AllOnWire(m: seq<byte>, t: nat, rrs: seq<Record>, now: nat, end: nat)
    decreases |rrs|
  {
    if rrs == [] then t == end
    else OnWire(m, t, rrs[0], now) && AllOnWire(m, RecordEnd(m, t), rrs[1..], now, end)
  }

  lemma {:induction false} RecordsReadBack(m: seq<byte>, prefix: seq<byte>, rrs: seq<Record>, now: nat)
    requires now < TWO_32 && AllReadable(rrs)
    requires prefix + AllBytes(prefix, rrs, now) <= m
    ensures var end := |prefix| + |AllBytes(prefix, rrs, now)|;
      var r := ParseAll(m, |prefix|, end, 0);
      r.1 == end && AllSame(r.0, rrs, now) && AllOnWire(m, |prefix|, rrs, now, end)
    decreases |rrs|
  {
    hide OnWire, RecordEnd, RRBytes, DecodeNext, Malformed, ParsedAt, Same, Writable, HoldsName, ParseAll, AllSame;
    var end := |prefix| + |AllBytes(prefix, rrs, now)|;
    if rrs == [] {
      ParsedUp(m, end, end, 0);
      NoneSame(now);
    } else {
      var one := RRBytes(prefix, rrs[0], now);
      var rest := AllBytes(prefix + one, rrs[1..], now);
      hide AllBytes;
      PiecesOf(m, prefix, one, rest);
      RecordReadsBack(m, prefix, rrs[0], now);
      RecordsReadBack(m, prefix + one, rrs[1..], now);
      ParsedOn(m, |prefix|, end, 0);
      OneMoreSame(ParsedAt(m, |prefix|, 0), ParseAll(m, |prefix + one|, end, 0).0, rrs, now);
    }
  }

  lemma ParsedUp(m: seq<byte>, t: nat, et: nat, expire: nat)
    requires t >= et
    ensures ParseAll(m, t, et, expire) == ([], t)
  {
  }

  lemma ParsedOn(m: seq<byte>, t: nat, et: nat, expire: nat)
    requires t < et && !Malformed(m, DecodeNext(m, t))
    ensures var p := DecodeNext(m, t);
      var rest := ParseAll(m, p + 10 + At(m, p + 9) as nat, et, expire);
      ParseAll(m, t, et, expire) == ([ParsedAt(m, t, expire)] + rest.0, rest.1)
  {
    hide DecodeNext, Malformed, ParsedAt;
  }

  lemma NoneSame(now: nat)
    ensures AllSame([], [], now)
  {
  }

  lemma OneMoreSame(p: Parsed, recs: seq<Parsed>, rrs: seq<Record>, now: nat)
    requires rrs != [] && Same(p, rrs[0], now) && AllSame(recs, rrs[1..], now)
    ensures AllSame([p] + recs, rrs, now)
  {
    hide Same;
    forall k | 0 <= k < |rrs| ensures Same(([p] + recs)[k], rrs[k], now) {
      if k > 0 { assert rrs[k] == rrs[1..][k - 1]; }
    }
  }

  lemma PiecesOf(m: seq<byte>, prefix: seq<byte>, one: seq<byte>, rest: seq<byte>)
    requires prefix + (one + rest) <= m
    ensures prefix <= m && (prefix + one) + rest <= m
    ensures m[|prefix|..|prefix| + |one|] == one
  {
    Regroup(prefix, one, rest);
    var whole := prefix + one + rest;
    assert m[..|whole|] == whole;
    assert prefix == whole[..|prefix|] == m[..|prefix|];
    assert one == whole[|prefix|..|prefix| + |one|];
  }

  /** RFC 1035 section 4.1.3: any run of AddRR calls behind any bytes, read back by
      AddRRfromReply as a zone transfer is (rtyp 0), whatever follows in the buffer. */
  lemma MessageRoundTrip(prefix: seq<byte>, rrs: seq<Record>, now: nat, tail: seq<byte>)
    requires now < TWO_32 && AllReadable(rrs)
    ensures var end := |prefix| + |AllBytes(prefix, rrs, now)|;
      var m := prefix + AllBytes(prefix, rrs, now) + tail;
      var r := ParseAll(m, |prefix|, end, Expiry(0, now));
      r.1 == end && AllSame(r.0, rrs, now) && AllOnWire(m, |prefix|, rrs, now, end)
  {
    hide AllBytes, ParseAll, AllSame, AllReadable, AllOnWire;
    RecordsReadBack(prefix + AllBytes(prefix, rrs, now) + tail, prefix, rrs, now);
  }

  /** AddRR for each record in turn. */
  method WriteAll(m: array<byte>, t0: nat, rrs: seq<Record>, now: nat) returns (end: nat)
    requires 12 <= t0 && now < TWO_32 && AllReadable(rrs)
    requires t0 + 203 * |rrs| <= m.Length
    modifies m
    ensures t0 <= end <= t0 + 203 * |rrs| && m[..end] == old(m[..t0]) + AllBytes(old(m[..t0]), rrs, now)
  {
    hide RRBytes, ValidName, HoldsName;
    ghost var P := m[..t0];
    end := t0;
    var i := 0;
    assert rrs[0..] == rrs;
    while i < |rrs|
      invariant 0 <= i <= |rrs| && t0 <= end <= t0 + 203 * i
      invariant m[..end] + AllBytes(m[..end], rrs[i..], now) == P + AllBytes(P, rrs, now)
    {
      ghost var before := m[..end];
      assert rrs[i..][0] == rrs[i] && rrs[i..][1..] == rrs[i + 1..];
      end := AddRR(m, end, rrs[i], now);
      i := i + 1;
      Regroup(before, RRBytes(before, rrs[i - 1], now), AllBytes(m[..end], rrs[i..], now));
    }
  }

  /** The same by the methods: write every record, then read the message. */
  method WriteThenRead(m: array<byte>, t0: nat, rrs: seq<Record>, now: nat) returns (end: nat, recs: seq<Parsed>)
    requires 12 <= t0 && now < TWO_32 && AllReadable(rrs)
    requires t0 + 203 * |rrs| + 335 <= m.Length
    modifies m
    ensures t0 <= end <= m.Length && m[..t0] == old(m[..t0])
    ensures AllSame(recs, rrs, now) && AllOnWire(m[..], t0, rrs, now, end)
  {
    hide AllBytes, ParseAll, AllSame, AllReadable, AllOnWire;
    ghost var P := m[..t0];
    end := WriteAll(m, t0, rrs, now);
    assert m[..t0] == m[..end][..t0] == P;
    RecordsReadBack(m[..], P, rrs, now);
    var stop, hits;
    recs, stop, hits := ReadReply(m, t0, end, 0, now, 0);
  }

  /** The reply to a query adds the time and twenty seconds to each TTL, and differs in nothing else
      from a zone transfer. */
  lemma {:induction false} ExpiryAside(m: seq<byte>, t: nat, et: nat, expire: nat)
    ensures var a, b := ParseAll(m, t, et, expire), ParseAll(m, t, et, 0);
      && a.1 == b.1 && |a.0| == |b.0|
      && forall k :: 0 <= k < |a.0| ==> a.0[k] == b.0[k].(ttl := (b.0[k].ttl + expire) % TWO_32)
    decreases et - t
  {
    hide ParseAll, DecodeNext, Malformed, NameAt, DataAt, FromBigEndian;
    if t >= et {
      ParsedUp(m, t, et, expire);
      ParsedUp(m, t, et, 0);
    } else if Malformed(m, DecodeNext(m, t)) {
      ParsedNoMore(m, t, et, expire);
      ParsedNoMore(m, t, et, 0);
    } else {
      ParsedOn(m, t, et, expire);
      ParsedOn(m, t, et, 0);
      ExpiryAside(m, DecodeNext(m, t) + 10 + At(m, DecodeNext(m, t) + 9) as nat, et, expire);
    }
  }

  lemma ParsedNoMore(m: seq<byte>, t: nat, et: nat, expire: nat)
    requires t < et && Malformed(m, DecodeNext(m, t))
    ensures ParseAll(m, t, et, expire) == ([], DecodeNext(m, t))
  {
  }
}
