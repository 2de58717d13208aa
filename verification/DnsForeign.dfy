/** Records of any server, by position and by the types' numbers (RFC 1035 sections 3.2 and 4.1.3). */
module DnsForeign {
  import opened Bytes
  import opened DnsDecode
  import opened DnsRecord
  import opened DnsSpelling

  /** The message spells a name of 1 to 62 characters and no NUL at p. */
  ghost predicate NamedAt(m: seq<byte>, p: nat, labels: seq<seq<byte>>) {
    Spells(m, p, p, labels, 35) && 1 <= |Dotted(labels)| <= 62 && 0 !in Dotted(labels)
  }

  lemma NameSpelled(m: seq<byte>, p: nat, labels: seq<seq<byte>>)
    requires NamedAt(m, p, labels)
    ensures NameAt(m, p) == Some(Dotted(labels)) && DecodeNext(m, p) == After(m, p)
  {
    hide DecodeText, DecodeNext, Dotted, Spells;
    SpelledIsRead(m, p, labels);
    var text := Dotted(labels);
    forall i | 0 <= i < |text| ensures text[i] != 0 {
      assert text[i] in text;
    }
    CStrIs(text, |text|);
    assert text[..|text|] == text;
  }

  /** The owner, type and TTL of the record at t are read as the message has them. */
  lemma RecordIsRead(m: seq<byte>, t: nat, labels: seq<seq<byte>>, expire: nat)
    requires NamedAt(m, t, labels) && After(m, t) + 10 <= |m|
    ensures var p, r := After(m, t), ParsedAt(m, t, expire);
      && r.name == Some(Dotted(labels)) && r.rtype == 0x100 * m[p] as nat + m[p + 1] as nat
      && r.ttl == (0x100_0000 * m[p + 4] as nat + 0x1_0000 * m[p + 5] as nat + 0x100 * m[p + 6] as nat
        + m[p + 7] as nat + expire) % TWO_32
  {
    hide NameAt, DecodeNext, DataAt, After;
    NameSpelled(m, t, labels);
  }

  /** Addresses, and data of no type that holds a name: the bytes as they are. */
  lemma BytesAreRead(m: seq<byte>, p: nat)
    requires p + 10 <= |m|
    ensures m[p] == 0 && m[p + 1] == 1 && p + 14 <= |m| ==> DataAt(m, p) == Some(m[p + 10..p + 14])
    ensures !(m[p] == 0 && m[p + 1] in {1, 2, 5, 6, 12, 15}) && p + 10 + m[p + 9] as nat <= |m| ==>
      DataAt(m, p) == Some(m[p + 10..p + 10 + m[p + 9] as nat])
  {
  }

  /** Name servers, aliases, pointers and mail exchangers: the name, for an exchanger behind its
      preference. */
  lemma NamesAreRead(m: seq<byte>, p: nat, labels: seq<seq<byte>>)
    requires p + 12 <= |m| && m[p] == 0
    ensures m[p + 1] in {2, 5, 12} && NamedAt(m, p + 10, labels) ==> DataAt(m, p) == Some(Dotted(labels))
    ensures m[p + 1] == 15 && NamedAt(m, p + 12, labels) ==> DataAt(m, p) == Some(m[p + 10..p + 12] + Dotted(labels))
  {
    hide NameAt, NamedAt, Dotted;
    if m[p + 1] in {2, 5, 12} && NamedAt(m, p + 10, labels) {
      NameSpelled(m, p + 10, labels);
      assert Slice(m, p + 10, 0) + Dotted(labels) == Dotted(labels);
    }
    if m[p + 1] == 15 && NamedAt(m, p + 12, labels) { NameSpelled(m, p + 12, labels); }
  }

  /** Start of authority: both names, each with its NUL, and the twenty bytes of the counters. */
  lemma SoaIsRead(m: seq<byte>, p: nat, first: seq<seq<byte>>, second: seq<seq<byte>>)
    requires p + 10 <= |m| && m[p] == 0 && m[p + 1] == 6
    requires NamedAt(m, p + 10, first) && NamedAt(m, After(m, p + 10), second)
    requires After(m, After(m, p + 10)) + 20 <= |m|
    ensures var a := After(m, After(m, p + 10));
      DataAt(m, p) == Some(Dotted(first) + [0] + Dotted(second) + [0] + m[a..a + 20])
  {
    hide NameAt, NamedAt, Dotted, DecodeNext, After;
    NameSpelled(m, p + 10, first);
    NameSpelled(m, After(m, p + 10), second);
  }

  /** A signed char. */
  function Signed(c: byte): int {
    if c < 128 then c as int else c as int - 256
  }

  /** Reading stops where the low type byte is no positive char or the low length byte a negative one. */
  lemma StopsAt(m: seq<byte>, p: nat)
    requires p + 10 <= |m|
    ensures Malformed(m, p) <==> Signed(m[p + 1]) <= 0 || Signed(m[p + 9]) < 0
  {
  }

  /** A record the count returned is of. */
  predicate IsWanted(recs: seq<Parsed>, k: nat, rtyp: nat, ancount: nat) {
    k < |recs| && k < ancount && recs[k].rtype % 0x100 == rtyp
  }

  /** The count returned: of the first ancount records, those whose low type byte is the wanted one. */
  lemma {:induction false} WantedCounts(recs: seq<Parsed>, rtyp: nat, ancount: nat)
    ensures Wanted(recs, rtyp, ancount) == |set k: nat | k < |recs| && IsWanted(recs, k, rtyp, ancount)|
  {
    var all := set k: nat | k < |recs| && IsWanted(recs, k, rtyp, ancount);
    if recs == [] {
      assert all == {};
    } else {
      var n, front := |recs| - 1, recs[..|recs| - 1];
      WantedCounts(front, rtyp, ancount);
      var those := set k: nat | k < |front| && IsWanted(front, k, rtyp, ancount);
      assert forall k: nat :: k < n ==> (k in all <==> k in those);
      assert all == if IsWanted(recs, n, rtyp, ancount) then those + {n} else those;
    }
  }
}
