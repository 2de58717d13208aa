/** Which country an address belongs to: a binary search per country, a walk over the countries
    (cstat.cpp:52-101). */
module CountryFind {
  import opened Bytes

  /** 1 << e. */
  function Two(e: nat): (p: nat)
    ensures p >= 1
  {
    if e == 0 then 1 else 2 * Two(e - 1)
  }

  /** A range packs its base, a multiple of 32, with the exponent of its size. */
  function Base(r: word): nat { (r - r % 32) as nat }

  /** One past the range's last address. */
  function End(r: word): nat { Base(r) + Two((r % 32) as nat) }

  /** The sizes a range may have. */
  const SIZES: seq<nat> := [
    1, 2, 4, 8, 16, 32, 64, 128,
    256, 512, 1024, 2048, 4096, 8192, 16384, 32768,
    65536, 131072, 262144, 524288, 1048576, 2097152, 4194304, 8388608,
    16777216, 33554432, 67108864, 134217728, 268435456, 536870912, 1073741824, 2147483648]

  /** A range begins at its word without the low five bits, and these say which size it has. */
  lemma RangeOf(r: word)
    ensures Base(r) == r as nat / 32 * 32 && End(r) == Base(r) + SIZES[r % 32]
  {
    TwoIs((r % 32) as nat);
  }

  lemma {:induction false} TwoIs(e: nat)
    requires e < 32
    ensures Two(e) == SIZES[e]
  {
    if e > 0 { TwoIs(e - 1); }
  }

  /** A country's ranges as the data file has them: none empty of base, none wrapping, sorted and apart. */
  ghost predicate Ordered(ip: seq<word>) {
    && |ip| >= 1
    && (forall i :: 0 <= i < |ip| ==> 0 < Base(ip[i]) < End(ip[i]) < 0x1_0000_0000)
    && (forall i, j :: 0 <= i < j < |ip| ==> End(ip[i]) <= Base(ip[j]))
  }

  /** The ranges FastFind answers for: one strictly holding s, the first one from its base on, the
      last one to its end inclusive. */
  ghost predicate Answers(ip: seq<word>, s: nat, i: nat) {
    && i < |ip|
    && (Base(ip[i]) < s < End(ip[i]) || (i == 0 && s == Base(ip[0])) || (i == |ip| - 1 && s == End(ip[i])))
  }

  /** FastFind (cstat.cpp:52-81): the base of the range that answers, 0 if none does. */
  method FastFind(ip: seq<word>, s: nat) returns (b: nat)
    requires Ordered(ip) && s < 0x1_0000_0000
    ensures b != 0 ==> exists i: nat :: Answers(ip, s, i) && b == Base(ip[i])
    ensures b == 0 ==> forall i: nat :: !Answers(ip, s, i)
  {
    hide Base, End;
    var first, last := 0, |ip| - 1;
    while true
      invariant 0 <= first <= last < |ip|
      invariant first > 0 ==> Base(ip[first]) < s
      invariant last < |ip| - 1 ==> s <= Base(ip[last])
      decreases last - first
    {
      var f := Base(ip[first]);
      if f > s {
        return 0;
      }
      if s < End(ip[first]) {
        assert Answers(ip, s, first);
        return f;
      }
      var l := Base(ip[last]);
      if End(ip[last]) < s {
        return 0;
      }
      if s > l {
        assert Answers(ip, s, last);
        return l;
      }
      var c := (last - first) / 2;
      if c == 0 {
        return 0;
      }
      var mid := first + c;
      if s <= Base(ip[mid]) {
        last := mid;
      } else {
        first := mid;
      }
    }
  }

  /** At most one range of a country answers. */
  lemma AnswersOnce(ip: seq<word>, s: nat, i: nat, j: nat)
    requires Ordered(ip) && Answers(ip, s, i) && Answers(ip, s, j)
    ensures i == j
  {
    hide Base, End;
  }

  /** So a base that is not the first is not found, though the range holds it. */
  lemma OwnBaseNotFound(ip: seq<word>, i: nat)
    requires Ordered(ip) && 0 < i < |ip|
    ensures forall j: nat :: !Answers(ip, Base(ip[i]), j)
  {
    hide Base, End;
  }

  /** A country that answers for the address, and how far above the range's base it lies. */
  ghost predicate Claims(dat: seq<seq<word>>, p: nat, ip: nat, k: nat) {
    p < |dat| && exists i: nat :: Answers(dat[p], ip, i) && k == ip - Base(dat[p][i])
  }

  ghost predicate Chosen(dat: seq<seq<word>>, ip: nat, p: nat, k: nat) {
    && Claims(dat, p, ip, k)
    && (k < 254 ==> forall q: nat, j: nat :: q < p && Claims(dat, q, ip, j) ==> j >= 254)
    && (k >= 254 ==> forall q: nat, j: nat :: Claims(dat, q, ip, j) ==> k <= j && (q < p ==> k < j))
  }

  /** FindCntr (cstat.cpp:84-101): the first country that answers within 254 of a base, else the
      first of those that answer from nearest. */
  method FindCntr(dat: seq<seq<word>>, ip: nat) returns (bp: Option<nat>)
    requires ip < 0x1_0000_0000 && forall p :: 0 <= p < |dat| ==> Ordered(dat[p])
    ensures bp.None? ==> forall p: nat, k: nat :: !Claims(dat, p, ip, k)
    ensures bp.Some? ==> exists k: nat :: Chosen(dat, ip, bp.value, k)
  {
    hide Ordered, Base, End;
    var db: nat := 0xFFFF_FFFF;
    bp := None;
    for p := 0 to |dat|
      invariant forall q: nat, j: nat :: q < p && Claims(dat, q, ip, j) ==> j >= 254 && db <= j
      invariant bp.None? ==> db == 0xFFFF_FFFF && forall q: nat, j: nat :: q < p ==> !Claims(dat, q, ip, j)
      invariant bp.Some? ==> bp.value < p && db >= 254 && Claims(dat, bp.value, ip, db)
      invariant bp.Some? ==> forall q: nat, j: nat :: q < bp.value && Claims(dat, q, ip, j) ==> db < j
    {
      var b := FastFind(dat[p], ip);
      if b != 0 {
        ghost var i: nat :| Answers(dat[p], ip, i) && b == Base(dat[p][i]);
        BelowAddress(dat[p], ip, i);
        var k := ip - b;
        assert Claims(dat, p, ip, k);
        forall j: nat | Claims(dat, p, ip, j) ensures j == k {
          var i': nat :| Answers(dat[p], ip, i') && j == ip - Base(dat[p][i']);
          AnswersOnce(dat[p], ip, i, i');
        }
        if k < 254 {
          assert Chosen(dat, ip, p, k);
          return Some(p);
        }
        if db > k {
          db := k;
          bp := Some(p);
        }
      }
    }
    if bp.Some? {
      assert Chosen(dat, ip, bp.value, db);
    }
  }

  lemma BelowAddress(ip: seq<word>, s: nat, i: nat)
    requires Ordered(ip) && Answers(ip, s, i)
    ensures 0 < Base(ip[i]) <= s
  {
    hide Base, End;
  }

  /** The country whose range strictly holds the address is found, if no other country answers:
      the address is in no other country's range and ends no other country's last range. */
  lemma OnlyClaimantFound(dat: seq<seq<word>>, ip: nat, p: nat, i: nat, found: Option<nat>)
    requires p < |dat| && i < |dat[p]| && Base(dat[p][i]) < ip < End(dat[p][i])
    requires forall q, j :: 0 <= q < |dat| && q != p && 0 <= j < |dat[q]| ==>
      !(Base(dat[q][j]) <= ip < End(dat[q][j])) && !(j == |dat[q]| - 1 && ip == End(dat[q][j]))
    requires found.None? ==> forall q: nat, k: nat :: !Claims(dat, q, ip, k)
    requires found.Some? ==> exists k: nat :: Chosen(dat, ip, found.value, k)
    ensures found == Some(p)
  {
    assert Answers(dat[p], ip, i);
    assert Claims(dat, p, ip, ip - Base(dat[p][i]));
    assert found.Some?;
    var k: nat :| Chosen(dat, ip, found.value, k);
    var j: nat :| Answers(dat[found.value], ip, j) && k == ip - Base(dat[found.value][j]);
  }
}
