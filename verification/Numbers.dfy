/** Division and number printing (bvprintf.cpp:67-142) and the parsers that read the digits back
    (conf.cpp:74-78, conf.cpp:108-112). */
module Numbers {
  import opened Bytes

  function Pow(o: nat, k: nat): nat {
    if k == 0 then 1 else o * Pow(o, k - 1)
  }

  lemma {:induction false} PowPositive(o: nat, k: nat)
    requires o > 0
    ensures Pow(o, k) > 0
  {
    if k > 0 { PowPositive(o, k - 1); }
  }

  lemma {:induction false} PowAdd(o: nat, j: nat, k: nat)
    ensures Pow(o, j + k) == Pow(o, j) * Pow(o, k)
    decreases j
  {
    if j > 0 {
      PowAdd(o, j - 1, k);
      Associate(o, Pow(o, j - 1), Pow(o, k));
    }
  }

  lemma Associate(x: nat, y: nat, z: nat)
    ensures x * (y * z) == x * y * z
  {
  }

  lemma PowersOfTwo()
    ensures Pow(2, 32) == TWO_32 && Pow(2, 64) == TWO_64
  {
    assert Pow(2, 8) == 0x100;
    PowAdd(2, 8, 8);
    PowAdd(2, 16, 16);
    PowAdd(2, 32, 32);
  }

  // ---------------------------------------------------------------- shift and subtract

  /** q | 1 << i. */
  function SetBit(q: nat, i: nat): nat {
    PowPositive(2, i);
    if q / Pow(2, i) % 2 == 1 then q else q + Pow(2, i)
  }

  /** (a >> i) & 1. */
  function Bit(a: nat, i: nat): (bit: nat)
    ensures bit < 2
  {
    PowPositive(2, i);
    a / Pow(2, i) % 2
  }

  lemma SetClearBit(quot: nat, i: nat)
    ensures SetBit(2 * quot * Pow(2, i), i) == (2 * quot + 1) * Pow(2, i)
  {
    PowPositive(2, i);
    var p := Pow(2, i);
    DivExact(2 * quot, p);
  }

  lemma DivExact(x: nat, p: nat)
    requires p > 0
    ensures x * p / p == x
  {
    DivUnique(x * p, p, x, 0);
  }

  lemma DivUnique(a: nat, b: nat, q: nat, r: nat)
    requires b > 0 && r < b && a == q * b + r
    ensures a / b == q && a % b == r
  {
    var q', r' := a / b, a % b;
    assert a == q' * b + r';
    if q' > q { Above(q', q, b); }
    if q > q' { Above(q, q', b); }
  }

  lemma Above(x: nat, y: nat, b: nat)
    requires x > y
    ensures x * b >= y * b + b
  {
    assert x * b - y * b == (x - y) * b;
    assert (x - y) * b == b + (x - y - 1) * b;
    Product(x - y - 1, b);
  }

  lemma Product(x: nat, y: nat)
    ensures x * y >= 0
  {
  }

  /** a >> i, one bit further down. */
  lemma ShiftedOn(a: nat, i: nat)
    ensures Pow(2, i) > 0 && Pow(2, i + 1) > 0
    ensures a / Pow(2, i) == 2 * (a / Pow(2, i + 1)) + a / Pow(2, i) % 2
  {
    hide Pow;
    PowPositive(2, i);
    PowPositive(2, i + 1);
    PowStep(i + 1);
    Halved(a, Pow(2, i));
  }

  lemma Halved(a: nat, p: nat)
    requires p > 0
    ensures a / p == 2 * (a / (2 * p)) + a / p % 2
  {
    var x, rest := a / p, a % p;
    var h, l := x / 2, x % 2;
    assert a == x * p + rest;
    TwoHalves(h, l, p);
    DivUnique(a, 2 * p, h, (if l == 0 then 0 else p) + rest);
  }

  lemma TwoHalves(h: nat, l: nat, p: nat)
    requires l < 2
    ensures (2 * h + l) * p == h * (2 * p) + if l == 0 then 0 else p
  {
  }

  lemma PowStep(k: nat)
    requires k > 0
    ensures Pow(2, k) == 2 * Pow(2, k - 1)
  {
  }

  lemma OneMore(x: nat, b: nat)
    ensures (x + 1) * b == x * b + b
  {
  }

  lemma DivStep(a: nat, b: nat, i: nat, quot: nat, r: nat, bit: nat)
    requires a < TWO_64 && Pow(2, i) > 0 && Pow(2, i + 1) > 0
    requires a / Pow(2, i + 1) == quot * b + r && bit == a / Pow(2, i) % 2
    ensures 2 * r + bit < TWO_64
    ensures a / Pow(2, i) == 2 * quot * b + (2 * r + bit)
    ensures quot * Pow(2, i + 1) == 2 * quot * Pow(2, i)
  {
    ShiftedOn(a, i);
    Product(quot, b);
    QuotientAtMost(a, Pow(2, i));
    assert 2 * quot * b == 2 * (quot * b);
    assert Pow(2, i + 1) == 2 * Pow(2, i);
    DoublePow(quot, Pow(2, i));
  }

  lemma DoublePow(quot: nat, p: nat)
    ensures quot * (2 * p) == 2 * quot * p
  {
  }

  lemma QuotientAtMost(a: nat, p: nat)
    requires p > 0
    ensures a / p <= a
  {
    assert a == a / p * p + a % p;
    var q := a / p;
    assert q * p >= q by { Product(q, p - 1); assert q * p == q * (p - 1) + q; }
  }

  lemma EndDiv(a: nat, b: nat, quot: nat, q: nat, r: nat)
    requires Dividing(a, b, 0, quot, q, r)
    ensures b > 0 ==> q == a / b && r == a % b
    ensures b == 0 ==> q == TWO_64 - 1 && r == a
  {
    PowersOfTwo();
    if b > 0 { DivUnique(a, b, quot, r); }
  }

  /** With the top of a shifted in down to bit i: what is divided so far, and what remains. */
  ghost predicate Dividing(a: nat, b: nat, i: nat, quot: nat, q: nat, r: nat) {
    && a < TWO_64 && r < TWO_64 && Pow(2, i) > 0
    && q == quot * Pow(2, i) && a / Pow(2, i) == quot * b + r
    && (b > 0 ==> r < b)
    && (b == 0 ==> quot + 1 == Pow(2, if i <= 64 then 64 - i else 0))
  }

  lemma DividingStarts(a: nat, b: nat)
    requires a < TWO_64
    ensures Dividing(a, b, 64, 0, 0, 0)
  {
    hide Pow;
    PowersOfTwo();
    assert Pow(2, 0) == 1 by { PowZero(2); }
  }

  lemma DividingOn(a: nat, b: nat, i: nat, quot: nat, q: nat, r: nat)
    requires i < 64 && Dividing(a, b, i + 1, quot, q, r)
    ensures var r' := 2 * r + Bit(a, i);
      && r' < TWO_64
      && if r' >= b then Dividing(a, b, i, 2 * quot + 1, SetBit(q, i), r' - b) else Dividing(a, b, i, 2 * quot, q, r')
  {
    hide Pow, SetBit;
    PowPositive(2, i);
    DivStep(a, b, i, quot, r, Bit(a, i));
    PowStep(64 - i);
    SetClearBit(quot, i);
    OneMore(2 * quot, b);
  }

  /** my_mulldiv (bvprintf.cpp:90-120). Since r never exceeds the part of a shifted in so far, the
      shift cannot overflow and every nonzero divisor is served; zero gives all ones. */
  method MyMulldiv(a: nat, b: nat) returns (q: nat, r: nat)
    requires a < TWO_64 && b < TWO_64
    ensures b > 0 ==> q == a / b && r == a % b
    ensures b == 0 ==> q == TWO_64 - 1 && r == a
  {
    hide Pow, SetBit, Bit, Dividing;
    q, r := 0, 0;
    var i := 64;
    ghost var quot: nat := 0;
    DividingStarts(a, b);
    while i > 0
      invariant 0 <= i <= 64 && r < TWO_64 && Dividing(a, b, i, quot, q, r)
    {
      i := i - 1;
      var bit := Bit(a, i);
      DividingOn(a, b, i, quot, q, r);
      r := 2 * r % TWO_64;
      r := r + bit;
      quot := 2 * quot;
      if r >= b {
        r := r - b;
        q := SetBit(q, i);
        quot := quot + 1;
      }
    }
    EndDiv(a, b, quot, q, r);
  }

  // ---------------------------------------------------------------- digits

  /** The k + 1 digits of a in base o, highest first. */
  function Digits(a: nat, o: nat, k: nat): (ds: seq<nat>)
    requires o >= 2
    ensures |ds| == k + 1
  {
    PowPositive(o, k);
    if k == 0 then [a] else [a / Pow(o, k)] + Digits(a % Pow(o, k), o, k - 1)
  }

  /** What a reader makes of digits behind the value acc. */
  function ValueFrom(acc: nat, ds: seq<nat>, o: nat): nat
    decreases |ds|
  {
    if ds == [] then acc else ValueFrom(acc * o + ds[0], ds[1..], o)
  }

  lemma {:induction false} DigitsMean(acc: nat, a: nat, o: nat, k: nat)
    requires o >= 2
    ensures ValueFrom(acc, Digits(a, o, k), o) == acc * Pow(o, k + 1) + a
    decreases k
  {
    hide Pow;
    PowPositive(o, k);
    PowUnfold(o, k);
    var p := Pow(o, k);
    if k == 0 {
      PowZero(o);
      assert Digits(a, o, k)[1..] == [];
    } else {
      var rest := Digits(a % p, o, k - 1);
      assert Digits(a, o, k)[1..] == rest;
      DigitsMean(acc * o + a / p, a % p, o, k - 1);
      Rejoined(acc, o, a, p);
    }
  }

  lemma Rejoined(acc: nat, o: nat, a: nat, p: nat)
    requires p > 0
    ensures (acc * o + a / p) * p + a % p == acc * (o * p) + a
  {
    Distribute(acc, o, a / p, p);
  }

  lemma PowUnfold(o: nat, k: nat)
    ensures Pow(o, k + 1) == o * Pow(o, k)
  {
  }

  lemma PowZero(o: nat)
    ensures Pow(o, 0) == 1
  {
  }

  lemma Distribute(acc: nat, o: nat, x: nat, p: nat)
    ensures (acc * o + x) * p == acc * (o * p) + x * p
  {
  }

  lemma {:induction false} DigitsAreDigits(a: nat, o: nat, k: nat)
    requires o >= 2 && a < Pow(o, k + 1)
    ensures forall i :: 0 <= i <= k ==> Digits(a, o, k)[i] < o
    decreases k
  {
    hide Pow;
    PowPositive(o, k);
    PowUnfold(o, k);
    PowZero(o);
    var p := Pow(o, k);
    if k > 0 {
      DigitsAreDigits(a % p, o, k - 1);
      QuotientBelow(a, o, p);
    }
  }

  /** Only the first digit can be none: it is what the place values do not cover. */
  lemma DigitsFit(a: nat, o: nat, k: nat)
    requires o >= 2 && a < 36 * Pow(o, k)
    ensures Digits(a, o, k)[0] < 36 && forall i :: 1 <= i <= k ==> Digits(a, o, k)[i] < o
  {
    hide Pow;
    PowPositive(o, k);
    PowZero(o);
    QuotientBelow(a, 36, Pow(o, k));
    if k > 0 { DigitsAreDigits(a % Pow(o, k), o, k - 1); }
  }

  /** All digits are digits exactly when the place values cover the number. */
  lemma AllDigits(a: nat, o: nat, k: nat)
    requires o >= 2
    ensures (forall i :: 0 <= i <= k ==> Digits(a, o, k)[i] < o) <==> a < Pow(o, k + 1)
  {
    hide Pow;
    PowPositive(o, k);
    PowUnfold(o, k);
    PowZero(o);
    var p := Pow(o, k);
    FirstDigit(a, o, k);
    if a < Pow(o, k + 1) {
      DigitsAreDigits(a, o, k);
    } else if a / p < o {
      QuotientAbove(a, o, p);
    }
  }

  lemma FirstDigit(a: nat, o: nat, k: nat)
    requires o >= 2
    ensures Pow(o, k) > 0 && Digits(a, o, k)[0] == a / Pow(o, k)
  {
    PowPositive(o, k);
  }

  lemma QuotientAbove(a: nat, o: nat, p: nat)
    requires p > 0 && a / p < o
    ensures a < o * p
  {
    var q := a / p;
    assert a == q * p + a % p;
    Above(o, q, p);
  }

  lemma QuotientBelow(a: nat, o: nat, p: nat)
    requires p > 0 && a < o * p
    ensures a / p < o
  {
    var q := a / p;
    assert a == q * p + a % p;
    if q >= o { AtLeast(q, o, p); }
  }

  lemma AtLeast(q: nat, o: nat, p: nat)
    requires q >= o
    ensures q * p >= o * p
  {
    Product(q - o, p);
    assert q * p == o * p + (q - o) * p;
  }

  /** The first digit that is not zero, or the last. */
  function Lead(ds: seq<nat>): (i: nat)
    requires ds != []
    ensures i < |ds| && (i < |ds| - 1 ==> ds[i] != 0)
    ensures forall j :: 0 <= j < i ==> ds[j] == 0
  {
    if |ds| == 1 || ds[0] != 0 then 0 else 1 + Lead(ds[1..])
  }

  lemma {:induction false} LeadKeepsValue(ds: seq<nat>, o: nat)
    requires ds != []
    ensures ValueFrom(0, ds[Lead(ds)..], o) == ValueFrom(0, ds, o)
    decreases |ds|
  {
    if |ds| == 1 || ds[0] != 0 {
      assert ds[0..] == ds;
    } else {
      LeadKeepsValue(ds[1..], o);
      assert ds[1..][Lead(ds[1..])..] == ds[Lead(ds)..];
    }
  }

  function DigitChar(x: nat, letter: byte): byte
    requires x < 36 && letter in {65, 97}
  {
    if x < 10 then (48 + x) as byte else letter + (x - 10) as byte
  }

  /** The printed digits stand at t, a NUL behind them, and r is where the number starts. */
  ghost predicate Printed(m: seq<byte>, t: nat, ds: seq<nat>, letter: byte, r: nat) {
    && ds != [] && t + |ds| < |m| && letter in {65, 97} && m[t + |ds|] == 0 && r == t + Lead(ds)
    && forall i :: 0 <= i < |ds| ==> ds[i] < 36 && m[t + i] == DigitChar(ds[i], letter)
  }

  /** Printing has got n digits far: x is what is left, d the place value of the next digit. */
  ghost predicate Printing(a: nat, o: nat, k: nat, n: nat, x: nat, d: nat) {
    && 2 <= o <= 16 && n <= k + 1
    && (n == k + 1 ==> d == 0)
    && (n <= k ==> d == Pow(o, k - n) && (if n == 0 then x < 36 * d else x < Pow(o, k - n + 1)) && Digits(x, o, k - n) == Digits(a, o, k)[n..])
  }

  lemma PrintStep(a: nat, o: nat, k: nat, n: nat, x: nat, d: nat)
    requires o >= 2 && d > 0 && n <= k && Printing(a, o, k, n, x, d)
    ensures x / d == Digits(a, o, k)[n] && x / d < 36
    ensures Printing(a, o, k, n + 1, x % d, d / o)
  {
    hide Pow;
    var j := k - n;
    PowPositive(o, j);
    PowUnfold(o, j);
    PowZero(o);
    if n == 0 { QuotientBelow(x, 36, d); } else { QuotientBelow(x, o, d); }
    var ds := Digits(a, o, k);
    assert ds[n] == ds[n..][0];
    assert ds[n..][1..] == ds[n + 1..];
    if j > 0 {
      PowUnfold(o, j - 1);
      PowPositive(o, j - 1);
      DivUnique(d, o, Pow(o, j - 1), 0);
      assert Digits(x, o, j)[1..] == Digits(x % d, o, j - 1);
    } else {
      DivUnique(1, o, 0, 1);
    }
  }

  lemma PrintStart(a: nat, o: nat, k: nat)
    requires 2 <= o <= 16 && a < 36 * Pow(o, k)
    ensures Printing(a, o, k, 0, a, Pow(o, k))
  {
    assert Digits(a, o, k)[0..] == Digits(a, o, k);
  }

  method MachineDiv(a: nat, b: nat) returns (q: nat, r: nat)
    requires b > 0
    ensures q == a / b && r == a % b
  {
    q, r := a / b, a % b;
  }

  /** uitoa (bvprintf.cpp:67-83): machine division. */
  method Uitoa(m: array<byte>, t0: nat, a0: nat, d0: nat, o: nat, letter: byte, ghost k: nat) returns (r: nat)
    requires 2 <= o <= 16 && letter in {65, 97} && d0 == Pow(o, k) && a0 < TWO_32 <= 36 * d0
    requires t0 + k + 2 <= m.Length
    modifies m
    ensures Printed(m[..], t0, Digits(a0, o, k), letter, r)
  {
    hide Printing, Digits, Pow;
    ghost var ds := Digits(a0, o, k);
    var t: nat, a: nat, d: nat := t0, a0, d0;
    var first: Option<nat> := None;
    ghost var n := 0;
    PrintStart(a0, o, k);
    DigitsFit(a0, o, k);
    PrintingBounds(a0, o, k, n, a, d);
    while d != 0
      invariant t == t0 + n && n <= k + 1 && (d == 0 <==> n == k + 1) && Printing(a0, o, k, n, a, d)
      invariant forall i :: 0 <= i < n ==> m[t0 + i] == DigitChar(ds[i], letter)
      invariant match first
        case None => forall i :: 0 <= i < n ==> ds[i] == 0
        case Some(f) => t0 <= f < t && ds[f - t0] != 0 && forall i :: 0 <= i < f - t0 ==> ds[i] == 0
      decreases k + 1 - n
    {
      PrintStep(a0, o, k, n, a, d);
      var x;
      x, a := MachineDiv(a, d);
      if x != 0 && first.None? { first := Some(t); }
      m[t] := DigitChar(x, letter);
      t := t + 1;
      var unused;
      d, unused := MachineDiv(d, o);
      n := n + 1;
      PrintingBounds(a0, o, k, n, a, d);
    }
    m[t] := 0;
    r := match first { case None => t - 1 case Some(f) => f };
    LeadIs(ds, r - t0);
  }

  lemma PrintingBounds(a: nat, o: nat, k: nat, n: nat, x: nat, d: nat)
    requires Printing(a, o, k, n, x, d)
    ensures d == 0 <==> n == k + 1
  {
    if n <= k { PowPositive(o, k - n); }
  }

  lemma {:induction false} LeadIs(ds: seq<nat>, i: nat)
    requires i < |ds| && (i < |ds| - 1 ==> ds[i] != 0) && forall j :: 0 <= j < i ==> ds[j] == 0
    ensures Lead(ds) == i
  {
    var l := Lead(ds);
    assert !(l < i) && !(i < l);
  }

  /** my_ulltoa (bvprintf.cpp:122-142): both divisions by my_mulldiv. */
  method MyUlltoa(m: array<byte>, t0: nat, a0: nat, d0: nat, o: nat, letter: byte, ghost k: nat) returns (r: nat)
    requires 2 <= o <= 16 && letter in {65, 97} && d0 == Pow(o, k) && a0 < TWO_64 <= 36 * d0
    requires d0 < TWO_64 && t0 + k + 2 <= m.Length
    modifies m
    ensures Printed(m[..], t0, Digits(a0, o, k), letter, r)
  {
    hide Printing, Digits, Pow;
    ghost var ds := Digits(a0, o, k);
    var t: nat, a: nat, d: nat := t0, a0, d0;
    var first: Option<nat> := None;
    ghost var n := 0;
    PrintStart(a0, o, k);
    DigitsFit(a0, o, k);
    PrintingBounds(a0, o, k, n, a, d);
    while d != 0
      invariant t == t0 + n && n <= k + 1 && (d == 0 <==> n == k + 1) && Printing(a0, o, k, n, a, d)
      invariant a < TWO_64 && d < TWO_64
      invariant forall i :: 0 <= i < n ==> m[t0 + i] == DigitChar(ds[i], letter)
      invariant match first
        case None => forall i :: 0 <= i < n ==> ds[i] == 0
        case Some(f) => t0 <= f < t && ds[f - t0] != 0 && forall i :: 0 <= i < f - t0 ==> ds[i] == 0
      decreases k + 1 - n
    {
      PrintStep(a0, o, k, n, a, d);
      QuotientAtMost(d, o);
      var x;
      x, a := MyMulldiv(a, d);
      if x != 0 && first.None? { first := Some(t); }
      m[t] := DigitChar(x, letter);
      t := t + 1;
      var unused;
      d, unused := MyMulldiv(d, o);
      n := n + 1;
      PrintingBounds(a0, o, k, n, a, d);
    }
    m[t] := 0;
    r := match first { case None => t - 1 case Some(f) => f };
    LeadIs(ds, r - t0);
  }

  // ---------------------------------------------------------------- reading back

  /** The digit atoui or atouix sees in a signed char, if any; in base 16 the characters between 9
      and A count as well. */
  function DigitOf(c: byte, base: nat): Option<nat> {
    if base == 16 && 97 <= c <= 102 then Some(c as nat - 87)
    else if base == 16 && 65 <= c <= 70 then Some(c as nat - 55)
    else if 48 <= c && c as int < 48 + base && c < 65 then Some(c as nat - 48)
    else None
  }

  function Read(m: seq<byte>, p: nat, base: nat, acc: nat): nat
    decreases |m| - p
  {
    if p >= |m| || DigitOf(m[p], base).None? then acc
    else Read(m, p + 1, base, (acc * base + DigitOf(m[p], base).value) % TWO_32)
  }

  /** atoui and atouix (conf.cpp:74-78, conf.cpp:108-112). */
  method Atoui(m: array<byte>, p0: nat, base: nat) returns (r: nat)
    requires base in {10, 16} && exists q :: p0 <= q < m.Length && DigitOf(m[q], base).None?
    ensures r == Read(m[..], p0, base, 0)
  {
    ghost var q :| p0 <= q < m.Length && DigitOf(m[q], base).None?;
    var p := p0;
    r := 0;
    while DigitOf(m[p], base).Some?
      invariant p0 <= p <= q && Read(m[..], p, base, r) == Read(m[..], p0, base, 0)
      decreases q - p
    {
      r := (r * base + DigitOf(m[p], base).value) % TWO_32;
      p := p + 1;
    }
  }

  lemma {:induction false} ValueGrows(acc: nat, ds: seq<nat>, o: nat)
    requires o >= 1
    ensures ValueFrom(acc, ds, o) >= acc
    decreases |ds|
  {
    if ds != [] {
      ValueGrows(acc * o + ds[0], ds[1..], o);
      Product(acc, o - 1);
      assert acc * o == acc + acc * (o - 1);
    }
  }

  lemma DigitOfChar(x: nat, letter: byte, base: nat)
    requires base in {10, 16} && x < base && letter in {65, 97}
    ensures DigitOf(DigitChar(x, letter), base) == Some(x)
  {
  }

  lemma ReadStep(m: seq<byte>, p: nat, base: nat, acc: nat, x: nat)
    requires p < |m| && DigitOf(m[p], base) == Some(x) && acc * base + x < TWO_32
    ensures Read(m, p, base, acc) == Read(m, p + 1, base, acc * base + x)
  {
    hide DigitOf;
  }

  lemma {:induction false} ReadDigits(m: seq<byte>, p: nat, ds: seq<nat>, letter: byte, base: nat, acc: nat)
    requires base in {10, 16} && letter in {65, 97} && p + |ds| < |m| && m[p + |ds|] == 0
    requires forall i :: 0 <= i < |ds| ==> ds[i] < base && m[p + i] == DigitChar(ds[i], letter)
    requires ValueFrom(acc, ds, base) < TWO_32
    ensures Read(m, p, base, acc) == ValueFrom(acc, ds, base)
    decreases |ds|
  {
    hide DigitChar;
    if ds != [] {
      assert m[p + 0] == m[p];
      DigitOfChar(ds[0], letter, base);
      var rest := ds[1..];
      ValueGrows(acc * base + ds[0], rest, base);
      ReadStep(m, p, base, acc, ds[0]);
      hide DigitOf, Read;
      forall i | 0 <= i < |rest| ensures rest[i] < base && m[p + 1 + i] == DigitChar(rest[i], letter) {
        assert m[p + (i + 1)] == DigitChar(ds[i + 1], letter);
      }
      ReadDigits(m, p + 1, rest, letter, base, acc * base + ds[0]);
    }
  }

  /** What stands from r on means the number exactly, with no leading zero; its characters are all
      digits of the base if and only if the number is below o times the first place value. */
  lemma PrintedExactly(m: seq<byte>, t: nat, a: nat, o: nat, k: nat, letter: byte, r: nat)
    requires 2 <= o <= 16 && Printed(m, t, Digits(a, o, k), letter, r)
    ensures var shown := Digits(a, o, k)[r - t..];
      && ValueFrom(0, shown, o) == a
      && (forall i :: 0 <= i < |shown| ==> shown[i] < 36 && m[r + i] == DigitChar(shown[i], letter))
      && m[r + |shown|] == 0
      && (|shown| > 1 ==> shown[0] != 0)
      && ((forall i :: 0 <= i < |shown| ==> shown[i] < o) <==> a < Pow(o, k + 1))
  {
    hide Pow, DigitChar, Digits, ValueFrom, Lead;
    var ds := Digits(a, o, k);
    DigitsMean(0, a, o, k);
    AllDigits(a, o, k);
    LeadKeepsValue(ds, o);
    var shown := ds[r - t..];
    forall i | 0 <= i < |shown| ensures shown[i] < 36 && m[r + i] == DigitChar(shown[i], letter) {
      assert m[t + (r - t + i)] == DigitChar(ds[r - t + i], letter);
    }
    OnlyZerosDropped(ds, r - t, o);
  }

  lemma OnlyZerosDropped(ds: seq<nat>, n: nat, o: nat)
    requires n < |ds| && o > 0 && forall i :: 0 <= i < n ==> ds[i] == 0
    ensures (forall i :: 0 <= i < |ds| ==> ds[i] < o) <==> (forall i :: 0 <= i < |ds| - n ==> ds[n..][i] < o)
  {
    forall i | n <= i < |ds| ensures ds[i] == ds[n..][i - n] {
    }
  }

  /** In decimal and 64 bits: only digits stand there if and only if the value is below 10^19. */
  lemma PrintedInDecimal(m: seq<byte>, t: nat, a: nat, letter: byte, r: nat)
    requires a < TWO_64 && Printed(m, t, Digits(a, 10, 18), letter, r)
    ensures (forall q :: r <= q <= t + 18 ==> 48 <= m[q] <= 57) <==> a < 10_000_000_000_000_000_000
  {
    hide Pow, Digits;
    PlaceValues();
    PrintedExactly(m, t, a, 10, 18, letter, r);
    var shown := Digits(a, 10, 18)[r - t..];
    forall i | 0 <= i < |shown| ensures 48 <= m[r + i] <= 57 <==> shown[i] < 10 {
      assert m[r + i] == DigitChar(shown[i], letter);
    }
    forall q | r <= q <= t + 18 ensures 48 <= m[q] <= 57 <==> shown[q - r] < 10 {
      assert m[q] == m[r + (q - r)];
    }
  }

  /** The largest value begins with the letter i, the eighteenth behind 0. */
  lemma LargestBeginsWithLetter()
    ensures Digits(TWO_64 - 1, 10, 18)[0] == 18 && DigitChar(18, 97) == 105
  {
    hide Pow;
    PlaceValues();
  }

  /** Reading back what was printed, for every 32-bit value. */
  lemma ReadsBack(m: seq<byte>, t: nat, a: nat, base: nat, k: nat, letter: byte, r: nat)
    requires base in {10, 16} && a < TWO_32 && a < Pow(base, k + 1) && Printed(m, t, Digits(a, base, k), letter, r)
    ensures Read(m, r, base, 0) == a
  {
    hide Pow, DigitChar, Digits;
    PrintedExactly(m, t, a, base, k, letter, r);
    ReadDigits(m, r, Digits(a, base, k)[r - t..], letter, base, 0);
  }

  /** The place values the callers pass are powers of their bases, and large enough for 32 bits,
      for 64 bits in octal and hexadecimal, and for 10^19 in decimal. */
  lemma PlaceValues()
    ensures Pow(10, 9) == 1_000_000_000 && Pow(10, 10) > TWO_32
    ensures Pow(16, 7) == 0x1000_0000 && Pow(16, 8) == TWO_32
    ensures Pow(10, 18) == 1_000_000_000_000_000_000 && Pow(10, 19) == 10_000_000_000_000_000_000
    ensures Pow(16, 15) == 0x1000_0000_0000_0000 && Pow(16, 16) == TWO_64
    ensures Pow(8, 10) == 0x4000_0000 && Pow(8, 11) > TWO_32
    ensures Pow(8, 21) == 0x8000_0000_0000_0000 && Pow(8, 22) > TWO_64
  {
    assert Pow(10, 4) == 10000 && Pow(16, 4) == 0x1_0000 && Pow(10, 1) == 10 && Pow(16, 3) == 0x1000;
    PowAdd(10, 4, 4);
    PowAdd(10, 1, 8);
    PowAdd(10, 1, 9);
    PowAdd(10, 9, 9);
    PowAdd(10, 1, 18);
    PowAdd(16, 3, 4);
    PowAdd(16, 4, 4);
    PowAdd(16, 7, 8);
    PowAdd(16, 8, 8);
    OctalPlaces();
  }

  lemma OctalPlaces()
    ensures Pow(8, 10) == 0x4000_0000 && Pow(8, 11) == 0x2_0000_0000
    ensures Pow(8, 21) == 0x8000_0000_0000_0000 && Pow(8, 22) == 0x4_0000_0000_0000_0000
  {
    assert Pow(8, 5) == 0x8000 && Pow(8, 1) == 8;
    PowAdd(8, 5, 5);
    PowAdd(8, 1, 10);
    PowAdd(8, 10, 11);
    PowAdd(8, 11, 11);
  }

  /** Every 32-bit value, printed and read back. */
  method PrintAndRead(a: nat, base: nat, letter: byte) returns (v: nat)
    requires a < TWO_32 && base in {10, 16} && letter in {65, 97}
    ensures v == a
  {
    hide Pow, Digits, Read;
    PlaceValues();
    var m := new byte[64](_ => 0);
    ghost var k := if base == 10 then 9 else 7;
    var r := Uitoa(m, 0, a, if base == 10 then 1_000_000_000 else 0x1000_0000, base, letter, k);
    ReadsBack(m[..], 0, a, base, k, letter, r);
    PrintedEnds(m[..], 0, Digits(a, base, k), letter, r);
    v := Atoui(m, r, base);
  }

  lemma PrintedEnds(m: seq<byte>, t: nat, ds: seq<nat>, letter: byte, r: nat)
    requires Printed(m, t, ds, letter, r)
    ensures r < t + |ds| < |m| && DigitOf(m[t + |ds|], 10).None? && DigitOf(m[t + |ds|], 16).None?
  {
  }
}
