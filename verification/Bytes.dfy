/** Bytes, C strings and the letter-case folding of strcasecmp, and the small types and facts the
    modules share. */
module Bytes {

  newtype byte = x: int | 0 <= x < 256

  /** The original's ulong: 32 bits. */
  newtype word = x: int | 0 <= x < 0x1_0000_0000

  datatype Option<+T> = None | Some(value: T)

  const DOT: byte := 46

  const TWO_32: nat := 0x1_0000_0000
  const TWO_64: nat := 0x1_0000_0000_0000_0000

  /** What strcasecmp compares: only the letters A to Z change. */
  function Lower(c: byte): byte {
    if 65 <= c <= 90 then c + 32 else c
  }

  predicate EqNoCase(a: seq<byte>, b: seq<byte>) {
    && |a| == |b|
    && forall k :: 0 <= k < |a| ==> Lower(a[k]) == Lower(b[k])
  }

  /** Two bytes compare equal exactly if they are the same or the two cases of one letter A to Z. */
  lemma LowerMeets(a: byte, b: byte)
    ensures Lower(a) == Lower(b) <==> a == b || (65 <= a <= 90 && b == a + 32) || (65 <= b <= 90 && a == b + 32)
  {
  }

  lemma EqNoCaseReflexive(a: seq<byte>)
    ensures EqNoCase(a, a)
  {
  }

  lemma EqNoCaseLength(a: seq<byte>, b: seq<byte>)
    requires EqNoCase(a, b)
    ensures |a| == |b|
  {
  }

  lemma EqNoCaseSlice(a: seq<byte>, b: seq<byte>, i: nat, j: nat)
    requires EqNoCase(a, b) && i <= j <= |a|
    ensures EqNoCase(a[i..j], b[i..j])
  {
    forall k | 0 <= k < j - i ensures Lower(a[i..j][k]) == Lower(b[i..j][k]) {
      assert a[i..j][k] == a[i + k] && b[i..j][k] == b[i + k];
    }
  }

  /** The byte at k, reading 0 past the end. */
  function At(m: seq<byte>, k: nat): byte {
    if k < |m| then m[k] else 0
  }

  function Slice(m: seq<byte>, from: nat, n: nat): (r: seq<byte>)
    ensures |r| == n
    ensures forall k :: 0 <= k < n ==> r[k] == At(m, from + k)
    ensures from + n <= |m| ==> r == m[from..from + n]
  {
    seq(n, k requires 0 <= k => At(m, from + k))
  }

  /** strcasecmp(m + r, m + s) == 0. */
  predicate StrCaseEq(m: seq<byte>, r: nat, s: nat)
    decreases if r < |m| then |m| - r else 0
  {
    && Lower(At(m, r)) == Lower(At(m, s))
    && (At(m, r) == 0 || StrCaseEq(m, r + 1, s + 1))
  }

  /** w is one C string: its only NUL is its last byte. */
  predicate IsCString(w: seq<byte>) {
    |w| > 0 && w[|w| - 1] == 0 && forall k :: 0 <= k < |w| - 1 ==> w[k] != 0
  }

  /** strcasecmp against a C string compares exactly that many bytes. */
  lemma {:induction false} StrCaseEqMeaning(m: seq<byte>, r: nat, s: nat, w: seq<byte>)
    requires IsCString(w) && s + |w| <= |m| && r + |w| <= |m| && m[s..s + |w|] == w
    ensures StrCaseEq(m, r, s) <==> EqNoCase(m[r..r + |w|], w)
    decreases |w|
  {
    assert m[s] == w[0];
    var a := m[r..r + |w|];
    assert a[0] == m[r];
    if |w| > 1 {
      StrCaseEqMeaning(m, r + 1, s + 1, w[1..]);
      var b := m[r + 1..r + 1 + |w[1..]|];
      assert b == a[1..];
      if EqNoCase(b, w[1..]) && Lower(a[0]) == Lower(w[0]) {
        forall k | 0 <= k < |w| ensures Lower(a[k]) == Lower(w[k]) {
          if k > 0 { assert a[k] == b[k - 1] && w[k] == w[1..][k - 1]; }
        }
      }
      if EqNoCase(a, w) {
        forall k | 0 <= k < |b| ensures Lower(b[k]) == Lower(w[1..][k]) {
          assert b[k] == a[k + 1] && w[1..][k] == w[k + 1];
        }
      }
    }
  }

  /** The text up to its first NUL, as strlen and strcpy see it. */
  function CStr(text: seq<byte>): (c: seq<byte>)
    ensures |c| <= |text| && c == text[..|c|] && 0 !in c
    ensures |c| < |text| ==> text[|c|] == 0
  {
    if text == [] || text[0] == 0 then [] else [text[0]] + CStr(text[1..])
  }

  lemma {:induction false} CStrIs(text: seq<byte>, k: nat)
    requires k <= |text| && (k < |text| ==> text[k] == 0)
    requires forall i :: 0 <= i < k ==> text[i] != 0
    ensures CStr(text) == text[..k]
  {
    var c := CStr(text);
    assert forall i :: 0 <= i < |c| ==> text[i] == c[i] && c[i] in c;
    assert |c| == k;
  }

  // ---------------------------------------------------------------- sequences

  function Repeat<T>(x: T, n: nat): (r: seq<T>)
    ensures |r| == n && forall k :: 0 <= k < n ==> r[k] == x
  {
    seq(n, _ => x)
  }

  lemma Regroup<T>(a: seq<T>, l: seq<T>, r: seq<T>)
    ensures a + (l + r) == (a + l) + r
  {
  }

  lemma PatchInside<T>(a: seq<T>, b: seq<T>, c: seq<T>, k: nat, x: T)
    requires k < |b|
    ensures (a + b + c)[|a| + k := x] == a + b[k := x] + c
  {
  }

  lemma SubSlice<T>(m: seq<T>, s: nat, n: nat, i: nat, j: nat)
    requires s + n <= |m| && i <= j <= n
    ensures m[s..s + n][i..j] == m[s + i..s + j]
    ensures i < n ==> m[s..s + n][i] == m[s + i]
  {
    var a := m[s..s + n];
    assert forall k :: 0 <= k < n ==> a[k] == m[s + k];
    assert a[i..j] == m[s + i..s + j];
  }

  lemma ConsDrop<T>(x: T, r: seq<T>, i: nat)
    requires i <= |r|
    ensures ([x] + r)[i + 1..] == r[i..]
  {
  }

  lemma SplitSlice<T>(m: seq<T>, s: nat, a: seq<T>, b: seq<T>)
    requires s + |a| + |b| <= |m| && m[s..s + |a| + |b|] == a + b
    ensures m[s..s + |a|] == a
    ensures m[s + |a|..s + |a| + |b|] == b
  {
    var whole := m[s..s + |a| + |b|];
    assert m[s..s + |a|] == whole[..|a|];
    assert m[s + |a|..s + |a| + |b|] == whole[|a|..];
  }

  lemma TakeSplit<T>(b: seq<T>, off: nat, j: nat)
    requires off + j <= |b|
    ensures j > 0 ==> b[off] == b[off..][..j][0]
    ensures b[..off + j] == b[..off] + b[off..][..j]
  {
  }
}
