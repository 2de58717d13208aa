/** MkName3, the hash of a name, and its blindness to letter case. */
module DnsHash {
  import opened Bytes

  /** c | 0x20 on eight bits. */
  function SetBit5(c: byte): byte {
    if c / 32 % 2 == 1 then c else c + 32
  }

  /** A signed char as 32 unsigned bits. */
  function SignExtend(c: byte): bv32 {
    if c < 128 then c as bv32 else 0xFFFF_FF00 + c as bv32
  }

  datatype Mix = Mix(i: bv32, j: bv32, k: bv32)

  /** One turn of the loop, x being (int)*t | 0x20. */
  function Stir(m: Mix, x: bv32): Mix {
    Mix(m.i ^ x.RotateLeft((m.j % 32) as nat), m.j + x, m.k + 1)
  }

  function Finish(m: Mix): nat {
    (m.i + m.j * m.k) as nat
  }

  function Fold(t: seq<byte>): Mix {
    if t == [] then Mix(0, 0, 0)
    else Stir(Fold(t[..|t| - 1]), SignExtend(SetBit5(t[|t| - 1])))
  }

  /** The hash of a name without its NUL. */
  function MkName(t: seq<byte>): nat {
    Finish(Fold(t))
  }

  /** MkName3 (dnsd.cpp:293-298). */
  method MkName3(t: seq<byte>) returns (h: nat)
    ensures h == MkName(t)
  {
    hide SignExtend, SetBit5, Stir;
    var m := Mix(0, 0, 0);
    for n := 0 to |t|
      invariant m == Fold(t[..n])
    {
      assert t[..n + 1][..n] == t[..n];
      m := Stir(m, SignExtend(SetBit5(t[n])));
    }
    assert t[..|t|] == t;
    h := Finish(m);
  }

  lemma SameBit5(a: byte, b: byte)
    requires Lower(a) == Lower(b)
    ensures SetBit5(a) == SetBit5(b)
  {
  }

  lemma {:induction false} FoldIgnoresCase(a: seq<byte>, b: seq<byte>)
    requires EqNoCase(a, b)
    ensures Fold(a) == Fold(b)
    decreases |a|
  {
    hide SignExtend, SetBit5, Stir;
    if a != [] {
      var n := |a| - 1;
      EqNoCaseSlice(a, b, 0, n);
      assert a[0..n] == a[..n] && b[0..n] == b[..n];
      FoldIgnoresCase(a[..n], b[..n]);
      SameBit5(a[n], b[n]);
    }
  }

  /** Names equal up to letter case hash alike, so a lookup may use any spelling. */
  lemma MkNameIgnoresCase(a: seq<byte>, b: seq<byte>)
    requires EqNoCase(a, b)
    ensures MkName(a) == MkName(b)
  {
    hide Finish, Fold;
    FoldIgnoresCase(a, b);
  }

  /** Two hashes worked out. */
  lemma HashesOfAAndB()
    ensures MkName([97]) == 194 && MkName([98]) == 196
  {
    hide *;
    HashOfOne(97);
    HashOfOne(98);
    StirAAndB();
    LettersAsBits();
    FinishAAndB();
  }

  lemma HashOfOne(c: byte)
    ensures MkName([c]) == Finish(Stir(Mix(0, 0, 0), SignExtend(SetBit5(c))))
  {
    hide Stir, SignExtend, SetBit5, Finish;
    var t := [c];
    assert t[..0] == [] && Fold([]) == Mix(0, 0, 0);
    assert Fold(t) == Stir(Fold(t[..0]), SignExtend(SetBit5(t[0])));
  }

  lemma StirAAndB()
    ensures Stir(Mix(0, 0, 0), 97) == Mix(97, 97, 1) && Stir(Mix(0, 0, 0), 98) == Mix(98, 98, 1)
  {
  }

  lemma LettersAsBits()
    ensures SignExtend(SetBit5(97)) == 97 && SignExtend(SetBit5(98)) == 98
  {
  }

  lemma FinishAAndB()
    ensures Finish(Mix(97, 97, 1)) == 194 && Finish(Mix(98, 98, 1)) == 196
  {
  }

  /** A second letter is turned by the sum so far. */
  lemma HashOfTwo()
    ensures MkName([97, 98]) == 555
  {
    hide *;
    FoldTwo(97, 98);
    StirAAndB();
    StirSecond();
    LettersAsBits();
  }

  lemma FoldTwo(c: byte, d: byte)
    ensures MkName([c, d]) == Finish(Stir(Stir(Mix(0, 0, 0), SignExtend(SetBit5(c))), SignExtend(SetBit5(d))))
  {
    hide Stir, SignExtend, SetBit5, Finish;
    var t := [c, d];
    assert t[..1] == [c] && [c][..0] == [] && Fold([]) == Mix(0, 0, 0);
    assert Fold(t) == Stir(Fold(t[..1]), SignExtend(SetBit5(t[1])));
    assert Fold([c]) == Stir(Fold([c][..0]), SignExtend(SetBit5([c][0])));
  }

  lemma StirSecond()
    ensures Stir(Mix(97, 97, 1), 98) == Mix(165, 195, 2) && Finish(Mix(165, 195, 2)) == 555
  {
  }

  /** A byte above 127 counts as a negative number. */
  lemma HashOfHighByte()
    ensures MkName([200]) == 0xFFFF_FFD0
  {
    hide *;
    HashOfOne(200);
    HighByte();
  }

  lemma HighByte()
    ensures SignExtend(SetBit5(200)) == 0xFFFF_FFE8
    ensures Stir(Mix(0, 0, 0), 0xFFFF_FFE8) == Mix(0xFFFF_FFE8, 0xFFFF_FFE8, 1)
    ensures Finish(Mix(0xFFFF_FFE8, 0xFFFF_FFE8, 1)) == 0xFFFF_FFD0
  {
  }
}
