/**
 The checksum of Bech32 and Bech32m (`PolyMod` in src/bech32.cpp, as in BIP 173 and
 BIP 350): symbols of five bits are shifted into a register of 30 bits, and what leaves
 it at the top is reduced by five generators.
 */
module Bech32 {
  import opened Powers

  /** A symbol of the alphabet, and one bit of a number. */
  type Symbol = v: int | 0 <= v < 32

  predicate Bit(n: nat, i: nat) {
    PowPositive(2, i);
    n / Pow2(i) % 2 == 1
  }

  /** The 30 bits of the checksum register, the lowest first. */
  type Register = c: seq<bool> | |c| == 30 witness seq(30, i => false)

  function Bits(n: nat): Register {
    seq(30, i requires 0 <= i => Bit(n, i))
  }

  function Zero(): Register {
    seq(30, i => false)
  }

  function Xor(a: Register, b: Register): Register {
    seq(30, i requires 0 <= i < 30 => a[i] != b[i])
  }

  function Generator(k: nat): Register
    requires k < 5
  {
    if k == 0 then Bits(0x3b6a57b2) else if k == 1 then Bits(0x26508e6d) else if k == 2 then Bits(0x1ea119fa)
    else if k == 3 then Bits(0x3d4233dd) else Bits(0x2a1462b3)
  }

  datatype Encoding = BECH32 | BECH32M

  function Constant(e: Encoding): Register {
    if e == BECH32 then Bits(1) else Bits(0x2bc830a3)
  }

  /** Bit `i` of what the bits that leave the register are reduced to. */
  predicate Reduced(c: Register, i: nat)
    requires i < 30
  {
    (c[25] && Generator(0)[i]) != ((c[26] && Generator(1)[i]) != ((c[27] && Generator(2)[i])
      != ((c[28] && Generator(3)[i]) != (c[29] && Generator(4)[i]))))
  }

  /** The register shifted by one symbol, without the reduction. */
  function Pushed(c: Register, v: Symbol): Register {
    seq(30, i requires 0 <= i < 30 => if i < 5 then Bit(v, i) else c[i - 5])
  }

  /** One step of `PolyMod`. */
  function Step(c: Register, v: Symbol): Register {
    seq(30, i requires 0 <= i < 30 => Pushed(c, v)[i] != Reduced(c, i))
  }

  function Poly(c: Register, s: seq<Symbol>): Register {
    if s == [] then c else Step(Poly(c, s[..|s| - 1]), s[|s| - 1])
  }

  function PolyMod(s: seq<Symbol>): Register {
    Poly(Bits(1), s)
  }

  lemma {:induction false} PolyAppend(c: Register, s: seq<Symbol>, t: seq<Symbol>)
    ensures Poly(c, s + t) == Poly(Poly(c, s), t)
  {
    hide Step;
    if t == [] {
      assert s + t == s;
    } else {
      var n := |t| - 1;
      assert (s + t)[..|s| + n] == s + t[..n];
      PolyAppend(c, s, t[..n]);
    }
  }

  // ----- linearity -----

  /** The step is linear: with the symbol in one register only, it is a sum of registers. */
  lemma StepLinear(a: Register, b: Register, v: Symbol)
    ensures Step(Xor(a, b), v) == Xor(Step(a, 0), Step(b, v))
  {
    hide Reduced, Bit, Step;
    forall i | 0 <= i < 30
      ensures Step(Xor(a, b), v)[i] == Xor(Step(a, 0), Step(b, v))[i]
    {
      ZeroSymbol(i);
      StepAt(Xor(a, b), v, i);
      StepAt(a, 0, i);
      StepAt(b, v, i);
      ReducedLinear(a, b, i);
    }
  }

  lemma StepAt(c: Register, v: Symbol, i: nat)
    requires i < 30
    ensures Step(c, v)[i] == ((if i < 5 then Bit(v, i) else c[i - 5]) != Reduced(c, i))
  {
    hide Bit, Reduced;
  }

  lemma ZeroSymbol(i: nat)
    ensures !Bit(0, i)
  {
    PowPositive(2, i);
    DivUnique(0, Pow2(i), 0, 0);
  }

  lemma ReducedLinear(a: Register, b: Register, i: nat)
    requires i < 30
    ensures Reduced(Xor(a, b), i) == (Reduced(a, i) != Reduced(b, i))
  {
    hide Generator;
  }

  function ZeroSymbols(n: nat): seq<Symbol> {
    seq(n, i => 0)
  }

  /** What the register holds and what is shifted in can be followed apart. */
  lemma {:induction false} PolyLinear(c: Register, s: seq<Symbol>)
    ensures Poly(c, s) == Xor(Poly(c, ZeroSymbols(|s|)), Poly(Zero(), s))
  {
    hide Step;
    if s == [] {
      assert Xor(c, Zero()) == c;
    } else {
      var n := |s| - 1;
      PolyLinear(c, s[..n]);
      assert ZeroSymbols(|s|)[..n] == ZeroSymbols(n);
      StepLinear(Poly(c, ZeroSymbols(n)), Poly(Zero(), s[..n]), s[n]);
    }
  }

  lemma XorCancels(a: Register, b: Register)
    ensures Xor(a, Xor(a, b)) == b
  {
  }

  // ----- six symbols and the register -----

  /** Up to six symbols fill the register without any leaving it. */
  function Pack(d: seq<Symbol>): Register {
    if d == [] then Zero() else Pushed(Pack(d[..|d| - 1]), d[|d| - 1])
  }

  /** The symbols of a register, the highest first. */
  function Unpack(c: Register): seq<Symbol> {
    seq(6, j requires 0 <= j < 6 => SymbolAt(c, 5 * (5 - j)))
  }

  function SymbolAt(c: Register, i: nat): Symbol
    requires i + 5 <= 30
  {
    (if c[i] then 1 else 0) + (if c[i + 1] then 2 else 0) + (if c[i + 2] then 4 else 0)
      + (if c[i + 3] then 8 else 0) + if c[i + 4] then 16 else 0
  }

  lemma SymbolBits(c: Register, i: nat)
    requires i + 5 <= 30
    ensures forall k :: 0 <= k < 5 ==> Bit(SymbolAt(c, i), k) == c[i + k]
  {
    var v := SymbolAt(c, i);
    BitsOfSymbol(c[i], c[i + 1], c[i + 2], c[i + 3], c[i + 4]);
    hide Bit, SymbolAt;
    forall k | 0 <= k < 5
      ensures Bit(v, k) == c[i + k]
    {
      assert k == 0 || k == 1 || k == 2 || k == 3 || k == 4;
    }
  }

  lemma BitsOfSymbol(b0: bool, b1: bool, b2: bool, b3: bool, b4: bool)
    ensures var v := (if b0 then 1 else 0) + (if b1 then 2 else 0) + (if b2 then 4 else 0) + (if b3 then 8 else 0) + if b4 then 16 else 0;
            Bit(v, 0) == b0 && Bit(v, 1) == b1 && Bit(v, 2) == b2 && Bit(v, 3) == b3 && Bit(v, 4) == b4
  {
    assert Pow2(0) == 1 && Pow2(1) == 2 && Pow2(2) == 4 && Pow2(3) == 8 && Pow2(4) == 16;
  }

  /** Five bits determine a symbol. */
  lemma BitsDetermine(v: Symbol, w: Symbol)
    requires forall k :: 0 <= k < 5 ==> Bit(v, k) == Bit(w, k)
    ensures v == w
  {
    SymbolFromBits(v);
    SymbolFromBits(w);
    hide Bit;
  }

  lemma SymbolFromBits(v: Symbol)
    ensures v == (if Bit(v, 0) then 1 else 0) + (if Bit(v, 1) then 2 else 0) + (if Bit(v, 2) then 4 else 0)
                 + (if Bit(v, 3) then 8 else 0) + if Bit(v, 4) then 16 else 0
  {
    assert Pow2(0) == 1 && Pow2(1) == 2 && Pow2(2) == 4 && Pow2(3) == 8 && Pow2(4) == 16;
  }

  lemma {:induction false} PackAt(d: seq<Symbol>, i: nat)
    requires |d| <= 6 && i < 30
    ensures Pack(d)[i] == (i < 5 * |d| && Bit(d[|d| - 1 - i / 5], i % 5))
  {
    hide Bit;
    if d != [] && i >= 5 {
      PackAt(d[..|d| - 1], i - 5);
      assert (i - 5) / 5 == i / 5 - 1 && (i - 5) % 5 == i % 5;
    }
  }

  lemma PackUnpack(c: Register)
    ensures Pack(Unpack(c)) == c
  {
    hide Pack, Bit, SymbolAt;
    var d := Unpack(c);
    forall i | 0 <= i < 30
      ensures Pack(d)[i] == c[i]
    {
      PackAt(d, i);
      SymbolBits(c, 5 * (i / 5));
      assert 5 * (i / 5) + i % 5 == i;
      assert d[5 - i / 5] == SymbolAt(c, 5 * (i / 5));
    }
  }

  lemma UnpackPack(d: seq<Symbol>)
    requires |d| == 6
    ensures Unpack(Pack(d)) == d
  {
    hide Pack, Bit, SymbolAt;
    forall j | 0 <= j < 6
      ensures Unpack(Pack(d))[j] == d[j]
    {
      var at := 5 * (5 - j);
      SymbolBits(Pack(d), at);
      forall k | 0 <= k < 5
        ensures Bit(SymbolAt(Pack(d), at), k) == Bit(d[j], k)
      {
        PackAt(d, at + k);
        assert (at + k) / 5 == 5 - j && (at + k) % 5 == k;
      }
      BitsDetermine(SymbolAt(Pack(d), at), d[j]);
    }
  }

  lemma {:induction false} PolyOfZero(d: seq<Symbol>)
    requires |d| <= 6
    ensures Poly(Zero(), d) == Pack(d)
  {
    hide Bit, Generator, Pushed;
    if d != [] {
      var u := d[..|d| - 1];
      PolyOfZero(u);
      forall i | 25 <= i < 30
        ensures !Pack(u)[i]
      {
        PackAt(u, i);
      }
      hide Pack;
      NothingLeaves(Pack(u), d[|d| - 1]);
    }
  }

  lemma NothingLeaves(c: Register, v: Symbol)
    requires forall i :: 25 <= i < 30 ==> !c[i]
    ensures Step(c, v) == Pushed(c, v)
  {
    hide Bit, Generator, Pushed;
    assert forall i :: 0 <= i < 30 ==> !Reduced(c, i);
  }

  // ----- the checksum -----

  /** The six symbols that make the register come out as the constant. */
  function Checksum(e: Encoding, s: seq<Symbol>): seq<Symbol> {
    Unpack(Xor(PolyMod(s + ZeroSymbols(6)), Constant(e)))
  }

  lemma AfterSix(s: seq<Symbol>, d: seq<Symbol>)
    requires |d| == 6
    ensures PolyMod(s + d) == Xor(PolyMod(s + ZeroSymbols(6)), Pack(d))
  {
    hide Step, Pack, Poly;
    var c := PolyMod(s);
    PolyAppend(Bits(1), s, d);
    PolyAppend(Bits(1), s, ZeroSymbols(6));
    PolyLinear(c, d);
    PolyOfZero(d);
  }

  /** The checksum is right, and it is the only one that is. */
  lemma ChecksumIsRight(e: Encoding, s: seq<Symbol>, d: seq<Symbol>)
    requires |d| == 6
    ensures PolyMod(s + d) == Constant(e) <==> d == Checksum(e, s)
  {
    hide PolyMod, Pack, Unpack, Constant;
    var m := PolyMod(s + ZeroSymbols(6));
    AfterSix(s, d);
    XorCancels(m, Pack(d));
    XorCancels(m, Constant(e));
    UnpackPack(d);
    PackUnpack(Xor(m, Constant(e)));
  }

  // ----- errors -----

  /** The low bits of the generators are independent: what was reduced can be told from the result. */
  lemma LowBits()
    ensures forall i :: 0 <= i < 5 ==> Generator(0)[i] == (i == 1 || i == 4)
    ensures forall i :: 0 <= i < 5 ==> Generator(1)[i] == (i == 0 || i == 2 || i == 3)
    ensures forall i :: 0 <= i < 5 ==> Generator(2)[i] == (i == 1 || i == 3 || i == 4)
    ensures forall i :: 0 <= i < 5 ==> Generator(3)[i] == (i == 0 || i == 2 || i == 3 || i == 4)
    ensures forall i :: 0 <= i < 5 ==> Generator(4)[i] == (i == 0 || i == 1 || i == 4)
  {
    assert Pow2(0) == 1 && Pow2(1) == 2 && Pow2(2) == 4 && Pow2(3) == 8 && Pow2(4) == 16;
    forall i | 0 <= i < 5
      ensures Generator(0)[i] == (i == 1 || i == 4)
      ensures Generator(1)[i] == (i == 0 || i == 2 || i == 3)
      ensures Generator(2)[i] == (i == 1 || i == 3 || i == 4)
      ensures Generator(3)[i] == (i == 0 || i == 2 || i == 3 || i == 4)
      ensures Generator(4)[i] == (i == 0 || i == 1 || i == 4)
    {
      assert i == 0 || i == 1 || i == 2 || i == 3 || i == 4;
    }
  }

  /** Different registers stay different. */
  lemma StepIsInjective(a: Register, b: Register, v: Symbol)
    requires Step(a, v) == Step(b, v)
    ensures a == b
  {
    hide Bit, Reduced, Step;
    forall i | 0 <= i < 5
      ensures Reduced(a, i) == Reduced(b, i)
    {
      StepAt(a, v, i);
      StepAt(b, v, i);
    }
    SameTop(a, b);
    forall i | 0 <= i < 25
      ensures a[i] == b[i]
    {
      StepAt(a, v, i + 5);
      StepAt(b, v, i + 5);
      SameReduction(a, b, i + 5);
    }
  }

  lemma SameReduction(a: Register, b: Register, i: nat)
    requires i < 30 && forall i :: 25 <= i < 30 ==> a[i] == b[i]
    ensures Reduced(a, i) == Reduced(b, i)
  {
    hide Generator;
  }

  lemma SameTop(a: Register, b: Register)
    requires forall i :: 0 <= i < 5 ==> Reduced(a, i) == Reduced(b, i)
    ensures forall i :: 25 <= i < 30 ==> a[i] == b[i]
  {
    LowBits();
    hide Generator;
    assert Reduced(a, 0) == Reduced(b, 0) && Reduced(a, 1) == Reduced(b, 1) && Reduced(a, 2) == Reduced(b, 2)
      && Reduced(a, 3) == Reduced(b, 3) && Reduced(a, 4) == Reduced(b, 4);
  }

  lemma {:induction false} PolyIsInjective(a: Register, b: Register, s: seq<Symbol>)
    requires Poly(a, s) == Poly(b, s)
    ensures a == b
  {
    hide Step;
    if s != [] {
      StepIsInjective(Poly(a, s[..|s| - 1]), Poly(b, s[..|s| - 1]), s[|s| - 1]);
      PolyIsInjective(a, b, s[..|s| - 1]);
    }
  }

  /** Up to six symbols can be told from what they are packed to. */
  lemma PackIsInjective(d: seq<Symbol>, e: seq<Symbol>)
    requires |d| == |e| <= 6 && Pack(d) == Pack(e)
    ensures d == e
  {
    hide Pack, Bit;
    forall j | 0 <= j < |d|
      ensures d[j] == e[j]
    {
      var at := 5 * (|d| - 1 - j);
      forall k | 0 <= k < 5
        ensures Bit(d[j], k) == Bit(e[j], k)
      {
        PackAt(d, at + k);
        PackAt(e, at + k);
        assert (at + k) / 5 == |d| - 1 - j && (at + k) % 5 == k;
      }
      BitsDetermine(d[j], e[j]);
    }
  }

  /** Changing up to six consecutive symbols always changes the outcome. */
  lemma BurstShows(a: seq<Symbol>, d: seq<Symbol>, e: seq<Symbol>, t: seq<Symbol>)
    requires |d| == |e| <= 6 && d != e
    ensures PolyMod(a + d + t) != PolyMod(a + e + t)
  {
    hide Step, Poly, Pack;
    var c := PolyMod(a);
    PolyAppend(Bits(1), a + d, t);
    PolyAppend(Bits(1), a + e, t);
    PolyAppend(Bits(1), a, d);
    PolyAppend(Bits(1), a, e);
    PolyLinear(c, d);
    PolyLinear(c, e);
    PolyOfZero(d);
    PolyOfZero(e);
    var m := Poly(c, ZeroSymbols(|d|));
    XorCancels(m, Pack(d));
    XorCancels(m, Pack(e));
    if PolyMod(a + d + t) == PolyMod(a + e + t) {
      PolyIsInjective(Poly(c, d), Poly(c, e), t);
      PackIsInjective(d, e);
    }
  }
}
