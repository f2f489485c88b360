/** Bitwise operations on numbers, and numbers as lists of 32-bit limbs, the lowest first. */
module Limbs {
  import opened Powers

  // ----- bitwise operations -----

  /** Bitwise conjunction. */
  function BitAnd(a: nat, b: nat): nat {
    if a == 0 || b == 0 then 0 else (if a % 2 == 1 && b % 2 == 1 then 1 else 0) + 2 * BitAnd(a / 2, b / 2)
  }

  /** Bitwise disjunction. */
  function BitOr(a: nat, b: nat): nat
    decreases a + b
  {
    if a == 0 && b == 0 then 0 else (if a % 2 == 1 || b % 2 == 1 then 1 else 0) + 2 * BitOr(a / 2, b / 2)
  }

  lemma {:induction false} BitAndSelf(n: nat)
    ensures BitAnd(n, n) == n
  {
    if n > 0 {
      BitAndSelf(n / 2);
    }
  }

  lemma {:induction false} BitOrCommutes(a: nat, b: nat)
    ensures BitOr(a, b) == BitOr(b, a)
    decreases a + b
  {
    if a != 0 || b != 0 {
      BitOrCommutes(a / 2, b / 2);
    }
  }

  lemma {:induction false} BitOrZero(a: nat)
    ensures BitOr(a, 0) == a
  {
    if a != 0 {
      BitOrZero(a / 2);
    }
  }

  /** Where the bits do not meet, disjunction is addition. */
  lemma {:induction false} BitOrIsSum(low: nat, high: nat, s: nat)
    requires low < Pow2(s)
    ensures BitOr(low, high * Pow2(s)) == low + high * Pow2(s)
    decreases s
  {
    if s == 0 {
      BitOrCommutes(0, high);
      BitOrZero(high);
    } else {
      var h := high * Pow2(s - 1);
      Doubled(high, s);
      BitOrIsSum(low / 2, high, s - 1);
      BitOrStep(low, h);
    }
  }

  lemma BitOrStep(low: nat, h: nat)
    requires BitOr(low / 2, h) == low / 2 + h
    ensures BitOr(low, 2 * h) == low + 2 * h
  {
    BitOrUnfold(low, 2 * h);
    hide BitOr;
    var t := 2 * h;
    assert t % 2 == 0 && t / 2 == h;
  }

  lemma BitOrUnfold(a: nat, b: nat)
    ensures BitOr(a, b) == (if a % 2 == 1 || b % 2 == 1 then 1 else 0) + 2 * BitOr(a / 2, b / 2)
  {
  }

  lemma Doubled(high: nat, s: nat)
    requires s > 0
    ensures high * Pow2(s) == 2 * (high * Pow2(s - 1))
  {
  }

  // ----- limbs -----

  const BASE := 0x1_0000_0000

  type Limb = x: int | 0 <= x < BASE

  function Val(s: seq<Limb>): nat {
    if s == [] then 0 else s[0] + BASE * Val(s[1..])
  }

  /** The number of values that `n` limbs can hold. */
  function Modulus(n: nat): (m: nat)
    ensures m > 0
  {
    PowPositive(BASE, n);
    Pow(BASE, n)
  }

  lemma ModulusStep(n: nat)
    ensures Modulus(n + 1) == BASE * Modulus(n) && Modulus(n) > 0 && Modulus(0) == 1
  {
    PowPositive(BASE, n);
  }

  lemma {:induction false} ModulusIsPow2(n: nat)
    ensures Modulus(n) == Pow2(32 * n)
  {
    if n > 0 {
      ModulusIsPow2(n - 1);
      PowAdd(2, 32, 32 * (n - 1));
      LimbBits();
    }
  }

  lemma LimbBits()
    ensures Pow2(32) == BASE
  {
    Pow2Of32();
  }

  lemma {:induction false} ValRange(s: seq<Limb>)
    ensures Val(s) < Modulus(|s|)
  {
    ModulusStep(0);
    if s != [] {
      ValRange(s[1..]);
      ModulusStep(|s| - 1);
    }
  }

  lemma {:induction false} ValAppend(s: seq<Limb>, t: seq<Limb>)
    ensures Val(s + t) == Val(s) + Modulus(|s|) * Val(t)
  {
    if s == [] {
      assert s + t == t;
      ModulusStep(0);
    } else {
      assert (s + t)[1..] == s[1..] + t;
      ValAppend(s[1..], t);
      ModulusStep(|s| - 1);
      Factor(Modulus(|s| - 1), Val(t));
    }
  }

  lemma Factor(m: nat, v: nat)
    ensures BASE * (m * v) == BASE * m * v
  {
  }

  /** One more limb at the top. */
  lemma ValPush(s: seq<Limb>, i: nat)
    requires i < |s|
    ensures Val(s[..i + 1]) == Val(s[..i]) + Modulus(i) * s[i]
  {
    assert s[..i + 1] == s[..i] + [s[i]];
    ValAppend(s[..i], [s[i]]);
    assert Val([s[i]]) == s[i];
  }
}
