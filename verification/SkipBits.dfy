/**
 Numbers by their lowest bits: what clearing the lowest one or two does, as skip
 heights (src/chain.cpp) are made by it.
 */
module SkipBits {
  import opened Powers
  import opened Chain

  function Ones(n: nat): nat {
    if n == 0 then 0 else n % 2 + Ones(n / 2)
  }

  predicate Odd(n: nat) {
    n % 2 == 1
  }

  predicate Even(n: nat) {
    n % 2 == 0
  }

  /** The lowest bit set in `b` is bit `p`. */
  predicate Lone(b: nat, p: nat) {
    if p == 0 then Odd(b) else Even(b) && Lone(b / 2, p - 1)
  }

  /** No bit of `g` below bit `p` is set. */
  predicate Whole(g: nat, p: nat) {
    p == 0 || (Even(g) && Whole(g / 2, p - 1))
  }

  /** Clearing the lowest bit of a number, by parity. */
  lemma InvertParity(n: nat)
    requires n > 0
    ensures InvertLowestOne(n) < n
    ensures n % 2 == 1 ==> InvertLowestOne(n) == n - 1
    ensures n % 2 == 0 ==> InvertLowestOne(n) == 2 * InvertLowestOne(n / 2)
  {
    hide InvertLowestOne;
    InvertTakesLowestOne(n);
    if n % 2 == 0 {
      InvertTakesLowestOne(n / 2);
    }
  }

  lemma InvertOfZero()
    ensures InvertLowestOne(0) == 0 && Ones(0) == 0
  {
  }

  lemma {:induction false} InvertTakesAOne(n: nat)
    requires n > 0
    ensures InvertLowestOne(n) < n && Ones(InvertLowestOne(n)) + 1 == Ones(n)
  {
    hide InvertLowestOne, Ones;
    if Even(n) {
      Halved(n);
      InvertTakesAOne(n / 2);
      OnesDoubled(n / 2);
      OnesDoubled(InvertLowestOne(n / 2));
    } else {
      OddInverts(n);
      OddPred(n);
    }
  }

  lemma OnesDoubled(a: nat)
    ensures Ones(2 * a) == Ones(a)
  {
  }

  lemma {:induction false} NoOnes(n: nat)
    requires Ones(n) == 0
    ensures n == 0
  {
    if n > 0 {
      NoOnes(n / 2);
    }
  }

  lemma PositiveOnes(n: nat)
    requires n > 0
    ensures Ones(n) > 0
  {
    if Ones(n) == 0 {
      NoOnes(n);
    }
  }

  lemma {:induction false} OnesBelow(n: nat, p: nat)
    requires n < Pow2(p)
    ensures Ones(n) <= p
  {
    if n > 0 {
      OnesBelow(n / 2, p - 1);
    }
  }

  lemma {:induction false} AllOnes(q: nat)
    ensures Pow2(q) > 0 && Ones(Pow2(q) - 1) == q
    ensures q > 0 ==> Odd(Pow2(q) - 1)
  {
    if q > 0 {
      AllOnes(q - 1);
      assert (Pow2(q) - 1) / 2 == Pow2(q - 1) - 1 && (Pow2(q) - 1) % 2 == 1;
    }
  }

  lemma {:induction false} LoneIsWhole(b: nat, p: nat)
    requires Lone(b, p)
    ensures Whole(b, p) && b >= Pow2(p)
  {
    if p > 0 {
      LoneIsWhole(b / 2, p - 1);
    }
  }

  lemma LoneMod(b: nat, p: nat)
    requires Lone(b, p)
    ensures if p == 0 then Odd(b) else Even(b) && Lone(b / 2, p - 1)
  {
  }

  /** Above a low part that is not zero, nothing is touched. */
  lemma {:induction false} InvertBelow(b: nat, p: nat, low: nat)
    requires Lone(b, p) && 0 < low < Pow2(p)
    ensures InvertLowestOne(b + low) == b + InvertLowestOne(low)
  {
    hide InvertLowestOne;
    InvertParity(b + low);
    InvertParity(low);
    if low % 2 == 0 {
      InvertBelow(b / 2, p - 1, low / 2);
      assert (b + low) / 2 == b / 2 + low / 2;
    }
  }

  /** With nothing below it, a bit is what is cleared. */
  lemma {:induction false} InvertLone(b: nat, p: nat)
    requires Lone(b, p)
    ensures b >= Pow2(p) && InvertLowestOne(b) == b - Pow2(p)
  {
    hide InvertLowestOne;
    LoneIsWhole(b, p);
    Pow2Positive(p);
    InvertParity(b);
    if p > 0 {
      InvertLone(b / 2, p - 1);
    }
  }

  /** The lowest bit set is worth 2. */
  predicate Twos(n: nat) {
    Even(n) && Odd(n / 2)
  }

  /** The lowest bit set is worth 4. */
  predicate Fours(n: nat) {
    Even(n) && Twos(n / 2)
  }

  predicate Fourfold(n: nat) {
    Even(n) && Even(n / 2)
  }

  predicate Eights(n: nat) {
    Even(n) && Fourfold(n / 2)
  }

  lemma OddPred(n: nat)
    requires Odd(n)
    ensures n > 0 && Even(n - 1) && Ones(n - 1) + 1 == Ones(n)
  {
  }

  /** Two bits cleared, in an even number. */
  lemma TwoFewer(e: nat)
    requires e > 0 && Even(e)
    ensures var once := InvertLowestOne(e);
            && once < e && Even(once) && Ones(once) + 1 == Ones(e)
            && (once == 0 <==> Ones(e) == 1)
  {
    hide InvertLowestOne;
    InvertParity(e);
    InvertTakesAOne(e);
    var once := InvertLowestOne(e);
    if once > 0 {
      PositiveOnes(once);
    } else {
      InvertOfZero();
    }
  }

  lemma EvenSucc(e: nat)
    requires Even(e)
    ensures Odd(e + 1) && Ones(e + 1) == Ones(e) + 1
  {
  }

  lemma Halved(n: nat)
    requires Even(n) && n > 0
    ensures n == 2 * (n / 2) && n / 2 > 0 && InvertLowestOne(n) == 2 * InvertLowestOne(n / 2)
  {
    InvertParity(n);
  }

  lemma OddInverts(n: nat)
    requires Odd(n)
    ensures InvertLowestOne(n) == n - 1
  {
    InvertParity(n);
  }

  lemma Doubled(a: nat)
    ensures 2 * a / 2 == a && Even(2 * a)
  {
  }

  lemma TwosIs(n: nat)
    requires Twos(n)
    ensures n >= 2 && Even(n) && Even(n - 2) && InvertLowestOne(n) == n - 2 && Ones(n) == Ones(n - 2) + 1
    ensures n > 2 ==> InvertLowestOne(n - 2) <= n - 6
  {
    hide InvertLowestOne, Ones;
    Halved(n);
    OddPred(n / 2);
    OddInverts(n / 2);
    InvertTakesAOne(n);
    Doubled(n / 2 - 1);
    if n > 2 {
      FourfoldInverts(n - 2);
    }
  }

  lemma FourfoldInverts(n: nat)
    requires Fourfold(n) && n > 0
    ensures n >= 4 && InvertLowestOne(n) <= n - 4
  {
    hide InvertLowestOne;
    Halved(n);
    Halved(n / 2);
    InvertParity(n / 2 / 2);
  }

  lemma FoursIs(n: nat)
    requires Fours(n)
    ensures n >= 4 && Even(n) && Eights(n - 4) && InvertLowestOne(n) == n - 4 && Ones(n) == Ones(n - 4) + 1
    ensures InvertLowestOne(n - 2) == n - 4
  {
    hide InvertLowestOne, Ones;
    TwosIs(n / 2);
    Halved(n);
    InvertTakesAOne(n);
    var h := n / 2;
    Doubled(h - 2);
    Halved(h);
    OddPred(h / 2);
    Doubled(h / 2 - 1);
    Doubled(h - 1);
    EvenPred(h);
    Halved(n - 2);
    OddInverts(h - 1);
  }

  lemma EvenPred(n: nat)
    requires Even(n) && n > 0
    ensures Odd(n - 1)
  {
  }

  lemma EightsIs(n: nat)
    requires Eights(n) && n > 0
    ensures n >= 8 && Even(n)
    ensures InvertLowestOne(n) <= n - 8 && Eights(InvertLowestOne(n)) && Even(InvertLowestOne(n))
  {
    hide InvertLowestOne, Odd;
    var h := n / 2;
    Halved(n);
    Halved(h);
    Halved(h / 2);
    var q := InvertLowestOne(h / 2 / 2);
    InvertParity(h / 2 / 2);
    Doubled(q);
    Doubled(2 * q);
    Doubled(4 * q);
  }

  lemma BeforeEights(n: nat)
    requires Eights(n) && n > 0
    ensures InvertLowestOne(InvertLowestOne(n - 2)) == n - 8
  {
    hide InvertLowestOne;
    var h := n / 2;
    Halved(n);
    Halved(h);
    Doubled(h - 1);
    EvenPred(h);
    TwosIs(n - 2);
    Doubled(h - 2);
    Doubled(h / 2 - 1);
    EvenPred(h / 2);
    FoursIs(n - 4);
  }
}
