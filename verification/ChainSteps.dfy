/**
 How many blocks `GetAncestor` (src/chain.cpp) visits, when every block has its skip
 pointer. The answer is exact: for heights below a power of two the longest walk is
 known, and grows with the square of the number of bits.
 */
module ChainSteps {
  import opened Basics
  import opened Powers
  import opened Chain
  import opened SkipBits

  // ----- the gap between a height and its target -----

  /** `p` is the highest bit in which the two differ, and `b` is where the height got it: above the
      target, at or below the height, and within `2^p` of both. */
  ghost predicate Gap(w: nat, t: nat, b: nat, p: nat) {
    Lone(b, p) && b - Pow2(p) <= t < b <= w < b + Pow2(p)
  }

  lemma {:induction false} FindGap(w: nat, t: nat) returns (b: nat, p: nat)
    requires w > t
    ensures Gap(w, t, b, p)
  {
    if w / 2 == t / 2 {
      b, p := w, 0;
    } else {
      b, p := FindGap(w / 2, t / 2);
      DoubleGap(w, t, b, p);
      b, p := 2 * b, p + 1;
    }
  }

  lemma DoubleGap(w: nat, t: nat, b: nat, p: nat)
    requires Gap(w / 2, t / 2, b, p)
    ensures Gap(w, t, 2 * b, p + 1)
  {
    Doubled(b);
    Pow2Unfold(p);
    hide Pow2, Odd, Even;
  }

  lemma {:induction false} Midway(g: nat, p: nat)
    requires Whole(g, p) && p > 0 && g >= Pow2(p)
    ensures Whole(g, p - 1) && Lone(g - Pow2(p - 1), p - 1)
  {
    if p > 1 {
      Midway(g / 2, p - 1);
    }
  }

  /** From the last height of an aligned block: the gap has only ones below it. */
  lemma {:induction false} FindLast(g: nat, p: nat, t: nat) returns (b: nat, q: nat)
    requires Whole(g, p) && g - Pow2(p) <= t < g - 1
    requires g >= Pow2(p)
    ensures q < p && Gap(g - 1, t, b, q) && g - 1 - b == Pow2(q) - 1
    decreases p
  {
    if p == 0 {
      assert false;
    } else {
      Midway(g, p);
      if t < g - Pow2(p - 1) {
        b, q := g - Pow2(p - 1), p - 1;
      } else {
        b, q := FindLast(g, p - 1, t);
      }
    }
  }

  /** The two ways down from a gap: within it one bit at a time, then to the target or below. */
  lemma GapInverts(w: nat, t: nat, b: nat, p: nat)
    requires Gap(w, t, b, p)
    ensures t < b <= w
    ensures w > b ==> InvertLowestOne(w) == b + InvertLowestOne(w - b) && InvertLowestOne(w - b) < w - b
    ensures b >= Pow2(p) && InvertLowestOne(b) == b - Pow2(p) <= t
    ensures InvertLowestOne(b - Pow2(p)) <= b - Pow2(p)
  {
    hide InvertLowestOne, Pow2, Lone;
    if w > b {
      InvertBelow(b, p, w - b);
      InvertParity(w - b);
    }
    InvertLone(b, p);
    if b > Pow2(p) {
      InvertParity(b - Pow2(p));
    } else {
      InvertOfZero();
    }
  }

  /** The lowest bits of a height are those of what it has below the gap. */
  lemma GapParity(w: nat, t: nat, b: nat, p: nat)
    requires Gap(w, t, b, p)
    ensures p >= 1 && Odd(w - b) ==> Odd(w)
    ensures p >= 1 && Even(w - b) ==> Even(w)
    ensures p >= 2 && Twos(w - b) ==> Twos(w)
    ensures p >= 3 && Fours(w - b) ==> Fours(w)
    ensures p >= 3 && Eights(w - b) ==> Eights(w)
  {
    hide InvertLowestOne, Odd, Even;
    var n := w - b;
    if p >= 1 {
      LoneMod(b, p);
      SumHalf(n, b);
      if p >= 2 {
        LoneMod(b / 2, p - 1);
        SumHalf(n / 2, b / 2);
        if p >= 3 {
          LoneMod(b / 2 / 2, p - 2);
          SumHalf(n / 2 / 2, b / 2 / 2);
        }
      }
    }
  }

  lemma SumHalf(n: nat, b: nat)
    requires Even(b)
    ensures (n + b) / 2 == n / 2 + b / 2 && (Even(n + b) <==> Even(n)) && (Odd(n + b) <==> Odd(n))
  {
  }

  /** A height between a height and the gap is in the same gap. */
  lemma GapKeeps(w: nat, t: nat, b: nat, p: nat, n: nat)
    requires Gap(w, t, b, p) && b <= n <= w
    ensures Gap(n, t, b, p) && n > t
  {
  }

  // ----- what one step does -----

  /** An odd height follows its skip pointer whenever that does not overshoot. */
  lemma OddSkips(w: nat, t: nat)
    requires w > t && Odd(w) && w >= 3
    ensures SkipHeight(w) == InvertLowestOne(InvertLowestOne(w - 1)) + 1
    ensures NextHeight(w, t) == if SkipHeight(w) >= t then SkipHeight(w) else w - 1
  {
    hide InvertLowestOne;
    InvertParity(w - 1);
    if InvertLowestOne(w - 1) > 0 {
      InvertParity(InvertLowestOne(w - 1));
    } else {
      InvertOfZero();
    }
  }

  lemma OneStep(w: nat, t: nat)
    requires w > t
    ensures Steps(w, t) == 1 + Steps(NextHeight(w, t), t)
    ensures Steps(t, t) == 0 && Steps(t + 1, t) == 1
  {
  }

  /** An even height either follows its skip pointer or leaves it to the height before, which then
      follows its own. */
  lemma EvenNext(w: nat, t: nat)
    requires w > t && Even(w) && InvertLowestOne(w) > t
    ensures w > 2 && SkipHeight(w - 1) == InvertLowestOne(InvertLowestOne(w - 2)) + 1
    ensures var skip, prev := InvertLowestOne(w), SkipHeight(w - 1);
            if prev < skip - 2 && prev >= t then prev < w && Steps(w, t) == 2 + Steps(prev, t)
            else skip < w && Steps(w, t) == 1 + Steps(skip, t)
  {
    hide InvertLowestOne;
    InvertParity(w);
    InvertParity(w / 2);
    assert w > 2;
    SkipIsEarlier(w - 1);
    var skip, prev := InvertLowestOne(w), SkipHeight(w - 1);
    if prev < skip - 2 && prev >= t {
      OddSkips(w - 1, t);
      assert NextHeight(w, t) == w - 1;
    } else {
      assert NextHeight(w, t) == skip;
    }
  }

  lemma FlatNext(w: nat, t: nat, p: nat)
    requires Gap(w, t, w, p) && p > 0
    ensures NextHeight(w, t) == if t == w - Pow2(p) then t else w - 1
  {
    hide InvertLowestOne;
    GapInverts(w, t, w, p);
    LoneMod(w, p);
  }

  lemma OddIsThree(w: nat, t: nat, b: nat, p: nat)
    requires Gap(w, t, b, p) && p > 0 && Odd(w)
    ensures w >= 3
  {
    LoneIsWhole(b, p);
    Pow2Exceeds(p);
    LoneMod(b, p);
  }

  /** With three ones or more below the gap, an odd height loses two of them. */
  lemma OddNext(w: nat, t: nat, b: nat, p: nat)
    requires Gap(w, t, b, p) && p > 0 && Odd(w - b) && Ones(w - b) >= 3
    ensures var n := NextHeight(w, t);
            b <= n && Gap(n, t, b, p) && Odd(n - b) && Ones(n - b) + 2 == Ones(w - b)
  {
    hide *;
    var low := w - b;
    GapInverts(w, t, b, p);
    GapParity(w, t, b, p);
    OddPred(low);
    InvertOfZero();
    OddIsThree(w, t, b, p);
    OddSkips(w, t);
    GapKeeps(w, t, b, p, w - 1);
    GapInverts(w - 1, t, b, p);
    TwoFewer(low - 1);
    var e := InvertLowestOne(low - 1);
    TwoFewer(e);
    var f := InvertLowestOne(e);
    EvenSucc(f);
    GapKeeps(w, t, b, p, b + e);
    GapInverts(b + e, t, b, p);
    GapKeeps(w, t, b, p, b + f + 1);
  }

  /** With fewer, it goes down by one, unless the target is that near. */
  lemma OddEnds(w: nat, t: nat, b: nat, p: nat)
    requires Gap(w, t, b, p) && p > 0 && Odd(w - b) && Ones(w - b) < 3
    ensures w > b && Even(w - 1 - b) && Ones(w - b) == Ones(w - 1 - b) + 1
    ensures NextHeight(w, t) == w - 1 || NextHeight(w, t) <= t + 1
    ensures Ones(w - b) == 2 && t <= b - Pow2(p) + 1 ==> NextHeight(w, t) == b - Pow2(p) + 1
    ensures t > b - Pow2(p) + 1 ==> NextHeight(w, t) == w - 1
  {
    hide *;
    var low := w - b;
    GapInverts(w, t, b, p);
    GapParity(w, t, b, p);
    OddPred(low);
    InvertOfZero();
    OddIsThree(w, t, b, p);
    OddSkips(w, t);
    if low > 1 {
      TwoFewer(low - 1);
      PositiveOnes(low - 1);
      GapKeeps(w, t, b, p, w - 1);
      GapInverts(w - 1, t, b, p);
    }
  }

  /** Clear in the three lowest bits: one bit at a time. */
  lemma EightsNext(w: nat, t: nat, b: nat, p: nat)
    requires Gap(w, t, b, p) && p >= 3 && w > b && Eights(w - b)
    ensures var n := b + InvertLowestOne(w - b);
            && Steps(w, t) == 1 + Steps(n, t) && Gap(n, t, b, p) && n < w
            && Eights(n - b) && Ones(n - b) + 1 == Ones(w - b)
  {
    hide *;
    GapInverts(w, t, b, p);
    GapParity(w, t, b, p);
    GapKeeps(w, t, b, p, b + InvertLowestOne(w - b));
    EightsIs(w);
    BeforeEights(w);
    EightsIs(w - b);
    EvenNext(w, t);
    InvertTakesAOne(w - b);
  }

  /** A walk that leaves its skip pointer to the height before, and then is nearly there. */
  lemma NearlyThere(w: nat, t: nat, prev: nat)
    requires w > t && t <= prev <= t + 1 && Steps(w, t) == 2 + Steps(prev, t)
    ensures Steps(w, t) <= 3
  {
    OneStep(t + 1, t);
  }

  /** The lowest bit is worth 4, and it is the only one left. */
  lemma FourEnds(w: nat, t: nat, b: nat, p: nat)
    requires Gap(w, t, b, p) && p >= 3 && Fours(w - b) && w - b == 4
    ensures Steps(w, t) <= 3 || Steps(w, t) == 1 + Steps(b, t)
    ensures t > b - Pow2(p) + 1 ==> Steps(w, t) == 1 + Steps(b, t)
  {
    hide *;
    GapInverts(w, t, b, p);
    GapParity(w, t, b, p);
    FoursIs(w);
    EvenNext(w, t);
    var prev := SkipHeight(w - 1);
    if t <= prev <= t + 1 && Steps(w, t) == 2 + Steps(prev, t) {
      NearlyThere(w, t, prev);
    }
  }

  /** The lowest bit is worth 4, and there are others: two bits in two steps. */
  lemma FoursNext(w: nat, t: nat, b: nat, p: nat)
    requires Gap(w, t, b, p) && p >= 3 && Fours(w - b) && w - b > 4
    ensures var n := b + InvertLowestOne(w - b - 4) + 1;
            && Steps(w, t) == 2 + Steps(n, t) && Gap(n, t, b, p) && n < w
            && Odd(n - b) && Ones(n - b) + 1 == Ones(w - b)
  {
    hide *;
    GapInverts(w, t, b, p);
    GapParity(w, t, b, p);
    FoursIs(w);
    FoursIs(w - b);
    EvenNext(w, t);
    var low := w - b - 4;
    EightsIs(low);
    InvertTakesAOne(low);
    var rest := InvertLowestOne(low);
    EvenSucc(rest);
    GapKeeps(w, t, b, p, b + low);
    GapInverts(b + low, t, b, p);
    GapKeeps(w, t, b, p, b + rest + 1);
  }

  /** The lowest bit is worth 2, and at most one other is left. */
  lemma TwoEnds(w: nat, t: nat, b: nat, p: nat)
    requires Gap(w, t, b, p) && p >= 2 && Twos(w - b) && Ones(w - b) <= 2
    ensures w - b >= 2 && Even(w - 2 - b) && Ones(w - 2 - b) + 1 == Ones(w - b)
    ensures Steps(w, t) <= 3 || Steps(w, t) == 1 + Steps(w - 2, t)
    ensures t > b - Pow2(p) + 1 ==> Steps(w, t) == 1 + Steps(w - 2, t)
  {
    hide *;
    GapInverts(w, t, b, p);
    GapParity(w, t, b, p);
    TwosIs(w);
    TwosIs(w - b);
    EvenNext(w, t);
    var low := w - b - 2;
    GapKeeps(w, t, b, p, b + low);
    GapInverts(b + low, t, b, p);
    if low > 0 {
      TwoFewer(low);
      PositiveOnes(low);
    }
    var prev := SkipHeight(w - 1);
    if t <= prev <= t + 1 && Steps(w, t) == 2 + Steps(prev, t) {
      NearlyThere(w, t, prev);
    }
  }

  /** The lowest bit is worth 2, and two others are left: three bits in two steps. */
  lemma TwosNext(w: nat, t: nat, b: nat, p: nat)
    requires Gap(w, t, b, p) && p >= 2 && Twos(w - b) && Ones(w - b) >= 3
    ensures w - b > 2
    ensures var n := b + InvertLowestOne(InvertLowestOne(w - b - 2)) + 1;
            && Steps(w, t) == 2 + Steps(n, t) && Gap(n, t, b, p) && n < w
            && Odd(n - b) && Ones(n - b) + 2 == Ones(w - b)
  {
    hide *;
    GapInverts(w, t, b, p);
    GapParity(w, t, b, p);
    TwosIs(w);
    TwosIs(w - b);
    InvertOfZero();
    EvenNext(w, t);
    var low := w - b - 2;
    TwoFewer(low);
    var once := InvertLowestOne(low);
    TwoFewer(once);
    var twice := InvertLowestOne(once);
    EvenSucc(twice);
    GapKeeps(w, t, b, p, b + low);
    GapInverts(b + low, t, b, p);
    GapKeeps(w, t, b, p, b + once);
    GapInverts(b + once, t, b, p);
    GapKeeps(w, t, b, p, b + twice + 1);
  }

  // ----- the longest walk -----

  /** The longest walk from the last height of a block of `2^p` to another one in the block. */
  function Tail(p: nat): nat {
    if p <= 2 then p else if p == 3 then 4 else Tail(p - 1) + 2 + (p - 1) / 2
  }

  /** The longest walk down to the last height below a gap of three bits or more, `low` being what
      the height has below the gap. */
  function Descent(low: nat): nat {
    if low == 0 then 1
    else if Odd(low) then 2 + Ones(low) / 2
    else if Eights(low) then 1 + Ones(low)
    else if Ones(low) == 1 then 2
    else if Twos(low) then 3 + Ones(low) / 2
    else 3 + (Ones(low) + 1) / 2
  }

  /** The longest walk when the gap is at bit `p`. */
  function Longest(low: nat, t: nat, p: nat): nat {
    if p <= 1 then 1 + low
    else if p == 2 && low == 3 then 4
    else if p == 2 then (if t % 4 == 1 then 3 else 2) + (if low == 0 then 0 else 1)
    else Tail(p) + Descent(low)
  }

  lemma LongestIs(low: nat, t: nat, p: nat)
    requires p >= 3
    ensures Longest(low, t, p) == Tail(p) + Descent(low)
  {
  }

  lemma {:induction false} TailGrows(p: nat, q: nat)
    requires q <= p
    ensures Tail(q) <= Tail(p)
    decreases p
  {
    if q < p {
      TailGrows(p - 1, q);
    }
  }

  lemma TailStep(p: nat)
    ensures Tail(3) == 4
    ensures p >= 3 ==> Tail(p + 1) == Tail(p) + 2 + p / 2
  {
  }

  /** No walk is longer. */
  lemma {:induction false} StepsBound(w: nat, t: nat, b: nat, p: nat)
    requires Gap(w, t, b, p)
    ensures Steps(w, t) <= Longest(w - b, t, p)
    decreases w, 2
  {
    hide Steps, Tail, Descent, Odd, Even;
    if p < 3 {
      SmallBound(w, t, b, p);
    } else if w == b {
      FlatBound(w, t, p);
    } else if Odd(w - b) {
      OddBound(w, t, b, p);
    } else {
      EvenBound(w, t, b, p);
    }
  }

  lemma {:induction false} WideBound(w: nat, t: nat, b: nat, p: nat)
    requires Gap(w, t, b, p) && p >= 3
    ensures t < b <= w && Steps(w, t) <= Tail(p) + Descent(w - b)
    decreases w, 3
  {
    LongestIs(w - b, t, p);
    hide Longest, Steps, Tail, Descent, Pow2, Lone;
    StepsBound(w, t, b, p);
  }

  lemma {:induction false} OddBound(w: nat, t: nat, b: nat, p: nat)
    requires Gap(w, t, b, p) && p >= 3 && Odd(w - b)
    ensures Steps(w, t) <= Tail(p) + Descent(w - b)
    decreases w, 0
  {
    hide *;
    GapInverts(w, t, b, p);
    OneStep(w, t);
    var n := NextHeight(w, t);
    if Ones(w - b) >= 3 {
      OddNext(w, t, b, p);
      WideBound(n, t, b, p);
      OddDescent(w - b, n - b);
    } else {
      OddEnds(w, t, b, p);
      LastOdd(w - b);
      if n == w - 1 && n > t {
        GapKeeps(w, t, b, p, n);
        WideBound(n, t, b, p);
        OneLeft(n - b);
      } else {
        OneStep(t + 1, t);
      }
    }
  }

  lemma OddDescent(low: nat, next: nat)
    requires Odd(low) && Odd(next) && Ones(next) + 2 == Ones(low)
    ensures Descent(low) == 1 + Descent(next)
  {
    hide Ones;
  }

  lemma LastOdd(low: nat)
    requires Odd(low) && Ones(low) < 3
    ensures Ones(low) > 0 && Descent(low) == 1 + Ones(low)
  {
    OddPred(low);
    hide Ones;
  }

  /** With one bit left, or none, an even height is two steps or one above the last below the gap. */
  lemma OneLeft(low: nat)
    ensures Even(low) && Ones(low) <= 1 ==> Descent(low) == 1 + Ones(low)
  {
    if low > 0 {
      PositiveOnes(low);
    }
  }

  lemma {:induction false} FlatBound(w: nat, t: nat, p: nat)
    requires Gap(w, t, w, p) && p >= 3
    ensures Steps(w, t) <= Tail(p) + Descent(0)
    decreases w, 0
  {
    hide *;
    GapInverts(w, t, w, p);
    FlatNext(w, t, p);
    OneStep(w, t);
    InvertOfZero();
    NoneOrOne(0);
    EightsDescent(0);
    if w - 1 > t && NextHeight(w, t) == w - 1 {
      GapIsWhole(w, t, p);
      var b, q := FindLast(w, p, t);
      StepsBound(w - 1, t, b, q);
      LastIsTail(q, p, t);
    }
  }

  /** The last height of a block that is no larger than `2^p`. */
  lemma LastIsTail(q: nat, p: nat, t: nat)
    requires q < p && p >= 3
    ensures Pow2(q) > 0 && Longest(Pow2(q) - 1, t, q) <= Tail(p)
  {
    TailGrows(p, q + 1);
    TailGrows(p, 3);
    TailStep(q);
    AllOnes(q);
    hide Tail;
    if q == 1 {
      assert Pow2(1) == 2;
    }
  }

  /** The last height of a block is worth its tail. */
  lemma {:induction false} EvenBound(w: nat, t: nat, b: nat, p: nat)
    requires Gap(w, t, b, p) && p >= 3 && w > b && !Odd(w - b)
    ensures Steps(w, t) <= Tail(p) + Descent(w - b)
    decreases w, 1
  {
    hide *;
    GapInverts(w, t, b, p);
    var low := w - b;
    EvenCases(low);
    TailGrows(p, 3);
    TailStep(3);
    if Eights(low) {
      EightsNext(w, t, b, p);
      var n := b + InvertLowestOne(low);
      WideBound(n, t, b, p);
      EightsDescent(n - b);
      EightsDescent(low);
    } else if Twos(low) {
      TwosBound(w, t, b, p);
    } else {
      FoursBound(w, t, b, p);
    }
  }

  lemma EvenCases(low: nat)
    requires !Odd(low)
    ensures Even(low) && (Eights(low) || Twos(low) || Fours(low))
    ensures !(Eights(low) && Twos(low)) && !(Eights(low) && Fours(low)) && !(Twos(low) && Fours(low))
  {
  }

  lemma EightsDescent(low: nat)
    requires Eights(low)
    ensures Descent(low) == 1 + Ones(low)
  {
  }

  lemma {:induction false} TwosBound(w: nat, t: nat, b: nat, p: nat)
    requires Gap(w, t, b, p) && p >= 3 && Twos(w - b) && Tail(p) >= 4
    ensures Steps(w, t) <= Tail(p) + Descent(w - b)
    decreases w, 0
  {
    hide *;
    GapInverts(w, t, b, p);
    var low := w - b;
    if Ones(low) <= 2 {
      TwoEnds(w, t, b, p);
      if Steps(w, t) > 3 {
        GapKeeps(w, t, b, p, w - 2);
        WideBound(w - 2, t, b, p);
        OneLeft(w - 2 - b);
      }
      FewTwos(low);
    } else {
      TwosNext(w, t, b, p);
      var n := b + InvertLowestOne(InvertLowestOne(low - 2)) + 1;
      WideBound(n, t, b, p);
      TwosDescent(low, n - b);
    }
  }

  lemma FewTwos(low: nat)
    requires Twos(low) && Ones(low) <= 2
    ensures Ones(low) >= 1 && Descent(low) == 2 * Ones(low)
  {
    PositiveOnes(low);
    EvenCases(low);
    hide Ones;
  }

  lemma TwosDescent(low: nat, next: nat)
    requires Twos(low) && Ones(low) >= 3 && Odd(next) && Ones(next) + 2 == Ones(low)
    ensures Descent(low) == 2 + Descent(next)
  {
    EvenCases(low);
    hide Ones, Even;
  }

  lemma FoursDescent(low: nat, next: nat)
    requires Fours(low) && Ones(low) >= 2 && Odd(next) && Ones(next) + 1 == Ones(low)
    ensures Descent(low) == 2 + Descent(next)
  {
    EvenCases(low);
    hide Ones, Even;
  }

  lemma {:induction false} FoursBound(w: nat, t: nat, b: nat, p: nat)
    requires Gap(w, t, b, p) && p >= 3 && Fours(w - b) && Tail(p) >= 4
    ensures Steps(w, t) <= Tail(p) + Descent(w - b)
    decreases w, 0
  {
    hide *;
    GapInverts(w, t, b, p);
    var low := w - b;
    FoursIs(low);
    InvertOfZero();
    if low == 4 {
      FourEnds(w, t, b, p);
      if Steps(w, t) > 3 {
        GapKeeps(w, t, b, p, b);
        WideBound(b, t, b, p);
      }
      OneLeft(4);
      EightsDescent(0);
    } else {
      FoursNext(w, t, b, p);
      PositiveOnes(low - 4);
      var n := b + InvertLowestOne(low - 4) + 1;
      WideBound(n, t, b, p);
      FoursDescent(low, n - b);
    }
  }

  lemma {:induction false} SmallBound(w: nat, t: nat, b: nat, p: nat)
    requires Gap(w, t, b, p) && p < 3
    ensures Steps(w, t) <= Longest(w - b, t, p)
    decreases w, 1
  {
    hide *;
    SmallBlock(w, t, b, p);
    ShortWalks(t);
    if p == 0 {
      OneStep(w, t);
    } else if w == b {
      SmallFlat(w, t, p);
    } else if w - b == 2 {
      SmallTwo(w, t, b);
    } else {
      SmallOdd(w, t, b, p);
    }
  }

  /** What there is around a gap of at most two bits. */
  lemma SmallBlock(w: nat, t: nat, b: nat, p: nat)
    requires Gap(w, t, b, p) && p < 3
    ensures Pow2(0) == 1 && Pow2(1) == 2 && Pow2(2) == 4
    ensures b - Pow2(p) <= t < b <= w < b + Pow2(p)
    ensures p == 2 ==> Longest(0, t, 2) == if t == b - 3 then 3 else 2
  {
    if p == 2 {
      LoneMod(b, 2);
      LoneMod(b / 2, 1);
      assert b == 4 * (b / 4);
    }
  }

  lemma ShortWalks(t: nat)
    ensures Longest(0, t, 0) == Longest(0, t, 1) == 1 && Longest(1, t, 1) == 2 && Longest(3, t, 2) == 4
    ensures Longest(1, t, 2) == Longest(2, t, 2) == Longest(0, t, 2) + 1
    ensures Odd(1) && Odd(3) && Twos(2) && Ones(1) == 1 && Ones(2) == 1 && Ones(3) == 2
  {
  }

  lemma {:induction false} SmallTwo(w: nat, t: nat, b: nat)
    requires Gap(w, t, b, 2) && w - b == 2
    ensures Steps(w, t) <= Longest(2, t, 2)
    decreases w, 0
  {
    hide *;
    SmallBlock(w, t, b, 2);
    ShortWalks(t);
    TwoEnds(w, t, b, 2);
    if Steps(w, t) > 3 {
      GapKeeps(w, t, b, 2, b);
      StepsBound(b, t, b, 2);
    }
  }

  lemma {:induction false} SmallFlat(w: nat, t: nat, p: nat)
    requires Gap(w, t, w, p) && 1 <= p <= 2
    ensures Steps(w, t) <= Longest(0, t, p)
    decreases w, 0
  {
    hide *;
    SmallBlock(w, t, w, p);
    ShortWalks(t);
    OneStep(w, t);
    FlatNext(w, t, p);
    if w - 1 > t && NextHeight(w, t) == w - 1 {
      GapIsWhole(w, t, p);
      var c, q := FindLast(w, p, t);
      SmallBlock(w - 1, t, c, q);
      StepsBound(w - 1, t, c, q);
      assert q == 0 || q == 1;
    }
  }

  lemma GapIsWhole(w: nat, t: nat, p: nat)
    requires Gap(w, t, w, p)
    ensures Whole(w, p) && w >= Pow2(p)
  {
    LoneIsWhole(w, p);
  }

  lemma {:induction false} SmallOdd(w: nat, t: nat, b: nat, p: nat)
    requires Gap(w, t, b, p) && 1 <= p <= 2 && (w - b == 1 || w - b == 3)
    ensures Steps(w, t) <= Longest(w - b, t, p)
    decreases w, 0
  {
    hide *;
    SmallBlock(w, t, b, p);
    ShortWalks(t);
    OneStep(w, t);
    OneStep(t + 1, t);
    OddEnds(w, t, b, p);
    if NextHeight(w, t) == w - 1 && w - 1 > t {
      GapKeeps(w, t, b, p, w - 1);
      StepsBound(w - 1, t, b, p);
    }
  }

  // ----- it is reached -----

  lemma {:induction false} PowerIsLone(p: nat)
    ensures Lone(Pow2(p), p)
  {
    if p > 0 {
      PowerIsLone(p - 1);
      Doubled(Pow2(p - 1));
    }
  }

  lemma TwoInGap(p: nat, low: nat)
    requires p >= 2 && low < Pow2(p)
    ensures Gap(Pow2(p) + low, 2, Pow2(p), p)
  {
    PowerIsLone(p);
    Pow2Exceeds(p);
  }

  /** From below, a walk to height 2 takes this long. */
  lemma {:induction false} WalkToTwo(p: nat, low: nat)
    requires p >= 3 && low < Pow2(p) && (Odd(low) || Eights(low) || Ones(low) == 1)
    ensures Steps(Pow2(p) + low, 2) == Tail(p) + Descent(low)
    decreases p, low
  {
    hide *;
    var b := Pow2(p);
    TwoInGap(p, low);
    GapInverts(b + low, 2, b, p);
    if low == 0 {
      FlatToTwo(p);
    } else if Odd(low) {
      OddToTwo(p, low);
    } else if Eights(low) {
      EightsNext(b + low, 2, b, p);
      var n := InvertLowestOne(low);
      EightsDescent(low);
      EightsDescent(n);
      WalkToTwo(p, n);
    } else {
      LastToTwo(p, low);
    }
  }

  lemma {:induction false} OddToTwo(p: nat, low: nat)
    requires p >= 3 && 0 < low < Pow2(p) && Odd(low)
    ensures Steps(Pow2(p) + low, 2) == Tail(p) + Descent(low)
    decreases p, low, 0
  {
    hide *;
    var b := Pow2(p);
    TwoInGap(p, low);
    GapInverts(b + low, 2, b, p);
    OneStep(b + low, 2);
    if Ones(low) >= 3 {
      OddNext(b + low, 2, b, p);
      var n := NextHeight(b + low, 2) - b;
      OddDescent(low, n);
      WalkToTwo(p, n);
    } else {
      OddEnds(b + low, 2, b, p);
      LastOdd(low);
      OneLeft(low - 1);
      NoneOrOne(low - 1);
      WalkToTwo(p, low - 1);
    }
  }

  lemma NoneOrOne(n: nat)
    requires Ones(n) <= 1
    ensures Ones(n) == 1 || Eights(n)
  {
    if Ones(n) == 0 {
      NoOnes(n);
    }
  }

  /** One bit is left, and it is not a multiple of 8. */
  lemma {:induction false} LastToTwo(p: nat, low: nat)
    requires p >= 3 && 0 < low < Pow2(p) && !Odd(low) && !Eights(low) && Ones(low) == 1
    ensures Steps(Pow2(p) + low, 2) == Tail(p) + Descent(low)
    decreases p, low, 0
  {
    hide *;
    var b := Pow2(p);
    TwoInGap(p, low);
    GapInverts(b + low, 2, b, p);
    EvenCases(low);
    OneLeft(low);
    InvertOfZero();
    NoneOrOne(0);
    EightsDescent(0);
    if Twos(low) {
      TwoEnds(b + low, 2, b, p);
      NoOnes(low - 2);
    } else {
      FoursIs(low);
      NoOnes(low - 4);
      FourEnds(b + low, 2, b, p);
    }
    WalkToTwo(p, 0);
  }

  lemma {:induction false} FlatToTwo(p: nat)
    requires p >= 3
    ensures Pow2(p) > 2 && Steps(Pow2(p), 2) == Tail(p) + Descent(0)
    decreases p, 0, 0
  {
    hide *;
    InvertOfZero();
    NoneOrOne(0);
    EightsDescent(0);
    Pow2Exceeds(p);
    TwoInGap(p, 0);
    GapInverts(Pow2(p), 2, Pow2(p), p);
    OneStep(Pow2(p), 2);
    FlatNext(Pow2(p), 2, p);
    TailStep(p - 1);
    if p == 3 {
      FromEight();
    } else {
      Pow2Unfold(p - 1);
      AllOnes(p - 1);
      WalkToTwo(p - 1, Pow2(p - 1) - 1);
      LastDescent(Pow2(p - 1) - 1);
    }
  }

  lemma LastDescent(low: nat)
    requires Odd(low)
    ensures Descent(low) == 2 + Ones(low) / 2
  {
  }

  lemma FromEight()
    ensures Pow2(3) == 8 && Steps(7, 2) == 4
  {
    SmallSkips();
    hide SkipHeight, Steps;
    OneStep(7, 2);
    OneStep(6, 2);
    OneStep(4, 2);
    OneStep(3, 2);
  }

  lemma SmallSkips()
    ensures SkipHeight(7) == 1 && SkipHeight(6) == 4 && SkipHeight(5) == 1
    ensures SkipHeight(4) == 0 && SkipHeight(3) == 1 && SkipHeight(2) == 0
  {
  }

  // ----- the result -----

  /** The longest walk from any height below `2^m`. */
  function MaxSteps(m: nat): nat
    requires m >= 9
  {
    Tail(m - 1) + m - 3
  }

  lemma {:induction false} TailIs(p: nat)
    requires p >= 3
    ensures 4 * Tail(p) == p * p + 6 * p - 11 - (if p % 2 == 0 then 1 else 0)
  {
    if p > 3 {
      TailIs(p - 1);
      TailStep(p - 1);
      hide Tail;
      SquareStep(p);
      Halves(p - 1);
    }
  }

  lemma SquareStep(n: nat)
    requires n > 0
    ensures n * n == (n - 1) * (n - 1) + 2 * (n - 1) + 1
  {
  }

  lemma Halves(n: nat)
    ensures n == 2 * (n / 2) + n % 2 && n % 2 + (n + 1) % 2 == 1
  {
  }

  /** In closed form: a quarter of the square of the number of bits, and some more. */
  lemma MaxStepsIs(m: nat)
    requires m >= 9
    ensures 4 * MaxSteps(m) == m * m + 8 * m - 28 - m % 2
  {
    TailIs(m - 1);
    hide Tail;
    SquareStep(m);
    Halves(m - 1);
  }

  /** The fewer ones, the more of the lowest bits are clear. */
  lemma ClearOnes(low: nat, p: nat)
    requires low < Pow2(p) && p >= 3
    ensures Ones(low) <= p
    ensures !Odd(low) ==> Ones(low) <= p - 1
    ensures Fours(low) ==> Ones(low) <= p - 2
    ensures Eights(low) ==> Ones(low) <= p - 3
  {
    hide Ones, Pow2;
    OnesBelow(low, p);
    if !Odd(low) {
      HalfOnes(low, p);
      OnesBelow(low / 2, p - 1);
      if !Twos(low) {
        HalfOnes(low / 2, p - 1);
        OnesBelow(low / 2 / 2, p - 2);
        if Eights(low) {
          HalfOnes(low / 2 / 2, p - 2);
          OnesBelow(low / 2 / 2 / 2, p - 3);
        }
      }
    }
  }

  lemma HalfOnes(n: nat, p: nat)
    requires !Odd(n) && n < Pow2(p) && p > 0
    ensures n / 2 < Pow2(p - 1) && Ones(n) == Ones(n / 2)
  {
  }

  /** How much there can be below a gap. */
  lemma DescentBound(low: nat, p: nat)
    requires low < Pow2(p) && p >= 3
    ensures Descent(low) <= Max(p - 2, 3 + p / 2)
    ensures p >= 8 ==> Descent(low) <= p - 2
  {
    ClearOnes(low, p);
    if !Odd(low) {
      EvenCases(low);
    }
    hide Ones, Pow2, Odd, Even, Twos, Fours, Eights;
  }

  /** No walk from below `2^m` is longer than that, whatever the target. */
  lemma NoWalkIsLonger(w: nat, t: nat, m: nat)
    requires m >= 9 && t <= w < Pow2(m)
    ensures Steps(w, t) <= MaxSteps(m)
  {
    hide Steps, Longest, Tail, Descent;
    TailOfEight();
    TailGrows(m - 1, 8);
    if w == t {
      OneStep(t + 1, t);
    } else {
      var b, p := FindGap(w, t);
      StepsBound(w, t, b, p);
      LoneIsWhole(b, p);
      if p >= m {
        PowMonotone(2, m, p);
        assert false;
      }
      LongestBound(w - b, t, p, m);
    }
  }

  lemma TailOfEight()
    ensures Tail(7) == 20 && Tail(8) == 25
  {
    TailIs(7);
    TailIs(8);
  }

  lemma LongestBound(low: nat, t: nat, p: nat, m: nat)
    requires m >= 9 && p < m && low < Pow2(p)
    ensures Longest(low, t, p) <= MaxSteps(m)
  {
    TailOfEight();
    TailGrows(m - 1, 8);
    if p >= 3 {
      DescentBound(low, p);
      hide Tail, Descent, Pow2;
      if p >= 8 {
        TailGrows(m - 1, p);
      } else {
        TailGrows(7, p);
      }
    } else {
      assert Pow2(0) == 1 && Pow2(1) == 2 && Pow2(2) == 4;
      hide Tail, Pow2;
    }
  }

  lemma {:induction false} OnesOfLast(p: nat)
    requires p >= 3
    ensures Pow2(p) >= 8 && Eights(Pow2(p) - 8) && Ones(Pow2(p) - 8) == p - 3
  {
    AllOnes(p - 3);
    var a := Pow2(p - 3) - 1;
    Pow2Unfold(p - 1);
    Pow2Unfold(p - 2);
    Pow2Unfold(p - 3);
    hide Pow2, Ones;
    OnesDoubled(a);
    OnesDoubled(2 * a);
    OnesDoubled(4 * a);
    Doubled(a);
    Doubled(2 * a);
    Doubled(4 * a);
  }

  lemma MaxStepsUnfold(m: nat)
    requires m >= 9
    ensures MaxSteps(m) == Tail(m - 1) + m - 3
  {
  }

  /** And one walk is that long: from eight below `2^m` to height 2. */
  lemma LongestWalk(m: nat)
    requires m >= 9
    ensures Pow2(m) > 8 && Steps(Pow2(m) - 8, 2) == MaxSteps(m)
  {
    OnesOfLast(m - 1);
    Pow2Unfold(m - 1);
    var low := Pow2(m - 1) - 8;
    MaxStepsUnfold(m);
    hide *;
    WalkToTwo(m - 1, low);
    EightsDescent(low);
  }

  /** The number the source gives for `2^18` blocks is exact. */
  lemma AtMost110(w: nat, t: nat)
    requires t <= w < 0x40000
    ensures Steps(w, t) <= 110
    ensures Steps(0x3fff8, 2) == 110
  {
    Pow2Of18();
    MaxStepsIs(18);
    NoWalkIsLonger(w, t, 18);
    LongestWalk(18);
  }

  lemma Pow2Of18()
    ensures Pow2(18) == 0x40000
  {
    PowAdd(2, 8, 10);
  }
}
