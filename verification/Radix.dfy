/** Numbers as digits in any base, most significant first, and how the size in one base bounds the size in another. */
module Radix {
  import opened Powers

  type Digits = seq<nat>

  ghost predicate Below(s: Digits, b: nat) {
    forall i :: 0 <= i < |s| ==> s[i] < b
  }

  function Num(s: Digits, b: nat): nat {
    if s == [] then 0 else Num(s[..|s| - 1], b) * b + s[|s| - 1]
  }

  /** The shortest digits of a number; none for 0. */
  function ToDigits(v: nat, b: nat): Digits
    requires b > 1
    decreases v
  {
    if v == 0 then [] else
    QuotientSmaller(v, b);
    ToDigits(v / b, b) + [v % b]
  }

  lemma QuotientSmaller(v: nat, b: nat)
    requires v > 0 && b > 1
    ensures v / b < v
  {
    DivGreatest(v, b, v);
    MulMonotone(2, b, v);
  }

  /** The digits without the zeros at the front. */
  function Strip(s: Digits): Digits {
    if s != [] && s[0] == 0 then Strip(s[1..]) else s
  }

  function Zeros(n: nat): Digits {
    seq(n, i => 0)
  }

  lemma NumPush(s: Digits, d: nat, b: nat)
    ensures Num(s + [d], b) == Num(s, b) * b + d
  {
    assert (s + [d])[..|s|] == s;
  }

  lemma {:induction false} NumAppend(s: Digits, t: Digits, b: nat)
    ensures Num(s + t, b) == Num(s, b) * Pow(b, |t|) + Num(t, b)
  {
    if t == [] {
      assert s + t == s;
    } else {
      var u, d := t[..|t| - 1], t[|t| - 1];
      assert s + t == s + u + [d] && t == u + [d];
      NumAppend(s, u, b);
      NumPush(s + u, d, b);
      NumPush(u, d, b);
      AppendArithmetic(Num(s, b), Pow(b, |u|), Num(u, b), b);
    }
  }

  lemma AppendArithmetic(x: nat, p: nat, y: nat, b: nat)
    ensures (x * p + y) * b == x * (b * p) + y * b
  {
  }

  lemma {:induction false} NumRange(s: Digits, b: nat)
    requires Below(s, b) && b > 0
    ensures Num(s, b) < Pow(b, |s|)
  {
    if s != [] {
      var u := s[..|s| - 1];
      NumRange(u, b);
      MulMonotone(Num(u, b) + 1, Pow(b, |u|), b);
      RangeArithmetic(Num(u, b), Pow(b, |u|), b);
    }
  }

  lemma RangeArithmetic(x: nat, p: nat, b: nat)
    ensures (x + 1) * b == x * b + b && p * b == b * p
  {
  }

  lemma {:induction false} NumZeros(n: nat, s: Digits, b: nat)
    ensures Num(Zeros(n) + s, b) == Num(s, b)
  {
    if n == 0 {
      assert Zeros(0) + s == s;
    } else {
      NumZeros(n - 1, [0] + s, b);
      assert Zeros(n) + s == Zeros(n - 1) + ([0] + s);
      NumAppend([0], s, b);
    }
  }

  lemma {:induction false} StripShape(s: Digits)
    ensures |Strip(s)| <= |s| && s == Zeros(|s| - |Strip(s)|) + Strip(s)
    ensures Strip(s) != [] ==> Strip(s)[0] != 0
  {
    if s != [] && s[0] == 0 {
      StripShape(s[1..]);
      var t := Strip(s);
      assert Zeros(|s| - |t|) == [0] + Zeros(|s| - 1 - |t|);
    } else {
      assert Zeros(0) + s == s;
    }
  }

  lemma {:induction false} ToDigitsShape(v: nat, b: nat)
    requires b > 1
    ensures Below(ToDigits(v, b), b) && Num(ToDigits(v, b), b) == v
    ensures ToDigits(v, b) != [] ==> ToDigits(v, b)[0] != 0
    decreases v
  {
    hide Num;
    NumEmpty(b);
    if v > 0 {
      var q, r := v / b, v % b;
      assert v == q * b + r;
      QuotientSmaller(v, b);
      ToDigitsShape(q, b);
      NumPush(ToDigits(q, b), r, b);
      assert ToDigits(v, b) == ToDigits(q, b) + [r];
    }
  }

  lemma NumEmpty(b: nat)
    ensures Num([], b) == 0
  {
  }

  /** Digits that do not start with 0 are the digits of their number. */
  lemma {:induction false} ToDigitsOfNum(s: Digits, b: nat)
    requires b > 1 && Below(s, b) && (s != [] ==> s[0] != 0)
    ensures ToDigits(Num(s, b), b) == s
  {
    if s != [] {
      var u, d := s[..|s| - 1], s[|s| - 1];
      ToDigitsOfNum(u, b);
      DivUnique(Num(s, b), b, Num(u, b), d);
      assert s == u + [d];
      if u != [] {
        NonZero(u, b);
        MulMonotone(1, Num(u, b), b);
      }
    }
  }

  lemma {:induction false} NonZero(s: Digits, b: nat)
    requires b > 1 && s != [] && s[0] != 0
    ensures Num(s, b) > 0
  {
    if |s| > 1 {
      NonZero(s[..|s| - 1], b);
      MulMonotone(1, Num(s[..|s| - 1], b), b);
    }
  }

  /** Taking the zeros off a list of digits leaves the shortest digits of its number. */
  lemma StripIsShortest(s: Digits, b: nat)
    requires b > 1 && Below(s, b)
    ensures Strip(s) == ToDigits(Num(s, b), b)
  {
    hide ToDigits, Num, Strip;
    StripShape(s);
    var t := Strip(s);
    var n := |s| - |t|;
    NumZeros(n, t, b);
    forall i | 0 <= i < |t|
      ensures t[i] < b
    {
      assert s[n + i] == t[i];
    }
    ToDigitsOfNum(t, b);
  }

  // ----- sizes -----

  /** `x^m <= y^n` for products of such pairs. */
  lemma PowersMultiply(x: nat, y: nat, m: nat, n: nat, k: nat, l: nat)
    requires Pow(x, m) <= Pow(y, n) && Pow(x, k) <= Pow(y, l)
    ensures Pow(x, m + k) <= Pow(y, n + l)
  {
    PowAdd(x, m, k);
    PowAdd(y, n, l);
    hide Pow;
    MulMonotone(Pow(x, m), Pow(y, n), Pow(x, k));
    MulMonotone(Pow(x, k), Pow(y, l), Pow(y, n));
    Swap(Pow(y, n), Pow(x, k), Pow(y, l));
  }

  lemma Swap(a: nat, b: nat, c: nat)
    ensures a * b == b * a && c * a == a * c
  {
  }

  lemma {:induction false} PowersRepeat(x: nat, y: nat, m: nat, n: nat, k: nat)
    requires Pow(x, m) <= Pow(y, n)
    ensures Pow(x, m * k) <= Pow(y, n * k)
  {
    if k > 0 {
      PowersRepeat(x, y, m, n, k - 1);
      PowersMultiply(x, y, m * (k - 1), n * (k - 1), m, n);
      hide Pow;
      assert m * k == m * (k - 1) + m && n * k == n * (k - 1) + n;
    } else {
      assert m * k == 0 && n * k == 0;
    }
  }

  lemma PowUnit(b: nat)
    ensures Pow(b, 1) == b && Pow(b, 0) == 1
  {
  }

  lemma PowersOf58()
    ensures Pow(58, 1) == 58
    ensures Pow(58, 2) == 3364
    ensures Pow(58, 4) == 11316496
    ensures Pow(58, 8) == 128063081718016
    ensures Pow(58, 16) == 16400152899115243850138976256
    ensures Pow(58, 32) == 268965015114358137726910587140455987105619365599731777536
    ensures Pow(58, 64) == 72342179355466901471258927612150153907721848234316445933056526044582001260898145151856420451025374266490194231296
  {
    PowUnit(58);
    PowAdd(58, 1, 1);
    PowAdd(58, 2, 2);
    PowAdd(58, 4, 4);
    PowAdd(58, 8, 8);
    PowAdd(58, 16, 16);
    PowAdd(58, 32, 32);
    hide Pow;
  }

  lemma PowersOf256()
    ensures Pow(256, 1) == 256
    ensures Pow(256, 2) == 65536
    ensures Pow(256, 4) == 4294967296
    ensures Pow(256, 8) == 18446744073709551616
    ensures Pow(256, 16) == 340282366920938463463374607431768211456
    ensures Pow(256, 32) == 115792089237316195423570985008687907853269984665640564039457584007913129639936
  {
    PowUnit(256);
    PowAdd(256, 1, 1);
    PowAdd(256, 2, 2);
    PowAdd(256, 4, 4);
    PowAdd(256, 8, 8);
    PowAdd(256, 16, 16);
    hide Pow;
  }

  /** The ratios that the buffer sizes rest on: 58^71 <= 256^52 and 256^19 <= 58^26. */
  lemma Anchors()
    ensures Pow(58, 1) <= Pow(256, 1) && Pow(58, 4) <= Pow(256, 3) && Pow(58, 15) <= Pow(256, 11)
    ensures Pow(256, 1) <= Pow(58, 2) && Pow(256, 2) <= Pow(58, 3) && Pow(256, 5) <= Pow(58, 7) && Pow(256, 8) <= Pow(58, 11)
    ensures Pow(256, 19) <= Pow(58, 26)
  {
    PowersOf58();
    PowersOf256();
    PowAdd(256, 1, 2);
    PowAdd(256, 1, 4);
    PowAdd(256, 3, 8);
    PowAdd(256, 3, 16);
    PowAdd(58, 1, 2);
    PowAdd(58, 3, 4);
    PowAdd(58, 7, 8);
    PowAdd(58, 3, 8);
    PowAdd(58, 2, 8);
    PowAdd(58, 10, 16);
    hide Pow;
  }

  lemma LongAnchor()
    ensures Pow(58, 71) <= Pow(256, 52)
  {
    PowersOf58();
    PowersOf256();
    PowAdd(58, 1, 2);
    PowAdd(58, 3, 4);
    PowAdd(58, 7, 64);
    PowAdd(256, 4, 16);
    PowAdd(256, 20, 32);
    hide Pow;
  }

  lemma SmallText(s: nat)
    requires s < 15
    ensures Pow(58, s) <= Pow(256, (11 * s + 14) / 15)
  {
    hide Pow;
    Anchors();
    var t, u := s / 4, s % 4;
    PowersRepeat(58, 256, 4, 3, t);
    PowersRepeat(58, 256, 1, 1, u);
    PowersMultiply(58, 256, 4 * t, 3 * t, 1 * u, 1 * u);
    assert 3 * t + u == (11 * s + 14) / 15;
  }

  /** A text of `n` characters denotes a number that fits the buffer that `DecodeBase58` allocates. */
  lemma {:induction false} TextFits(n: nat)
    ensures Pow(58, n) <= Pow(256, n * 733 / 1000 + 1)
  {
    hide Pow;
    if n < 71 {
      var a, s := n / 15, n % 15;
      Anchors();
      PowersRepeat(58, 256, 15, 11, a);
      SmallText(s);
      PowersMultiply(58, 256, 15 * a, 11 * a, s, (11 * s + 14) / 15);
      assert a == 0 || a == 1 || a == 2 || a == 3 || a == 4;
      assert 11 * a + (11 * s + 14) / 15 <= n * 733 / 1000 + 1;
      PowMonotone(256, 11 * a + (11 * s + 14) / 15, n * 733 / 1000 + 1);
    } else {
      TextFits(n - 71);
      LongAnchor();
      var e := (n - 71) * 733 / 1000 + 1;
      PowersMultiply(58, 256, n - 71, e, 71, 52);
      PowMonotone(256, e + 52, n * 733 / 1000 + 1);
    }
  }

  function SmallNeed(u: nat): nat {
    if u == 0 then 0 else if u == 1 then 2 else if u == 2 then 3 else if u == 3 then 5
    else if u == 4 then 6 else if u == 5 then 7 else if u == 6 then 9 else 10
  }

  lemma SmallBytes(u: nat)
    requires u < 8
    ensures Pow(256, u) <= Pow(58, SmallNeed(u))
  {
    hide Pow;
    Anchors();
    PowUnit(256);
    PowUnit(58);
    if u == 3 || u == 4 {
      PowersMultiply(256, 58, 2, 3, u - 2, SmallNeed(u - 2));
    } else if u == 6 || u == 7 {
      PowersMultiply(256, 58, 5, 7, u - 5, SmallNeed(u - 5));
    }
  }

  /** A number of `n` bytes fits the buffer that `EncodeBase58` allocates. */
  lemma {:induction false} BytesFit(n: nat)
    ensures Pow(256, n) <= Pow(58, n * 138 / 100 + 1)
  {
    hide Pow;
    Anchors();
    if n < 19 {
      var t, u := n / 8, n % 8;
      PowersRepeat(256, 58, 8, 11, t);
      SmallBytes(u);
      PowersMultiply(256, 58, 8 * t, 11 * t, u, SmallNeed(u));
      assert t == 0 || t == 1 || t == 2;
      PowMonotone(58, 11 * t + SmallNeed(u), n * 138 / 100 + 1);
    } else {
      BytesFit(n - 19);
      var e := (n - 19) * 138 / 100 + 1;
      PowersMultiply(256, 58, n - 19, e, 19, 26);
      PowMonotone(58, e + 26, n * 138 / 100 + 1);
    }
  }
}
