/** What shifting a number by `32 * k + s` bits does to its limbs. */
module Shifts {
  import opened Powers
  import opened Limbs

  // ----- one limb -----

  /** A limb shifted left by `s` bits: what leaves it at the top, and what stays. */
  function Carried(x: Limb, s: nat): nat
    requires s < 32
  {
    PowPositive(2, 32 - s);
    x / Pow2(32 - s)
  }

  function Stays(x: Limb, s: nat): nat
    requires s < 32
  {
    x * Pow2(s) % BASE
  }

  /** The two parts make up the product, and fit together in one limb without meeting. */
  lemma Parts(x: Limb, s: nat)
    requires s < 32
    ensures Stays(x, s) + BASE * Carried(x, s) == x * Pow2(s)
    ensures Carried(x, s) < Pow2(s)
    ensures exists h: nat :: Stays(x, s) == h * Pow2(s) && h * Pow2(s) + Pow2(s) <= BASE
  {
    var p, q := Pow2(s), Pow2(32 - s);
    PowPositive(2, s);
    PowPositive(2, 32 - s);
    PowAdd(2, 32 - s, s);
    LimbBits();
    PartsArithmetic(x, p, q);
    assert Stays(x, s) == x % q * p;
  }

  lemma PartsArithmetic(x: nat, p: nat, q: nat)
    requires p > 0 && q > 0 && q * p == BASE && x < BASE
    ensures x * p % BASE == x % q * p && x * p / BASE == x / q && x / q < p
    ensures x % q * p + BASE * (x / q) == x * p && x % q * p + p <= BASE
  {
    var d, r := x / q, x % q;
    assert x == q * d + r;
    assert x * p == q * d * p + r * p;
    assert q * d * p == BASE * d by {
      assert q * d * p == d * (q * p);
    }
    MulMonotone(r + 1, q, p);
    assert (r + 1) * p == r * p + p;
    DivUnique(x * p, BASE, d, r * p);
    if d >= p {
      MulMonotone(p, d, q);
      assert false;
    }
  }

  /** Joining the parts of two neighbours by disjunction is adding them. */
  lemma JoinParts(low: nat, x: Limb, s: nat)
    requires s < 32 && low < Pow2(s)
    ensures BitOr(low, Stays(x, s)) == low + Stays(x, s) < BASE
  {
    Parts(x, s);
    hide Stays;
    var h: nat :| Stays(x, s) == h * Pow2(s) && h * Pow2(s) + Pow2(s) <= BASE;
    BitOrIsSum(low, h, s);
  }

  // ----- left -----

  /** Limb `j` of a number shifted left by `k` limbs and `s` bits: what is carried into it, and all of it. */
  function LeftCarry(a: seq<Limb>, k: nat, s: nat, j: nat): nat
    requires s < 32 && j - k <= |a|
  {
    if j > k then Carried(a[j - k - 1], s) else 0
  }

  function LeftLimb(a: seq<Limb>, k: nat, s: nat, j: nat): nat
    requires s < 32 && j < |a|
  {
    if j < k then 0 else Stays(a[j - k], s) + LeftCarry(a, k, s, j)
  }

  lemma {:induction false} LeftPrefix(r: seq<Limb>, a: seq<Limb>, k: nat, s: nat, j: nat)
    requires s < 32 && k <= j <= |a| == |r| && forall i :: 0 <= i < |r| ==> r[i] == LeftLimb(a, k, s, i)
    ensures Val(r[..j]) + Modulus(j) * LeftCarry(a, k, s, j) == Val(a[..j - k]) * (Pow2(s) * Modulus(k))
    decreases j
  {
    hide Val, Carried, Stays, Pow;
    if j == k {
      ZeroPrefix(r, k);
      assert a[..j - k] == [];
      ValEmpty();
    } else {
      var x := a[j - 1 - k];
      LeftPrefix(r, a, k, s, j - 1);
      Parts(x, s);
      ValPush(r, j - 1);
      ValPush(a, j - 1 - k);
      ModulusStep(j - 1);
      PowAdd(BASE, j - 1 - k, k);
      LeftArithmetic(Val(r[..j - 1]), Val(a[..j - 1 - k]), Modulus(j - 1 - k), Modulus(k), Pow2(s),
                     LeftCarry(a, k, s, j - 1), x, Stays(x, s), Carried(x, s));
    }
  }

  lemma ValEmpty()
    ensures Val([]) == 0
  {
  }

  lemma LeftArithmetic(v: nat, va: nat, m: nat, mk: nat, p: nat, c: nat, x: nat, y: nat, d: nat)
    requires v + m * mk * c == va * (p * mk) && y + BASE * d == x * p
    ensures v + m * mk * (y + c) + BASE * (m * mk) * d == (va + m * x) * (p * mk)
  {
    var mm := m * mk;
    assert mm * (y + c) == mm * y + mm * c;
    assert BASE * mm * d == mm * (BASE * d);
    assert mm * y + mm * (BASE * d) == mm * (y + BASE * d);
    assert mm * (x * p) == m * x * (p * mk);
    assert (va + m * x) * (p * mk) == va * (p * mk) + m * x * (p * mk);
  }

  lemma {:induction false} ZeroPrefix(r: seq<Limb>, k: nat)
    requires k <= |r| && forall i :: 0 <= i < k ==> r[i] == 0
    ensures Val(r[..k]) == 0
  {
    if k > 0 {
      ZeroPrefix(r, k - 1);
      ValPush(r, k - 1);
    }
  }

  /** Shifting left multiplies, as far as the width goes. */
  lemma LeftIsProduct(r: seq<Limb>, a: seq<Limb>, k: nat, s: nat)
    requires s < 32 && |a| == |r| && forall i :: 0 <= i < |r| ==> r[i] == LeftLimb(a, k, s, i)
    ensures Val(r) == Val(a) * (Pow2(s) * Modulus(k)) % Modulus(|a|)
  {
    hide Val, Pow, LeftCarry, LeftLimb;
    var n := |a|;
    ValRange(r);
    if k > n {
      AllBelow(r, a, k, s);
      ZeroPrefix(r, n);
      assert r[..n] == r;
      PowAdd(BASE, n, k - n);
      MultipleVanishes(Val(a), Pow2(s), Modulus(n), Modulus(k - n));
    } else {
      LeftPrefix(r, a, k, s, n);
      assert r[..n] == r && a == a[..n - k] + a[n - k..];
      ValAppend(a[..n - k], a[n - k..]);
      PowAdd(BASE, n - k, k);
      WrapArithmetic(Val(r), Val(a[..n - k]), Val(a[n - k..]), Modulus(n - k), Modulus(k), Pow2(s), LeftCarry(a, k, s, n));
    }
  }

  lemma AllBelow(r: seq<Limb>, a: seq<Limb>, k: nat, s: nat)
    requires s < 32 && |a| == |r| < k && forall i :: 0 <= i < |r| ==> r[i] == LeftLimb(a, k, s, i)
    ensures forall i :: 0 <= i < |r| ==> r[i] == 0
  {
  }

  lemma MultipleVanishes(v: nat, p: nat, m: nat, q: nat)
    requires m > 0
    ensures v * (p * (m * q)) % m == 0
  {
    assert v * (p * (m * q)) == v * p * q * m;
    DivUnique(v * p * q * m, m, v * p * q, 0);
  }

  lemma WrapArithmetic(v: nat, low: nat, high: nat, m: nat, mk: nat, p: nat, c: nat)
    requires m > 0 && mk > 0 && v < m * mk && v + m * mk * c == low * (p * mk)
    ensures m * mk > 0 && v == (low + m * high) * (p * mk) % (m * mk)
  {
    var mm := m * mk;
    assert mm > 0;
    assert (low + m * high) * (p * mk) == low * (p * mk) + m * high * (p * mk);
    assert m * high * (p * mk) == mm * (high * p);
    assert mm * c + mm * (high * p) == (c + high * p) * mm;
    DivUnique((low + m * high) * (p * mk), mm, c + high * p, v);
  }

  // ----- right -----

  /** A limb shifted right by `s` bits: what stays, and what goes to the top of the limb below. */
  function Remains(x: Limb, s: nat): nat {
    PowPositive(2, s);
    x / Pow2(s)
  }

  function Descends(y: Limb, s: nat): nat
    requires s < 32
  {
    y * Pow2(32 - s) % BASE
  }

  /** Limb `j` of a number shifted right by `k` limbs and `s` bits. */
  function RightLimb(a: seq<Limb>, k: nat, s: nat, j: nat): nat
    requires s < 32
  {
    if j + k >= |a| then 0
    else Remains(a[j + k], s) + if j + k + 1 < |a| then Descends(a[j + k + 1], s) else 0
  }

  /** What the lower limb keeps and what comes into it from above make up one limb without meeting. */
  lemma RightParts(x: Limb, y: Limb, s: nat)
    requires s < 32
    ensures Pow2(s) > 0
    ensures Remains(x, s) == x / Pow2(s)
    ensures Descends(y, s) * Pow2(s) == BASE * (y % Pow2(s))
    ensures BitOr(Remains(x, s), Descends(y, s)) == Remains(x, s) + Descends(y, s) < BASE
  {
    hide Pow, BitOr;
    var p, q := Pow2(s), Pow2(32 - s);
    PowPositive(2, s);
    PowPositive(2, 32 - s);
    PowAdd(2, s, 32 - s);
    LimbBits();
    PartsArithmetic(y, q, p);
    PartsArithmetic(x, q, p);
    BitOrIsSum(x / p, y % p, 32 - s);
    SwapFactors(y % p, q, p);
  }

  lemma SwapFactors(c: nat, q: nat, p: nat)
    ensures c * q * p == p * q * c
  {
  }

  lemma {:induction false} RightSuffix(r: seq<Limb>, a: seq<Limb>, k: nat, s: nat, j: nat)
    requires s < 32 && k + j <= |a| == |r| && Pow2(s) > 0
    requires forall i :: 0 <= i < |r| ==> r[i] == RightLimb(a, k, s, i)
    ensures Val(r[j..]) * Pow2(s) + (if j + k < |a| then a[j + k] % Pow2(s) else 0) == Val(a[j + k..])
    decreases |a| - j
  {
    hide Pow, Remains, Descends;
    var p := Pow2(s);
    if j + k == |a| {
      assert forall i :: 0 <= i < |r[j..]| ==> r[j..][i] == 0;
      ValZeros(r[j..]);
    } else {
      RightSuffix(r, a, k, s, j + 1);
      assert r[j..][1..] == r[j + 1..] && a[j + k..][1..] == a[j + k + 1..];
      var x, y := a[j + k], if j + k + 1 < |a| then a[j + k + 1] else 0;
      RightParts(x, y, s);
      DescendsNothing(s);
      RightArithmetic(Val(r[j + 1..]), Val(a[j + k + 1..]), p, x, y % p, Descends(y, s));
    }
  }

  lemma DescendsNothing(s: nat)
    requires s < 32
    ensures Descends(0, s) == 0
  {
  }

  lemma RightArithmetic(v: nat, va: nat, p: nat, x: nat, c: nat, h: nat)
    requires p > 0 && v * p + c == va && h * p == BASE * c
    ensures (x / p + h + BASE * v) * p + x % p == x + BASE * va
  {
    assert (x / p + h + BASE * v) * p == x / p * p + h * p + BASE * v * p;
    assert BASE * v * p == BASE * (v * p);
  }

  lemma {:induction false} ValZeros(s: seq<Limb>)
    requires forall i :: 0 <= i < |s| ==> s[i] == 0
    ensures Val(s) == 0
  {
    if s != [] {
      ValZeros(s[1..]);
    }
  }

  /** Shifting right divides. */
  lemma RightIsQuotient(r: seq<Limb>, a: seq<Limb>, k: nat, s: nat)
    requires s < 32 && |a| == |r| && forall i :: 0 <= i < |r| ==> r[i] == RightLimb(a, k, s, i)
    ensures Pow2(s) * Modulus(k) > 0 && Val(r) == Val(a) / (Pow2(s) * Modulus(k))
  {
    hide Val, Pow, RightLimb, Modulus;
    PowPositive(2, s);
    var p, m := Pow2(s), Modulus(k);
    ValRange(a);
    if k >= |a| {
      NothingLeft(r, a, k, s);
      ValZeros(r);
      ModulusMonotone(|a|, k);
      QuotientZero(Val(a), p, m);
    } else {
      RightSuffix(r, a, k, s, 0);
      assert r[0..] == r && a == a[..k] + a[k..];
      ValAppend(a[..k], a[k..]);
      ValRange(a[..k]);
      QuotientArithmetic(Val(a), Val(a[..k]), Val(r), a[k] % p, p, m);
    }
  }

  lemma NothingLeft(r: seq<Limb>, a: seq<Limb>, k: nat, s: nat)
    requires s < 32 && |a| == |r| <= k && forall i :: 0 <= i < |r| ==> r[i] == RightLimb(a, k, s, i)
    ensures forall i :: 0 <= i < |r| ==> r[i] == 0
  {
  }

  lemma ModulusMonotone(m: nat, n: nat)
    requires m <= n
    ensures Modulus(m) <= Modulus(n)
  {
    PowMonotone(BASE, m, n);
  }

  lemma QuotientZero(v: nat, p: nat, m: nat)
    requires p > 0 && v < m
    ensures p * m > 0 && v / (p * m) == 0
  {
    MulMonotone(1, p, m);
    DivUnique(v, p * m, 0, v);
  }

  lemma QuotientArithmetic(v: nat, low: nat, q: nat, c: nat, p: nat, m: nat)
    requires p > 0 && m > 0 && c < p && low < m && v == low + m * (q * p + c)
    ensures p * m > 0 && v / (p * m) == q
  {
    var n := p * m;
    QuotientProducts(q, c, p, m);
    DivUnique(v, n, q, low + m * c);
  }

  lemma QuotientProducts(q: nat, c: nat, p: nat, m: nat)
    requires c < p
    ensures m * (q * p + c) == q * (p * m) + m * c && m * c + m <= p * m && (p > 0 && m > 0 ==> p * m > 0)
  {
    MulMonotone(c + 1, p, m);
    assert (c + 1) * m == m * c + m;
    assert m * (q * p) == q * (p * m);
    assert m * (q * p + c) == m * (q * p) + m * c;
  }
}
