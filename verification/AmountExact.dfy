/**
 The other half of the amount codec: an amount whose code does not fit 64 bits never
 comes back. The wrapped code stands for the amount less a constant, times a power of
 ten; modulo 2^64 that could be the amount itself for one number only, and that number
 belongs to another case.
 */
module AmountExact {
  import opened Powers
  import opened Amount

  lemma {:induction false} ScaleWraps(n: nat, e: nat)
    requires n < TWO64
    ensures Scale(n, e) < TWO64 && Scale(n, e) == n * Pow(10, e) % TWO64
    decreases e
  {
    if e == 0 {
      DivUnique(n, TWO64, 0, n);
    } else {
      ScaleWraps(Wrap(n * 10), e - 1);
      ScaleUnfold(n, e);
      hide Scale, Pow;
      WrapFactor(n * 10, Pow(10, e - 1));
      PowUnfold(10, e);
      TensFirst(n, Pow(10, e - 1));
    }
  }

  lemma ScaleUnfold(n: nat, e: nat)
    requires e > 0
    ensures Scale(n, e) == Scale(Wrap(n * 10), e - 1)
  {
  }

  lemma WrapFactor(a: nat, p: nat)
    ensures Wrap(a) * p % TWO64 == a * p % TWO64
  {
    var q, r := a / TWO64, a % TWO64;
    var s, t := r * p / TWO64, r * p % TWO64;
    assert a == q * TWO64 + r && r * p == s * TWO64 + t;
    assert a * p == q * TWO64 * p + r * p;
    assert q * TWO64 * p == q * p * TWO64;
    assert (q * p + s) * TWO64 == q * p * TWO64 + s * TWO64;
    DivUnique(a * p, TWO64, q * p + s, t);
  }

  /** Modulo 2^64 the equation `(n - K) * p == n` has one solution, since `p - 1` is odd; `inv` is its inverse. */
  lemma OneSolution(n: nat, K: nat, p: nat, inv: nat, s: nat)
    requires K <= n < TWO64 && p > 0 && (n - K) * p % TWO64 == n && (p - 1) * inv == 1 + s * TWO64
    ensures n == inv * (K * p) % TWO64
  {
    var t := (n - K) * p / TWO64;
    assert (n - K) * p == t * TWO64 + n;
    assert (n - K) * p == n * p - K * p;
    assert n * p - n == (p - 1) * n;
    assert (p - 1) * n == K * p + t * TWO64;
    Multiplied(n, p - 1, K * p, t, inv, s);
    var z := s * n - inv * t;
    assert inv * (K * p) == n + z * TWO64;
    assert z >= 0;
    DivUnique(inv * (K * p), TWO64, z, n);
  }

  lemma Multiplied(n: nat, a: nat, b: nat, t: nat, inv: nat, s: nat)
    requires a * n == b + t * TWO64 && a * inv == 1 + s * TWO64
    ensures inv * b == n + (s * n - inv * t) * TWO64
  {
    assert inv * (a * n) == inv * b + inv * (t * TWO64);
    assert inv * (a * n) == a * inv * n;
    assert (1 + s * TWO64) * n == n + s * TWO64 * n;
    assert s * TWO64 * n == s * n * TWO64 && inv * (t * TWO64) == inv * t * TWO64;
    assert (s * n - inv * t) * TWO64 == s * n * TWO64 - inv * t * TWO64;
  }

  /** The code of an amount with its last digit not 0, less one, is ten times `Nines`. */
  function Nines(n: nat): nat
    requires n % 10 != 0
  {
    n / 10 * 9 + n % 10 - 1
  }

  /** Taking `9 * a + b` off gives the digits of an amount that is `10 * a + b`, or one more, smaller. */
  lemma Shifted(n: nat, y: nat, a: nat, b: nat)
    requires n % 10 != 0 && b < 9 && Nines(n) == y + 9 * a + b
    ensures var m := y / 9 * 10 + y % 9 + 1;
            m == n - 10 * a - b - if n % 10 - 1 >= b then 0 else 1
  {
    var q, d := n / 10, n % 10;
    if d - 1 >= b {
      DivUnique(y, 9, q - a, d - 1 - b);
    } else {
      DivUnique(y, 9, q - a - 1, d - 1 - b + 9);
    }
  }

  /** How often the code of an amount wraps around. */
  function Wraps(n: nat): nat
    requires n % 10 != 0
  {
    (9 * n + n % 10 - 9) / TWO64
  }

  /** What the wrapped code stands for, where it wraps `k` times. */
  lemma WrappedCode(n: nat, k: nat, e: nat, c: nat, a: nat, b: nat)
    requires n < TWO64 && n % 10 != 0 && Wraps(n) == k && e < 9
    requires k * TWO64 + e == 10 * c && c == 9 * a + b && b < 9
    ensures var K := 10 * a + b + if n % 10 - 1 >= b then 0 else 1;
            K <= n && Decompress(Compress(n)) == Scale(n - K, e)
  {
    CodeOfWhole(n);
    var code := 9 * n + n % 10 - 9;
    assert code == 10 * Nines(n) + 1;
    assert k * TWO64 <= code < k * TWO64 + TWO64;
    var x := code - k * TWO64;
    DivUnique(code, TWO64, k, x);
    assert Compress(n) == x;
    assert x - 1 == 10 * (Nines(n) - c) + e;
    var y := Nines(n) - c;
    assert y >= 0 && x >= 1;
    DivUnique(x - 1, 10, y, e);
    Shifted(n, y, a, b);
    hide Scale, Compress;
    var m := y / 9 * 10 + y % 9 + 1;
    assert m <= n;
    WrapSmall(m);
  }

  /** The arithmetic of one case, for either of its two constants. */
  lemma NeverSame(n: nat, K: nat, e: nat, p: nat, inv: nat, s: nat, solution: nat)
    requires K <= n < TWO64 && p == Pow(10, e) && (p - 1) * inv == 1 + s * TWO64
    requires inv * (K * p) % TWO64 == solution && n != solution
    ensures Scale(n - K, e) != n
  {
    hide Scale, Pow;
    ScaleWraps(n - K, e);
    if (n - K) * p % TWO64 == n {
      OneSolution(n, K, p, inv, s);
    }
  }

  lemma Powers2()
    ensures Pow(10, 2) == 100 && (100 - 1) * 12670490878911611211 == 1 + 68 * TWO64
  {
  }

  lemma Powers4()
    ensures Pow(10, 4) == 10000 && (10000 - 1) * 13458245626333751279 == 1 + 7295 * TWO64
  {
  }

  lemma Powers6()
    ensures Pow(10, 6) == 1000000 && (1000000 - 1) * 1672254362768354751 == 1 + 90653 * TWO64
  {
  }

  lemma Powers8()
    ensures Pow(10, 8) == 100000000 && (100000000 - 1) * 300153063250403071 == 1 + 1627133 * TWO64
  {
  }

  lemma Solutions1()
    ensures 13458245626333751279 * (2049638230412172402 * 10000) % TWO64 == 15288550632769423584 && Wraps(15288550632769423584) == 7
    ensures 13458245626333751279 * (2049638230412172403 * 10000) % TWO64 == 10300052185393623248 && Wraps(10300052185393623248) == 5
  {
  }

  lemma Wraps1(n: nat)
    requires n < TWO64 && n % 10 != 0 && Wraps(n) == 1
    ensures Decompress(Compress(n)) != n
  {
    WrappedCode(n, 1, 4, 1844674407370955162, 204963823041217240, 2);
    Powers4();
    Solutions1();
    hide *;
    if n % 10 - 1 >= 2 {
      NeverSame(n, 2049638230412172402, 4, 10000, 13458245626333751279, 7295, 15288550632769423584);
    } else {
      NeverSame(n, 2049638230412172403, 4, 10000, 13458245626333751279, 7295, 10300052185393623248);
    }
  }

  lemma Solutions2()
    ensures 300153063250403071 * (4099276460824344804 * 100000000) % TWO64 == 14480868974329830400
    ensures 300153063250403071 * (4099276460824344805 * 100000000) % TWO64 == 14781022037580233472 && Wraps(14781022037580233472) == 7
  {
  }

  lemma Wraps2(n: nat)
    requires n < TWO64 && n % 10 != 0 && Wraps(n) == 2
    ensures Decompress(Compress(n)) != n
  {
    WrappedCode(n, 2, 8, 3689348814741910324, 409927646082434480, 4);
    Powers8();
    Solutions2();
    hide *;
    if n % 10 - 1 >= 4 {
      NeverSame(n, 4099276460824344804, 8, 100000000, 300153063250403071, 1627133, 14480868974329830400);
    } else {
      NeverSame(n, 4099276460824344805, 8, 100000000, 300153063250403071, 1627133, 14781022037580233472);
    }
  }

  lemma Solutions3()
    ensures 12670490878911611211 * (6148914691236517205 * 100) % TWO64 == 1925417731599313468 && Wraps(1925417731599313468) == 0
    ensures 12670490878911611211 * (6148914691236517206 * 100) % TWO64 == 14595908610510924680
  {
  }

  lemma Wraps3(n: nat)
    requires n < TWO64 && n % 10 != 0 && Wraps(n) == 3
    ensures Decompress(Compress(n)) != n
  {
    WrappedCode(n, 3, 2, 5534023222112865485, 614891469123651720, 5);
    Powers2();
    Solutions3();
    hide *;
    if n % 10 - 1 >= 5 {
      NeverSame(n, 6148914691236517205, 2, 100, 12670490878911611211, 68, 1925417731599313468);
    } else {
      NeverSame(n, 6148914691236517206, 2, 100, 12670490878911611211, 68, 14595908610510924680);
    }
  }

  lemma Solutions4()
    ensures 1672254362768354751 * (8198552921648689607 * 1000000) % TWO64 == 14161661572577611840
    ensures 1672254362768354751 * (8198552921648689608 * 1000000) % TWO64 == 15833915935345966592 && Wraps(15833915935345966592) == 7
  {
  }

  lemma Wraps4(n: nat)
    requires n < TWO64 && n % 10 != 0 && Wraps(n) == 4
    ensures Decompress(Compress(n)) != n
  {
    WrappedCode(n, 4, 6, 7378697629483820647, 819855292164868960, 7);
    Powers6();
    Solutions4();
    hide *;
    if n % 10 - 1 >= 7 {
      NeverSame(n, 8198552921648689607, 6, 1000000, 1672254362768354751, 90653, 14161661572577611840);
    } else {
      NeverSame(n, 8198552921648689608, 6, 1000000, 1672254362768354751, 90653, 15833915935345966592);
    }
  }

  lemma Wraps5(n: nat)
    requires n < TWO64 && n % 10 != 0 && Wraps(n) == 5
    ensures Decompress(Compress(n)) != n
  {
    WrappedCode(n, 5, 0, 9223372036854775808, 1024819115206086200, 8);
  }

  lemma Solutions6()
    ensures 13458245626333751279 * (12297829382473034411 * 10000) % TWO64 == 4486081875444583760
    ensures 13458245626333751279 * (12297829382473034412 * 10000) % TWO64 == 17944327501778335040
  {
  }

  lemma Wraps6(n: nat)
    requires n < TWO64 && n % 10 != 0 && Wraps(n) == 6
    ensures Decompress(Compress(n)) != n
  {
    WrappedCode(n, 6, 4, 11068046444225730970, 1229782938247303441, 1);
    Powers4();
    Solutions6();
    hide *;
    if n % 10 - 1 >= 1 {
      NeverSame(n, 12297829382473034411, 4, 10000, 13458245626333751279, 7295, 4486081875444583760);
    } else {
      NeverSame(n, 12297829382473034412, 4, 10000, 13458245626333751279, 7295, 17944327501778335040);
    }
  }

  lemma Solutions7()
    ensures 300153063250403071 * (14347467612885206813 * 100000000) % TWO64 == 4266028162630124288 && Wraps(4266028162630124288) == 2
    ensures 300153063250403071 * (14347467612885206814 * 100000000) % TWO64 == 4566181225880527360
  {
  }

  lemma Wraps7(n: nat)
    requires n < TWO64 && n % 10 != 0 && Wraps(n) == 7
    ensures Decompress(Compress(n)) != n
  {
    WrappedCode(n, 7, 8, 12912720851596686132, 1434746761288520681, 3);
    Powers8();
    Solutions7();
    hide *;
    if n % 10 - 1 >= 3 {
      NeverSame(n, 14347467612885206813, 8, 100000000, 300153063250403071, 1627133, 4266028162630124288);
    } else {
      NeverSame(n, 14347467612885206814, 8, 100000000, 300153063250403071, 1627133, 4566181225880527360);
    }
  }

  lemma Solutions8()
    ensures 12670490878911611211 * (16397105843297379214 * 100) % TWO64 == 7432526512302726184 && Wraps(7432526512302726184) == 3
    ensures 12670490878911611211 * (16397105843297379215 * 100) % TWO64 == 1656273317504785780
  {
  }

  lemma Wraps8(n: nat)
    requires n < TWO64 && n % 10 != 0 && Wraps(n) == 8
    ensures Decompress(Compress(n)) != n
  {
    WrappedCode(n, 8, 2, 14757395258967641293, 1639710584329737921, 4);
    Powers2();
    Solutions8();
    hide *;
    if n % 10 - 1 >= 4 {
      NeverSame(n, 16397105843297379214, 2, 100, 12670490878911611211, 68, 7432526512302726184);
    } else {
      NeverSame(n, 16397105843297379215, 2, 100, 12670490878911611211, 68, 1656273317504785780);
    }
  }

  lemma DecompressWraps(x: nat)
    requires x < TWO64
    ensures Decompress(x) < TWO64
  {
    if x > 0 {
      var e, y := (x - 1) % 10, (x - 1) / 10;
      ScaleWraps(if e < 9 then Wrap(y / 9 * 10 + y % 9 + 1) else Wrap(y + 1), e);
    }
  }

  /** Exactly which amounts come back: those that end in 0, and those below 2049638230412172403. */
  lemma RoundTripsExactly(n: nat)
    requires n < TWO64
    ensures Decompress(Compress(n)) == n <==> n % 10 == 0 || n < FIRST_CORRUPTED
  {
    hide Compress, Decompress;
    if n % 10 != 0 && 9 * n + n % 10 - 9 >= TWO64 {
      WrapsRange(n);
      var k := Wraps(n);
      if k == 1 { Wraps1(n); } else if k == 2 { Wraps2(n); } else if k == 3 { Wraps3(n); } else if k == 4 { Wraps4(n); }
      else if k == 5 { Wraps5(n); } else if k == 6 { Wraps6(n); } else if k == 7 { Wraps7(n); } else { Wraps8(n); }
    } else {
      AmountRoundTrip(n);
    }
  }

  lemma WrapsRange(n: nat)
    requires n < TWO64 && n % 10 != 0 && 9 * n + n % 10 - 9 >= TWO64
    ensures 1 <= Wraps(n) <= 8
  {
    var code := 9 * n + n % 10 - 9;
    DivGreatest(code, TWO64, 1);
    DivGreatest(code, TWO64, 9);
  }
}
