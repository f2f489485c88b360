/**
 The amount codec of the chainstate (`CompressAmount` and `DecompressAmount` in
 src/compressor.cpp), in 64-bit unsigned arithmetic, and the money limit it has
 to carry (src/amount.h).
 */
module Amount {
  import opened Powers

  const COIN := 100000000
  const MAX_MONEY := 20000000000 * COIN

  /** The first amount the codec corrupts, according to the static assertion on the limit. */
  const FIRST_CORRUPTED := 2049638230412172403

  const TWO64 := 0x1_0000_0000_0000_0000

  predicate MoneyRange(n: int) {
    0 <= n <= MAX_MONEY
  }

  function Wrap(n: nat): nat {
    n % TWO64
  }

  /** How often 10 divides an amount, counting from `e` up to 9. */
  function Zeros(n: nat, e: nat): nat
    requires e <= 9
    decreases 9 - e
  {
    if n % 10 == 0 && e < 9 then Zeros(n / 10, e + 1) else e
  }

  /** The amount with those factors taken out. */
  function Mantissa(n: nat, e: nat): nat
    requires e <= 9
    decreases 9 - e
  {
    if n % 10 == 0 && e < 9 then Mantissa(n / 10, e + 1) else n
  }

  /** The code of a mantissa and an exponent, as it would be without a width. */
  function Code(m: nat, e: nat): int
    requires e <= 9
  {
    if e < 9 then 1 + (m / 10 * 9 + m % 10 - 1) * 10 + e else 1 + (m - 1) * 10 + 9
  }

  /** `CompressAmount`. */
  function Compress(n: nat): (x: nat)
    requires n < TWO64
    ensures x < TWO64
  {
    if n == 0 then 0 else
    MantissaShape(n, 0);
    Wrap(Code(Mantissa(n, 0), Zeros(n, 0)))
  }

  /** `DecompressAmount`. */
  function Decompress(x: nat): nat
    requires x < TWO64
  {
    if x == 0 then 0 else
    var e := (x - 1) % 10;
    var y := (x - 1) / 10;
    Scale(if e < 9 then Wrap(y / 9 * 10 + y % 9 + 1) else Wrap(y + 1), e)
  }

  /** Multiply by 10, `e` times over. */
  function Scale(n: nat, e: nat): nat
    decreases e
  {
    if e == 0 then n else Scale(Wrap(n * 10), e - 1)
  }

  lemma {:induction false} MantissaShape(n: nat, e: nat)
    requires n > 0 && e <= 9
    ensures e <= Zeros(n, e) <= 9 && 0 < Mantissa(n, e) <= n
    ensures Zeros(n, e) < 9 ==> Mantissa(n, e) % 10 != 0
    ensures Mantissa(n, e) * Pow(10, Zeros(n, e) - e) == n
    decreases 9 - e
  {
    if n % 10 == 0 && e < 9 {
      MantissaShape(n / 10, e + 1);
      var m, k := Mantissa(n / 10, e + 1), Zeros(n / 10, e + 1) - (e + 1);
      assert m * Pow(10, k + 1) == m * Pow(10, k) * 10;
    }
  }

  /** A mantissa and exponent read back from their code. */
  lemma CodeDecodes(m: nat, e: nat)
    requires m > 0 && e <= 9 && (e < 9 ==> m % 10 != 0)
    ensures var x := Code(m, e);
            && x > 0 && (x - 1) % 10 == e
            && m == (var y := (x - 1) / 10; if e < 9 then y / 9 * 10 + y % 9 + 1 else y + 1)
  {
    var y := if e < 9 then m / 10 * 9 + m % 10 - 1 else m - 1;
    assert Code(m, e) - 1 == y * 10 + e;
  }

  lemma {:induction false} ScaleIsPower(n: nat, e: nat)
    requires n * Pow(10, e) < TWO64
    ensures Scale(n, e) == n * Pow(10, e)
    decreases e
  {
    if e > 0 {
      var p := Pow(10, e - 1);
      PowPositive(10, e - 1);
      Regroup(n, p);
      ScaleIsPower(n * 10, e - 1);
      WrapSmall(n * 10);
    }
  }

  lemma Regroup(n: nat, p: nat)
    requires p > 0
    ensures n * (10 * p) == n * 10 * p && n * 10 <= n * 10 * p
  {
    MulMonotone(1, p, n * 10);
    TensFirst(n, p);
  }

  lemma TensFirst(n: nat, p: nat)
    ensures n * (10 * p) == n * 10 * p
  {
  }

  lemma WrapSmall(n: nat)
    requires n < TWO64
    ensures Wrap(n) == n
  {
  }

  /** Whenever the code fits in 64 bits, the amount comes back. */
  lemma RoundTripsIfItFits(n: nat)
    requires n < TWO64
    requires n > 0 ==> Code(Mantissa(n, 0), Zeros(n, 0)) < TWO64
    ensures Decompress(Compress(n)) == n
  {
    hide Pow, Mantissa, Zeros, Code, Wrap, Scale;
    if n > 0 {
      MantissaShape(n, 0);
      var m, e := Mantissa(n, 0), Zeros(n, 0);
      CodeDecodes(m, e);
      WrapSmall(Code(m, e));
      WrapSmall(m);
      ScaleIsPower(m, e);
    }
  }

  /** The only amounts whose code does not fit end in a digit other than 0, and are large. */
  lemma FitsExactly(n: nat)
    requires 0 < n < TWO64
    ensures Code(Mantissa(n, 0), Zeros(n, 0)) >= TWO64 <==> n % 10 != 0 && 9 * n + n % 10 - 9 >= TWO64
  {
    hide Pow, Code;
    MantissaShape(n, 0);
    var m, e := Mantissa(n, 0), Zeros(n, 0);
    if e == 0 {
      CodeOfWhole(n);
    } else {
      PowUnfold(10, e);
      PowPositive(10, e - 1);
      Regroup(m, Pow(10, e - 1));
      CodeBound(m, e);
    }
  }

  lemma CodeOfWhole(n: nat)
    requires n % 10 != 0
    ensures Code(n, 0) == 9 * n + n % 10 - 9
  {
    assert n == 10 * (n / 10) + n % 10;
  }

  lemma CodeBound(m: nat, e: nat)
    requires 0 < m && 10 * m < TWO64 && e <= 9
    ensures Code(m, e) < TWO64
  {
    assert m == 10 * (m / 10) + m % 10;
  }

  /** Every amount below the first corrupted one comes back, and so does every amount, however large,
      that ends in the digit 0. */
  lemma AmountRoundTrip(n: nat)
    requires n < TWO64 && (n < FIRST_CORRUPTED || n % 10 == 0)
    ensures Decompress(Compress(n)) == n
  {
    if n > 0 {
      FitsExactly(n);
    }
    RoundTripsIfItFits(n);
  }

  /** From there on, every amount that does not end in 0 overflows; the first one comes back as 10000. */
  lemma AmountCorrupts(n: nat)
    requires FIRST_CORRUPTED <= n < TWO64 && n % 10 != 0
    ensures Code(Mantissa(n, 0), Zeros(n, 0)) >= TWO64
    ensures Decompress(Compress(FIRST_CORRUPTED)) == 10000
  {
    FitsExactly(n);
    assert Zeros(FIRST_CORRUPTED, 0) == 0 && Mantissa(FIRST_CORRUPTED, 0) == FIRST_CORRUPTED;
    assert Compress(FIRST_CORRUPTED) == 5;
    assert Scale(1, 4) == 10000;
  }

  /** All money in range survives the codec, and two amounts in range add up within 63 bits. */
  lemma MoneyRoundTrip(n: nat, k: nat)
    requires MoneyRange(n) && MoneyRange(k)
    ensures n < TWO64 && Decompress(Compress(n)) == n && n + k <= 0x7FFF_FFFF_FFFF_FFFF
  {
    AmountRoundTrip(n);
  }

  lemma TakeTen(n: nat, e: nat)
    requires 0 < n && n % 10 == 0 && e < 9
    ensures 0 < n / 10 <= n && Mantissa(n, e) == Mantissa(n / 10, e + 1) && Zeros(n, e) == Zeros(n / 10, e + 1)
  {
  }

  lemma NoMoreTens(n: nat, e: nat)
    requires 0 < n && e <= 9 && (n % 10 != 0 || e == 9)
    ensures Mantissa(n, e) == n && Zeros(n, e) == e
    ensures Code(n, e) == if e < 9 then 1 + (n / 10 * 9 + n % 10 - 1) * 10 + e else 1 + (n - 1) * 10 + 9
  {
  }

  lemma CompressIs(n: nat)
    requires 0 < n < TWO64
    ensures Zeros(n, 0) <= 9 && Code(Mantissa(n, 0), Zeros(n, 0)) >= 0
    ensures Compress(n) == Wrap(Code(Mantissa(n, 0), Zeros(n, 0)))
  {
    MantissaShape(n, 0);
  }

  /** `CompressAmount` as written. */
  method CompressAmount(amount: nat) returns (x: nat)
    requires amount < TWO64
    ensures x == Compress(amount)
  {
    if amount == 0 {
      return 0;
    }
    hide Compress, Mantissa, Zeros, Code, Wrap;
    var n, e := amount, 0;
    while n % 10 == 0 && e < 9
      invariant 0 < n < TWO64 && e <= 9
      invariant Mantissa(n, e) == Mantissa(amount, 0) && Zeros(n, e) == Zeros(amount, 0)
    {
      TakeTen(n, e);
      n := n / 10;
      e := e + 1;
    }
    CompressIs(amount);
    NoMoreTens(n, e);
    if e < 9 {
      var d := n % 10;
      n := n / 10;
      x := Wrap(1 + Wrap(Wrap(Wrap(n * 9) + d - 1) * 10) + e);
      WrapCode(n, d, e);
    } else {
      x := Wrap(1 + Wrap((n - 1) * 10) + 9);
      WrapLast(n);
    }
  }

  lemma WrapCode(n: nat, d: nat, e: nat)
    requires n < TWO64 / 10 + 1 && 1 <= d <= 9 && e < 9
    ensures Wrap(1 + Wrap(Wrap(Wrap(n * 9) + d - 1) * 10) + e) == Wrap(1 + (n * 9 + d - 1) * 10 + e)
  {
    hide Wrap;
    WrapSmall(n * 9);
    WrapSmall(n * 9 + d - 1);
    WrapInside(1 + e, (n * 9 + d - 1) * 10);
  }

  lemma WrapInside(a: nat, b: nat)
    ensures Wrap(a + Wrap(b)) == Wrap(a + b)
  {
  }

  lemma WrapLast(n: nat)
    requires 0 < n < TWO64
    ensures Wrap(1 + Wrap((n - 1) * 10) + 9) == Wrap(1 + (n - 1) * 10 + 9)
  {
  }

  /** `DecompressAmount` as written. */
  method DecompressAmount(code: nat) returns (n: nat)
    requires code < TWO64
    ensures n == Decompress(code)
  {
    if code == 0 {
      return 0;
    }
    var x := code - 1;
    var e := x % 10;
    x := x / 10;
    n := 0;
    if e < 9 {
      var d := x % 9 + 1;
      x := x / 9;
      n := Wrap(x * 10 + d);
    } else {
      n := Wrap(x + 1);
    }
    while e != 0
      invariant e >= 0 && Scale(n, e) == Decompress(code)
      decreases e
    {
      n := Wrap(n * 10);
      e := e - 1;
    }
  }
}
