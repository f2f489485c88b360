/** Powers and divisions: the arithmetic the other modules lean on. */
module Powers {

  function Pow(b: nat, e: nat): nat {
    if e == 0 then 1 else b * Pow(b, e - 1)
  }

  function Pow2(e: nat): nat {
    Pow(2, e)
  }

  lemma PowUnfold(b: nat, e: nat)
    requires e > 0
    ensures Pow(b, e) == b * Pow(b, e - 1)
  {
  }

  lemma Pow2Unfold(e: nat)
    ensures Pow2(e + 1) == 2 * Pow2(e)
  {
  }

  lemma {:induction false} PowPositive(b: nat, e: nat)
    requires b > 0
    ensures Pow(b, e) > 0
  {
    if e > 0 {
      PowPositive(b, e - 1);
    }
  }

  lemma Pow2Positive(e: nat)
    ensures Pow2(e) > 0
  {
    PowPositive(2, e);
  }

  lemma {:induction false} PowAdd(b: nat, m: nat, n: nat)
    ensures Pow(b, m + n) == Pow(b, m) * Pow(b, n)
  {
    if m > 0 {
      calc {
        Pow(b, m + n);
        b * Pow(b, m - 1 + n);
        { PowAdd(b, m - 1, n); }
        b * (Pow(b, m - 1) * Pow(b, n));
        (b * Pow(b, m - 1)) * Pow(b, n);
      }
    }
  }

  lemma Pow2Of32()
    ensures Pow2(32) == 0x1_0000_0000
  {
    PowAdd(2, 8, 8);
    PowAdd(2, 16, 16);
  }

  lemma {:induction false} PowMonotone(b: nat, m: nat, n: nat)
    requires b > 0 && m <= n
    ensures Pow(b, m) <= Pow(b, n)
  {
    if m < n {
      PowMonotone(b, m, n - 1);
      PowPositive(b, n - 1);
      assert Pow(b, n) >= 1 * Pow(b, n - 1);
    }
  }

  lemma {:induction false} Pow2Exceeds(e: nat)
    ensures Pow2(e) > e
  {
    if e > 0 {
      Pow2Exceeds(e - 1);
    }
  }

  /** Division by a positive number is the greatest quotient that fits. */
  lemma DivGreatest(a: nat, p: nat, q: nat)
    requires p > 0
    ensures q <= a / p <==> q * p <= a
  {
    var d := a / p;
    assert d * p <= a < (d + 1) * p;
    if q <= d {
      MulMonotone(q, d, p);
    } else {
      MulMonotone(d + 1, q, p);
    }
  }

  lemma DivParts(a: nat, p: nat)
    requires p > 0
    ensures a == a / p * p + a % p && a % p < p
  {
  }

  lemma MulMonotone(a: int, b: int, p: nat)
    requires a <= b
    ensures a * p <= b * p
  {
  }

  /** A quotient and a remainder below the divisor are the quotient and the remainder. */
  lemma DivUnique(a: nat, p: nat, q: nat, r: nat)
    requires p > 0 && a == q * p + r && r < p
    ensures a / p == q && a % p == r
  {
    DivGreatest(a, p, q);
    DivGreatest(a, p, q + 1);
    assert a / p == q;
  }
}
