/**
 Unsigned numbers of fixed width (`base_uint` in src/arith_uint256.h and
 src/arith_uint256.cpp): an array of 32-bit limbs, worked on in place. Every operation
 is stated on the number that the limbs stand for.
 */
module BaseUint {
  import opened Powers
  import opened Limbs
  import opened Shifts

  class BaseUint {
    const pn: array<Limb>

    constructor (width: nat)
      ensures fresh(pn) && pn.Length == width && Value() == 0
    {
      var limbs := new Limb[width](i => 0);
      pn := limbs;
      new;
      ValZeros(pn[..]);
    }

    ghost function Value(): nat
      reads pn
    {
      Val(pn[..])
    }

    ghost function Max(): (m: nat)
      ensures m > 0
    {
      Modulus(pn.Length)
    }

    method Clear()
      modifies pn
      ensures forall i :: 0 <= i < pn.Length ==> pn[i] == 0
      ensures Value() == 0
    {
      var i := 0;
      while i < pn.Length
        invariant 0 <= i <= pn.Length && forall j :: 0 <= j < i ==> pn[j] == 0
      {
        pn[i] := 0;
        i := i + 1;
      }
      ValZeros(pn[..]);
    }

    /** Assignment of another number of the same width. */
    method Copy(b: seq<Limb>)
      requires |b| == pn.Length
      modifies pn
      ensures pn[..] == b && Value() == Val(b)
    {
      var i := 0;
      while i < pn.Length
        invariant 0 <= i <= pn.Length && forall j :: 0 <= j < i ==> pn[j] == b[j]
      {
        pn[i] := b[i];
        i := i + 1;
      }
      assert pn[..] == b;
    }

    /** Every limb of another number complemented. */
    method Complement(b: seq<Limb>)
      requires |b| == pn.Length
      modifies pn
      ensures Value() == Max() - 1 - Val(b)
    {
      var i := 0;
      while i < pn.Length
        invariant 0 <= i <= pn.Length && forall j :: 0 <= j < i ==> pn[j] == BASE - 1 - b[j]
      {
        pn[i] := BASE - 1 - b[i];
        i := i + 1;
      }
      ValComplement(pn[..], b);
    }

    /** `+=`: with the carry out of the last limb dropped. */
    method Add(b: seq<Limb>)
      requires |b| == pn.Length
      modifies pn
      ensures Value() == (old(Value()) + Val(b)) % Max()
    {
      hide *;
      ValueIs();
      ghost var a := pn[..];
      var carry: nat, i := 0, 0;
      AddStart(a, b);
      while i < pn.Length
        invariant 0 <= i <= pn.Length && pn[i..] == a[i..]
        invariant AddInv(pn[..i], a[..i], b[..i], carry)
      {
        var n := carry + pn[i] + b[i];
        AddStep(pn[..i], a, b, i, carry);
        pn[i] := n % BASE;
        carry := n / BASE;
        assert pn[..i + 1] == pn[..i] + [pn[i]];
        i := i + 1;
      }
      assert pn[..i] == pn[..] && a[..i] == a && b[..i] == b;
      AddEnd(pn[..], a, b, carry);
      ValueIs();
    }

    /** `++`: carry on while the limb becomes 0, but not past the last one. */
    method Increment()
      requires pn.Length > 0
      modifies pn
      ensures Value() == (old(Value()) + 1) % Max()
    {
      hide *;
      ValueIs();
      ghost var a := pn[..];
      var i := 0;
      IncrementFirst(a);
      pn[0] := (pn[0] + 1) % BASE;
      assert pn[..1] == [pn[0]];
      while pn[i] == 0 && i < pn.Length - 1
        invariant 0 <= i < pn.Length && pn[i + 1..] == a[i + 1..]
        invariant IncrementInv(pn[..i + 1], a[..i + 1])
      {
        IncrementStep(pn[..i + 1], a, i + 1);
        i := i + 1;
        pn[i] := (pn[i] + 1) % BASE;
        assert pn[..i + 1] == pn[..i] + [pn[i]];
      }
      IncrementEnd(pn[..], a, i);
      ValueIs();
    }

    /** `-=`: the addition of the negated number. */
    method Subtract(b: seq<Limb>)
      requires |b| == pn.Length > 0
      modifies pn
      ensures Value() == (old(Value()) + Max() - Val(b)) % Max()
      ensures Val(b) <= old(Value()) ==> Value() == old(Value()) - Val(b)
    {
      hide *;
      var minus := Negated(b);
      ValueIs();
      minus.ValueIs();
      ValRange(b);
      ValRange(pn[..]);
      SubtractArithmetic(Value(), Val(b), Max());
      Add(minus.pn[..]);
    }

    /** `CompareTo`: from the highest limb down. */
    method CompareTo(b: seq<Limb>) returns (r: int)
      requires |b| == pn.Length
      ensures r < 0 <==> Value() < Val(b)
      ensures r > 0 <==> Value() > Val(b)
    {
      hide *;
      ValueIs();
      var i := pn.Length;
      while i > 0
        invariant 0 <= i <= pn.Length && pn[i..] == b[i..]
      {
        i := i - 1;
        if pn[i] < b[i] {
          Higher(pn[..], b, i);
          return -1;
        }
        if pn[i] > b[i] {
          Higher(b, pn[..], i);
          return 1;
        }
        assert pn[i..] == [pn[i]] + pn[i + 1..] && b[i..] == [b[i]] + b[i + 1..];
      }
      assert pn[..] == pn[0..] == b[0..] == b;
      return 0;
    }

    /** `*=`: schoolbook multiplication, with the limbs beyond the width left out. The operand is read
        after this number is cleared, so a number times itself is 0. */
    method Multiply(b: array<Limb>)
      requires b.Length == pn.Length
      modifies pn
      ensures b != pn ==> Value() == old(Value()) * Val(b[..]) % Max()
      ensures b == pn ==> Value() == 0
    {
      hide *;
      ValueIs();
      var a := pn[..];
      Clear();
      ValueIs();
      var j := 0;
      ghost var lost: nat := 0;
      ghost var y := Val(b[..]);
      IsZeroIs(pn[..]);
      MultiplyStart(a, y);
      while j < pn.Length
        invariant 0 <= j <= pn.Length
        invariant Val(b[..]) == y && (b == pn ==> IsZero(pn[..]))
        invariant Value() + Max() * lost == Val(a[..j]) * y
      {
        ghost var before := Value();
        ghost var more := AddRow(a[j], b, j);
        MultiplyStep(before, Value(), a, j, y, Max(), lost, more);
        lost := lost + more;
        j := j + 1;
      }
      assert a[..j] == a;
      ValRange(pn[..]);
      ValueIs();
      DivUnique(Val(a) * y, Max(), lost, Value());
      IsZeroIs(pn[..]);
    }

    /** One row: `x` times the other number, `j` limbs up; the sum in each step fits 64 bits. */
    method AddRow(x: Limb, b: array<Limb>, j: nat) returns (ghost lost: nat)
      requires b.Length == pn.Length && j < pn.Length
      requires b == pn ==> IsZero(pn[..])
      modifies pn
      ensures b[..] == old(b[..])
      ensures Value() + Max() * lost == old(Value()) + Modulus(j) * x * Val(b[..])
    {
      hide *;
      ValueIs();
      ghost var s, bs := pn[..], b[..];
      IsZeroIs(s);
      var carry: nat, i := 0, 0;
      RowStart(s, bs, x, j);
      while i + j < pn.Length
        invariant 0 <= i && i + j <= pn.Length && carry < BASE && pn[i + j..] == s[i + j..]
        invariant b[..] == bs && (b == pn ==> carry == 0)
        invariant RowPart(pn[..i + j], s, bs, x, i, j, carry)
      {
        RowFits(carry, pn[i + j], x, b[i]);
        var n := RowSum(carry, pn[i + j], x, b[i]);
        assert b[i] == bs[i] by { assert b[..][i] == bs[i]; }
        assert pn[i + j] == s[i + j] by { assert pn[i + j..][0] == s[i + j..][0]; }
        assert b == pn ==> n == 0 by { NoRow(x); }
        RowStep(pn[..i + j], s, bs, x, i, j, carry);
        pn[i + j] := n % BASE;
        carry := n / BASE;
        assert pn[..i + 1 + j] == pn[..i + j] + [pn[i + j]];
        i := i + 1;
      }
      assert pn[..i + j] == pn[..];
      lost := RowEnd(pn[..], s, bs, x, j, carry);
      ValueIs();
    }

    /** `<<=`: whole limbs and bits at once, two writes per limb. */
    method ShiftLeft(shift: nat)
      modifies pn
      ensures Value() == old(Value()) * Pow2(shift) % Max()
    {
      hide *;
      ValueIs();
      var a := pn[..];
      Clear();
      var k, s := shift / 32, shift % 32;
      var i := 0;
      LeftStart(a, k, s);
      while i < pn.Length
        invariant 0 <= i <= pn.Length
        invariant forall j :: 0 <= j < pn.Length ==> pn[j] == LeftDone(a, k, s, i, j)
      {
        LeftStep(a, k, s, i);
        if i + k + 1 < pn.Length && s != 0 {
          pn[i + k + 1] := BitOr(pn[i + k + 1], Carried(a[i], s));
        }
        if i + k < pn.Length {
          pn[i + k] := BitOr(pn[i + k], Stays(a[i], s));
        }
        i := i + 1;
      }
      LeftEnd(pn[..], a, k, s);
      ShiftFactor(k, s);
      ValueIs();
    }

    /** `>>=`. */
    method ShiftRight(shift: nat)
      modifies pn
      ensures Pow2(shift) > 0 && Value() == old(Value()) / Pow2(shift)
    {
      hide *;
      ValueIs();
      var a := pn[..];
      Clear();
      var k, s := shift / 32, shift % 32;
      var i := 0;
      RightStart(a, k, s);
      while i < pn.Length
        invariant 0 <= i <= pn.Length
        invariant forall j :: 0 <= j < pn.Length ==> pn[j] == RightDone(a, k, s, i, j)
      {
        RightStep(a, k, s, i);
        if i - k - 1 >= 0 && s != 0 {
          pn[i - k - 1] := BitOr(pn[i - k - 1], Descends(a[i], s));
        }
        if i - k >= 0 {
          pn[i - k] := BitOr(pn[i - k], Remains(a[i], s));
        }
        i := i + 1;
      }
      RightEnd(pn[..], a, k, s);
      ShiftFactor(k, s);
      ValueIs();
    }

    /** `bits`: how many binary digits the number has, none for zero. */
    method Bits() returns (n: nat)
      ensures HasBits(Value(), n) && n <= 32 * pn.Length
    {
      hide *;
      ValueIs();
      var pos := pn.Length;
      while pos > 0
        invariant 0 <= pos <= pn.Length && forall j :: pos <= j < pn.Length ==> pn[j] == 0
      {
        pos := pos - 1;
        if pn[pos] != 0 {
          var k := LimbHeight(pn[pos]);
          TopLimb(pn[..], pos, k);
          return 32 * pos + k;
        }
      }
      ValZeros(pn[..]);
      NoBits();
      return 0;
    }

    method SetBit(i: nat)
      requires i < 32 * pn.Length && MultipleOf(Value(), Pow2(i + 1))
      modifies pn
      ensures Value() == old(Value()) + Pow2(i)
    {
      hide *;
      ghost var s := pn[..];
      ValueIs();
      SetsBit(s, i);
      pn[i / 32] := BitOr(pn[i / 32], Pow2(i % 32));
      assert pn[..] == s[i / 32 := pn[i / 32]];
      ValueIs();
    }

    /** `/=`: shift and subtract. Dividing by zero throws, after the number has been set to 0. */
    method Divide(b: seq<Limb>) returns (ok: bool)
      requires |b| == pn.Length > 0
      modifies pn
      ensures ok <==> Val(b) != 0
      ensures Value() == if ok then old(Value()) / Val(b) else 0
    {
      hide *;
      var div := new BaseUint(|b|);
      div.Copy(b);
      var num := new BaseUint(|b|);
      num.Copy(pn[..]);
      ValueIs();
      Clear();
      var numBits := num.Bits();
      var divBits := div.Bits();
      BitsZero(div.Value(), divBits);
      if divBits == 0 {
        return false;
      }
      ok := true;
      ghost var N, D := num.Value(), div.Value();
      if divBits > numBits {
        FewerBits(N, D, numBits, divBits);
        return;
      }
      var shift: int := numBits - divBits;
      DivideStart(N, D, numBits, divBits, pn.Length);
      div.ValueIs();
      div.ShiftLeft(shift);
      SubtractShifted(num, div, shift, N, D);
    }

    /** The loop of the division: subtract the divisor where it fits, shift it back, and go on. */
    method SubtractShifted(num: BaseUint, div: BaseUint, top: nat, ghost N: nat, ghost D: nat)
      requires num.pn.Length == div.pn.Length == pn.Length && pn != num.pn && pn != div.pn && num.pn != div.pn
      requires top < 32 * pn.Length && DivideInv(N, D, Value(), num.Value(), top) && div.Value() == D * Pow2(top)
      modifies pn, num.pn, div.pn
      ensures D > 0 && Value() == N / D
    {
      hide *;
      var shift: int := top;
      while shift >= 0
        invariant -1 <= shift < 32 * pn.Length
        invariant DivideInv(N, D, Value(), num.Value(), shift)
        invariant shift >= 0 ==> div.Value() == D * Pow2(shift)
      {
        var c := num.CompareTo(div.pn[..]);
        div.ValueIs();
        num.ValueIs();
        DivideStep(N, D, Value(), num.Value(), shift);
        InvMultiple(N, D, Value(), num.Value(), shift);
        if c >= 0 {
          num.Subtract(div.pn[..]);
          SetBit(shift);
        }
        HalvesBack(D, shift);
        div.ShiftRight(1);
        shift := shift - 1;
      }
      DivideEnd(N, D, Value(), num.Value());
    }

    lemma ValueIs()
      ensures Value() == Val(pn[..]) && Max() == Modulus(pn.Length)
    {
    }
  }

  /** The limbs written so far and the carry are the sum of the limbs read so far. */
  ghost predicate AddInv(r: seq<Limb>, a: seq<Limb>, b: seq<Limb>, carry: nat) {
    |r| == |a| == |b| && carry <= 1 && Val(r) + Modulus(|r|) * carry == Val(a) + Val(b)
  }

  lemma AddStart(a: seq<Limb>, b: seq<Limb>)
    requires |a| == |b|
    ensures AddInv([], a[..0], b[..0], 0)
  {
  }

  /** A product split at the base. */
  lemma SplitAtBase(m: nat, n: nat)
    ensures m * (n % BASE) + BASE * m * (n / BASE) == m * n
  {
    var q, r := n / BASE, n % BASE;
    assert n == BASE * q + r;
    assert m * n == m * (BASE * q) + m * r;
    assert m * (BASE * q) == BASE * m * q;
  }

  lemma AddStep(r: seq<Limb>, a: seq<Limb>, b: seq<Limb>, i: nat, carry: nat)
    requires i < |a| == |b| && |r| == i && AddInv(r, a[..i], b[..i], carry)
    ensures var n := carry + a[i] + b[i];
            n / BASE <= 1 && AddInv(r + [n % BASE], a[..i + 1], b[..i + 1], n / BASE)
  {
    var n := carry + a[i] + b[i];
    var more := r + [n % BASE];
    ValPush(a, i);
    ValPush(b, i);
    ValPush(more, i);
    assert more[..i] == r && more[..i + 1] == more;
    ModulusStep(i);
    AddArithmetic(Val(r), Val(a[..i]), Val(b[..i]), Modulus(i), carry, a[i], b[i]);
    hide Val, Modulus;
  }

  lemma AddArithmetic(v: nat, va: nat, vb: nat, m: nat, carry: nat, x: nat, y: nat)
    requires v + m * carry == va + vb
    ensures var n := carry + x + y;
            v + m * (n % BASE) + BASE * m * (n / BASE) == va + m * x + (vb + m * y)
  {
    var n := carry + x + y;
    SplitAtBase(m, n);
    assert m * n == m * carry + m * x + m * y;
  }

  lemma AddEnd(r: seq<Limb>, a: seq<Limb>, b: seq<Limb>, carry: nat)
    requires AddInv(r, a, b, carry)
    ensures Val(r) == (Val(a) + Val(b)) % Modulus(|a|)
  {
    hide Val, Modulus;
    ValRange(r);
    DivUnique(Val(a) + Val(b), Modulus(|a|), carry, Val(r));
  }

  /** Unary minus: every limb complemented, and one more. */
  method Negated(b: seq<Limb>) returns (r: BaseUint)
    requires |b| > 0
    ensures fresh(r) && fresh(r.pn) && r.pn.Length == |b|
    ensures r.Value() == (Modulus(|b|) - Val(b)) % Modulus(|b|)
  {
    hide *;
    r := new BaseUint(|b|);
    r.Complement(b);
    r.ValueIs();
    r.Increment();
  }

  lemma {:induction false} ValComplement(r: seq<Limb>, b: seq<Limb>)
    requires |r| == |b| && forall j :: 0 <= j < |b| ==> r[j] == BASE - 1 - b[j]
    ensures Val(r) == Modulus(|b|) - 1 - Val(b)
  {
    ModulusStep(0);
    if b != [] {
      ValComplement(r[1..], b[1..]);
      ModulusStep(|b| - 1);
    }
  }

  lemma SubtractArithmetic(a: nat, b: nat, m: nat)
    requires a < m && b < m
    ensures (a + (m - b) % m) % m == (a + m - b) % m
    ensures b <= a ==> (a + m - b) % m == a - b
  {
    if b == 0 {
      DivUnique(m, m, 1, 0);
      DivUnique(a + m, m, 1, a);
      DivUnique(a, m, 0, a);
    } else {
      DivUnique(m - b, m, 0, m - b);
      if b <= a {
        DivUnique(a + m - b, m, 1, a - b);
      }
    }
  }

  /** The limbs up to here, with a carry when the last became 0, are one more than they were. */
  ghost predicate IncrementInv(r: seq<Limb>, a: seq<Limb>) {
    |r| == |a| > 0 && Val(r) + (if r[|r| - 1] == 0 then Modulus(|r|) else 0) == Val(a) + 1
  }

  lemma IncrementFirst(a: seq<Limb>)
    requires a != []
    ensures IncrementInv([(a[0] + 1) % BASE], a[..1])
  {
    ModulusStep(0);
    assert a[..1] == [a[0]];
  }

  lemma IncrementStep(r: seq<Limb>, a: seq<Limb>, i: nat)
    requires 0 < i < |a| && IncrementInv(r, a[..i]) && r[i - 1] == 0
    ensures IncrementInv(r + [(a[i] + 1) % BASE], a[..i + 1])
  {
    hide Val, Modulus;
    var x := (a[i] + 1) % BASE;
    var more := r + [x];
    ValPush(a, i);
    ValPush(more, i);
    assert more[..i] == r && more[..i + 1] == more;
    ModulusStep(i);
    IncrementArithmetic(Modulus(i), a[i]);
  }

  lemma IncrementArithmetic(m: nat, y: Limb)
    ensures var x := (y + 1) % BASE;
            m * x + (if x == 0 then BASE * m else 0) == m * y + m
  {
    if y == BASE - 1 {
      assert m * BASE == m * (BASE - 1) + m;
    } else {
      assert m * (y + 1) == m * y + m;
    }
  }

  lemma IncrementInvIs(r: seq<Limb>, a: seq<Limb>)
    requires IncrementInv(r, a)
    ensures |r| == |a| > 0 && Val(r) + (if r[|r| - 1] == 0 then Modulus(|r|) else 0) == Val(a) + 1
  {
  }

  /** The carry ended: the limbs above are the same. */
  lemma IncrementStops(r: seq<Limb>, a: seq<Limb>, i: nat)
    requires i < |r| == |a| && IncrementInv(r[..i + 1], a[..i + 1]) && r[i + 1..] == a[i + 1..] && r[i] != 0
    ensures Val(r) == (Val(a) + 1) % Modulus(|a|)
  {
    hide *;
    IncrementInvIs(r[..i + 1], a[..i + 1]);
    ValAppend(r[..i + 1], r[i + 1..]);
    ValAppend(a[..i + 1], a[i + 1..]);
    assert r == r[..i + 1] + r[i + 1..] && a == a[..i + 1] + a[i + 1..];
    ValRange(r);
    SmallRemainder(Val(r), Modulus(|a|));
  }

  lemma SmallRemainder(v: nat, m: nat)
    requires v < m
    ensures v % m == v
  {
  }

  /** The carry left through the top: the number was the greatest one. */
  lemma IncrementWraps(r: seq<Limb>, a: seq<Limb>)
    requires IncrementInv(r, a) && r[|r| - 1] == 0
    ensures Val(r) == (Val(a) + 1) % Modulus(|a|)
  {
    hide *;
    IncrementInvIs(r, a);
    ValRange(r);
    DivUnique(Val(a) + 1, Modulus(|a|), 1, Val(r));
  }

  lemma IncrementEnd(r: seq<Limb>, a: seq<Limb>, i: nat)
    requires i < |r| == |a| && IncrementInv(r[..i + 1], a[..i + 1]) && r[i + 1..] == a[i + 1..]
    requires r[i] != 0 || i == |a| - 1
    ensures Val(r) == (Val(a) + 1) % Modulus(|a|)
  {
    if r[i] != 0 {
      IncrementStops(r, a, i);
    } else {
      assert r[..i + 1] == r && a[..i + 1] == a;
      IncrementWraps(r, a);
    }
  }

  /** The highest limb that differs decides. */
  lemma Higher(a: seq<Limb>, b: seq<Limb>, i: nat)
    requires i < |a| == |b| && a[i] < b[i] && a[i + 1..] == b[i + 1..]
    ensures Val(a) < Val(b)
  {
    hide Val, Modulus;
    ValAppend(a[..i + 1], a[i + 1..]);
    ValAppend(b[..i + 1], b[i + 1..]);
    assert a == a[..i + 1] + a[i + 1..] && b == b[..i + 1] + b[i + 1..];
    ValPush(a, i);
    ValPush(b, i);
    ValRange(a[..i]);
    HigherArithmetic(Modulus(i), a[i], b[i]);
  }

  lemma HigherArithmetic(m: nat, x: nat, y: nat)
    requires x < y
    ensures m * x + m <= m * y
  {
    MulMonotone(x + 1, y, m);
    assert (x + 1) * m == m * x + m;
  }

  // ----- the shift loops -----

  /** Limb `j` when limbs below `i` have been shifted left. */
  ghost function LeftDone(a: seq<Limb>, k: nat, s: nat, i: nat, j: nat): nat
    requires s < 32 && i <= |a| && j < |a|
  {
    if j < i + k then LeftLimb(a, k, s, j) else if j == i + k then LeftCarry(a, k, s, j) else 0
  }

  lemma LeftStart(a: seq<Limb>, k: nat, s: nat)
    requires s < 32
    ensures forall j :: 0 <= j < |a| ==> LeftDone(a, k, s, 0, j) == 0
  {
  }

  lemma LeftStep(a: seq<Limb>, k: nat, s: nat, i: nat)
    requires s < 32 && i < |a|
    ensures i + k + 1 < |a| ==> LeftDone(a, k, s, i, i + k + 1) == 0 && LeftDone(a, k, s, i + 1, i + k + 1) == Carried(a[i], s)
    ensures BitOr(0, Carried(a[i], s)) == Carried(a[i], s) < BASE && (s == 0 ==> Carried(a[i], s) == 0)
    ensures i + k < |a| ==> LeftDone(a, k, s, i + 1, i + k) == BitOr(LeftDone(a, k, s, i, i + k), Stays(a[i], s)) < BASE
    ensures forall j :: 0 <= j < |a| && j != i + k && j != i + k + 1 ==> LeftDone(a, k, s, i + 1, j) == LeftDone(a, k, s, i, j)
  {
    Parts(a[i], s);
    LimbBits();
    PowMonotone(2, s, 32);
    hide Stays, Pow, Carried;
    BitOrCommutes(0, Carried(a[i], s));
    BitOrZero(Carried(a[i], s));
    assert s == 0 ==> Pow2(s) == 1 by {
      PowOne();
    }
    if i + k < |a| {
      if i > 0 {
        Parts(a[i - 1], s);
      }
      JoinParts(LeftCarry(a, k, s, i + k), a[i], s);
    }
    hide BitOr;
  }

  lemma PowOne()
    ensures Pow2(0) == 1
  {
  }

  lemma LeftEnd(r: seq<Limb>, a: seq<Limb>, k: nat, s: nat)
    requires s < 32 && |r| == |a| && forall j :: 0 <= j < |r| ==> r[j] == LeftDone(a, k, s, |a|, j)
    ensures Val(r) == Val(a) * (Pow2(s) * Modulus(k)) % Modulus(|a|)
  {
    hide Val, Pow, Modulus, LeftLimb, LeftCarry;
    LeftIsProduct(r, a, k, s);
  }

  lemma ShiftFactor(k: nat, s: nat)
    ensures Pow2(32 * k + s) == Pow2(s) * Modulus(k) > 0
  {
    PowPositive(2, s);
    PowAdd(2, s, 32 * k);
    ModulusIsPow2(k);
  }

  /** Limb `j` when limbs below `i` have been shifted right. */
  ghost function RightDone(a: seq<Limb>, k: nat, s: nat, i: nat, j: nat): nat
    requires s < 32 && i <= |a| && j < |a|
  {
    if j + k + 1 < i then RightLimb(a, k, s, j) else if j + k + 1 == i then Remains(a[j + k], s) else 0
  }

  lemma RightStart(a: seq<Limb>, k: nat, s: nat)
    requires s < 32
    ensures forall j :: 0 <= j < |a| ==> RightDone(a, k, s, 0, j) == 0
  {
  }

  lemma RightStep(a: seq<Limb>, k: nat, s: nat, i: nat)
    requires s < 32 && i < |a|
    ensures i - k >= 0 ==> RightDone(a, k, s, i, i - k) == 0 && RightDone(a, k, s, i + 1, i - k) == Remains(a[i], s)
    ensures BitOr(0, Remains(a[i], s)) == Remains(a[i], s) < BASE
    ensures i - k - 1 >= 0 ==>
              RightDone(a, k, s, i + 1, i - k - 1) == BitOr(RightDone(a, k, s, i, i - k - 1), Descends(a[i], s)) < BASE
    ensures s == 0 && i - k - 1 >= 0 ==> RightDone(a, k, s, i + 1, i - k - 1) == RightDone(a, k, s, i, i - k - 1)
    ensures forall j :: 0 <= j < |a| && j != i - k && j != i - k - 1 ==> RightDone(a, k, s, i + 1, j) == RightDone(a, k, s, i, j)
  {
    RightParts(a[i], 0, s);
    DescendsNothing(s);
    BitOrCommutes(0, Remains(a[i], s));
    BitOrZero(Remains(a[i], s));
    hide Remains, Descends, BitOr;
    if i - k - 1 >= 0 {
      RightParts(a[i - 1], a[i], s);
      if s == 0 {
        WholeLimb(a[i]);
      }
    }
  }

  lemma WholeLimb(y: Limb)
    ensures Descends(y, 0) == 0
  {
    LimbBits();
  }

  lemma RightEnd(r: seq<Limb>, a: seq<Limb>, k: nat, s: nat)
    requires s < 32 && |r| == |a| && forall j :: 0 <= j < |r| ==> r[j] == RightDone(a, k, s, |a|, j)
    ensures Pow2(s) * Modulus(k) > 0 && Val(r) == Val(a) / (Pow2(s) * Modulus(k))
  {
    hide Val, Pow, Modulus, Remains, Descends;
    RightIsQuotient(r, a, k, s);
  }

  // ----- bits -----

  /** `v` has exactly `n` bits. */
  ghost predicate HasBits(v: nat, n: nat) {
    v < Pow2(n) && (n > 0 ==> Pow2(n - 1) <= v)
  }

  predicate TestBit(x: nat, k: nat) {
    PowPositive(2, k);
    x / Pow2(k) % 2 == 1
  }

  /** The inner loop of `bits`. */
  method LimbHeight(x: Limb) returns (k: nat)
    requires x != 0
    ensures 1 <= k <= 32 && HasBits(x, k)
  {
    hide *;
    var bit := 31;
    Bits32(x);
    while bit > 0
      invariant 0 <= bit <= 31 && x < Pow2(bit + 1)
    {
      BitTested(x, bit);
      if TestBit(x, bit) {
        return bit + 1;
      }
      bit := bit - 1;
    }
    LastBit(x);
    return 1;
  }

  lemma Bits32(x: Limb)
    ensures x < Pow2(32)
  {
    LimbBits();
  }

  lemma BitTested(x: nat, k: nat)
    requires x < Pow2(k + 1)
    ensures if TestBit(x, k) then HasBits(x, k + 1) else x < Pow2(k)
  {
    PowPositive(2, k);
    var p := Pow2(k);
    assert Pow2(k + 1) == 2 * p;
    DivGreatest(x, p, 1);
    DivGreatest(x, p, 2);
    hide Pow;
    assert x / p == 0 || x / p == 1;
  }

  lemma LastBit(x: nat)
    requires x != 0 && x < Pow2(1)
    ensures HasBits(x, 1)
  {
  }

  lemma NoBits()
    ensures HasBits(0, 0)
  {
  }

  /** The bits of the highest limb that is not zero, and all limbs below it. */
  lemma TopLimb(s: seq<Limb>, pos: nat, k: nat)
    requires pos < |s| && 1 <= k && HasBits(s[pos], k) && forall j :: pos < j < |s| ==> s[j] == 0
    ensures HasBits(Val(s), 32 * pos + k)
  {
    hide Val, Modulus, Pow;
    assert s == s[..pos + 1] + s[pos + 1..];
    ValAppend(s[..pos + 1], s[pos + 1..]);
    ValZeros(s[pos + 1..]);
    ValPush(s, pos);
    ValRange(s[..pos]);
    ShiftFactor(pos, k);
    ShiftFactor(pos, k - 1);
    HigherArithmetic(Modulus(pos), s[pos], Pow2(k));
    TopArithmetic(Modulus(pos), s[pos], Pow2(k), Pow2(k - 1));
  }

  lemma TopArithmetic(m: nat, x: nat, p: nat, q: nat)
    requires q <= x
    ensures q * m <= m * x && p * m == m * p
  {
    MulMonotone(q, x, m);
  }

  lemma BitsZero(v: nat, n: nat)
    requires HasBits(v, n)
    ensures n == 0 <==> v == 0
  {
    if n > 0 {
      PowPositive(2, n - 1);
    }
  }

  lemma FewerBits(v: nat, w: nat, n: nat, k: nat)
    requires HasBits(v, n) && HasBits(w, k) && n < k
    ensures w > 0 && v / w == 0
  {
    PowMonotone(2, n, k - 1);
    DivUnique(v, w, 0, v);
  }

  // ----- the division loop -----

  /** What is left of the dividend is below twice the shifted divisor, and the quotient has only higher bits. */
  ghost predicate DivideInv(N: nat, D: nat, q: nat, r: nat, shift: int) {
    && shift >= -1 && D > 0
    && N == q * D + r && r < D * Pow2(shift + 1)
    && MultipleOf(q, Pow2(shift + 1))
  }

  ghost predicate MultipleOf(q: nat, p: nat) {
    p > 0 && q % p == 0
  }

  lemma DivideStart(N: nat, D: nat, n: nat, d: nat, width: nat)
    requires HasBits(N, n) && HasBits(D, d) && 0 < d <= n <= 32 * width
    ensures DivideInv(N, D, 0, N, n - d)
    ensures D * Pow2(n - d) % Modulus(width) == D * Pow2(n - d)
  {
    hide Pow, Modulus;
    PowPositive(2, d - 1);
    PowPositive(2, n - d + 1);
    PowAdd(2, d - 1, n - d + 1);
    MulMonotone(Pow2(d - 1), D, Pow2(n - d + 1));
    Aligned(D, n, d, width);
  }

  lemma Aligned(D: nat, n: nat, d: nat, width: nat)
    requires HasBits(D, d) && 0 < d <= n <= 32 * width
    ensures D * Pow2(n - d) % Modulus(width) == D * Pow2(n - d)
  {
    hide Pow, Modulus;
    PowPositive(2, n - d);
    PowAdd(2, d, n - d);
    PowMonotone(2, n, 32 * width);
    ModulusIsPow2(width);
    HigherArithmetic(Pow2(n - d), D, Pow2(d));
    Commute(Pow2(n - d), D, Pow2(d));
    var x := D * Pow2(n - d);
    DivUnique(x, Modulus(width), 0, x);
  }

  lemma Commute(p: nat, x: nat, y: nat)
    ensures p * x == x * p && p * y == y * p
  {
  }

  /** One step, whether the shifted divisor fits or not. */
  lemma DivideStep(N: nat, D: nat, q: nat, r: nat, shift: nat)
    requires DivideInv(N, D, q, r, shift)
    ensures var t := D * Pow2(shift);
            if r >= t then DivideInv(N, D, q + Pow2(shift), r - t, shift - 1) else DivideInv(N, D, q, r, shift - 1)
  {
    PowPositive(2, shift);
    var p := Pow2(shift);
    assert Pow2(shift + 1) == 2 * p;
    hide Pow;
    HalfMultiple(q, p);
    DoubleProduct(D, p);
    if r >= D * p {
      assert (q + p) * D == q * D + D * p;
    }
  }

  lemma HalfMultiple(q: nat, p: nat)
    requires p > 0 && MultipleOf(q, 2 * p)
    ensures MultipleOf(q, p) && MultipleOf(q + p, p)
  {
    var h := q / (2 * p);
    assert q == h * (2 * p);
    assert h * (2 * p) == 2 * h * p;
    assert (2 * h + 1) * p == 2 * h * p + p;
    DivUnique(q, p, 2 * h, 0);
    DivUnique(q + p, p, 2 * h + 1, 0);
  }

  lemma DoubleProduct(d: nat, p: nat)
    ensures d * (2 * p) == d * p + d * p
  {
  }

  lemma HalvesBack(D: nat, shift: nat)
    ensures shift > 0 ==> D * Pow2(shift) / Pow2(1) == D * Pow2(shift - 1)
  {
    if shift > 0 {
      Doubled(D, shift);
    }
  }

  lemma InvMultiple(N: nat, D: nat, q: nat, r: nat, shift: nat)
    requires DivideInv(N, D, q, r, shift)
    ensures MultipleOf(q, Pow2(shift + 1))
  {
  }

  lemma DivideEnd(N: nat, D: nat, q: nat, r: nat)
    requires DivideInv(N, D, q, r, -1)
    ensures D > 0 && q == N / D
  {
    DivUnique(N, D, q, r);
  }

  lemma ValHead(s: seq<Limb>)
    requires s != []
    ensures Val(s) == s[0] + BASE * Val(s[1..])
  {
  }

  /** A limb of a number, by division. */
  lemma LimbAt(s: seq<Limb>, j: nat)
    requires j < |s|
    ensures s[j] == Val(s) / Modulus(j) % BASE
  {
    hide Val, Modulus;
    assert s == s[..j] + s[j..] && s[j..][1..] == s[j + 1..];
    ValAppend(s[..j], s[j..]);
    ValRange(s[..j]);
    var v := Val(s[j..]);
    ValHead(s[j..]);
    DivUnique(Val(s), Modulus(j), v, Val(s[..j]));
    DivUnique(v, BASE, Val(s[j + 1..]), s[j]);
  }

  lemma ValUpdate(s: seq<Limb>, j: nat, x: Limb, d: nat)
    requires j < |s| && x == s[j] + d
    ensures Val(s[j := x]) == Val(s) + Modulus(j) * d
  {
    var t := s[j := x];
    assert s == s[..j + 1] + s[j + 1..] && t == t[..j + 1] + t[j + 1..];
    assert t[j + 1..] == s[j + 1..] && t[..j] == s[..j];
    hide Val, Modulus;
    ValAppend(s[..j + 1], s[j + 1..]);
    ValAppend(t[..j + 1], t[j + 1..]);
    ValPush(s, j);
    ValPush(t, j);
    Spread(Modulus(j), s[j], d);
  }

  lemma Spread(m: nat, x: nat, d: nat)
    ensures m * (x + d) == m * x + m * d
  {
  }

  /** The limb of a multiple of a power of two is a multiple as well. */
  lemma LimbMultiple(s: seq<Limb>, j: nat, t: nat)
    requires j < |s| && t < 32 && MultipleOf(Val(s), Pow2(32 * j + t + 1))
    ensures Pow2(31 - t) > 0
    ensures var g := Val(s) / Pow2(32 * j + t + 1) % Pow2(31 - t);
            s[j] == g * Pow2(t + 1) && g * Pow2(t + 1) + Pow2(t + 1) <= BASE
  {
    hide Val, Modulus, Pow;
    var m, p, q := Modulus(j), Pow2(t + 1), Pow2(31 - t);
    ShiftFactor(j, t + 1);
    PowPositive(2, t + 1);
    PowPositive(2, 31 - t);
    PowAdd(2, 31 - t, t + 1);
    LimbBits();
    LimbAt(s, j);
    var h := Val(s) / (p * m);
    assert Val(s) == h * (p * m);
    assert h * (p * m) == h * p * m;
    DivUnique(Val(s), m, h * p, 0);
    LimbMultipleArithmetic(h, p, q);
  }

  lemma LimbMultipleArithmetic(h: nat, p: nat, q: nat)
    requires p > 0 && q > 0 && q * p == BASE
    ensures h * p % BASE == h % q * p && h % q * p + p <= BASE
  {
    var d, g := h / q, h % q;
    assert h == q * d + g;
    assert h * p == q * d * p + g * p;
    assert q * d * p == d * (q * p);
    MulMonotone(g + 1, q, p);
    assert (g + 1) * p == g * p + p;
    DivUnique(h * p, BASE, d, g * p);
  }

  /** The bit of the quotient that is set was not set, nor was any below it. */
  lemma SetsBit(s: seq<Limb>, shift: nat)
    requires shift < 32 * |s| && MultipleOf(Val(s), Pow2(shift + 1))
    ensures BitOr(s[shift / 32], Pow2(shift % 32)) < BASE
    ensures Val(s[shift / 32 := BitOr(s[shift / 32], Pow2(shift % 32))]) == Val(s) + Pow2(shift)
  {
    hide Val, Modulus, Pow, BitOr;
    var j, t := shift / 32, shift % 32;
    LimbMultiple(s, j, t);
    PowPositive(2, t);
    Pow2Unfold(t);
    BitOrIsSum(Pow2(t), Val(s) / Pow2(shift + 1) % Pow2(31 - t), t + 1);
    BitOrCommutes(s[j], Pow2(t));
    ValUpdate(s, j, BitOr(s[j], Pow2(t)), Pow2(t));
    ShiftFactor(j, t);
    Commute(Modulus(j), Pow2(t), 0);
  }

  // ----- multiplication -----

  lemma MultiplyStart(a: seq<Limb>, vb: nat)
    ensures Val(a[..0]) * vb == 0
  {
  }

  lemma MultiplyStep(before: nat, v: nat, a: seq<Limb>, j: nat, vb: nat, m: nat, lost: nat, more: nat)
    requires j < |a| && before + m * lost == Val(a[..j]) * vb && v + m * more == before + Modulus(j) * a[j] * vb
    ensures v + m * (lost + more) == Val(a[..j + 1]) * vb
  {
    hide Val, Modulus;
    ValPush(a, j);
    Distribute(m, lost, more, Val(a[..j]), Modulus(j) * a[j], vb);
  }

  lemma Distribute(m: nat, x: nat, y: nat, a: nat, b: nat, c: nat)
    ensures m * (x + y) == m * x + m * y && (a + b) * c == a * c + b * c
  {
  }

  /** The limbs of a row done so far: their sum, with the carry. */
  ghost predicate RowPart(r: seq<Limb>, s: seq<Limb>, b: seq<Limb>, x: nat, i: nat, j: nat, carry: nat) {
    && i + j <= |s| == |b| && |r| == i + j
    && Val(r) + Modulus(i + j) * carry == Val(s[..i + j]) + Modulus(j) * x * Val(b[..i])
  }

  lemma RowStart(s: seq<Limb>, b: seq<Limb>, x: nat, j: nat)
    requires j <= |s| == |b|
    ensures RowPart(s[..j], s, b, x, 0, j, 0)
  {
    assert b[..0] == [] && s[..0 + j] == s[..j];
  }

  function RowSum(carry: nat, y: nat, x: nat, z: nat): nat {
    carry + y + x * z
  }

  /** A row of zeros adds nothing. */
  lemma NoRow(x: Limb)
    ensures RowSum(0, 0, x, 0) == 0
  {
  }

  predicate IsZero(a: seq<Limb>) {
    forall i :: 0 <= i < |a| ==> a[i] == 0
  }

  lemma IsZeroIs(a: seq<Limb>)
    ensures IsZero(a) <==> forall i :: 0 <= i < |a| ==> a[i] == 0
    ensures IsZero(a) ==> Val(a) == 0
  {
    if IsZero(a) {
      ValZeros(a);
    }
  }

  lemma RowFits(carry: Limb, y: Limb, x: Limb, z: Limb)
    ensures RowSum(carry, y, x, z) < BASE * BASE && RowSum(carry, y, x, z) / BASE < BASE
  {
    MulMonotone(x, BASE - 1, z);
    var n := carry + y + x * z;
    assert n <= BASE * BASE - 1;
    DivGreatest(n, BASE, BASE);
  }

  lemma RowStep(r: seq<Limb>, s: seq<Limb>, b: seq<Limb>, x: Limb, i: nat, j: nat, carry: nat)
    requires i + j < |s| == |b| && RowPart(r, s, b, x, i, j, carry)
    ensures var n := RowSum(carry, s[i + j], x, b[i]);
            RowPart(r + [n % BASE], s, b, x, i + 1, j, n / BASE)
  {
    hide Val, Modulus;
    var n := RowSum(carry, s[i + j], x, b[i]);
    var more := r + [n % BASE];
    ValPush(s, i + j);
    ValPush(b, i);
    ValPush(more, i + j);
    assert more[..i + j] == r && more[..i + j + 1] == more;
    ModulusStep(i + j);
    ModulusSum(i, j);
    RowArithmetic(Val(r), Val(s[..i + j]), Val(b[..i]), Modulus(i), Modulus(j), carry, s[i + j], x, b[i]);
    assert s[..i + 1 + j] == s[..i + j + 1];
  }

  lemma ModulusSum(i: nat, j: nat)
    ensures Modulus(i + j) == Modulus(i) * Modulus(j)
  {
    PowAdd(BASE, i, j);
  }

  lemma RowArithmetic(v: nat, vs: nat, vb: nat, mi: nat, mj: nat, carry: nat, y: nat, x: nat, z: nat)
    requires v + mi * mj * carry == vs + mj * x * vb
    ensures var n := carry + y + x * z;
            v + mi * mj * (n % BASE) + BASE * (mi * mj) * (n / BASE) == vs + mi * mj * y + mj * x * (vb + mi * z)
  {
    var m := mi * mj;
    var n := carry + y + x * z;
    SplitAtBase(m, n);
    assert m * n == m * carry + m * y + m * (x * z);
    RowSpread(mj * x, vb, mi * z);
    RowProduct(mi, mj, x, z);
  }

  lemma RowProduct(mi: nat, mj: nat, x: nat, z: nat)
    ensures mj * x * (mi * z) == mi * mj * (x * z)
  {
  }

  lemma RowEnd(r: seq<Limb>, s: seq<Limb>, b: seq<Limb>, x: nat, j: nat, carry: nat) returns (lost: nat)
    requires j <= |s| == |b| && RowPart(r, s, b, x, |s| - j, j, carry)
    ensures Val(r) + Modulus(|b|) * lost == Val(s) + Modulus(j) * x * Val(b)
  {
    hide Val, Modulus;
    var k := |s| - j;
    assert s[..k + j] == s && b == b[..k] + b[k..];
    ValAppend(b[..k], b[k..]);
    ModulusSum(k, j);
    lost := carry + x * Val(b[k..]);
    RowProduct(Modulus(k), Modulus(j), x, Val(b[k..]));
    Distribute(Modulus(k) * Modulus(j), carry, x * Val(b[k..]), 0, 0, 0);
    RowSpread(Modulus(j) * x, Val(b[..k]), Modulus(k) * Val(b[k..]));
  }

  lemma RowSpread(m: nat, x: nat, y: nat)
    ensures m * (x + y) == m * x + m * y
  {
  }
}
