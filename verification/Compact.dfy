/**
 The compact form of a 256-bit target (`SetCompact` and `GetCompact` in
 src/arith_uint256.cpp) and the work that a target stands for (`GetBlockProof` in
 src/chain.cpp).
 */
module Compact {
  import opened Powers
  import opened Limbs
  import opened Shifts
  import opened BaseUint

  const WIDTH := 8

  /** A compact number: a size in bytes, a sign bit and a mantissa of 23 bits. */
  type Compact = c: int | 0 <= c < BASE

  function Size(c: Compact): nat {
    c / 0x100_0000
  }

  function Word(c: Compact): nat {
    c % 0x80_0000
  }

  predicate Sign(c: Compact) {
    c / 0x80_0000 % 2 == 1
  }

  function Bytes(k: nat): (p: nat)
    ensures p > 0
  {
    PowPositive(256, k);
    Pow(256, k)
  }

  /** The number that a compact form denotes, whatever its size. */
  function Target(c: Compact): nat {
    Denoted(Word(c), Size(c))
  }

  function Denoted(m: nat, k: nat): nat {
    if k <= 3 then m / Bytes(3 - k) else m * Bytes(k - 3)
  }

  lemma {:induction false} BytesArePowers(k: nat)
    ensures Bytes(k) == Pow2(8 * k)
  {
    if k > 0 {
      BytesArePowers(k - 1);
      PowAdd(2, 8, 8 * (k - 1));
    }
  }

  lemma BytesStep(k: nat)
    ensures Bytes(k + 1) == 256 * Bytes(k) && Bytes(0) == 1
  {
  }

  lemma ModulusIsBytes()
    ensures Modulus(WIDTH) == Bytes(32)
  {
    ModulusIsPow2(8);
    BytesArePowers(32);
  }

  // ----- decoding -----

  /** The overflow test of `SetCompact` is exact: it says when the number does not fit 256 bits. */
  predicate OverflowTest(size: nat, word: nat) {
    word != 0 && (size > 34 || (word > 0xFF && size > 33) || (word > 0xFFFF && size > 32))
  }

  lemma OverflowIsExact(size: nat, word: nat)
    requires size > 3 && word < 0x80_0000
    ensures OverflowTest(size, word) <==> word * Bytes(size - 3) >= Bytes(32)
  {
    hide Bytes;
    var p := Bytes(size - 3);
    BytesStep(31);
    BytesStep(30);
    BytesStep(29);
    if size > 34 {
      BytesMonotone(32, size - 3);
      if word != 0 {
        MulMonotone(1, word, p);
      }
    } else if size <= 32 {
      BytesMonotone(size - 3, 29);
      MulMonotone(word, 0x80_0000, p);
      assert 0x80_0000 * p <= 0x80_0000 * Bytes(29);
    }
  }

  lemma BytesMonotone(m: nat, n: nat)
    requires m <= n
    ensures Bytes(m) <= Bytes(n)
  {
    PowMonotone(256, m, n);
  }

  /** `*this = b` for a number below the base. */
  method SetWord(x: BaseUint, b: Limb)
    requires x.pn.Length == WIDTH
    modifies x.pn
    ensures x.Value() == b
  {
    x.Clear();
    x.pn[0] := b;
    assert x.pn[..] == [b] + x.pn[1..];
    ValZeros(x.pn[1..]);
    ValAppend([b], x.pn[1..]);
  }

  method SetCompact(x: BaseUint, c: Compact) returns (negative: bool, overflow: bool)
    requires x.pn.Length == WIDTH
    modifies x.pn
    ensures x.Value() == Target(c) % Bytes(32)
    ensures overflow <==> Target(c) >= Bytes(32)
    ensures negative <==> Target(c) != 0 && Sign(c)
  {
    hide Bytes, Modulus, Pow, Val;
    var size, word := c / 0x100_0000, c % 0x80_0000;
    ModulusIsBytes();
    if size <= 3 {
      ShiftedWord(word, size);
      word := word / Pow2(8 * (3 - size));
      SetWord(x, word);
    } else {
      SetWord(x, word);
      BytesArePowers(size - 3);
      x.ShiftLeft(8 * (size - 3));
      OverflowIsExact(size, word);
      NonZeroProduct(word, Bytes(size - 3));
    }
    negative := word != 0 && c / 0x80_0000 % 2 == 1;
    overflow := OverflowTest(size, word);
  }

  lemma ShiftedWord(word: nat, size: nat)
    requires word < 0x80_0000 && size <= 3
    ensures Pow2(8 * (3 - size)) == Bytes(3 - size)
    ensures var w := word / Bytes(3 - size); w <= word && w < Bytes(32) && w % Bytes(32) == w && !OverflowTest(size, w)
  {
    BytesArePowers(3 - size);
    BytesMonotone(3, 32);
    assert Bytes(3) == 0x100_0000 && Bytes(2) == 0x1_0000 && Bytes(1) == 256 && Bytes(0) == 1;
    hide Bytes;
    assert size == 0 || size == 1 || size == 2 || size == 3;
    var w := word / Bytes(3 - size);
    assert w <= word;
    DivUnique(w, Bytes(32), 0, w);
  }

  lemma NonZeroProduct(a: nat, b: nat)
    requires b > 0
    ensures a * b == 0 <==> a == 0
  {
    if a > 0 {
      MulMonotone(1, a, b);
    }
  }

  // ----- encoding -----

  /** `v` has exactly `k` bytes. */
  ghost predicate HasBytes(v: nat, k: nat) {
    v < Bytes(k) && (k > 0 ==> Bytes(k - 1) <= v)
  }

  lemma BytesFromBits(v: nat, n: nat)
    requires HasBits(v, n)
    ensures HasBytes(v, (n + 7) / 8)
  {
    var k := (n + 7) / 8;
    BytesArePowers(k);
    PowMonotone(2, n, 8 * k);
    if k > 0 {
      BytesArePowers(k - 1);
      PowMonotone(2, 8 * (k - 1), n - 1);
    }
  }

  /** The three highest bytes. */
  function TopBytes(v: nat, k: nat): nat {
    if k <= 3 then v * Bytes(3 - k) else v / Bytes(k - 3)
  }

  /** The compact form of a number of `k` bytes: the mantissa gives up a byte when its top bit would be the sign. */
  function CompactOf(v: nat, k: nat): (nat, nat) {
    var m := TopBytes(v, k);
    if m >= 0x80_0000 then (m / 256, k + 1) else (m, k)
  }

  lemma TopBytesRange(v: nat, k: nat)
    requires HasBytes(v, k)
    ensures TopBytes(v, k) < 0x100_0000
  {
    assert Bytes(3) == 0x100_0000 && Bytes(2) == 0x1_0000 && Bytes(1) == 256 && Bytes(0) == 1;
    if k > 3 {
      PowAdd(256, 3, k - 3);
      hide Bytes;
      DivGreatest(v, Bytes(k - 3), 0x100_0000);
    }
  }

  /** Encoding rounds down to the lowest byte that is kept. */
  lemma CompactRoundsDown(v: nat, k: nat)
    requires HasBytes(v, k)
    ensures var (m, j) := CompactOf(v, k);
            var unit := if j <= 3 then 1 else Bytes(j - 3);
            m < 0x80_0000 && Denoted(m, j) == v - v % unit
  {
    TopBytesRange(v, k);
    assert Bytes(3) == 0x100_0000 && Bytes(2) == 0x1_0000 && Bytes(1) == 256 && Bytes(0) == 1;
    if k > 3 {
      var p := Bytes(k - 3);
      BytesStep(k - 3);
      hide Bytes;
      RoundArithmetic(v, p);
    } else {
      hide Bytes;
      assert k == 0 || k == 1 || k == 2 || k == 3;
    }
  }

  lemma RoundArithmetic(v: nat, p: nat)
    requires p > 0
    ensures v / p * p == v - v % p && v / p / 256 == v / (256 * p) && v / (256 * p) * (256 * p) == v - v % (256 * p)
  {
    var q, r := v / p, v % p;
    var d, e := q / 256, q % 256;
    assert v == q * p + r;
    assert q == d * 256 + e;
    assert q * p == d * (256 * p) + e * p;
    MulMonotone(e + 1, 256, p);
    assert (e + 1) * p == e * p + p;
    DivUnique(v, 256 * p, d, e * p + r);
  }

  function Pack(m: nat, k: nat): Compact
    requires m < 0x80_0000 && k < 256
  {
    m + 0x100_0000 * k
  }

  lemma PackParts(m: nat, k: nat, sign: bool)
    requires m < 0x80_0000 && k < 256
    ensures var c: Compact := Pack(m, k) + if sign then 0x80_0000 else 0;
            Word(c) == m && Size(c) == k && Sign(c) == sign && Target(c) == Denoted(m, k)
  {
    hide Bytes;
    var c: Compact := Pack(m, k) + if sign then 0x80_0000 else 0;
    DivUnique(c, 0x100_0000, k, m + if sign then 0x80_0000 else 0);
    DivUnique(c, 0x80_0000, 2 * k + (if sign then 1 else 0), m);
  }

  /** A number that is not 0 keeps at least its 15 highest bits. */
  lemma CompactIsPrecise(v: nat, k: nat)
    requires HasBytes(v, k)
    ensures CompactOf(v, k).0 >= 0x8000 || v == 0
    ensures v == 0 ==> CompactOf(v, k).0 == 0
  {
    assert Bytes(3) == 0x100_0000 && Bytes(2) == 0x1_0000 && Bytes(1) == 256 && Bytes(0) == 1;
    if k > 3 {
      PowAdd(256, 2, k - 3);
      hide Bytes;
      DivGreatest(v, Bytes(k - 3), 0x1_0000);
    } else {
      hide Bytes;
      assert k == 0 || k == 1 || k == 2 || k == 3;
    }
  }

  /** Encoding what was decoded gives the same compact form: nothing more is lost the second time. */
  lemma CompactIsStable(v: nat, k: nat)
    requires HasBytes(v, k)
    ensures var (m, j) := CompactOf(v, k);
            var w := Denoted(m, j);
            HasBytes(w, k) && CompactOf(w, k) == (m, j)
  {
    CompactRoundsDown(v, k);
    TopBytesRange(v, k);
    assert Bytes(3) == 0x100_0000 && Bytes(2) == 0x1_0000 && Bytes(1) == 256 && Bytes(0) == 1;
    if k > 3 {
      BytesStep(k - 3);
      PowAdd(256, 2, k - 3);
      hide Bytes;
      StableArithmetic(v, Bytes(k - 3), v / Bytes(k - 3));
    } else {
      hide Bytes;
      assert k == 0 || k == 1 || k == 2 || k == 3;
    }
  }

  lemma StableArithmetic(v: nat, p: nat, m: nat)
    requires p > 0 && m == v / p && 0x1_0000 * p <= v
    ensures 0x1_0000 * p <= m * p <= v && m * p / p == m
    ensures var n := m / 256;
            0x1_0000 * p <= n * (256 * p) <= v && n * (256 * p) / p == n * 256
  {
    DivGreatest(v, p, 0x1_0000);
    DivGreatest(v, p, m);
    MulMonotone(0x1_0000, m, p);
    DivUnique(m * p, p, m, 0);
    var n := m / 256;
    assert n * 256 <= m && n >= 256;
    assert n * (256 * p) == n * 256 * p;
    MulMonotone(n * 256, m, p);
    MulMonotone(0x1_0000, n * 256, p);
    DivUnique(n * 256 * p, p, n * 256, 0);
  }

  // ----- which compact forms come back -----

  /** `c` is the compact form of `v`. */
  ghost predicate Encodes(c: Compact, v: nat, negative: bool) {
    exists k :: HasBytes(v, k) && CompactOf(v, k) == (Word(c), Size(c)) && (Sign(c) <==> negative && v != 0)
  }

  /** The mantissa is as far up as it can be without a set top bit, and has nothing below the last byte. */
  predicate NormalParts(word: nat, size: nat) {
    word >= 0x8000 && (size <= 3 ==> word % Bytes(3 - size) == 0)
  }

  predicate Normal(c: Compact) {
    c == 0 || NormalParts(Word(c), Size(c))
  }

  lemma HasBytesOnce(v: nat, j: nat, k: nat)
    requires HasBytes(v, j) && HasBytes(v, k)
    ensures j == k
  {
    hide Bytes;
    if j < k {
      BytesMonotone(j, k - 1);
      assert false;
    } else if k < j {
      BytesMonotone(k, j - 1);
      assert false;
    }
  }

  lemma SmallBytes()
    ensures Bytes(0) == 1 && Bytes(1) == 256 && Bytes(2) == 0x1_0000 && Bytes(3) == 0x100_0000
  {
  }

  lemma Multiple(w: nat, p: nat)
    requires p > 0
    ensures w * p / p == w && w * p % p == 0
  {
    DivUnique(w * p, p, w, 0);
  }

  /** A normal mantissa of a large number has two or three bytes. */
  lemma LargeNormal(word: nat, size: nat, k: nat)
    requires 0x8000 <= word < 0x80_0000 && size > 3 && HasBytes(word * Bytes(size - 3), k)
    ensures CompactOf(word * Bytes(size - 3), k) == (word, size)
  {
    var p, q := Bytes(size - 3), Bytes(size - 4);
    SmallBytes();
    BytesStep(size - 4);
    BytesStep(size - 3);
    BytesStep(size - 2);
    BytesStep(size - 1);
    hide Bytes;
    Multiple(word, p);
    if word >= 0x1_0000 {
      MulMonotone(0x1_0000, word, p);
      MulMonotone(word, 0x80_0000, p);
      HasBytesOnce(word * p, size, k);
    } else {
      MulMonotone(0x8000, word, p);
      MulMonotone(word, 0xFFFF, p);
      HasBytesOnce(word * p, size - 1, k);
      Multiple(word * 256, q);
      assert word * p == word * 256 * q;
    }
  }

  lemma SmallNormal(word: nat, size: nat, k: nat)
    requires word < 0x80_0000 && size <= 3 && NormalParts(word, size) && HasBytes(word / Bytes(3 - size), k)
    ensures CompactOf(word / Bytes(3 - size), k) == (word, size)
  {
    SmallBytes();
    hide Bytes;
    var v := word / Bytes(3 - size);
    if size == 0 {
      assert false;
    } else if size == 1 {
      HasBytesOnce(v, 1, k);
    } else if word >= 0x1_0000 {
      HasBytesOnce(v, size, k);
    } else {
      HasBytesOnce(v, size - 1, k);
    }
  }

  /** What the encoding of a number that is not 0 looks like. */
  lemma EncodedIsNormal(v: nat, k: nat)
    requires HasBytes(v, k) && v != 0
    ensures NormalParts(CompactOf(v, k).0, CompactOf(v, k).1)
  {
    CompactIsPrecise(v, k);
    SmallBytes();
    hide Bytes;
    if k <= 3 {
      assert k == 0 || k == 1 || k == 2 || k == 3;
    }
  }

  lemma PartsDecide(c: Compact, d: Compact)
    requires Word(c) == Word(d) && Size(c) == Size(d) && Sign(c) == Sign(d)
    ensures c == d
  {
  }

  lemma ZeroTarget(c: Compact)
    requires Normal(c)
    ensures Target(c) == 0 <==> c == 0
  {
    SmallBytes();
    hide Bytes;
    if c != 0 && Size(c) > 3 {
      NonZeroProduct(Word(c), Bytes(Size(c) - 3));
    }
  }

  lemma ZeroCompact(k: nat)
    requires HasBytes(0, k)
    ensures CompactOf(0, k) == (0, 0)
  {
    SmallBytes();
    hide Bytes;
    HasBytesOnce(0, 0, k);
  }

  /** Encoding what was decoded gives the compact form back exactly when that form was a normal one. */
  lemma RecodesExactly(c: Compact, d: Compact)
    requires Encodes(d, Target(c), Target(c) != 0 && Sign(c))
    ensures d == c <==> Normal(c)
  {
    hide Bytes, HasBytes, CompactOf, NormalParts;
    var v := Target(c);
    var k :| HasBytes(v, k) && CompactOf(v, k) == (Word(d), Size(d)) && (Sign(d) <==> v != 0 && Sign(c));
    if v == 0 {
      ZeroCompact(k);
      PartsDecide(d, 0);
      if Normal(c) {
        ZeroTarget(c);
      }
    } else {
      EncodedIsNormal(v, k);
      if Normal(c) {
        NormalComesBack(c, k);
        PartsDecide(c, d);
      }
    }
  }

  lemma NormalComesBack(c: Compact, k: nat)
    requires Normal(c) && HasBytes(Target(c), k) && Target(c) != 0
    ensures CompactOf(Target(c), k) == (Word(c), Size(c))
  {
    hide Bytes, HasBytes, CompactOf;
    ZeroTarget(c);
    if Size(c) <= 3 {
      SmallNormal(Word(c), Size(c), k);
    } else {
      LargeNormal(Word(c), Size(c), k);
    }
  }

  /** `GetLow64`, cut to 32 bits, of a number below 2^32. */
  lemma LowWord(x: seq<Limb>)
    requires |x| == WIDTH && Val(x) < BASE
    ensures x[0] == Val(x)
  {
    LimbAt(x, 0);
    ModulusStep(0);
  }

  /** `GetCompact`: the number rounded down to the bytes that the mantissa keeps. */
  method GetCompact(x: BaseUint, negative: bool) returns (c: Compact)
    requires x.pn.Length == WIDTH
    ensures var unit := if Size(c) <= 3 then 1 else Bytes(Size(c) - 3);
            Target(c) == x.Value() - x.Value() % unit
    ensures x.Value() != 0 ==> Word(c) >= 0x8000
    ensures Sign(c) <==> negative && x.Value() != 0
    ensures Encodes(c, x.Value(), negative)
  {
    hide *;
    WidthIsEight();
    ghost var v := x.Value();
    var bits := x.Bits();
    var size := (bits + 7) / 8;
    ghost var k := size;
    BytesFromBits(v, bits);
    CompactMade(v, k, negative);
    var m := Mantissa(x, size);
    if m >= 0x80_0000 {
      m := m / 256;
      size := size + 1;
    }
    c := m + 0x100_0000 * size + if negative && m != 0 then 0x80_0000 else 0;
  }

  lemma WidthIsEight()
    ensures WIDTH == 8 && BASE == 0x1_0000_0000
  {
  }

  /** What the result of `GetCompact` denotes, from the mantissa and the size it is made of. */
  lemma CompactMade(v: nat, k: nat, negative: bool)
    requires HasBytes(v, k) && k <= 32
    ensures var top := TopBytes(v, k);
            var m, j := if top >= 0x80_0000 then top / 256 else top, if top >= 0x80_0000 then k + 1 else k;
            m < 0x80_0000 &&
            var c: Compact := m + 0x100_0000 * j + if negative && m != 0 then 0x80_0000 else 0;
            var unit := if Size(c) <= 3 then 1 else Bytes(Size(c) - 3);
            Target(c) == v - v % unit && (v != 0 ==> Word(c) >= 0x8000) && (Sign(c) <==> negative && v != 0) &&
            Encodes(c, v, negative)
  {
    hide Bytes, Pow, Target, Denoted, TopBytes, Word, Size, Sign, HasBytes;
    CompactRoundsDown(v, k);
    CompactIsPrecise(v, k);
    var (m, j) := CompactOf(v, k);
    PackParts(m, j, negative && m != 0);
  }

  /** The three highest bytes, from the number itself or from a shifted copy. */
  method Mantissa(x: BaseUint, size: nat) returns (m: nat)
    requires x.pn.Length == WIDTH && size <= 32 && HasBytes(x.Value(), size)
    ensures m == TopBytes(x.Value(), size)
  {
    hide Bytes, Pow, Modulus, Val;
    TopBytesRange(x.Value(), size);
    if size <= 3 {
      SmallValue(x.Value(), size);
      LowWord(x.pn[..]);
      BytesArePowers(3 - size);
      m := x.pn[0] * Pow2(8 * (3 - size));
    } else {
      var bn := new BaseUint(WIDTH);
      bn.Copy(x.pn[..]);
      BytesArePowers(size - 3);
      bn.ShiftRight(8 * (size - 3));
      LowWord(bn.pn[..]);
      m := bn.pn[0];
    }
  }

  lemma SmallValue(v: nat, k: nat)
    requires k <= 3 && HasBytes(v, k)
    ensures v < BASE
  {
    assert Bytes(3) == 0x100_0000 && Bytes(2) == 0x1_0000 && Bytes(1) == 256 && Bytes(0) == 1;
  }

  /** Decoding and encoding again, as the code does it. */
  method Recode(c: Compact) returns (d: Compact, overflow: bool)
    ensures overflow <==> Target(c) >= Bytes(32)
    ensures !overflow ==> (d == c <==> Normal(c))
  {
    hide *;
    WidthIsEight();
    var x := new BaseUint(WIDTH);
    var negative;
    negative, overflow := SetCompact(x, c);
    d := GetCompact(x, negative);
    if !overflow {
      SmallRemainder(Target(c), Bytes(32));
      RecodesExactly(c, d);
    }
  }

  // ----- work -----

  lemma SmallTarget(c: Compact)
    requires Size(c) <= 3
    ensures Target(c) + 1 < Bytes(32)
  {
    ShiftedWord(Word(c), Size(c));
    BytesMonotone(3, 32);
    SmallBytes();
  }

  lemma NextMultiple(v: nat, m: nat)
    requires v % 256 == 0 && m % 256 == 0 && v < m
    ensures v + 1 < m
  {
  }

  lemma LargeTarget(c: Compact)
    requires Size(c) > 3
    ensures Target(c) % 256 == 0
  {
    assert Target(c) == Word(c) * Bytes(Size(c) - 3);
    hide Bytes, Target, Word, Size;
    BytesStep(Size(c) - 4);
    EvenProduct(Word(c), Bytes(Size(c) - 4));
  }

  lemma LimitIsEven()
    ensures Bytes(32) % 256 == 0
  {
    hide Bytes;
    BytesStep(31);
    EvenProduct(1, Bytes(31));
  }

  /** A decoded target is never the highest number, so adding one to it does not wrap. */
  lemma TargetPlusOneFits(c: Compact)
    requires Target(c) < Bytes(32)
    ensures Target(c) + 1 < Bytes(32)
  {
    hide *;
    if Size(c) <= 3 {
      SmallTarget(c);
    } else {
      LargeTarget(c);
      LimitIsEven();
      NextMultiple(Target(c), Bytes(32));
    }
  }

  lemma EvenProduct(w: nat, p: nat)
    ensures w * (256 * p) % 256 == 0
  {
    assert w * (256 * p) == w * p * 256;
  }

  /** The work of a target: how many hashes are expected to meet it, 0 for a compact form that is not valid. */
  function Work(c: Compact): nat {
    if Target(c) == 0 || Target(c) >= Bytes(32) || Sign(c) then 0 else Bytes(32) / (Target(c) + 1)
  }

  lemma WorkArithmetic(t: nat, max: nat)
    requires 0 < t && t + 1 < max
    ensures (max - 1 - t) / (t + 1) + 1 == max / (t + 1) < max
  {
    var d := t + 1;
    var q, r := (max - d) / d, (max - d) % d;
    assert max - d == q * d + r;
    assert (q + 1) * d == q * d + d;
    DivUnique(max, d, q + 1, r);
    MulMonotone(2, d, q + 1);
  }

  function One(): seq<Limb> {
    [1, 0, 0, 0, 0, 0, 0, 0]
  }

  lemma OneIsOne()
    ensures |One()| == WIDTH && Val(One()) == 1
  {
    var zeros := One()[1..];
    ValZeros(zeros);
    assert One() == [1] + zeros;
    hide One;
    ValAppend([1], zeros);
  }

  method IsZero(x: BaseUint) returns (r: bool)
    ensures r <==> x.Value() == 0
  {
    var i := x.pn.Length;
    while i > 0
      invariant 0 <= i <= x.pn.Length && forall j :: i <= j < x.pn.Length ==> x.pn[j] == 0
    {
      i := i - 1;
      if x.pn[i] != 0 {
        NotZero(x.pn[..], i);
        return false;
      }
    }
    ValZeros(x.pn[..]);
    return true;
  }

  lemma NotZero(s: seq<Limb>, i: nat)
    requires i < |s| && s[i] != 0
    ensures Val(s) != 0
  {
    LimbAt(s, i);
    hide Val, Modulus;
    DivUnique(0, Modulus(i), 0, 0);
  }

  /** `GetBlockProof`: 2^256 / (target + 1), without ever holding 2^256. */
  method GetBlockProof(c: Compact) returns (work: BaseUint)
    ensures fresh(work) && fresh(work.pn) && work.pn.Length == WIDTH && work.Value() == Work(c)
  {
    hide *;
    WidthIsEight();
    var target := new BaseUint(WIDTH);
    var negative, overflow := SetCompact(target, c);
    work := new BaseUint(WIDTH);
    WorkIs(c);
    if overflow {
      return;
    }
    SmallRemainder(Target(c), Bytes(32));
    var zero := IsZero(target);
    if negative || zero {
      return;
    }
    TargetPlusOneFits(c);
    WorkArithmetic(Target(c), Bytes(32));
    ModulusIsBytes();
    QuotientPlusOne(target, work);
  }

  /** `(~t / (t + 1)) + 1`, which is `2^256 / (t + 1)`. */
  method QuotientPlusOne(target: BaseUint, work: BaseUint)
    requires target.pn.Length == work.pn.Length == WIDTH && target.pn != work.pn
    requires var max, t := Modulus(WIDTH), target.Value();
             t + 1 < max && (max - 1 - t) / (t + 1) + 1 == max / (t + 1) < max
    modifies work.pn
    ensures work.Value() == Modulus(WIDTH) / (target.Value() + 1)
  {
    hide *;
    WidthIsEight();
    OneIsOne();
    ghost var max, t := Modulus(WIDTH), target.Value();
    work.Complement(target.pn[..]);
    target.ValueIs();
    var next := new BaseUint(WIDTH);
    next.Copy(target.pn[..]);
    next.Add(One());
    next.ValueIs();
    SmallRemainder(t + 1, max);
    var ok := work.Divide(next.pn[..]);
    work.Add(One());
    work.ValueIs();
    SmallRemainder(max / (t + 1), max);
  }

  lemma WorkIs(c: Compact)
    ensures Work(c) == if Target(c) == 0 || Target(c) >= Bytes(32) || Sign(c) then 0 else Bytes(32) / (Target(c) + 1)
  {
  }
}
