/** `CCoins::CalcMaskSize`, `Serialize` and `Unserialize` as loops, proved against `CoinsCodec`. */
module CoinsRecord {
  import opened VarInt
  import opened Coins
  import opened ScriptCodec
  import opened CoinsCodec
  import opened Powers

  /** The flags from mask byte `b` on. */
  function Tail(flags: seq<bool>, b: nat): seq<bool> {
    if 8 * b <= |flags| then flags[8 * b..] else []
  }

  lemma TailStep(flags: seq<bool>, b: nat)
    ensures AfterOctet(Tail(flags, b)) == Tail(flags, b + 1)
    ensures Tail(flags, 0) == flags
  {
  }

  lemma MaskStep(flags: seq<bool>)
    ensures var more := AfterOctet(flags);
            (true in flags <==> true in Octet(flags) || true in more) &&
            NonZero(MaskBytes(flags)) == (if true in Octet(flags) then 1 else 0) + NonZero(MaskBytes(more)) &&
            |MaskBytes(flags)| == (if true in flags then 1 + |MaskBytes(more)| else 0)
  {
    OctetShape(flags);
    if true in flags {
      MaskShape(flags);
      hide NonZero;
    } else {
      assert true !in AfterOctet(flags);
    }
  }

  lemma OctetAt(vout: seq<TxOut>, b: nat, c: Coins, i: nat)
    requires vout == c.vout && 2 + b * 8 < |vout| && i < 8
    ensures var g := Octet(Tail(MaskFlags(c), b));
            (i < |g| <==> 2 + b * 8 + i < |vout|) && (i < |g| ==> g[i] == !vout[2 + b * 8 + i].IsNull())
  {
  }

  lemma MemberOfPrefix(g: seq<bool>, i: nat)
    requires i < |g|
    ensures true in g[..i + 1] <==> g[i] || true in g[..i]
  {
    assert g[..i + 1] == g[..i] + [g[i]];
  }

  method CalcMaskSize(c: Coins) returns (bytes: nat, nonZero: nat)
    ensures bytes == |MaskBytes(MaskFlags(c))| && nonZero == NonZero(MaskBytes(MaskFlags(c)))
  {
    hide *;
    ghost var flags := MaskFlags(c);
    var b: nat, lastUsed: nat := 0, 0;
    nonZero := 0;
    TailStep(flags, 0);
    MaskStep(flags);
    while 2 + b * 8 < |c.vout|
      invariant NonZero(MaskBytes(flags)) == nonZero + NonZero(MaskBytes(Tail(flags, b)))
      invariant |MaskBytes(flags)| == if true in Tail(flags, b) then b + |MaskBytes(Tail(flags, b))| else lastUsed
    {
      var zero := OctetIsZero(c, b);
      TailStep(flags, b);
      MaskStep(Tail(flags, b));
      MaskStep(Tail(flags, b + 1));
      if !zero {
        lastUsed := b + 1;
        nonZero := nonZero + 1;
      }
      b := b + 1;
    }
    NothingLeft(c, b);
    bytes := lastUsed;
  }

  lemma NothingLeft(c: Coins, b: nat)
    requires 2 + b * 8 >= |c.vout|
    ensures Tail(MaskFlags(c), b) == [] && NonZero(MaskBytes(Tail(MaskFlags(c), b))) == 0
  {
    assert |MaskFlags(c)| <= b * 8;
  }

  method OctetIsZero(c: Coins, b: nat) returns (zero: bool)
    requires 2 + b * 8 < |c.vout|
    ensures zero <==> true !in Octet(Tail(MaskFlags(c), b))
  {
    hide *;
    ghost var g := Octet(Tail(MaskFlags(c), b));
    zero := true;
    var i := 0;
    OctetAt(c.vout, b, c, 0);
    OctetAt(c.vout, b, c, 7);
    OctetSize(Tail(MaskFlags(c), b));
    while i < 8 && 2 + b * 8 + i < |c.vout|
      invariant i <= |g| && (zero <==> true !in g[..i])
    {
      OctetAt(c.vout, b, c, i);
      MemberOfPrefix(g, i);
      if !c.vout[2 + b * 8 + i].IsNull() {
        zero := false;
      }
      i := i + 1;
    }
    if i < 8 {
      OctetAt(c.vout, b, c, i);
    }
    assert g[..i] == g;
  }

  lemma OctetSize(flags: seq<bool>)
    ensures |Octet(flags)| <= 8
  {
  }

  // ----- writing -----

  lemma {:induction false} PackStep(flags: seq<bool>, f: bool)
    ensures PackByte(flags + [f]) == PackByte(flags) + if f then Pow2(|flags|) else 0
  {
    if flags != [] {
      assert (flags + [f])[1..] == flags[1..] + [f];
      PackStep(flags[1..], f);
    }
  }

  /** One byte of the mask: setting a bit that is not set adds its power of two. */
  method MaskByte(c: Coins, b: nat) returns (avail: Byte)
    requires 2 + b * 8 < |c.vout|
    ensures avail == OctetByte(Tail(MaskFlags(c), b))
  {
    hide *;
    ghost var g := Octet(Tail(MaskFlags(c), b));
    var sum: nat, power: nat, i := 0, 1, 0;
    OctetSize(Tail(MaskFlags(c), b));
    EmptyPack();
    OctetAt(c.vout, b, c, 0);
    while i < 8 && 2 + b * 8 + i < |c.vout|
      invariant 0 <= i <= |g| && sum == PackByte(g[..i]) && power == Pow2(i)
    {
      OctetAt(c.vout, b, c, i);
      PackStep(g[..i], g[i]);
      assert g[..i + 1] == g[..i] + [g[i]];
      if !c.vout[2 + b * 8 + i].IsNull() {
        sum := sum + power;
      }
      Pow2Unfold(i);
      power := power * 2;
      i := i + 1;
    }
    if i < 8 {
      OctetAt(c.vout, b, c, i);
    }
    assert g[..i] == g;
    OctetByteIs(Tail(MaskFlags(c), b));
    avail := sum;
  }

  lemma EmptyPack()
    ensures PackByte([]) == 0 && Pow2(0) == 1
  {
  }

  lemma OctetByteIs(flags: seq<bool>)
    ensures OctetByte(flags) == PackByte(Octet(flags)) < 256
  {
    var b: Byte := OctetByte(flags);
  }

  method WriteMask(c: Coins, size: nat) returns (out: Bytes)
    requires size == |MaskBytes(MaskFlags(c))|
    ensures out == MaskBytes(MaskFlags(c))
  {
    hide *;
    ghost var flags := MaskFlags(c);
    out := [];
    var b := 0;
    TailStep(flags, 0);
    while b < size
      invariant 0 <= b <= size && |out| == b && out + MaskBytes(Tail(flags, b)) == MaskBytes(flags)
    {
      MoreMask(c, b);
      TailStep(flags, b);
      var avail := MaskByte(c, b);
      out := out + [avail];
      b := b + 1;
    }
  }

  lemma MoreMask(c: Coins, b: nat)
    requires MaskBytes(Tail(MaskFlags(c), b)) != []
    ensures 2 + b * 8 < |c.vout|
    ensures var t := Tail(MaskFlags(c), b); MaskBytes(t) == [OctetByte(t)] + MaskBytes(AfterOctet(t))
  {
    hide OctetByte;
    var t := Tail(MaskFlags(c), b);
    assert true in t;
    assert |MaskFlags(c)| <= |c.vout|;
  }

  lemma WriteOutputsStep(K: Curve, vout: seq<TxOut>, i: nat)
    requires i < |vout|
    ensures WriteOutputs(K, vout[i..])
         == (if vout[i].IsNull() then [] else WriteOutput(K, vout[i])) + WriteOutputs(K, vout[i + 1..])
  {
    hide WriteOutput;
    assert vout[i..][1..] == vout[i + 1..];
  }

  lemma NoOutputs(K: Curve, vout: seq<TxOut>)
    requires vout == []
    ensures WriteOutputs(K, vout) == []
  {
  }

  method WriteUnspent(K: Curve, vout: seq<TxOut>) returns (out: Bytes)
    ensures out == WriteOutputs(K, vout)
  {
    hide WriteOutput, WriteOutputs, TxOut.IsNull;
    out := [];
    var i := 0;
    assert vout[0..] == vout;
    while i < |vout|
      invariant 0 <= i <= |vout| && WriteOutputs(K, vout) == out + WriteOutputs(K, vout[i..])
    {
      WriteOutputsStep(K, vout, i);
      ghost var before, more := out, WriteOutputs(K, vout[i + 1..]);
      if !vout[i].IsNull() {
        out := out + WriteOutput(K, vout[i]);
        assert before + (WriteOutput(K, vout[i]) + more) == out + more;
      }
      i := i + 1;
    }
    NoOutputs(K, vout[i..]);
  }

  /** `CCoins::Serialize`; the fields are as wide as in the class. */
  method Serialize(K: Curve, c: Coins) returns (out: Bytes)
    requires !IsPruned(c) && Wide(c)
    ensures out == CoinsCodec.Serialize(K, c)
  {
    hide *;
    SerializeIs(K, c);
    MaskNeeded(c);
    FirstTwo(c);
    var maskSize, maskCode := CalcMaskSize(c);
    var first := |c.vout| > 0 && !c.vout[0].IsNull();
    var second := |c.vout| > 1 && !c.vout[1].IsNull();
    var code := 8 * (maskCode - if first || second then 0 else 1) + (if c.fCoinBase then 1 else 0)
      + (if first then 2 else 0) + if second then 4 else 0;
    CodeIs(c);
    WideFields(c);
    CodeFits(c);
    Pow2Of32();
    out := VarInt.Write(c.nVersion, 32);
    var header := VarInt.Write(code, 32);
    var mask := WriteMask(c, maskSize);
    var outputs := WriteUnspent(K, c.vout);
    var height := VarInt.Write(c.nHeight, 32);
    out := out + header + mask + outputs + height;
  }

  lemma FirstTwo(c: Coins)
    ensures IsAvailable(c, 0) <==> |c.vout| > 0 && !c.vout[0].IsNull()
    ensures IsAvailable(c, 1) <==> |c.vout| > 1 && !c.vout[1].IsNull()
  {
  }

  lemma CodeIs(c: Coins)
    requires !IsPruned(c)
    ensures var first, second := IsAvailable(c, 0), IsAvailable(c, 1);
            Code(c) == 8 * (NonZero(MaskBytes(MaskFlags(c))) - if first || second then 0 else 1)
              + (if c.fCoinBase then 1 else 0) + (if first then 2 else 0) + if second then 4 else 0
  {
  }

  // ----- reading -----

  /** What a parse of the rest gives once `done` came before it. */
  function Prepend<T>(done: seq<T>, p: Parse<seq<T>>): Parse<seq<T>> {
    if p.Fail? then Fail else Done(done + p.value, p.rest)
  }

  lemma PrependNothing<T>(p: Parse<seq<T>>)
    ensures Prepend([], p) == p
  {
    if p.Done? {
      assert [] + p.value == p.value;
    }
  }

  method Bits(avail: Byte) returns (flags: seq<bool>)
    ensures flags == UnpackBits(avail, 8)
  {
    flags := [];
    var b: nat, p := avail, 0;
    while p < 8
      invariant 0 <= p <= 8 && flags + UnpackBits(b, 8 - p) == UnpackBits(avail, 8)
    {
      UnpackStep(b, 8 - p);
      flags := flags + [b % 2 == 1];
      b := b / 2;
      p := p + 1;
    }
  }

  method ReadMaskBytes(code: nat, s: Bytes) returns (r: Parse<seq<bool>>)
    ensures r == ReadMask(code, s)
  {
    var n, t, flags := code, s, [];
    PrependNothing(ReadMask(n, t));
    while n > 0
      invariant Prepend(flags, ReadMask(n, t)) == ReadMask(code, s)
      decreases |t|
    {
      if t == [] {
        return Fail;
      }
      ReadMaskStep(n, t);
      var more := Bits(t[0]);
      hide UnpackBits, ReadMask;
      Prepended(flags, more, ReadMask(if t[0] != 0 then n - 1 else n, t[1..]));
      flags := flags + more;
      n := if t[0] != 0 then n - 1 else n;
      t := t[1..];
    }
    assert flags + [] == flags;
    r := Done(flags, t);
  }

  lemma Prepended<T>(a: seq<T>, b: seq<T>, p: Parse<seq<T>>)
    ensures Prepend(a, Prepend(b, p)) == Prepend(a + b, p)
  {
    if p.Done? {
      assert a + (b + p.value) == a + b + p.value;
    }
  }

  lemma ReadOutputsStep(K: Curve, avail: seq<bool>, i: nat, s: Bytes)
    requires i < |avail|
    ensures var one := if avail[i] then ReadOutput(K, s) else Done(NULL_OUT, s);
            ReadOutputs(K, avail[i..], s) ==
              if one.Fail? then Fail else Prepend([one.value], ReadOutputs(K, avail[i + 1..], one.rest))
  {
    hide ReadOutput;
    assert avail[i..][1..] == avail[i + 1..];
  }

  method ReadUnspent(K: Curve, avail: seq<bool>, s: Bytes) returns (r: Parse<seq<TxOut>>)
    ensures r == ReadOutputs(K, avail, s)
  {
    hide ReadOutput;
    var vout, t, i := [], s, 0;
    assert avail[0..] == avail;
    PrependNothing(ReadOutputs(K, avail, t));
    while i < |avail|
      invariant 0 <= i <= |avail| && Prepend(vout, ReadOutputs(K, avail[i..], t)) == ReadOutputs(K, avail, s)
    {
      hide ReadOutputs;
      ReadOutputsStep(K, avail, i, t);
      var one := if avail[i] then ReadOutput(K, t) else Done(NULL_OUT, t);
      if one.Fail? {
        return Fail;
      }
      Prepended(vout, [one.value], ReadOutputs(K, avail[i + 1..], one.rest));
      vout := vout + [one.value];
      t := one.rest;
      i := i + 1;
    }
    assert vout + [] == vout;
    r := Done(vout, t);
  }

  /** `CCoins::Unserialize`. */
  method Unserialize(K: Curve, s: Bytes) returns (r: Parse<Coins>)
    ensures r == CoinsCodec.Unserialize(K, s)
  {
    hide Cut, Decode, ReadMask, ReadOutputs, Trim, MaskCode, FirstFlags;
    var version := VarInt.Read(s, 32);
    if version.Fail? {
      return Fail;
    }
    var code := VarInt.Read(version.rest, 32);
    if code.Fail? {
      return Fail;
    }
    var flags := ReadMaskBytes(MaskCode(code.value), code.rest);
    if flags.Fail? {
      return Fail;
    }
    var vout := ReadUnspent(K, FirstFlags(code.value) + flags.value, flags.rest);
    if vout.Fail? {
      return Fail;
    }
    var height := VarInt.Read(vout.rest, 32);
    if height.Fail? {
      return Fail;
    }
    var c := Cleanup(Coins(code.value % 2 == 1, vout.value, Int32(height.value), Int32(version.value)));
    r := Done(c, height.rest);
  }
}
