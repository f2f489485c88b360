/**
 The chainstate record of a transaction's unspent outputs (`CCoins::Serialize` and
 `Unserialize` in src/coins.h): a version; a code that holds the coinbase flag, whether
 outputs 0 and 1 are unspent and how many bytes of the mask are not zero; the mask of
 the other outputs, up to its last byte that is not zero; the unspent outputs; a height.
 */
module CoinsCodec {
  import opened VarInt
  import opened Coins
  import opened ScriptCodec
  import opened Powers
  import Amount
  import AmountExact

  // ----- the mask -----

  /** Up to eight flags as one number, least significant first. */
  function PackByte(flags: seq<bool>): nat {
    if flags == [] then 0 else (if flags[0] then 1 else 0) + 2 * PackByte(flags[1..])
  }

  /** The lowest `k` bits of a number. */
  function UnpackBits(b: nat, k: nat): seq<bool>
    decreases k
  {
    if k == 0 then [] else [b % 2 == 1] + UnpackBits(b / 2, k - 1)
  }

  function Falses(k: nat): seq<bool> {
    seq(k, i => false)
  }

  lemma {:induction false} PackByteRange(flags: seq<bool>)
    ensures PackByte(flags) < Pow2(|flags|)
    ensures PackByte(flags) == 0 <==> true !in flags
  {
    if flags != [] {
      PackByteRange(flags[1..]);
      assert flags == [flags[0]] + flags[1..];
    }
  }

  lemma {:induction false} UnpackZero(k: nat)
    ensures UnpackBits(0, k) == Falses(k)
  {
    if k > 0 {
      UnpackZero(k - 1);
      assert [false] + Falses(k - 1) == Falses(k);
    }
  }

  lemma {:induction false} UnpackPacked(flags: seq<bool>, k: nat)
    requires |flags| <= k
    ensures UnpackBits(PackByte(flags), k) == flags + Falses(k - |flags|)
    decreases k
  {
    if flags == [] {
      UnpackZero(k);
      assert [] + Falses(k) == Falses(k);
    } else {
      var b, more := PackByte(flags), flags[1..];
      assert b / 2 == PackByte(more) && (b % 2 == 1) == flags[0];
      UnpackPacked(more, k - 1);
      hide *;
      assert flags == [flags[0]] + more;
      UnpackStep(b, k);
      assert [flags[0]] + (more + Falses(k - |flags|)) == flags + Falses(k - |flags|);
    }
  }

  lemma UnpackStep(b: nat, k: nat)
    requires k > 0
    ensures UnpackBits(b, k) == [b % 2 == 1] + UnpackBits(b / 2, k - 1)
  {
  }

  /** The flags of one mask byte: eight of them, fewer at the end. */
  function Octet(flags: seq<bool>): seq<bool> {
    if |flags| <= 8 then flags else flags[..8]
  }

  function AfterOctet(flags: seq<bool>): seq<bool> {
    if |flags| <= 8 then [] else flags[8..]
  }

  function OctetByte(flags: seq<bool>): Byte {
    PackByteRange(Octet(flags));
    PowMonotone(2, |Octet(flags)|, 8);
    PackByte(Octet(flags))
  }

  /** The mask bytes up to the last one that is not zero. */
  function MaskBytes(flags: seq<bool>): Bytes
    decreases |flags|
  {
    if true !in flags then [] else [OctetByte(flags)] + MaskBytes(AfterOctet(flags))
  }

  function NonZero(bytes: Bytes): nat {
    if bytes == [] then 0 else (if bytes[0] != 0 then 1 else 0) + NonZero(bytes[1..])
  }

  /** The mask loop of `Unserialize`: read bytes until `n` of them were not zero. */
  function ReadMask(n: nat, s: Bytes): Parse<seq<bool>>
    decreases |s|
  {
    if n == 0 then Done([], s)
    else if s == [] then Fail
    else
      match ReadMask(if s[0] != 0 then n - 1 else n, s[1..])
      case Fail => Fail
      case Done(flags, rest) => Done(UnpackBits(s[0], 8) + flags, rest)
  }

  /** Two lists of flags that say the same, however many `false` they end in. */
  ghost predicate SameFlags(a: seq<bool>, b: seq<bool>) {
    && (forall i :: 0 <= i < |a| && a[i] ==> i < |b| && b[i])
    && (forall i :: 0 <= i < |b| && b[i] ==> i < |a| && a[i])
  }

  lemma OctetShape(flags: seq<bool>)
    ensures flags == Octet(flags) + AfterOctet(flags) && |Octet(flags)| <= 8
    ensures AfterOctet(flags) != [] ==> |Octet(flags)| == 8
    ensures true in flags <==> true in Octet(flags) || true in AfterOctet(flags)
    ensures OctetByte(flags) == 0 <==> true !in Octet(flags)
    ensures UnpackBits(OctetByte(flags), 8) == Octet(flags) + Falses(8 - |Octet(flags)|)
  {
    PackByteRange(Octet(flags));
    UnpackPacked(Octet(flags), 8);
  }

  lemma MaskShape(flags: seq<bool>)
    requires true in flags
    ensures var m, more := MaskBytes(flags), MaskBytes(AfterOctet(flags));
            m != [] && m[0] == OctetByte(flags) && m[1..] == more &&
            NonZero(m) == (if OctetByte(flags) != 0 then 1 else 0) + NonZero(more)
  {
  }

  /** While there are flags left there is a byte left that is not zero: the loop does not stop early. */
  lemma {:induction false} NonZeroExactly(flags: seq<bool>)
    ensures NonZero(MaskBytes(flags)) == 0 <==> true !in flags
    decreases |flags|
  {
    if true in flags {
      OctetShape(flags);
      MaskShape(flags);
      NonZeroExactly(AfterOctet(flags));
    }
  }

  /** The mask loop consumes exactly the bytes of the mask, and restores every flag. */
  lemma {:induction false} MaskRoundTrip(flags: seq<bool>, rest: Bytes)
    ensures var r := ReadMask(NonZero(MaskBytes(flags)), MaskBytes(flags) + rest);
            r.Done? && r.rest == rest && SameFlags(r.value, flags)
    decreases |flags|
  {
    hide *;
    NonZeroExactly(flags);
    if true in flags {
      OctetShape(flags);
      MaskShape(flags);
      AfterOctetShorter(flags);
      var m, more := MaskBytes(flags), AfterOctet(flags);
      MaskRoundTrip(more, rest);
      assert (m + rest)[1..] == MaskBytes(more) + rest;
      ReadMaskStep(NonZero(m), m + rest);
      SameFlagsConcat(Octet(flags), more, ReadMask(NonZero(MaskBytes(more)), MaskBytes(more) + rest).value);
    } else {
      NoMask(flags, rest);
    }
  }

  lemma AfterOctetShorter(flags: seq<bool>)
    requires true in flags
    ensures |AfterOctet(flags)| < |flags|
  {
  }

  lemma NoMask(flags: seq<bool>, rest: Bytes)
    requires true !in flags
    ensures ReadMask(0, MaskBytes(flags) + rest) == Done([], rest) && SameFlags([], flags)
  {
    assert MaskBytes(flags) + rest == rest;
    forall i | 0 <= i < |flags|
      ensures !flags[i]
    {
      assert flags[i] in flags;
    }
  }

  lemma ReadMaskStep(n: nat, s: Bytes)
    requires n > 0 && s != []
    ensures var more := ReadMask(if s[0] != 0 then n - 1 else n, s[1..]);
            ReadMask(n, s) == if more.Fail? then Fail else Done(UnpackBits(s[0], 8) + more.value, more.rest)
  {
  }

  lemma SameFlagsConcat(g: seq<bool>, more: seq<bool>, tail: seq<bool>)
    requires |g| <= 8 && (more != [] ==> |g| == 8) && SameFlags(tail, more)
    ensures SameFlags(g + Falses(8 - |g|) + tail, g + more)
  {
    var a, b := g + Falses(8 - |g|) + tail, g + more;
    forall i | 0 <= i < |a| && a[i]
      ensures i < |b| && b[i]
    {
      if i >= 8 {
        assert tail[i - 8];
      }
    }
    forall i | 0 <= i < |b| && b[i]
      ensures i < |a| && a[i]
    {
      if i >= |g| {
        assert more[i - |g|];
      }
    }
  }

  // ----- the outputs -----

  /** The amount as the unsigned number that is compressed, and back. */
  function Unsigned(v: int): nat {
    v % Amount.TWO64
  }

  function Signed(n: nat): int {
    if n < 0x8000_0000_0000_0000 then n else n - Amount.TWO64
  }

  /** A 32-bit number as a signed one. */
  function Int32(n: nat): int {
    if n < 0x8000_0000 then n else n - 0x1_0000_0000
  }

  function WriteOutput(K: Curve, o: TxOut): Bytes {
    Encode(Amount.Compress(Unsigned(o.nValue))) + ScriptCodec.Serialize(K, o.scriptPubKey)
  }

  function ReadOutput(K: Curve, s: Bytes): Parse<TxOut> {
    match Decode(0, s)
    case Fail => Fail
    case Done(n, t) =>
      match ScriptCodec.Unserialize(K, t)
      case Fail => Fail
      case Done(script, u) => Done(TxOut(Signed(Amount.Decompress(n % Amount.TWO64)), script), u)
  }

  function WriteOutputs(K: Curve, vout: seq<TxOut>): Bytes {
    if vout == [] then []
    else (if vout[0].IsNull() then [] else WriteOutput(K, vout[0])) + WriteOutputs(K, vout[1..])
  }

  function ReadOutputs(K: Curve, avail: seq<bool>, s: Bytes): Parse<seq<TxOut>>
    decreases |avail|
  {
    if avail == [] then Done([], s)
    else
      match (if avail[0] then ReadOutput(K, s) else Done(NULL_OUT, s))
      case Fail => Fail
      case Done(o, t) =>
        match ReadOutputs(K, avail[1..], t)
        case Fail => Fail
        case Done(more, u) => Done([o] + more, u)
  }

  /** An unspent output after a round trip. */
  function Restored(o: TxOut): TxOut {
    if o.IsNull() then NULL_OUT
    else TxOut(Signed(Amount.Decompress(Amount.Compress(Unsigned(o.nValue)))), Kept(o.scriptPubKey))
  }

  function Flags(vout: seq<TxOut>): seq<bool> {
    seq(|vout|, i requires 0 <= i < |vout| => !vout[i].IsNull())
  }

  function AllRestored(vout: seq<TxOut>): seq<TxOut> {
    seq(|vout|, i requires 0 <= i < |vout| => Restored(vout[i]))
  }

  /** A script's size, with room for the special ones, is a 32-bit number. */
  predicate ShortScript(o: TxOut) {
    |o.scriptPubKey| + SPECIAL_SCRIPTS < 0x1_0000_0000
  }

  lemma OutputRoundTrip(K: Curve, o: TxOut, rest: Bytes)
    requires Sound(K) && !o.IsNull() && ShortScript(o)
    ensures ReadOutput(K, WriteOutput(K, o) + rest) == Done(Restored(o), rest)
  {
    hide Decode, Encode, Amount.Compress, Amount.Decompress, ScriptCodec.Unserialize, ScriptCodec.Serialize, Kept, Signed, Sound;
    var x, t := Amount.Compress(Unsigned(o.nValue)), ScriptCodec.Serialize(K, o.scriptPubKey) + rest;
    assert WriteOutput(K, o) + rest == Encode(x) + t;
    VarInt.RoundTrip(x, t);
    ScriptRoundTrip(K, o.scriptPubKey, rest);
    assert x % Amount.TWO64 == x;
  }

  ghost predicate RestoredBy(avail: seq<bool>, vout: seq<TxOut>, got: seq<TxOut>) {
    && |got| == |avail|
    && forall i :: 0 <= i < |avail| ==>
         got[i] == if avail[i] && i < |vout| then Restored(vout[i]) else NULL_OUT
  }

  lemma {:induction false} OutputsRoundTrip(K: Curve, avail: seq<bool>, vout: seq<TxOut>, rest: Bytes)
    requires Sound(K) && SameFlags(avail, Flags(vout)) && forall i :: 0 <= i < |vout| ==> ShortScript(vout[i])
    ensures var r := ReadOutputs(K, avail, WriteOutputs(K, vout) + rest);
            r.Done? && r.rest == rest && RestoredBy(avail, vout, r.value)
    decreases |avail|
  {
    hide *;
    if avail == [] {
      NothingWritten(K, vout);
      NothingRead(K, vout, rest);
    } else {
      var a, v := avail[1..], if vout == [] then [] else vout[1..];
      FlagsTail(avail, vout);
      OutputsRoundTrip(K, a, v, rest);
      var t := WriteOutputs(K, v) + rest;
      FlagsHead(avail, vout);
      OutputsStep(K, avail, vout, rest);
      if avail[0] {
        OutputRoundTrip(K, vout[0], t);
      }
      RestoredConcat(avail, vout, ReadOutputs(K, a, t).value);
    }
  }

  lemma NothingRead(K: Curve, vout: seq<TxOut>, rest: Bytes)
    requires WriteOutputs(K, vout) == []
    ensures ReadOutputs(K, [], WriteOutputs(K, vout) + rest) == Done([], rest) && RestoredBy([], vout, [])
  {
    assert WriteOutputs(K, vout) + rest == rest;
  }

  lemma OutputsStep(K: Curve, avail: seq<bool>, vout: seq<TxOut>, rest: Bytes)
    requires avail != [] && (avail[0] <==> vout != [] && !vout[0].IsNull())
    ensures var v := if vout == [] then [] else vout[1..];
            var s, t := WriteOutputs(K, vout) + rest, WriteOutputs(K, v) + rest;
            (!avail[0] ==> s == t) && (avail[0] ==> s == WriteOutput(K, vout[0]) + t) &&
            (var r := if avail[0] then ReadOutput(K, s) else Done(NULL_OUT, s);
             r.Done? && r.rest == t && ReadOutputs(K, avail[1..], t).Done? ==>
               var more := ReadOutputs(K, avail[1..], t);
               ReadOutputs(K, avail, s) == Done([r.value] + more.value, more.rest))
  {
    hide ReadOutput, WriteOutput;
    if avail[0] {
      assert WriteOutputs(K, vout) + rest == WriteOutput(K, vout[0]) + (WriteOutputs(K, vout[1..]) + rest);
    } else if vout != [] {
      assert WriteOutputs(K, vout) == WriteOutputs(K, vout[1..]);
    }
  }

  lemma FlagsHead(avail: seq<bool>, vout: seq<TxOut>)
    requires avail != [] && SameFlags(avail, Flags(vout))
    ensures avail[0] <==> vout != [] && !vout[0].IsNull()
  {
    if vout != [] {
      assert Flags(vout)[0] == !vout[0].IsNull();
    }
  }

  lemma FlagsTail(avail: seq<bool>, vout: seq<TxOut>)
    requires avail != [] && SameFlags(avail, Flags(vout))
    ensures SameFlags(avail[1..], Flags(if vout == [] then [] else vout[1..]))
  {
    var f, g := Flags(vout), Flags(if vout == [] then [] else vout[1..]);
    assert vout != [] ==> g == f[1..];
    forall i | 0 <= i < |avail[1..]| && avail[1..][i]
      ensures i < |g| && g[i]
    {
      assert avail[i + 1];
    }
    forall i | 0 <= i < |g| && g[i]
      ensures i < |avail[1..]| && avail[1..][i]
    {
      assert f[i + 1];
    }
  }

  lemma RestoredConcat(avail: seq<bool>, vout: seq<TxOut>, more: seq<TxOut>)
    requires avail != []
    requires RestoredBy(avail[1..], if vout == [] then [] else vout[1..], more)
    ensures RestoredBy(avail, vout, [if avail[0] && vout != [] then Restored(vout[0]) else NULL_OUT] + more)
  {
    hide Restored;
  }

  lemma {:induction false} NothingWritten(K: Curve, vout: seq<TxOut>)
    requires SameFlags([], Flags(vout))
    ensures WriteOutputs(K, vout) == []
  {
    hide WriteOutput;
    if vout != [] {
      assert Flags(vout)[0] == !vout[0].IsNull();
      assert Flags(vout[1..]) == Flags(vout)[1..];
      forall i | 0 <= i < |vout[1..]|
        ensures !Flags(vout[1..])[i]
      {
        assert Flags(vout[1..])[i] == Flags(vout)[i + 1];
      }
      NothingWritten(K, vout[1..]);
    }
  }

  // ----- the record -----

  function Code(c: Coins): nat
    requires !IsPruned(c)
  {
    var first, second := IsAvailable(c, 0), IsAvailable(c, 1);
    var n := NonZero(MaskBytes(MaskFlags(c)));
    MaskNeeded(c);
    8 * (n - if first || second then 0 else 1) + (if c.fCoinBase then 1 else 0) + (if first then 2 else 0) + if second then 4 else 0
  }

  /** The flags that the mask stands for: those of the outputs after the first two. */
  function MaskFlags(c: Coins): seq<bool> {
    if |c.vout| <= 2 then [] else Flags(c.vout[2..])
  }

  lemma MaskNeeded(c: Coins)
    requires !IsPruned(c)
    ensures IsAvailable(c, 0) || IsAvailable(c, 1) || NonZero(MaskBytes(MaskFlags(c))) > 0
  {
    NonZeroExactly(MaskFlags(c));
    var i :| 0 <= i < |c.vout| && !c.vout[i].IsNull();
    if i >= 2 {
      assert MaskFlags(c)[i - 2];
    }
  }

  function Serialize(K: Curve, c: Coins): Bytes
    requires !IsPruned(c)
  {
    Encode(c.nVersion) + Encode(Code(c)) + MaskBytes(MaskFlags(c)) + WriteOutputs(K, c.vout) + Encode(c.nHeight)
  }

  function FirstFlags(code: nat): seq<bool> {
    [code / 2 % 2 == 1, code / 4 % 2 == 1]
  }

  function MaskCode(code: nat): nat {
    code / 8 + if code / 2 % 4 != 0 then 0 else 1
  }

  function Unserialize(K: Curve, s: Bytes): Parse<Coins> {
    match Cut(Decode(0, s), 32)
    case Fail => Fail
    case Done(version, s1) =>
      match Cut(Decode(0, s1), 32)
      case Fail => Fail
      case Done(code, s2) =>
        match ReadMask(MaskCode(code), s2)
        case Fail => Fail
        case Done(flags, s3) =>
          match ReadOutputs(K, FirstFlags(code) + flags, s3)
          case Fail => Fail
          case Done(vout, s4) =>
            match Cut(Decode(0, s4), 32)
            case Fail => Fail
            case Done(height, s5) => Done(Cleaned(Coins(code % 2 == 1, vout, Int32(height), Int32(version))), s5)
  }

  /** The header code gives back the coinbase flag, the first two flags and the number of mask bytes. */
  lemma CodeRoundTrip(c: Coins)
    requires !IsPruned(c)
    ensures var code := Code(c);
            code % 2 == (if c.fCoinBase then 1 else 0) && FirstFlags(code) == [IsAvailable(c, 0), IsAvailable(c, 1)] &&
            MaskCode(code) == NonZero(MaskBytes(MaskFlags(c)))
  {
    hide NonZero, MaskBytes, MaskFlags, IsPruned, IsAvailable, FirstFlags, MaskCode;
    MaskNeeded(c);
    var first, second := IsAvailable(c, 0), IsAvailable(c, 1);
    CodeBits(NonZero(MaskBytes(MaskFlags(c))) - (if first || second then 0 else 1), c.fCoinBase, first, second);
  }

  lemma CodeBits(n: nat, coinBase: bool, first: bool, second: bool)
    ensures var code := 8 * n + (if coinBase then 1 else 0) + (if first then 2 else 0) + if second then 4 else 0;
            code % 2 == (if coinBase then 1 else 0) && FirstFlags(code) == [first, second] &&
            MaskCode(code) == n + if first || second then 0 else 1
  {
    var b0, b1, b2 := if coinBase then 1 else 0, if first then 1 else 0, if second then 1 else 0;
    var code := 8 * n + b0 + 2 * b1 + 4 * b2;
    assert code / 2 == 4 * n + b1 + 2 * b2;
    assert code / 4 == 2 * n + b2;
    assert code / 8 == n;
    assert (4 * n + b1 + 2 * b2) % 4 == b1 + 2 * b2;
  }

  lemma AllFlags(c: Coins, flags: seq<bool>)
    requires SameFlags(flags, MaskFlags(c))
    ensures SameFlags([IsAvailable(c, 0), IsAvailable(c, 1)] + flags, Flags(c.vout))
  {
    var a, f := [IsAvailable(c, 0), IsAvailable(c, 1)] + flags, Flags(c.vout);
    forall i | 0 <= i < |a| && a[i]
      ensures i < |f| && f[i]
    {
      if i >= 2 {
        assert flags[i - 2];
        assert MaskFlags(c)[i - 2];
      }
    }
    forall i | 0 <= i < |f| && f[i]
      ensures i < |a| && a[i]
    {
      if i >= 2 {
        assert MaskFlags(c)[i - 2];
      }
    }
  }

  /** Whatever was read beyond or short of the outputs is spent, so trimming gives the same list. */
  lemma TrimRestored(avail: seq<bool>, vout: seq<TxOut>, got: seq<TxOut>)
    requires SameFlags(avail, Flags(vout)) && RestoredBy(avail, vout, got)
    ensures Trim(got) == Trim(AllRestored(vout))
  {
    hide Trim;
    var all := AllRestored(vout);
    TrimIsLongestUnspentPrefix(all);
    var n := |Trim(all)|;
    forall i | 0 <= i < |vout|
      ensures all[i] == if i < |got| then got[i] else NULL_OUT
    {
      assert Flags(vout)[i] == !vout[i].IsNull();
      hide AllRestored;
      RestoredAt(vout, i);
    }
    forall i | |vout| <= i < |got|
      ensures got[i] == NULL_OUT
    {
    }
    TrimIsUnique(got, n);
    assert got[..n] == all[..n];
  }

  lemma RestoredAt(vout: seq<TxOut>, i: nat)
    requires i < |vout|
    ensures AllRestored(vout)[i] == Restored(vout[i]) && (vout[i].IsNull() ==> Restored(vout[i]) == NULL_OUT)
  {
  }

  // ----- what comes back -----

  lemma {:induction false} MaskIsShort(flags: seq<bool>)
    ensures 8 * |MaskBytes(flags)| <= |flags| + 7
    decreases |flags|
  {
    if true in flags {
      MaskIsShort(AfterOctet(flags));
    }
  }

  lemma {:induction false} NonZeroAtMost(bytes: Bytes)
    ensures NonZero(bytes) <= |bytes|
  {
    if bytes != [] {
      NonZeroAtMost(bytes[1..]);
    }
  }

  lemma CodeFits(c: Coins)
    requires !IsPruned(c) && |c.vout| < 0x8000_0000
    ensures Code(c) < 0x1_0000_0000
  {
    hide NonZero, MaskBytes;
    MaskNeeded(c);
    MaskIsShort(MaskFlags(c));
    NonZeroAtMost(MaskBytes(MaskFlags(c)));
  }

  /** The fields are as wide as in the class, and what is counted in 32 bits can be. */
  ghost predicate Wide(c: Coins) {
    && -0x8000_0000 <= c.nVersion < 0x8000_0000 && -0x8000_0000 <= c.nHeight < 0x8000_0000
    && |c.vout| < 0x8000_0000
    && forall i :: 0 <= i < |c.vout| ==> ShortScript(c.vout[i])
  }

  /** What every record that has an unspent output is read back as, with exactly its own bytes used. */
  lemma RecordRoundTrip(K: Curve, c: Coins, rest: Bytes)
    requires Sound(K) && !IsPruned(c) && Wide(c)
    ensures Unserialize(K, Serialize(K, c) + rest)
         == Done(Coins(c.fCoinBase, Trim(AllRestored(c.vout)), Received(c.nHeight), Received(c.nVersion)), rest)
  {
    hide *;
    WideFields(c);
    var h := Encode(c.nHeight) + rest;
    var outs := WriteOutputs(K, c.vout) + h;
    var mask := MaskBytes(MaskFlags(c)) + outs;
    var code := Encode(Code(c)) + mask;
    SerializeIs(K, c);
    assert Serialize(K, c) + rest == Encode(c.nVersion) + code;
    RoundTrip32(c.nVersion, code);
    CodeFits(c);
    RoundTrip32(Code(c), mask);
    CodeRoundTrip(c);
    MaskRoundTrip(MaskFlags(c), outs);
    var flags := ReadMask(MaskCode(Code(c)), mask).value;
    AllFlags(c, flags);
    var avail := FirstFlags(Code(c)) + flags;
    OutputsRoundTrip(K, avail, c.vout, h);
    var got := ReadOutputs(K, avail, outs).value;
    TrimRestored(avail, c.vout, got);
    RoundTrip32(c.nHeight, rest);
    UnserializeIs(K, Serialize(K, c) + rest, Received(c.nVersion), Code(c), flags, got, Received(c.nHeight), code, mask, outs, h, rest);
  }

  lemma WideFields(c: Coins)
    requires Wide(c)
    ensures c.nVersion < 0x8000_0000 && c.nHeight < 0x8000_0000 && |c.vout| < 0x8000_0000
    ensures Int32(Received(c.nVersion)) == Received(c.nVersion) && Int32(Received(c.nHeight)) == Received(c.nHeight)
    ensures forall i :: 0 <= i < |c.vout| ==> ShortScript(c.vout[i])
  {
  }

  lemma SerializeIs(K: Curve, c: Coins)
    requires !IsPruned(c)
    ensures Serialize(K, c)
         == Encode(c.nVersion) + Encode(Code(c)) + MaskBytes(MaskFlags(c)) + WriteOutputs(K, c.vout) + Encode(c.nHeight)
  {
  }

  lemma UnserializeIs(K: Curve, s: Bytes, version: nat, code: nat, flags: seq<bool>, vout: seq<TxOut>, height: nat,
                      s1: Bytes, s2: Bytes, s3: Bytes, s4: Bytes, s5: Bytes)
    requires Cut(Decode(0, s), 32) == Done(version, s1) && Cut(Decode(0, s1), 32) == Done(code, s2)
    requires ReadMask(MaskCode(code), s2) == Done(flags, s3)
    requires ReadOutputs(K, FirstFlags(code) + flags, s3) == Done(vout, s4) && Cut(Decode(0, s4), 32) == Done(height, s5)
    ensures Unserialize(K, s) == Done(Coins(code % 2 == 1, Trim(vout), Int32(height), Int32(version)), s5)
  {
    hide Cut, Decode, ReadMask, ReadOutputs, Trim, MaskCode, FirstFlags, Int32;
  }

  /** An output that comes back: spent and blank, or with a script of legal size and an amount, as an
      unsigned number, that the amount codec keeps. */
  predicate Keepable(o: TxOut) {
    if o.IsNull() then o == NULL_OUT
    else
      && |o.scriptPubKey| <= MAX_SCRIPT_SIZE
      && (Unsigned(o.nValue) % 10 == 0 || Unsigned(o.nValue) < Amount.FIRST_CORRUPTED)
  }

  lemma UnsignedSigned(v: int, n: nat)
    requires -0x8000_0000_0000_0000 <= v < 0x8000_0000_0000_0000 && n < Amount.TWO64
    ensures Signed(n) == v <==> n == Unsigned(v)
  {
  }

  lemma DecompressRange(n: nat)
    requires n < Amount.TWO64
    ensures Amount.Decompress(n) < Amount.TWO64
  {
    AmountExact.DecompressWraps(n);
  }

  lemma RestoredExactly(o: TxOut)
    requires -0x8000_0000_0000_0000 <= o.nValue < 0x8000_0000_0000_0000
    ensures Restored(o) == o <==> Keepable(o)
  {
    hide Amount.Compress, Amount.Decompress;
    if !o.IsNull() {
      var n := Unsigned(o.nValue);
      var back := Amount.Decompress(Amount.Compress(n));
      DecompressRange(Amount.Compress(n));
      UnsignedSigned(o.nValue, back);
      AmountExact.RoundTripsExactly(n);
    }
  }

  lemma TrimmedIsWhole(all: seq<TxOut>, vout: seq<TxOut>)
    requires |all| == |vout| > 0
    ensures Trim(all) == vout <==> all == vout && !vout[|vout| - 1].IsNull()
  {
    TrimIsLongestUnspentPrefix(all);
    if Trim(all) == vout {
      assert all[..|vout|] == all;
    }
  }

  /** Exactly when a record is read back as it was: no negative version or height, no spent output at
      the end, and every output keepable. */
  lemma RecordComesBack(K: Curve, c: Coins, rest: Bytes)
    requires Sound(K) && !IsPruned(c) && Wide(c)
    requires forall i :: 0 <= i < |c.vout| ==> -0x8000_0000_0000_0000 <= c.vout[i].nValue < 0x8000_0000_0000_0000
    ensures Unserialize(K, Serialize(K, c) + rest) == Done(c, rest) <==>
            && c.nVersion >= 0 && c.nHeight >= 0 && !c.vout[|c.vout| - 1].IsNull()
            && forall i :: 0 <= i < |c.vout| ==> Keepable(c.vout[i])
  {
    hide *;
    RecordRoundTrip(K, c, rest);
    VarInt.RoundTrip(c.nVersion, []);
    VarInt.RoundTrip(c.nHeight, []);
    SomeOutput(c);
    SameLength(c.vout);
    TrimmedIsWhole(AllRestored(c.vout), c.vout);
    SameOutputs(c.vout);
  }

  lemma SomeOutput(c: Coins)
    requires !IsPruned(c)
    ensures |c.vout| > 0
  {
  }

  lemma SameLength(vout: seq<TxOut>)
    ensures |AllRestored(vout)| == |vout|
  {
  }

  lemma SameOutputs(vout: seq<TxOut>)
    requires forall i :: 0 <= i < |vout| ==> -0x8000_0000_0000_0000 <= vout[i].nValue < 0x8000_0000_0000_0000
    ensures AllRestored(vout) == vout <==> forall i :: 0 <= i < |vout| ==> Keepable(vout[i])
  {
    hide Restored, Keepable;
    forall i | 0 <= i < |vout|
      ensures AllRestored(vout)[i] == vout[i] <==> Keepable(vout[i])
    {
      RestoredExactly(vout[i]);
    }
  }

  /** A record as the chainstate holds it: trimmed, spent outputs blank, amounts and scripts that fit. */
  ghost predicate Storable(c: Coins) {
    && !IsPruned(c) && Cleaned(c) == c && c.nVersion >= 0 && c.nHeight >= 0
    && forall i :: 0 <= i < |c.vout| ==>
         c.vout[i] == NULL_OUT || (Amount.MoneyRange(c.vout[i].nValue) && |c.vout[i].scriptPubKey| <= MAX_SCRIPT_SIZE)
  }

  /** Such a record is read back as it was. */
  lemma StorableRoundTrip(K: Curve, c: Coins, rest: Bytes)
    requires Sound(K) && Storable(c) && Wide(c)
    ensures Unserialize(K, Serialize(K, c) + rest) == Done(c, rest)
  {
    hide Serialize, Unserialize, Keepable, Sound, Trim;
    TrimIsLongestUnspentPrefix(c.vout);
    forall i | 0 <= i < |c.vout|
      ensures Keepable(c.vout[i]) && -0x8000_0000_0000_0000 <= c.vout[i].nValue < 0x8000_0000_0000_0000
    {
      MoneyIsKeepable(c.vout[i]);
    }
    RecordComesBack(K, c, rest);
  }

  lemma MoneyIsKeepable(o: TxOut)
    requires o == NULL_OUT || (Amount.MoneyRange(o.nValue) && |o.scriptPubKey| <= MAX_SCRIPT_SIZE)
    ensures Keepable(o) && -0x8000_0000_0000_0000 <= o.nValue < 0x8000_0000_0000_0000
  {
  }
}
