/**
 Byte streams, and the variable-length integers of src/serialize.h: base 128, most
 significant group first, one subtracted from every group but the last.
 */
module VarInt {
  import opened Basics
  import opened Powers

  type Byte = b: int | 0 <= b < 256

  type Bytes = seq<Byte>

  /** What was read and what is left of the stream; `Fail` when the stream ends too early. */
  datatype Parse<+T> = Fail | Done(value: T, rest: Bytes)

  /** All groups but the last, each with the continuation bit. */
  function HighGroups(n: nat): Bytes {
    if n <= 0x7F then [n + 0x80] else HighGroups(n / 128 - 1) + [n % 128 + 0x80]
  }

  /** The bytes of a number. A negative number of a signed type passes for a small one, and only its
      lowest seven bits are written. */
  function Encode(n: int): Bytes {
    if n <= 0x7F then [n % 128] else HighGroups(n / 128 - 1) + [n % 128]
  }

  /** What arrives of a number that is sent. */
  function Received(n: int): nat {
    if n < 0 then n % 128 else n
  }

  function Decode(n: nat, s: Bytes): Parse<nat>
    decreases |s|
  {
    if s == [] then Fail
    else if s[0] >= 0x80 then Decode(n * 128 + s[0] % 128 + 1, s[1..])
    else Done(n * 128 + s[0], s[1..])
  }

  lemma {:induction false} DecodeHighGroups(n: nat, rest: Bytes)
    ensures Decode(0, HighGroups(n) + rest) == Decode(n + 1, rest)
    decreases n
  {
    if n <= 0x7F {
      assert (HighGroups(n) + rest)[1..] == rest;
    } else {
      var low := n % 128 + 0x80;
      DecodeHighGroups(n / 128 - 1, [low] + rest);
      assert HighGroups(n) + rest == HighGroups(n / 128 - 1) + ([low] + rest);
      assert ([low] + rest)[1..] == rest;
    }
  }

  /** A number is read back, whatever follows it, exactly when it is not negative. */
  lemma RoundTrip(n: int, rest: Bytes)
    ensures Decode(0, Encode(n) + rest) == Done(Received(n), rest)
    ensures Received(n) == n <==> n >= 0
  {
    if n <= 0x7F {
      assert (Encode(n) + rest)[1..] == rest;
    } else {
      var low := n % 128;
      DecodeHighGroups(n / 128 - 1, [low] + rest);
      assert Encode(n) + rest == HighGroups(n / 128 - 1) + ([low] + rest);
      assert ([low] + rest)[1..] == rest;
    }
  }

  /** The groups before the one being read. */
  function Before(n: nat): Bytes {
    if n == 0 then [] else HighGroups(n - 1)
  }

  lemma DecodeHead(n: nat, s: Bytes)
    ensures Decode(n, s) ==
      if s == [] then Fail
      else if s[0] >= 0x80 then Decode(n * 128 + s[0] % 128 + 1, s[1..])
      else Done(n * 128 + s[0], s[1..])
  {
  }

  lemma ReadOn(n: nat, b: Byte, more: Bytes, value: nat)
    requires b >= 0x80 && Before(n * 128 + b % 128 + 1) + more == Encode(value)
    ensures Before(n) + ([b] + more) == Encode(value)
  {
    hide *;
    BeforeNext(n * 128 + b % 128);
    GroupAppended(n, b % 128, 0x80);
    assert Before(n) + ([b] + more) == Before(n) + [b] + more;
  }

  /** The other direction: the bytes that are consumed are the one encoding of the number read. */
  lemma {:induction false} DecodedIsEncoded(n: nat, s: Bytes) returns (used: Bytes)
    requires Decode(n, s).Done?
    ensures var d := Decode(n, s); s == used + d.rest && Before(n) + used == Encode(d.value)
    decreases |s|
  {
    hide *;
    DecodeHead(n, s);
    assert s == [s[0]] + s[1..];
    if s[0] >= 0x80 {
      var more := DecodedIsEncoded(n * 128 + s[0] % 128 + 1, s[1..]);
      used := [s[0]] + more;
      ReadOn(n, s[0], more, Decode(n, s).value);
    } else {
      used := [s[0]];
      GroupAppended(n, s[0], 0);
    }
  }

  lemma BeforeNext(m: nat)
    ensures Before(m + 1) == HighGroups(m)
  {
  }

  lemma GroupAppended(n: nat, low: nat, flag: nat)
    requires low < 128 && (flag == 0 || flag == 0x80)
    ensures Before(n) + [low + flag] == if flag == 0 then Encode(n * 128 + low) else HighGroups(n * 128 + low)
  {
    var m := n * 128 + low;
    assert m / 128 == n && m % 128 == low;
  }

  /** A number of `k` bits never needs more than the `(k + 6) / 7` bytes of the write buffer. */
  lemma {:induction false} EncodeLength(n: int, k: nat)
    requires k > 0 && n < Pow2(k)
    ensures |Encode(n)| <= (k + 6) / 7
    ensures n >= 0 ==> |HighGroups(n)| <= (k + 6) / 7
    decreases k
  {
    if n > 0x7F {
      if k <= 7 {
        PowMonotone(2, k, 7);
        assert false;
      }
      PowAdd(2, 7, k - 7);
      assert Pow2(k) == 128 * Pow2(k - 7);
      EncodeLength(n / 128 - 1, k - 7);
    }
  }

  /** What is still to be written of a number once its last `len` groups are in the buffer. */
  function Remaining(n: int, len: nat): Bytes
    requires len > 0 ==> n >= 0
  {
    if len == 0 then Encode(n) else HighGroups(n)
  }

  function Group(n: int, len: nat): Byte {
    n % 128 + if len > 0 then 0x80 else 0
  }

  lemma RemainingStep(n: int, len: nat)
    requires len > 0 ==> n >= 0
    ensures Remaining(n, len) == if n > 0x7F then Remaining(n / 128 - 1, len + 1) + [Group(n, len)] else [Group(n, len)]
    ensures |Remaining(n, len)| >= 1
  {
  }

  lemma ReversedStep(a: Bytes, x: Byte)
    ensures Reversed(a + [x]) == [x] + Reversed(a)
  {
    assert (a + [x])[..|a|] == a;
  }

  /** What is in the buffer, backwards, ends the encoding of which the rest is still to come. */
  ghost predicate FillInv(number: int, n: int, len: nat, done: Bytes) {
    (len > 0 ==> n >= 0) && |done| == len && Encode(number) == Remaining(n, len) + Reversed(done)
  }

  lemma FillStart(number: int)
    ensures FillInv(number, number, 0, [])
  {
    assert Encode(number) + [] == Encode(number);
  }

  lemma FillStep(number: int, n: int, len: nat, done: Bytes)
    requires FillInv(number, n, len, done) && n > 0x7F
    ensures Group(n, len) == n % 128 + (if len > 0 then 0x80 else 0)
    ensures FillInv(number, n / 128 - 1, len + 1, done + [Group(n, len)])
  {
    hide Encode, HighGroups, Reversed, Remaining;
    RemainingStep(n, len);
    Shift(Encode(number), Remaining(n / 128 - 1, len + 1), Group(n, len), done);
  }

  lemma FillShort(number: int, n: int, len: nat, done: Bytes)
    requires FillInv(number, n, len, done)
    ensures len < |Encode(number)|
  {
    hide Encode, HighGroups;
    RemainingStep(n, len);
    ReversedLength(done);
  }

  /** The first loop of `WriteVarInt`: the groups go into the buffer, last one first. */
  method Fill(number: int, tmp: array<Byte>) returns (n: int, len: nat)
    requires |Encode(number)| <= tmp.Length
    modifies tmp
    ensures n <= 0x7F && len < tmp.Length && FillInv(number, n, len, tmp[..len])
  {
    hide *;
    n, len := number, 0;
    FillStart(number);
    FillShort(number, n, 0, []);
    while n > 0x7F
      invariant len < tmp.Length && FillInv(number, n, len, tmp[..len])
    {
      ghost var done := tmp[..len];
      FillStep(number, n, len, done);
      tmp[len] := n % 128 + if len > 0 then 0x80 else 0;
      n, len := n / 128 - 1, len + 1;
      assert tmp[..len] == done + [tmp[len - 1]];
      FillShort(number, n, len, tmp[..len]);
    }
  }

  lemma Shift(all: Bytes, high: Bytes, low: Byte, done: Bytes)
    requires all == high + [low] + Reversed(done)
    ensures all == high + Reversed(done + [low])
  {
    ReversedStep(done, low);
  }

  lemma LastGroup(number: int, n: int, len: nat, done: Bytes)
    requires n <= 0x7F && FillInv(number, n, len, done)
    ensures Encode(number) == Reversed(done + [Group(n, len)])
  {
    RemainingStep(n, len);
    ReversedStep(done, Group(n, len));
  }

  /** `WriteVarInt` for an integer type of `bits` bits, signed or not. */
  method Write(number: int, bits: nat) returns (out: Bytes)
    requires bits > 0 && number < Pow2(bits)
    ensures out == Encode(number)
  {
    EncodeLength(number, bits);
    var tmp := new Byte[(bits + 6) / 7];
    out := WriteThrough(number, tmp);
  }

  method WriteThrough(number: int, tmp: array<Byte>) returns (out: Bytes)
    requires |Encode(number)| <= tmp.Length
    modifies tmp
    ensures out == Encode(number)
  {
    hide *;
    var n, len := Fill(number, tmp);
    ghost var last, done := Group(n, len), tmp[..len];
    LastGroup(number, n, len, done);
    GroupIs(n, len);
    tmp[len] := n % 128 + if len > 0 then 0x80 else 0;
    assert tmp[..len + 1] == done + [last];
    out := Backwards(tmp, len + 1);
  }

  lemma GroupIs(n: int, len: nat)
    ensures Group(n, len) == n % 128 + if len > 0 then 0x80 else 0
  {
  }

  method Backwards(tmp: array<Byte>, len: nat) returns (out: Bytes)
    requires len <= tmp.Length
    ensures out == Reversed(tmp[..len])
  {
    out := [];
    var k := len;
    while k > 0
      invariant 0 <= k <= len && out + Reversed(tmp[..k]) == Reversed(tmp[..len])
    {
      ReversedStep(tmp[..k - 1], tmp[k - 1]);
      assert tmp[..k] == tmp[..k - 1] + [tmp[k - 1]];
      k := k - 1;
      out := out + [tmp[k]];
    }
  }

  lemma {:induction false} ReversedLength(s: Bytes)
    ensures |Reversed(s)| == |s|
  {
    if s != [] {
      ReversedLength(s[..|s| - 1]);
    }
  }

  /** A number that was read into an unsigned type of `bits` bits. */
  function Cut(p: Parse<nat>, bits: nat): Parse<nat> {
    Pow2Positive(bits);
    if p.Fail? then Fail else Done(p.value % Pow2(bits), p.rest)
  }

  /** Whatever fits is not cut. */
  lemma CutKeeps(p: Parse<nat>, bits: nat)
    requires p.Done? ==> p.value < Pow2(bits)
    ensures Cut(p, bits) == p
  {
    if p.Done? {
      Pow2Positive(bits);
      DivUnique(p.value, Pow2(bits), 0, p.value);
    }
  }

  /** A 32-bit number is read back by a 32-bit reader, if it is not negative. */
  lemma RoundTrip32(n: int, rest: Bytes)
    requires n < 0x1_0000_0000
    ensures Cut(Decode(0, Encode(n) + rest), 32) == Done(Received(n), rest)
    ensures Received(n) == n <==> n >= 0
  {
    hide Decode, Encode, Pow2;
    RoundTrip(n, rest);
    Pow2Of32();
    CutKeeps(Decode(0, Encode(n) + rest), 32);
  }

  lemma Regrouped(q: nat, r: nat, m: nat, x: nat, d: nat, e: nat)
    requires r * 128 + x == d * m + e
    ensures (q * m + r) * 128 + x == (q * 128 + d) * m + e
  {
    assert q * m * 128 == q * 128 * m;
  }

  /** Wrapping at every group is wrapping at the end. */
  lemma WrapGroup(full: nat, x: nat, m: nat)
    requires m > 0
    ensures (full % m * 128 + x) % m == (full * 128 + x) % m
  {
    DivParts(full, m);
    var q, r := full / m, full % m;
    DivParts(r * 128 + x, m);
    var d, e := (r * 128 + x) / m, (r * 128 + x) % m;
    Regrouped(q, r, m, x, d, e);
    DivUnique(full * 128 + x, m, q * 128 + d, e);
  }

  lemma WrapOne(full: nat, m: nat)
    requires m > 0
    ensures (full % m + 1) % m == (full + 1) % m
  {
    DivParts(full, m);
    var q, r := full / m, full % m;
    if r + 1 < m {
      DivUnique(full + 1, m, q, r + 1);
      DivUnique(r + 1, m, 0, r + 1);
    } else {
      assert (q + 1) * m == q * m + m;
      DivUnique(full + 1, m, q + 1, 0);
      DivUnique(r + 1, m, 1, 0);
    }
  }

  /** One group in arithmetic modulo `m`. */
  function ShiftIn(n: nat, b: Byte, m: nat): nat
    requires m > 0
  {
    (n * 128 + b % 128) % m
  }

  function PlusOne(n: nat, m: nat): nat
    requires m > 0
  {
    (n + 1) % m
  }

  lemma DecodeStep(n: nat, s: Bytes, i: nat)
    requires i <= |s|
    ensures Decode(n, s[i..]) ==
      if i == |s| then Fail
      else if s[i] >= 0x80 then Decode(n * 128 + s[i] % 128 + 1, s[i + 1..])
      else Done(n * 128 + s[i], s[i + 1..])
  {
    if i < |s| {
      assert s[i..][0] == s[i] && s[i..][1..] == s[i + 1..];
    }
  }

  function Rem(a: nat, m: nat): nat
    requires m > 0
  {
    a % m
  }

  lemma ShiftInIs(full: nat, b: Byte, m: nat)
    requires m > 0
    ensures ShiftIn(Rem(full, m), b, m) == Rem(full * 128 + b % 128, m)
  {
    WrapGroup(full, b % 128, m);
  }

  lemma PlusOneIs(full: nat, m: nat)
    requires m > 0
    ensures PlusOne(Rem(full, m), m) == Rem(full + 1, m)
  {
    WrapOne(full, m);
  }

  /** The number so far, as it would be without a width and as it is. */
  ghost predicate ReadInv(s: Bytes, i: nat, full: nat, n: nat, m: nat) {
    m > 0 && i <= |s| && n == Rem(full, m) && Decode(0, s) == Decode(full, s[i..])
  }

  lemma ReadStart(s: Bytes, m: nat)
    requires m > 0
    ensures ReadInv(s, 0, 0, 0, m)
  {
    assert s[0..] == s;
    DivUnique(0, m, 0, 0);
  }

  lemma ReadStep(s: Bytes, i: nat, full: nat, n: nat, m: nat)
    requires ReadInv(s, i, full, n, m) && i < |s|
    ensures var x := ShiftIn(n, s[i], m);
            if s[i] < 0x80 then Decode(0, s).Done? && Decode(0, s).rest == s[i + 1..] && Rem(Decode(0, s).value, m) == x
            else ReadInv(s, i + 1, full * 128 + s[i] % 128 + 1, PlusOne(x, m), m)
  {
    hide Decode, Rem, ShiftIn, PlusOne;
    DecodeStep(full, s, i);
    ShiftInIs(full, s[i], m);
    PlusOneIs(full * 128 + s[i] % 128, m);
  }

  lemma ReadEnd(s: Bytes, full: nat, n: nat, m: nat)
    requires ReadInv(s, |s|, full, n, m)
    ensures Decode(0, s).Fail?
  {
    hide Decode;
    DecodeStep(full, s, |s|);
  }

  lemma CutIs(p: Parse<nat>, bits: nat)
    ensures Pow2(bits) > 0 && (p.Fail? ==> Cut(p, bits).Fail?)
    ensures p.Done? ==> Cut(p, bits) == Done(Rem(p.value, Pow2(bits)), p.rest)
  {
    Pow2Positive(bits);
  }

  /** `ReadVarInt` into an unsigned type of `bits` bits: the wrap-around at every group amounts to
      one at the end. */
  method Read(s: Bytes, bits: nat) returns (r: Parse<nat>)
    ensures r == Cut(Decode(0, s), bits)
  {
    hide *;
    CutIs(Decode(0, s), bits);
    var m := Pow2(bits);
    var n: nat, i := 0, 0;
    ghost var full: nat := 0;
    ReadStart(s, m);
    while i < |s|
      invariant 0 <= i <= |s| && ReadInv(s, i, full, n, m)
    {
      ReadStep(s, i, full, n, m);
      n := ShiftIn(n, s[i], m);
      if s[i] < 0x80 {
        return Done(n, s[i + 1..]);
      }
      n := PlusOne(n, m);
      full := full * 128 + s[i] % 128 + 1;
      i := i + 1;
    }
    ReadEnd(s, full, n, m);
    return Fail;
  }
}
