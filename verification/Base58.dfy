/**
 Base 58 text (src/base58.cpp): leading zero bytes become leading ones, the rest is the
 number in base 58. Both directions work in place in a buffer whose size is estimated in
 advance, one digit of input at a time.
 */
module Base58 {
  import opened Powers
  import opened Radix
  import opened VarInt
  import opened Basics

  // ----- the alphabet -----

  /** The alphabet: 1 to 9, A to Z without I and O, a to z without l. */
  function CharOf(d: nat): char
    requires d < 58
  {
    if d < 9 then "123456789"[d] else if d < 17 then "ABCDEFGH"[d - 9] else if d < 22 then "JKLMN"[d - 17]
    else if d < 33 then "PQRSTUVWXYZ"[d - 22] else if d < 44 then "abcdefghijk"[d - 33] else "mnopqrstuvwxyz"[d - 44]
  }

  /** The same by ranges of characters. */
  function RangeChar(d: nat): char
    requires d < 58
  {
    (if d < 9 then '1' as int + d
     else if d < 17 then 'A' as int + d - 9
     else if d < 22 then 'J' as int + d - 17
     else if d < 33 then 'P' as int + d - 22
     else if d < 44 then 'a' as int + d - 33
     else 'm' as int + d - 44) as char
  }

  function DigitOf(c: char): Option<nat> {
    if '1' <= c <= '9' then Some(c as int - '1' as int)
    else if 'A' <= c <= 'H' then Some(c as int - 'A' as int + 9)
    else if 'J' <= c <= 'N' then Some(c as int - 'J' as int + 17)
    else if 'P' <= c <= 'Z' then Some(c as int - 'P' as int + 22)
    else if 'a' <= c <= 'k' then Some(c as int - 'a' as int + 33)
    else if 'm' <= c <= 'z' then Some(c as int - 'm' as int + 44)
    else None
  }

  predicate IsSpace(c: char) {
    c == ' ' || 9 <= c as int <= 13
  }

  lemma CharIsInRange(d: nat)
    requires d < 58
    ensures CharOf(d) == RangeChar(d)
  {
    if d < 9 {
      assert d == 0 || d == 1 || d == 2 || d == 3 || d == 4 || d == 5 || d == 6 || d == 7 || d == 8;
    } else if d < 17 {
      assert d == 9 || d == 10 || d == 11 || d == 12 || d == 13 || d == 14 || d == 15 || d == 16;
    } else if d < 22 {
      assert d == 17 || d == 18 || d == 19 || d == 20 || d == 21;
    } else if d < 33 {
      assert d == 22 || d == 23 || d == 24 || d == 25 || d == 26 || d == 27 || d == 28 || d == 29 || d == 30 || d == 31 || d == 32;
    } else if d < 44 {
      assert d == 33 || d == 34 || d == 35 || d == 36 || d == 37 || d == 38 || d == 39 || d == 40 || d == 41 || d == 42 || d == 43;
    } else {
      assert d == 44 || d == 45 || d == 46 || d == 47 || d == 48 || d == 49 || d == 50 || d == 51 || d == 52 || d == 53 || d == 54 || d == 55 || d == 56 || d == 57;
    }
  }

  /** The alphabet is a bijection with the digits, and has no space in it. */
  lemma Alphabet(d: nat, c: char)
    ensures d < 58 ==> DigitOf(CharOf(d)) == Some(d) && !IsSpace(CharOf(d)) && (CharOf(d) == '1' <==> d == 0)
    ensures DigitOf(c).Some? ==> DigitOf(c).value < 58 && CharOf(DigitOf(c).value) == c && !IsSpace(c)
  {
    hide CharOf;
    if d < 58 {
      CharIsInRange(d);
    }
    if DigitOf(c).Some? {
      CharIsInRange(DigitOf(c).value);
    }
  }

  function Text(s: Digits): string
    requires Below(s, 58)
  {
    seq(|s|, i requires 0 <= i < |s| => CharOf(s[i]))
  }

  function Ones(n: nat): string {
    seq(n, i => '1')
  }

  /** The bytes of a list of digits in base 256. */
  function AsBytes(s: Digits): Bytes
    requires Below(s, 256)
  {
    seq(|s|, i requires 0 <= i < |s| => s[i])
  }

  // ----- what the text of a list of bytes is -----

  function LeadingZeros(b: Bytes): nat {
    if b != [] && b[0] == 0 then 1 + LeadingZeros(b[1..]) else 0
  }

  function Encode(b: Bytes): string {
    ToDigitsShape(Num(b, 256), 58);
    Ones(LeadingZeros(b)) + Text(ToDigits(Num(b, 256), 58))
  }

  // ----- what a text denotes -----

  function SkipSpaces(s: string): string {
    if s != [] && IsSpace(s[0]) then SkipSpaces(s[1..]) else s
  }

  function LeadingOnes(s: string): nat {
    if s != [] && s[0] == '1' then 1 + LeadingOnes(s[1..]) else 0
  }

  /** The characters up to the first space. */
  function UpToSpace(s: string): string {
    if s != [] && !IsSpace(s[0]) then [s[0]] + UpToSpace(s[1..]) else []
  }

  /** The digits of a text, if every character is in the alphabet. */
  function Parsed(s: string): Option<Digits> {
    if s == [] then Some([])
    else if DigitOf(s[|s| - 1]).None? then None
    else
      match Parsed(s[..|s| - 1])
      case None => None
      case Some(d) => Some(d + [DigitOf(s[|s| - 1]).value])
  }

  /** The text of a number with the spaces around it taken off, if nothing else is there. */
  function Core(s: string): Option<string> {
    var t := SkipSpaces(s);
    var word := UpToSpace(t);
    UpToSpaceIsPrefix(t);
    if SkipSpaces(t[|word|..]) == [] then Some(word) else None
  }

  lemma {:induction false} UpToSpaceIsPrefix(s: string)
    ensures |UpToSpace(s)| <= |s| && UpToSpace(s) == s[..|UpToSpace(s)|]
    ensures forall c :: c in UpToSpace(s) ==> !IsSpace(c)
  {
    if s != [] && !IsSpace(s[0]) {
      UpToSpaceIsPrefix(s[1..]);
    }
  }

  /** What the text of a number denotes, once the spaces are gone. */
  function DecodedWord(word: string): Option<Bytes> {
    var ones := LeadingOnes(word);
    OnesArePrefix(word);
    match Parsed(word[ones..])
    case None => None
    case Some(d) =>
      var v := Num(d, 58);
      ToDigitsShape(v, 256);
      Some(AsBytes(Zeros(ones)) + AsBytes(ToDigits(v, 256)))
  }

  function Decode(s: string): Option<Bytes> {
    match Core(s)
    case None => None
    case Some(word) => DecodedWord(word)
  }

  lemma {:induction false} OnesArePrefix(s: string)
    ensures LeadingOnes(s) <= |s| && s[..LeadingOnes(s)] == Ones(LeadingOnes(s))
    ensures LeadingOnes(s) < |s| ==> s[LeadingOnes(s)] != '1'
  {
    if s != [] && s[0] == '1' {
      OnesArePrefix(s[1..]);
      var n := LeadingOnes(s[1..]);
      assert s[..n + 1] == ['1'] + s[1..][..n];
      assert Ones(n + 1) == ['1'] + Ones(n);
    }
  }

  // ----- round trips -----

  lemma {:induction false} ZerosAreStripped(b: Bytes)
    ensures LeadingZeros(b) == |b| - |Strip(b)|
  {
    if b != [] && b[0] == 0 {
      ZerosAreStripped(b[1..]);
    }
  }

  lemma {:induction false} OnesThen(n: nat, t: string)
    requires t == [] || t[0] != '1'
    ensures LeadingOnes(Ones(n) + t) == n
  {
    if n == 0 {
      assert Ones(0) + t == t;
    } else {
      OnesThen(n - 1, t);
      assert (Ones(n) + t)[1..] == Ones(n - 1) + t;
    }
  }

  lemma {:induction false} ZerosThen(n: nat, b: Bytes)
    requires b == [] || b[0] != 0
    ensures LeadingZeros(AsBytes(Zeros(n)) + b) == n
  {
    if n == 0 {
      assert AsBytes(Zeros(0)) + b == b;
    } else {
      ZerosThen(n - 1, b);
      assert (AsBytes(Zeros(n)) + b)[1..] == AsBytes(Zeros(n - 1)) + b;
    }
  }

  lemma {:induction false} ParsedText(s: Digits)
    requires Below(s, 58)
    ensures Parsed(Text(s)) == Some(s)
  {
    hide CharOf, RangeChar, DigitOf;
    if s != [] {
      var u, d := s[..|s| - 1], s[|s| - 1];
      ParsedText(u);
      assert Text(s)[..|s| - 1] == Text(u) && Text(s)[|s| - 1] == CharOf(d);
      Alphabet(d, '1');
      assert s == u + [d];
    }
  }

  lemma {:induction false} TextOfParsed(t: string)
    requires Parsed(t).Some?
    ensures var d := Parsed(t).value; |d| == |t| && Below(d, 58) && Text(d) == t
  {
    hide CharOf, RangeChar, DigitOf;
    if t != [] {
      TextOfParsed(t[..|t| - 1]);
      Alphabet(0, t[|t| - 1]);
    }
  }

  lemma {:induction false} NoSpaces(s: string)
    requires forall c :: c in s ==> !IsSpace(c)
    ensures SkipSpaces(s) == s && UpToSpace(s) == s
  {
    if s != [] {
      assert s[0] in s;
      NoSpaces(s[1..]);
    }
  }

  lemma EncodeHasNoSpaces(n: nat, s: Digits)
    requires Below(s, 58)
    ensures forall c :: c in Ones(n) + Text(s) ==> !IsSpace(c)
  {
    hide CharOf, RangeChar, IsSpace;
    forall c | c in Ones(n) + Text(s)
      ensures !IsSpace(c)
    {
      Alphabet(0, '1');
      OneIsOne();
      var i :| 0 <= i < n + |s| && c == (Ones(n) + Text(s))[i];
      if i >= n {
        Alphabet(s[i - n], '1');
      }
    }
  }

  lemma OneIsOne()
    ensures CharOf(0) == '1'
  {
    CharIsInRange(0);
  }

  /** Every list of bytes is read back from its text. */
  lemma RoundTrip(b: Bytes)
    ensures Decode(Encode(b)) == Some(b)
  {
    hide CharOf, RangeChar, DigitOf, IsSpace, Num, ToDigits, Strip, Parsed, LeadingOnes, LeadingZeros, SkipSpaces, UpToSpace;
    var v, z := Num(b, 256), LeadingZeros(b);
    var d := ToDigits(v, 58);
    ToDigitsShape(v, 58);
    EncodeHasNoSpaces(z, d);
    NoSpaces(Encode(b));
    assert Encode(b)[|Encode(b)|..] == [];
    NoSpaces([]);
    assert Core(Encode(b)) == Some(Encode(b));
    if d != [] {
      Alphabet(d[0], '1');
    }
    OnesThen(z, Text(d));
    assert Encode(b)[z..] == Text(d);
    ParsedText(d);
    ToDigitsShape(v, 256);
    StripIsShortest(b, 256);
    StripShape(b);
    ZerosAreStripped(b);
    assert AsBytes(Zeros(z)) + AsBytes(ToDigits(v, 256)) == b;
  }

  /** Every text that is accepted is, but for the spaces around it, the text of what it denotes. */
  lemma EncodeOfDecode(s: string)
    requires Decode(s).Some?
    ensures Core(s) == Some(Encode(Decode(s).value))
  {
    hide CharOf, RangeChar, DigitOf, IsSpace, Num, ToDigits, Strip, Parsed, LeadingOnes, LeadingZeros, SkipSpaces, UpToSpace, Core;
    var word := Core(s).value;
    var z := LeadingOnes(word);
    OnesArePrefix(word);
    var t := word[z..];
    TextOfParsed(t);
    var d := Parsed(t).value;
    var v := Num(d, 58);
    ToDigitsShape(v, 256);
    var low := ToDigits(v, 256);
    ZerosThen(z, AsBytes(low));
    var b := AsBytes(Zeros(z)) + AsBytes(low);
    assert b == Zeros(z) + low;
    NumZeros(z, low, 256);
    if d != [] {
      Alphabet(d[0], '1');
      assert t[0] == CharOf(d[0]);
    }
    ToDigitsOfNum(d, 58);
    assert word == word[..z] + t;
  }

  // ----- the loops -----

  /** The digits are below the base, and all but the last `length` of them are 0. */
  ghost predicate BufferOk(s: Digits, base: nat, length: nat) {
    length <= |s| && Below(s, base) && forall i :: 0 <= i < |s| - length ==> s[i] == 0
  }

  /** The low digits done so far and the carry are the low digits before, times the factor, plus what was added. */
  ghost predicate MulAddInv(low: Digits, before: Digits, base: nat, factor: nat, add: nat, carry: nat) {
    |low| == |before| && Num(low, base) + Pow(base, |low|) * carry == Num(before, base) * factor + add
  }

  /** The loop after `i` digits: the others are untouched. */
  ghost predicate MulAddLoop(s: Digits, before: Digits, base: nat, factor: nat, add: nat, i: nat, carry: nat) {
    && |s| == |before| && i <= |s| && s[..|s| - i] == before[..|s| - i]
    && (forall j :: |s| - i <= j < |s| ==> s[j] < base)
    && MulAddInv(s[|s| - i..], before[|s| - i..], base, factor, add, carry)
  }

  /**
   The inner loop of both directions: the number in the buffer is multiplied by the factor
   and the next digit is added, from the lowest digit up and no further than needed.
   Where the result fits, no carry is left over.
   */
  method MulAdd(buf: array<nat>, base: nat, factor: nat, add: nat, length: nat) returns (newLength: nat)
    requires base > 1 && BufferOk(buf[..], base, length)
    requires Num(buf[..], base) * factor + add < Pow(base, buf.Length)
    modifies buf
    ensures BufferOk(buf[..], base, newLength)
    ensures Num(buf[..], base) == old(Num(buf[..], base)) * factor + add
  {
    hide *;
    ghost var before := buf[..];
    ghost var total: nat := Num(before, base) * factor + add;
    var n := buf.Length;
    var carry: nat, i := add, 0;
    LoopStart(before, base, factor, add);
    while (carry != 0 || i < length) && i < n
      invariant 0 <= i <= n && MulAddLoop(buf[..], before, base, factor, add, i, carry)
    {
      var j := n - 1 - i;
      LoopStep(buf[..], before, base, factor, add, i, carry);
      ghost var s := buf[..];
      var t := Total(carry, factor, buf[j]);
      var digit: nat := t % base;
      buf[j] := digit;
      assert buf[..] == s[j := digit];
      carry := t / base;
      i := i + 1;
    }
    LoopEnd(buf[..], before, base, factor, add, length, i, carry, total);
    assert carry == 0;
    newLength := i;
  }

  lemma LoopStart(before: Digits, base: nat, factor: nat, add: nat)
    ensures MulAddLoop(before, before, base, factor, add, 0, add)
  {
    hide MulAddInv;
    MulAddStart(base, factor, add);
    assert before[|before|..] == [];
  }

  lemma LoopStep(s: Digits, before: Digits, base: nat, factor: nat, add: nat, i: nat, carry: nat)
    requires base > 1 && MulAddLoop(s, before, base, factor, add, i, carry) && i < |s|
    ensures var j := |s| - 1 - i;
            var t := Total(carry, factor, s[j]);
            t % base < base && t / base >= 0 && MulAddLoop(s[j := t % base], before, base, factor, add, i + 1, t / base)
  {
    hide MulAddInv, Total;
    var j := |s| - 1 - i;
    assert s[j] == s[..j + 1][j] == before[..j + 1][j] == before[j];
    MulAddStep(s[j + 1..], before[j + 1..], s[j], base, factor, add, carry);
    var x := Total(carry, factor, s[j]) % base;
    assert s[j := x][j..] == [x] + s[j + 1..] && before[j..] == [before[j]] + before[j + 1..];
    assert s[j := x][..j] == before[..j];
  }

  /** What the loop leaves, with the number to be reached under one name. */
  lemma LoopEnd(s: Digits, before: Digits, base: nat, factor: nat, add: nat, length: nat, i: nat, carry: nat, total: nat)
    requires base > 1 && BufferOk(before, base, length) && MulAddLoop(s, before, base, factor, add, i, carry)
    requires (carry == 0 && i >= length) || i == |s|
    requires Num(before, base) * factor + add == total < Pow(base, |before|)
    ensures carry == 0 && BufferOk(s, base, i) && Num(s, base) == total
  {
    hide *;
    LoopParts(s, before, base, factor, add, i, carry);
    OkParts(before, base, length);
    var k := |s| - i;
    HighZeros(before, before, k, base);
    HighZeros(s, before, k, base);
    LowIsTotal(s[k..], before[k..], base, factor, add, carry, Num(before, base), total);
    MulAddEnd(s, base, i, carry, total);
  }

  lemma LoopParts(s: Digits, before: Digits, base: nat, factor: nat, add: nat, i: nat, carry: nat)
    requires MulAddLoop(s, before, base, factor, add, i, carry)
    ensures |s| == |before| && i <= |s| && s[..|s| - i] == before[..|s| - i]
    ensures forall j :: |s| - i <= j < |s| ==> s[j] < base
    ensures MulAddInv(s[|s| - i..], before[|s| - i..], base, factor, add, carry)
  {
  }

  lemma OkParts(s: Digits, base: nat, length: nat)
    requires BufferOk(s, base, length)
    ensures length <= |s| && (forall i :: 0 <= i < |s| ==> s[i] < base) && forall i :: 0 <= i < |s| - length ==> s[i] == 0
  {
  }

  function Total(carry: nat, factor: nat, x: nat): nat {
    carry + factor * x
  }

  lemma MulAddStart(base: nat, factor: nat, add: nat)
    ensures MulAddInv([], [], base, factor, add, add)
  {
  }

  lemma NumHead(d: nat, s: Digits, b: nat)
    ensures Num([d] + s, b) == d * Pow(b, |s|) + Num(s, b)
  {
    NumAppend([d], s, b);
    NumPush([], d, b);
    assert [] + [d] == [d];
  }

  lemma MulAddStep(low: Digits, before: Digits, x: nat, base: nat, factor: nat, add: nat, carry: nat)
    requires base > 1 && MulAddInv(low, before, base, factor, add, carry)
    ensures var t := Total(carry, factor, x);
            t % base < base && t / base >= 0 && MulAddInv([t % base] + low, [x] + before, base, factor, add, t / base)
  {
    var p := Pow(base, |low|);
    var t := Total(carry, factor, x);
    NumHead(t % base, low, base);
    NumHead(x, before, base);
    assert Pow(base, |low| + 1) == base * p;
    hide Num, Pow;
    MulAddArithmetic(Num(low, base), Num(before, base), p, base, factor, add, carry, x);
  }

  lemma MulAddArithmetic(v: nat, w: nat, p: nat, base: nat, factor: nat, add: nat, carry: nat, x: nat)
    requires base > 1 && v + p * carry == w * factor + add
    ensures var t := carry + factor * x;
            t % base * p + v + base * p * (t / base) == (x * p + w) * factor + add
  {
    var t := carry + factor * x;
    var q, r := t / base, t % base;
    assert t == base * q + r;
    DigitProduct(p, base, q, r);
    assert p * t == p * carry + p * (factor * x);
    FactorProduct(x, p, w, factor);
  }

  lemma DigitProduct(p: nat, base: nat, q: nat, r: nat)
    ensures r * p + base * p * q == p * (base * q + r)
  {
  }

  lemma FactorProduct(x: nat, p: nat, w: nat, factor: nat)
    ensures (x * p + w) * factor == p * (factor * x) + w * factor
  {
  }

  /** The invariant of the finished low digits, with the number to be reached under one name. */
  lemma LowIsTotal(low: Digits, before: Digits, base: nat, factor: nat, add: nat, carry: nat, whole: nat, total: nat)
    requires MulAddInv(low, before, base, factor, add, carry)
    requires Num(before, base) == whole && whole * factor + add == total
    ensures Num(low, base) + Pow(base, |low|) * carry == total
  {
    hide Num, Pow;
  }

  /** Once the loop stops, nothing is left to carry: the number reached fits the buffer. */
  lemma MulAddEnd(s: Digits, base: nat, i: nat, carry: nat, total: nat)
    requires base > 1 && i <= |s|
    requires (forall j :: |s| - i <= j < |s| ==> s[j] < base) && forall j :: 0 <= j < |s| - i ==> s[j] == 0
    requires Num(s[|s| - i..], base) + Pow(base, i) * carry == total
    requires carry == 0 || i == |s|
    requires total < Pow(base, |s|)
    ensures carry == 0 && BufferOk(s, base, i) && Num(s, base) == total
  {
    hide *;
    HighZeros(s, s, |s| - i, base);
    if i == |s| {
      NoCarryLeft(Num(s[|s| - i..], base), Pow(base, i), carry, total);
    }
    TimesZero(Pow(base, i));
    EndOk(s, base, i);
  }

  lemma NoCarryLeft(v: nat, p: nat, carry: nat, total: nat)
    requires v + p * carry == total < p
    ensures carry == 0
  {
    if carry > 0 {
      MulMonotone(1, carry, p);
      assert false;
    }
  }

  lemma TimesZero(p: nat)
    ensures p * 0 == 0
  {
  }

  lemma EndOk(s: Digits, base: nat, i: nat)
    requires base > 1 && i <= |s| && (forall j :: |s| - i <= j < |s| ==> s[j] < base) && forall j :: 0 <= j < |s| - i ==> s[j] == 0
    ensures BufferOk(s, base, i)
  {
  }

  lemma HighZeros(s: Digits, before: Digits, k: nat, base: nat)
    requires k <= |s| == |before| && s[..k] == before[..k] && forall j :: 0 <= j < k ==> before[j] == 0
    ensures Num(s, base) == Num(s[k..], base) && forall j :: 0 <= j < k ==> s[j] == 0
  {
    hide Num;
    forall j | 0 <= j < k
      ensures s[j] == 0
    {
      assert s[..k][j] == before[..k][j];
    }
    assert s == Zeros(k) + s[k..];
    NumZeros(k, s[k..], base);
  }

  /** The characters of the last `length` digits, after the zeros among them. */
  method StripBuffer(buf: array<nat>, base: nat, length: nat) returns (s: Digits)
    requires base > 1 && BufferOk(buf[..], base, length)
    ensures Below(s, base) && s == ToDigits(Num(buf[..], base), base)
  {
    hide *;
    OkParts(buf[..], base, length);
    var i := buf.Length - length;
    StripFrom(buf[..], i);
    while i < buf.Length && buf[i] == 0
      invariant 0 <= i <= buf.Length && Strip(buf[..]) == Strip(buf[i..])
    {
      StripStep(buf[i..]);
      assert buf[i..][1..] == buf[i + 1..];
      i := i + 1;
    }
    s := buf[i..];
    StripDone(s);
    BelowIs(buf[..], s, base);
    StripIsShortest(buf[..], base);
  }

  lemma {:induction false} StripFrom(s: Digits, i: nat)
    requires i <= |s| && forall j :: 0 <= j < i ==> s[j] == 0
    ensures Strip(s) == Strip(s[i..])
  {
    if i > 0 {
      StripFrom(s[1..], i - 1);
      assert s[1..][i - 1..] == s[i..];
    } else {
      assert s[0..] == s;
    }
  }

  lemma StripStep(s: Digits)
    requires s != [] && s[0] == 0
    ensures Strip(s) == Strip(s[1..])
  {
  }

  lemma StripDone(s: Digits)
    requires s == [] || s[0] != 0
    ensures Strip(s) == s
  {
  }

  lemma BelowIs(buf: Digits, s: Digits, base: nat)
    requires (forall i :: 0 <= i < |buf| ==> buf[i] < base) && |s| <= |buf| && s == buf[|buf| - |s|..]
    ensures Below(s, base) && Below(buf, base)
  {
  }

  /** The number in the first digits of a list fits a buffer that the whole list fits. */
  lemma PrefixFits(s: Digits, from: nat, k: nat, base: nat, size: nat)
    requires base > 1 && from > 0 && Below(s, from) && k < |s| && Pow(from, |s|) <= Pow(base, size)
    ensures Num(s[..k + 1], from) == Num(s[..k], from) * from + s[k] < Pow(base, size)
  {
    hide Num, Pow;
    assert s[..k + 1] == s[..k] + [s[k]];
    NumPush(s[..k], s[k], from);
    NumRange(s[..k + 1], from);
    PowMonotone(from, k + 1, |s|);
  }

  /** The main loop of both directions: digits in one base become digits in another. */
  method Convert(s: Digits, from: nat, base: nat, size: nat) returns (r: Digits)
    requires base > 1 && from > 0 && Below(s, from) && Pow(from, |s|) <= Pow(base, size)
    ensures Below(r, base) && r == ToDigits(Num(s, from), base)
  {
    hide *;
    var buf := new nat[size](i => 0);
    var length: nat, k := 0, 0;
    EmptyBuffer(buf[..], base, s, from);
    while k < |s|
      invariant 0 <= k <= |s| && BufferOk(buf[..], base, length)
      invariant Num(buf[..], base) == Num(s[..k], from)
    {
      PrefixFits(s, from, k, base, size);
      length := MulAdd(buf, base, from, s[k], length);
      k := k + 1;
    }
    assert s[..k] == s;
    r := StripBuffer(buf, base, length);
  }

  lemma EmptyBuffer(buf: Digits, base: nat, s: Digits, from: nat)
    requires base > 1 && forall i :: 0 <= i < |buf| ==> buf[i] == 0
    ensures BufferOk(buf, base, 0) && Num(buf, base) == Num(s[..0], from)
  {
    assert buf == Zeros(|buf|) + [];
    NumZeros(|buf|, [], base);
    assert s[..0] == [];
  }

  /** `EncodeBase58`. */
  method EncodeBase58(b: Bytes) returns (r: string)
    ensures r == Encode(b)
  {
    hide *;
    var zeroes := 0;
    ZerosFrom(b, 0);
    while zeroes < |b| && b[zeroes] == 0
      invariant 0 <= zeroes <= |b| && LeadingZeros(b) == zeroes + LeadingZeros(b[zeroes..])
    {
      ZerosFrom(b, zeroes);
      zeroes := zeroes + 1;
    }
    ZerosFrom(b, zeroes);
    var s: Digits := b[zeroes..];
    BytesFit(|s|);
    BytesBelow(s);
    var digits := Convert(s, 256, 58, |s| * 138 / 100 + 1);
    EncodeIs(b, zeroes);
    r := Ones(zeroes) + Text(digits);
  }

  lemma ZerosFrom(b: Bytes, i: nat)
    requires i <= |b|
    ensures i == 0 ==> b[0..] == b
    ensures LeadingZeros(b[i..]) == if i < |b| && b[i] == 0 then 1 + LeadingZeros(b[i + 1..]) else 0
  {
    if i < |b| {
      assert b[i..][1..] == b[i + 1..];
    }
  }

  lemma BytesBelow(b: Bytes)
    ensures Below(b, 256)
  {
  }

  lemma EncodeIs(b: Bytes, z: nat)
    requires z == LeadingZeros(b) <= |b|
    ensures Below(ToDigits(Num(b[z..], 256), 58), 58) && Encode(b) == Ones(z) + Text(ToDigits(Num(b[z..], 256), 58))
  {
    hide Num, ToDigits, LeadingZeros, Strip;
    ZerosAreStripped(b);
    StripShape(b);
    assert b[z..] == Strip(b);
    NumZeros(z, b[z..], 256);
    ToDigitsShape(Num(b, 256), 58);
  }

  /** `DecodeBase58`, on the characters up to the terminating zero. */
  method DecodeBase58(psz: string) returns (r: Option<Bytes>)
    ensures r == Decode(psz)
  {
    hide *;
    var i := 0;
    SkipFrom(psz, 0);
    while i < |psz| && IsSpace(psz[i])
      invariant 0 <= i <= |psz| && SkipSpaces(psz) == SkipSpaces(psz[i..])
    {
      SkipFrom(psz, i);
      i := i + 1;
    }
    SkipFrom(psz, i);
    ghost var t := psz[i..];
    var word := ReadWord(psz, i);
    var k := i + |word|;
    ghost var after := t[|word|..];
    assert after == psz[k..];
    while k < |psz| && IsSpace(psz[k])
      invariant 0 <= k <= |psz| && SkipSpaces(after) == SkipSpaces(psz[k..])
    {
      SkipFrom(psz, k);
      k := k + 1;
    }
    SkipFrom(psz, k);
    CoreIs(psz, t, word);
    r := DecodeWord(word, |psz| - i - |word|);
    DecodeIs(psz, word);
    if k < |psz| {
      r := None;
    }
  }

  lemma SkipFrom(s: string, i: nat)
    requires i <= |s|
    ensures i == 0 ==> s[0..] == s
    ensures SkipSpaces(s[i..]) == if i < |s| && IsSpace(s[i]) then SkipSpaces(s[i + 1..]) else s[i..]
  {
    if i < |s| {
      assert s[i..][1..] == s[i + 1..];
    }
  }

  lemma CoreIs(s: string, t: string, word: string)
    requires t == SkipSpaces(s) && word == UpToSpace(t) && |word| <= |t|
    ensures Core(s) == if SkipSpaces(t[|word|..]) == [] then Some(word) else None
  {
  }

  lemma DecodeIs(s: string, word: string)
    requires Core(s).Some? ==> Core(s).value == word
    ensures Decode(s) == if Core(s).None? then None else DecodedWord(word)
  {
  }

  /** The word is what was read so far and what is still to be read of it. */
  ghost predicate WordInv(s: string, from: nat, i: nat) {
    from <= i <= |s| && UpToSpace(s[from..]) == s[from..i] + UpToSpace(s[i..])
  }

  lemma WordStart(s: string, from: nat)
    requires from <= |s|
    ensures WordInv(s, from, from)
  {
    assert s[from..from] == [];
  }

  lemma WordStep(s: string, from: nat, i: nat)
    requires WordInv(s, from, i) && i < |s| && !IsSpace(s[i])
    ensures WordInv(s, from, i + 1)
  {
    hide UpToSpace;
    WordFrom(s, i);
    WordGrows(s, from, i, UpToSpace(s[i + 1..]));
  }

  lemma WordEnd(s: string, from: nat, i: nat)
    requires WordInv(s, from, i) && (i == |s| || IsSpace(s[i]))
    ensures UpToSpace(s[from..]) == s[from..i]
  {
    hide UpToSpace;
    WordFrom(s, i);
    assert s[from..i] + [] == s[from..i];
  }

  method ReadWord(s: string, from: nat) returns (word: string)
    requires from <= |s|
    ensures word == UpToSpace(s[from..]) && from + |word| <= |s| && word == s[from..from + |word|]
  {
    hide *;
    var i := from;
    WordStart(s, from);
    while i < |s| && !IsSpace(s[i])
      invariant from <= i <= |s| && WordInv(s, from, i)
    {
      WordStep(s, from, i);
      i := i + 1;
    }
    WordEnd(s, from, i);
    word := s[from..i];
  }

  lemma WordGrows(s: string, from: nat, i: nat, rest: string)
    requires from <= i < |s|
    ensures s[from..i] + ([s[i]] + rest) == s[from..i + 1] + rest
  {
  }

  lemma WordFrom(s: string, i: nat)
    requires i <= |s|
    ensures UpToSpace(s[i..]) == if i < |s| && !IsSpace(s[i]) then [s[i]] + UpToSpace(s[i + 1..]) else []
  {
    if i < |s| {
      assert s[i..][1..] == s[i + 1..];
    }
  }

  /** A word that `tail` more characters follow: the buffer is sized for all of them. */
  method DecodeWord(word: string, tail: nat) returns (r: Option<Bytes>)
    ensures r == DecodedWord(word)
  {
    hide *;
    var ones := 0;
    OnesFrom(word, 0);
    while ones < |word| && word[ones] == '1'
      invariant 0 <= ones <= |word| && LeadingOnes(word) == ones + LeadingOnes(word[ones..])
    {
      OnesFrom(word, ones);
      ones := ones + 1;
    }
    OnesFrom(word, ones);
    var t := word[ones..];
    var d: Digits, i := [], 0;
    ParsedEmpty(t);
    while i < |t|
      invariant 0 <= i <= |t| && Parsed(t[..i]) == Some(d)
    {
      ParsedFrom(t, i);
      if DigitOf(t[i]).None? {
        NeverParsed(t, i + 1);
        DecodedWordIs(word, ones);
        return None;
      }
      d := d + [DigitOf(t[i]).value];
      i := i + 1;
    }
    assert t[..i] == t;
    TextOfParsed(t);
    TextFits(|d| + tail);
    PowMonotone(58, |d|, |d| + tail);
    var bytes := Convert(d, 58, 256, (|d| + tail) * 733 / 1000 + 1);
    DecodedWordIs(word, ones);
    ZerosBelow(ones);
    r := Some(AsBytes(Zeros(ones)) + AsBytes(bytes));
  }

  lemma OnesFrom(s: string, i: nat)
    requires i <= |s|
    ensures i == 0 ==> s[0..] == s
    ensures LeadingOnes(s[i..]) == if i < |s| && s[i] == '1' then 1 + LeadingOnes(s[i + 1..]) else 0
  {
    if i < |s| {
      assert s[i..][1..] == s[i + 1..];
    }
  }

  lemma ParsedEmpty(t: string)
    ensures Parsed(t[..0]) == Some([])
  {
  }

  lemma ParsedFrom(t: string, i: nat)
    requires i < |t| && Parsed(t[..i]).Some?
    ensures Parsed(t[..i + 1]) == match DigitOf(t[i]) case None => None case Some(d) => Some(Parsed(t[..i]).value + [d])
  {
    hide DigitOf;
    assert t[..i + 1][..i] == t[..i];
  }

  lemma {:induction false} NeverParsed(t: string, i: nat)
    requires i <= |t| && Parsed(t[..i]).None?
    ensures Parsed(t).None?
    decreases |t|
  {
    hide DigitOf;
    if i < |t| {
      assert t[..|t| - 1][..i] == t[..i];
      NeverParsed(t[..|t| - 1], i);
    } else {
      assert t[..i] == t;
    }
  }

  lemma ZerosBelow(n: nat)
    ensures Below(Zeros(n), 256)
  {
  }

  lemma DecodedWordIs(word: string, ones: nat)
    requires ones == LeadingOnes(word) <= |word|
    ensures Parsed(word[ones..]).None? ==> DecodedWord(word) == None
    ensures Parsed(word[ones..]).Some? ==>
              var bytes := ToDigits(Num(Parsed(word[ones..]).value, 58), 256);
              Below(bytes, 256) && DecodedWord(word) == Some(AsBytes(Zeros(ones)) + AsBytes(bytes))
  {
    hide Num, ToDigits, Parsed, LeadingOnes;
    if Parsed(word[ones..]).Some? {
      ToDigitsShape(Num(Parsed(word[ones..]).value, 58), 256);
    }
  }
}
