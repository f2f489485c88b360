/** `Encode` and `Decode` of src/bech32.cpp: a prefix, the separator `1`, the data and the checksum. */
module Bech32Text {
  import opened Basics
  import opened Bech32

  // ----- the alphabet -----

  function CharOf(v: Symbol): char {
    "qpzry9x8gf2tvdw0s3jn54khce6mua7l"[v]
  }

  /** The reverse table: the digits and the letters of either case, -1 everywhere else. */
  function SymbolOf(c: char): int {
    var l := LowerCase(c);
    if l == 'q' then 0 else if l == 'p' then 1 else if l == 'z' then 2 else if l == 'r' then 3
    else if l == 'y' then 4 else if l == '9' then 5 else if l == 'x' then 6 else if l == '8' then 7
    else if l == 'g' then 8 else if l == 'f' then 9 else if l == '2' then 10 else if l == 't' then 11
    else if l == 'v' then 12 else if l == 'd' then 13 else if l == 'w' then 14 else if l == '0' then 15
    else if l == 's' then 16 else if l == '3' then 17 else if l == 'j' then 18 else if l == 'n' then 19
    else if l == '5' then 20 else if l == '4' then 21 else if l == 'k' then 22 else if l == 'h' then 23
    else if l == 'c' then 24 else if l == 'e' then 25 else if l == '6' then 26 else if l == 'm' then 27
    else if l == 'u' then 28 else if l == 'a' then 29 else if l == '7' then 30 else if l == 'l' then 31
    else -1
  }

  predicate IsUpper(c: char) {
    'A' <= c <= 'Z'
  }

  predicate IsLower(c: char) {
    'a' <= c <= 'z'
  }

  function LowerCase(c: char): char {
    if IsUpper(c) then (c as int - 'A' as int + 'a' as int) as char else c
  }

  function Lower(s: string): string {
    seq(|s|, i requires 0 <= i < |s| => LowerCase(s[i]))
  }

  /** The alphabet has 32 characters, none of them upper case, a space or the separator. */
  lemma CharIsGood(v: Symbol)
    ensures var c := CharOf(v); SymbolOf(c) == v && LowerCase(c) == c && !IsUpper(c) && c != '1' && 33 <= c as int <= 126
  {
    var text := "qpzry9x8gf2tvdw0s3jn54khce6mua7l";
    if v < 8 {
      assert v == 0 || v == 1 || v == 2 || v == 3 || v == 4 || v == 5 || v == 6 || v == 7;
    } else if v < 16 {
      assert v == 8 || v == 9 || v == 10 || v == 11 || v == 12 || v == 13 || v == 14 || v == 15;
    } else if v < 24 {
      assert v == 16 || v == 17 || v == 18 || v == 19 || v == 20 || v == 21 || v == 22 || v == 23;
    } else {
      assert v == 24 || v == 25 || v == 26 || v == 27 || v == 28 || v == 29 || v == 30 || v == 31;
    }
  }

  lemma SymbolIsGood(c: char)
    ensures -1 <= SymbolOf(c) < 32
    ensures SymbolOf(c) != -1 ==> CharOf(SymbolOf(c)) == LowerCase(c)
    ensures SymbolOf('1') == -1
  {
  }

  // ----- prefix -----

  /** The prefix as symbols: the high bits of every character, a 0, the low bits of every character. */
  function ExpandHRP(hrp: string): seq<Symbol> {
    seq(|hrp|, i requires 0 <= i < |hrp| => hrp[i] as int % 256 / 32) + [0]
      + seq(|hrp|, i requires 0 <= i < |hrp| => hrp[i] as int % 32)
  }

  lemma ExpandLength(hrp: string)
    ensures |ExpandHRP(hrp)| == 2 * |hrp| + 1
  {
  }

  lemma ExpandAt(hrp: string, i: nat)
    requires i < |hrp| && (hrp[i] as int) < 256
    ensures |ExpandHRP(hrp)| == 2 * |hrp| + 1
    ensures ExpandHRP(hrp)[i] == hrp[i] as int / 32 && ExpandHRP(hrp)[|hrp| + 1 + i] == hrp[i] as int % 32
  {
  }

  lemma SameCharacter(c: char, d: char)
    requires c as int / 32 == d as int / 32 && c as int % 32 == d as int % 32
    ensures c == d
  {
  }

  /** Nothing of a prefix is lost: different prefixes of one-byte characters expand differently. */
  lemma ExpandTellsPrefixes(a: string, b: string)
    requires (forall i :: 0 <= i < |a| ==> (a[i] as int) < 256) && forall i :: 0 <= i < |b| ==> (b[i] as int) < 256
    requires ExpandHRP(a) == ExpandHRP(b)
    ensures a == b
  {
    hide *;
    ExpandLength(a);
    ExpandLength(b);
    forall i | 0 <= i < |a|
      ensures a[i] == b[i]
    {
      ExpandAt(a, i);
      ExpandAt(b, i);
      SameCharacter(a[i], b[i]);
    }
  }

  function VerifyChecksum(hrp: string, values: seq<Symbol>): Option<Encoding> {
    var r := PolyMod(ExpandHRP(hrp) + values);
    if r == Constant(BECH32) then Some(BECH32) else if r == Constant(BECH32M) then Some(BECH32M) else None
  }

  lemma ConstantsDiffer()
    ensures Constant(BECH32) != Constant(BECH32M)
  {
    assert Constant(BECH32)[1] != Constant(BECH32M)[1];
  }

  /** A change confined to six consecutive symbols of a valid text is never valid under the same encoding. */
  lemma BurstIsDetected(hrp: string, values: seq<Symbol>, other: seq<Symbol>, i: nat, k: nat, e: Encoding)
    requires i <= k <= |values| == |other| && k - i <= 6
    requires other[..i] == values[..i] && other[k..] == values[k..] && other != values
    requires VerifyChecksum(hrp, values) == Some(e)
    ensures VerifyChecksum(hrp, other) != Some(e)
  {
    hide PolyMod, Constant;
    ConstantsDiffer();
    var a := ExpandHRP(hrp) + values[..i];
    var d, f, t := values[i..k], other[i..k], values[k..];
    assert ExpandHRP(hrp) + values == a + d + t && ExpandHRP(hrp) + other == a + f + t;
    assert other == other[..i] + f + other[k..] && values == values[..i] + d + t;
    BurstShows(a, d, f, t);
  }

  /** In particular, a change of a single symbol. */
  lemma OneErrorIsDetected(hrp: string, values: seq<Symbol>, i: nat, v: Symbol, e: Encoding)
    requires i < |values| && v != values[i] && VerifyChecksum(hrp, values) == Some(e)
    ensures VerifyChecksum(hrp, values[i := v]) != Some(e)
  {
    hide VerifyChecksum;
    BurstIsDetected(hrp, values, values[i := v], i, i + 1, e);
  }

  // ----- text -----

  datatype Decoded = Decoded(encoding: Encoding, hrp: string, data: seq<Symbol>)

  function Chars(values: seq<Symbol>): string {
    seq(|values|, i requires 0 <= i < |values| => CharOf(values[i]))
  }

  function Encode(e: Encoding, hrp: string, values: seq<Symbol>): string {
    var lower := Lower(hrp);
    lower + ['1'] + Chars(values + Checksum(e, ExpandHRP(lower) + values))
  }

  /** Every character may stand in a text, and not both cases occur. */
  predicate Legible(s: string) {
    && (forall i :: 0 <= i < |s| ==> 33 <= s[i] as int <= 126)
    && !((exists i :: 0 <= i < |s| && IsLower(s[i])) && exists i :: 0 <= i < |s| && IsUpper(s[i]))
  }

  /** The position of the last separator, -1 if there is none. */
  function LastOne(s: string): int
    ensures -1 <= LastOne(s) < |s|
  {
    if s == [] then -1 else if s[|s| - 1] == '1' then |s| - 1 else LastOne(s[..|s| - 1])
  }

  function SymbolsOf(s: string): Option<seq<Symbol>> {
    if s == [] then Some([])
    else
      SymbolIsGood(s[|s| - 1]);
      if SymbolOf(s[|s| - 1]) == -1 then None
      else
        match SymbolsOf(s[..|s| - 1])
        case None => None
        case Some(v) => Some(v + [SymbolOf(s[|s| - 1])])
  }

  function Decode(s: string): Option<Decoded> {
    if !Legible(s) then None else
    var pos := LastOne(s);
    if |s| > 90 || pos == -1 || pos == 0 || pos + 7 > |s| then None else
    match SymbolsOf(s[pos + 1..])
    case None => None
    case Some(values) => DecodeParts(Lower(s[..pos]), values)
  }

  function DecodeParts(hrp: string, values: seq<Symbol>): Option<Decoded> {
    match VerifyChecksum(hrp, values)
    case None => None
    case Some(e) => if |values| < 6 then None else Some(Decoded(e, hrp, values[..|values| - 6]))
  }

  lemma {:induction false} SymbolsOfChars(values: seq<Symbol>)
    ensures SymbolsOf(Chars(values)) == Some(values)
  {
    hide CharOf, SymbolOf;
    if values != [] {
      var u, v := values[..|values| - 1], values[|values| - 1];
      SymbolsOfChars(u);
      CharIsGood(v);
      assert Chars(values)[..|values| - 1] == Chars(u) && Chars(values)[|values| - 1] == CharOf(v);
      assert values == u + [v];
    }
  }

  lemma {:induction false} CharsOfSymbols(s: string)
    requires SymbolsOf(s).Some?
    ensures |SymbolsOf(s).value| == |s| && Chars(SymbolsOf(s).value) == Lower(s)
    ensures '1' !in s
  {
    hide CharOf, SymbolOf, LowerCase;
    if s != [] {
      var n := |s| - 1;
      CharsOfSymbols(s[..n]);
      SymbolIsGood(s[n]);
      assert s == s[..n] + [s[n]];
      var v := SymbolsOf(s[..n]).value;
      assert Lower(s) == Lower(s[..n]) + [LowerCase(s[n])];
      assert Chars(v + [SymbolOf(s[n])]) == Chars(v) + [CharOf(SymbolOf(s[n]))];
    }
  }

  lemma {:induction false} LastOneIs(a: string, b: string)
    requires '1' !in b
    ensures LastOne(a + ['1'] + b) == |a|
  {
    var s := a + ['1'] + b;
    if b == [] {
      assert s[|s| - 1] == '1';
    } else {
      var n := |b| - 1;
      assert b[n] in b;
      LastOneIs(a, b[..n]);
      assert s[..|s| - 1] == a + ['1'] + b[..n];
    }
  }

  lemma {:induction false} LastOneShape(s: string)
    requires LastOne(s) >= 0
    ensures s[LastOne(s)] == '1' && s == s[..LastOne(s)] + ['1'] + s[LastOne(s) + 1..]
  {
    if s[|s| - 1] != '1' {
      LastOneShape(s[..|s| - 1]);
    }
  }

  lemma CharsAreGood(values: seq<Symbol>)
    ensures '1' !in Chars(values)
    ensures forall i :: 0 <= i < |values| ==> !IsUpper(Chars(values)[i]) && 33 <= Chars(values)[i] as int <= 126
  {
    hide CharOf, IsUpper;
    forall i | 0 <= i < |values|
      ensures !IsUpper(Chars(values)[i]) && 33 <= Chars(values)[i] as int <= 126 && Chars(values)[i] != '1'
    {
      CharIsGood(values[i]);
    }
  }

  lemma LowerIsLower(s: string)
    ensures Lower(Lower(s)) == Lower(s) && forall i :: 0 <= i < |s| ==> !IsUpper(Lower(s)[i])
  {
  }

  lemma LowerIsLegible(hrp: string, text: string)
    requires forall i :: 0 <= i < |hrp| ==> 33 <= hrp[i] as int <= 126
    requires forall i :: 0 <= i < |text| ==> !IsUpper(text[i]) && 33 <= text[i] as int <= 126
    ensures Legible(Lower(hrp) + ['1'] + text)
  {
    var s := Lower(hrp) + ['1'] + text;
    forall i | 0 <= i < |s|
      ensures !IsUpper(s[i]) && 33 <= s[i] as int <= 126
    {
      if i < |hrp| {
        assert s[i] == LowerCase(hrp[i]);
      } else if i > |hrp| {
        assert s[i] == text[i - |hrp| - 1];
      }
    }
  }

  /** Every prefix and payload that fit 90 characters come back, the prefix in lower case. */
  lemma RoundTrip(e: Encoding, hrp: string, values: seq<Symbol>)
    requires hrp != [] && |hrp| + 1 + |values| + 6 <= 90
    requires forall i :: 0 <= i < |hrp| ==> 33 <= hrp[i] as int <= 126
    ensures Decode(Encode(e, hrp, values)) == Some(Decoded(e, Lower(hrp), values))
  {
    hide PolyMod, Constant, SymbolsOf, LastOne, Legible, LowerCase, CharOf;
    var lower := Lower(hrp);
    var check := Checksum(e, ExpandHRP(lower) + values);
    var all := values + check;
    var s := Encode(e, hrp, values);
    CharsAreGood(all);
    LowerIsLegible(hrp, Chars(all));
    LastOneIs(lower, Chars(all));
    assert s[|lower| + 1..] == Chars(all) && s[..|lower|] == lower;
    SymbolsOfChars(all);
    LowerIsLower(hrp);
    ChecksumIsRight(e, ExpandHRP(lower) + values, check);
    assert ExpandHRP(lower) + all == ExpandHRP(lower) + values + check;
    ConstantsDiffer();
    assert all[..|all| - 6] == values;
  }

  /** Every text that is accepted is, in lower case, the text of what it stands for. */
  lemma EncodeOfDecode(s: string)
    requires Decode(s).Some?
    ensures var d := Decode(s).value; Encode(d.encoding, d.hrp, d.data) == Lower(s)
  {
    hide PolyMod, Constant, SymbolsOf, LastOne, Legible, LowerCase, CharOf, Checksum;
    var d := Decode(s).value;
    var pos := LastOne(s);
    LastOneShape(s);
    var t := s[pos + 1..];
    CharsOfSymbols(t);
    var values := SymbolsOf(t).value;
    var n := |values| - 6;
    var check := values[n..];
    assert values == d.data + check;
    assert ExpandHRP(d.hrp) + values == ExpandHRP(d.hrp) + d.data + check;
    ChecksumIsRight(d.encoding, ExpandHRP(d.hrp) + d.data, check);
    LowerIsLower(s[..pos]);
    LowerOfParts(s[..pos], t);
  }

  lemma LowerOfParts(a: string, b: string)
    ensures Lower(a + ['1'] + b) == Lower(a) + ['1'] + Lower(b)
  {
  }

  // ----- the loops -----

  /** `PolyMod`, one symbol after the other. */
  method ComputePolyMod(s: seq<Symbol>) returns (c: Register)
    ensures c == PolyMod(s)
  {
    hide Step;
    c := Bits(1);
    var i := 0;
    while i < |s|
      invariant 0 <= i <= |s| && c == Poly(Bits(1), s[..i])
    {
      assert s[..i + 1][..i] == s[..i];
      c := Step(c, s[i]);
      i := i + 1;
    }
    assert s[..i] == s;
  }

  method LowerText(s: string) returns (r: string)
    ensures r == Lower(s)
  {
    hide LowerCase;
    r := [];
    var i := 0;
    while i < |s|
      invariant 0 <= i <= |s| && |r| == i && forall j :: 0 <= j < i ==> r[j] == LowerCase(s[j])
    {
      r := r + [LowerCase(s[i])];
      i := i + 1;
    }
  }

  /** `Encode`. */
  method EncodeText(e: Encoding, hrp: string, values: seq<Symbol>) returns (r: string)
    ensures r == Encode(e, hrp, values)
  {
    hide PolyMod, Constant, CharOf, Unpack, LowerCase;
    var lower := LowerText(hrp);
    var m := ComputePolyMod(ExpandHRP(lower) + values + ZeroSymbols(6));
    var combined := values + Unpack(Xor(m, Constant(e)));
    r := lower + ['1'];
    var i := 0;
    while i < |combined|
      invariant 0 <= i <= |combined| && |r| == |lower| + 1 + i && r[..|lower| + 1] == lower + ['1']
      invariant forall j :: 0 <= j < i ==> r[|lower| + 1 + j] == CharOf(combined[j])
    {
      r := r + [CharOf(combined[i])];
      i := i + 1;
    }
    assert r == lower + ['1'] + Chars(combined);
  }

  /** The first loop of `Decode`: no character out of range, and one case only. */
  method CheckLegible(s: string) returns (ok: bool)
    ensures ok == Legible(s)
  {
    var lower, upper := false, false;
    var i := 0;
    while i < |s|
      invariant 0 <= i <= |s| && forall j :: 0 <= j < i ==> 33 <= s[j] as int <= 126
      invariant lower <==> exists j :: 0 <= j < i && IsLower(s[j])
      invariant upper <==> exists j :: 0 <= j < i && IsUpper(s[j])
    {
      var c := s[i];
      if IsLower(c) {
        lower := true;
      } else if IsUpper(c) {
        upper := true;
      } else if (c as int) < 33 || c as int > 126 {
        return false;
      }
      i := i + 1;
    }
    return !(lower && upper);
  }

  /** `rfind('1')`. */
  method FindLastOne(s: string) returns (pos: int)
    ensures pos == LastOne(s)
  {
    pos := |s| - 1;
    assert s[..|s|] == s;
    while pos >= 0 && s[pos] != '1'
      invariant -1 <= pos < |s| && LastOne(s) == LastOne(s[..pos + 1])
    {
      assert s[..pos + 1][..pos] == s[..pos];
      pos := pos - 1;
    }
  }

  method ReadSymbols(s: string) returns (r: Option<seq<Symbol>>)
    ensures r == SymbolsOf(s)
  {
    hide SymbolOf;
    var values: seq<Symbol>, i := [], 0;
    while i < |s|
      invariant 0 <= i <= |s| && SymbolsOf(s[..i]) == Some(values)
    {
      SymbolIsGood(s[i]);
      assert s[..i + 1][..i] == s[..i];
      var rev := SymbolOf(s[i]);
      if rev == -1 {
        NeverSymbols(s, i + 1);
        return None;
      }
      values := values + [rev];
      i := i + 1;
    }
    assert s[..i] == s;
    r := Some(values);
  }

  lemma {:induction false} NeverSymbols(s: string, i: nat)
    requires i <= |s| && SymbolsOf(s[..i]).None?
    ensures SymbolsOf(s).None?
    decreases |s|
  {
    hide SymbolOf;
    if i < |s| {
      assert s[..|s| - 1][..i] == s[..i];
      NeverSymbols(s[..|s| - 1], i);
    } else {
      assert s[..i] == s;
    }
  }

  /** `Decode`. */
  method DecodeText(s: string) returns (r: Option<Decoded>)
    ensures r == Decode(s)
  {
    hide PolyMod, Constant, SymbolsOf, LastOne, Legible, LowerCase;
    var ok := CheckLegible(s);
    if !ok {
      return None;
    }
    var pos := FindLastOne(s);
    if |s| > 90 || pos == -1 || pos == 0 || pos + 7 > |s| {
      return None;
    }
    var values := ReadSymbols(s[pos + 1..]);
    if values.None? {
      return None;
    }
    CharsOfSymbols(s[pos + 1..]);
    var hrp := LowerText(s[..pos]);
    var m := ComputePolyMod(ExpandHRP(hrp) + values.value);
    var e := if m == Constant(BECH32) then Some(BECH32) else if m == Constant(BECH32M) then Some(BECH32M) else None;
    if e.None? {
      return None;
    }
    r := Some(Decoded(e.value, hrp, values.value[..|values.value| - 6]));
  }
}
