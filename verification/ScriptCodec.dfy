/**
 The compact form of an output script (`CScriptCompressor` in src/compressor.h and
 src/compressor.cpp): four shapes of script have a short form of their own, every
 other one is stored with its length, and one too long to be valid is replaced.
 */
module ScriptCodec {
  import opened VarInt
  import opened Basics
  import opened Coins

  const OP_RETURN: Byte := 0x6A
  const OP_DUP: Byte := 0x76
  const OP_EQUAL: Byte := 0x87
  const OP_EQUALVERIFY: Byte := 0x88
  const OP_HASH160: Byte := 0xA9
  const OP_CHECKSIG: Byte := 0xAC

  const SPECIAL_SCRIPTS := 6
  const MAX_SCRIPT_SIZE := 10000

  /**
   The elliptic curve, as the code uses it: whether a 65-byte key is a point, and the
   65-byte key that a 33-byte key stands for.
   */
  datatype Curve = Curve(isFullyValid: Bytes -> bool, expand: Bytes -> Option<Bytes>)

  /** A point is determined by its first coordinate and the parity of the second. */
  ghost predicate Sound(K: Curve) {
    forall key: Bytes :: |key| == 65 && key[0] == 4 && K.isFullyValid(key)
      ==> K.expand([2 + key[64] % 2] + key[1..33]) == Some(key)
  }

  predicate IsToKeyID(s: Script) {
    |s| == 25 && s[0] == OP_DUP && s[1] == OP_HASH160 && s[2] == 20 && s[23] == OP_EQUALVERIFY && s[24] == OP_CHECKSIG
  }

  predicate IsToScriptID(s: Script) {
    |s| == 23 && s[0] == OP_HASH160 && s[1] == 20 && s[22] == OP_EQUAL
  }

  predicate IsToShortKey(s: Script) {
    |s| == 35 && s[0] == 33 && s[34] == OP_CHECKSIG && (s[1] == 2 || s[1] == 3)
  }

  predicate IsToLongKey(K: Curve, s: Script) {
    |s| == 67 && s[0] == 65 && s[66] == OP_CHECKSIG && s[1] == 4 && K.isFullyValid(s[1..66])
  }

  function Compress(K: Curve, s: Script): Option<Bytes> {
    if IsToKeyID(s) then Some([0] + s[3..23])
    else if IsToScriptID(s) then Some([1] + s[2..22])
    else if IsToShortKey(s) then Some([s[1]] + s[2..34])
    else if IsToLongKey(K, s) then Some([4 + s[65] % 2] + s[2..34])
    else None
  }

  function SpecialSize(n: nat): nat {
    if n <= 1 then 20 else if n <= 5 then 32 else 0
  }

  /** The script that a short form stands for; the empty script when there is none. */
  function Decompress(K: Curve, n: nat, data: Bytes): Script
    requires n < SPECIAL_SCRIPTS
  {
    if n == 0 then [OP_DUP, OP_HASH160, 20] + data + [OP_EQUALVERIFY, OP_CHECKSIG]
    else if n == 1 then [OP_HASH160, 20] + data + [OP_EQUAL]
    else if n <= 3 then [33, n] + data + [OP_CHECKSIG]
    else
      match K.expand([n - 2] + data)
      case None => []
      case Some(key) => [65] + key + [OP_CHECKSIG]
  }

  function Serialize(K: Curve, s: Script): Bytes {
    match Compress(K, s)
    case Some(short) => short
    case None => Encode(|s| + SPECIAL_SCRIPTS) + s
  }

  function Unserialize(K: Curve, s: Bytes): Parse<Script> {
    match Cut(Decode(0, s), 32)
    case Fail => Fail
    case Done(n, t) =>
      var size := if n < SPECIAL_SCRIPTS then SpecialSize(n) else n - SPECIAL_SCRIPTS;
      if |t| < size then Fail
      else if n < SPECIAL_SCRIPTS then Done(Decompress(K, n, t[..size]), t[size..])
      else if size > MAX_SCRIPT_SIZE then Done([OP_RETURN], t[size..])
      else Done(t[..size], t[size..])
  }

  /** What is stored in place of a script. */
  function Kept(s: Script): Script {
    if |s| <= MAX_SCRIPT_SIZE then s else [OP_RETURN]
  }

  lemma DecompressCompressed(K: Curve, s: Script)
    requires Sound(K) && Compress(K, s).Some?
    ensures var short := Compress(K, s).value;
            short != [] && short[0] < SPECIAL_SCRIPTS && |short| == 1 + SpecialSize(short[0]) &&
            Decompress(K, short[0], short[1..]) == s && |s| <= MAX_SCRIPT_SIZE
  {
    var short := Compress(K, s).value;
    if IsToKeyID(s) {
      assert short[1..] == s[3..23];
      assert s == [OP_DUP, OP_HASH160, 20] + s[3..23] + [OP_EQUALVERIFY, OP_CHECKSIG];
    } else if IsToScriptID(s) {
      assert short[1..] == s[2..22];
      assert s == [OP_HASH160, 20] + s[2..22] + [OP_EQUAL];
    } else if IsToShortKey(s) {
      assert short[1..] == s[2..34];
      assert s == [33, s[1]] + s[2..34] + [OP_CHECKSIG];
    } else {
      var key := s[1..66];
      assert short[1..] == s[2..34] == key[1..33];
      assert key[64] == s[65] && short[0] - 2 == 2 + key[64] % 2;
      assert s == [65] + key + [OP_CHECKSIG];
    }
  }

  lemma ShortRoundTrip(K: Curve, s: Script, rest: Bytes)
    requires Sound(K) && Compress(K, s).Some?
    ensures Unserialize(K, Serialize(K, s) + rest) == Done(s, rest)
  {
    DecompressCompressed(K, s);
    var short := Compress(K, s).value;
    SmallNumbers(short[0]);
    hide *;
    var data := short[1..];
    RoundTrip32(short[0], data + rest);
    SerializeShort(K, s);
    assert short + rest == Encode(short[0]) + (data + rest);
    UnserializeShort(K, short + rest, short[0], data, rest);
  }

  lemma SmallNumbers(n: Byte)
    requires n < SPECIAL_SCRIPTS
    ensures Encode(n) == [n] && Received(n) == n && n < 0x1_0000_0000
  {
  }

  lemma SerializeShort(K: Curve, s: Script)
    requires Compress(K, s).Some?
    ensures Serialize(K, s) == Compress(K, s).value
  {
  }

  lemma UnserializeShort(K: Curve, s: Bytes, n: nat, data: Bytes, rest: Bytes)
    requires n < SPECIAL_SCRIPTS && |data| == SpecialSize(n) && Cut(Decode(0, s), 32) == Done(n, data + rest)
    ensures Unserialize(K, s) == Done(Decompress(K, n, data), rest)
  {
    hide Cut, Decode, Decompress;
    assert (data + rest)[..|data|] == data && (data + rest)[|data|..] == rest;
  }

  /** Every script that may be spent comes back; an overlong one comes back as a short invalid one. */
  lemma ScriptRoundTrip(K: Curve, s: Script, rest: Bytes)
    requires Sound(K) && |s| + SPECIAL_SCRIPTS < 0x1_0000_0000
    ensures Unserialize(K, Serialize(K, s) + rest) == Done(Kept(s), rest)
  {
    hide Cut, Decode, Encode, Decompress, Compress, Sound;
    if Compress(K, s).Some? {
      ShortRoundTrip(K, s, rest);
      DecompressCompressed(K, s);
    } else {
      RoundTrip32(|s| + SPECIAL_SCRIPTS, s + rest);
      assert Serialize(K, s) + rest == Encode(|s| + SPECIAL_SCRIPTS) + (s + rest);
      assert (s + rest)[..|s|] == s && (s + rest)[|s|..] == rest;
    }
  }
}
