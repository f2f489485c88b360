/**
 The unspent outputs of one transaction (`CCoins` in src/coins.h), and what it
 means for two such records to stand for the same thing.
 */
module Coins {
  import opened Basics
  import opened VarInt

  type Script = Bytes

  /** A transaction output; it is spent exactly when its value is -1. */
  datatype TxOut = TxOut(nValue: int, scriptPubKey: Script) {
    predicate IsNull() {
      nValue == -1
    }
  }

  const NULL_OUT := TxOut(-1, [])

  datatype Coins = Coins(fCoinBase: bool, vout: seq<TxOut>, nHeight: int, nVersion: int)

  const EMPTY_COINS := Coins(false, [], 0, 0)

  predicate IsPruned(c: Coins) {
    forall i :: 0 <= i < |c.vout| ==> c.vout[i].IsNull()
  }

  predicate IsAvailable(c: Coins, pos: nat) {
    pos < |c.vout| && !c.vout[pos].IsNull()
  }

  /** Drops the spent outputs at the end of the list. */
  function Trim(vout: seq<TxOut>): seq<TxOut> {
    if vout != [] && vout[|vout| - 1].IsNull() then Trim(vout[..|vout| - 1]) else vout
  }

  function Cleaned(c: Coins): Coins {
    c.(vout := Trim(c.vout))
  }

  /** Trimming is the longest prefix that does not end in a spent output. */
  lemma {:induction false} TrimIsLongestUnspentPrefix(vout: seq<TxOut>)
    ensures Trim(vout) <= vout
    ensures Trim(vout) == [] || !Trim(vout)[|Trim(vout)| - 1].IsNull()
    ensures forall i :: |Trim(vout)| <= i < |vout| ==> vout[i].IsNull()
  {
    if vout != [] && vout[|vout| - 1].IsNull() {
      TrimIsLongestUnspentPrefix(vout[..|vout| - 1]);
    }
  }

  /** Two cut points that both satisfy the description of `Trim` are the same. */
  lemma {:induction false} TrimIsUnique(vout: seq<TxOut>, n: nat)
    requires n <= |vout|
    requires n == 0 || !vout[n - 1].IsNull()
    requires forall i :: n <= i < |vout| ==> vout[i].IsNull()
    ensures Trim(vout) == vout[..n]
  {
    TrimIsLongestUnspentPrefix(vout);
    assert Trim(vout) == vout[..|Trim(vout)|];
  }

  /** Cleaning up hides nothing: every output is as available as before. */
  lemma CleanedKeepsAvailability(c: Coins, pos: nat)
    ensures IsAvailable(Cleaned(c), pos) <==> IsAvailable(c, pos)
    ensures IsAvailable(c, pos) ==> Cleaned(c).vout[pos] == c.vout[pos]
    ensures IsPruned(Cleaned(c)) <==> IsPruned(c)
    ensures IsPruned(c) <==> Cleaned(c).vout == []
    ensures Cleaned(Cleaned(c)) == Cleaned(c)
  {
    TrimIsLongestUnspentPrefix(c.vout);
  }

  /** `Cleanup`: pop spent outputs off the end. */
  method Cleanup(c: Coins) returns (r: Coins)
    ensures r == Cleaned(c)
  {
    var vout := c.vout;
    while |vout| > 0 && vout[|vout| - 1].IsNull()
      invariant Trim(vout) == Trim(c.vout)
    {
      vout := vout[..|vout| - 1];
    }
    r := c.(vout := vout);
  }

  /** `Spend`: null one output, then clean up. Nothing happens when it is not there to spend. */
  method Spend(c: Coins, pos: nat) returns (ok: bool, r: Coins)
    ensures ok <==> IsAvailable(c, pos)
    ensures !ok ==> r == c
    ensures ok ==> (forall p: nat :: IsAvailable(r, p) <==> IsAvailable(c, p) && p != pos)
    ensures ok ==> (forall p: nat :: IsAvailable(r, p) ==> r.vout[p] == c.vout[p])
    ensures ok ==> r == Cleaned(r) && r.(vout := []) == c.(vout := [])
  {
    if pos >= |c.vout| || c.vout[pos].IsNull() {
      return false, c;
    }
    var spent := c.(vout := c.vout[pos := NULL_OUT]);
    r := Cleanup(spent);
    ok := true;
    forall p: nat
      ensures IsAvailable(r, p) <==> IsAvailable(c, p) && p != pos
      ensures IsAvailable(r, p) ==> r.vout[p] == c.vout[p]
      ensures r == Cleaned(r)
    {
      CleanedKeepsAvailability(spent, p);
    }
  }

  /** What a possibly absent record means: absent and pruned are the same, and
      spent outputs at the end do not matter (src/coins.h:137-145). */
  function Norm(c: Option<Coins>): Option<Coins> {
    if c.None? || IsPruned(c.value) then None else Some(Cleaned(c.value))
  }
}
