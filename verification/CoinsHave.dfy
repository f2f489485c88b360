/**
 `HaveCoins` (src/coins.cpp) looks only at whether a record has outputs left, not
 at whether they are spent. This module says why that is enough: between
 modifications no cache holds a record whose outputs are all spent but still listed.
 */
module CoinsHave {
  import opened Basics
  import opened Coins
  import opened CoinsView
  import opened CoinsRun

  /** `HaveCoins`: the database looks for the key, a cache for a record with outputs. */
  predicate Have(v: View, txid: Hash) {
    match v
    case Store(coins, _) => txid in coins
    case Cache(_, _, _, _) => Get(v, txid).Some? && Get(v, txid).value.vout != []
  }

  /** A spent record has lost its outputs. */
  predicate Tidy(c: Coins) {
    IsPruned(c) ==> c.vout == []
  }

  /** Nothing spent is stored, and every cached record is tidy, except one that is being modified. */
  ghost predicate AllTidy(v: View) {
    match v
    case Store(coins, _) => forall t :: t in coins ==> !IsPruned(coins[t])
    case Cache(entries, _, modifying, base) =>
      && AllTidy(base)
      && forall t :: t in entries && modifying != Some(t) ==> Tidy(entries[t].coins)
  }

  lemma {:induction false} GetIsTidy(v: View, txid: Hash)
    requires Inv(v) && AllTidy(v) && Modifying(v) != Some(txid)
    ensures Get(v, txid).Some? ==> Tidy(Get(v, txid).value)
  {
    if v.Cache? && txid !in v.entries {
      GetIsTidy(v.base, txid);
    }
  }

  /** Except for a record under modification, `HaveCoins` answers whether anything is unspent. */
  lemma HaveIsRead(v: View, txid: Hash)
    requires Inv(v) && AllTidy(v) && Modifying(v) != Some(txid)
    ensures Have(v, txid) <==> Read(v, txid).Some?
  {
    GetIsTidy(v, txid);
  }

  // ----- every step keeps it -----

  lemma {:induction false} FetchKeepsTidy(v: View, txid: Hash)
    requires Inv(v) && AllTidy(v)
    ensures AllTidy(Fetch(v, txid))
  {
    if v.Cache? && txid !in v.entries {
      FetchKeepsTidy(v.base, txid);
      GetIsTidy(v.base, txid);
    }
  }

  lemma ModifyCoinsKeepsTidy(v: View, txid: Hash)
    requires v.Cache? && v.modifying.None? && Inv(v) && AllTidy(v)
    ensures AllTidy(ModifyCoins(v, txid))
  {
    FetchKeepsTidy(v.base, txid);
  }

  /** The clean-up of `~CCoinsModifier` is what makes the modified record tidy again. */
  lemma EndModifyKeepsTidy(v: View)
    requires HasModifier(v) && AllTidy(v)
    ensures AllTidy(EndModify(v))
  {
    CleanedKeepsAvailability(v.entries[v.modifying.value].coins, 0);
  }

  lemma FlushKeepsTidy(v: View)
    requires v.Cache? && v.modifying.None? && Idle(v.base) && AllTidy(v) && Flush(v).Ok?
    ensures AllTidy(Flush(v).value)
  {
    var w := Flush(v).value.base;
    if v.base.Store? {
      forall t | t in w.coins
        ensures !IsPruned(w.coins[t])
      {
        assert Stored(v.base.coins, v.entries, t) == Some(w.coins[t]);
      }
    } else {
      forall t | t in w.entries
        ensures Tidy(w.entries[t].coins)
      {
        assert Merged(v.base.entries, v.entries, t) == Some(w.entries[t]);
      }
    }
  }

  lemma {:induction false} DownIsTidy(v: View, depth: nat)
    requires AllTidy(v) && depth <= CacheCount(v)
    ensures AllTidy(Down(v, depth))
  {
    if depth > 0 {
      DownIsTidy(v.base, depth - 1);
    }
  }

  lemma {:induction false} ReplaceKeepsTidy(v: View, depth: nat, w: View)
    requires AllTidy(v) && AllTidy(w) && depth <= CacheCount(v)
    ensures AllTidy(Replace(v, depth, w))
  {
    if depth > 0 {
      ReplaceKeepsTidy(v.base, depth - 1, w);
    }
  }

  lemma StepKeepsTidy(v: View, p: Plain, op: Op)
    requires Inv(v) && AllTidy(v) && Allowed(v, p, op) && Safe(v, p, op) && Step(v, p, op).Ok?
    ensures AllTidy(Step(v, p, op).value)
  {
    match op
    case OpFetch(depth, txid) =>
      DownKeeps(v, depth);
      DownIsTidy(v, depth);
      FetchKeepsTidy(Down(v, depth), txid);
      ReplaceKeepsTidy(v, depth, Fetch(Down(v, depth), txid));
    case OpUncache(depth, txid) =>
      DownIsCache(v, depth);
      DownIsTidy(v, depth);
      ReplaceKeepsTidy(v, depth, Uncache(Down(v, depth), txid));
    case OpFlush(depth) =>
      DownKeeps(v, depth);
      DownIsTidy(v, depth);
      FlushKeepsTidy(Down(v, depth));
      ReplaceKeepsTidy(v, depth, Flush(Down(v, depth)).value);
    case OpModify(txid) => ModifyCoinsKeepsTidy(v, txid);
    case OpEndModify => EndModifyKeepsTidy(v);
    case _ =>
  }

  lemma {:induction false} RunIsTidy(run: seq<State>, ops: seq<Op>, i: nat)
    requires IsRun(run, ops) && Initial(run[0]) && AllTidy(run[0].v) && i < |run|
    ensures Inv(run[i].v) && AllTidy(run[i].v)
    decreases i
  {
    RunRefines(run, ops);
    assert Sound(run[i]);
    if i > 0 {
      RunIsTidy(run, ops, i - 1);
      assert Next(run[i - 1], ops[i - 1], run[i]);
      StepKeepsTidy(run[i - 1].v, run[i - 1].p, ops[i - 1]);
    }
  }

  /** Anywhere in any run over a database that stores nothing spent, `HaveCoins` at any depth answers
      whether the reference has the transaction, unless that very record is being modified there. */
  lemma RunHaves(run: seq<State>, ops: seq<Op>, i: nat, depth: nat, txid: Hash)
    requires IsRun(run, ops) && Initial(run[0]) && AllTidy(run[0].v)
    requires i < |run| && depth <= CacheCount(run[i].v)
    requires Modifying(Down(run[i].v, depth)) != Some(txid)
    ensures depth <= Layers(run[i].p)
    ensures Have(Down(run[i].v, depth), txid) <==> txid in PlainDown(run[i].p, depth).m
  {
    RunIsTidy(run, ops, i);
    DownKeeps(run[i].v, depth);
    DownIsTidy(run[i].v, depth);
    HaveIsRead(Down(run[i].v, depth), txid);
    RunReads(run, ops, i, depth, txid);
  }

  /** Under modification the two part: all outputs are spent, the list is still there. */
  lemma ModifiedRecordCanDiffer(txid: Hash)
    ensures exists v :: Inv(v) && AllTidy(v) && Modifying(v) == Some(txid) && Have(v, txid) && Read(v, txid) == None
  {
    var open := ModifyCoins(Cache(map[], 0, None, Store(map[], 0)), txid);
    var spent := EMPTY_COINS.(vout := [NULL_OUT]);
    var v := Assign(open, spent);
    assert Inv(v.base);
    assert v.entries == map[txid := Entry(spent, true, true)];
    assert IsPruned(spent);
    assert Inv(v) && AllTidy(v) && Have(v, txid);
  }
}
