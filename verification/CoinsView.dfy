/**
 A stack of coin caches over a coin database (`CCoinsViewCache` in src/coins.cpp
 over `CCoinsViewDB` in src/txdb.cpp), as values: what each operation does to the
 whole stack, and why the top of the stack always reads like one plain map.
 */
module CoinsView {
  import opened Basics
  import opened Coins

  /** A cached record. DIRTY: may differ from the parent. FRESH: the parent has nothing unspent. */
  datatype Entry = Entry(coins: Coins, isDirty: bool, isFresh: bool)

  /** `modifying` is the transaction a live `CCoinsModifier` points at, if any. */
  datatype View =
    | Store(coins: map<Hash, Coins>, best: Hash)
    | Cache(entries: map<Hash, Entry>, hashBlock: Hash, modifying: Option<Hash>, base: View)

  /** The two `std::logic_error`s of the cache. */
  datatype Error = FreshMisapplied | PreExistingCoins

  datatype Result<+T> = Ok(value: T) | Throws(error: Error)

  // ----- reading -----

  /** The record a read of `txid` finds: the topmost one. */
  function Get(v: View, txid: Hash): Option<Coins> {
    match v
    case Store(coins, _) => if txid in coins then Some(coins[txid]) else None
    case Cache(entries, _, _, base) => if txid in entries then Some(entries[txid].coins) else Get(base, txid)
  }

  /** What a read of `txid` means. */
  function Read(v: View, txid: Hash): Option<Coins> {
    Norm(Get(v, txid))
  }

  /** `FetchCoins`: a read fills every cache it passes through. */
  function Fetch(v: View, txid: Hash): View {
    match v
    case Store(_, _) => v
    case Cache(entries, _, _, base) =>
      if txid in entries then v else
      match Get(base, txid)
      case None => v.(base := Fetch(base, txid))
      case Some(c) => v.(entries := entries[txid := Entry(c, false, IsPruned(c))], base := Fetch(base, txid))
  }

  /** `Uncache`: forget an entry that carries no flag. */
  function Uncache(v: View, txid: Hash): View
    requires v.Cache?
  {
    if txid in v.entries && !v.entries[txid].isDirty && !v.entries[txid].isFresh
    then v.(entries := v.entries - {txid})
    else v
  }

  function BestBlock(v: View): Hash {
    match v
    case Store(_, best) => best
    case Cache(_, hashBlock, _, base) => if hashBlock == 0 then BestBlock(base) else hashBlock
  }

  /** `GetBestBlock`: every level down to the first that knows the hash remembers it. */
  function Remember(v: View): View {
    match v
    case Store(_, _) => v
    case Cache(_, hashBlock, _, base) => if hashBlock == 0 then v.(hashBlock := BestBlock(base), base := Remember(base)) else v
  }

  /** Remembering changes no answer. */
  lemma {:induction false} RememberKeeps(v: View)
    ensures BestBlock(Remember(v)) == BestBlock(v)
    ensures forall txid :: Get(Remember(v), txid) == Get(v, txid)
  {
    if v.Cache? {
      RememberKeeps(v.base);
    }
  }

  // ----- modifying the top cache -----

  /** What a modification starts from when only the parent knows the record, or nobody does. */
  function FirstEntry(found: Option<Coins>): Entry {
    if found.None? then Entry(EMPTY_COINS, true, true) else Entry(found.value, true, IsPruned(found.value))
  }

  /** `ModifyCoins`: hand out a modifier for `txid`, creating the entry if need be. */
  function ModifyCoins(v: View, txid: Hash): View
    requires v.Cache? && v.modifying.None?
  {
    if txid in v.entries then
      v.(entries := v.entries[txid := v.entries[txid].(isDirty := true)], modifying := Some(txid))
    else
      v.(entries := v.entries[txid := FirstEntry(Get(v.base, txid))], modifying := Some(txid), base := Fetch(v.base, txid))
  }

  /** `ModifyNewCoins`: like `ModifyCoins`, but without asking the parent. */
  function ModifyNewCoins(v: View, txid: Hash, coinbase: bool): Result<View>
    requires v.Cache? && v.modifying.None?
  {
    var found := if txid in v.entries then v.entries[txid] else Entry(EMPTY_COINS, false, false);
    if !coinbase && !IsPruned(found.coins) then Throws(PreExistingCoins) else
    var isFresh := found.isFresh || (!coinbase && !found.isDirty);
    Ok(v.(entries := v.entries[txid := Entry(EMPTY_COINS, true, isFresh)], modifying := Some(txid)))
  }

  predicate HasModifier(v: View) {
    v.Cache? && v.modifying.Some? && v.modifying.value in v.entries
  }

  /** An assignment through the modifier. */
  function Assign(v: View, c: Coins): View
    requires HasModifier(v)
  {
    var txid := v.modifying.value;
    v.(entries := v.entries[txid := v.entries[txid].(coins := c)])
  }

  /** `~CCoinsModifier`: clean up, and drop what the parent never needs to hear about. */
  function EndModify(v: View): View
    requires HasModifier(v)
  {
    var txid := v.modifying.value;
    var entry := v.entries[txid];
    v.(modifying := None,
       entries := if entry.isFresh && IsPruned(entry.coins) then v.entries - {txid}
                  else v.entries[txid := entry.(coins := Cleaned(entry.coins))])
  }

  // ----- writing a cache down into its parent -----

  function Lookup<T>(m: map<Hash, T>, txid: Hash): Option<T> {
    if txid in m then Some(m[txid]) else None
  }

  predicate Misapplied(ours: Option<Entry>, theirs: Entry) {
    theirs.isDirty && theirs.isFresh && ours.Some? && !IsPruned(ours.value.coins)
  }

  /** What one child entry leaves behind in the parent cache. */
  function Merge(ours: Option<Entry>, theirs: Entry): Option<Entry> {
    if !theirs.isDirty then ours
    else if ours.None? then
      if theirs.isFresh && IsPruned(theirs.coins) then None else Some(Entry(theirs.coins, true, theirs.isFresh))
    else if ours.value.isFresh && IsPruned(theirs.coins) then None
    else Some(Entry(theirs.coins, true, ours.value.isFresh))
  }

  /** The parent's record for `txid` once the child's entries are in. */
  function Merged(ours: map<Hash, Entry>, theirs: map<Hash, Entry>, txid: Hash): Option<Entry> {
    if txid in theirs then Merge(Lookup(ours, txid), theirs[txid]) else Lookup(ours, txid)
  }

  function MergeAll(ours: map<Hash, Entry>, theirs: map<Hash, Entry>): map<Hash, Entry> {
    map txid | txid in ours.Keys + theirs.Keys && Merged(ours, theirs, txid).Some? :: Merged(ours, theirs, txid).value
  }

  /** The database erases what is pruned and writes the rest of what is dirty. */
  function Stored(ours: map<Hash, Coins>, theirs: map<Hash, Entry>, txid: Hash): Option<Coins> {
    if txid !in theirs || !theirs[txid].isDirty then Lookup(ours, txid)
    else if IsPruned(theirs[txid].coins) then None
    else Some(theirs[txid].coins)
  }

  function StoreAll(ours: map<Hash, Coins>, theirs: map<Hash, Entry>): map<Hash, Coins> {
    map txid | txid in ours.Keys + theirs.Keys && Stored(ours, theirs, txid).Some? :: Stored(ours, theirs, txid).value
  }

  /** Whether `BatchWrite` into these entries throws. */
  predicate AnyMisapplied(ours: map<Hash, Entry>, theirs: map<Hash, Entry>) {
    exists txid :: txid in theirs && Misapplied(Lookup(ours, txid), theirs[txid])
  }

  /** The child's entries that are not in `rest` are in the parent, the others are not. */
  ghost predicate PartMerged(
    ours: map<Hash, Entry>, theirs: map<Hash, Entry>, now: map<Hash, Entry>, rest: map<Hash, Entry>)
  {
    && (forall t :: t in rest ==> t in theirs && rest[t] == theirs[t])
    && (forall t :: t in rest ==> Lookup(now, t) == Lookup(ours, t))
    && (forall t :: t !in rest ==> Lookup(now, t) == Merged(ours, theirs, t))
  }

  /** Where a throw of `BatchWrite` leaves the two maps: what is not merged includes a reason to throw. */
  ghost predicate HalfMerged(
    ours: map<Hash, Entry>, theirs: map<Hash, Entry>, now: map<Hash, Entry>, rest: map<Hash, Entry>)
  {
    PartMerged(ours, theirs, now, rest) && AnyMisapplied(ours, rest)
  }

  /** `BatchWrite`, for a cache or for the database. */
  function BatchWrite(v: View, theirs: map<Hash, Entry>, hashBlock: Hash): Result<View>
    requires v.Cache? ==> v.modifying.None?
  {
    match v
    case Store(coins, best) =>
      Ok(Store(StoreAll(coins, theirs), if hashBlock == 0 then best else hashBlock))
    case Cache(entries, _, _, _) =>
      if AnyMisapplied(entries, theirs) then Throws(FreshMisapplied)
      else Ok(v.(entries := MergeAll(entries, theirs), hashBlock := hashBlock))
  }

  /** `Flush`: write everything down, keep nothing. */
  function Flush(v: View): Result<View>
    requires v.Cache? && (v.base.Cache? ==> v.base.modifying.None?)
  {
    match BatchWrite(v.base, v.entries, v.hashBlock)
    case Throws(e) => Throws(e)
    case Ok(base) => Ok(v.(entries := map[], base := base))
  }

  /** Where a throw of `Flush` leaves the stack. */
  ghost predicate HalfFlushed(v: View, w: View) {
    && v.Cache? && v.base.Cache? && w.Cache? && w.base.Cache?
    && w == v.(entries := w.entries, base := v.base.(entries := w.base.entries))
    && HalfMerged(v.base.entries, v.entries, w.base.entries, w.entries)
  }

  // ----- the invariant of a stack -----

  /** DIRTY and FRESH mean what they say about the parent's record. */
  predicate Honest(e: Entry, parent: Option<Coins>) {
    && (e.isFresh ==> parent == None)
    && (!e.isDirty ==> Norm(Some(e.coins)) == parent)
  }

  /** Every flag is honest, and only the top cache is being modified. */
  ghost predicate Inv(v: View) {
    v.Cache? ==>
      && Inv(v.base)
      && (v.base.Cache? ==> v.base.modifying.None?)
      && (forall txid :: txid in v.entries ==> Honest(v.entries[txid], Read(v.base, txid)))
      && (v.modifying.Some? ==> v.modifying.value in v.entries && v.entries[v.modifying.value].isDirty)
  }

  ghost predicate SameReads(a: View, b: View) {
    forall txid :: Read(a, txid) == Read(b, txid)
  }

  /** Replacing the parent by one that reads the same changes nothing above it. */
  lemma RebaseKeeps(v: View, base: View)
    requires v.Cache? && Inv(v) && Inv(base) && SameReads(v.base, base)
    requires base.Cache? ==> base.modifying.None?
    ensures Inv(v.(base := base)) && SameReads(v, v.(base := base))
  {
    var w := v.(base := base);
    forall txid
      ensures Read(v, txid) == Read(w, txid)
      ensures txid in w.entries ==> Honest(w.entries[txid], Read(w.base, txid))
    {
      assert Read(v.base, txid) == Read(base, txid);
    }
  }

  predicate Idle(v: View) {
    v.Cache? ==> v.modifying.None?
  }

  /** Reading keeps the invariant and the meaning, at every level. */
  lemma {:induction false} FetchKeeps(v: View, txid: Hash)
    requires Inv(v)
    ensures Inv(Fetch(v, txid)) && SameReads(v, Fetch(v, txid))
    ensures Fetch(v, txid).Cache? <==> v.Cache?
    ensures v.Cache? ==> Fetch(v, txid).modifying == v.modifying
    ensures Get(Fetch(v, txid), txid) == Get(v, txid)
  {
    if v.Cache? && txid !in v.entries {
      FetchKeeps(v.base, txid);
      RebaseKeeps(v, Fetch(v.base, txid));
      var u := v.(base := Fetch(v.base, txid));
      var w := Fetch(v, txid);
      assert w.base == u.base;
      forall t
        ensures Read(v, t) == Read(w, t)
        ensures t in w.entries ==> Honest(w.entries[t], Read(w.base, t))
      {
        assert Read(v, t) == Read(u, t);
        if t in w.entries && t != txid {
          assert Honest(u.entries[t], Read(u.base, t));
        }
      }
    }
  }

  lemma UncacheKeeps(v: View, txid: Hash)
    requires v.Cache? && Inv(v)
    ensures Inv(Uncache(v, txid)) && SameReads(v, Uncache(v, txid))
    ensures Uncache(v, txid).Cache? && Uncache(v, txid).modifying == v.modifying
  {
    var w := Uncache(v, txid);
    forall t
      ensures Read(v, t) == Read(w, t)
    {
    }
  }

  // ----- writing down -----

  /** Nothing is misapplied when the flags above are honest about the cache below. */
  lemma NoneMisapplied(v: View, theirs: map<Hash, Entry>)
    requires v.Cache?
    requires forall txid :: txid in theirs ==> Honest(theirs[txid], Read(v, txid))
    ensures !AnyMisapplied(v.entries, theirs)
  {
    forall txid | txid in theirs
      ensures !Misapplied(Lookup(v.entries, txid), theirs[txid])
    {
      assert Honest(theirs[txid], Read(v, txid));
    }
  }

  /** What a child's entry must leave behind for the parent to read like the child. */
  function Written(v: View, theirs: map<Hash, Entry>, txid: Hash): Option<Coins> {
    if txid in theirs then Norm(Some(theirs[txid].coins)) else Read(v, txid)
  }

  /** A batch written into an honest cache: same meaning as above, and still honest about what is below. */
  lemma MergeAllIsWritten(v: View, theirs: map<Hash, Entry>, txid: Hash)
    requires v.Cache? && Inv(v) && v.modifying.None?
    requires forall t :: t in theirs ==> Honest(theirs[t], Read(v, t))
    ensures var w := v.(entries := MergeAll(v.entries, theirs));
            && Read(w, txid) == Written(v, theirs, txid)
            && (txid in w.entries ==> Honest(w.entries[txid], Read(v.base, txid)))
  {
    var w := v.(entries := MergeAll(v.entries, theirs));
    assert Lookup(w.entries, txid) == Merged(v.entries, theirs, txid);
    if txid in v.entries {
      assert Honest(v.entries[txid], Read(v.base, txid));
    }
    if txid in theirs {
      assert Honest(theirs[txid], Read(v, txid));
    }
  }

  lemma BatchWriteKeeps(v: View, theirs: map<Hash, Entry>, hashBlock: Hash)
    requires Inv(v) && Idle(v)
    requires forall t :: t in theirs ==> Honest(theirs[t], Read(v, t))
    ensures BatchWrite(v, theirs, hashBlock).Ok?
    ensures var w := BatchWrite(v, theirs, hashBlock).value;
            && Inv(w) && Idle(w)
            && forall txid :: Read(w, txid) == Written(v, theirs, txid)
  {
    if v.Cache? {
      NoneMisapplied(v, theirs);
    }
    var w := BatchWrite(v, theirs, hashBlock).value;
    forall txid
      ensures Read(w, txid) == Written(v, theirs, txid)
      ensures w.Cache? && txid in w.entries ==> Honest(w.entries[txid], Read(w.base, txid))
    {
      if v.Cache? {
        MergeAllIsWritten(v, theirs, txid);
        assert Get(w, txid) == Get(v.(entries := MergeAll(v.entries, theirs)), txid);
      } else {
        assert Get(w, txid) == Stored(v.coins, theirs, txid);
        if txid in theirs {
          assert Honest(theirs[txid], Read(v, txid));
        }
      }
    }
  }

  /** Flushing never throws, changes no read at this level, and makes the parent read the same. */
  lemma FlushKeeps(v: View)
    requires v.Cache? && Inv(v) && v.modifying.None?
    ensures Flush(v).Ok?
    ensures var w := Flush(v).value;
            w.Cache? && Inv(w) && SameReads(v, w) && SameReads(v, w.base) && w.entries == map[] && w.modifying.None?
  {
    BatchWriteKeeps(v.base, v.entries, v.hashBlock);
    var w := Flush(v).value;
    forall txid
      ensures Read(w, txid) == Read(v, txid) && Read(w.base, txid) == Read(v, txid)
    {
      assert Read(w.base, txid) == Written(v.base, v.entries, txid);
    }
  }

  /** The best block survives a flush exactly when the flushed cache had one of its own, or when
      the parent's own best block adds nothing to what is below it. */
  lemma FlushKeepsBestBlock(v: View)
    requires v.Cache? && Inv(v) && v.modifying.None?
    ensures Flush(v).Ok?
    ensures BestBlock(Flush(v).value) == BestBlock(v)
       <==> v.hashBlock != 0 || v.base.Store? || BestBlock(v.base) == BestBlock(v.base.base)
  {
    FlushKeeps(v);
  }

  /** So a flush can lose the best block: the parent is at block 7, and forgets it. */
  lemma FlushCanLoseBestBlock()
    ensures var v := Cache(map[], 0, None, Cache(map[], 7, None, Store(map[], 3)));
            && Inv(v) && v.Cache? && v.modifying.None?
            && BestBlock(v) == 7
            && Flush(v).Ok? && BestBlock(Flush(v).value) == 3
  {
    var v := Cache(map[], 0, None, Cache(map[], 7, None, Store(map[], 3)));
    assert Inv(v.base.base);
    assert Inv(v.base);
    FlushKeeps(v);
    assert Flush(v).value.base == Cache(map[], 0, None, Store(map[], 3));
  }

  // ----- modifying -----

  lemma ModifyCoinsKeeps(v: View, txid: Hash)
    requires v.Cache? && Inv(v) && v.modifying.None?
    ensures var w := ModifyCoins(v, txid);
            && w.Cache? && Inv(w) && SameReads(v, w) && HasModifier(w) && w.modifying == Some(txid)
            && SameReads(v.base, w.base)
  {
    FetchKeeps(v.base, txid);
    var w := ModifyCoins(v, txid);
    forall t
      ensures Read(v, t) == Read(w, t)
      ensures t in w.entries ==> Honest(w.entries[t], Read(w.base, t))
    {
      ModifiedAt(v, txid, t);
    }
    hide Fetch, Get, Read, Honest, IsPruned;
  }

  lemma ModifiedAt(v: View, txid: Hash, t: Hash)
    requires v.Cache? && Inv(v) && v.modifying.None? && SameReads(v.base, Fetch(v.base, txid))
    ensures var w := ModifyCoins(v, txid);
            Read(v, t) == Read(w, t) && (t in w.entries ==> Honest(w.entries[t], Read(w.base, t)))
  {
    hide Fetch;
    assert Read(v.base, t) == Read(Fetch(v.base, txid), t);
    if t in v.entries {
      assert Honest(v.entries[t], Read(v.base, t));
    }
    PrunedReads(v.base, txid);
  }

  /** A pruned record below reads as none. */
  lemma PrunedReads(v: View, txid: Hash)
    ensures var found := Get(v, txid);
            (found.None? ==> Read(v, txid) == None) && (found.Some? && IsPruned(found.value) ==> Read(v, txid) == None)
  {
    hide Get;
  }

  /** With the BIP 30 precondition (nothing unspent under this txid) the throw is out of reach, and
      marking the new entry FRESH is honest. A coinbase needs no precondition. */
  lemma ModifyNewCoinsKeeps(v: View, txid: Hash, coinbase: bool)
    requires v.Cache? && Inv(v) && v.modifying.None?
    requires coinbase || Read(v, txid) == None
    ensures ModifyNewCoins(v, txid, coinbase).Ok?
    ensures var w := ModifyNewCoins(v, txid, coinbase).value;
            && w.Cache? && Inv(w) && HasModifier(w) && w.modifying == Some(txid) && w.base == v.base
            && forall t :: Read(w, t) == if t == txid then None else Read(v, t)
  {
    if txid in v.entries {
      assert Honest(v.entries[txid], Read(v.base, txid));
    }
    var w := ModifyNewCoins(v, txid, coinbase).value;
    forall t
      ensures Read(w, t) == if t == txid then None else Read(v, t)
      ensures t in w.entries ==> Honest(w.entries[t], Read(w.base, t))
    {
      if t in v.entries {
        assert Honest(v.entries[t], Read(v.base, t));
      }
    }
  }

  /** The BIP 30 precondition is exact: without it a non-coinbase call either throws or marks FRESH
      an entry its parent still has unspent. */
  lemma ModifyNewCoinsNeedsBip30(v: View, txid: Hash)
    requires v.Cache? && Inv(v) && v.modifying.None?
    ensures ModifyNewCoins(v, txid, false).Ok? && Inv(ModifyNewCoins(v, txid, false).value)
       <==> Read(v, txid) == None
  {
    if Read(v, txid) == None {
      ModifyNewCoinsKeeps(v, txid, false);
    } else if txid !in v.entries {
      var w := ModifyNewCoins(v, txid, false).value;
      assert !Honest(w.entries[txid], Read(w.base, txid));
    }
  }

  lemma AssignKeeps(v: View, c: Coins)
    requires v.Cache? && Inv(v) && HasModifier(v)
    ensures var w := Assign(v, c);
            && w.Cache? && Inv(w) && HasModifier(w) && w.modifying == v.modifying && w.base == v.base
            && forall t :: Read(w, t) == if t == v.modifying.value then Norm(Some(c)) else Read(v, t)
  {
    var w := Assign(v, c);
    forall t
      ensures Read(w, t) == if t == v.modifying.value then Norm(Some(c)) else Read(v, t)
      ensures t in w.entries ==> Honest(w.entries[t], Read(w.base, t))
    {
      if t in v.entries {
        assert Honest(v.entries[t], Read(v.base, t));
      }
    }
  }

  lemma EndModifyKeeps(v: View)
    requires v.Cache? && Inv(v) && HasModifier(v)
    ensures var w := EndModify(v);
            w.Cache? && Inv(w) && SameReads(v, w) && w.modifying.None? && w.base == v.base
  {
    var w := EndModify(v);
    var txid := v.modifying.value;
    CleanedKeepsAvailability(v.entries[txid].coins, 0);
    forall t
      ensures Read(v, t) == Read(w, t)
      ensures t in w.entries ==> Honest(w.entries[t], Read(w.base, t))
    {
      if t in v.entries {
        assert Honest(v.entries[t], Read(v.base, t));
      }
    }
  }
}
