/**
 The coin caches as the objects they are: a database, and caches that point at
 what is below them and change in place. Each method is proved against the value
 it leaves the whole stack with, as given in module CoinsView.
 */
module CoinsCache {
  import opened Basics
  import opened Coins
  import CoinsView
  import CoinsHave
  import opened CoinsUsage

  type Entry = CoinsView.Entry
  type View = CoinsView.View

  /** `CCoinsViewDB`. */
  class CoinsViewDB {
    var coins: map<Hash, Coins>
    var best: Hash

    constructor ()
      ensures Model() == CoinsView.Store(map[], 0)
    {
      coins := map[];
      best := 0;
    }

    ghost function Model(): View
      reads this
    {
      CoinsView.Store(coins, best)
    }

    method GetCoins(txid: Hash) returns (r: Option<Coins>)
      ensures r == CoinsView.Get(Model(), txid)
    {
      if txid in coins {
        r := Some(coins[txid]);
      } else {
        r := None;
      }
    }

    method HaveCoins(txid: Hash) returns (r: bool)
      ensures r == CoinsHave.Have(Model(), txid)
    {
      r := txid in coins;
    }

    /** The batch that `BatchWrite` assembles, entries being taken in any order. */
    method Assemble(mapCoins: map<Hash, Entry>) returns (batch: map<Hash, Coins>)
      ensures batch == CoinsView.StoreAll(coins, mapCoins)
    {
      hide CoinsView.StoreAll;
      var todo := mapCoins;
      batch := coins;
      while todo != map[]
        invariant forall t :: t in todo ==> t in mapCoins && todo[t] == mapCoins[t]
        invariant forall t :: t in todo ==> CoinsView.Lookup(batch, t) == CoinsView.Lookup(coins, t)
        invariant forall t :: t !in todo ==> CoinsView.Lookup(batch, t) == CoinsView.Stored(coins, mapCoins, t)
        decreases |todo|
      {
        var it :| it in todo;
        ghost var before := batch;
        if todo[it].isDirty {
          batch := if IsPruned(todo[it].coins) then batch - {it} else batch[it := todo[it].coins];
        }
        assert forall t :: t != it ==> CoinsView.Lookup(batch, t) == CoinsView.Lookup(before, t);
        assert todo.Keys - {it} < todo.Keys;
        todo := todo - {it};
      }
      StoreAllLooksUp(coins, mapCoins);
      MapsEqual(batch, CoinsView.StoreAll(coins, mapCoins));
    }

    method BatchWrite(mapCoins: map<Hash, Entry>, hashBlock: Hash)
      modifies this
      ensures CoinsView.Ok(Model()) == CoinsView.BatchWrite(old(Model()), mapCoins, hashBlock)
    {
      coins := Assemble(mapCoins);
      if hashBlock != 0 {
        best := hashBlock;
      }
    }
  }

  /** What a cache stands on: the virtual dispatch of `CCoinsView`. */
  datatype Base = OnDisk(db: CoinsViewDB) | InMemory(cache: CoinsViewCache)

  /** `CCoinsViewCache`. A live `CCoinsModifier` is the transaction it points at, and the use it
      remembers of the record it found. */
  class CoinsViewCache {
    const base: Base
    /** `CCoins::DynamicMemoryUsage`. */
    const usage: Coins -> nat
    var cacheCoins: map<Hash, Entry>
    var hashBlock: Hash
    var cachedCoinsUsage: int
    var modifying: Option<Hash>
    var cachedCoinUsage: nat

    /** This cache and everything below it. */
    ghost const Repr: set<object>

    ghost predicate Linked()
      decreases Repr
    {
      match base
      case OnDisk(db) => Repr == {this, db}
      case InMemory(cache) => this !in cache.Repr && Repr == {this} + cache.Repr && cache.Linked()
    }

    /** The value of the stack whose top is this cache. */
    ghost function Model(): View
      requires Linked()
      reads Repr
      decreases Repr
    {
      var below := match base case OnDisk(db) => db.Model() case InMemory(cache) => cache.Model();
      CoinsView.Cache(cacheCoins, hashBlock, modifying, below)
    }

    /** By how much the memory counter is off. */
    ghost function Excess(): int
      reads this
    {
      cachedCoinsUsage - (if modifying.Some? then cachedCoinUsage else 0) - TotalUsage(usage, Settled(cacheCoins, modifying))
    }

    /** The same for this cache and each one below it. */
    ghost function Excesses(): seq<int>
      requires Linked()
      reads Repr
      decreases Repr
    {
      [Excess()] + Deeper()
    }

    ghost function Deeper(): seq<int>
      requires Linked()
      reads Repr - {this}
      decreases Repr, 0
    {
      match base case OnDisk(db) => [] case InMemory(cache) => cache.Excesses()
    }

    constructor (base: Base, usage: Coins -> nat)
      requires base.InMemory? ==> base.cache.Linked()
      ensures Linked() && fresh(this) && this.base == base && this.usage == usage
      ensures Model().entries == map[] && Model().hashBlock == 0 && Model().modifying == None
      ensures Excess() == 0
    {
      this.base := base;
      this.usage := usage;
      cacheCoins := map[];
      hashBlock := 0;
      cachedCoinsUsage := 0;
      modifying := None;
      cachedCoinUsage := 0;
      Repr := {this} + match base case OnDisk(db) => {db} case InMemory(cache) => cache.Repr;
    }

    /** The virtual call of `GetCoins` on the level below. */
    method AskBase(txid: Hash) returns (r: Option<Coins>)
      requires Linked()
      modifies Repr - {this}
      ensures r == CoinsView.Get(old(Model()).base, txid)
      ensures Model().base == CoinsView.Fetch(old(Model()).base, txid)
      ensures Held(old(Model())) ==> Deeper() == old(Deeper())
      decreases Repr, 0
    {
      hide IsPruned, CoinsView.Get;
      match base {
        case OnDisk(db) => r := db.GetCoins(txid);
        case InMemory(cache) => r := cache.FetchCoins(txid);
      }
    }

    /** `FetchCoins` and `GetCoins`: answer from here, or ask below and remember. */
    method FetchCoins(txid: Hash) returns (r: Option<Coins>)
      requires Linked()
      modifies Repr
      ensures r == CoinsView.Get(old(Model()), txid)
      ensures Model() == CoinsView.Fetch(old(Model()), txid)
      ensures Held(old(Model())) ==> Excesses() == old(Excesses())
      decreases Repr, 1
    {
      if txid in cacheCoins {
        return Some(cacheCoins[txid].coins);
      }
      r := AskBase(txid);
      if r.Some? {
        var entry := CoinsView.Entry(r.value, false, IsPruned(r.value));
        if modifying != Some(txid) {
          SettledAdded(usage, cacheCoins, modifying, txid, entry);
        }
        cacheCoins := cacheCoins[txid := entry];
        cachedCoinsUsage := cachedCoinsUsage + usage(r.value);
      }
    }

    method HaveCoins(txid: Hash) returns (r: bool)
      requires Linked()
      modifies Repr
      ensures r == CoinsHave.Have(old(Model()), txid)
      ensures Model() == CoinsView.Fetch(old(Model()), txid)
      ensures Held(old(Model())) ==> Excesses() == old(Excesses())
    {
      var found := FetchCoins(txid);
      r := found.Some? && found.value.vout != [];
    }

    /** The entry `ModifyCoins` starts from when this cache has none. */
    method EntryFromBase(txid: Hash) returns (entry: Entry)
      requires Linked()
      modifies Repr - {this}
      ensures entry.(isDirty := true) == CoinsView.FirstEntry(CoinsView.Get(old(Model()).base, txid))
      ensures Model().base == CoinsView.Fetch(old(Model()).base, txid)
      ensures Held(old(Model())) ==> Deeper() == old(Deeper())
    {
      hide IsPruned, CoinsView.Get, CoinsView.Fetch;
      var found := AskBase(txid);
      entry := CoinsView.Entry(EMPTY_COINS, false, true);
      if found.Some? {
        entry := CoinsView.Entry(found.value, false, IsPruned(found.value));
      }
    }

    method ModifyCoins(txid: Hash)
      requires Linked() && modifying.None?
      modifies Repr
      ensures Model() == CoinsView.ModifyCoins(old(Model()), txid)
      ensures Held(old(Model())) ==> Excesses() == old(Excesses())
    {
      hide CoinsView.FirstEntry, CoinsView.Get, CoinsView.Fetch, TotalUsage, Settled, Held, Deeper;
      ghost var was := cacheCoins;
      ModifierSettles(usage, was, txid);
      cachedCoinUsage := 0;
      if txid !in cacheCoins {
        var entry := EntryFromBase(txid);
        cacheCoins := cacheCoins[txid := entry];
      } else {
        cachedCoinUsage := usage(cacheCoins[txid].coins);
      }
      cacheCoins := cacheCoins[txid := cacheCoins[txid].(isDirty := true)];
      modifying := Some(txid);
      SettledModified(was, cacheCoins, txid);
    }

    method ModifyNewCoins(txid: Hash, coinbase: bool) returns (error: Option<CoinsView.Error>)
      requires Linked() && modifying.None?
      modifies this
      ensures error.None? ==> CoinsView.Ok(Model()) == CoinsView.ModifyNewCoins(old(Model()), txid, coinbase)
      ensures error.Some? ==> CoinsView.Throws(error.value) == CoinsView.ModifyNewCoins(old(Model()), txid, coinbase)
      ensures error.Some? ==> Model() == old(Model()) && Excess() == old(Excess())
      ensures error.None? ==> Excess() == old(Excess()) + UsageAt(usage, old(cacheCoins), txid)
    {
      hide TotalUsage, Settled;
      ghost var was := cacheCoins;
      ModifierSettles(usage, was, txid);
      var entry := CoinsView.Entry(EMPTY_COINS, false, false);
      if txid in cacheCoins {
        entry := cacheCoins[txid];
      }
      if !coinbase {
        if !IsPruned(entry.coins) {
          return Some(CoinsView.PreExistingCoins);
        }
        if !entry.isDirty {
          entry := entry.(isFresh := true);
        }
      }
      cacheCoins := cacheCoins[txid := entry.(coins := EMPTY_COINS, isDirty := true)];
      modifying := Some(txid);
      cachedCoinUsage := 0;
      SettledModified(was, cacheCoins, txid);
      error := None;
    }

    /** An assignment through the modifier. */
    method Assign(c: Coins)
      requires Linked() && CoinsView.HasModifier(Model())
      modifies this
      ensures Model() == CoinsView.Assign(old(Model()), c)
      ensures Excess() == old(Excess())
    {
      var txid := modifying.value;
      cacheCoins := cacheCoins[txid := cacheCoins[txid].(coins := c)];
      assert cacheCoins - {txid} == old(cacheCoins) - {txid};
    }

    /** `~CCoinsModifier`. */
    method EndModify()
      requires Linked() && CoinsView.HasModifier(Model())
      modifies this
      ensures Model() == CoinsView.EndModify(old(Model()))
      ensures Excess() == old(Excess())
    {
      var txid := modifying.value;
      modifying := None;
      var cleaned := Cleanup(cacheCoins[txid].coins);
      CleanedKeepsAvailability(cacheCoins[txid].coins, 0);
      cacheCoins := cacheCoins[txid := cacheCoins[txid].(coins := cleaned)];
      cachedCoinsUsage := cachedCoinsUsage - cachedCoinUsage;
      TotalErased(usage, cacheCoins, txid);
      assert cacheCoins - {txid} == old(cacheCoins) - {txid};
      if cacheCoins[txid].isFresh && IsPruned(cleaned) {
        cacheCoins := cacheCoins - {txid};
      } else {
        cachedCoinsUsage := cachedCoinsUsage + usage(cleaned);
      }
    }

    /** One round of the loop in `BatchWrite`. */
    method WriteEntry(it: Hash, theirs: Entry) returns (error: Option<CoinsView.Error>)
      requires modifying.None?
      modifies this`cacheCoins, this`cachedCoinsUsage
      ensures error == if CoinsView.Misapplied(CoinsView.Lookup(old(cacheCoins), it), theirs)
                       then Some(CoinsView.FreshMisapplied) else None
      ensures error.None? ==>
        CoinsView.Lookup(cacheCoins, it) == CoinsView.Merge(CoinsView.Lookup(old(cacheCoins), it), theirs)
      ensures error.Some? ==> cacheCoins == old(cacheCoins)
      ensures forall t :: t != it ==> CoinsView.Lookup(cacheCoins, t) == CoinsView.Lookup(old(cacheCoins), t)
      ensures Excess() == old(Excess())
    {
      hide TotalUsage, IsPruned;
      error := None;
      if theirs.isDirty {
        if it !in cacheCoins {
          if !(theirs.isFresh && IsPruned(theirs.coins)) {
            var entry := CoinsView.Entry(theirs.coins, true, theirs.isFresh);
            TotalUpdated(usage, cacheCoins, it, entry);
            cacheCoins := cacheCoins[it := entry];
            cachedCoinsUsage := cachedCoinsUsage + usage(entry.coins);
          }
        } else {
          if theirs.isFresh && !IsPruned(cacheCoins[it].coins) {
            return Some(CoinsView.FreshMisapplied);
          }
          cachedCoinsUsage := cachedCoinsUsage - usage(cacheCoins[it].coins);
          if cacheCoins[it].isFresh && IsPruned(theirs.coins) {
            TotalErased(usage, cacheCoins, it);
            cacheCoins := cacheCoins - {it};
          } else {
            var entry := cacheCoins[it].(coins := theirs.coins, isDirty := true);
            TotalUpdated(usage, cacheCoins, it, entry);
            cacheCoins := cacheCoins[it := entry];
            cachedCoinsUsage := cachedCoinsUsage + usage(entry.coins);
          }
        }
      }
    }

    /** The loop of `BatchWrite`: entries are taken from the child's map in any order, and out of it.
        A throw leaves both maps half way: `rest` is what the child still has. */
    method WriteEntries(mapCoins: map<Hash, Entry>) returns (error: Option<CoinsView.Error>, rest: map<Hash, Entry>)
      requires modifying.None?
      modifies this`cacheCoins, this`cachedCoinsUsage
      ensures error == if CoinsView.AnyMisapplied(old(cacheCoins), mapCoins) then Some(CoinsView.FreshMisapplied) else None
      ensures error.None? ==> rest == map[] && cacheCoins == CoinsView.MergeAll(old(cacheCoins), mapCoins)
      ensures error.Some? ==> CoinsView.HalfMerged(old(cacheCoins), mapCoins, cacheCoins, rest)
      ensures Excess() == old(Excess())
    {
      hide TotalUsage;
      ghost var was := cacheCoins;
      rest := mapCoins;
      while rest != map[]
        invariant CoinsView.PartMerged(was, mapCoins, cacheCoins, rest)
        invariant forall t :: t in mapCoins && t !in rest ==> !CoinsView.Misapplied(CoinsView.Lookup(was, t), mapCoins[t])
        invariant Excess() == old(Excess())
        decreases |rest|
      {
        var it :| it in rest;
        error := WriteEntry(it, rest[it]);
        if error.Some? {
          assert CoinsView.Misapplied(CoinsView.Lookup(was, it), mapCoins[it]);
          return;
        }
        assert rest.Keys - {it} < rest.Keys;
        rest := rest - {it};
      }
      MergeAllLooksUp(was, mapCoins);
      MapsEqual(cacheCoins, CoinsView.MergeAll(was, mapCoins));
      error := None;
    }

    /** Throws exactly when some FRESH flag is misapplied; otherwise every entry is merged in. */
    method BatchWrite(mapCoins: map<Hash, Entry>, hashBlockIn: Hash)
      returns (error: Option<CoinsView.Error>, rest: map<Hash, Entry>)
      requires Linked() && modifying.None?
      modifies this
      ensures error.None? ==> CoinsView.Ok(Model()) == CoinsView.BatchWrite(old(Model()), mapCoins, hashBlockIn)
      ensures error.Some? ==> CoinsView.Throws(error.value) == CoinsView.BatchWrite(old(Model()), mapCoins, hashBlockIn)
      ensures error.Some? ==> Model() == old(Model()).(entries := cacheCoins)
      ensures error.Some? ==> CoinsView.HalfMerged(old(cacheCoins), mapCoins, cacheCoins, rest)
      ensures Excess() == old(Excess())
    {
      error, rest := WriteEntries(mapCoins);
      if error.None? {
        hashBlock := hashBlockIn;
      }
    }

    /** An exception skips the emptying at the end: both caches stay as the loop left them. */
    method Flush() returns (error: Option<CoinsView.Error>)
      requires Linked() && (Model().base.Cache? ==> Model().base.modifying.None?)
      modifies Repr
      ensures error.None? ==> CoinsView.Ok(Model()) == CoinsView.Flush(old(Model()))
      ensures error.Some? ==> CoinsView.Throws(error.value) == CoinsView.Flush(old(Model()))
      ensures error.Some? ==> CoinsView.HalfFlushed(old(Model()), Model())
      ensures Deeper() == old(Deeper())
      ensures error.None? && modifying.None? ==> Excess() == 0
    {
      match base {
        case OnDisk(db) =>
          db.BatchWrite(cacheCoins, hashBlock);
          error := None;
        case InMemory(cache) =>
          assert Model().base == cache.Model();
          ghost var deeper := cache.Deeper();
          error, cacheCoins := cache.BatchWrite(cacheCoins, hashBlock);
          assert cache.Deeper() == deeper;
          if error.Some? {
            return;
          }
      }
      cacheCoins := map[];
      cachedCoinsUsage := 0;
    }

    method Uncache(txid: Hash)
      requires Linked()
      modifies this
      ensures Model() == CoinsView.Uncache(old(Model()), txid)
      ensures Held(old(Model())) ==> Excess() == old(Excess())
    {
      if txid in cacheCoins && !cacheCoins[txid].isDirty && !cacheCoins[txid].isFresh {
        if modifying != Some(txid) {
          SettledDropped(usage, cacheCoins, modifying, txid);
        }
        cachedCoinsUsage := cachedCoinsUsage - usage(cacheCoins[txid].coins);
        cacheCoins := cacheCoins - {txid};
      }
    }

    /** `GetBestBlock`: a null hash is looked up below, and remembered. */
    method GetBestBlock() returns (r: Hash)
      requires Linked()
      modifies Repr
      ensures r == CoinsView.BestBlock(old(Model())) && CoinsView.BestBlock(Model()) == r
      ensures Model() == CoinsView.Remember(old(Model()))
      ensures forall t :: CoinsView.Get(Model(), t) == CoinsView.Get(old(Model()), t)
      ensures Excesses() == old(Excesses())
      decreases Repr
    {
      CoinsView.RememberKeeps(Model());
      if hashBlock == 0 {
        match base {
          case OnDisk(db) => hashBlock := db.best;
          case InMemory(cache) =>
            hashBlock := cache.GetBestBlock();
        }
      }
      r := hashBlock;
    }
  }

  /** Maps that look up the same are the same. */
  lemma MapsEqual<T>(a: map<Hash, T>, b: map<Hash, T>)
    requires forall t :: CoinsView.Lookup(a, t) == CoinsView.Lookup(b, t)
    ensures a == b
  {
    forall t
      ensures t in a <==> t in b
      ensures t in a ==> a[t] == b[t]
    {
      assert CoinsView.Lookup(a, t) == CoinsView.Lookup(b, t);
    }
  }

  lemma MergeAllLooksUp(ours: map<Hash, Entry>, theirs: map<Hash, Entry>)
    ensures forall t :: CoinsView.Lookup(CoinsView.MergeAll(ours, theirs), t) == CoinsView.Merged(ours, theirs, t)
  {
  }

  lemma StoreAllLooksUp(ours: map<Hash, Coins>, theirs: map<Hash, Entry>)
    ensures forall t :: CoinsView.Lookup(CoinsView.StoreAll(ours, theirs), t) == CoinsView.Stored(ours, theirs, t)
  {
  }
}
