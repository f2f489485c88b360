/**
 The memory counter of a coin cache (`cachedCoinsUsage` in src/coins.h): what it
 counts, and how the count moves with the map it is about.
 */
module CoinsUsage {
  import opened Basics
  import opened Coins
  import opened CoinsView

  /** What the records of a cache use together, `usage` being `CCoins::DynamicMemoryUsage`. */
  ghost function TotalUsage(usage: Coins -> nat, m: map<Hash, Entry>): nat {
    if m == map[] then 0 else
    var t :| t in m;
    usage(m[t].coins) + TotalUsage(usage, m - {t})
  }

  /** Any record may be taken out first. */
  lemma {:induction false} TotalWithout(usage: Coins -> nat, m: map<Hash, Entry>, t: Hash)
    requires t in m
    ensures TotalUsage(usage, m) == usage(m[t].coins) + TotalUsage(usage, m - {t})
    decreases |m|
  {
    var first :| first in m && TotalUsage(usage, m) == usage(m[first].coins) + TotalUsage(usage, m - {first});
    if first != t {
      assert (m - {first}) - {t} == (m - {t}) - {first};
      TotalWithout(usage, m - {first}, t);
      TotalWithout(usage, m - {t}, first);
    }
  }

  /** Use of the record of `t`, if there is one. */
  function UsageAt(usage: Coins -> nat, m: map<Hash, Entry>, t: Hash): nat {
    if t in m then usage(m[t].coins) else 0
  }

  lemma TotalUpdated(usage: Coins -> nat, m: map<Hash, Entry>, t: Hash, e: Entry)
    ensures TotalUsage(usage, m[t := e]) == TotalUsage(usage, m) - UsageAt(usage, m, t) + usage(e.coins)
  {
    TotalWithout(usage, m[t := e], t);
    assert m[t := e] - {t} == m - {t};
    if t in m {
      TotalWithout(usage, m, t);
    } else {
      assert m - {t} == m;
    }
  }

  lemma TotalErased(usage: Coins -> nat, m: map<Hash, Entry>, t: Hash)
    ensures TotalUsage(usage, m - {t}) == TotalUsage(usage, m) - UsageAt(usage, m, t)
  {
    if t in m {
      TotalWithout(usage, m, t);
    } else {
      assert m - {t} == m;
    }
  }

  /** The records the counter answers for: all but the one under modification, whose old use
      the modifier holds. */
  function Settled(m: map<Hash, Entry>, modifying: Option<Hash>): map<Hash, Entry> {
    if modifying.Some? then m - {modifying.value} else m
  }

  lemma ModifierSettles(usage: Coins -> nat, m: map<Hash, Entry>, t: Hash)
    ensures TotalUsage(usage, Settled(m, Some(t))) == TotalUsage(usage, Settled(m, None)) - UsageAt(usage, m, t)
  {
    TotalErased(usage, m, t);
  }

  lemma SettledModified(m: map<Hash, Entry>, n: map<Hash, Entry>, t: Hash)
    requires m - {t} == n - {t}
    ensures Settled(m, Some(t)) == Settled(n, Some(t))
  {
  }

  /** A record added beside a modification in progress. */
  lemma SettledAdded(usage: Coins -> nat, m: map<Hash, Entry>, modifying: Option<Hash>, t: Hash, e: Entry)
    requires t !in m && modifying != Some(t)
    ensures TotalUsage(usage, Settled(m[t := e], modifying)) == TotalUsage(usage, Settled(m, modifying)) + usage(e.coins)
  {
    assert Settled(m[t := e], modifying) == Settled(m, modifying)[t := e];
    TotalUpdated(usage, Settled(m, modifying), t, e);
  }

  /** A record dropped beside a modification in progress. */
  lemma SettledDropped(usage: Coins -> nat, m: map<Hash, Entry>, modifying: Option<Hash>, t: Hash)
    requires t in m && modifying != Some(t)
    ensures TotalUsage(usage, Settled(m - {t}, modifying)) == TotalUsage(usage, Settled(m, modifying)) - usage(m[t].coins)
  {
    assert Settled(m - {t}, modifying) == Settled(m, modifying) - {t};
    TotalErased(usage, Settled(m, modifying), t);
  }

  /** Every modifier of the stack points at a record marked DIRTY. */
  predicate Held(v: View) {
    v.Cache? ==>
      && (v.modifying.Some? ==> v.modifying.value in v.entries && v.entries[v.modifying.value].isDirty)
      && Held(v.base)
  }

  lemma {:induction false} InvHolds(v: View)
    requires Inv(v)
    ensures Held(v)
  {
    if v.Cache? {
      InvHolds(v.base);
    }
  }
}
