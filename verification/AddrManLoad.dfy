/**
 Loading any file at all (`CAddrMan::Unserialize` in src/addrman.h), not only one that was
 saved: what each phase keeps, and exactly when a consistent manager comes out.
 */
module AddrManLoad {
  import opened Basics
  import opened AddrManModel
  import opened AddrManOps
  import opened AddrManRun
  import opened AddrManStream

  /** The addresses of a list of entries. */
  function Addresses(infos: seq<AddrInfo>): seq<NetAddr> {
    seq(|infos|, i requires 0 <= i < |infos| => infos[i].service.ip)
  }

  /** No address is on the stream twice. */
  ghost predicate DistinctAddresses(st: Stream) {
    Distinct(Addresses(st.newInfos + st.triedInfos))
  }

  ghost function Heard(infos: seq<AddrInfo>, n: nat): set<NetAddr>
    requires n <= |infos|
  {
    set i | 0 <= i < n :: infos[i].service.ip
  }

  lemma HeardStep(infos: seq<AddrInfo>, n: nat)
    requires n < |infos|
    ensures Heard(infos, n + 1) == Heard(infos, n) + {infos[n].service.ip}
  {
  }

  lemma NotHeard(infos: seq<AddrInfo>, n: nat)
    requires n < |infos| && Distinct(Addresses(infos))
    ensures infos[n].service.ip !in Heard(infos, n)
  {
    var ips := Addresses(infos);
    forall i | 0 <= i < n
      ensures infos[i].service.ip != infos[n].service.ip
    {
      assert ips[i] != ips[n];
    }
  }

  // ----- everything but the index by address -----

  /** All of `Check_` but the counters and the index by address, with some entries in between tables. */
  ghost predicate Shaped(P: Params, m: AddrMan, floating: set<Id>) {
    RandomOk(m) && IdsOk(m) && NewTableOk(P, m) && TriedTableOk(P, m) && EntriesOk(P, m, floating)
  }

  /** Every address leads to the last of the entries that have it. */
  ghost predicate LeadsToLast(m: AddrMan) {
    && (forall id :: id in m.mapInfo ==> m.mapInfo[id].service.ip in m.mapAddr && id <= m.mapAddr[m.mapInfo[id].service.ip])
    && (forall a :: a in m.mapAddr ==> m.mapAddr[a] in m.mapInfo && m.mapInfo[m.mapAddr[a]].service.ip == a)
  }

  /** No two entries have one address. */
  ghost predicate Unshared(m: AddrMan) {
    forall i, j :: i in m.mapInfo && j in m.mapInfo && m.mapInfo[i].service.ip == m.mapInfo[j].service.ip ==> i == j
  }

  /** The entries that are in no slot are the ones that loading will give up on. */
  lemma FloatingIsLost(P: Params, m: AddrMan, floating: set<Id>)
    requires EntriesOk(P, m, floating)
    ensures LostIds(m) == floating
  {
    hide EntryOk;
    forall id | id in m.mapInfo
      ensures id in LostIds(m) <==> id in floating
    {
      LostOrNot(P, m, floating, id);
    }
  }

  lemma LostOrNot(P: Params, m: AddrMan, floating: set<Id>, id: Id)
    requires id in m.mapInfo && EntryOk(P, m, floating, id)
    ensures id in LostIds(m) <==> id in floating
  {
    hide SlotsOf;
  }

  /** The counters play no part in it. */
  lemma CountersAside(P: Params, m: AddrMan, floating: set<Id>, nNew: int, nTried: int)
    requires Shaped(P, m, floating)
    ensures var w := m.(nNew := nNew, nTried := nTried);
            Shaped(P, w, floating) && TriedIds(w) == TriedIds(m) && NewIds(w) == NewIds(m) && (LeadsToLast(m) ==> LeadsToLast(w))
  {
    hide NewSlot, TriedSlot, SlotsOf;
    var w := m.(nNew := nNew, nTried := nTried);
    forall id | id in w.mapInfo
      ensures EntryOk(P, w, floating, id)
    {
      assert EntryOk(P, m, floating, id);
    }
  }

  lemma CreateRandom(m: AddrMan, service: Service, source: NetAddr, stats: Stats)
    requires RandomOk(m) && IdsOk(m) && m.nIdCount >= 0
    ensures var w := Create(m, service, source, stats); RandomOk(w) && IdsOk(w) && (LeadsToLast(m) ==> LeadsToLast(w))
  {
  }

  lemma CreateShaped(P: Params, m: AddrMan, floating: set<Id>, service: Service, source: NetAddr, stats: Stats)
    requires Shaped(P, m, floating) && m.nIdCount >= 0
    ensures m.nIdCount !in m.mapInfo
    ensures var w := Create(m, service, source, stats);
            && Shaped(P, w, floating + {m.nIdCount}) && (LeadsToLast(m) ==> LeadsToLast(w))
            && TriedIds(w) == TriedIds(m) && NewIds(w) == NewIds(m) + {m.nIdCount}
  {
    hide RandomOk, EntriesOk, NewTableOk, TriedTableOk, LeadsToLast;
    CreateRandom(m, service, source, stats);
    CreateTables(P, m, floating, service, source, stats);
  }

  /** Changing an entry without moving it or its address. */
  lemma WithInfoRandom(m: AddrMan, w: AddrMan, id: Id, info: AddrInfo)
    requires RandomOk(m) && IdsOk(m) && id in m.mapInfo
    requires info.service == m.mapInfo[id].service && info.nRandomPos == m.mapInfo[id].nRandomPos
    requires w.mapInfo == m.mapInfo[id := info] && w.mapAddr == m.mapAddr && w.vRandom == m.vRandom && w.nIdCount == m.nIdCount
    ensures RandomOk(w) && IdsOk(w) && (LeadsToLast(m) ==> LeadsToLast(w))
  {
  }

  lemma EnterShaped(P: Params, m: AddrMan, floating: set<Id>, id: Id)
    requires Shaped(P, m, floating) && id in floating && !m.mapInfo[id].fInTried
    requires TriedSlot(P, m.nKey, m.mapInfo[id].service) !in m.vvTried
    ensures var w := EnterTried(P, m, id);
            && Shaped(P, w, floating - {id}) && (LeadsToLast(m) ==> LeadsToLast(w))
            && TriedIds(w) == TriedIds(m) + {id} && NewIds(w) == NewIds(m) - {id}
  {
    hide RandomOk, IdsOk, TriedSlot, NewTableOk, TriedTableOk, EntryOk, LeadsToLast;
    var w := EnterTried(P, m, id);
    WithInfoRandom(m, w, id, w.mapInfo[id]);
    EnterTriedEntries(P, m, floating, id);
    EnterTriedTables(P, m, floating, id);
  }

  lemma AttachTables(P: Params, m: AddrMan, id: Id, s: Slot)
    requires NewTableOk(P, m) && TriedTableOk(P, m) && id in m.mapInfo && !m.mapInfo[id].fInTried
    requires s.bucket < P.newBuckets && s == NewSlot(P, m.nKey, m.mapInfo[id].service, s.bucket)
    ensures NewTableOk(P, Attach(m, id, s)) && TriedTableOk(P, Attach(m, id, s))
  {
    hide TriedSlot, NewSlot;
  }

  lemma AttachShaped(P: Params, m: AddrMan, floating: set<Id>, id: Id, s: Slot)
    requires Shaped(P, m, floating) && id in m.mapInfo && !m.mapInfo[id].fInTried
    requires s !in m.vvNew && s.bucket < P.newBuckets && s == NewSlot(P, m.nKey, m.mapInfo[id].service, s.bucket)
    requires m.mapInfo[id].nRefCount < NEW_BUCKETS_PER_ADDRESS
    ensures var w := Attach(m, id, s);
            && Shaped(P, w, floating - {id}) && (LeadsToLast(m) ==> LeadsToLast(w))
            && TriedIds(w) == TriedIds(m) && NewIds(w) == NewIds(m)
  {
    hide RandomOk, IdsOk, EntriesOk, TriedIds, NewIds, TriedSlot, NewSlot, NewTableOk, TriedTableOk, LeadsToLast;
    var w := Attach(m, id, s);
    SameKinds(m, w);
    WithInfoRandom(m, w, id, w.mapInfo[id]);
    AttachTables(P, m, id, s);
    AttachEntries(P, m, floating, id, s);
  }

  lemma DropLastRandom(m: AddrMan, id: Id)
    requires RandomOk(m) && IdsOk(m) && m.vRandom != [] && m.vRandom[|m.vRandom| - 1] == id
    ensures id in m.mapInfo && RandomOk(DropLast(m, id)) && IdsOk(DropLast(m, id))
  {
    var w := DropLast(m, id);
    forall j | j in w.mapInfo
      ensures 0 <= w.mapInfo[j].nRandomPos < |w.vRandom| && w.vRandom[w.mapInfo[j].nRandomPos] == j
    {
    }
  }

  lemma LostStandsNowhere(P: Params, m: AddrMan, floating: set<Id>, id: Id)
    requires RandomOk(m) && EntriesOk(P, m, floating) && id in floating
    ensures CanDelete(m, id) && id in NewIds(m)
  {
    assert EntryOk(P, m, floating, id);
  }

  lemma SwapShaped(P: Params, m: AddrMan, floating: set<Id>, i: nat, j: nat)
    requires Shaped(P, m, floating) && i < |m.vRandom| && j < |m.vRandom|
    ensures CanSwap(m, i, j)
    ensures var w := SwapRandom(m, i, j);
            Shaped(P, w, floating) && SameButOrder(m, w) && TriedIds(w) == TriedIds(m) && NewIds(w) == NewIds(m)
  {
    hide RandomOk, IdsOk, EntriesOk, TriedIds, NewIds, NewTableOk, TriedTableOk, SwapRandom, CanSwap;
    SwapKeepsOrder(m, i, j);
    SwapIsOnlyOrder(m, i, j);
    var w := SwapRandom(m, i, j);
    OrderKeepsTables(P, m, w);
    OrderKeepsEntries(P, m, w, floating);
    SameKinds(m, w);
  }

  /** What `Delete` is made of. */
  lemma DeleteIsDrop(m: AddrMan, id: Id)
    requires RandomOk(m) && CanDelete(m, id)
    ensures var w := SwapRandom(m, m.mapInfo[id].nRandomPos, |m.vRandom| - 1);
            && w.vRandom != [] && w.vRandom[|w.vRandom| - 1] == id && id in w.mapInfo && !w.mapInfo[id].fInTried
            && w.mapInfo[id].service == m.mapInfo[id].service && w.mapAddr == m.mapAddr && Delete(m, id) == DropLast(w, id)
  {
  }

  lemma DropLastIs(m: AddrMan, id: Id)
    requires m.vRandom != [] && id in m.mapInfo
    ensures DropLast(m, id).mapAddr == m.mapAddr - {m.mapInfo[id].service.ip}
  {
  }

  /** Deleting a lost entry: no assertion fires, its address goes from the index, and nothing else moves. */
  lemma DeleteShaped(P: Params, m: AddrMan, floating: set<Id>, id: Id)
    requires Shaped(P, m, floating) && id in floating && id in m.mapInfo
    ensures CanDelete(m, id)
    ensures var w := Delete(m, id);
            && Shaped(P, w, floating - {id}) && TriedIds(w) == TriedIds(m) && NewIds(w) == NewIds(m) - {id}
            && DropsOnly(m, w, id) && w.mapAddr == m.mapAddr - {m.mapInfo[id].service.ip}
  {
    hide *;
    ShapedParts(P, m, floating);
    LostStandsNowhere(P, m, floating, id);
    DeleteIsDrop(m, id);
    CanDeleteParts(m, id);
    SwapShaped(P, m, floating, m.mapInfo[id].nRandomPos, |m.vRandom| - 1);
    var w := SwapRandom(m, m.mapInfo[id].nRandomPos, |m.vRandom| - 1);
    ShapedParts(P, w, floating);
    DropLastRandom(w, id);
    DropLastTables(P, w, floating, id);
    DropLastKinds(w, id);
    DropLastDropsOnly(m, w, id);
    DropLastIs(w, id);
    ShapedWhole(P, DropLast(w, id), floating - {id});
  }

  lemma CanDeleteParts(m: AddrMan, id: Id)
    requires CanDelete(m, id)
    ensures m.vRandom != [] && 0 <= m.mapInfo[id].nRandomPos < |m.vRandom|
  {
  }

  lemma ShapedParts(P: Params, m: AddrMan, floating: set<Id>)
    requires Shaped(P, m, floating)
    ensures RandomOk(m) && IdsOk(m) && NewTableOk(P, m) && TriedTableOk(P, m) && EntriesOk(P, m, floating)
  {
  }

  lemma ShapedWhole(P: Params, m: AddrMan, floating: set<Id>)
    requires RandomOk(m) && IdsOk(m) && NewTableOk(P, m) && TriedTableOk(P, m) && EntriesOk(P, m, floating)
    ensures Shaped(P, m, floating)
  {
  }

  // ----- the first list -----

  /** The first `n` entries of the first list are in, under the ids up to `n`, and in no slot. */
  ghost predicate NewLoaded(P: Params, m: AddrMan, n: nat, infos: seq<AddrInfo>) {
    && n <= |infos| && m.nIdCount == n && Shaped(P, m, Range(0, n)) && LeadsToLast(m)
    && NewIds(m) == Range(0, n) && TriedIds(m) == {} && m.mapAddr.Keys == Heard(infos, n)
    && (Distinct(Addresses(infos)) ==> Unshared(m))
  }

  lemma CreateUnshared(m: AddrMan, service: Service, source: NetAddr, stats: Stats)
    requires LeadsToLast(m) && Unshared(m) && service.ip !in m.mapAddr && m.nIdCount !in m.mapInfo
    ensures Unshared(Create(m, service, source, stats))
  {
  }

  lemma OnlyNew(m: AddrMan, n: int)
    requires NewIds(m) == Range(0, n) && TriedIds(m) == {}
    ensures n !in m.mapInfo
  {
    assert n in m.mapInfo ==> n in NewIds(m) || n in TriedIds(m);
  }

  lemma LoadNewStep(P: Params, m: AddrMan, n: nat, infos: seq<AddrInfo>)
    requires n < |infos| && NewLoaded(P, m.(nIdCount := n), n, infos) && infos[n] == Saved(infos[n])
    ensures NewLoaded(P, LoadNewOne(m, n, infos[n]).(nIdCount := n + 1), n + 1, infos)
  {
    hide Shaped, NewIds, TriedIds, Heard, Distinct, Addresses, LeadsToLast, Unshared;
    var c, info := m.(nIdCount := n), infos[n];
    OnlyNew(c, n);
    CreateShaped(P, c, Range(0, n), info.service, info.source, info.stats);
    assert LoadNewOne(m, n, info).(nIdCount := n + 1) == Create(c, info.service, info.source, info.stats);
    assert Range(0, n + 1) == Range(0, n) + {n};
    HeardStep(infos, n);
    if Distinct(Addresses(infos)) {
      NotHeard(infos, n);
      assert info.service.ip !in c.mapAddr.Keys;
      CreateUnshared(c, info.service, info.source, info.stats);
    }
  }

  lemma {:induction false} LoadNewKeeps(P: Params, m: AddrMan, n: nat, infos: seq<AddrInfo>)
    requires n <= |infos| && NewLoaded(P, m.(nIdCount := n), n, infos)
    requires forall i :: 0 <= i < |infos| ==> infos[i] == Saved(infos[i])
    ensures var w := LoadNew(m, n, infos);
            NewLoaded(P, w.(nIdCount := |infos|), |infos|, infos) && w.nKey == m.nKey && w.nNew == m.nNew && w.nTried == m.nTried
    decreases |infos| - n
  {
    hide NewLoaded, Saved;
    if n < |infos| {
      LoadNewStep(P, m, n, infos);
      LoadNewKeeps(P, LoadNewOne(m, n, infos[n]), n + 1, infos);
    }
  }

  // ----- the second list -----

  /** `k` entries of the second list are in or lost, and `nTried` counts those in and those to come. */
  ghost predicate TriedLoaded(P: Params, m: AddrMan, k: nat, st: Stream) {
    && k <= |st.triedInfos| && m.nIdCount >= |st.newInfos| == m.nNew && Shaped(P, m, Range(0, m.nNew)) && LeadsToLast(m)
    && NewIds(m) == Range(0, m.nNew) && m.nTried == |TriedIds(m)| + |st.triedInfos| - k
    && m.mapAddr.Keys <= Heard(st.newInfos + st.triedInfos, |st.newInfos| + k)
    && (DistinctAddresses(st) ==> Unshared(m))
  }

  /** A tried entry whose slot is free is created and entered. */
  lemma LoadTriedIsEnter(P: Params, m: AddrMan, info: AddrInfo)
    requires info == Saved(info) && TriedSlot(P, m.nKey, info.service) !in m.vvTried && m.nIdCount != FREE
    ensures var c := Create(m, info.service, info.source, info.stats);
            && m.nIdCount in c.mapInfo && c.mapInfo[m.nIdCount].service == info.service && !c.mapInfo[m.nIdCount].fInTried
            && c.vvTried == m.vvTried && c.nKey == m.nKey
            && LoadTriedOne(P, m, info) == EnterTried(P, c, m.nIdCount).(nTried := m.nTried)
  {
    hide TriedSlot;
    var c := Create(m, info.service, info.source, info.stats);
    assert LoadTriedOne(P, m, info).mapInfo == EnterTried(P, c, m.nIdCount).mapInfo;
  }

  lemma EnteredShaped(P: Params, m: AddrMan, info: AddrInfo, floating: set<Id>)
    requires info == Saved(info) && TriedSlot(P, m.nKey, info.service) !in m.vvTried
    requires Shaped(P, m, floating) && LeadsToLast(m) && m.nIdCount >= 0 && m.nIdCount !in floating
    ensures var w := LoadTriedOne(P, m, info);
            && Shaped(P, w, floating) && LeadsToLast(w) && NewIds(w) == NewIds(m) && |TriedIds(w)| == |TriedIds(m)| + 1
            && (Unshared(m) && info.service.ip !in m.mapAddr ==> Unshared(w))
  {
    hide Shaped, LeadsToLast, Unshared, TriedSlot, EnterTried, LoadTriedOne, Saved;
    var id := m.nIdCount;
    var c := Create(m, info.service, info.source, info.stats);
    CreateShaped(P, m, floating, info.service, info.source, info.stats);
    LoadTriedIsEnter(P, m, info);
    EnterShaped(P, c, floating + {id}, id);
    if Unshared(m) && info.service.ip !in m.mapAddr {
      CreateUnshared(m, info.service, info.source, info.stats);
      EnterUnshared(P, c, id, m.nTried);
    }
    var v := EnterTried(P, c, id);
    assert floating + {id} - {id} == floating;
    assert id !in NewIds(m) && id !in TriedIds(m);
    assert NewIds(m) + {id} - {id} == NewIds(m);
    CountersAside(P, v, floating, v.nNew, m.nTried);
  }

  lemma EnterUnshared(P: Params, m: AddrMan, id: Id, nTried: int)
    requires id in m.mapInfo && Unshared(m)
    ensures Unshared(EnterTried(P, m, id).(nTried := nTried))
  {
  }

  lemma EnteredShape(P: Params, m: AddrMan, info: AddrInfo)
    requires TriedSlot(P, m.nKey, info.service) !in m.vvTried
    ensures var w := LoadTriedOne(P, m, info);
            && w.nNew == m.nNew && w.nTried == m.nTried && w.nIdCount == m.nIdCount + 1
            && w.mapAddr.Keys == m.mapAddr.Keys + {info.service.ip}
  {
    hide TriedSlot;
  }

  lemma LoadTriedStep(P: Params, m: AddrMan, k: nat, st: Stream)
    requires k < |st.triedInfos| && TriedLoaded(P, m, k, st) && st.triedInfos[k] == Saved(st.triedInfos[k])
    ensures TriedLoaded(P, LoadTriedOne(P, m, st.triedInfos[k]), k + 1, st)
  {
    hide Shaped, LeadsToLast, NewIds, TriedIds, Heard, Distinct, Addresses, TriedSlot, Saved;
    var info, all, n := st.triedInfos[k], st.newInfos + st.triedInfos, |st.newInfos| + k;
    assert all[n] == info;
    HeardStep(all, n);
    if TriedSlot(P, m.nKey, info.service) in m.vvTried {
      CountersAside(P, m, Range(0, m.nNew), m.nNew, m.nTried - 1);
    } else {
      hide Unshared;
      if DistinctAddresses(st) {
        NotHeard(all, n);
        assert info.service.ip !in m.mapAddr.Keys;
      }
      EnteredShaped(P, m, info, Range(0, m.nNew));
      EnteredShape(P, m, info);
    }
  }

  lemma {:induction false} LoadTriedKeeps(P: Params, m: AddrMan, k: nat, st: Stream)
    requires k <= |st.triedInfos| && TriedLoaded(P, m, k, st)
    requires forall i :: 0 <= i < |st.triedInfos| ==> st.triedInfos[i] == Saved(st.triedInfos[i])
    ensures TriedLoaded(P, LoadTried(P, m, k, st.triedInfos), |st.triedInfos|, st)
    decreases |st.triedInfos| - k
  {
    hide TriedLoaded, Saved, LoadTriedOne;
    if k < |st.triedInfos| {
      LoadTriedStep(P, m, k, st);
      LoadTriedKeeps(P, LoadTriedOne(P, m, st.triedInfos[k]), k + 1, st);
    }
  }

  // ----- the buckets -----

  /** Everything is in; some new entries may still have no slot. */
  ghost predicate Filling(P: Params, m: AddrMan, distinct: bool) {
    && Shaped(P, m, LostIds(m)) && LeadsToLast(m) && m.nNew >= 0 && NewIds(m) == Range(0, m.nNew) && m.nTried == |TriedIds(m)|
    && (distinct ==> Unshared(m))
  }

  lemma ShapedIsLost(P: Params, m: AddrMan, floating: set<Id>)
    requires Shaped(P, m, floating)
    ensures Shaped(P, m, LostIds(m))
  {
    hide EntriesOk, LostIds;
    FloatingIsLost(P, m, floating);
  }

  lemma AttachUnshared(m: AddrMan, id: Id, s: Slot)
    requires id in m.mapInfo && Unshared(m)
    ensures Unshared(Attach(m, id, s))
  {
  }

  lemma LoadIndexKeeps(P: Params, m: AddrMan, bucket: nat, index: int, distinct: bool)
    requires bucket < P.newBuckets && Filling(P, m, distinct)
    ensures Filling(P, LoadIndex(P, m, bucket, index), distinct)
  {
    hide Shaped, LostIds, TriedIds, LeadsToLast, Unshared;
    if 0 <= index < m.nNew && index in m.mapInfo {
      assert index in NewIds(m);
      hide NewIds;
      var s := NewSlot(P, m.nKey, m.mapInfo[index].service, bucket);
      if s !in m.vvNew && m.mapInfo[index].nRefCount < NEW_BUCKETS_PER_ADDRESS {
        AttachShaped(P, m, LostIds(m), index, s);
        ShapedIsLost(P, Attach(m, index, s), LostIds(m) - {index});
        if distinct {
          AttachUnshared(m, index, s);
        }
      }
    }
  }

  lemma {:induction false} LoadBucketKeeps(P: Params, m: AddrMan, bucket: nat, n: nat, indices: seq<int>, distinct: bool)
    requires bucket < P.newBuckets && n <= |indices| && Filling(P, m, distinct)
    ensures Filling(P, LoadBucket(P, m, bucket, n, indices), distinct)
    decreases |indices| - n
  {
    hide Filling, LoadIndex;
    if n < |indices| {
      LoadIndexKeeps(P, m, bucket, indices[n], distinct);
      LoadBucketKeeps(P, LoadIndex(P, m, bucket, indices[n]), bucket, n + 1, indices, distinct);
    }
  }

  lemma {:induction false} LoadBucketsKeeps(P: Params, m: AddrMan, bucket: nat, buckets: seq<seq<int>>, distinct: bool)
    requires bucket <= |buckets| == P.newBuckets && Filling(P, m, distinct)
    ensures Filling(P, LoadBuckets(P, m, bucket, buckets), distinct)
    decreases |buckets| - bucket
  {
    hide Filling, LoadBucket;
    if bucket < |buckets| {
      LoadBucketKeeps(P, m, bucket, 0, buckets[bucket], distinct);
      LoadBucketsKeeps(P, LoadBucket(P, m, bucket, 0, buckets[bucket]), bucket + 1, buckets, distinct);
    }
  }

  // ----- pruning -----

  /** The addresses of the entries that loading gives up on. */
  ghost function LostAddresses(m: AddrMan): set<NetAddr> {
    set id | id in LostIds(m) :: m.mapInfo[id].service.ip
  }

  /** What pruning leaves: the other entries, and the index without the addresses of those that are gone. */
  ghost predicate PrunesTo(m: AddrMan, w: AddrMan) {
    && (forall id :: id in w.mapInfo <==> id in m.mapInfo && id !in LostIds(m))
    && (forall id :: id in w.mapInfo ==> w.mapInfo[id].service == m.mapInfo[id].service)
    && w.mapAddr == m.mapAddr - LostAddresses(m)
  }

  lemma LostAfterDrop(P: Params, m: AddrMan, w: AddrMan, id: Id)
    requires DropsOnly(m, w, id) && id in LostIds(m)
    ensures LostIds(w) == LostIds(m) - {id}
    ensures LostAddresses(m) == LostAddresses(w) + {m.mapInfo[id].service.ip}
  {
    forall j
      ensures j in LostIds(w) <==> j in LostIds(m) && j != id
    {
      assert j in w.mapInfo ==> SameEntry(w.mapInfo[j], m.mapInfo[j]);
    }
    forall a
      ensures a in LostAddresses(m) <==> a in LostAddresses(w) + {m.mapInfo[id].service.ip}
    {
      if a in LostAddresses(m) && a != m.mapInfo[id].service.ip {
        var j :| j in LostIds(m) && m.mapInfo[j].service.ip == a;
        assert j in LostIds(w) && w.mapInfo[j].service.ip == a;
      }
      if a in LostAddresses(w) {
        var j :| j in LostIds(w) && w.mapInfo[j].service.ip == a;
        assert j in LostIds(m) && m.mapInfo[j].service.ip == a;
      }
    }
  }

  lemma PrunesOneMore(m: AddrMan, u: AddrMan, w: AddrMan, id: Id)
    requires DropsOnly(m, u, id) && id in m.mapInfo && id in LostIds(m) && PrunesTo(u, w) && u.mapAddr == m.mapAddr - {m.mapInfo[id].service.ip}
    requires LostIds(u) == LostIds(m) - {id} && LostAddresses(m) == LostAddresses(u) + {m.mapInfo[id].service.ip}
    ensures PrunesTo(m, w)
  {
    hide LostAddresses, LostIds;
    assert m.mapAddr - {m.mapInfo[id].service.ip} - LostAddresses(u) == m.mapAddr - LostAddresses(m);
    forall j | j in w.mapInfo
      ensures j in m.mapInfo && w.mapInfo[j].service == m.mapInfo[j].service
    {
      assert SameEntry(u.mapInfo[j], m.mapInfo[j]);
    }
  }

  lemma NothingPruned(m: AddrMan)
    requires LostIds(m) == {}
    ensures PrunesTo(m, m)
  {
    assert LostAddresses(m) == {};
  }

  /** Giving up on the lost entries leaves all but the index in order, and the counters as far off as they were. */
  lemma {:induction false} PrunedShaped(P: Params, m: AddrMan)
    requires Shaped(P, m, LostIds(m))
    ensures var w := Pruned(m);
            && Shaped(P, w, {}) && PrunesTo(m, w) && w.nTried == m.nTried && TriedIds(w) == TriedIds(m) && MissingNew(w) == MissingNew(m)
    decreases |m.mapInfo.Keys|
  {
    hide Shaped, LostIds, TriedIds, MissingNew, CanDelete, Delete, DropsOnly, NewIds, PrunesTo;
    if LostIds(m) == {} {
      NothingPruned(m);
    } else {
      var lost, id := LostIds(m), Least(LostIds(m));
      LostIsThere(m, id);
      DeleteShaped(P, m, lost, id);
      var u := Delete(m, id);
      DeleteShrinks(m, id);
      LostAfterDrop(P, m, u, id);
      DropCounts(m, u, id);
      DropShape(m, u, id);
      PrunedShaped(P, u);
      PrunesOneMore(m, u, Pruned(u), id);
    }
  }

  lemma LostIsThere(m: AddrMan, id: Id)
    requires id in LostIds(m)
    ensures id in m.mapInfo && id in NewIds(m)
  {
  }

  /** Entries share an address only where all of them are given up. */
  ghost predicate NoClash(m: AddrMan) {
    forall i, j :: i in m.mapInfo && j in m.mapInfo && i != j && m.mapInfo[i].service.ip == m.mapInfo[j].service.ip ==>
      i in LostIds(m) && j in LostIds(m)
  }

  /** The index that pruning leaves is right exactly when there was no clash. */
  lemma IndexExactly(m: AddrMan, w: AddrMan)
    requires LeadsToLast(m) && PrunesTo(m, w)
    ensures IndexOk(w) <==> NoClash(m)
  {
    hide LostIds;
    if NoClash(m) {
      NoClashIsIndexed(m, w);
    }
    if IndexOk(w) {
      forall i, j | i in m.mapInfo && j in m.mapInfo && i != j && m.mapInfo[i].service.ip == m.mapInfo[j].service.ip
        ensures i in LostIds(m)
      {
        SharedIsLost(m, w, i, j);
      }
    }
  }

  lemma SharedIsLost(m: AddrMan, w: AddrMan, i: Id, j: Id)
    requires PrunesTo(m, w) && IndexOk(w)
    requires i in m.mapInfo && j in m.mapInfo && i != j && m.mapInfo[i].service.ip == m.mapInfo[j].service.ip
    ensures i in LostIds(m)
  {
    hide LostIds;
    assert j in LostIds(m) ==> m.mapInfo[j].service.ip in LostAddresses(m);
    assert i !in LostIds(m) ==> i in w.mapInfo;
    assert j !in LostIds(m) ==> j in w.mapInfo;
  }

  lemma NoClashIsIndexed(m: AddrMan, w: AddrMan)
    requires LeadsToLast(m) && PrunesTo(m, w) && NoClash(m)
    ensures IndexOk(w)
  {
    forall id | id in w.mapInfo
      ensures w.mapInfo[id].service.ip in w.mapAddr && w.mapAddr[w.mapInfo[id].service.ip] == id
    {
      var a := m.mapInfo[id].service.ip;
      assert a !in LostAddresses(m);
    }
    forall a | a in w.mapAddr
      ensures w.mapAddr[a] in w.mapInfo && w.mapInfo[w.mapAddr[a]].service.ip == a
    {
      var id := m.mapAddr[a];
      assert id in LostIds(m) ==> a in LostAddresses(m);
    }
  }

  // ----- the whole -----

  lemma UnusedIsLoaded(P: Params, m: AddrMan, st: Stream)
    requires Unused(m)
    ensures NewLoaded(P, Clear(m, st.nKey).(nNew := st.nNew, nTried := st.nTried, nIdCount := 0), 0, st.newInfos)
  {
    var w := Clear(m, st.nKey).(nNew := st.nNew, nTried := st.nTried, nIdCount := 0);
    assert w.mapAddr.Keys == {} && Heard(st.newInfos, 0) == {} && NewIds(w) == {};
  }

  lemma HeardPrefix(a: seq<AddrInfo>, b: seq<AddrInfo>)
    ensures Distinct(Addresses(a + b)) ==> Distinct(Addresses(a))
    ensures Heard(a, |a|) == Heard(a + b, |a|)
  {
    var ips, all := Addresses(a), Addresses(a + b);
    assert forall i :: 0 <= i < |a| ==> ips[i] == all[i];
    forall x
      ensures x in Heard(a, |a|) <==> x in Heard(a + b, |a|)
    {
      if x in Heard(a, |a|) {
        var i :| 0 <= i < |a| && a[i].service.ip == x;
        assert (a + b)[i].service.ip == x;
      }
      if x in Heard(a + b, |a|) {
        var i :| 0 <= i < |a| && (a + b)[i].service.ip == x;
        assert a[i].service.ip == x;
      }
    }
  }

  lemma NewThenTried(P: Params, m: AddrMan, st: Stream)
    requires NewLoaded(P, m, |st.newInfos|, st.newInfos) && m.nNew == |st.newInfos| && m.nTried == |st.triedInfos|
    ensures TriedLoaded(P, m, 0, st)
  {
    hide Shaped, LeadsToLast, Unshared, NewIds, Distinct, Addresses, Heard;
    HeardPrefix(st.newInfos, st.triedInfos);
  }

  lemma TriedThenBuckets(P: Params, m: AddrMan, st: Stream)
    requires TriedLoaded(P, m, |st.triedInfos|, st)
    ensures Filling(P, m, DistinctAddresses(st))
  {
    hide Shaped, NewIds, TriedIds, LostIds, LeadsToLast, Unshared;
    ShapedIsLost(P, m, Range(0, m.nNew));
  }

  /** What every phase up to the last loop has made of a file without a negative counter. */
  lemma LoadTablesFill(P: Params, m: AddrMan, st: Stream)
    requires WellFormed(P, st) && st.nNew >= 0 && st.nTried >= 0 && Unused(m)
    ensures Filling(P, LoadTables(P, m, st), DistinctAddresses(st))
  {
    hide NewLoaded, TriedLoaded, Filling, LoadNew, LoadTried, LoadBuckets, Saved, Clear, DistinctAddresses;
    UnusedIsLoaded(P, m, st);
    var m0 := Clear(m, st.nKey).(nNew := st.nNew, nTried := st.nTried);
    LoadNewKeeps(P, m0, 0, st.newInfos);
    var m1 := LoadNew(m0, 0, st.newInfos).(nIdCount := st.nNew);
    NewThenTried(P, m1, st);
    LoadTriedKeeps(P, m1, 0, st);
    var m2 := LoadTried(P, m1, 0, st.triedInfos);
    TriedThenBuckets(P, m2, st);
    LoadBucketsKeeps(P, m2, 0, st.buckets, DistinctAddresses(st));
  }

  lemma CheckExactly(P: Params, m: AddrMan, w: AddrMan)
    requires Shaped(P, w, {}) && LeadsToLast(m) && PrunesTo(m, w) && w.nTried == |TriedIds(w)| && MissingNew(w) == 0
    ensures Consistent(P, w) <==> NoClash(m)
  {
    hide RandomOk, IdsOk, NewTableOk, TriedTableOk, EntriesOk, LeadsToLast, PrunesTo, IndexOk, NoClash;
    IndexExactly(m, w);
  }

  /** Exactly when the manager that a file is loaded into passes the structural part of `Check_`: no
      counter is negative, and entries that share an address are all given up. Slots that clash,
      indexes that lead nowhere and entries without a slot do no harm. */
  lemma LoadIsConsistentExactly(P: Params, m: AddrMan, st: Stream)
    requires WellFormed(P, st) && Unused(m)
    ensures Consistent(P, Load(P, m, st)) <==> st.nNew >= 0 && st.nTried >= 0 && NoClash(LoadTables(P, m, st))
  {
    hide Consistent, Filling, LoadTables, Pruned, NoClash, Clear, WellFormed;
    var w := LoadTables(P, m, st);
    if st.nNew >= 0 && st.nTried >= 0 {
      LoadTablesFill(P, m, st);
      FilledParts(P, w, DistinctAddresses(st));
      PrunedShaped(P, w);
      CheckExactly(P, w, Pruned(w));
    } else {
      NegativeFails(P, m, st);
    }
  }

  lemma FilledParts(P: Params, m: AddrMan, distinct: bool)
    requires Filling(P, m, distinct)
    ensures Shaped(P, m, LostIds(m)) && LeadsToLast(m) && m.nTried == |TriedIds(m)| && MissingNew(m) == 0
    ensures distinct ==> NoClash(m)
  {
  }

  /** A file whose lists are as long as its counters say and that has no address twice loads into a consistent manager. */
  lemma LoadAnyIsConsistent(P: Params, m: AddrMan, st: Stream)
    requires WellFormed(P, st) && Unused(m) && st.nNew >= 0 && st.nTried >= 0 && DistinctAddresses(st)
    ensures Consistent(P, Load(P, m, st))
  {
    hide Consistent, Filling, LoadTables, Load, NoClash, WellFormed;
    LoadTablesFill(P, m, st);
    FilledParts(P, LoadTables(P, m, st), true);
    LoadIsConsistentExactly(P, m, st);
  }

  // ----- negative counters -----

  lemma {:induction false} LoadNewCounters(m: AddrMan, n: nat, infos: seq<AddrInfo>)
    requires n <= |infos|
    ensures LoadNew(m, n, infos).nNew == m.nNew && LoadNew(m, n, infos).nTried == m.nTried
    ensures LoadNew(m, n, infos).vvTried == m.vvTried
    decreases |infos| - n
  {
    if n < |infos| {
      LoadNewCounters(LoadNewOne(m, n, infos[n]), n + 1, infos);
    }
  }

  lemma {:induction false} LoadTriedCounters(P: Params, m: AddrMan, n: nat, infos: seq<AddrInfo>)
    requires n <= |infos|
    ensures LoadTried(P, m, n, infos).nNew == m.nNew && LoadTried(P, m, n, infos).nTried <= m.nTried
    decreases |infos| - n
  {
    if n < |infos| {
      LoadTriedCounters(P, LoadTriedOne(P, m, infos[n]), n + 1, infos);
    }
  }

  lemma {:induction false} LoadBucketCounters(P: Params, m: AddrMan, bucket: nat, n: nat, indices: seq<int>)
    requires n <= |indices|
    ensures var w := LoadBucket(P, m, bucket, n, indices); w.nNew == m.nNew && w.nTried == m.nTried
    decreases |indices| - n
  {
    if n < |indices| {
      LoadBucketCounters(P, LoadIndex(P, m, bucket, indices[n]), bucket, n + 1, indices);
    }
  }

  lemma {:induction false} LoadBucketsCounters(P: Params, m: AddrMan, bucket: nat, buckets: seq<seq<int>>)
    requires bucket <= |buckets|
    ensures var w := LoadBuckets(P, m, bucket, buckets); w.nNew == m.nNew && w.nTried == m.nTried
    decreases |buckets| - bucket
  {
    if bucket < |buckets| {
      LoadBucketCounters(P, m, bucket, 0, buckets[bucket]);
      LoadBucketsCounters(P, LoadBucket(P, m, bucket, 0, buckets[bucket]), bucket + 1, buckets);
    }
  }

  lemma {:induction false} PrunedCounters(m: AddrMan)
    ensures Pruned(m).nNew <= m.nNew && Pruned(m).nTried == m.nTried
    decreases |m.mapInfo.Keys|
  {
    if LostIds(m) != {} && CanDelete(m, Least(LostIds(m))) {
      var id := Least(LostIds(m));
      DeleteShrinks(m, id);
      PrunedCounters(Delete(m, id));
    }
  }

  /** A counter that is negative on the stream stays negative, and counts nothing. */
  lemma NegativeFails(P: Params, m: AddrMan, st: Stream)
    requires st.nNew < 0 || st.nTried < 0
    ensures !Consistent(P, Load(P, m, st))
  {
    var m0 := Clear(m, st.nKey).(nNew := st.nNew, nTried := st.nTried);
    LoadNewCounters(m0, 0, st.newInfos);
    var m1 := LoadNew(m0, 0, st.newInfos).(nIdCount := st.nNew);
    LoadTriedCounters(P, m1, 0, st.triedInfos);
    LoadBucketsCounters(P, LoadTried(P, m1, 0, st.triedInfos), 0, st.buckets);
    PrunedCounters(LoadTables(P, m, st));
    hide LoadNew, LoadTried, LoadBuckets, Pruned, Linked;
  }

  // ----- into a manager in use -----

  /** Every deletion of the last loop is within the assertions of `Delete`. */
  ghost predicate CanPrune(m: AddrMan)
    decreases |m.mapInfo.Keys|
  {
    LostIds(m) == {} ||
    (var id := Least(LostIds(m));
     CanDelete(m, id) && (DeleteShrinks(m, id); CanPrune(Delete(m, id))))
  }

  /** The random order is in step with its entries, and every lost entry is in it. Others may be in
      the map and not in the order. */
  ghost predicate RandomOn(m: AddrMan) {
    && (forall i :: 0 <= i < |m.vRandom| ==> m.vRandom[i] in m.mapInfo && m.mapInfo[m.vRandom[i]].nRandomPos == i)
    && (forall id :: id in LostIds(m) ==> 0 <= m.mapInfo[id].nRandomPos < |m.vRandom| && m.vRandom[m.mapInfo[id].nRandomPos] == id)
  }

  lemma DeleteRandomOn(m: AddrMan, id: Id)
    requires RandomOn(m) && id in LostIds(m)
    ensures CanDelete(m, id) && RandomOn(Delete(m, id))
  {
    var last, at := |m.vRandom| - 1, m.mapInfo[id].nRandomPos;
    assert m.vRandom[last] in m.mapInfo && m.vRandom[at] == id;
    var w := Delete(m, id);
    forall i | 0 <= i < |w.vRandom|
      ensures w.vRandom[i] in w.mapInfo && w.mapInfo[w.vRandom[i]].nRandomPos == i
    {
      assert m.vRandom[i] in m.mapInfo && m.mapInfo[m.vRandom[i]].nRandomPos == i;
    }
    forall j | j in LostIds(w)
      ensures 0 <= w.mapInfo[j].nRandomPos < |w.vRandom| && w.vRandom[w.mapInfo[j].nRandomPos] == j
    {
      assert j in LostIds(m);
    }
  }

  lemma {:induction false} RandomCanPrune(m: AddrMan)
    requires RandomOn(m)
    ensures CanPrune(m)
    decreases |m.mapInfo.Keys|
  {
    hide RandomOn, LostIds, CanDelete, Delete;
    if LostIds(m) != {} {
      var id := Least(LostIds(m));
      DeleteRandomOn(m, id);
      DeleteShrinks(m, id);
      RandomCanPrune(Delete(m, id));
    }
  }

  /** The random order counts up from `d`, and only what is in it may be lost. */
  ghost predicate CountsUp(m: AddrMan, d: int) {
    && (forall i :: 0 <= i < |m.vRandom| ==> m.vRandom[i] == d + i && m.vRandom[i] in m.mapInfo && m.mapInfo[m.vRandom[i]].nRandomPos == i)
    && (forall id :: id in LostIds(m) ==> d <= id < d + |m.vRandom|)
  }

  lemma CountsUpRandom(m: AddrMan, d: int)
    requires CountsUp(m, d)
    ensures RandomOn(m)
  {
    forall id | id in LostIds(m)
      ensures 0 <= m.mapInfo[id].nRandomPos < |m.vRandom| && m.vRandom[m.mapInfo[id].nRandomPos] == id
    {
      var i := id - d;
      assert m.vRandom[i] == d + i;
    }
  }

  /** One more entry at the end, under the next number. */
  lemma CountsOneMore(m: AddrMan, w: AddrMan, d: int, info: AddrInfo)
    requires CountsUp(m, d) && w.mapInfo == m.mapInfo[d + |m.vRandom| := info] && info.nRandomPos == |m.vRandom|
    requires w.vRandom == m.vRandom + [d + |m.vRandom|]
    ensures CountsUp(w, d)
  {
    forall id | id in LostIds(w)
      ensures d <= id < d + |w.vRandom|
    {
      assert id != d + |m.vRandom| ==> id in LostIds(m);
    }
  }

  lemma {:induction false} LoadNewCountsUp(m: AddrMan, n: nat, infos: seq<AddrInfo>)
    requires n <= |infos| && CountsUp(m, 0) && |m.vRandom| == n
    ensures CountsUp(LoadNew(m, n, infos), 0) && |LoadNew(m, n, infos).vRandom| == |infos|
    decreases |infos| - n
  {
    hide CountsUp;
    if n < |infos| {
      var w := LoadNewOne(m, n, infos[n]);
      CountsOneMore(m, w, 0, w.mapInfo[n]);
      LoadNewCountsUp(w, n + 1, infos);
    }
  }

  lemma LoadTriedOneCountsUp(P: Params, m: AddrMan, d: int, info: AddrInfo)
    requires CountsUp(m, d) && m.nIdCount == d + |m.vRandom|
    ensures var w := LoadTriedOne(P, m, info); CountsUp(w, d) && w.nIdCount == d + |w.vRandom|
  {
    hide TriedSlot, CountsUp;
    var w := LoadTriedOne(P, m, info);
    if TriedSlot(P, m.nKey, info.service) !in m.vvTried {
      CountsOneMore(m, w, d, w.mapInfo[m.nIdCount]);
    } else {
      SameCount(m, w, d);
    }
  }

  lemma {:induction false} LoadTriedCountsUp(P: Params, m: AddrMan, d: int, n: nat, infos: seq<AddrInfo>)
    requires n <= |infos| && CountsUp(m, d) && m.nIdCount == d + |m.vRandom|
    ensures CountsUp(LoadTried(P, m, n, infos), d)
    decreases |infos| - n
  {
    hide CountsUp, LoadTriedOne;
    if n < |infos| {
      LoadTriedOneCountsUp(P, m, d, infos[n]);
      LoadTriedCountsUp(P, LoadTriedOne(P, m, infos[n]), d, n + 1, infos);
    }
  }

  lemma LoadIndexCountsUp(P: Params, m: AddrMan, d: int, bucket: nat, index: int)
    requires CountsUp(m, d) && d <= 0 && m.nNew <= d + |m.vRandom|
    ensures var w := LoadIndex(P, m, bucket, index); CountsUp(w, d) && w.nNew == m.nNew && w.vRandom == m.vRandom
  {
    hide NewSlot;
    var w := LoadIndex(P, m, bucket, index);
    forall id | id in LostIds(w)
      ensures d <= id < d + |w.vRandom|
    {
      assert id != index ==> id in LostIds(m);
    }
  }

  lemma {:induction false} LoadBucketCountsUp(P: Params, m: AddrMan, d: int, bucket: nat, n: nat, indices: seq<int>)
    requires n <= |indices| && CountsUp(m, d) && d <= 0 && m.nNew <= d + |m.vRandom|
    ensures var w := LoadBucket(P, m, bucket, n, indices); CountsUp(w, d) && w.nNew == m.nNew && w.vRandom == m.vRandom
    decreases |indices| - n
  {
    hide CountsUp, LoadIndex;
    if n < |indices| {
      LoadIndexCountsUp(P, m, d, bucket, indices[n]);
      LoadBucketCountsUp(P, LoadIndex(P, m, bucket, indices[n]), d, bucket, n + 1, indices);
    }
  }

  lemma {:induction false} LoadBucketsCountsUp(P: Params, m: AddrMan, d: int, bucket: nat, buckets: seq<seq<int>>)
    requires bucket <= |buckets| && CountsUp(m, d) && d <= 0 && m.nNew <= d + |m.vRandom|
    ensures CountsUp(LoadBuckets(P, m, bucket, buckets), d)
    decreases |buckets| - bucket
  {
    hide CountsUp, LoadBucket;
    if bucket < |buckets| {
      LoadBucketCountsUp(P, m, d, bucket, 0, buckets[bucket]);
      LoadBucketsCountsUp(P, LoadBucket(P, m, bucket, 0, buckets[bucket]), d, bucket + 1, buckets);
    }
  }

  lemma NothingCounted(m: AddrMan, d: int)
    requires m.vRandom == [] && LostIds(m) == {}
    ensures CountsUp(m, d)
  {
  }

  lemma SameCount(m: AddrMan, w: AddrMan, d: int)
    requires CountsUp(m, d) && w.vRandom == m.vRandom && w.mapInfo == m.mapInfo
    ensures CountsUp(w, d)
  {
    hide LostIds;
    LostIgnoresCounters(m, w);
  }

  lemma {:induction false} LoadTriedGrows(P: Params, m: AddrMan, n: nat, infos: seq<AddrInfo>)
    requires n <= |infos|
    ensures |LoadTried(P, m, n, infos).vRandom| >= |m.vRandom|
    decreases |infos| - n
  {
    if n < |infos| {
      LoadTriedGrows(P, LoadTriedOne(P, m, infos[n]), n + 1, infos);
    }
  }

  /** Loading trips no assertion, whatever is on the stream and whatever the manager already holds,
      as long as none of that is lost. */
  lemma LoadCanPrune(P: Params, m: AddrMan, st: Stream)
    requires WellFormed(P, st) && LostIds(m) == {}
    ensures CanPrune(LoadTables(P, m, st))
  {
    var m0 := Clear(m, st.nKey).(nNew := st.nNew, nTried := st.nTried);
    assert LostIds(m0) == LostIds(m);
    hide LoadNew, LoadTried, LoadBuckets, CountsUp, Saved, LostIds, CanPrune;
    var d := if st.nNew < 0 then st.nNew else 0;
    NothingCounted(m0, 0);
    LoadNewCountsUp(m0, 0, st.newInfos);
    LoadNewCounters(m0, 0, st.newInfos);
    var m1 := LoadNew(m0, 0, st.newInfos).(nIdCount := st.nNew);
    if st.nNew < 0 {
      LoadNewNothing(m0, st.newInfos);
      LostIgnoresCounters(m0, m1);
      NothingCounted(m1, d);
    } else {
      SameCount(LoadNew(m0, 0, st.newInfos), m1, 0);
    }
    LoadTriedCountsUp(P, m1, d, 0, st.triedInfos);
    LoadTriedCounters(P, m1, 0, st.triedInfos);
    LoadTriedGrows(P, m1, 0, st.triedInfos);
    LoadBucketsCountsUp(P, LoadTried(P, m1, 0, st.triedInfos), d, 0, st.buckets);
    CountsUpRandom(LoadTables(P, m, st), d);
    RandomCanPrune(LoadTables(P, m, st));
  }

  lemma LoadNewNothing(m: AddrMan, infos: seq<AddrInfo>)
    requires infos == []
    ensures LoadNew(m, 0, infos) == m
  {
  }

  lemma LostIgnoresCounters(m: AddrMan, w: AddrMan)
    requires w.mapInfo == m.mapInfo
    ensures LostIds(w) == LostIds(m)
  {
  }

  /** So it does with a consistent manager. */
  lemma ConsistentCanLoad(P: Params, m: AddrMan, st: Stream)
    requires WellFormed(P, st) && Consistent(P, m)
    ensures CanPrune(LoadTables(P, m, st))
  {
    FloatingIsLost(P, m, {});
    LoadCanPrune(P, m, st);
  }

  // ----- examples -----

  /** The file that a manager with one address and one slot writes. */
  function OneEntry(now: int): Stream {
    var info := AddrInfo(Service(1, 8), 9, Stats({}, now, 0, 0, 0, 0), 0, false, -1);
    Stream(0, 1, 0, [info], [], [[0]])
  }

  /** An entry on a stream. */
  function Listed(service: Service, now: int): AddrInfo {
    AddrInfo(service, 9, Stats({}, now, 1, 0, 0, 0), 0, false, -1)
  }

  /** A file with one address under two ports, of which only the first has a slot: the second is given
      up and takes the address with it, so that the first cannot be found any more. */
  lemma SharedAddressIsInconsistent(key: Key, now: int)
    ensures var P, st := OneSlot(), Stream(0, 2, 0, [Listed(Service(1, 8), now), Listed(Service(1, 9), now)], [], [[0]]);
            WellFormed(P, st) && !Consistent(P, Load(P, Empty(key), st))
  {
    var P, st := OneSlot(), Stream(0, 2, 0, [Listed(Service(1, 8), now), Listed(Service(1, 9), now)], [], [[0]]);
    var m0 := Clear(Empty(key), st.nKey).(nNew := st.nNew, nTried := st.nTried);
    var m1 := LoadNewOne(m0, 0, st.newInfos[0]);
    var m2 := LoadNewOne(m1, 1, st.newInfos[1]);
    assert LoadNew(m2, 2, st.newInfos) == m2;
    assert LoadNew(m1, 1, st.newInfos) == m2;
    var m3 := m2.(nIdCount := 2);
    assert LoadTried(P, m3, 0, st.triedInfos) == m3;
    var m4 := LoadIndex(P, m3, 0, 0);
    assert LoadBucket(P, m4, 0, 1, st.buckets[0]) == m4;
    assert LoadBuckets(P, m4, 1, st.buckets) == m4;
    hide Load, Consistent;
    assert 0 in m4.mapInfo && 1 in m4.mapInfo && 0 !in LostIds(m4);
    LoadIsConsistentExactly(P, Empty(key), st);
  }

  /** A file with one tried entry twice: the second finds its slot taken, and does no harm. */
  lemma TriedTwiceIsConsistent(key: Key, now: int)
    ensures var P, st := OneSlot(), Stream(0, 0, 2, [], [Listed(Service(1, 8), now), Listed(Service(1, 8), now)], [[]]);
            WellFormed(P, st) && !DistinctAddresses(st) && Consistent(P, Load(P, Empty(key), st))
  {
    var P, st := OneSlot(), Stream(0, 0, 2, [], [Listed(Service(1, 8), now), Listed(Service(1, 8), now)], [[]]);
    var all := st.newInfos + st.triedInfos;
    assert Addresses(all)[0] == Addresses(all)[1];
    var m0 := Clear(Empty(key), st.nKey).(nNew := st.nNew, nTried := st.nTried);
    assert LoadNew(m0, 0, st.newInfos) == m0;
    var m1 := LoadTriedOne(P, m0, st.triedInfos[0]);
    var m2 := LoadTriedOne(P, m1, st.triedInfos[1]);
    assert LoadTried(P, m2, 2, st.triedInfos) == m2;
    assert LoadTried(P, m1, 1, st.triedInfos) == m2;
    assert LoadBucket(P, m2, 0, 0, st.buckets[0]) == m2;
    assert LoadBuckets(P, m2, 1, st.buckets) == m2;
    hide Load, Consistent;
    assert m2.mapInfo.Keys == {0};
    LoadIsConsistentExactly(P, Empty(key), st);
  }

  /** Loading a file into the manager that wrote it: the maps that `Clear` left count every reference twice. */
  lemma ReloadIsInconsistent(now: int)
    ensures var P, m, st := OneSlot(), OneAddress(now), OneEntry(now);
            WellFormed(P, st) && Load(P, m, st).mapInfo.Keys == {0} && Load(P, m, st).mapInfo[0].nRefCount == 2 && !Consistent(P, Load(P, m, st))
  {
    var P, m, st := OneSlot(), OneAddress(now), OneEntry(now);
    var w := LoadTables(P, m, st);
    ReloadTables(now);
    assert LostIds(w) == {};
    assert SlotsOf(w.vvNew, 0) == {Slot(0, 0)};
    assert !EntryOk(P, w, {}, 0);
  }

  lemma ReloadTables(now: int)
    ensures var w := LoadTables(OneSlot(), OneAddress(now), OneEntry(now));
            && w.mapInfo.Keys == {0} && w.mapInfo[0].nRefCount == 2 && !w.mapInfo[0].fInTried && w.vvNew == map[Slot(0, 0) := 0]
  {
    var P, m, st := OneSlot(), OneAddress(now), OneEntry(now);
    var m0 := Clear(m, st.nKey).(nNew := st.nNew, nTried := st.nTried);
    var m1 := LoadNewOne(m0, 0, st.newInfos[0]);
    assert LoadNew(m1, 1, st.newInfos) == m1;
    var m2 := m1.(nIdCount := 1);
    assert LoadTried(P, m2, 0, st.triedInfos) == m2;
    var m3 := LoadIndex(P, m2, 0, 0);
    assert LoadBucket(P, m3, 0, 1, st.buckets[0]) == m3;
    assert LoadBuckets(P, m3, 1, st.buckets) == m3;
  }
}
