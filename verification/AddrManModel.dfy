/**
 The address manager (`CAddrMan` in src/addrman.cpp) as a value: two tables of
 buckets, an index by address, a random order with back-pointers, reference
 counts and two counters, and the operations on them.
 */
module AddrManModel {

  type Id = int
  type Key = nat
  type NetAddr = nat

  /** An address with a port (`CService`). The index goes by the address alone. */
  datatype Service = Service(ip: NetAddr, port: nat)

  /** What no table depends on: services (as the set of flags), times and attempts. */
  datatype Stats = Stats(nServices: set<nat>, nTime: int, nLastSuccess: int, nLastTry: int, nLastCountAttempt: int, nAttempts: int)

  datatype AddrInfo = AddrInfo(service: Service, source: NetAddr, stats: Stats, nRefCount: int, fInTried: bool, nRandomPos: int)

  /** A place in a table. */
  datatype Slot = Slot(bucket: nat, pos: nat)

  /** The sizes of the tables, and the keyed hashes that choose buckets and positions. */
  datatype Params = Params(
    triedBuckets: nat,
    newBuckets: nat,
    bucketSize: nat,
    triedBucketOf: (Key, Service) -> nat,
    newBucketOf: (Key, Service, NetAddr) -> nat,
    positionOf: (Key, bool, nat, Service) -> nat,
    routable: NetAddr -> bool)

  /** The hashes are reduced modulo the table sizes. */
  ghost predicate ValidParams(P: Params) {
    && (forall k, a {:trigger P.triedBucketOf(k, a)} :: P.triedBucketOf(k, a) < P.triedBuckets)
    && (forall k, a, src {:trigger P.newBucketOf(k, a, src)} :: P.newBucketOf(k, a, src) < P.newBuckets)
    && (forall k, n, b, a {:trigger P.positionOf(k, n, b, a)} :: P.positionOf(k, n, b, a) < P.bucketSize)
  }

  /** A table holds its occupied slots only; the code marks the free ones with -1. */
  datatype AddrMan = AddrMan(
    nKey: Key,
    nIdCount: int,
    mapInfo: map<Id, AddrInfo>,
    mapAddr: map<NetAddr, Id>,
    vRandom: seq<Id>,
    nTried: int,
    vvTried: map<Slot, Id>,
    nNew: int,
    vvNew: map<Slot, Id>,
    nLastGood: int)

  const NEW_BUCKETS_PER_ADDRESS := 8
  const FREE := -1

  /** A table once a cell of it is written. */
  function Written(table: map<Slot, Id>, s: Slot, id: Id): map<Slot, Id> {
    if id == FREE then table - {s} else table[s := id]
  }

  function TriedSlot(P: Params, key: Key, a: Service): Slot {
    var bucket := P.triedBucketOf(key, a);
    Slot(bucket, P.positionOf(key, false, bucket, a))
  }

  /** Where an address may stand in a given bucket of the new table. */
  function NewSlot(P: Params, key: Key, a: Service, bucket: nat): Slot {
    Slot(bucket, P.positionOf(key, true, bucket, a))
  }

  /** Where an address goes when it is heard of from `src`. */
  function SourceSlot(P: Params, key: Key, a: Service, src: NetAddr): Slot {
    NewSlot(P, key, a, P.newBucketOf(key, a, src))
  }

  // ----- consistency, as `Check_` spells it out -----

  /** `vRandom` and `nRandomPos` are inverse to each other. */
  ghost predicate RandomOk(m: AddrMan) {
    && (forall i :: 0 <= i < |m.vRandom| ==> m.vRandom[i] in m.mapInfo && m.mapInfo[m.vRandom[i]].nRandomPos == i)
    && (forall id :: id in m.mapInfo ==> 0 <= m.mapInfo[id].nRandomPos < |m.vRandom| && m.vRandom[m.mapInfo[id].nRandomPos] == id)
  }

  /** `mapAddr` and `mapInfo` are inverse to each other. */
  ghost predicate IndexOk(m: AddrMan) {
    && (forall id :: id in m.mapInfo ==> m.mapInfo[id].service.ip in m.mapAddr && m.mapAddr[m.mapInfo[id].service.ip] == id)
    && (forall a :: a in m.mapAddr ==> m.mapAddr[a] in m.mapInfo && m.mapInfo[m.mapAddr[a]].service.ip == a)
  }

  /** Ids are handed out once. */
  ghost predicate IdsOk(m: AddrMan) {
    forall id :: id in m.mapInfo ==> 0 <= id < m.nIdCount
  }

  /** Everything in the new table is a new entry, at the one position its bucket allows it. */
  ghost predicate NewTableOk(P: Params, m: AddrMan) {
    forall s :: s in m.vvNew ==>
      && m.vvNew[s] in m.mapInfo && !m.mapInfo[m.vvNew[s]].fInTried
      && s.bucket < P.newBuckets && s == NewSlot(P, m.nKey, m.mapInfo[m.vvNew[s]].service, s.bucket)
  }

  /** Everything in the tried table is a tried entry, in its own slot. */
  ghost predicate TriedTableOk(P: Params, m: AddrMan) {
    forall s :: s in m.vvTried ==>
      && m.vvTried[s] in m.mapInfo && m.mapInfo[m.vvTried[s]].fInTried
      && s == TriedSlot(P, m.nKey, m.mapInfo[m.vvTried[s]].service)
  }

  /** The slots of the new table that hold an entry. */
  function SlotsOf(vvNew: map<Slot, Id>, id: Id): set<Slot> {
    set s | s in vvNew && vvNew[s] == id
  }

  /** A tried entry occupies its slot and has no references; a new one has as many references as
      slots, at most 8. Entries in `floating` are the new ones that stand in no slot. */
  ghost predicate EntryOk(P: Params, m: AddrMan, floating: set<Id>, id: Id)
    requires id in m.mapInfo
  {
    var info := m.mapInfo[id];
    if info.fInTried then
      var s := TriedSlot(P, m.nKey, info.service);
      info.nRefCount == 0 && s in m.vvTried && m.vvTried[s] == id && id !in floating
    else
      && info.nRefCount == |SlotsOf(m.vvNew, id)| <= NEW_BUCKETS_PER_ADDRESS
      && (info.nRefCount == 0 <==> id in floating)
  }

  ghost predicate EntriesOk(P: Params, m: AddrMan, floating: set<Id>) {
    && floating <= m.mapInfo.Keys
    && (forall id :: id in m.mapInfo ==> EntryOk(P, m, floating, id))
  }

  function TriedIds(m: AddrMan): set<Id> {
    set id | id in m.mapInfo && m.mapInfo[id].fInTried
  }

  function NewIds(m: AddrMan): set<Id> {
    set id | id in m.mapInfo && !m.mapInfo[id].fInTried
  }

  /** All of `Check_` but the counters, with some entries in between tables. */
  ghost predicate Linked(P: Params, m: AddrMan, floating: set<Id>) {
    && RandomOk(m) && IndexOk(m) && IdsOk(m)
    && NewTableOk(P, m) && TriedTableOk(P, m)
    && EntriesOk(P, m, floating)
  }

  /** The counters are off by given amounts. */
  ghost predicate Counted(m: AddrMan, missingNew: int) {
    m.nTried == |TriedIds(m)| && m.nNew + missingNew == |NewIds(m)|
  }

  /** The structural part of `Check_`. */
  ghost predicate Consistent(P: Params, m: AddrMan) {
    Linked(P, m, {}) && Counted(m, 0)
  }

  // ----- the steps the operations are made of -----

  function WithInfo(m: AddrMan, id: Id, info: AddrInfo): AddrMan {
    m.(mapInfo := m.mapInfo[id := info])
  }

  /** `Find`. */
  predicate Found(m: AddrMan, ip: NetAddr) {
    ip in m.mapAddr && m.mapAddr[ip] in m.mapInfo
  }

  /** `Create`: a new id at the end of the random order, in no table yet. */
  function Create(m: AddrMan, service: Service, source: NetAddr, stats: Stats): AddrMan {
    var id := m.nIdCount;
    m.(nIdCount := id + 1,
       mapInfo := m.mapInfo[id := AddrInfo(service, source, stats, 0, false, |m.vRandom|)],
       mapAddr := m.mapAddr[service.ip := id],
       vRandom := m.vRandom + [id])
  }

  predicate CanSwap(m: AddrMan, i: nat, j: nat) {
    i < |m.vRandom| && j < |m.vRandom| && m.vRandom[i] in m.mapInfo && m.vRandom[j] in m.mapInfo
  }

  /** `SwapRandom`. */
  function SwapRandom(m: AddrMan, i: nat, j: nat): AddrMan
    requires CanSwap(m, i, j)
  {
    if i == j then m else
    var id1, id2 := m.vRandom[i], m.vRandom[j];
    var info1 := m.mapInfo[id1 := m.mapInfo[id1].(nRandomPos := j)];
    m.(mapInfo := info1[id2 := info1[id2].(nRandomPos := i)],
       vRandom := m.vRandom[i := id2][j := id1])
  }

  predicate CanDelete(m: AddrMan, id: Id) {
    && id in m.mapInfo && !m.mapInfo[id].fInTried && m.mapInfo[id].nRefCount == 0
    && m.vRandom != [] && m.mapInfo[id].nRandomPos >= 0
    && CanSwap(m, m.mapInfo[id].nRandomPos, |m.vRandom| - 1)
  }

  /** `Delete`: swap to the end of the random order, and drop. */
  function Delete(m: AddrMan, id: Id): AddrMan
    requires CanDelete(m, id)
  {
    var w := SwapRandom(m, m.mapInfo[id].nRandomPos, |m.vRandom| - 1);
    w.(vRandom := w.vRandom[..|w.vRandom| - 1], mapAddr := w.mapAddr - {m.mapInfo[id].service.ip},
       mapInfo := w.mapInfo - {id}, nNew := w.nNew - 1)
  }

  /** Take one reference off a slot of the new table. */
  function Release(m: AddrMan, s: Slot): AddrMan
    requires s in m.vvNew && m.vvNew[s] in m.mapInfo
  {
    var id := m.vvNew[s];
    WithInfo(m, id, m.mapInfo[id].(nRefCount := m.mapInfo[id].nRefCount - 1)).(vvNew := m.vvNew - {s})
  }

  /** Put an entry in a slot of the new table. */
  function Attach(m: AddrMan, id: Id, s: Slot): AddrMan
    requires id in m.mapInfo
  {
    WithInfo(m, id, m.mapInfo[id].(nRefCount := m.mapInfo[id].nRefCount + 1)).(vvNew := m.vvNew[s := id])
  }

  /** The slots that `MakeTried` empties: the one position of each bucket where the entry may stand. */
  function OwnSlots(P: Params, m: AddrMan, id: Id): set<Slot>
    requires id in m.mapInfo
  {
    set s | s in m.vvNew && m.vvNew[s] == id && s.bucket < P.newBuckets && s == NewSlot(P, m.nKey, m.mapInfo[id].service, s.bucket)
  }

  function Detach(P: Params, m: AddrMan, id: Id): AddrMan
    requires id in m.mapInfo
  {
    WithInfo(m, id, m.mapInfo[id].(nRefCount := m.mapInfo[id].nRefCount - |OwnSlots(P, m, id)|)).(vvNew := m.vvNew - OwnSlots(P, m, id))
  }

  function LeaveTried(P: Params, m: AddrMan, id: Id): AddrMan
    requires id in m.mapInfo
  {
    WithInfo(m, id, m.mapInfo[id].(fInTried := false)).(vvTried := m.vvTried - {TriedSlot(P, m.nKey, m.mapInfo[id].service)}, nTried := m.nTried - 1)
  }

  function EnterTried(P: Params, m: AddrMan, id: Id): AddrMan
    requires id in m.mapInfo
  {
    WithInfo(m, id, m.mapInfo[id].(fInTried := true)).(vvTried := m.vvTried[TriedSlot(P, m.nKey, m.mapInfo[id].service) := id], nTried := m.nTried + 1)
  }

  // ----- what each step keeps -----

  /** Changing an entry without moving it keeps the order, the index and the ids. */
  lemma WithInfoKeepsIndexes(m: AddrMan, id: Id, info: AddrInfo)
    requires RandomOk(m) && IndexOk(m) && IdsOk(m) && id in m.mapInfo
    requires info.service == m.mapInfo[id].service && info.nRandomPos == m.mapInfo[id].nRandomPos
    ensures var w := WithInfo(m, id, info); RandomOk(w) && IndexOk(w) && IdsOk(w)
  {
  }

  lemma IndexesIgnoreTables(m: AddrMan, w: AddrMan)
    requires RandomOk(m) && IndexOk(m) && IdsOk(m)
    requires w.mapInfo == m.mapInfo && w.mapAddr == m.mapAddr && w.vRandom == m.vRandom && w.nIdCount == m.nIdCount
    ensures RandomOk(w) && IndexOk(w) && IdsOk(w)
  {
  }

  lemma SameKinds(m: AddrMan, w: AddrMan)
    requires w.mapInfo.Keys == m.mapInfo.Keys
    requires forall id :: id in w.mapInfo ==> w.mapInfo[id].fInTried == m.mapInfo[id].fInTried
    ensures TriedIds(w) == TriedIds(m) && NewIds(w) == NewIds(m)
  {
    forall id
      ensures id in TriedIds(w) <==> id in TriedIds(m)
      ensures id in NewIds(w) <==> id in NewIds(m)
    {
      assert id in w.mapInfo.Keys <==> id in m.mapInfo.Keys;
    }
  }

  lemma SlotsAfterRelease(vvNew: map<Slot, Id>, s: Slot, id: Id)
    requires s in vvNew
    ensures SlotsOf(vvNew - {s}, id) == SlotsOf(vvNew, id) - {s}
    ensures |SlotsOf(vvNew - {s}, id)| == |SlotsOf(vvNew, id)| - if vvNew[s] == id then 1 else 0
  {
  }

  lemma SlotsAfterAttach(vvNew: map<Slot, Id>, s: Slot, id: Id, j: Id)
    requires s !in vvNew
    ensures |SlotsOf(vvNew[s := id], j)| == |SlotsOf(vvNew, j)| + if j == id then 1 else 0
  {
    if j == id {
      assert SlotsOf(vvNew[s := id], j) == SlotsOf(vvNew, j) + {s};
    } else {
      assert SlotsOf(vvNew[s := id], j) == SlotsOf(vvNew, j);
    }
  }

  /** Changing only statistics keeps everything. */
  lemma RestatKeeps(P: Params, m: AddrMan, floating: set<Id>, id: Id, stats: Stats)
    requires Linked(P, m, floating) && id in m.mapInfo
    ensures var w := WithInfo(m, id, m.mapInfo[id].(stats := stats));
            Linked(P, w, floating) && TriedIds(w) == TriedIds(m) && NewIds(w) == NewIds(m)
  {
    hide RandomOk, IndexOk, IdsOk, EntriesOk, TriedIds, NewIds, TriedSlot, NewSlot;
    var w := WithInfo(m, id, m.mapInfo[id].(stats := stats));
    WithInfoKeepsIndexes(m, id, w.mapInfo[id]);
    SameKinds(m, w);
    RestatEntries(P, m, floating, id, stats);
  }

  lemma RestatEntries(P: Params, m: AddrMan, floating: set<Id>, id: Id, stats: Stats)
    requires EntriesOk(P, m, floating) && id in m.mapInfo
    ensures EntriesOk(P, WithInfo(m, id, m.mapInfo[id].(stats := stats)), floating)
  {
    hide SlotsOf, TriedSlot;
    var w := WithInfo(m, id, m.mapInfo[id].(stats := stats));
    forall j | j in w.mapInfo
      ensures EntryOk(P, w, floating, j)
    {
      assert EntryOk(P, m, floating, j);
    }
  }

  /** The entries left floating by taking a reference off a slot. */
  function AfterRelease(m: AddrMan, floating: set<Id>, s: Slot): set<Id>
    requires s in m.vvNew && m.vvNew[s] in m.mapInfo
  {
    if m.mapInfo[m.vvNew[s]].nRefCount == 1 then floating + {m.vvNew[s]} else floating
  }

  lemma ReleaseEntries(P: Params, m: AddrMan, floating: set<Id>, s: Slot)
    requires EntriesOk(P, m, floating) && s in m.vvNew && m.vvNew[s] in m.mapInfo && !m.mapInfo[m.vvNew[s]].fInTried
    ensures m.mapInfo[m.vvNew[s]].nRefCount > 0
    ensures EntriesOk(P, Release(m, s), AfterRelease(m, floating, s))
  {
    hide TriedSlot;
    var w := Release(m, s);
    assert EntryOk(P, m, floating, m.vvNew[s]);
    assert s in SlotsOf(m.vvNew, m.vvNew[s]);
    forall j | j in w.mapInfo
      ensures EntryOk(P, w, AfterRelease(m, floating, s), j)
    {
      assert EntryOk(P, m, floating, j);
      SlotsAfterRelease(m.vvNew, s, j);
    }
  }

  lemma ReleaseKeeps(P: Params, m: AddrMan, floating: set<Id>, s: Slot)
    requires Linked(P, m, floating) && s in m.vvNew
    ensures m.vvNew[s] in m.mapInfo && m.mapInfo[m.vvNew[s]].nRefCount > 0
    ensures var w := Release(m, s);
            && Linked(P, w, AfterRelease(m, floating, s))
            && TriedIds(w) == TriedIds(m) && NewIds(w) == NewIds(m)
  {
    hide RandomOk, IndexOk, IdsOk, EntriesOk, AfterRelease, TriedIds, NewIds, TriedSlot, NewSlot;
    var w := Release(m, s);
    SameKinds(m, w);
    WithInfoKeepsIndexes(m, m.vvNew[s], w.mapInfo[m.vvNew[s]]);
    IndexesIgnoreTables(WithInfo(m, m.vvNew[s], w.mapInfo[m.vvNew[s]]), w);
    ReleaseEntries(P, m, floating, s);
  }

  lemma AttachEntries(P: Params, m: AddrMan, floating: set<Id>, id: Id, s: Slot)
    requires EntriesOk(P, m, floating) && id in m.mapInfo && !m.mapInfo[id].fInTried
    requires s !in m.vvNew && m.mapInfo[id].nRefCount < NEW_BUCKETS_PER_ADDRESS
    ensures EntriesOk(P, Attach(m, id, s), floating - {id})
  {
    hide SlotsOf, TriedSlot;
    var w := Attach(m, id, s);
    forall j | j in w.mapInfo
      ensures EntryOk(P, w, floating - {id}, j)
    {
      assert EntryOk(P, m, floating, j);
      SlotsAfterAttach(m.vvNew, s, id, j);
    }
  }

  lemma AttachKeeps(P: Params, m: AddrMan, floating: set<Id>, id: Id, s: Slot)
    requires Linked(P, m, floating) && id in m.mapInfo && !m.mapInfo[id].fInTried
    requires s !in m.vvNew && s.bucket < P.newBuckets && s == NewSlot(P, m.nKey, m.mapInfo[id].service, s.bucket)
    requires m.mapInfo[id].nRefCount < NEW_BUCKETS_PER_ADDRESS
    ensures var w := Attach(m, id, s);
            Linked(P, w, floating - {id}) && TriedIds(w) == TriedIds(m) && NewIds(w) == NewIds(m)
  {
    hide RandomOk, IndexOk, IdsOk, EntriesOk, TriedIds, NewIds, TriedSlot, NewSlot;
    var w := Attach(m, id, s);
    SameKinds(m, w);
    WithInfoKeepsIndexes(m, id, w.mapInfo[id]);
    IndexesIgnoreTables(WithInfo(m, id, w.mapInfo[id]), w);
    AttachEntries(P, m, floating, id, s);
  }

  /** An entry stands nowhere but in its own slots, so taking it off those takes it off the table. */
  lemma OwnSlotsAreAll(P: Params, m: AddrMan, id: Id)
    requires NewTableOk(P, m) && id in m.mapInfo
    ensures OwnSlots(P, m, id) == SlotsOf(m.vvNew, id)
  {
    hide NewSlot;
  }

  lemma SlotsAfterDetach(vvNew: map<Slot, Id>, id: Id, j: Id)
    ensures SlotsOf(vvNew - SlotsOf(vvNew, id), j) == if j == id then {} else SlotsOf(vvNew, j)
  {
  }

  lemma DetachEntries(P: Params, m: AddrMan, id: Id)
    requires EntriesOk(P, m, {}) && NewTableOk(P, m) && id in m.mapInfo && !m.mapInfo[id].fInTried
    ensures EntriesOk(P, Detach(P, m, id), {id}) && Detach(P, m, id).mapInfo[id].nRefCount == 0
  {
    hide TriedSlot, SlotsOf, OwnSlots, NewTableOk;
    OwnSlotsAreAll(P, m, id);
    var w := Detach(P, m, id);
    forall j | j in w.mapInfo
      ensures EntryOk(P, w, {id}, j)
    {
      assert EntryOk(P, m, {}, j);
      SlotsAfterDetach(m.vvNew, id, j);
    }
  }

  /** Taking an entry off the whole new table. */
  lemma DetachKeeps(P: Params, m: AddrMan, id: Id)
    requires Linked(P, m, {}) && id in m.mapInfo && !m.mapInfo[id].fInTried
    ensures var w := Detach(P, m, id);
            && Linked(P, w, {id}) && TriedIds(w) == TriedIds(m) && NewIds(w) == NewIds(m)
            && w.mapInfo[id].nRefCount == 0
  {
    hide RandomOk, IndexOk, IdsOk, EntriesOk, TriedIds, NewIds, TriedSlot, NewSlot, OwnSlots, NewTableOk, TriedTableOk;
    var w := Detach(P, m, id);
    SameKinds(m, w);
    WithInfoKeepsIndexes(m, id, w.mapInfo[id]);
    IndexesIgnoreTables(WithInfo(m, id, w.mapInfo[id]), w);
    DetachTables(P, m, id);
    DetachEntries(P, m, id);
  }

  lemma DetachTables(P: Params, m: AddrMan, id: Id)
    requires NewTableOk(P, m) && TriedTableOk(P, m) && id in m.mapInfo
    ensures NewTableOk(P, Detach(P, m, id)) && TriedTableOk(P, Detach(P, m, id))
  {
    hide TriedSlot, NewSlot, OwnSlots;
  }

  lemma LeaveTriedEntries(P: Params, m: AddrMan, floating: set<Id>, id: Id)
    requires EntriesOk(P, m, floating) && NewTableOk(P, m) && id in m.mapInfo && m.mapInfo[id].fInTried
    ensures EntriesOk(P, LeaveTried(P, m, id), floating + {id})
  {
    var w := LeaveTried(P, m, id);
    forall j | j in w.mapInfo
      ensures EntryOk(P, w, floating + {id}, j)
    {
      assert EntryOk(P, m, floating, j) && EntryOk(P, m, floating, id);
      assert j == id ==> SlotsOf(m.vvNew, j) == {};
    }
  }

  lemma LeaveTriedTables(P: Params, m: AddrMan, floating: set<Id>, id: Id)
    requires NewTableOk(P, m) && TriedTableOk(P, m) && EntriesOk(P, m, floating) && id in m.mapInfo && m.mapInfo[id].fInTried
    ensures NewTableOk(P, LeaveTried(P, m, id)) && TriedTableOk(P, LeaveTried(P, m, id))
  {
    hide SlotsOf, NewSlot, TriedSlot;
    var w := LeaveTried(P, m, id);
    assert EntryOk(P, m, floating, id);
    forall s | s in w.vvTried
      ensures w.vvTried[s] in w.mapInfo && w.mapInfo[w.vvTried[s]].fInTried
      ensures s == TriedSlot(P, w.nKey, w.mapInfo[w.vvTried[s]].service)
    {
      assert s in m.vvTried;
    }
  }

  lemma LeaveTriedKeeps(P: Params, m: AddrMan, floating: set<Id>, id: Id)
    requires Linked(P, m, floating) && id in m.mapInfo && m.mapInfo[id].fInTried
    ensures var w := LeaveTried(P, m, id);
            && Linked(P, w, floating + {id}) && TriedIds(w) == TriedIds(m) - {id} && NewIds(w) == NewIds(m) + {id}
  {
    hide RandomOk, IndexOk, IdsOk, EntriesOk, TriedSlot, NewTableOk, TriedTableOk;
    var w := LeaveTried(P, m, id);
    WithInfoKeepsIndexes(m, id, w.mapInfo[id]);
    IndexesIgnoreTables(WithInfo(m, id, w.mapInfo[id]), w);
    LeaveTriedEntries(P, m, floating, id);
    LeaveTriedTables(P, m, floating, id);
  }

  lemma EnterTriedEntries(P: Params, m: AddrMan, floating: set<Id>, id: Id)
    requires EntriesOk(P, m, floating) && id in floating && !m.mapInfo[id].fInTried
    requires TriedSlot(P, m.nKey, m.mapInfo[id].service) !in m.vvTried
    ensures EntriesOk(P, EnterTried(P, m, id), floating - {id})
  {
    hide SlotsOf;
    var w := EnterTried(P, m, id);
    forall j | j in w.mapInfo
      ensures EntryOk(P, w, floating - {id}, j)
    {
      assert EntryOk(P, m, floating, j);
    }
  }

  lemma EnterTriedTables(P: Params, m: AddrMan, floating: set<Id>, id: Id)
    requires NewTableOk(P, m) && TriedTableOk(P, m) && EntriesOk(P, m, floating)
    requires id in floating && !m.mapInfo[id].fInTried
    ensures NewTableOk(P, EnterTried(P, m, id)) && TriedTableOk(P, EnterTried(P, m, id))
  {
    hide NewSlot, TriedSlot;
    var w := EnterTried(P, m, id);
    assert EntryOk(P, m, floating, id);
    forall s | s in w.vvNew
      ensures w.vvNew[s] != id
    {
      assert w.vvNew[s] == id ==> s in SlotsOf(m.vvNew, id);
    }
  }

  lemma EnterTriedKeeps(P: Params, m: AddrMan, floating: set<Id>, id: Id)
    requires Linked(P, m, floating) && id in floating && !m.mapInfo[id].fInTried
    requires TriedSlot(P, m.nKey, m.mapInfo[id].service) !in m.vvTried
    ensures var w := EnterTried(P, m, id);
            && Linked(P, w, floating - {id}) && TriedIds(w) == TriedIds(m) + {id} && NewIds(w) == NewIds(m) - {id}
  {
    hide RandomOk, IndexOk, IdsOk, TriedSlot, NewTableOk, TriedTableOk, EntryOk;
    var w := EnterTried(P, m, id);
    WithInfoKeepsIndexes(m, id, w.mapInfo[id]);
    IndexesIgnoreTables(WithInfo(m, id, w.mapInfo[id]), w);
    EnterTriedEntries(P, m, floating, id);
    EnterTriedTables(P, m, floating, id);
  }

  /** The same entry, but for its place in the random order. */
  predicate SameEntry(a: AddrInfo, b: AddrInfo) {
    a.service == b.service && a.source == b.source && a.stats == b.stats && a.nRefCount == b.nRefCount && a.fInTried == b.fInTried
  }

  /** Same entries in the same tables, the random order aside. */
  ghost predicate SameButOrder(m: AddrMan, w: AddrMan) {
    && w.nKey == m.nKey && w.nIdCount == m.nIdCount && w.mapAddr == m.mapAddr && w.nLastGood == m.nLastGood
    && w.vvTried == m.vvTried && w.vvNew == m.vvNew && w.nTried == m.nTried && w.nNew == m.nNew
    && w.mapInfo.Keys == m.mapInfo.Keys
    && (forall id :: id in w.mapInfo ==> SameEntry(w.mapInfo[id], m.mapInfo[id]))
  }

  lemma OrderKeepsEntries(P: Params, m: AddrMan, w: AddrMan, floating: set<Id>)
    requires SameButOrder(m, w) && EntriesOk(P, m, floating)
    ensures EntriesOk(P, w, floating)
  {
    hide SlotsOf, TriedSlot;
    forall j | j in w.mapInfo
      ensures EntryOk(P, w, floating, j)
    {
      assert j in m.mapInfo.Keys;
      assert EntryOk(P, m, floating, j) && SameEntry(w.mapInfo[j], m.mapInfo[j]);
    }
  }

  lemma OrderKeepsTables(P: Params, m: AddrMan, w: AddrMan)
    requires SameButOrder(m, w) && NewTableOk(P, m) && TriedTableOk(P, m) && IdsOk(m)
    ensures NewTableOk(P, w) && TriedTableOk(P, w) && IdsOk(w)
  {
    hide NewSlot, TriedSlot;
    forall id
      ensures id in w.mapInfo <==> id in m.mapInfo
      ensures id in w.mapInfo ==> SameEntry(w.mapInfo[id], m.mapInfo[id])
    {
      assert id in w.mapInfo.Keys <==> id in m.mapInfo.Keys;
    }
  }

  lemma OrderKeepsIndex(m: AddrMan, w: AddrMan)
    requires SameButOrder(m, w) && IndexOk(m)
    ensures IndexOk(w)
  {
    forall id
      ensures id in w.mapInfo <==> id in m.mapInfo
      ensures id in w.mapInfo ==> SameEntry(w.mapInfo[id], m.mapInfo[id])
    {
      assert id in w.mapInfo.Keys <==> id in m.mapInfo.Keys;
    }
  }

  /** A swap keeps the order and its back-pointers in step. */
  lemma SwapKeepsOrder(m: AddrMan, i: nat, j: nat)
    requires RandomOk(m) && i < |m.vRandom| && j < |m.vRandom|
    ensures CanSwap(m, i, j) && RandomOk(SwapRandom(m, i, j))
  {
  }

  lemma SwapIsOnlyOrder(m: AddrMan, i: nat, j: nat)
    requires CanSwap(m, i, j)
    ensures SameButOrder(m, SwapRandom(m, i, j))
  {
  }

  lemma SwapKeeps(P: Params, m: AddrMan, floating: set<Id>, i: nat, j: nat)
    requires Linked(P, m, floating) && i < |m.vRandom| && j < |m.vRandom|
    ensures CanSwap(m, i, j)
    ensures var w := SwapRandom(m, i, j);
            && Linked(P, w, floating) && TriedIds(w) == TriedIds(m) && NewIds(w) == NewIds(m)
            && SameButOrder(m, w)
  {
    hide RandomOk, IndexOk, IdsOk, EntriesOk, TriedIds, NewIds, NewTableOk, TriedTableOk, SwapRandom, CanSwap;
    SwapKeepsOrder(m, i, j);
    SwapIsOnlyOrder(m, i, j);
    var w := SwapRandom(m, i, j);
    OrderKeepsTables(P, m, w);
    OrderKeepsIndex(m, w);
    OrderKeepsEntries(P, m, w, floating);
    SameKinds(m, w);
  }

  /** The last entry of the random order, dropped from everywhere. */
  function DropLast(m: AddrMan, id: Id): AddrMan
    requires m.vRandom != [] && id in m.mapInfo
  {
    m.(vRandom := m.vRandom[..|m.vRandom| - 1], mapAddr := m.mapAddr - {m.mapInfo[id].service.ip}, mapInfo := m.mapInfo - {id}, nNew := m.nNew - 1)
  }

  lemma DropLastIndexes(m: AddrMan, id: Id)
    requires RandomOk(m) && IndexOk(m) && IdsOk(m) && m.vRandom != [] && m.vRandom[|m.vRandom| - 1] == id
    ensures id in m.mapInfo
    ensures var w := DropLast(m, id); RandomOk(w) && IndexOk(w) && IdsOk(w)
  {
    var w := DropLast(m, id);
    forall j | j in w.mapInfo
      ensures 0 <= w.mapInfo[j].nRandomPos < |w.vRandom| && w.vRandom[w.mapInfo[j].nRandomPos] == j
    {
    }
  }

  lemma DropLastTables(P: Params, m: AddrMan, floating: set<Id>, id: Id)
    requires NewTableOk(P, m) && TriedTableOk(P, m) && EntriesOk(P, m, floating)
    requires m.vRandom != [] && id in floating && !m.mapInfo[id].fInTried
    ensures var w := DropLast(m, id); NewTableOk(P, w) && TriedTableOk(P, w) && EntriesOk(P, w, floating - {id})
  {
    hide NewSlot, TriedSlot;
    var w := DropLast(m, id);
    assert EntryOk(P, m, floating, id);
    forall s | s in m.vvNew
      ensures m.vvNew[s] != id
    {
      assert m.vvNew[s] == id ==> s in SlotsOf(m.vvNew, id);
    }
    forall j | j in w.mapInfo
      ensures EntryOk(P, w, floating - {id}, j)
    {
      assert EntryOk(P, m, floating, j);
    }
  }

  lemma DropLastKinds(m: AddrMan, id: Id)
    requires m.vRandom != [] && id in m.mapInfo && !m.mapInfo[id].fInTried
    ensures TriedIds(DropLast(m, id)) == TriedIds(m) && NewIds(DropLast(m, id)) == NewIds(m) - {id}
  {
  }

  /** Deleting a floating entry: no assertion of `Delete` fires, and nothing else moves. */
  lemma DeleteKeeps(P: Params, m: AddrMan, floating: set<Id>, id: Id)
    requires Linked(P, m, floating) && id in floating && !m.mapInfo[id].fInTried
    ensures CanDelete(m, id)
    ensures var w := Delete(m, id);
            && Linked(P, w, floating - {id}) && TriedIds(w) == TriedIds(m) && NewIds(w) == NewIds(m) - {id}
            && DropsOnly(m, w, id)
  {
    hide *;
    CanDeleteFloating(P, m, floating, id);
    var w := SwappedToEnd(P, m, floating, id);
    LinkedParts(P, w, floating);
    DropLastIndexes(w, id);
    DropLastTables(P, w, floating, id);
    DropLastKinds(w, id);
    LinkedWhole(P, DropLast(w, id), floating - {id});
    DropLastDropsOnly(m, w, id);
  }

  lemma LinkedParts(P: Params, m: AddrMan, floating: set<Id>)
    requires Linked(P, m, floating)
    ensures RandomOk(m) && IndexOk(m) && IdsOk(m) && NewTableOk(P, m) && TriedTableOk(P, m) && EntriesOk(P, m, floating)
  {
  }

  lemma LinkedWhole(P: Params, m: AddrMan, floating: set<Id>)
    requires RandomOk(m) && IndexOk(m) && IdsOk(m) && NewTableOk(P, m) && TriedTableOk(P, m) && EntriesOk(P, m, floating)
    ensures Linked(P, m, floating)
  {
  }

  lemma CanDeleteFloating(P: Params, m: AddrMan, floating: set<Id>, id: Id)
    requires Linked(P, m, floating) && id in floating
    ensures CanDelete(m, id) && SlotsOf(m.vvNew, id) == {}
  {
    hide IndexOk, IdsOk, NewTableOk, TriedTableOk;
    assert EntryOk(P, m, floating, id);
  }

  lemma SwappedToEnd(P: Params, m: AddrMan, floating: set<Id>, id: Id) returns (w: AddrMan)
    requires Linked(P, m, floating) && id in floating && CanDelete(m, id)
    ensures Linked(P, w, floating) && TriedIds(w) == TriedIds(m) && NewIds(w) == NewIds(m) && SameButOrder(m, w)
    ensures w.vRandom != [] && w.vRandom[|w.vRandom| - 1] == id && id in w.mapInfo && !w.mapInfo[id].fInTried
    ensures Delete(m, id) == DropLast(w, id)
  {
    hide IndexOk, IdsOk, NewTableOk, TriedTableOk, EntriesOk, TriedIds, NewIds;
    SwapKeeps(P, m, floating, m.mapInfo[id].nRandomPos, |m.vRandom| - 1);
    w := SwapRandom(m, m.mapInfo[id].nRandomPos, |m.vRandom| - 1);
  }

  /** Same entries in the same tables but for one, the random order aside. */
  ghost predicate DropsOnly(m: AddrMan, w: AddrMan, id: Id) {
    && w.nKey == m.nKey && w.nIdCount == m.nIdCount && w.nLastGood == m.nLastGood
    && w.vvTried == m.vvTried && w.vvNew == m.vvNew && w.nTried == m.nTried && w.nNew == m.nNew - 1
    && (forall j :: j in w.mapInfo <==> j in m.mapInfo && j != id)
    && (forall j :: j in w.mapInfo ==> SameEntry(w.mapInfo[j], m.mapInfo[j]))
  }

  lemma DropLastDropsOnly(m: AddrMan, w: AddrMan, id: Id)
    requires SameButOrder(m, w) && w.vRandom != [] && id in w.mapInfo
    ensures DropsOnly(m, DropLast(w, id), id)
  {
  }

  lemma CreateIndexes(m: AddrMan, service: Service, source: NetAddr, stats: Stats)
    requires RandomOk(m) && IndexOk(m) && IdsOk(m) && m.nIdCount >= 0 && service.ip !in m.mapAddr
    ensures var w := Create(m, service, source, stats); RandomOk(w) && IndexOk(w) && IdsOk(w)
  {
  }

  lemma CreateTables(P: Params, m: AddrMan, floating: set<Id>, service: Service, source: NetAddr, stats: Stats)
    requires NewTableOk(P, m) && TriedTableOk(P, m) && EntriesOk(P, m, floating) && IdsOk(m)
    ensures var w := Create(m, service, source, stats);
            NewTableOk(P, w) && TriedTableOk(P, w) && EntriesOk(P, w, floating + {m.nIdCount})
  {
    hide NewSlot, TriedSlot;
    var w := Create(m, service, source, stats);
    assert m.nIdCount !in m.mapInfo;
    forall j | j in w.mapInfo
      ensures EntryOk(P, w, floating + {m.nIdCount}, j)
    {
      if j == m.nIdCount {
        assert SlotsOf(w.vvNew, j) == {};
      } else {
        assert EntryOk(P, m, floating, j);
      }
    }
  }

  lemma CreateKeeps(P: Params, m: AddrMan, floating: set<Id>, service: Service, source: NetAddr, stats: Stats)
    requires Linked(P, m, floating) && m.nIdCount >= 0 && service.ip !in m.mapAddr
    ensures m.nIdCount !in m.mapInfo
    ensures var w := Create(m, service, source, stats);
            && Linked(P, w, floating + {m.nIdCount}) && TriedIds(w) == TriedIds(m) && NewIds(w) == NewIds(m) + {m.nIdCount}
  {
    hide RandomOk, IndexOk, EntriesOk, NewTableOk, TriedTableOk;
    CreateIndexes(m, service, source, stats);
    CreateTables(P, m, floating, service, source, stats);
  }
}
