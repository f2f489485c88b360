/**
 Saving an address manager to a stream and loading it into a newly constructed
 one (`CAddrMan::Serialize` and `Unserialize` in src/addrman.h).
 */
module AddrManStream {
  import opened Basics
  import opened AddrManModel
  import opened AddrManRun

  /** The stream, item by item: both lists of entries, then for each new bucket the entries in it,
      as indices into the first list. */
  datatype Stream = Stream(nKey: Key, nNew: int, nTried: int, newInfos: seq<AddrInfo>, triedInfos: seq<AddrInfo>, buckets: seq<seq<int>>)

  /** What is left of an entry on the stream: the fields that are memory only start afresh. */
  function Saved(info: AddrInfo): AddrInfo {
    info.(stats := info.stats.(nLastTry := 0, nLastCountAttempt := 0), nRefCount := 0, fInTried := false, nRandomPos := -1)
  }

  // ----- ids in order -----

  lemma LeastExists(ids: set<Id>) returns (x: Id)
    requires ids != {}
    ensures x in ids && forall j :: j in ids ==> x <= j
    decreases |ids|
  {
    assert exists y :: y in ids by {
      assert (forall y :: y !in ids) ==> ids == {};
    }
    x :| x in ids;
    var rest := ids - {x};
    assert ids == rest + {x};
    if rest != {} {
      var y := LeastExists(rest);
      if y < x {
        x := y;
      }
    }
  }

  ghost function Least(ids: set<Id>): (x: Id)
    requires ids != {}
    ensures x in ids && forall j :: j in ids ==> x <= j
  {
    LeastWitness(ids);
    var x :| x in ids && forall j :: j in ids ==> x <= j;
    x
  }

  lemma LeastWitness(ids: set<Id>)
    requires ids != {}
    ensures exists x :: x in ids && forall j :: j in ids ==> x <= j
  {
    var x := LeastExists(ids);
  }

  /** The ids of a set, in increasing order, as `std::map` iterates over them. */
  ghost function Ordered(ids: set<Id>): seq<Id>
    decreases |ids|
  {
    if ids == {} then [] else
    var x := Least(ids);
    assert |ids - {x}| < |ids|;
    [x] + Ordered(ids - {x})
  }

  lemma {:induction false} OrderedLists(ids: set<Id>)
    ensures |Ordered(ids)| == |ids| && Distinct(Ordered(ids))
    ensures forall id :: id in Ordered(ids) <==> id in ids
    decreases |ids|
  {
    if ids != {} {
      var x := Least(ids);
      assert |ids - {x}| < |ids|;
      OrderedLists(ids - {x});
      var rest := Ordered(ids - {x});
      assert x !in rest;
      forall i, j | 0 <= i < j < |Ordered(ids)|
        ensures Ordered(ids)[i] != Ordered(ids)[j]
      {
        assert Ordered(ids)[j] == rest[j - 1] && rest[j - 1] in rest;
      }
      assert forall id :: id in Ordered(ids) <==> id == x || id in rest;
    }
  }

  /** The position of an id in a list. */
  ghost function IndexOf(order: seq<Id>, id: Id): (k: nat)
    requires id in order
    ensures k < |order| && order[k] == id
  {
    var k :| 0 <= k < |order| && order[k] == id;
    k
  }

  lemma IndexOfAt(order: seq<Id>, k: nat)
    requires Distinct(order) && k < |order|
    ensures IndexOf(order, order[k]) == k
  {
  }

  // ----- saving -----

  /** The entries written to the first list: those with references. */
  function ReferencedIds(m: AddrMan): set<Id> {
    set id | id in m.mapInfo && m.mapInfo[id].nRefCount != 0
  }

  ghost function SavedList(m: AddrMan, ids: seq<Id>): seq<AddrInfo>
    requires forall i :: 0 <= i < |ids| ==> ids[i] in m.mapInfo
  {
    seq(|ids|, i requires 0 <= i < |ids| => Saved(m.mapInfo[ids[i]]))
  }

  /** The indices written for a bucket, from a position on. */
  ghost function SavedBucket(P: Params, m: AddrMan, order: seq<Id>, bucket: nat, pos: nat): seq<int>
    requires forall s :: s in m.vvNew ==> m.vvNew[s] in order
    decreases P.bucketSize - pos
  {
    if pos >= P.bucketSize then []
    else
      (if Slot(bucket, pos) in m.vvNew then [IndexOf(order, m.vvNew[Slot(bucket, pos)])] else [])
      + SavedBucket(P, m, order, bucket, pos + 1)
  }

  /** What saving relies on: everything in the new table has references. */
  ghost predicate CanSave(m: AddrMan) {
    forall s :: s in m.vvNew ==> m.vvNew[s] in m.mapInfo && m.mapInfo[m.vvNew[s]].nRefCount != 0
  }

  lemma SaveIsDefined(m: AddrMan)
    requires CanSave(m)
    ensures forall s :: s in m.vvNew ==> m.vvNew[s] in Ordered(ReferencedIds(m))
    ensures forall i :: 0 <= i < |Ordered(ReferencedIds(m))| ==> Ordered(ReferencedIds(m))[i] in m.mapInfo
    ensures forall i :: 0 <= i < |Ordered(TriedIds(m))| ==> Ordered(TriedIds(m))[i] in m.mapInfo
  {
    hide Ordered, Distinct;
    OrderedLists(ReferencedIds(m));
    OrderedLists(TriedIds(m));
    forall s | s in m.vvNew
      ensures m.vvNew[s] in Ordered(ReferencedIds(m))
    {
      var id := m.vvNew[s];
      assert id in ReferencedIds(m);
    }
    forall ids: set<Id>, i | ids <= m.mapInfo.Keys && 0 <= i < |Ordered(ids)| && (forall id :: id in Ordered(ids) <==> id in ids)
      ensures Ordered(ids)[i] in m.mapInfo
    {
      var id := Ordered(ids)[i];
      assert id in Ordered(ids) && id in ids && id in m.mapInfo.Keys;
    }
  }

  /** `Serialize`. */
  ghost function Save(P: Params, m: AddrMan): Stream
    requires CanSave(m)
  {
    SaveIsDefined(m);
    var order := Ordered(ReferencedIds(m));
    Stream(m.nKey, m.nNew, m.nTried, SavedList(m, order), SavedList(m, Ordered(TriedIds(m))),
           seq(P.newBuckets, bucket requires 0 <= bucket < P.newBuckets => SavedBucket(P, m, order, bucket, 0)))
  }

  // ----- loading -----

  /** Reading an entry into its place in the map: the fields that are memory only stay what they were
      there, if there was anything. */
  function ReadInto(infos: map<Id, AddrInfo>, n: Id, info: AddrInfo): AddrInfo {
    if n !in infos then info else
    var was := infos[n];
    info.(stats := info.stats.(nLastTry := was.stats.nLastTry, nLastCountAttempt := was.stats.nLastCountAttempt),
          nRefCount := was.nRefCount, fInTried := was.fInTried, nRandomPos := was.nRandomPos)
  }

  /** An entry of the first list becomes the next id. */
  function LoadNewOne(m: AddrMan, n: nat, info: AddrInfo): AddrMan {
    m.(mapInfo := m.mapInfo[n := ReadInto(m.mapInfo, n, info).(nRandomPos := |m.vRandom|)],
       mapAddr := m.mapAddr[info.service.ip := n], vRandom := m.vRandom + [n])
  }

  function LoadNew(m: AddrMan, n: nat, infos: seq<AddrInfo>): AddrMan
    requires n <= |infos|
    decreases |infos| - n
  {
    if n == |infos| then m else LoadNew(LoadNewOne(m, n, infos[n]), n + 1, infos)
  }

  /** An entry of the second list becomes the next id, unless its slot is taken: then it is lost. */
  function LoadTriedOne(P: Params, m: AddrMan, info: AddrInfo): AddrMan {
    var s := TriedSlot(P, m.nKey, info.service);
    if s in m.vvTried then m.(nTried := m.nTried - 1)
    else
      m.(mapInfo := m.mapInfo[m.nIdCount := info.(nRandomPos := |m.vRandom|, fInTried := true)],
         mapAddr := m.mapAddr[info.service.ip := m.nIdCount],
         vRandom := m.vRandom + [m.nIdCount],
         vvTried := Written(m.vvTried, s, m.nIdCount),
         nIdCount := m.nIdCount + 1)
  }

  function LoadTried(P: Params, m: AddrMan, n: nat, infos: seq<AddrInfo>): AddrMan
    requires n <= |infos|
    decreases |infos| - n
  {
    if n == |infos| then m else LoadTried(P, LoadTriedOne(P, m, infos[n]), n + 1, infos)
  }

  /** One index of a bucket: a reference, if the slot is free and the entry may have another. */
  function LoadIndex(P: Params, m: AddrMan, bucket: nat, index: int): AddrMan {
    if 0 <= index < m.nNew && index in m.mapInfo then
      var s := NewSlot(P, m.nKey, m.mapInfo[index].service, bucket);
      if s !in m.vvNew && m.mapInfo[index].nRefCount < NEW_BUCKETS_PER_ADDRESS then Attach(m, index, s) else m
    else m
  }

  function LoadBucket(P: Params, m: AddrMan, bucket: nat, n: nat, indices: seq<int>): AddrMan
    requires n <= |indices|
    decreases |indices| - n
  {
    if n == |indices| then m else LoadBucket(P, LoadIndex(P, m, bucket, indices[n]), bucket, n + 1, indices)
  }

  function LoadBuckets(P: Params, m: AddrMan, bucket: nat, buckets: seq<seq<int>>): AddrMan
    requires bucket <= |buckets|
    decreases |buckets| - bucket
  {
    if bucket == |buckets| then m
    else LoadBuckets(P, LoadBucket(P, m, bucket, 0, buckets[bucket]), bucket + 1, buckets)
  }

  /** The entries that loading gives up on: new ones without a reference. */
  function LostIds(m: AddrMan): set<Id> {
    set id | id in m.mapInfo && !m.mapInfo[id].fInTried && m.mapInfo[id].nRefCount == 0
  }

  /** What the format promises: as many entries as the counters say, without the fields that are memory only. */
  ghost predicate WellFormed(P: Params, st: Stream) {
    && |st.newInfos| == Max(0, st.nNew) && |st.triedInfos| == Max(0, st.nTried) && |st.buckets| == P.newBuckets
    && (forall i :: 0 <= i < |st.newInfos| ==> st.newInfos[i] == Saved(st.newInfos[i]))
    && (forall i :: 0 <= i < |st.triedInfos| ==> st.triedInfos[i] == Saved(st.triedInfos[i]))
  }

  /** `Unserialize` up to its last loop. */
  function LoadTables(P: Params, m: AddrMan, st: Stream): AddrMan {
    var m0 := Clear(m, st.nKey).(nNew := st.nNew, nTried := st.nTried);
    var m1 := LoadNew(m0, 0, st.newInfos).(nIdCount := st.nNew);
    LoadBuckets(P, LoadTried(P, m1, 0, st.triedInfos), 0, st.buckets)
  }

  // ----- what should come out -----

  /** The old id of each new one. */
  ghost function Order(m: AddrMan): seq<Id> {
    Ordered(NewIds(m)) + Ordered(TriedIds(m))
  }

  lemma OrderLists(m: AddrMan)
    ensures |Order(m)| == |NewIds(m)| + |TriedIds(m)| && Distinct(Order(m))
    ensures forall id :: id in Order(m) <==> id in m.mapInfo
    ensures Ordered(NewIds(m)) <= Order(m) && |Ordered(NewIds(m))| == |NewIds(m)| && |Ordered(TriedIds(m))| == |TriedIds(m)|
    ensures Distinct(Ordered(NewIds(m))) && Distinct(Ordered(TriedIds(m)))
    ensures forall id :: id in Ordered(NewIds(m)) <==> id in NewIds(m)
    ensures forall id :: id in Ordered(TriedIds(m)) <==> id in TriedIds(m)
  {
    hide Ordered;
    OrderedLists(NewIds(m));
    OrderedLists(TriedIds(m));
    var a, b := Ordered(NewIds(m)), Ordered(TriedIds(m));
    forall i, j | 0 <= i < j < |a + b|
      ensures (a + b)[i] != (a + b)[j]
    {
      if i < |a| && j >= |a| {
        assert a[i] in a && b[j - |a|] in b;
      }
    }
    assert forall id :: id in a + b <==> id in a || id in b;
  }

  /** An entry as it comes back: what was saved, with its references, its table and its new place. */
  function Restored(info: AddrInfo, k: int): AddrInfo {
    Saved(info).(nRefCount := info.nRefCount, fInTried := info.fInTried, nRandomPos := k)
  }

  /** The same manager under new ids, which are also its random order. */
  ghost function Renamed(P: Params, m: AddrMan): AddrMan
    requires Consistent(P, m)
  {
    OrderIsDefined(P, m);
    IndexedIds(P, m);
    var order := Order(m);
    AddrMan(m.nKey, |order|,
            map k | 0 <= k < |order| :: Restored(m.mapInfo[order[k]], k),
            map a | a in m.mapAddr :: IndexOf(order, m.mapAddr[a]),
            seq(|order|, i => i),
            m.nTried,
            map s | s in m.vvTried :: IndexOf(order, m.vvTried[s]),
            m.nNew,
            map s | s in m.vvNew :: IndexOf(order, m.vvNew[s]),
            1)
  }

  lemma RenamedIsDefined(P: Params, m: AddrMan)
    requires Consistent(P, m)
    ensures forall a :: a in m.mapAddr ==> m.mapAddr[a] in m.mapInfo
    ensures forall s :: s in m.vvTried ==> m.vvTried[s] in m.mapInfo
    ensures forall s :: s in m.vvNew ==> m.vvNew[s] in m.mapInfo
  {
    hide RandomOk, IdsOk, EntriesOk, NewSlot, TriedSlot;
  }

  /** A consistent manager can be saved: its referenced entries are exactly its new ones. */
  lemma CanSaveConsistent(P: Params, m: AddrMan)
    requires Consistent(P, m)
    ensures CanSave(m) && ReferencedIds(m) == NewIds(m)
  {
    hide RandomOk, IdsOk, IndexOk, NewSlot, TriedSlot;
    forall id | id in m.mapInfo
      ensures m.mapInfo[id].nRefCount != 0 <==> !m.mapInfo[id].fInTried
    {
      assert EntryOk(P, m, {}, id);
    }
  }

  // ----- the two lists of entries -----

  /** The part of the address index that concerns the first `k` ids of the order. */
  ghost function AddrIndex(P: Params, m: AddrMan, k: nat): map<NetAddr, Id>
    requires Consistent(P, m)
  {
    IndexedIds(P, m);
    map a | a in m.mapAddr && IndexOf(Order(m), m.mapAddr[a]) < k :: IndexOf(Order(m), m.mapAddr[a])
  }

  lemma AddrIndexStep(P: Params, m: AddrMan, k: nat)
    requires Consistent(P, m) && k < |Order(m)| && Order(m)[k] in m.mapInfo
    ensures AddrIndex(P, m, k + 1) == AddrIndex(P, m, k)[m.mapInfo[Order(m)[k]].service.ip := k]
  {
    hide Order, RandomOk, IdsOk, NewTableOk, TriedTableOk, EntriesOk, TriedIds, NewIds;
    OrderLists(m);
    var order := Order(m);
    IndexOfAt(order, k);
    var ip := m.mapInfo[order[k]].service.ip;
    assert m.mapAddr[ip] == order[k];
    forall a | a in m.mapAddr && IndexOf(order, m.mapAddr[a]) == k
      ensures a == ip
    {
      assert m.mapAddr[a] == order[k];
    }
  }

  /** The part of the tried table that concerns the first `k` ids of the order. */
  ghost function TriedIndex(P: Params, m: AddrMan, k: nat): map<Slot, Id>
    requires Consistent(P, m)
  {
    IndexedIds(P, m);
    map s | s in m.vvTried && IndexOf(Order(m), m.vvTried[s]) < k :: IndexOf(Order(m), m.vvTried[s])
  }

  /** The slot of the next tried entry is free, and taking it is the next part of the table. */
  lemma TriedIndexStep(P: Params, m: AddrMan, k: nat)
    requires Consistent(P, m) && k < |Order(m)| && Order(m)[k] in m.mapInfo && m.mapInfo[Order(m)[k]].fInTried
    ensures var s := TriedSlot(P, m.nKey, m.mapInfo[Order(m)[k]].service);
            s !in TriedIndex(P, m, k) && TriedIndex(P, m, k + 1) == TriedIndex(P, m, k)[s := k]
  {
    hide Order, RandomOk, IndexOk, IdsOk, NewTableOk, TriedIds, NewIds, TriedSlot, SlotsOf;
    OrderIsDefined(P, m);
    IndexedIds(P, m);
    var order := Order(m);
    IndexOfAt(order, k);
    assert EntryOk(P, m, {}, order[k]);
    var s := TriedSlot(P, m.nKey, m.mapInfo[order[k]].service);
    assert m.vvTried[s] == order[k];
    forall t | t in m.vvTried && IndexOf(order, m.vvTried[t]) == k
      ensures t == s
    {
      assert m.vvTried[t] == order[k];
    }
  }

  /** No tried entry is among the new ones. */
  lemma NoTriedYet(P: Params, m: AddrMan)
    requires Consistent(P, m)
    ensures TriedIndex(P, m, |NewIds(m)|) == map[]
  {
    hide RandomOk, IndexOk, IdsOk, NewTableOk, EntriesOk, TriedSlot, Ordered;
    OrderLists(m);
    RenamedIsDefined(P, m);
    forall s | s in m.vvTried
      ensures IndexOf(Order(m), m.vvTried[s]) >= |NewIds(m)|
    {
      OrderKinds(m, IndexOf(Order(m), m.vvTried[s]));
    }
  }

  /** The kind of the entry at a place in the order. */
  lemma OrderKinds(m: AddrMan, k: nat)
    requires k < |Order(m)|
    ensures Order(m)[k] in m.mapInfo
    ensures m.mapInfo[Order(m)[k]].fInTried <==> k >= |NewIds(m)|
    ensures |NewIds(m)| <= |Order(m)| == |NewIds(m)| + |TriedIds(m)|
    ensures k < |NewIds(m)| ==> k < |Ordered(NewIds(m))| && Order(m)[k] == Ordered(NewIds(m))[k]
    ensures k >= |NewIds(m)| ==> k - |NewIds(m)| < |Ordered(TriedIds(m))| && Order(m)[k] == Ordered(TriedIds(m))[k - |NewIds(m)|]
  {
    hide Ordered;
    OrderLists(m);
    var a, b := Ordered(NewIds(m)), Ordered(TriedIds(m));
    if k < |a| {
      assert Order(m)[k] == a[k] && a[k] in a && a[k] in NewIds(m);
    } else {
      assert Order(m)[k] == b[k - |a|] && b[k - |a|] in b && b[k - |a|] in TriedIds(m);
    }
  }

  /** The first `k` entries, in the order they are read. */
  ghost function LoadedInfo(m: AddrMan, order: seq<Id>, k: nat): map<Id, AddrInfo>
    requires k <= |order| && forall i :: 0 <= i < k ==> order[i] in m.mapInfo
  {
    map i | 0 <= i < k :: Saved(m.mapInfo[order[i]]).(nRandomPos := i, fInTried := m.mapInfo[order[i]].fInTried)
  }

  /** The manager when the first `k` entries are in, in the order they are read. */
  ghost function Loaded(P: Params, m: AddrMan, k: nat, nIdCount: int): AddrMan
    requires Consistent(P, m) && k <= |Order(m)|
  {
    var order := Order(m);
    assert forall i :: 0 <= i < k ==> order[i] in m.mapInfo by {
      forall i | 0 <= i < k
        ensures order[i] in m.mapInfo
      {
        OrderKinds(m, i);
      }
    }
    AddrMan(m.nKey, nIdCount,
            LoadedInfo(m, order, k),
            AddrIndex(P, m, k),
            seq(k, i => i),
            m.nTried, TriedIndex(P, m, k), m.nNew, map[], 1)
  }

  lemma LoadedNewStep(P: Params, m: AddrMan, k: nat, nIdCount: int)
    requires Consistent(P, m) && k < |Order(m)| && k < |NewIds(m)| && Order(m)[k] in m.mapInfo
    ensures Loaded(P, m, k + 1, nIdCount) == LoadNewOne(Loaded(P, m, k, nIdCount), k, Saved(m.mapInfo[Order(m)[k]]))
  {
    hide Order, Consistent, AddrIndex, TriedIndex, NewIds, TriedIds;
    OrderKinds(m, k);
    AddrIndexStep(P, m, k);
    TriedIndexSkips(P, m, k);
    var a, b := Loaded(P, m, k + 1, nIdCount), LoadNewOne(Loaded(P, m, k, nIdCount), k, Saved(m.mapInfo[Order(m)[k]]));
    assert a.mapInfo == b.mapInfo;
    assert a.vRandom == b.vRandom;
  }

  lemma TriedIndexSkips(P: Params, m: AddrMan, k: nat)
    requires Consistent(P, m) && k < |NewIds(m)|
    ensures TriedIndex(P, m, k + 1) == TriedIndex(P, m, k)
  {
    hide Consistent, Order;
    NoTriedYet(P, m);
  }

  lemma LoadedTriedStep(P: Params, m: AddrMan, k: nat)
    requires Consistent(P, m) && |NewIds(m)| <= k < |Order(m)| && Order(m)[k] in m.mapInfo
    ensures Loaded(P, m, k + 1, k + 1) == LoadTriedOne(P, Loaded(P, m, k, k), Saved(m.mapInfo[Order(m)[k]]))
  {
    hide Order, Consistent, AddrIndex, TriedIndex, NewIds, TriedIds, TriedSlot;
    OrderKinds(m, k);
    AddrIndexStep(P, m, k);
    TriedIndexStep(P, m, k);
    var a, b := Loaded(P, m, k + 1, k + 1), LoadTriedOne(P, Loaded(P, m, k, k), Saved(m.mapInfo[Order(m)[k]]));
    assert a.mapInfo == b.mapInfo;
    assert a.vRandom == b.vRandom;
  }

  lemma {:induction false} LoadNewFrom(P: Params, m: AddrMan, k: nat, infos: seq<AddrInfo>, nIdCount: int)
    requires Consistent(P, m) && k <= |infos| == |NewIds(m)| <= |Order(m)|
    requires forall i :: 0 <= i < |infos| ==> Order(m)[i] in m.mapInfo && infos[i] == Saved(m.mapInfo[Order(m)[i]])
    ensures LoadNew(Loaded(P, m, k, nIdCount), k, infos) == Loaded(P, m, |infos|, nIdCount)
    decreases |infos| - k
  {
    hide Loaded, LoadNewOne, Order, Consistent, Saved, NewIds;
    if k < |infos| {
      LoadedNewStep(P, m, k, nIdCount);
      LoadNewFrom(P, m, k + 1, infos, nIdCount);
    }
  }

  lemma {:induction false} LoadTriedFrom(P: Params, m: AddrMan, n: nat, infos: seq<AddrInfo>)
    requires Consistent(P, m) && n <= |infos| && |NewIds(m)| + |infos| == |Order(m)|
    requires forall i :: |NewIds(m)| <= i < |Order(m)| ==> Order(m)[i] in m.mapInfo && infos[i - |NewIds(m)|] == Saved(m.mapInfo[Order(m)[i]])
    ensures LoadTried(P, Loaded(P, m, |NewIds(m)| + n, |NewIds(m)| + n), n, infos) == Loaded(P, m, |Order(m)|, |Order(m)|)
    decreases |infos| - n
  {
    hide Loaded, LoadTriedOne, Order, Consistent, Saved, NewIds;
    if n < |infos| {
      var k := |NewIds(m)| + n;
      assert infos[n] == Saved(m.mapInfo[Order(m)[k]]);
      LoadedTriedStep(P, m, k);
      LoadTriedFrom(P, m, n + 1, infos);
    }
  }

  // ----- the positions in the new table -----

  /** The entries when the references of the slots in `done` are in. */
  ghost function PlacedInfo(m: AddrMan, order: seq<Id>, done: set<Slot>): map<Id, AddrInfo>
    requires forall i :: 0 <= i < |order| ==> order[i] in m.mapInfo
  {
    map k | 0 <= k < |order| :: Restored(m.mapInfo[order[k]], k).(nRefCount := |SlotsOf(m.vvNew, order[k]) * done|)
  }

  /** The new table when the slots in `done` are filled. */
  ghost function PlacedNew(m: AddrMan, order: seq<Id>, done: set<Slot>): map<Slot, Id>
    requires forall s :: s in m.vvNew ==> m.vvNew[s] in order
  {
    map s | s in m.vvNew && s in done :: IndexOf(order, m.vvNew[s])
  }

  lemma OrderIsDefined(P: Params, m: AddrMan)
    requires Consistent(P, m)
    ensures forall i :: 0 <= i < |Order(m)| ==> Order(m)[i] in m.mapInfo
    ensures forall s :: s in m.vvNew ==> m.vvNew[s] in Order(m)
    ensures Distinct(Order(m))
  {
    hide Consistent, Order;
    OrderLists(m);
    RenamedIsDefined(P, m);
    assert forall i :: 0 <= i < |Order(m)| ==> Order(m)[i] in Order(m);
    forall s | s in m.vvNew
      ensures m.vvNew[s] in Order(m)
    {
      var id := m.vvNew[s];
      assert id in m.mapInfo && id in Order(m);
    }
  }

  /** The manager when both lists are in, and the references of the slots in `done`. */
  ghost function Placed(P: Params, m: AddrMan, done: set<Slot>): AddrMan
    requires Consistent(P, m)
  {
    OrderIsDefined(P, m);
    var order := Order(m);
    AddrMan(m.nKey, |order|, PlacedInfo(m, order, done), AddrIndex(P, m, |order|), seq(|order|, i => i),
            m.nTried, TriedIndex(P, m, |order|), m.nNew, PlacedNew(m, order, done), 1)
  }

  lemma PlacedInfoNothing(m: AddrMan, order: seq<Id>)
    requires forall i :: 0 <= i < |order| ==> order[i] in m.mapInfo
    ensures PlacedInfo(m, order, {}) == LoadedInfo(m, order, |order|)
  {
    hide SlotsOf, Restored, Saved;
    var a, b := PlacedInfo(m, order, {}), LoadedInfo(m, order, |order|);
    forall k | 0 <= k < |order|
      ensures a[k] == b[k]
    {
      NoSlotsDone(m.vvNew, order[k]);
      RestoredUnreferenced(m.mapInfo[order[k]], k);
    }
  }

  lemma RestoredUnreferenced(info: AddrInfo, k: int)
    ensures Restored(info, k).(nRefCount := 0) == Saved(info).(nRandomPos := k, fInTried := info.fInTried)
  {
  }

  lemma NoSlotsDone(vvNew: map<Slot, Id>, id: Id)
    ensures |SlotsOf(vvNew, id) * {}| == 0
  {
    assert SlotsOf(vvNew, id) * {} == {};
  }

  lemma PlacedNothing(P: Params, m: AddrMan)
    requires Consistent(P, m)
    ensures Placed(P, m, {}) == Loaded(P, m, |Order(m)|, |Order(m)|)
  {
    hide Order, Consistent, AddrIndex, TriedIndex, PlacedInfo, LoadedInfo, Distinct;
    OrderIsDefined(P, m);
    PlacedInfoNothing(m, Order(m));
    assert PlacedNew(m, Order(m), {}) == map[];
  }

  /** What the index of an occupied slot leads to on loading: the same slot, free, with room for a reference. */
  lemma IndexLeadsBack(P: Params, m: AddrMan, s: Slot)
    requires Consistent(P, m) && s in m.vvNew
    ensures m.vvNew[s] in m.mapInfo && m.vvNew[s] in Order(m)
    ensures NewSlot(P, m.nKey, m.mapInfo[m.vvNew[s]].service, s.bucket) == s && s.bucket < P.newBuckets
    ensures s in SlotsOf(m.vvNew, m.vvNew[s]) && |SlotsOf(m.vvNew, m.vvNew[s])| <= NEW_BUCKETS_PER_ADDRESS
    ensures IndexOf(Order(m), m.vvNew[s]) < m.nNew
  {
    hide RandomOk, IndexOk, IdsOk, TriedTableOk, NewSlot, Order, TriedIds, NewIds;
    OrderLists(m);
    var id := m.vvNew[s];
    assert EntryOk(P, m, {}, id);
    OrderKinds(m, IndexOf(Order(m), id));
    assert m.nNew == |NewIds(m)|;
  }

  lemma OneMoreSlot(all: set<Slot>, done: set<Slot>, s: Slot)
    requires s in all && s !in done
    ensures |all * (done + {s})| == |all * done| + 1 && |all * done| < |all|
  {
    assert all * (done + {s}) == (all * done) + {s};
    SubsetCard(all * (done + {s}), all);
  }

  lemma OtherSlots(vvNew: map<Slot, Id>, done: set<Slot>, s: Slot, id: Id)
    requires s in vvNew && vvNew[s] != id
    ensures SlotsOf(vvNew, id) * (done + {s}) == SlotsOf(vvNew, id) * done
  {
  }

  lemma PlacedInfoAt(m: AddrMan, order: seq<Id>, done: set<Slot>, k: int)
    requires forall i :: 0 <= i < |order| ==> order[i] in m.mapInfo
    ensures k in PlacedInfo(m, order, done) <==> 0 <= k < |order|
    ensures k in PlacedInfo(m, order, done) ==>
              PlacedInfo(m, order, done)[k] == Restored(m.mapInfo[order[k]], k).(nRefCount := |SlotsOf(m.vvNew, order[k]) * done|)
  {
  }

  lemma RestoredService(info: AddrInfo, k: int)
    ensures Restored(info, k).service == info.service
  {
  }

  /** Every other entry is as it was. */
  lemma PlacedOther(m: AddrMan, order: seq<Id>, done: set<Slot>, s: Slot, k: int)
    requires Distinct(order) && forall i :: 0 <= i < |order| ==> order[i] in m.mapInfo
    requires s in m.vvNew && m.vvNew[s] in order && k != IndexOf(order, m.vvNew[s])
    ensures k in PlacedInfo(m, order, done + {s}) <==> k in PlacedInfo(m, order, done)
    ensures k in PlacedInfo(m, order, done) ==> PlacedInfo(m, order, done + {s})[k] == PlacedInfo(m, order, done)[k]
  {
    hide PlacedInfo, SlotsOf, Restored;
    PlacedInfoAt(m, order, done, k);
    PlacedInfoAt(m, order, done + {s}, k);
    if 0 <= k < |order| {
      OtherSlots(m.vvNew, done, s, order[k]);
    }
  }

  /** The entries once one more slot is done. */
  lemma PlacedInfoStep(m: AddrMan, order: seq<Id>, done: set<Slot>, s: Slot)
    requires Distinct(order) && forall i :: 0 <= i < |order| ==> order[i] in m.mapInfo
    requires s in m.vvNew && s !in done && m.vvNew[s] in order && s in SlotsOf(m.vvNew, m.vvNew[s])
    ensures var index := IndexOf(order, m.vvNew[s]);
            var a, b := PlacedInfo(m, order, done), PlacedInfo(m, order, done + {s});
            && index in a
            && b == a[index := a[index].(nRefCount := a[index].nRefCount + 1)]
            && a[index].nRefCount < |SlotsOf(m.vvNew, m.vvNew[s])|
            && a[index].service == m.mapInfo[m.vvNew[s]].service
  {
    hide *;
    var index := IndexOf(order, m.vvNew[s]);
    OneMoreSlot(SlotsOf(m.vvNew, m.vvNew[s]), done, s);
    PlacedInfoAt(m, order, done, index);
    PlacedInfoAt(m, order, done + {s}, index);
    RestoredService(m.mapInfo[order[index]], index);
    forall k | k != index
      ensures k in PlacedInfo(m, order, done + {s}) <==> k in PlacedInfo(m, order, done)
      ensures k in PlacedInfo(m, order, done) ==> PlacedInfo(m, order, done + {s})[k] == PlacedInfo(m, order, done)[k]
    {
      PlacedOther(m, order, done, s, k);
    }
  }

  lemma PlacedNewStep(m: AddrMan, order: seq<Id>, done: set<Slot>, s: Slot)
    requires forall t :: t in m.vvNew ==> m.vvNew[t] in order
    requires s in m.vvNew && s !in done
    ensures s !in PlacedNew(m, order, done)
    ensures PlacedNew(m, order, done + {s}) == PlacedNew(m, order, done)[s := IndexOf(order, m.vvNew[s])]
  {
  }

  lemma PlacedStep(P: Params, m: AddrMan, done: set<Slot>, s: Slot)
    requires Consistent(P, m) && s in m.vvNew && s !in done && m.vvNew[s] in Order(m)
    ensures LoadIndex(P, Placed(P, m, done), s.bucket, IndexOf(Order(m), m.vvNew[s])) == Placed(P, m, done + {s})
  {
    hide Order, Consistent, AddrIndex, TriedIndex, SlotsOf, NewSlot, PlacedInfo, PlacedNew, Distinct;
    OrderIsDefined(P, m);
    IndexLeadsBack(P, m, s);
    PlacedInfoStep(m, Order(m), done, s);
    PlacedNewStep(m, Order(m), done, s);
  }

  /** The slots read before a given position. */
  ghost function Done(m: AddrMan, bucket: nat, pos: nat): set<Slot> {
    set s | s in m.vvNew && (s.bucket < bucket || (s.bucket == bucket && s.pos < pos))
  }

  lemma DoneStep(m: AddrMan, bucket: nat, pos: nat)
    ensures Slot(bucket, pos) in m.vvNew ==> Slot(bucket, pos) !in Done(m, bucket, pos)
    ensures Done(m, bucket, pos + 1) == Done(m, bucket, pos) + if Slot(bucket, pos) in m.vvNew then {Slot(bucket, pos)} else {}
  {
  }

  lemma DoneBucket(P: Params, m: AddrMan, bucket: nat)
    requires ValidParams(P) && Consistent(P, m)
    ensures Done(m, bucket, P.bucketSize) == Done(m, bucket + 1, 0)
  {
    hide RandomOk, IndexOk, IdsOk, TriedTableOk, EntriesOk;
    forall s | s in m.vvNew
      ensures s.pos < P.bucketSize
    {
      assert s == NewSlot(P, m.nKey, m.mapInfo[m.vvNew[s]].service, s.bucket);
    }
  }

  lemma NewSlotsInOrder(P: Params, m: AddrMan)
    requires Consistent(P, m)
    ensures forall s :: s in m.vvNew ==> m.vvNew[s] in Ordered(NewIds(m)) && m.vvNew[s] in Order(m)
    ensures forall s :: s in m.vvNew ==> IndexOf(Ordered(NewIds(m)), m.vvNew[s]) == IndexOf(Order(m), m.vvNew[s])
  {
    hide RandomOk, IndexOk, IdsOk, TriedTableOk, EntriesOk, NewSlot, Ordered;
    OrderLists(m);
    forall s | s in m.vvNew
      ensures m.vvNew[s] in Ordered(NewIds(m)) && m.vvNew[s] in Order(m)
      ensures IndexOf(Ordered(NewIds(m)), m.vvNew[s]) == IndexOf(Order(m), m.vvNew[s])
    {
      assert m.vvNew[s] in NewIds(m);
      var k := IndexOf(Ordered(NewIds(m)), m.vvNew[s]);
      assert Order(m)[k] == m.vvNew[s];
      IndexOfAt(Order(m), k);
    }
  }

  lemma {:induction false} LoadBucketFrom(P: Params, m: AddrMan, bucket: nat, pos: nat, n: nat, indices: seq<int>)
    requires Consistent(P, m) && pos <= P.bucketSize && n <= |indices|
    requires forall s :: s in m.vvNew ==> m.vvNew[s] in Ordered(NewIds(m)) && m.vvNew[s] in Order(m)
    requires forall s :: s in m.vvNew ==> IndexOf(Ordered(NewIds(m)), m.vvNew[s]) == IndexOf(Order(m), m.vvNew[s])
    requires indices[n..] == SavedBucket(P, m, Ordered(NewIds(m)), bucket, pos)
    ensures LoadBucket(P, Placed(P, m, Done(m, bucket, pos)), bucket, n, indices) == Placed(P, m, Done(m, bucket, P.bucketSize))
    decreases P.bucketSize - pos
  {
    hide Consistent, Placed, Done, Order, Ordered, NewIds, LoadIndex;
    if pos < P.bucketSize {
      var s := Slot(bucket, pos);
      DoneStep(m, bucket, pos);
      if s in m.vvNew {
        assert indices[n] == indices[n..][0] == IndexOf(Order(m), m.vvNew[s]);
        assert indices[n + 1..] == indices[n..][1..];
        PlacedStep(P, m, Done(m, bucket, pos), s);
        LoadBucketFrom(P, m, bucket, pos + 1, n + 1, indices);
      } else {
        assert Done(m, bucket, pos) + {} == Done(m, bucket, pos);
        LoadBucketFrom(P, m, bucket, pos + 1, n, indices);
      }
    }
  }

  lemma {:induction false} LoadBucketsFrom(P: Params, m: AddrMan, bucket: nat, buckets: seq<seq<int>>)
    requires ValidParams(P) && Consistent(P, m) && bucket <= |buckets| == P.newBuckets
    requires forall s :: s in m.vvNew ==> m.vvNew[s] in Ordered(NewIds(m)) && m.vvNew[s] in Order(m)
    requires forall s :: s in m.vvNew ==> IndexOf(Ordered(NewIds(m)), m.vvNew[s]) == IndexOf(Order(m), m.vvNew[s])
    requires forall b :: 0 <= b < |buckets| ==> buckets[b] == SavedBucket(P, m, Ordered(NewIds(m)), b, 0)
    ensures LoadBuckets(P, Placed(P, m, Done(m, bucket, 0)), bucket, buckets) == Placed(P, m, Done(m, P.newBuckets, 0))
    decreases |buckets| - bucket
  {
    hide Consistent, Placed, Done, Order, Ordered, NewIds, LoadBucket, SavedBucket, ValidParams;
    if bucket < |buckets| {
      assert buckets[bucket][0..] == buckets[bucket];
      LoadBucketFrom(P, m, bucket, 0, 0, buckets[bucket]);
      DoneBucket(P, m, bucket);
      LoadBucketsFrom(P, m, bucket + 1, buckets);
    }
  }

  // ----- the round trip -----

  lemma DoneAll(P: Params, m: AddrMan)
    requires Consistent(P, m)
    ensures Done(m, 0, 0) == {}
    ensures forall s :: s in m.vvNew <==> s in Done(m, P.newBuckets, 0)
  {
    hide RandomOk, IndexOk, IdsOk, TriedTableOk, EntriesOk, NewSlot;
  }

  lemma PlacedInfoAll(P: Params, m: AddrMan, done: set<Slot>)
    requires Consistent(P, m) && forall s :: s in m.vvNew <==> s in done
    requires forall i :: 0 <= i < |Order(m)| ==> Order(m)[i] in m.mapInfo
    ensures PlacedInfo(m, Order(m), done) == map k | 0 <= k < |Order(m)| :: Restored(m.mapInfo[Order(m)[k]], k)
  {
    hide RandomOk, IndexOk, IdsOk, NewSlot, Order, Restored;
    forall k | 0 <= k < |Order(m)|
      ensures Restored(m.mapInfo[Order(m)[k]], k).(nRefCount := |SlotsOf(m.vvNew, Order(m)[k]) * done|) == Restored(m.mapInfo[Order(m)[k]], k)
    {
      var id := Order(m)[k];
      assert SlotsOf(m.vvNew, id) * done == SlotsOf(m.vvNew, id);
      ReferencesAreSlots(P, m, id);
      RestoredReferences(m.mapInfo[id], k);
    }
  }

  lemma RestoredReferences(info: AddrInfo, k: int)
    ensures Restored(info, k).nRefCount == info.nRefCount
  {
  }

  lemma ReferencesAreSlots(P: Params, m: AddrMan, id: Id)
    requires Consistent(P, m) && id in m.mapInfo
    ensures m.mapInfo[id].nRefCount == |SlotsOf(m.vvNew, id)|
  {
    hide RandomOk, IndexOk, IdsOk, NewSlot, TriedSlot;
    assert EntryOk(P, m, {}, id);
    if m.mapInfo[id].fInTried {
      assert SlotsOf(m.vvNew, id) == {};
    }
  }

  lemma IndexesAll(P: Params, m: AddrMan)
    requires Consistent(P, m)
    requires forall a :: a in m.mapAddr ==> m.mapAddr[a] in Order(m)
    requires forall s :: s in m.vvTried ==> m.vvTried[s] in Order(m)
    ensures AddrIndex(P, m, |Order(m)|) == map a | a in m.mapAddr :: IndexOf(Order(m), m.mapAddr[a])
    ensures TriedIndex(P, m, |Order(m)|) == map s | s in m.vvTried :: IndexOf(Order(m), m.vvTried[s])
  {
    hide Order, Consistent;
  }

  lemma PlacedNewAll(m: AddrMan, order: seq<Id>, done: set<Slot>)
    requires forall s :: s in m.vvNew ==> m.vvNew[s] in order
    requires forall s :: s in m.vvNew <==> s in done
    ensures PlacedNew(m, order, done) == map s | s in m.vvNew :: IndexOf(order, m.vvNew[s])
  {
  }

  lemma IndexedIds(P: Params, m: AddrMan)
    requires Consistent(P, m)
    ensures forall a :: a in m.mapAddr ==> m.mapAddr[a] in Order(m)
    ensures forall s :: s in m.vvTried ==> m.vvTried[s] in Order(m)
  {
    hide Order, Consistent;
    OrderLists(m);
    RenamedIsDefined(P, m);
    forall a | a in m.mapAddr
      ensures m.mapAddr[a] in Order(m)
    {
      var id := m.mapAddr[a];
      assert id in m.mapInfo && id in Order(m);
    }
    forall s | s in m.vvTried
      ensures m.vvTried[s] in Order(m)
    {
      var id := m.vvTried[s];
      assert id in m.mapInfo && id in Order(m);
    }
  }

  lemma PlacedAll(P: Params, m: AddrMan)
    requires Consistent(P, m)
    ensures Placed(P, m, Done(m, P.newBuckets, 0)) == Renamed(P, m)
  {
    hide Order, Consistent, Done, PlacedInfo, PlacedNew, AddrIndex, TriedIndex, Restored, IndexOf, Distinct;
    OrderIsDefined(P, m);
    DoneAll(P, m);
    PlacedInfoAll(P, m, Done(m, P.newBuckets, 0));
    PlacedNewAll(m, Order(m), Done(m, P.newBuckets, 0));
    IndexedIds(P, m);
    IndexesAll(P, m);
  }

  /** The two lists on the stream, in terms of the order in which they are read back. */
  lemma SavedLists(P: Params, m: AddrMan)
    requires Consistent(P, m)
    ensures CanSave(m)
    ensures var st := Save(P, m);
            && st.nKey == m.nKey && st.nNew == m.nNew == |NewIds(m)| && st.nTried == m.nTried
            && |st.newInfos| == |NewIds(m)| <= |Order(m)| && |NewIds(m)| + |st.triedInfos| == |Order(m)|
            && (forall i :: 0 <= i < |Order(m)| ==> Order(m)[i] in m.mapInfo)
            && (forall i :: 0 <= i < |NewIds(m)| ==> st.newInfos[i] == Saved(m.mapInfo[Order(m)[i]]))
            && (forall i :: |NewIds(m)| <= i < |Order(m)| ==> st.triedInfos[i - |NewIds(m)|] == Saved(m.mapInfo[Order(m)[i]]))
  {
    hide Linked, Ordered, Saved, TriedIds, NewIds, CanSave, SavedBucket, ReferencedIds;
    CanSaveConsistent(P, m);
    OrderLists(m);
    forall i | 0 <= i < |Order(m)|
      ensures Order(m)[i] in m.mapInfo
      ensures i < |NewIds(m)| ==> Save(P, m).newInfos[i] == Saved(m.mapInfo[Order(m)[i]])
      ensures i >= |NewIds(m)| ==> Save(P, m).triedInfos[i - |NewIds(m)|] == Saved(m.mapInfo[Order(m)[i]])
    {
      OrderKinds(m, i);
    }
  }

  lemma SavedBuckets(P: Params, m: AddrMan)
    requires Consistent(P, m)
    requires forall s :: s in m.vvNew ==> m.vvNew[s] in Ordered(NewIds(m))
    ensures CanSave(m) && |Save(P, m).buckets| == P.newBuckets
    ensures forall b :: 0 <= b < P.newBuckets ==> Save(P, m).buckets[b] == SavedBucket(P, m, Ordered(NewIds(m)), b, 0)
  {
    hide Consistent, Ordered, SavedBucket, NewIds, CanSave, ReferencedIds;
    CanSaveConsistent(P, m);
  }

  lemma LoadedNothing(P: Params, m: AddrMan)
    requires Consistent(P, m)
    ensures Loaded(P, m, 0, 0) == Empty(m.nKey).(nNew := m.nNew, nTried := m.nTried)
  {
    hide Consistent, Order;
    assert AddrIndex(P, m, 0) == map[] && TriedIndex(P, m, 0) == map[];
    assert LoadedInfo(m, Order(m), 0) == map[];
  }

  lemma LoadedRecount(P: Params, m: AddrMan, k: nat, a: int, b: int)
    requires Consistent(P, m) && k <= |Order(m)|
    ensures Loaded(P, m, k, a).(nIdCount := b) == Loaded(P, m, k, b)
  {
  }

  /** A manager that was never told of an address. */
  predicate Unused(m: AddrMan) {
    m.mapInfo == map[] && m.mapAddr == map[]
  }

  lemma ClearUnused(m: AddrMan, key: Key)
    requires Unused(m)
    ensures Clear(m, key) == Empty(key)
  {
  }

  /** Loading what was saved gives back the same manager under new ids, before anything is pruned. */
  lemma LoadTablesOfSave(P: Params, m: AddrMan, n: AddrMan)
    requires ValidParams(P) && Consistent(P, m)
    requires Unused(n)
    ensures CanSave(m) && LoadTables(P, n, Save(P, m)) == Renamed(P, m)
  {
    hide Clear, Unused, Consistent, Order, Ordered, Loaded, Placed, Done, LoadNew, LoadTried, LoadBuckets, SavedBucket, NewIds, Saved, Empty, Renamed, Save, ValidParams, CanSave;
    ClearUnused(n, m.nKey);
    SavedLists(P, m);
    NewSlotsInOrder(P, m);
    SavedBuckets(P, m);
    var st := Save(P, m);
    LoadedNothing(P, m);
    LoadNewFrom(P, m, 0, st.newInfos, 0);
    LoadedRecount(P, m, |NewIds(m)|, 0, |NewIds(m)|);
    LoadTriedFrom(P, m, 0, st.triedInfos);
    PlacedNothing(P, m);
    DoneAll(P, m);
    LoadBucketsFrom(P, m, 0, st.buckets);
    PlacedAll(P, m);
  }

  /** The last loop of `Unserialize`: delete, in order of id, new entries that got no reference. */
  ghost function Pruned(m: AddrMan): AddrMan
    decreases |m.mapInfo.Keys|
  {
    if LostIds(m) == {} then m else
    var id := Least(LostIds(m));
    if CanDelete(m, id) then
      DeleteShrinks(m, id);
      Pruned(Delete(m, id))
    else m
  }

  lemma DeleteShrinks(m: AddrMan, id: Id)
    requires CanDelete(m, id)
    ensures |Delete(m, id).mapInfo.Keys| < |m.mapInfo.Keys|
  {
    var w := SwapRandom(m, m.mapInfo[id].nRandomPos, |m.vRandom| - 1);
    assert w.mapInfo.Keys == m.mapInfo.Keys;
    assert Delete(m, id).mapInfo.Keys == m.mapInfo.Keys - {id};
  }

  /** `Unserialize`. */
  ghost function Load(P: Params, m: AddrMan, st: Stream): AddrMan {
    Pruned(LoadTables(P, m, st))
  }

  lemma NothingLost(P: Params, m: AddrMan)
    requires Consistent(P, m)
    ensures LostIds(Renamed(P, m)) == {}
  {
    hide RandomOk, IndexOk, IdsOk, NewTableOk, TriedTableOk, Order;
    OrderIsDefined(P, m);
    forall k | 0 <= k < |Order(m)|
      ensures m.mapInfo[Order(m)[k]].fInTried || m.mapInfo[Order(m)[k]].nRefCount != 0
    {
      assert EntryOk(P, m, {}, Order(m)[k]);
    }
  }

  /** The round trip. Saving a consistent manager and loading it into a new one gives the same
      manager up to the names of the ids and the random order: the same entries with the same
      references in the same slots of both tables, the same counters, and nothing lost. */
  lemma LoadOfSave(P: Params, m: AddrMan, n: AddrMan)
    requires ValidParams(P) && Consistent(P, m) && Unused(n)
    ensures CanSave(m) && Load(P, n, Save(P, m)) == Renamed(P, m)
  {
    hide Consistent, ValidParams, LoadTables, Save, Renamed, LostIds, CanSave;
    LoadTablesOfSave(P, m, n);
    NothingLost(P, m);
  }

  // ----- what comes out is consistent -----

  lemma RenamedAt(P: Params, m: AddrMan, id: Id)
    requires Consistent(P, m) && id in m.mapInfo
    ensures id in Order(m)
    ensures var k := IndexOf(Order(m), id);
            k < |Order(m)| && Order(m)[k] == id && k in Renamed(P, m).mapInfo && Renamed(P, m).mapInfo[k] == Restored(m.mapInfo[id], k)
  {
    hide Consistent, Order, Restored;
    OrderLists(m);
  }

  lemma RenamedBack(P: Params, m: AddrMan, k: nat)
    requires Consistent(P, m) && k < |Order(m)|
    ensures Order(m)[k] in m.mapInfo && IndexOf(Order(m), Order(m)[k]) == k
    ensures k in Renamed(P, m).mapInfo && Renamed(P, m).mapInfo[k] == Restored(m.mapInfo[Order(m)[k]], k)
  {
    hide Consistent, Order, Restored;
    OrderIsDefined(P, m);
    IndexOfAt(Order(m), k);
  }

  lemma RenamedIndexes(P: Params, m: AddrMan)
    requires Consistent(P, m)
    ensures var w := Renamed(P, m); RandomOk(w) && IndexOk(w) && IdsOk(w)
  {
    hide NewTableOk, TriedTableOk, EntriesOk, RandomOk, IdsOk, Order, TriedIds, NewIds;
    var w := Renamed(P, m);
    IndexedIds(P, m);
    forall k | k in w.mapInfo
      ensures w.mapInfo[k].service.ip in w.mapAddr && w.mapAddr[w.mapInfo[k].service.ip] == k
    {
      RenamedBack(P, m, k);
    }
    forall a | a in w.mapAddr
      ensures w.mapAddr[a] in w.mapInfo && w.mapInfo[w.mapAddr[a]].service.ip == a
    {
      RenamedAt(P, m, m.mapAddr[a]);
    }
    RenamedOrder(P, m);
  }

  lemma RenamedOrder(P: Params, m: AddrMan)
    requires Consistent(P, m)
    ensures RandomOk(Renamed(P, m)) && IdsOk(Renamed(P, m))
  {
    hide Consistent, Order;
  }

  lemma RenamedTables(P: Params, m: AddrMan)
    requires Consistent(P, m)
    ensures NewTableOk(P, Renamed(P, m)) && TriedTableOk(P, Renamed(P, m))
  {
    hide RandomOk, IndexOk, IdsOk, EntriesOk, Order, TriedIds, NewIds, NewSlot, TriedSlot;
    var w := Renamed(P, m);
    forall s | s in w.vvNew
      ensures w.vvNew[s] in w.mapInfo && !w.mapInfo[w.vvNew[s]].fInTried
      ensures s.bucket < P.newBuckets && s == NewSlot(P, w.nKey, w.mapInfo[w.vvNew[s]].service, s.bucket)
    {
      RenamedAt(P, m, m.vvNew[s]);
    }
    forall s | s in w.vvTried
      ensures w.vvTried[s] in w.mapInfo && w.mapInfo[w.vvTried[s]].fInTried
      ensures s == TriedSlot(P, w.nKey, w.mapInfo[w.vvTried[s]].service)
    {
      RenamedAt(P, m, m.vvTried[s]);
    }
  }

  lemma RenamedSlots(P: Params, m: AddrMan, k: nat)
    requires Consistent(P, m) && k < |Order(m)|
    ensures SlotsOf(Renamed(P, m).vvNew, k) == SlotsOf(m.vvNew, Order(m)[k])
  {
    hide Consistent, Order;
    OrderIsDefined(P, m);
    IndexOfAt(Order(m), k);
    var w := Renamed(P, m);
    assert w.vvNew.Keys == m.vvNew.Keys;
  }

  lemma RenamedEntries(P: Params, m: AddrMan)
    requires Consistent(P, m)
    ensures EntriesOk(P, Renamed(P, m), {})
  {
    hide RandomOk, IndexOk, IdsOk, NewTableOk, TriedTableOk, Order, TriedIds, NewIds, TriedSlot, SlotsOf;
    var w := Renamed(P, m);
    forall k | k in w.mapInfo
      ensures EntryOk(P, w, {}, k)
    {
      RenamedBack(P, m, k);
      RenamedSlots(P, m, k);
      assert EntryOk(P, m, {}, Order(m)[k]);
    }
  }

  /** The integers from `lo` up to but not including `hi`. */
  function Range(lo: int, hi: int): (r: set<int>)
    ensures forall k :: k in r <==> lo <= k < hi
    ensures |r| == if lo < hi then hi - lo else 0
    decreases hi - lo
  {
    if lo >= hi then {} else Range(lo, hi - 1) + {hi - 1}
  }

  lemma RenamedKinds(P: Params, m: AddrMan, w: AddrMan, t: nat, k: Id)
    requires Consistent(P, m) && w == Renamed(P, m) && t == |Order(m)|
    ensures k in NewIds(w) <==> k in Range(0, |NewIds(m)|)
    ensures k in TriedIds(w) <==> k in Range(|NewIds(m)|, t)
  {
    hide Consistent, Order, Range, Restored, Ordered;
    OrderLists(m);
    if 0 <= k < t {
      OrderKinds(m, k);
      RenamedBack(P, m, k);
      assert w.mapInfo[k].fInTried == m.mapInfo[Order(m)[k]].fInTried by {
        RestoredKind(m.mapInfo[Order(m)[k]], k);
      }
    } else {
      assert k !in w.mapInfo;
    }
  }

  lemma RestoredKind(info: AddrInfo, k: int)
    ensures Restored(info, k).fInTried == info.fInTried
  {
  }

  lemma RenamedCounts(P: Params, m: AddrMan)
    requires Consistent(P, m)
    ensures Counted(Renamed(P, m), 0)
  {
    hide Linked, Order, NewIds, TriedIds;
    var w := Renamed(P, m);
    var n, t := |NewIds(m)|, |Order(m)|;
    OrderLists(m);
    forall k
      ensures k in NewIds(w) <==> k in Range(0, n)
      ensures k in TriedIds(w) <==> k in Range(n, t)
    {
      RenamedKinds(P, m, w, t, k);
    }
    assert NewIds(w) == Range(0, n);
    assert TriedIds(w) == Range(n, t);
  }

  /** A loaded manager passes the structural part of `Check_`. */
  lemma LoadIsConsistent(P: Params, m: AddrMan, n: AddrMan)
    requires ValidParams(P) && Consistent(P, m) && Unused(n)
    ensures CanSave(m) && Consistent(P, Load(P, n, Save(P, m)))
  {
    hide Renamed, Load, Save, RandomOk, IndexOk, IdsOk, NewTableOk, TriedTableOk, EntriesOk, TriedIds, NewIds, CanSave;
    LoadOfSave(P, m, n);
    RenamedIndexes(P, m);
    RenamedTables(P, m);
    RenamedEntries(P, m);
    RenamedCounts(P, m);
  }
}
