/**
 `CAddrMan::Serialize` and `Unserialize` (src/addrman.h) as loops over the manager's maps
 and tables, proved against what module AddrManStream says is written and read.
 */
module AddrManFile {
  import opened Basics
  import opened AddrManModel
  import opened AddrManRun
  import opened AddrManStream
  import opened AddrManLoad
  import opened AddrManager

  // ----- writing -----

  /** The keys of a map in increasing order, as an iterator over `std::map` gives them. */
  method Iterate(infos: map<Id, AddrInfo>) returns (order: seq<Id>)
    ensures order == Ordered(infos.Keys)
  {
    var todo := infos.Keys;
    order := [];
    assert [] + Ordered(todo) == Ordered(todo);
    while todo != {}
      invariant order + Ordered(todo) == Ordered(infos.Keys)
      decreases |todo|
    {
      LeastWitness(todo);
      var id :| id in todo && forall j :: j in todo ==> id <= j;
      LeastIs(todo, id);
      ghost var rest := Ordered(todo - {id});
      assert |todo - {id}| < |todo|;
      assert order + ([id] + rest) == order + [id] + rest;
      order := order + [id];
      todo := todo - {id};
    }
    assert order + [] == order;
  }

  lemma LeastIs(ids: set<Id>, x: Id)
    requires x in ids && forall j :: j in ids ==> x <= j
    ensures Least(ids) == x && Ordered(ids) == [x] + Ordered(ids - {x})
  {
    assert |ids - {x}| < |ids|;
  }

  /** The members of a list that are in a set, in the order of the list. */
  ghost function Kept(order: seq<Id>, keep: set<Id>): seq<Id> {
    if order == [] then [] else
    Kept(order[..|order| - 1], keep) + if order[|order| - 1] in keep then [order[|order| - 1]] else []
  }

  lemma {:induction false} KeptHead(x: Id, rest: seq<Id>, keep: set<Id>)
    ensures Kept([x] + rest, keep) == (if x in keep then [x] else []) + Kept(rest, keep)
  {
    var all := [x] + rest;
    if rest == [] {
      assert all[..0] == [];
    } else {
      var n := |rest| - 1;
      assert all[..|all| - 1] == [x] + rest[..n];
      KeptHead(x, rest[..n], keep);
    }
  }

  /** Picking out of the ordered ids gives the picked ones in order. */
  lemma {:induction false} KeptIsOrdered(ids: set<Id>, keep: set<Id>)
    requires keep <= ids
    ensures Kept(Ordered(ids), keep) == Ordered(keep)
    decreases |ids|
  {
    if ids == {} {
      assert keep == {};
    } else {
      var x := Least(ids);
      assert |ids - {x}| < |ids|;
      KeptHead(x, Ordered(ids - {x}), keep);
      KeptIsOrdered(ids - {x}, keep - {x});
      KeptIgnores(Ordered(ids - {x}), keep, x, ids - {x});
      if x in keep {
        LeastIs(keep, x);
      } else {
        assert keep - {x} == keep;
      }
    }
  }

  lemma KeptIgnores(order: seq<Id>, keep: set<Id>, x: Id, ids: set<Id>)
    requires order == Ordered(ids) && x !in ids
    ensures Kept(order, keep) == Kept(order, keep - {x})
  {
    OrderedLists(ids);
    hide Ordered;
    KeptSame(order, keep, x);
  }

  lemma {:induction false} KeptSame(order: seq<Id>, keep: set<Id>, x: Id)
    requires x !in order
    ensures Kept(order, keep) == Kept(order, keep - {x})
  {
    if order != [] {
      var n := |order| - 1;
      assert order[n] in order && forall y :: y in order[..n] ==> y in order;
      KeptSame(order[..n], keep, x);
    }
  }

  lemma {:induction false} KeptGrows(order: seq<Id>, i: nat, keep: set<Id>)
    requires i <= |order|
    ensures Kept(order[..i], keep) <= Kept(order, keep)
    decreases |order|
  {
    if i < |order| {
      assert order[..|order| - 1][..i] == order[..i];
      KeptGrows(order[..|order| - 1], i, keep);
    } else {
      assert order[..i] == order;
    }
  }

  lemma KeptStep(order: seq<Id>, i: nat, keep: set<Id>)
    requires i < |order|
    ensures Kept(order[..i + 1], keep) == if order[i] in keep then Kept(order[..i], keep) + [order[i]] else Kept(order[..i], keep)
    ensures Kept(order[..i + 1], keep) <= Kept(order, keep)
  {
    assert order[..i + 1][..i] == order[..i];
    KeptGrows(order, i + 1, keep);
  }

  /** The entries that are written so far. */
  ghost predicate Wrote(infos: map<Id, AddrInfo>, list: seq<AddrInfo>, ids: seq<Id>) {
    |list| == |ids| && forall k :: 0 <= k < |ids| ==> ids[k] in infos && list[k] == Saved(infos[ids[k]])
  }

  /** The new entries, and the number that each id gets; the counter never passes `nNew`. */
  method WriteNew(infos: map<Id, AddrInfo>, order: seq<Id>, nNew: int, ghost keep: set<Id>) returns (list: seq<AddrInfo>, unkIds: map<Id, int>)
    requires order == Ordered(infos.Keys) && nNew == |keep|
    requires keep <= infos.Keys && forall id :: id in infos ==> (id in keep <==> infos[id].nRefCount != 0)
    ensures Wrote(infos, list, Ordered(keep))
    ensures forall id :: id in keep ==> id in unkIds && id in Ordered(keep) && unkIds[id] == IndexOf(Ordered(keep), id)
  {
    hide *;
    list, unkIds := [], map[];
    var count, i := 0, 0;
    KeptIsOrdered(infos.Keys, keep);
    WroteNothing(infos, order, keep);
    NoNumbers(order, keep);
    while i < |order|
      invariant 0 <= i <= |order| && count == |Kept(order[..i], keep)| && Wrote(infos, list, Kept(order[..i], keep))
      invariant NumbersFirst(unkIds, order, keep, i)
    {
      var id := order[i];
      KeptStep(order, i, keep);
      InOrder(order, i, infos);
      NumberNext(unkIds, order, infos.Keys, keep, i);
      unkIds := unkIds[id := count];
      var info := infos[id];
      assert id in keep <==> info.nRefCount != 0;
      if info.nRefCount != 0 {
        CountBelow(order, i, infos.Keys, keep);
        assert count != nNew;
        WroteOne(infos, list, Kept(order[..i], keep), id);
        list := list + [Saved(info)];
        count := count + 1;
      }
      i := i + 1;
    }
    assert order[..i] == order;
    NumbersAll(unkIds, order, infos.Keys, keep);
  }

  /** The first `i` ids are numbered by how many of those kept come before them. */
  ghost predicate NumbersFirst(unkIds: map<Id, int>, order: seq<Id>, keep: set<Id>, i: nat) {
    i <= |order| && forall j :: 0 <= j < i ==> order[j] in unkIds && unkIds[order[j]] == |Kept(order[..j], keep)|
  }

  lemma NumberNext(unkIds: map<Id, int>, order: seq<Id>, ids: set<Id>, keep: set<Id>, i: nat)
    requires NumbersFirst(unkIds, order, keep, i) && i < |order| && order == Ordered(ids)
    ensures NumbersFirst(unkIds[order[i] := |Kept(order[..i], keep)|], order, keep, i + 1)
  {
    hide Kept, Ordered;
    OrderedLists(ids);
    DistinctAt(order, i);
  }

  /** Before an entry that is kept, not all of them have come. */
  lemma CountBelow(order: seq<Id>, i: nat, ids: set<Id>, keep: set<Id>)
    requires i < |order| && order == Ordered(ids) && keep <= ids && order[i] in keep
    ensures |Kept(order[..i], keep)| < |keep|
  {
    hide Kept, Ordered, Distinct;
    KeptStep(order, i, keep);
    KeptIsOrdered(ids, keep);
    OrderedLists(keep);
  }

  lemma NumbersAll(unkIds: map<Id, int>, order: seq<Id>, ids: set<Id>, keep: set<Id>)
    requires order == Ordered(ids) && keep <= ids && NumbersFirst(unkIds, order, keep, |order|)
    ensures forall id :: id in keep ==> id in unkIds && id in Ordered(keep) && unkIds[id] == IndexOf(Ordered(keep), id)
  {
    hide Kept, Ordered, IndexOf, Distinct;
    KeptIsOrdered(ids, keep);
    OrderedLists(ids);
    OrderedLists(keep);
    forall id | id in keep
      ensures id in unkIds && id in Ordered(keep) && unkIds[id] == IndexOf(Ordered(keep), id)
    {
      assert id in ids && id in order;
      var j :| 0 <= j < |order| && order[j] == id;
      KeptStep(order, j, keep);
      NumberIs(Ordered(keep), Kept(order[..j], keep), id);
    }
  }

  lemma NoNumbers(order: seq<Id>, keep: set<Id>)
    ensures NumbersFirst(map[], order, keep, 0)
  {
  }

  lemma WroteNothing(infos: map<Id, AddrInfo>, order: seq<Id>, keep: set<Id>)
    ensures Kept(order[..0], keep) == [] && Wrote(infos, [], [])
  {
  }

  lemma WroteOne(infos: map<Id, AddrInfo>, list: seq<AddrInfo>, ids: seq<Id>, id: Id)
    requires Wrote(infos, list, ids) && id in infos
    ensures Wrote(infos, list + [Saved(infos[id])], ids + [id])
  {
  }

  lemma InOrder(order: seq<Id>, i: nat, infos: map<Id, AddrInfo>)
    requires i < |order| && order == Ordered(infos.Keys)
    ensures order[i] in infos
  {
    hide Ordered, Distinct;
    OrderedLists(infos.Keys);
    var id := order[i];
    assert id in order;
  }

  lemma DistinctAt(order: seq<Id>, i: nat)
    requires Distinct(order) && i < |order|
    ensures forall j :: 0 <= j < i ==> order[j] != order[i]
  {
  }

  lemma NumberIs(order: seq<Id>, before: seq<Id>, id: Id)
    requires Distinct(order) && before + [id] <= order
    ensures id in order && IndexOf(order, id) == |before|
  {
    assert order[|before|] == id;
    IndexOfAt(order, |before|);
  }

  /** The tried entries. */
  method WriteTried(infos: map<Id, AddrInfo>, order: seq<Id>, nTried: int, ghost keep: set<Id>) returns (list: seq<AddrInfo>)
    requires order == Ordered(infos.Keys) && nTried == |keep|
    requires keep <= infos.Keys && forall id :: id in infos ==> (id in keep <==> infos[id].fInTried)
    ensures Wrote(infos, list, Ordered(keep))
  {
    hide *;
    list := [];
    var count, i := 0, 0;
    KeptIsOrdered(infos.Keys, keep);
    WroteNothing(infos, order, keep);
    while i < |order|
      invariant 0 <= i <= |order| && count == |Kept(order[..i], keep)| && Wrote(infos, list, Kept(order[..i], keep))
    {
      var id := order[i];
      KeptStep(order, i, keep);
      InOrder(order, i, infos);
      var info := infos[id];
      assert id in keep <==> info.fInTried;
      if info.fInTried {
        CountBelow(order, i, infos.Keys, keep);
        assert count != nTried;
        WroteOne(infos, list, Kept(order[..i], keep), id);
        list := list + [Saved(info)];
        count := count + 1;
      }
      i := i + 1;
    }
    assert order[..i] == order;
  }

  /** The entries of one new bucket, by number. */
  method WriteBucket(a: AddrManager, bucket: nat, unkIds: map<Id, int>, ghost order: seq<Id>) returns (r: seq<int>)
    requires a.Valid() && bucket < a.P.newBuckets
    requires forall s :: s in a.Model().vvNew ==> a.Model().vvNew[s] in order
    requires forall id :: id in order ==> id in unkIds && unkIds[id] == IndexOf(order, id)
    ensures r == SavedBucket(a.P, a.Model(), order, bucket, 0)
  {
    hide Table, ValidParams, IndexOf;
    ghost var m := a.Model();
    r := [];
    var i := 0;
    while i < a.P.bucketSize
      invariant 0 <= i <= a.P.bucketSize && r + SavedBucket(a.P, m, order, bucket, i) == SavedBucket(a.P, m, order, bucket, 0)
    {
      TableAt(a.vvNew, bucket, i);
      if a.vvNew[bucket, i] != FREE {
        assert m.vvNew[Slot(bucket, i)] == a.vvNew[bucket, i];
        var index := unkIds[a.vvNew[bucket, i]];
        r := r + [index];
      }
      i := i + 1;
    }
  }

  /** `Serialize`: what a consistent manager writes. */
  method Serialize(a: AddrManager) returns (st: Stream)
    requires a.Valid() && Consistent(a.P, a.Model())
    ensures CanSave(a.Model()) && st == Save(a.P, a.Model())
  {
    hide Consistent, Ordered, Table, ValidParams, Wrote, SavedBucket, SavedList, CanSave, IndexOf;
    ghost var m := a.Model();
    CanSaveConsistent(a.P, m);
    SaveIsDefined(m);
    CountersAreExact(a.P, m);
    ghost var keep := ReferencedIds(m);
    OrderedLists(keep);
    var order := Iterate(a.mapInfo);
    var newInfos, unkIds := WriteNew(a.mapInfo, order, a.nNew, keep);
    var triedInfos := WriteTried(a.mapInfo, order, a.nTried, TriedIds(m));
    var buckets: seq<seq<int>>, b := [], 0;
    while b < a.P.newBuckets
      invariant 0 <= b <= a.P.newBuckets && |buckets| == b
      invariant forall k :: 0 <= k < b ==> buckets[k] == SavedBucket(a.P, m, Ordered(keep), k, 0)
    {
      var bucket := WriteBucket(a, b, unkIds, Ordered(keep));
      buckets := buckets + [bucket];
      b := b + 1;
    }
    st := Stream(a.nKey, a.nNew, a.nTried, newInfos, triedInfos, buckets);
    WroteIs(m, newInfos, Ordered(keep));
    WroteIs(m, triedInfos, Ordered(TriedIds(m)));
  }

  lemma CountersAreExact(P: AddrManModel.Params, m: AddrMan)
    requires Consistent(P, m)
    ensures m.nNew == |ReferencedIds(m)| && m.nTried == |TriedIds(m)|
  {
    hide RandomOk, IdsOk, IndexOk, NewTableOk, TriedTableOk;
    CanSaveConsistent(P, m);
  }

  lemma WroteIs(m: AddrMan, list: seq<AddrInfo>, ids: seq<Id>)
    requires Wrote(m.mapInfo, list, ids)
    ensures (forall i :: 0 <= i < |ids| ==> ids[i] in m.mapInfo) && list == SavedList(m, ids)
  {
  }

  // ----- reading -----

  predicate WithinLimits(P: AddrManModel.Params, st: Stream) {
    st.nNew <= P.newBuckets * P.bucketSize && st.nTried <= P.triedBuckets * P.bucketSize
  }

  lemma LoadedNewIs(m: AddrMan, n: nat, info: AddrInfo)
    ensures var read := ReadInto(m.mapInfo, n, info);
            LoadNewOne(m, n, info) == m.(mapInfo := m.mapInfo[n := read][n := read.(nRandomPos := |m.vRandom|)],
                                         mapAddr := m.mapAddr[info.service.ip := n], vRandom := m.vRandom + [n])
  {
    var read := ReadInto(m.mapInfo, n, info);
    assert m.mapInfo[n := read][n := read.(nRandomPos := |m.vRandom|)] == m.mapInfo[n := read.(nRandomPos := |m.vRandom|)];
  }

  method ReadNew(a: AddrManager, st: Stream)
    requires a.Valid()
    modifies a
    ensures a.Model() == LoadNew(old(a.Model()), 0, st.newInfos)
    ensures forall id :: 0 <= id < |st.newInfos| ==> id in a.mapInfo
  {
    hide Table, ValidParams, LoadNewOne, ReadInto;
    var n := 0;
    while n < |st.newInfos|
      invariant 0 <= n <= |st.newInfos| && forall id :: 0 <= id < n ==> id in a.mapInfo
      invariant LoadNew(a.Model(), n, st.newInfos) == LoadNew(old(a.Model()), 0, st.newInfos)
    {
      var info := st.newInfos[n];
      ghost var m := a.Model();
      a.mapInfo := a.mapInfo[n := ReadInto(a.mapInfo, n, info)];
      a.mapAddr := a.mapAddr[info.service.ip := n];
      a.mapInfo := a.mapInfo[n := a.mapInfo[n].(nRandomPos := |a.vRandom|)];
      a.vRandom := a.vRandom + [n];
      LoadedNewIs(m, n, info);
      assert a.Model() == LoadNewOne(m, n, info);
      n := n + 1;
    }
  }

  /** One entry of the tried list; its slot may be taken. */
  method ReadTriedOne(a: AddrManager, info: AddrInfo) returns (lost: bool)
    requires a.Valid()
    modifies a, a.vvTried
    ensures Less(a.Model(), if lost then 1 else 0) == LoadTriedOne(a.P, old(a.Model()), info)
    ensures a.nNew == old(a.nNew) && old(a.mapInfo).Keys <= a.mapInfo.Keys
  {
    hide Table;
    var triedBucket := a.P.triedBucketOf(a.nKey, info.service);
    var triedPos := a.P.positionOf(a.nKey, false, triedBucket, info.service);
    TriedSlotShape(a.P, a.nKey, info.service);
    TableAt(a.vvTried, triedBucket, triedPos);
    lost := a.vvTried[triedBucket, triedPos] != FREE;
    if !lost {
      a.mapInfo := a.mapInfo[a.nIdCount := info.(nRandomPos := |a.vRandom|, fInTried := true)];
      a.vRandom := a.vRandom + [a.nIdCount];
      a.mapAddr := a.mapAddr[info.service.ip := a.nIdCount];
      Put(a.vvTried, triedBucket, triedPos, a.nIdCount);
      a.nIdCount := a.nIdCount + 1;
    }
  }

  /** Lost entries are counted, and taken off the counter at the end. */
  method ReadTried(a: AddrManager, st: Stream)
    requires a.Valid()
    modifies a, a.vvTried
    ensures a.Model() == LoadTried(a.P, old(a.Model()), 0, st.triedInfos)
    ensures a.nNew == old(a.nNew) && old(a.mapInfo).Keys <= a.mapInfo.Keys
  {
    hide Table, ValidParams, LoadTriedOne;
    var n, losses := 0, 0;
    while n < |st.triedInfos|
      invariant 0 <= n <= |st.triedInfos| && a.nNew == old(a.nNew) && old(a.mapInfo).Keys <= a.mapInfo.Keys
      invariant LoadTried(a.P, Less(a.Model(), losses), n, st.triedInfos) == LoadTried(a.P, old(a.Model()), 0, st.triedInfos)
    {
      ghost var m := a.Model();
      LossCommutes(a.P, m, losses, st.triedInfos[n]);
      var lost := ReadTriedOne(a, st.triedInfos[n]);
      if lost {
        losses := losses + 1;
      }
      n := n + 1;
    }
    a.nTried := a.nTried - losses;
  }

  lemma LossCommutes(P: AddrManModel.Params, m: AddrMan, lost: int, info: AddrInfo)
    ensures LoadTriedOne(P, Less(m, lost), info) == Less(LoadTriedOne(P, m, info), lost)
  {
    hide *;
    LoadTriedIs(P, m, info);
    LoadTriedIs(P, Less(m, lost), info);
    LessIs(m, lost);
    LessIs(LoadTriedOne(P, m, info), lost);
  }

  lemma LessIs(m: AddrMan, lost: int)
    ensures Less(m, lost) == m.(nTried := m.nTried - lost)
  {
  }

  lemma LoadTriedIs(P: AddrManModel.Params, m: AddrMan, info: AddrInfo)
    ensures var s := TriedSlot(P, m.nKey, info.service);
            LoadTriedOne(P, m, info) ==
              if s in m.vvTried then m.(nTried := m.nTried - 1)
              else
                m.(mapInfo := m.mapInfo[m.nIdCount := info.(nRandomPos := |m.vRandom|, fInTried := true)],
                   mapAddr := m.mapAddr[info.service.ip := m.nIdCount],
                   vRandom := m.vRandom + [m.nIdCount],
                   vvTried := Written(m.vvTried, s, m.nIdCount),
                   nIdCount := m.nIdCount + 1)
  {
    hide TriedSlot;
  }

  ghost function Less(m: AddrMan, lost: int): AddrMan {
    m.(nTried := m.nTried - lost)
  }

  /** One index of a bucket. */
  method ReadIndex(a: AddrManager, bucket: nat, index: int)
    requires a.Valid() && bucket < a.P.newBuckets && forall id :: 0 <= id < a.nNew ==> id in a.mapInfo
    modifies a`mapInfo, a.vvNew
    ensures a.Model() == LoadIndex(a.P, old(a.Model()), bucket, index)
    ensures a.mapInfo.Keys == old(a.mapInfo).Keys
  {
    hide Table;
    if index >= 0 && index < a.nNew {
      var info := a.mapInfo[index];
      var newPos := a.P.positionOf(a.nKey, true, bucket, info.service);
      NewSlotShape(a.P, a.nKey, info.service, bucket);
      TableAt(a.vvNew, bucket, newPos);
      if a.vvNew[bucket, newPos] == FREE && info.nRefCount < NEW_BUCKETS_PER_ADDRESS {
        a.mapInfo := a.mapInfo[index := info.(nRefCount := info.nRefCount + 1)];
        Put(a.vvNew, bucket, newPos, index);
      }
    }
  }

  method ReadBuckets(a: AddrManager, st: Stream)
    requires a.Valid() && |st.buckets| == a.P.newBuckets && forall id :: 0 <= id < a.nNew ==> id in a.mapInfo
    modifies a`mapInfo, a.vvNew
    ensures a.Model() == LoadBuckets(a.P, old(a.Model()), 0, st.buckets)
  {
    hide Table, ValidParams, LoadIndex;
    var b := 0;
    while b < |st.buckets|
      invariant 0 <= b <= |st.buckets| && forall id :: 0 <= id < a.nNew ==> id in a.mapInfo
      invariant LoadBuckets(a.P, a.Model(), b, st.buckets) == LoadBuckets(a.P, old(a.Model()), 0, st.buckets)
    {
      ReadBucket(a, b, st.buckets[b]);
      b := b + 1;
    }
  }

  method ReadBucket(a: AddrManager, bucket: nat, indices: seq<int>)
    requires a.Valid() && bucket < a.P.newBuckets && forall id :: 0 <= id < a.nNew ==> id in a.mapInfo
    modifies a`mapInfo, a.vvNew
    ensures a.Model() == LoadBucket(a.P, old(a.Model()), bucket, 0, indices)
    ensures a.mapInfo.Keys == old(a.mapInfo).Keys
  {
    hide Table, ValidParams, LoadIndex;
    var n := 0;
    while n < |indices|
      invariant 0 <= n <= |indices| && a.mapInfo.Keys == old(a.mapInfo).Keys
      invariant LoadBucket(a.P, a.Model(), bucket, n, indices) == LoadBucket(a.P, old(a.Model()), bucket, 0, indices)
    {
      assert forall id :: 0 <= id < a.nNew ==> id in a.mapInfo.Keys;
      ReadIndex(a, bucket, indices[n]);
      n := n + 1;
    }
  }

  // ----- pruning -----

  /** Deleting the first lost entry leaves the others to be deleted. */
  lemma PruneOne(m: AddrMan, id: Id)
    requires CanPrune(m) && id in LostIds(m) && forall j :: j in LostIds(m) ==> id <= j
    ensures CanDelete(m, id) && Pruned(m) == Pruned(Delete(m, id)) && CanPrune(Delete(m, id))
    ensures LostIds(Delete(m, id)) == LostIds(m) - {id} && Delete(m, id).mapInfo.Keys == m.mapInfo.Keys - {id}
  {
    hide LostIds, CanDelete, Delete;
    LeastIs(LostIds(m), id);
    LostAfter(m, id);
  }

  /** What pruning leaves: every entry but the lost ones, and each as it was but for its place in the random order. */
  lemma {:induction false} PrunedIs(m: AddrMan)
    requires CanPrune(m)
    ensures Pruned(m).mapInfo.Keys == m.mapInfo.Keys - LostIds(m)
    ensures forall id :: id in Pruned(m).mapInfo ==> id in m.mapInfo && SameEntry(Pruned(m).mapInfo[id], m.mapInfo[id])
    decreases |m.mapInfo.Keys|
  {
    hide LostIds, Delete, CanDelete;
    if LostIds(m) != {} {
      var id := Least(LostIds(m));
      PruneOne(m, id);
      var w := Delete(m, id);
      DeleteShrinks(m, id);
      PrunedIs(w);
      SameAfter(m, id);
      hide Pruned;
      assert m.mapInfo.Keys - {id} - (LostIds(m) - {id}) == m.mapInfo.Keys - LostIds(m);
    }
  }

  lemma SameAfter(m: AddrMan, id: Id)
    requires CanDelete(m, id)
    ensures forall j :: j in Delete(m, id).mapInfo ==> j in m.mapInfo && SameEntry(Delete(m, id).mapInfo[j], m.mapInfo[j])
  {
  }

  lemma LostAfter(m: AddrMan, id: Id)
    requires CanDelete(m, id)
    ensures LostIds(Delete(m, id)) == LostIds(m) - {id} && Delete(m, id).mapInfo.Keys == m.mapInfo.Keys - {id}
  {
    var w := SwapRandom(m, m.mapInfo[id].nRandomPos, |m.vRandom| - 1);
    assert w.mapInfo.Keys == m.mapInfo.Keys;
    assert forall j :: j in w.mapInfo ==> w.mapInfo[j].fInTried == m.mapInfo[j].fInTried && w.mapInfo[j].nRefCount == m.mapInfo[j].nRefCount;
  }

  /** The last loop of `Unserialize`: one pass over the entries, deleting on the way. */
  method Prune(a: AddrManager)
    requires a.Valid() && CanPrune(a.Model())
    modifies a
    ensures a.Model() == Pruned(old(a.Model()))
    ensures a.mapInfo.Keys == old(a.mapInfo.Keys) - LostIds(old(a.Model()))
    ensures forall id :: id in a.mapInfo ==> id in old(a.mapInfo) && SameEntry(a.mapInfo[id], old(a.mapInfo)[id])
  {
    hide SameEntry, Table, ValidParams, LostIds, Ordered, Pruned, CanPrune, Ahead, AddrManModel.Delete, CanDelete, Distinct;
    var order := Iterate(a.mapInfo);
    ghost var ids := a.mapInfo.Keys;
    var i := 0;
    OrderedLists(ids);
    PrunedIs(a.Model());
    LostAreListed(a.Model(), order);
    while i < |order|
      invariant 0 <= i <= |order| && CanPrune(a.Model()) && Pruned(a.Model()) == Pruned(old(a.Model()))
      invariant Ahead(a.Model(), order, i)
    {
      AheadStep(a.Model(), order, i, ids);
      var info := a.mapInfo[order[i]];
      if info.fInTried == false && info.nRefCount == 0 {
        PruneOne(a.Model(), order[i]);
        AheadAfter(a.Model(), order, i);
        a.Delete(order[i]);
      }
      i := i + 1;
    }
    NothingAhead(a.Model(), order);
  }

  /** The lost entries still to come, and all entries from here on, are in the rest of the list. */
  ghost predicate Ahead(m: AddrMan, order: seq<Id>, i: nat) {
    && i <= |order|
    && (forall id :: id in LostIds(m) ==> id in order[i..])
    && (forall k :: i <= k < |order| ==> order[k] in m.mapInfo)
  }

  lemma LostAreListed(m: AddrMan, order: seq<Id>)
    requires forall id :: id in order <==> id in m.mapInfo.Keys
    ensures Ahead(m, order, 0)
  {
    assert order[0..] == order;
    forall k | 0 <= k < |order|
      ensures order[k] in m.mapInfo
    {
      var id := order[k];
      assert id in order;
    }
  }

  lemma {:induction false} OrderedIncreases(ids: set<Id>, i: nat, j: nat)
    requires i < j < |Ordered(ids)|
    ensures Ordered(ids)[i] < Ordered(ids)[j]
    decreases |ids|
  {
    var x := Least(ids);
    assert |ids - {x}| < |ids|;
    var rest := Ordered(ids - {x});
    if i == 0 {
      OrderedLists(ids - {x});
      var y := rest[j - 1];
      assert y in rest;
    } else {
      OrderedIncreases(ids - {x}, i - 1, j - 1);
    }
  }

  lemma AheadStep(m: AddrMan, order: seq<Id>, i: nat, ids: set<Id>)
    requires Ahead(m, order, i) && i < |order| && order == Ordered(ids)
    ensures order[i] in m.mapInfo
    ensures !m.mapInfo[order[i]].fInTried && m.mapInfo[order[i]].nRefCount == 0 <==> order[i] in LostIds(m)
    ensures order[i] !in LostIds(m) ==> Ahead(m, order, i + 1)
    ensures forall j :: j in LostIds(m) ==> order[i] <= j
  {
    hide Ordered;
    assert order[i..] == [order[i]] + order[i + 1..];
    forall j | j in LostIds(m)
      ensures order[i] <= j
    {
      var k :| i <= k < |order| && order[k] == j;
      if i < k {
        OrderedIncreases(ids, i, k);
      }
    }
  }

  lemma AheadAfter(m: AddrMan, order: seq<Id>, i: nat)
    requires Ahead(m, order, i) && i < |order| && CanDelete(m, order[i]) && Distinct(order)
    requires LostIds(Delete(m, order[i])) == LostIds(m) - {order[i]} && Delete(m, order[i]).mapInfo.Keys == m.mapInfo.Keys - {order[i]}
    ensures Ahead(Delete(m, order[i]), order, i + 1)
  {
    hide LostIds, Delete, CanDelete;
    var w := Delete(m, order[i]);
    assert order[i..] == [order[i]] + order[i + 1..];
    forall k | i + 1 <= k < |order|
      ensures order[k] in w.mapInfo
    {
      var id := order[k];
      assert id in m.mapInfo.Keys && id in w.mapInfo.Keys;
    }
  }

  lemma NothingAhead(m: AddrMan, order: seq<Id>)
    requires Ahead(m, order, |order|)
    ensures Pruned(m) == m
  {
    assert forall id :: id !in LostIds(m);
    assert LostIds(m) == {};
  }

  /** `Unserialize`: it throws exactly when a counter is beyond its table, and leaves the manager
      cleared, with the counters of the file. `ConsistentCanLoad` says that no consistent manager
      trips an assertion. */
  method Unserialize(a: AddrManager, key: Key, st: Stream) returns (ok: bool)
    requires a.Valid() && WellFormed(a.P, st)
    requires WithinLimits(a.P, st) ==> CanPrune(LoadTables(a.P, a.Model(), st))
    modifies a, a.vvNew, a.vvTried
    ensures ok <==> WithinLimits(a.P, st)
    ensures !ok ==> a.Model() == Clear(old(a.Model()), st.nKey).(nNew := st.nNew, nTried := st.nTried)
    ensures ok ==> a.Model() == Load(a.P, old(a.Model()), st)
    ensures ok && old(Unused(a.Model())) ==>
              (Consistent(a.P, a.Model()) <==> st.nNew >= 0 && st.nTried >= 0 && NoClash(LoadTables(a.P, old(a.Model()), st)))
  {
    hide Table, ValidParams, LoadNew, LoadTried, LoadBuckets, Pruned, CanPrune, Consistent, NoClash, LostIds, Saved;
    ghost var m := a.Model();
    a.Clear(key);
    a.nKey, a.nNew, a.nTried := st.nKey, st.nNew, st.nTried;
    if a.nNew > a.P.newBuckets * a.P.bucketSize {
      return false;
    }
    if a.nTried > a.P.triedBuckets * a.P.bucketSize {
      return false;
    }
    LoadNewCounters(a.Model(), 0, st.newInfos);
    ReadNew(a, st);
    a.nIdCount := a.nNew;
    ReadTried(a, st);
    assert forall id :: 0 <= id < a.nNew ==> id in a.mapInfo.Keys;
    ReadBuckets(a, st);
    Prune(a);
    if Unused(m) {
      LoadIsConsistentExactly(a.P, m, st);
    }
    ok := true;
  }

  // ----- a file that was written can be read -----

  lemma {:induction false} SlotsCount(buckets: nat, size: nat)
    ensures |SlotsWithin(buckets, size)| == buckets * size
  {
    if buckets == 0 {
      assert SlotsWithin(0, size) == {};
    } else {
      SlotsCount(buckets - 1, size);
      RowCount(buckets - 1, size);
      SlotsRow(buckets, size);
      hide *;
      assert buckets * size == (buckets - 1) * size + size;
    }
  }

  lemma SlotsRow(buckets: nat, size: nat)
    requires buckets > 0
    ensures |SlotsWithin(buckets, size)| == |SlotsWithin(buckets - 1, size)| + |Row(buckets - 1, size)|
  {
    var low, row := SlotsWithin(buckets - 1, size), Row(buckets - 1, size);
    assert SlotsWithin(buckets, size) == low + row;
    assert low !! row;
  }

  function Row(bucket: nat, size: nat): set<Slot> {
    set p: nat | p < size :: Slot(bucket, p)
  }

  lemma {:induction false} RowCount(bucket: nat, size: nat)
    ensures |Row(bucket, size)| == size
  {
    if size > 0 {
      RowCount(bucket, size - 1);
      assert Row(bucket, size) == Row(bucket, size - 1) + {Slot(bucket, size - 1)};
    } else {
      assert Row(bucket, 0) == {};
    }
  }

  /** A table holds at most as many different ids as it has occupied slots. */
  lemma {:induction false} IdsInTable(table: map<Slot, Id>, ids: set<Id>)
    requires forall id :: id in ids ==> exists s :: s in table && table[s] == id
    ensures |ids| <= |table.Keys|
    decreases |ids|
  {
    if ids != {} {
      var id := Least(ids);
      var s :| s in table && table[s] == id;
      var rest := table - {s};
      forall j | j in ids - {id}
        ensures exists r :: r in rest && rest[r] == j
      {
        var r :| r in table && table[r] == j;
        assert r in rest && rest[r] == j;
      }
      IdsInTable(rest, ids - {id});
      assert table.Keys == rest.Keys + {s};
    }
  }

  lemma TableFits(table: map<Slot, Id>, buckets: nat, size: nat, ids: set<Id>)
    requires forall id :: id in ids ==> exists s :: s in table && table[s] == id
    requires forall s :: s in table ==> s.bucket < buckets && s.pos < size
    ensures |ids| <= buckets * size
  {
    IdsInTable(table, ids);
    SlotsCount(buckets, size);
    assert table.Keys <= SlotsWithin(buckets, size);
    SubsetCard(table.Keys, SlotsWithin(buckets, size));
  }

  /** Neither limit stops a file that a consistent manager wrote, and its lists are as long as its counters say. */
  lemma SavedCanBeRead(P: AddrManModel.Params, m: AddrMan)
    requires ValidParams(P) && Consistent(P, m)
    ensures CanSave(m) && WellFormed(P, Save(P, m)) && WithinLimits(P, Save(P, m))
  {
    hide Ordered, SavedBucket;
    CanSaveConsistent(P, m);
    SaveIsDefined(m);
    CountersAreExact(P, m);
    OrderedLists(ReferencedIds(m));
    OrderedLists(TriedIds(m));
    NewFits(P, m);
    TriedFits(P, m);
    hide Consistent;
  }

  lemma NewFits(P: AddrManModel.Params, m: AddrMan)
    requires ValidParams(P) && Consistent(P, m)
    ensures |NewIds(m)| <= P.newBuckets * P.bucketSize
  {
    hide RandomOk, IdsOk, IndexOk, TriedTableOk;
    forall id | id in NewIds(m)
      ensures exists s :: s in m.vvNew && m.vvNew[s] == id
    {
      assert EntryOk(P, m, {}, id);
      var own := SlotsOf(m.vvNew, id);
      assert own != {};
      var s :| s in own;
    }
    TableFits(m.vvNew, P.newBuckets, P.bucketSize, NewIds(m));
  }

  lemma TriedFits(P: AddrManModel.Params, m: AddrMan)
    requires ValidParams(P) && Consistent(P, m)
    ensures |TriedIds(m)| <= P.triedBuckets * P.bucketSize
  {
    hide RandomOk, IdsOk, IndexOk, NewTableOk;
    forall id | id in TriedIds(m)
      ensures exists s :: s in m.vvTried && m.vvTried[s] == id
    {
      assert EntryOk(P, m, {}, id);
    }
    TableFits(m.vvTried, P.triedBuckets, P.bucketSize, TriedIds(m));
  }

  lemma EmptyIsUnused(P: AddrManModel.Params, key: Key)
    ensures Unused(Empty(key)) && Consistent(P, Empty(key))
  {
    EmptyIsConsistent(P, key);
  }

  /** Saving one manager and loading another, new one: the same manager, under new ids and in a new random order. */
  method SaveAndLoad(a: AddrManager, key: Key) returns (b: AddrManager)
    requires a.Valid() && Consistent(a.P, a.Model())
    ensures fresh(b) && b.Valid() && b.Model() == Renamed(a.P, a.Model())
  {
    hide Consistent, Renamed, Load, Save, CanSave, WellFormed, WithinLimits, Table, Unused, Empty, CanPrune, LoadTables, NoClash;
    ghost var m := a.Model();
    SavedCanBeRead(a.P, m);
    var st := Serialize(a);
    b := new AddrManager(a.P, key);
    EmptyIsUnused(a.P, key);
    LoadOfSave(a.P, m, Empty(key));
    ConsistentCanLoad(a.P, Empty(key), st);
    var ok := Unserialize(b, key, st);
  }
}
