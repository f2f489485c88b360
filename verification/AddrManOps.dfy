/**
 The operations of the address manager, composed from the steps of module
 AddrManModel, and the proof that every run of them passes the structural part
 of the manager's own consistency check.
 */
module AddrManOps {
  import opened AddrManModel

  // ----- clearing a slot of the new table -----

  predicate CanClear(m: AddrMan, s: Slot) {
    s in m.vvNew ==>
      && m.vvNew[s] in m.mapInfo && m.mapInfo[m.vvNew[s]].nRefCount > 0
      && (m.mapInfo[m.vvNew[s]].nRefCount == 1 ==> CanDelete(Release(m, s), m.vvNew[s]))
  }

  /** `ClearNew`: take what is in the slot off it, and delete it if that was its last slot. */
  function ClearNew(m: AddrMan, s: Slot): AddrMan
    requires CanClear(m, s)
  {
    if s !in m.vvNew then m else
    if m.mapInfo[m.vvNew[s]].nRefCount == 1 then Delete(Release(m, s), m.vvNew[s]) else Release(m, s)
  }

  /** All entries but one are as they were, the random order aside, and so is the tried table. */
  ghost predicate TouchesOnly(m: AddrMan, w: AddrMan, id: Id) {
    && w.nKey == m.nKey && w.nIdCount == m.nIdCount && w.vvTried == m.vvTried && w.nTried == m.nTried && w.nLastGood == m.nLastGood
    && (forall j :: j in m.mapInfo && j != id ==> j in w.mapInfo && SameEntry(w.mapInfo[j], m.mapInfo[j]))
    && (forall j :: j in w.mapInfo ==> j in m.mapInfo)
  }

  lemma ReleaseTouchesOnly(m: AddrMan, s: Slot)
    requires s in m.vvNew && m.vvNew[s] in m.mapInfo
    ensures TouchesOnly(m, Release(m, s), m.vvNew[s])
  {
  }

  lemma DropTouchesOnly(m: AddrMan, u: AddrMan, w: AddrMan, id: Id)
    requires TouchesOnly(m, u, id) && DropsOnly(u, w, id)
    ensures TouchesOnly(m, w, id) && id !in w.mapInfo
  {
  }

  /** How far `nNew` lags behind the number of new entries. */
  function MissingNew(m: AddrMan): int {
    |NewIds(m)| - m.nNew
  }

  lemma ClearNewKeeps(P: Params, m: AddrMan, floating: set<Id>, s: Slot)
    requires Linked(P, m, floating) && (s in m.vvNew ==> m.vvNew[s] !in floating)
    ensures CanClear(m, s)
    ensures var w := ClearNew(m, s);
            && Linked(P, w, floating) && w.vvNew == m.vvNew - {s} && TriedIds(w) == TriedIds(m)
            && MissingNew(w) == MissingNew(m)
            && (s in m.vvNew ==> TouchesOnly(m, w, m.vvNew[s])) && (s !in m.vvNew ==> w == m)
  {
    hide *;
    if s in m.vvNew {
      var id := m.vvNew[s];
      ReleaseKeeps(P, m, floating, s);
      ReleaseTouchesOnly(m, s);
      var u := Release(m, s);
      var after := AfterRelease(m, floating, s);
      ReleaseShape(m, s);
      AfterReleaseShape(m, floating, s);
      if m.mapInfo[id].nRefCount == 1 {
        FloatingIsNew(P, u, after, id);
        DeleteKeeps(P, u, after, id);
        var w := Delete(u, id);
        DropTouchesOnly(m, u, w, id);
        DropCounts(u, w, id);
        ClearNewDeletes(m, s);
      } else {
        ClearNewReleases(m, s);
        SameMissing(m, u);
      }
    } else {
      ClearNewNothing(m, s);
    }
  }

  lemma ReleaseShape(m: AddrMan, s: Slot)
    requires s in m.vvNew && m.vvNew[s] in m.mapInfo
    ensures Release(m, s).vvNew == m.vvNew - {s} && Release(m, s).nNew == m.nNew
  {
  }

  lemma AfterReleaseShape(m: AddrMan, floating: set<Id>, s: Slot)
    requires s in m.vvNew && m.vvNew[s] in m.mapInfo && m.vvNew[s] !in floating
    ensures m.mapInfo[m.vvNew[s]].nRefCount == 1 ==>
              m.vvNew[s] in AfterRelease(m, floating, s) && AfterRelease(m, floating, s) - {m.vvNew[s]} == floating
    ensures m.mapInfo[m.vvNew[s]].nRefCount != 1 ==> AfterRelease(m, floating, s) == floating
  {
  }

  lemma FloatingIsNew(P: Params, m: AddrMan, floating: set<Id>, id: Id)
    requires Linked(P, m, floating) && id in floating
    ensures id in m.mapInfo && !m.mapInfo[id].fInTried && m.mapInfo[id].nRefCount == 0 && id in NewIds(m)
    ensures forall s :: s in m.vvNew ==> m.vvNew[s] != id
  {
    assert EntryOk(P, m, floating, id);
    forall s | s in m.vvNew
      ensures m.vvNew[s] != id
    {
      assert m.vvNew[s] == id ==> s in SlotsOf(m.vvNew, id);
    }
  }

  lemma DropCounts(u: AddrMan, w: AddrMan, id: Id)
    requires DropsOnly(u, w, id) && id in NewIds(u) && NewIds(w) == NewIds(u) - {id}
    ensures MissingNew(w) == MissingNew(u) && w.vvNew == u.vvNew
  {
  }

  lemma SameMissing(m: AddrMan, w: AddrMan)
    requires NewIds(w) == NewIds(m) && w.nNew == m.nNew
    ensures MissingNew(w) == MissingNew(m)
  {
  }

  lemma ClearNewDeletes(m: AddrMan, s: Slot)
    requires s in m.vvNew && m.vvNew[s] in m.mapInfo && m.mapInfo[m.vvNew[s]].nRefCount == 1
    requires CanDelete(Release(m, s), m.vvNew[s])
    ensures CanClear(m, s) && ClearNew(m, s) == Delete(Release(m, s), m.vvNew[s])
    ensures MissingNew(Release(m, s)) == MissingNew(m)
  {
    SameMissing(m, Release(m, s)) by {
      assert NewIds(Release(m, s)) == NewIds(m);
    }
  }

  lemma ClearNewReleases(m: AddrMan, s: Slot)
    requires s in m.vvNew && m.vvNew[s] in m.mapInfo && m.mapInfo[m.vvNew[s]].nRefCount > 1
    ensures CanClear(m, s) && ClearNew(m, s) == Release(m, s)
  {
  }

  lemma ClearNewNothing(m: AddrMan, s: Slot)
    requires s !in m.vvNew
    ensures CanClear(m, s) && ClearNew(m, s) == m && m.vvNew - {s} == m.vvNew
  {
  }

  // ----- moving an entry to the tried table -----

  /** The slot of the new table that an evicted entry goes back to. */
  function HomeSlot(P: Params, m: AddrMan, id: Id): Slot
    requires id in m.mapInfo
  {
    SourceSlot(P, m.nKey, m.mapInfo[id].service, m.mapInfo[id].source)
  }

  predicate CanEvict(P: Params, m: AddrMan, id: Id) {
    && id in m.mapInfo
    && CanClear(LeaveTried(P, m, id), HomeSlot(P, m, id))
    && id in ClearNew(LeaveTried(P, m, id), HomeSlot(P, m, id)).mapInfo
  }

  /** Move a tried entry back to the new table, over whatever stands there. */
  function Evict(P: Params, m: AddrMan, id: Id): AddrMan
    requires CanEvict(P, m, id)
  {
    var s := HomeSlot(P, m, id);
    var w := Attach(ClearNew(LeaveTried(P, m, id), s), id, s);
    w.(nNew := w.nNew + 1)
  }

  lemma HomeSlotFits(P: Params, m: AddrMan, id: Id)
    requires ValidParams(P) && id in m.mapInfo
    ensures HomeSlot(P, m, id).bucket < P.newBuckets
    ensures HomeSlot(P, m, id) == NewSlot(P, m.nKey, m.mapInfo[id].service, HomeSlot(P, m, id).bucket)
  {
  }

  lemma LeaveTriedShape(P: Params, m: AddrMan, id: Id)
    requires id in m.mapInfo
    ensures var w := LeaveTried(P, m, id);
            && w.vvTried == m.vvTried - {TriedSlot(P, m.nKey, m.mapInfo[id].service)} && w.vvNew == m.vvNew
            && w.nTried == m.nTried - 1 && w.nNew == m.nNew && w.nKey == m.nKey && w.nLastGood == m.nLastGood && w.nIdCount == m.nIdCount
            && id in w.mapInfo && HomeSlot(P, w, id) == HomeSlot(P, m, id) && w.mapInfo.Keys == m.mapInfo.Keys
            && (forall j :: j in m.mapInfo && j != id ==> j in w.mapInfo && w.mapInfo[j] == m.mapInfo[j])
  {
  }

  lemma AttachShape(P: Params, m: AddrMan, id: Id, s: Slot)
    requires id in m.mapInfo
    ensures var w := Attach(m, id, s);
            && w.vvTried == m.vvTried && w.nTried == m.nTried && w.nNew == m.nNew && w.nKey == m.nKey && w.nLastGood == m.nLastGood
            && w.nIdCount == m.nIdCount && id in w.mapInfo && w.mapInfo.Keys == m.mapInfo.Keys && w.vvNew == m.vvNew[s := id]
            && w.mapInfo[id].service == m.mapInfo[id].service
            && (forall j :: j in m.mapInfo && j != id ==> j in w.mapInfo && w.mapInfo[j] == m.mapInfo[j])
  {
  }

  lemma TouchedEntry(P: Params, m: AddrMan, w: AddrMan, touched: Id, id: Id)
    requires TouchesOnly(m, w, touched) && id in m.mapInfo && id != touched
    ensures id in w.mapInfo && HomeSlot(P, w, id) == HomeSlot(P, m, id) && SameEntry(w.mapInfo[id], m.mapInfo[id])
    ensures w.nKey == m.nKey && w.nTried == m.nTried && w.vvTried == m.vvTried && w.nLastGood == m.nLastGood && w.nIdCount == m.nIdCount
  {
  }

  lemma BumpNew(P: Params, m: AddrMan, floating: set<Id>, n: int)
    requires Linked(P, m, floating)
    ensures Linked(P, m.(nNew := n), floating)
    ensures TriedIds(m.(nNew := n)) == TriedIds(m) && NewIds(m.(nNew := n)) == NewIds(m)
  {
    hide NewSlot, TriedSlot, SlotsOf;
    var w := m.(nNew := n);
    forall id | id in w.mapInfo
      ensures EntryOk(P, w, floating, id)
    {
      assert EntryOk(P, m, floating, id);
    }
  }

  lemma TriedNotFloating(P: Params, m: AddrMan, floating: set<Id>, id: Id)
    requires Linked(P, m, floating) && id in m.mapInfo && m.mapInfo[id].fInTried
    ensures id !in floating && id in TriedIds(m) && id !in NewIds(m)
  {
    assert EntryOk(P, m, floating, id);
  }

  /** What holds of a manager in the middle of `MakeTried`: one entry stands in no table and is not counted. */
  ghost predicate InTransit(P: Params, m: AddrMan, id: Id) {
    Linked(P, m, {id}) && m.nTried == |TriedIds(m)| && MissingNew(m) == 1
  }

  /** The evicted entry and its surroundings, before it is put back. */
  lemma EvictClears(P: Params, m: AddrMan, id: Id, other: Id)
    requires ValidParams(P) && InTransit(P, m, id) && other in m.mapInfo && m.mapInfo[other].fInTried
    ensures CanEvict(P, m, other)
    ensures var s := HomeSlot(P, m, other);
            var w := ClearNew(LeaveTried(P, m, other), s);
            && Linked(P, w, {id} + {other}) && s !in w.vvNew && other in w.mapInfo && HomeSlot(P, w, other) == s
            && !w.mapInfo[other].fInTried && w.mapInfo[other].nRefCount == 0
            && w.nTried == |TriedIds(w)| && MissingNew(w) == 2 && w.nKey == m.nKey && w.nLastGood == m.nLastGood && w.nIdCount == m.nIdCount
            && w.vvTried == m.vvTried - {TriedSlot(P, m.nKey, m.mapInfo[other].service)}
            && (id in m.mapInfo ==> id in w.mapInfo && w.mapInfo[id].service == m.mapInfo[id].service)
  {
    hide *;
    InTransitParts(P, m, id);
    var s := HomeSlot(P, m, other);
    TriedNotFloating(P, m, {id}, other);
    LeaveTriedKeeps(P, m, {id}, other);
    LeaveTriedShape(P, m, other);
    var u := LeaveTried(P, m, other);
    MovedCounts(m, u, other);
    FloatingIsNew(P, u, {id} + {other}, other);
    FloatingIsNew(P, u, {id} + {other}, id);
    ClearNewKeeps(P, u, {id} + {other}, s);
    var w := ClearNew(u, s);
    if s in u.vvNew {
      TouchedEntry(P, u, w, u.vvNew[s], other);
      TouchedEntry(P, u, w, u.vvNew[s], id);
      SameEntryParts(w.mapInfo[id], u.mapInfo[id]);
    }
    FloatingIsNew(P, w, {id} + {other}, other);
    CanEvictIntro(P, m, other);
  }

  lemma CanEvictIntro(P: Params, m: AddrMan, id: Id)
    requires id in m.mapInfo && CanClear(LeaveTried(P, m, id), HomeSlot(P, m, id))
    requires id in ClearNew(LeaveTried(P, m, id), HomeSlot(P, m, id)).mapInfo
    ensures CanEvict(P, m, id)
  {
  }

  lemma SameEntryParts(a: AddrInfo, b: AddrInfo)
    requires SameEntry(a, b)
    ensures a.service == b.service
  {
  }

  lemma InTransitParts(P: Params, m: AddrMan, id: Id)
    requires InTransit(P, m, id)
    ensures Linked(P, m, {id}) && m.nTried == |TriedIds(m)| && MissingNew(m) == 1
  {
  }

  lemma InTransitWhole(P: Params, m: AddrMan, id: Id)
    requires Linked(P, m, {id}) && m.nTried == |TriedIds(m)| && MissingNew(m) == 1
    ensures InTransit(P, m, id)
  {
  }

  lemma MovedCounts(m: AddrMan, u: AddrMan, id: Id)
    requires id in TriedIds(m) && id !in NewIds(m)
    requires TriedIds(u) == TriedIds(m) - {id} && NewIds(u) == NewIds(m) + {id} && u.nNew == m.nNew
    ensures |TriedIds(u)| == |TriedIds(m)| - 1 && MissingNew(u) == MissingNew(m) + 1
  {
  }

  lemma EvictKeeps(P: Params, m: AddrMan, id: Id, other: Id)
    requires ValidParams(P) && InTransit(P, m, id) && other in m.mapInfo && m.mapInfo[other].fInTried && id in m.mapInfo
    ensures CanEvict(P, m, other)
    ensures var w := Evict(P, m, other);
            && InTransit(P, w, id) && id in w.mapInfo && w.mapInfo[id].service == m.mapInfo[id].service
            && w.vvTried == m.vvTried - {TriedSlot(P, m.nKey, m.mapInfo[other].service)}
            && w.nKey == m.nKey && w.nLastGood == m.nLastGood && w.nIdCount == m.nIdCount
  {
    hide *;
    EvictClears(P, m, id, other);
    InTransitParts(P, m, id);
    TriedNotFloating(P, m, {id}, other);
    var s := HomeSlot(P, m, other);
    EvictShape(P, m, other);
    var u := ClearNew(LeaveTried(P, m, other), s);
    HomeSlotFits(P, u, other);
    LimitIsEight();
    AttachKeeps(P, u, {id} + {other}, other, s);
    AttachShape(P, u, other, s);
    var v := Attach(u, other, s);
    assert {id} + {other} - {other} == {id};
    BumpNew(P, v, {id}, v.nNew + 1);
    EvictCounts(u, v);
    InTransitWhole(P, Evict(P, m, other), id);
  }

  lemma LimitIsEight()
    ensures NEW_BUCKETS_PER_ADDRESS == 8
  {
  }

  lemma EvictShape(P: Params, m: AddrMan, id: Id)
    requires CanEvict(P, m, id)
    ensures id in m.mapInfo && CanClear(LeaveTried(P, m, id), HomeSlot(P, m, id))
    ensures id in ClearNew(LeaveTried(P, m, id), HomeSlot(P, m, id)).mapInfo
    ensures var s := HomeSlot(P, m, id);
            var v := Attach(ClearNew(LeaveTried(P, m, id), s), id, s);
            Evict(P, m, id) == v.(nNew := v.nNew + 1)
  {
  }

  lemma EvictCounts(u: AddrMan, v: AddrMan)
    requires NewIds(v) == NewIds(u) && v.nNew == u.nNew && MissingNew(u) == 2
    ensures MissingNew(v.(nNew := v.nNew + 1)) == 1
  {
    assert NewIds(v.(nNew := v.nNew + 1)) == NewIds(v);
  }

  predicate CanMakeTried(P: Params, m: AddrMan, id: Id) {
    id in m.mapInfo && !m.mapInfo[id].fInTried &&
    var u := Detach(P, m, id).(nNew := m.nNew - 1);
    var s := TriedSlot(P, m.nKey, m.mapInfo[id].service);
    && u.mapInfo[id].nRefCount == 0
    && (s in u.vvTried ==> CanEvict(P, u, u.vvTried[s]) && id in Evict(P, u, u.vvTried[s]).mapInfo)
  }

  /** `MakeTried`: off the new table, evict what is in the way, and into the tried table. */
  function MakeTried(P: Params, m: AddrMan, id: Id): AddrMan
    requires CanMakeTried(P, m, id)
  {
    var u := Detach(P, m, id).(nNew := m.nNew - 1);
    var s := TriedSlot(P, m.nKey, m.mapInfo[id].service);
    EnterTried(P, Vacate(P, u, s), id)
  }

  lemma DetachShape(P: Params, m: AddrMan, id: Id)
    requires id in m.mapInfo
    ensures var w := Detach(P, m, id);
            && w.nNew == m.nNew && w.nTried == m.nTried && w.vvTried == m.vvTried && w.nKey == m.nKey && w.nLastGood == m.nLastGood
            && w.nIdCount == m.nIdCount && id in w.mapInfo && w.mapInfo[id].service == m.mapInfo[id].service
  {
  }

  lemma ConsistentParts(P: Params, m: AddrMan)
    requires Consistent(P, m)
    ensures Linked(P, m, {}) && m.nTried == |TriedIds(m)| && MissingNew(m) == 0
  {
  }

  lemma ConsistentWhole(P: Params, m: AddrMan)
    requires Linked(P, m, {}) && m.nTried == |TriedIds(m)| && MissingNew(m) == 0
    ensures Consistent(P, m)
  {
  }

  lemma InTableIsTried(P: Params, m: AddrMan, floating: set<Id>, s: Slot)
    requires Linked(P, m, floating) && s in m.vvTried
    ensures m.vvTried[s] in m.mapInfo && m.mapInfo[m.vvTried[s]].fInTried
    ensures TriedSlot(P, m.nKey, m.mapInfo[m.vvTried[s]].service) == s
  {
  }

  lemma EnterTriedShape(P: Params, m: AddrMan, id: Id)
    requires id in m.mapInfo
    ensures var w := EnterTried(P, m, id);
            && w.nTried == m.nTried + 1 && w.nNew == m.nNew && w.nKey == m.nKey && w.nIdCount == m.nIdCount && w.nLastGood == m.nLastGood
            && id in w.mapInfo && w.mapInfo[id].fInTried && w.mapInfo[id].service == m.mapInfo[id].service
  {
  }

  lemma EnteredCounts(m: AddrMan, w: AddrMan, id: Id)
    requires id in NewIds(m) && id !in TriedIds(m)
    requires TriedIds(w) == TriedIds(m) + {id} && NewIds(w) == NewIds(m) - {id} && w.nNew == m.nNew
    ensures |TriedIds(w)| == |TriedIds(m)| + 1 && MissingNew(w) == MissingNew(m) - 1
  {
  }

  lemma NewNotTried(m: AddrMan, id: Id)
    requires id in NewIds(m)
    ensures id !in TriedIds(m)
  {
  }

  /** The first half of `MakeTried`: nothing is left of the entry in the new table. */
  lemma DetachInTransit(P: Params, m: AddrMan, id: Id)
    requires Consistent(P, m) && id in m.mapInfo && !m.mapInfo[id].fInTried
    ensures var u := Detach(P, m, id).(nNew := m.nNew - 1);
            && InTransit(P, u, id) && id in u.mapInfo && u.mapInfo[id].nRefCount == 0 && u.vvTried == m.vvTried
            && u.mapInfo[id].service == m.mapInfo[id].service && u.nKey == m.nKey && u.nLastGood == m.nLastGood && u.nIdCount == m.nIdCount
  {
    hide *;
    ConsistentParts(P, m);
    DetachKeeps(P, m, id);
    DetachShape(P, m, id);
    var v := Detach(P, m, id);
    BumpNew(P, v, {id}, m.nNew - 1);
    DetachCounts(m, v);
    InTransitWhole(P, v.(nNew := m.nNew - 1), id);
  }

  lemma DetachCounts(m: AddrMan, v: AddrMan)
    requires NewIds(v) == NewIds(m) && MissingNew(m) == 0
    ensures MissingNew(v.(nNew := m.nNew - 1)) == 1
  {
    assert NewIds(v.(nNew := m.nNew - 1)) == NewIds(v);
  }

  /** Making room in the tried table, if room has to be made. */
  function Vacate(P: Params, u: AddrMan, s: Slot): AddrMan
    requires s in u.vvTried ==> CanEvict(P, u, u.vvTried[s])
  {
    if s in u.vvTried then Evict(P, u, u.vvTried[s]) else u
  }

  lemma VacateKeeps(P: Params, u: AddrMan, id: Id)
    requires ValidParams(P) && InTransit(P, u, id) && id in u.mapInfo
    ensures var s := TriedSlot(P, u.nKey, u.mapInfo[id].service);
            && (s in u.vvTried ==> CanEvict(P, u, u.vvTried[s]))
            && var v := Vacate(P, u, s);
               && InTransit(P, v, id) && id in v.mapInfo && v.mapInfo[id].service == u.mapInfo[id].service
               && s !in v.vvTried && v.nKey == u.nKey && v.nLastGood == u.nLastGood && v.nIdCount == u.nIdCount
  {
    hide InTransit, ValidParams, Linked, CanEvict, Evict, TriedSlot;
    var s := TriedSlot(P, u.nKey, u.mapInfo[id].service);
    if s in u.vvTried {
      InTransitParts(P, u, id);
      InTableIsTried(P, u, {id}, s);
      EvictKeeps(P, u, id, u.vvTried[s]);
    }
  }

  lemma MakeTriedShape(P: Params, m: AddrMan, id: Id)
    requires id in m.mapInfo && !m.mapInfo[id].fInTried
    requires var u := Detach(P, m, id).(nNew := m.nNew - 1);
             var s := TriedSlot(P, m.nKey, m.mapInfo[id].service);
             && id in u.mapInfo && u.mapInfo[id].nRefCount == 0
             && (s in u.vvTried ==> CanEvict(P, u, u.vvTried[s]))
             && id in Vacate(P, u, s).mapInfo
    ensures CanMakeTried(P, m, id)
    ensures MakeTried(P, m, id) == EnterTried(P, Vacate(P, Detach(P, m, id).(nNew := m.nNew - 1), TriedSlot(P, m.nKey, m.mapInfo[id].service)), id)
  {
    hide Detach, CanEvict, Evict, TriedSlot, EnterTried;
  }

  /** `MakeTried` keeps the manager consistent, none of its assertions fires, and the entry ends up tried. */
  lemma MakeTriedKeeps(P: Params, m: AddrMan, id: Id)
    requires ValidParams(P) && Consistent(P, m) && id in m.mapInfo && !m.mapInfo[id].fInTried
    ensures CanMakeTried(P, m, id)
    ensures var w := MakeTried(P, m, id);
            && Consistent(P, w) && id in w.mapInfo && w.mapInfo[id].fInTried && w.mapInfo[id].service == m.mapInfo[id].service
            && w.nKey == m.nKey && w.nLastGood == m.nLastGood && w.nIdCount == m.nIdCount
  {
    hide *;
    DetachInTransit(P, m, id);
    var u := Detach(P, m, id).(nNew := m.nNew - 1);
    VacateKeeps(P, u, id);
    MakeTriedShape(P, m, id);
    var v := Vacate(P, u, TriedSlot(P, m.nKey, m.mapInfo[id].service));
    InTransitParts(P, v, id);
    FloatingIsNew(P, v, {id}, id);
    NewNotTried(v, id);
    EnterTriedKeeps(P, v, {id}, id);
    EnterTriedShape(P, v, id);
    var w := EnterTried(P, v, id);
    EnteredCounts(v, w, id);
    assert {id} - {id} == {};
    ConsistentWhole(P, w);
  }
}
