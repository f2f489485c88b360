/**
 `CAddrMan` as the object it is: maps, a vector and two fixed tables changed in
 place. Each method is proved against the value it leaves the manager with, as
 given in modules AddrManModel, AddrManOps and AddrManRun.
 */
module AddrManager {
  import opened Basics
  import opened AddrManModel
  import opened AddrManOps
  import opened AddrManRun
  import Powers

  const GETADDR_MAX_PCT := 23
  const GETADDR_MAX := 2500

  function SlotsWithin(buckets: nat, size: nat): set<Slot> {
    set b: nat, p: nat | b < buckets && p < size :: Slot(b, p)
  }

  /** The occupied slots of a table. */
  ghost function Table(a: array2<int>): map<Slot, Id>
    reads a
  {
    map s | s in SlotsWithin(a.Length0, a.Length1) && a[s.bucket, s.pos] != FREE :: a[s.bucket, s.pos]
  }

  lemma TableAt(a: array2<int>, b: nat, p: nat)
    requires b < a.Length0 && p < a.Length1
    ensures Slot(b, p) in Table(a) <==> a[b, p] != FREE
    ensures Slot(b, p) in Table(a) ==> Table(a)[Slot(b, p)] == a[b, p]
  {
    assert Slot(b, p) in SlotsWithin(a.Length0, a.Length1);
  }

  /** Writing one cell of a table. */
  method Put(a: array2<int>, b: nat, p: nat, id: int)
    requires b < a.Length0 && p < a.Length1
    modifies a
    ensures Table(a) == Written(old(Table(a)), Slot(b, p), id)
  {
    assert Slot(b, p) in SlotsWithin(a.Length0, a.Length1);
    a[b, p] := id;
  }

  /** Marking every cell of a table as free. */
  method Wipe(a: array2<int>)
    modifies a
    ensures Table(a) == map[]
  {
    var bucket := 0;
    while bucket < a.Length0
      invariant 0 <= bucket <= a.Length0
      invariant forall b, p :: 0 <= b < bucket && 0 <= p < a.Length1 ==> a[b, p] == FREE
    {
      var entry := 0;
      while entry < a.Length1
        invariant 0 <= entry <= a.Length1
        invariant forall b, p :: 0 <= b < bucket && 0 <= p < a.Length1 ==> a[b, p] == FREE
        invariant forall p :: 0 <= p < entry ==> a[bucket, p] == FREE
      {
        a[bucket, entry] := FREE;
        entry := entry + 1;
      }
      bucket := bucket + 1;
    }
  }

  class AddrManager {
    const P: Params
    const vvTried: array2<int>
    const vvNew: array2<int>
    var nKey: Key
    var nIdCount: int
    var mapInfo: map<Id, AddrInfo>
    var mapAddr: map<NetAddr, Id>
    var vRandom: seq<Id>
    var nTried: int
    var nNew: int
    var nLastGood: int

    ghost predicate Valid() {
      && ValidParams(P)
      && vvTried.Length0 == P.triedBuckets && vvTried.Length1 == P.bucketSize
      && vvNew.Length0 == P.newBuckets && vvNew.Length1 == P.bucketSize
      && vvTried != vvNew
    }

    ghost function Model(): AddrMan
      reads this, vvTried, vvNew
    {
      AddrMan(nKey, nIdCount, mapInfo, mapAddr, vRandom, nTried, Table(vvTried), nNew, Table(vvNew), nLastGood)
    }

    constructor (P: Params, key: Key)
      requires ValidParams(P)
      ensures Valid() && fresh(vvTried) && fresh(vvNew) && this.P == P && Model() == Empty(key)
    {
      this.P := P;
      mapInfo, mapAddr := map[], map[];
      vvTried := new int[P.triedBuckets, P.bucketSize];
      vvNew := new int[P.newBuckets, P.bucketSize];
      new;
      Clear(key);
    }

    /** `Clear`. */
    method Clear(key: Key)
      requires Valid()
      modifies this, vvNew, vvTried
      ensures Model() == AddrManRun.Clear(old(Model()), key)
    {
      hide Table;
      vRandom := [];
      nKey := key;
      Wipe(vvNew);
      Wipe(vvTried);
      nIdCount, nTried, nNew, nLastGood := 0, 0, 0, 1;
    }

    method Create(service: Service, source: NetAddr, stats: Stats) returns (id: Id)
      modifies this
      ensures id == old(nIdCount) && Model() == AddrManModel.Create(old(Model()), service, source, stats)
    {
      id := nIdCount;
      nIdCount := nIdCount + 1;
      mapInfo := mapInfo[id := AddrInfo(service, source, stats, 0, false, -1)];
      mapAddr := mapAddr[service.ip := id];
      mapInfo := mapInfo[id := mapInfo[id].(nRandomPos := |vRandom|)];
      vRandom := vRandom + [id];
    }

    method SwapRandom(pos1: nat, pos2: nat)
      requires CanSwap(Model(), pos1, pos2)
      modifies this`mapInfo, this`vRandom
      ensures Model() == AddrManModel.SwapRandom(old(Model()), pos1, pos2)
    {
      if pos1 == pos2 {
        return;
      }
      var id1 := vRandom[pos1];
      var id2 := vRandom[pos2];
      mapInfo := mapInfo[id1 := mapInfo[id1].(nRandomPos := pos2)];
      mapInfo := mapInfo[id2 := mapInfo[id2].(nRandomPos := pos1)];
      vRandom := vRandom[pos1 := id2];
      vRandom := vRandom[pos2 := id1];
    }

    method Delete(id: Id)
      requires CanDelete(Model(), id)
      modifies this
      ensures Model() == AddrManModel.Delete(old(Model()), id)
    {
      var service := mapInfo[id].service;
      SwapRandom(mapInfo[id].nRandomPos, |vRandom| - 1);
      vRandom := vRandom[..|vRandom| - 1];
      mapAddr := mapAddr - {service.ip};
      mapInfo := mapInfo - {id};
      nNew := nNew - 1;
    }

    method ClearNew(newBucket: nat, newPos: nat)
      requires Valid() && newBucket < P.newBuckets && newPos < P.bucketSize
      requires CanClear(Model(), Slot(newBucket, newPos))
      modifies this, vvNew
      ensures Model() == AddrManOps.ClearNew(old(Model()), Slot(newBucket, newPos))
    {
      TableAt(vvNew, newBucket, newPos);
      if vvNew[newBucket, newPos] != FREE {
        var doomed := vvNew[newBucket, newPos];
        assert mapInfo[doomed].nRefCount > 0;
        mapInfo := mapInfo[doomed := mapInfo[doomed].(nRefCount := mapInfo[doomed].nRefCount - 1)];
        Put(vvNew, newBucket, newPos, FREE);
        assert Model() == Release(old(Model()), Slot(newBucket, newPos));
        if mapInfo[doomed].nRefCount == 0 {
          Delete(doomed);
        }
      }
    }

    /** Takes an entry off one new bucket, if it stands there. */
    method LeaveBucket(id: Id, service: Service, bucket: nat) returns (left: bool)
      requires Valid() && id != FREE && bucket < P.newBuckets
      modifies vvNew
      ensures var s, t := NewSlot(P, nKey, service, bucket), old(Table(vvNew));
              left == (s in t && t[s] == id) && Table(vvNew) == if left then t - {s} else t
    {
      hide Table, NewSlot;
      var pos := P.positionOf(nKey, true, bucket, service);
      NewSlotShape(P, nKey, service, bucket);
      TableAt(vvNew, bucket, pos);
      left := vvNew[bucket, pos] == id;
      if left {
        Put(vvNew, bucket, pos, FREE);
      }
    }

    /** The loop of `MakeTried` that takes an entry off every new bucket. */
    method DetachFromNew(id: Id)
      requires Valid() && id in mapInfo && id != FREE
      modifies this`mapInfo, vvNew
      ensures Model() == Detach(P, old(Model()), id)
    {
      hide NewSlot, Table, OwnSlots, OffBelow, ValidParams, Detach;
      ghost var m := Model();
      var info := mapInfo[id];
      var refs, bucket := info.nRefCount, 0;
      OffNone(P, m, id);
      while bucket < P.newBuckets
        invariant 0 <= bucket <= P.newBuckets && mapInfo == m.mapInfo && OffBelow(P, m, id, bucket, Table(vvNew), refs)
      {
        OffStep(P, m, id, bucket, Table(vvNew), refs);
        var left := LeaveBucket(id, info.service, bucket);
        if left {
          refs := refs - 1;
        }
        bucket := bucket + 1;
      }
      OffAll(P, m, id, Table(vvNew), refs);
      mapInfo := mapInfo[id := info.(nRefCount := refs)];
    }

    /** The part of `MakeTried` that sends a tried entry back to the new table. */
    method EvictTried(evicted: Id)
      requires Valid() && CanEvict(P, Model(), evicted) && evicted != FREE
      requires AddrManOps.ClearNew(LeaveTried(P, Model(), evicted), HomeSlot(P, Model(), evicted)).mapInfo[evicted].nRefCount == 0
      modifies this, vvNew, vvTried
      ensures Model() == Evict(P, old(Model()), evicted)
    {
      hide CanClear, AddrManOps.ClearNew;
      var infoOld := mapInfo[evicted];
      var triedBucket := P.triedBucketOf(nKey, infoOld.service);
      var triedPos := P.positionOf(nKey, false, triedBucket, infoOld.service);
      mapInfo := mapInfo[evicted := infoOld.(fInTried := false)];
      Put(vvTried, triedBucket, triedPos, FREE);
      nTried := nTried - 1;
      assert Model() == LeaveTried(P, old(Model()), evicted);
      var newBucket := P.newBucketOf(nKey, infoOld.service, infoOld.source);
      var newPos := P.positionOf(nKey, true, newBucket, infoOld.service);
      assert Slot(newBucket, newPos) == HomeSlot(P, old(Model()), evicted);
      ClearNew(newBucket, newPos);
      mapInfo := mapInfo[evicted := mapInfo[evicted].(nRefCount := 1)];
      Put(vvNew, newBucket, newPos, evicted);
      nNew := nNew + 1;
    }

    method MakeTried(id: Id)
      requires Valid() && Consistent(P, Model()) && id in mapInfo && !mapInfo[id].fInTried
      modifies this, vvNew, vvTried
      ensures CanMakeTried(P, old(Model()), id) && Model() == AddrManOps.MakeTried(P, old(Model()), id)
    {
      hide Table, Consistent, CanMakeTried, AddrManOps.MakeTried, Detach, Evict, CanEvict, ValidParams, Vacate, TriedSlot,
           InTransit, AddrManOps.ClearNew, LeaveTried, HomeSlot;
      ghost var m := Model();
      MakeTriedKeeps(P, m, id);
      IdIsNotFree(P, m, id);
      DetachInTransit(P, m, id);
      DetachFromNew(id);
      nNew := nNew - 1;
      ghost var u := Detach(P, m, id).(nNew := m.nNew - 1);
      VacateKeeps(P, u, id);
      MakeTriedShape(P, m, id);
      var info := mapInfo[id];
      var triedBucket := P.triedBucketOf(nKey, info.service);
      var triedPos := P.positionOf(nKey, false, triedBucket, info.service);
      TriedSlotShape(P, nKey, info.service);
      TableAt(vvTried, triedBucket, triedPos);
      if vvTried[triedBucket, triedPos] != FREE {
        var evicted := vvTried[triedBucket, triedPos];
        EvictIsReady(P, u, id, Slot(triedBucket, triedPos));
        EvictTried(evicted);
      }
      VacateShape(P, u, Slot(triedBucket, triedPos));
      assert Model() == Vacate(P, u, Slot(triedBucket, triedPos));
      TableAt(vvTried, triedBucket, triedPos);
      assert vvTried[triedBucket, triedPos] == FREE;
      ghost var v := Model();
      Put(vvTried, triedBucket, triedPos, id);
      nTried := nTried + 1;
      mapInfo := mapInfo[id := mapInfo[id].(fInTried := true)];
      assert Model() == EnterTried(P, v, id);
    }

    method Find(ip: NetAddr) returns (found: bool, id: Id)
      ensures found <==> Found(Model(), ip)
      ensures found ==> id == mapAddr[ip]
    {
      id := FREE;
      found := false;
      if ip in mapAddr {
        id := mapAddr[ip];
        found := id in mapInfo;
      }
    }

    /** The search of `Good` through the new buckets, from a random one on. */
    method FindNewBucket(id: Id, start: nat) returns (newBucket: int)
      requires Valid() && id in mapInfo && id != FREE && start < P.newBuckets
      ensures newBucket == -1 <==> OwnSlots(P, Model(), id) == {}
    {
      hide Table, ValidParams, Rotated;
      newBucket := -1;
      var n := 0;
      ghost var service := mapInfo[id].service;
      while n < P.newBuckets
        invariant 0 <= n <= P.newBuckets && newBucket == -1
        invariant forall k :: 0 <= k < n ==> NewSlot(P, nKey, service, Rotated(k, start, P.newBuckets)) !in OwnSlots(P, Model(), id)
      {
        var next := Rotated(n, start, P.newBuckets);
        var pos := P.positionOf(nKey, true, next, mapInfo[id].service);
        PositionFits(P, nKey, next, mapInfo[id].service);
        TableAt(vvNew, next, pos);
        if vvNew[next, pos] == id {
          assert Slot(next, pos) in OwnSlots(P, Model(), id);
          return next;
        }
        n := n + 1;
      }
      forall s: Slot | s.bucket < P.newBuckets && s == NewSlot(P, nKey, service, s.bucket)
        ensures s !in OwnSlots(P, Model(), id)
      {
        var k := RotationReaches(s.bucket, start, P.newBuckets);
      }
    }

    method Good(service: Service, nTime: int, start: nat)
      requires Valid() && Consistent(P, Model()) && start < P.newBuckets
      modifies this, vvNew, vvTried
      ensures CanGood(P, old(Model()), service, nTime)
      ensures Model() == AddrManRun.Good(P, old(Model()), service, nTime) && Consistent(P, Model())
    {
      hide Table, Consistent, OwnSlots, AddrManOps.MakeTried, CanMakeTried, ValidParams;
      ghost var m := Model();
      GoodKeeps(P, m, service, nTime);
      NoteGoodKeeps(P, m, service, nTime);
      nLastGood := nTime;
      var found, id := Find(service.ip);
      if !found {
        return;
      }
      if mapInfo[id].service != service {
        return;
      }
      mapInfo := mapInfo[id := mapInfo[id].(stats := mapInfo[id].stats.(nLastSuccess := nTime, nLastTry := nTime, nAttempts := 0))];
      assert Model() == NoteGood(m, service, nTime);
      if mapInfo[id].fInTried {
        return;
      }
      IdIsNotFree(P, Model(), id);
      var newBucket := FindNewBucket(id, start);
      if newBucket == -1 {
        return;
      }
      MakeTried(id);
    }

    method Attempt(service: Service, countFailure: bool, nTime: int)
      requires Consistent(P, Model())
      modifies this
      ensures Model() == Restat(old(Model()), service, AttemptStats(StatsOf(old(Model()), service), countFailure, nTime, old(nLastGood)))
    {
      hide Table, Consistent;
      var found, id := Find(service.ip);
      if !found {
        return;
      }
      var info := mapInfo[id];
      if info.service != service {
        return;
      }
      var stats := info.stats.(nLastTry := nTime);
      if countFailure && stats.nLastCountAttempt < nLastGood {
        stats := stats.(nLastCountAttempt := nTime, nAttempts := stats.nAttempts + 1);
      }
      mapInfo := mapInfo[id := info.(stats := stats)];
    }

    /** The first part of `Add`: refresh a known entry, or create one, and decide whether to go on. */
    method Prepare(addr: Announced, source: NetAddr, timePenalty: int, now: int, coin: bool)
      returns (isNew: bool, id: Id, proceed: bool)
      modifies this
      ensures Model() == Announce(old(Model()), addr, source, timePenalty, now)
      ensures id == AnnouncedId(old(Model()), addr) && isNew == !Found(old(Model()), addr.service.ip)
      ensures proceed <==> Proceeds(old(Model()), addr, source, timePenalty, now, coin)
    {
      hide Table, Announce, RefreshStats, Proceeds;
      ghost var m := Model();
      var found;
      found, id := Find(addr.service.ip);
      isNew := !found;
      if found {
        var info := mapInfo[id];
        var stats := Refresh(info.stats, addr, timePenalty, now);
        mapInfo := mapInfo[id := info.(stats := stats)];
        AnnounceOld(m, addr, source, timePenalty, now);
        ProceedsOld(m, addr, source, timePenalty, now, coin);
        proceed := false;
        if addr.nTime == 0 || (stats.nTime != 0 && addr.nTime <= stats.nTime) {
          return;
        }
        if info.fInTried {
          return;
        }
        if info.nRefCount == NEW_BUCKETS_PER_ADDRESS {
          return;
        }
        if info.nRefCount > 0 && !coin {
          return;
        }
      } else {
        id := Create(addr.service, source, Stats(addr.nServices, Max(0, addr.nTime - timePenalty), 0, 0, 0, 0));
        nNew := nNew + 1;
        AnnounceNew(m, addr, source, timePenalty, now);
        ProceedsNew(m, addr, source, timePenalty, now, coin);
      }
      proceed := true;
    }

    /** `Add`. `now` is the adjusted time, `coin` the outcome of the stochastic test. */
    method Add(addr: Announced, source: NetAddr, timePenaltyIn: int, now: int, coin: bool) returns (isNew: bool)
      requires Valid() && Consistent(P, Model()) && nIdCount >= 0
      modifies this, vvNew
      ensures CanAdd(P, old(Model()), addr, source, timePenaltyIn, now, coin)
      ensures (Model(), isNew) == AddrManRun.Add(P, old(Model()), addr, source, timePenaltyIn, now, coin) && Consistent(P, Model())
    {
      hide Table, Consistent, CanPlace, Place, ValidParams, Announce, MayInsert, TargetSlot, Proceeds, Found, AnnouncedId;
      ghost var m := Model();
      AddKeeps(P, m, addr, source, timePenaltyIn, now, coin);
      if !P.routable(addr.service.ip) {
        return false;
      }
      var timePenalty := if addr.service.ip == source then 0 else timePenaltyIn;
      var id, proceed;
      isNew, id, proceed := Prepare(addr, source, timePenalty, now, coin);
      if !proceed {
        ProceedsIfNew(m, addr, source, timePenalty, now, coin);
        return;
      }
      TargetShape(P, m, addr, source, timePenalty, now);
      AnnounceKeepsKey(m, addr, source, timePenalty, now);
      var newBucket := P.newBucketOf(nKey, mapInfo[id].service, source);
      var newPos := P.positionOf(nKey, true, newBucket, mapInfo[id].service);
      PlaceAt(id, newBucket, newPos, now);
    }

    /** The last part of `Add`: whether and where the entry goes into the new table. */
    method PlaceAt(id: Id, newBucket: nat, newPos: nat, now: int)
      requires Valid() && newBucket < P.newBuckets && newPos < P.bucketSize && id != FREE
      requires CanPlace(Model(), id, Slot(newBucket, newPos), now)
      requires Slot(newBucket, newPos) in Model().vvNew ==> Model().vvNew[Slot(newBucket, newPos)] in mapInfo
      modifies this, vvNew
      ensures Model() == Place(old(Model()), id, Slot(newBucket, newPos), now)
    {
      hide Table, ValidParams, CanClear, AddrManOps.ClearNew, CanDelete, AddrManModel.Delete;
      TableAt(vvNew, newBucket, newPos);
      if vvNew[newBucket, newPos] != id {
        var insert := vvNew[newBucket, newPos] == FREE;
        if !insert {
          var infoExisting := mapInfo[vvNew[newBucket, newPos]];
          if IsTerrible(infoExisting.stats, now) || (infoExisting.nRefCount > 1 && mapInfo[id].nRefCount == 0) {
            insert := true;
          }
        }
        if insert {
          ClearNew(newBucket, newPos);
          mapInfo := mapInfo[id := mapInfo[id].(nRefCount := mapInfo[id].nRefCount + 1)];
          Put(vvNew, newBucket, newPos, id);
        } else {
          if mapInfo[id].nRefCount == 0 {
            Delete(id);
          }
        }
      }
    }

    /** `GetAddr`: shuffle from the front, taking what is not terrible, up to 23% and 2500 entries.
        `picks` are the random positions it drew. */
    method GetAddr(now: int) returns (addrs: seq<AddrInfo>, ghost picks: seq<nat>)
      requires Consistent(P, Model())
      modifies this`mapInfo, this`vRandom
      ensures CanShuffle(old(Model()), 0, picks) && Model() == Shuffle(old(Model()), 0, picks)
      ensures |picks| <= |vRandom| && (forall k :: 0 <= k < |picks| ==> k <= picks[k] < |vRandom|)
      ensures Consistent(P, Model())
      ensures |addrs| <= GETADDR_MAX && |addrs| * 100 <= GETADDR_MAX_PCT * |vRandom|
      ensures forall i :: 0 <= i < |addrs| ==> !IsTerrible(addrs[i].stats, now) && Knows(Model(), addrs[i].service)
      ensures forall i, j :: 0 <= i < j < |addrs| ==> addrs[i].service.ip != addrs[j].service.ip
    {
      hide Table, Consistent, CanShuffle, Shuffle, AddrManModel.SwapRandom, CanSwap, IsTerrible, Knows, Picked;
      ghost var m := Model();
      var limit := GETADDR_MAX_PCT * |vRandom| / 100;
      if limit > GETADDR_MAX {
        limit := GETADDR_MAX;
      }
      addrs, picks := [], [];
      ghost var from: seq<nat> := [];
      ShuffleNothing(m);
      PickedNothing(m, now);
      var n := 0;
      while n < |vRandom| && |addrs| < limit
        invariant 0 <= n == |picks| <= |vRandom| == |old(vRandom)|
        invariant |addrs| <= limit
        invariant CanShuffle(m, 0, picks) && Model() == Shuffle(m, 0, picks) && Consistent(P, Model())
        invariant forall k :: 0 <= k < |picks| ==> k <= picks[k] < |vRandom|
        invariant Picked(Model(), now, addrs, from, n)
        decreases |old(vRandom)| - n
      {
        var pick: nat :| n <= pick < |vRandom|;
        ghost var u := Model();
        SwapConsistent(P, u, n, pick);
        ShuffleAppend(m, 0, picks, pick);
        PickedStable(u, now, addrs, from, n, pick);
        SwapRandom(n, pick);
        picks := picks + [pick];
        RandomIsKnown(P, Model(), n);
        var ai := mapInfo[vRandom[n]];
        PickedMore(Model(), now, addrs, from, n, ai);
        if !IsTerrible(ai.stats, now) {
          addrs := addrs + [ai];
          from := from + [n];
        }
        n := n + 1;
      }
      PickedDistinct(P, Model(), now, addrs, from, n);
    }
  }

  /** What `GetAddr` has taken so far, and from which positions of the random order. */
  ghost predicate Picked(m: AddrMan, now: int, addrs: seq<AddrInfo>, from: seq<nat>, n: nat) {
    && |from| == |addrs| && n <= |m.vRandom|
    && (forall i :: 0 <= i < |from| ==>
          && from[i] < n && m.vRandom[from[i]] in m.mapInfo
          && SameEntry(addrs[i], m.mapInfo[m.vRandom[from[i]]]) && !IsTerrible(addrs[i].stats, now))
    && (forall i, j :: 0 <= i < j < |from| ==> from[i] < from[j])
  }

  lemma ShuffleNothing(m: AddrMan)
    ensures CanShuffle(m, 0, []) && Shuffle(m, 0, []) == m
  {
  }

  lemma PickedNothing(m: AddrMan, now: int)
    ensures Picked(m, now, [], [], 0)
  {
  }

  lemma {:induction false} ShuffleAppend(m: AddrMan, n: nat, picks: seq<nat>, x: nat)
    requires CanShuffle(m, n, picks) && CanSwap(Shuffle(m, n, picks), n + |picks|, x)
    ensures CanShuffle(m, n, picks + [x])
    ensures Shuffle(m, n, picks + [x]) == AddrManModel.SwapRandom(Shuffle(m, n, picks), n + |picks|, x)
    decreases picks
  {
    hide CanSwap, AddrManModel.SwapRandom;
    if picks == [] {
      ShuffleOne(m, n, x);
      assert [] + [x] == [x];
    } else {
      ShuffleAppend(AddrManModel.SwapRandom(m, n, picks[0]), n + 1, picks[1..], x);
      assert (picks + [x])[1..] == picks[1..] + [x];
    }
  }

  lemma ShuffleOne(m: AddrMan, n: nat, x: nat)
    requires CanSwap(m, n, x)
    ensures CanShuffle(m, n, [x]) && Shuffle(m, n, [x]) == AddrManModel.SwapRandom(m, n, x)
  {
    assert CanShuffle(AddrManModel.SwapRandom(m, n, x), n + 1, []);
  }

  /** Later swaps leave what was taken in place. */
  lemma PickedStable(m: AddrMan, now: int, addrs: seq<AddrInfo>, from: seq<nat>, n: nat, j: nat)
    requires Picked(m, now, addrs, from, n) && CanSwap(m, n, j) && n <= j
    ensures Picked(AddrManModel.SwapRandom(m, n, j), now, addrs, from, n)
  {
    hide IsTerrible;
  }

  lemma PickedMore(m: AddrMan, now: int, addrs: seq<AddrInfo>, from: seq<nat>, n: nat, ai: AddrInfo)
    requires Picked(m, now, addrs, from, n) && n < |m.vRandom| && m.vRandom[n] in m.mapInfo && ai == m.mapInfo[m.vRandom[n]]
    ensures Picked(m, now, addrs, from, n + 1)
    ensures !IsTerrible(ai.stats, now) ==> Picked(m, now, addrs + [ai], from + [n], n + 1)
  {
    hide IsTerrible;
  }

  lemma RandomIsKnown(P: Params, m: AddrMan, n: nat)
    requires Consistent(P, m) && n < |m.vRandom|
    ensures m.vRandom[n] in m.mapInfo
  {
  }

  lemma PickedDistinct(P: Params, m: AddrMan, now: int, addrs: seq<AddrInfo>, from: seq<nat>, n: nat)
    requires Consistent(P, m) && Picked(m, now, addrs, from, n)
    ensures forall i :: 0 <= i < |addrs| ==> !IsTerrible(addrs[i].stats, now) && Knows(m, addrs[i].service)
    ensures forall i, j :: 0 <= i < j < |addrs| ==> addrs[i].service.ip != addrs[j].service.ip
  {
    hide IsTerrible, IdsOk, NewTableOk, TriedTableOk, EntriesOk, TriedIds, NewIds;
    forall i | 0 <= i < |addrs|
      ensures Knows(m, addrs[i].service) && m.mapAddr[addrs[i].service.ip] == m.vRandom[from[i]]
    {
      var id := m.vRandom[from[i]];
      assert m.mapAddr[m.mapInfo[id].service.ip] == id;
    }
    forall i, j | 0 <= i < j < |addrs|
      ensures addrs[i].service.ip != addrs[j].service.ip
    {
      assert m.mapInfo[m.vRandom[from[i]]].nRandomPos == from[i];
    }
  }

  /** How `Add` refreshes the statistics of an entry it already has. */
  method Refresh(before: Stats, addr: Announced, timePenalty: int, now: int) returns (stats: Stats)
    ensures stats == RefreshStats(before, addr, timePenalty, now)
  {
    stats := before;
    var online := now - addr.nTime < 24 * 60 * 60;
    var interval := if online then 60 * 60 else 24 * 60 * 60;
    if addr.nTime != 0 && (stats.nTime == 0 || stats.nTime < addr.nTime - interval - timePenalty) {
      stats := stats.(nTime := Max(0, addr.nTime - timePenalty));
    }
    stats := stats.(nServices := stats.nServices + addr.nServices);
  }

  lemma AnnounceOld(m: AddrMan, addr: Announced, source: NetAddr, penalty: int, now: int)
    requires Found(m, addr.service.ip)
    ensures var id := m.mapAddr[addr.service.ip];
            Announce(m, addr, source, penalty, now) == WithInfo(m, id, m.mapInfo[id].(stats := RefreshStats(m.mapInfo[id].stats, addr, penalty, now)))
  {
  }

  lemma AnnounceNew(m: AddrMan, addr: Announced, source: NetAddr, penalty: int, now: int)
    requires !Found(m, addr.service.ip)
    ensures var w := AddrManModel.Create(m, addr.service, source, Stats(addr.nServices, Max(0, addr.nTime - penalty), 0, 0, 0, 0));
            Announce(m, addr, source, penalty, now) == w.(nNew := w.nNew + 1)
  {
  }

  lemma ProceedsOld(m: AddrMan, addr: Announced, source: NetAddr, penalty: int, now: int, coin: bool)
    requires Found(m, addr.service.ip)
    ensures var info := m.mapInfo[m.mapAddr[addr.service.ip]];
            Proceeds(m, addr, source, penalty, now, coin)
            <==> WantsSlot(info.(stats := RefreshStats(info.stats, addr, penalty, now)), addr, coin)
  {
  }

  lemma ProceedsNew(m: AddrMan, addr: Announced, source: NetAddr, penalty: int, now: int, coin: bool)
    requires !Found(m, addr.service.ip)
    ensures Proceeds(m, addr, source, penalty, now, coin)
  {
  }

  lemma ProceedsIfNew(m: AddrMan, addr: Announced, source: NetAddr, penalty: int, now: int, coin: bool)
    ensures !Found(m, addr.service.ip) ==> Proceeds(m, addr, source, penalty, now, coin)
  {
  }

  lemma AnnounceKeepsKey(m: AddrMan, addr: Announced, source: NetAddr, penalty: int, now: int)
    ensures Announce(m, addr, source, penalty, now).nKey == m.nKey
  {
  }

  lemma TargetShape(P: Params, m: AddrMan, addr: Announced, source: NetAddr, penalty: int, now: int)
    requires ValidParams(P) && Consistent(P, m) && m.nIdCount >= 0
    ensures AnnouncedId(m, addr) in Announce(m, addr, source, penalty, now).mapInfo && AnnouncedId(m, addr) != FREE
    ensures var u := Announce(m, addr, source, penalty, now);
            var service := u.mapInfo[AnnouncedId(m, addr)].service;
            var bucket := P.newBucketOf(m.nKey, service, source);
            var s := TargetSlot(P, m, addr, source, penalty, now);
            && s == Slot(bucket, P.positionOf(m.nKey, true, bucket, service))
            && s.bucket < P.newBuckets && s.pos < P.bucketSize
            && (s in u.vvNew ==> u.vvNew[s] in u.mapInfo)
  {
    AnnouncedIsThere(m, addr, source, penalty, now);
    NewTableIds(P, m);
    if Found(m, addr.service.ip) {
      IdIsNotFree(P, m, m.mapAddr[addr.service.ip]);
    }
  }

  lemma NewTableIds(P: Params, m: AddrMan)
    requires Consistent(P, m)
    ensures forall s :: s in m.vvNew ==> m.vvNew[s] in m.mapInfo
  {
  }

  /** The slots the loop of `MakeTried` has emptied so far. */
  ghost function OwnSlotsBelow(P: Params, m: AddrMan, id: Id, bucket: nat): set<Slot>
    requires id in m.mapInfo
  {
    set s | s in OwnSlots(P, m, id) && s.bucket < bucket
  }

  /** The new table and the reference count once an entry is off the first buckets. */
  ghost predicate OffBelow(P: Params, m: AddrMan, id: Id, bucket: nat, table: map<Slot, Id>, refs: int) {
    id in m.mapInfo && table == m.vvNew - OwnSlotsBelow(P, m, id, bucket) && refs == m.mapInfo[id].nRefCount - |OwnSlotsBelow(P, m, id, bucket)|
  }

  lemma OffNone(P: Params, m: AddrMan, id: Id)
    requires id in m.mapInfo
    ensures OffBelow(P, m, id, 0, m.vvNew, m.mapInfo[id].nRefCount)
  {
    assert OwnSlotsBelow(P, m, id, 0) == {};
  }

  lemma OffStep(P: Params, m: AddrMan, id: Id, bucket: nat, table: map<Slot, Id>, refs: int)
    requires OffBelow(P, m, id, bucket, table, refs) && bucket < P.newBuckets
    ensures var s := NewSlot(P, m.nKey, m.mapInfo[id].service, bucket);
            if s in table && table[s] == id then OffBelow(P, m, id, bucket + 1, table - {s}, refs - 1)
            else OffBelow(P, m, id, bucket + 1, table, refs)
  {
    hide NewSlot, OwnSlots, OwnSlotsBelow;
    OwnSlotsBelowNext(P, m, id, bucket);
    RemoveOneMore(m.vvNew, OwnSlotsBelow(P, m, id, bucket), NewSlot(P, m.nKey, m.mapInfo[id].service, bucket));
  }

  lemma OffAll(P: Params, m: AddrMan, id: Id, table: map<Slot, Id>, refs: int)
    requires OffBelow(P, m, id, P.newBuckets, table, refs)
    ensures Detach(P, m, id) == WithInfo(m, id, m.mapInfo[id].(nRefCount := refs)).(vvNew := table)
  {
    hide OwnSlots, OwnSlotsBelow;
    OwnSlotsBelowAll(P, m, id);
  }

  lemma RemoveOneMore(t: map<Slot, Id>, gone: set<Slot>, s: Slot)
    requires s !in gone
    ensures t - gone - {s} == t - (gone + {s}) && |gone + {s}| == |gone| + 1
  {
  }

  lemma NewSlotShape(P: Params, key: Key, a: Service, bucket: nat)
    ensures NewSlot(P, key, a, bucket) == Slot(bucket, P.positionOf(key, true, bucket, a))
  {
  }

  lemma OwnSlotsBelowNext(P: Params, m: AddrMan, id: Id, bucket: nat)
    requires id in m.mapInfo && bucket < P.newBuckets
    ensures var s := NewSlot(P, m.nKey, m.mapInfo[id].service, bucket);
            && s !in OwnSlotsBelow(P, m, id, bucket)
            && OwnSlotsBelow(P, m, id, bucket + 1)
               == OwnSlotsBelow(P, m, id, bucket) + if s in m.vvNew && m.vvNew[s] == id then {s} else {}
  {
  }

  lemma OwnSlotsBelowAll(P: Params, m: AddrMan, id: Id)
    requires id in m.mapInfo
    ensures OwnSlotsBelow(P, m, id, P.newBuckets) == OwnSlots(P, m, id)
  {
  }

  lemma IdIsNotFree(P: Params, m: AddrMan, id: Id)
    requires Consistent(P, m) && id in m.mapInfo
    ensures id != FREE
  {
  }

  lemma TriedSlotShape(P: Params, key: Key, a: Service)
    requires ValidParams(P)
    ensures TriedSlot(P, key, a) == Slot(P.triedBucketOf(key, a), P.positionOf(key, false, P.triedBucketOf(key, a), a))
    ensures TriedSlot(P, key, a).bucket < P.triedBuckets && TriedSlot(P, key, a).pos < P.bucketSize
  {
  }

  lemma VacateShape(P: Params, u: AddrMan, s: Slot)
    requires s in u.vvTried ==> CanEvict(P, u, u.vvTried[s])
    ensures Vacate(P, u, s) == if s in u.vvTried then Evict(P, u, u.vvTried[s]) else u
  {
  }

  /** The entry in the way is a tried one, with no references once its new slot is cleared. */
  lemma EvictIsReady(P: Params, u: AddrMan, id: Id, s: Slot)
    requires ValidParams(P) && InTransit(P, u, id) && s in u.vvTried
    ensures var other := u.vvTried[s];
            && CanEvict(P, u, other) && other in u.mapInfo && other != FREE
            && CanClear(LeaveTried(P, u, other), HomeSlot(P, u, other))
            && other in AddrManOps.ClearNew(LeaveTried(P, u, other), HomeSlot(P, u, other)).mapInfo
            && AddrManOps.ClearNew(LeaveTried(P, u, other), HomeSlot(P, u, other)).mapInfo[other].nRefCount == 0
  {
    hide *;
    InTransitParts(P, u, id);
    InTableIsTried(P, u, {id}, s);
    EvictClears(P, u, id, u.vvTried[s]);
    EvictShape(P, u, u.vvTried[s]);
    LinkedIdIsNotFree(P, u, {id}, u.vvTried[s]);
  }

  lemma LinkedIdIsNotFree(P: Params, m: AddrMan, floating: set<Id>, id: Id)
    requires Linked(P, m, floating) && id in m.mapInfo
    ensures id != FREE
  {
  }

  lemma PositionFits(P: Params, key: Key, bucket: nat, a: Service)
    requires ValidParams(P)
    ensures P.positionOf(key, true, bucket, a) < P.bucketSize
  {
  }

  /** The `k`th bucket of a walk that starts somewhere and wraps around. */
  function Rotated(k: nat, start: nat, count: nat): (r: nat)
    requires count > 0
    ensures r < count
  {
    (k + start) % count
  }

  /** Walking all buckets from any start visits every bucket. */
  lemma RotationReaches(bucket: nat, start: nat, count: nat) returns (k: nat)
    requires bucket < count && start < count
    ensures k < count && Rotated(k, start, count) == bucket
  {
    if bucket >= start {
      k := bucket - start;
      Powers.DivUnique(k + start, count, 0, bucket);
    } else {
      k := bucket - start + count;
      Powers.DivUnique(k + start, count, 1, bucket);
    }
  }
}
