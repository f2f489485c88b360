/**
 The address manager as its callers see it: add, good, attempt, connected, set
 services and getaddr. Every run of them, from an empty manager, keeps the
 structural part of `Check_`.
 */
module AddrManRun {
  import opened Basics
  import opened AddrManModel
  import opened AddrManOps

  const HORIZON_DAYS := 30
  const RETRIES := 3
  const MAX_FAILURES := 10
  const MIN_FAIL_DAYS := 7

  /** `IsTerrible`. */
  predicate IsTerrible(stats: Stats, now: int) {
    if stats.nLastTry != 0 && stats.nLastTry >= now - 60 then false
    else
      || stats.nTime > now + 10 * 60
      || stats.nTime == 0
      || now - stats.nTime > HORIZON_DAYS * 24 * 60 * 60
      || (stats.nLastSuccess == 0 && stats.nAttempts >= RETRIES)
      || (now - stats.nLastSuccess > MIN_FAIL_DAYS * 24 * 60 * 60 && stats.nAttempts >= MAX_FAILURES)
  }

  // ----- good -----

  /** Whether the manager knows exactly this address and port. */
  predicate Knows(m: AddrMan, service: Service) {
    Found(m, service.ip) && m.mapInfo[m.mapAddr[service.ip]].service == service
  }

  function GoodStats(stats: Stats, nTime: int): Stats {
    stats.(nLastSuccess := nTime, nLastTry := nTime, nAttempts := 0)
  }

  /** The manager once the time of a good connection is noted. */
  function NoteGood(m: AddrMan, service: Service, nTime: int): AddrMan {
    var m := m.(nLastGood := nTime);
    if !Knows(m, service) then m else
    var id := m.mapAddr[service.ip];
    WithInfo(m, id, m.mapInfo[id].(stats := GoodStats(m.mapInfo[id].stats, nTime)))
  }

  predicate CanGood(P: Params, m: AddrMan, service: Service, nTime: int) {
    var u := NoteGood(m, service, nTime);
    Knows(u, service) && !u.mapInfo[u.mapAddr[service.ip]].fInTried && OwnSlots(P, u, u.mapAddr[service.ip]) != {} ==>
      CanMakeTried(P, u, u.mapAddr[service.ip])
  }

  /** `Good_`: an entry not yet tried is moved to the tried table, if it can be found in the new one. */
  function Good(P: Params, m: AddrMan, service: Service, nTime: int): AddrMan
    requires CanGood(P, m, service, nTime)
  {
    var u := NoteGood(m, service, nTime);
    if !Knows(u, service) then u else
    var id := u.mapAddr[service.ip];
    if u.mapInfo[id].fInTried || OwnSlots(P, u, id) == {} then u else MakeTried(P, u, id)
  }

  lemma LastGoodKeeps(P: Params, m: AddrMan, nTime: int)
    requires Consistent(P, m)
    ensures Consistent(P, m.(nLastGood := nTime))
  {
    hide NewSlot, TriedSlot, SlotsOf;
    var w := m.(nLastGood := nTime);
    assert TriedIds(w) == TriedIds(m) && NewIds(w) == NewIds(m);
    forall id | id in w.mapInfo
      ensures EntryOk(P, w, {}, id)
    {
      assert EntryOk(P, m, {}, id);
    }
  }

  /** Statistics may change without the tables noticing. */
  lemma RestatConsistent(P: Params, m: AddrMan, id: Id, stats: Stats)
    requires Consistent(P, m) && id in m.mapInfo
    ensures Consistent(P, WithInfo(m, id, m.mapInfo[id].(stats := stats)))
  {
    hide Linked, TriedIds, NewIds;
    RestatKeeps(P, m, {}, id, stats);
  }

  lemma NoteGoodKeeps(P: Params, m: AddrMan, service: Service, nTime: int)
    requires Consistent(P, m)
    ensures Consistent(P, NoteGood(m, service, nTime))
    ensures Knows(NoteGood(m, service, nTime), service) <==> Knows(m, service)
    ensures NoteGood(m, service, nTime).mapAddr == m.mapAddr
  {
    hide Consistent;
    LastGoodKeeps(P, m, nTime);
    if Knows(m, service) {
      var id := m.mapAddr[service.ip];
      RestatConsistent(P, m.(nLastGood := nTime), id, GoodStats(m.mapInfo[id].stats, nTime));
    }
  }

  /** A consistent manager always finds a new entry in the new table: the "something bad happened"
      exit of `Good_` is dead. */
  lemma NewEntryIsInTable(P: Params, m: AddrMan, id: Id)
    requires Consistent(P, m) && id in m.mapInfo && !m.mapInfo[id].fInTried
    ensures OwnSlots(P, m, id) != {}
  {
    hide NewSlot, TriedSlot, RandomOk, IndexOk, IdsOk;
    OwnSlotsAreAll(P, m, id);
    assert EntryOk(P, m, {}, id);
  }

  /** `Good` keeps the manager consistent; the address, if known with its port, ends up tried. */
  lemma GoodKeeps(P: Params, m: AddrMan, service: Service, nTime: int)
    requires ValidParams(P) && Consistent(P, m)
    ensures CanGood(P, m, service, nTime)
    ensures var w := Good(P, m, service, nTime);
            && Consistent(P, w)
            && (Knows(m, service) ==> m.mapAddr[service.ip] in w.mapInfo && w.mapInfo[m.mapAddr[service.ip]].fInTried)
  {
    hide Consistent, ValidParams, OwnSlots, MakeTried, CanMakeTried, NoteGood;
    NoteGoodKeeps(P, m, service, nTime);
    var u := NoteGood(m, service, nTime);
    if Knows(u, service) {
      var id := u.mapAddr[service.ip];
      if !u.mapInfo[id].fInTried {
        NewEntryIsInTable(P, u, id);
        MakeTriedKeeps(P, u, id);
      }
    }
  }

  // ----- add -----

  /** What another entry in the way must be like for a newcomer to take its slot. */
  predicate Yields(existing: AddrInfo, newcomer: AddrInfo, now: int) {
    IsTerrible(existing.stats, now) || (existing.nRefCount > 1 && newcomer.nRefCount == 0)
  }

  predicate MayInsert(m: AddrMan, id: Id, s: Slot, now: int)
    requires id in m.mapInfo
  {
    s !in m.vvNew || (m.vvNew[s] in m.mapInfo && Yields(m.mapInfo[m.vvNew[s]], m.mapInfo[id], now))
  }

  predicate CanPlace(m: AddrMan, id: Id, s: Slot, now: int) {
    id in m.mapInfo &&
    (if s in m.vvNew && m.vvNew[s] == id then true
     else if MayInsert(m, id, s, now) then CanClear(m, s) && id in ClearNew(m, s).mapInfo
     else m.mapInfo[id].nRefCount == 0 ==> CanDelete(m, id))
  }

  /** The second half of `Add_`: put the entry in the slot its source points at, if the slot is free
      or yields; an entry that has no slot at all by then is forgotten again. */
  function Place(m: AddrMan, id: Id, s: Slot, now: int): AddrMan
    requires CanPlace(m, id, s, now)
  {
    if s in m.vvNew && m.vvNew[s] == id then m
    else if MayInsert(m, id, s, now) then Attach(ClearNew(m, s), id, s)
    else if m.mapInfo[id].nRefCount == 0 then Delete(m, id)
    else m
  }

  /** The entries a placement starts from: an old one, or a new one that floats. */
  function Fresh(m: AddrMan, id: Id): set<Id>
    requires id in m.mapInfo
  {
    if m.mapInfo[id].nRefCount == 0 then {id} else {}
  }

  lemma InsertKeeps(P: Params, m: AddrMan, id: Id, s: Slot)
    requires id in m.mapInfo && Linked(P, m, Fresh(m, id)) && !m.mapInfo[id].fInTried && m.mapInfo[id].nRefCount < 8
    requires s.bucket < P.newBuckets && s == NewSlot(P, m.nKey, m.mapInfo[id].service, s.bucket)
    requires m.nTried == |TriedIds(m)| && MissingNew(m) == 0 && !(s in m.vvNew && m.vvNew[s] == id)
    ensures CanClear(m, s) && id in ClearNew(m, s).mapInfo
    ensures var w := Attach(ClearNew(m, s), id, s);
            Consistent(P, w) && id in w.mapInfo && w.mapInfo[id].service == m.mapInfo[id].service && w.nIdCount == m.nIdCount
  {
    hide *;
    FreshShape(m, id);
    if id in Fresh(m, id) {
      FloatingIsNew(P, m, Fresh(m, id), id);
    }
    ClearNewKeeps(P, m, Fresh(m, id), s);
    var u := ClearNew(m, s);
    if s in m.vvNew {
      TouchedEntry(P, m, u, m.vvNew[s], id);
      SameEntryAll(u.mapInfo[id], m.mapInfo[id]);
    }
    LimitIsEight();
    AttachKeeps(P, u, Fresh(m, id), id, s);
    AttachShape(P, u, id, s);
    var w := Attach(u, id, s);
    assert Fresh(m, id) - {id} == {};
    SameMissing(u, w);
    ConsistentWhole(P, w);
  }

  lemma SameEntryAll(a: AddrInfo, b: AddrInfo)
    requires SameEntry(a, b)
    ensures a.service == b.service && a.source == b.source && a.nRefCount == b.nRefCount && a.fInTried == b.fInTried
  {
  }

  lemma FreshShape(m: AddrMan, id: Id)
    requires id in m.mapInfo
    ensures Fresh(m, id) == (if m.mapInfo[id].nRefCount == 0 then {id} else {}) && Fresh(m, id) - {id} == {}
  {
  }

  lemma ForgetKeeps(P: Params, m: AddrMan, id: Id)
    requires id in m.mapInfo && Linked(P, m, {id}) && m.nTried == |TriedIds(m)| && MissingNew(m) == 0
    ensures CanDelete(m, id)
    ensures var w := Delete(m, id); Consistent(P, w) && id !in w.mapInfo && w.nIdCount == m.nIdCount
  {
    hide *;
    FloatingIsNew(P, m, {id}, id);
    DeleteKeeps(P, m, {id}, id);
    var w := Delete(m, id);
    DropCounts(m, w, id);
    DropShape(m, w, id);
    assert {id} - {id} == {};
    ConsistentWhole(P, w);
  }

  lemma DropShape(m: AddrMan, w: AddrMan, id: Id)
    requires DropsOnly(m, w, id)
    ensures id !in w.mapInfo && w.nTried == m.nTried && w.nIdCount == m.nIdCount
  {
  }

  lemma OwnSlotHasReference(P: Params, m: AddrMan, floating: set<Id>, s: Slot)
    requires Linked(P, m, floating) && s in m.vvNew
    ensures m.vvNew[s] in m.mapInfo && m.mapInfo[m.vvNew[s]].nRefCount > 0
  {
    hide *;
    ReleaseKeeps(P, m, floating, s);
  }

  /** A placement keeps the manager consistent, and exactly says when the entry survives it. */
  lemma PlaceKeeps(P: Params, m: AddrMan, id: Id, s: Slot, now: int)
    requires id in m.mapInfo && Linked(P, m, Fresh(m, id)) && !m.mapInfo[id].fInTried && m.mapInfo[id].nRefCount < 8
    requires s.bucket < P.newBuckets && s == NewSlot(P, m.nKey, m.mapInfo[id].service, s.bucket)
    requires m.nTried == |TriedIds(m)| && MissingNew(m) == 0
    ensures CanPlace(m, id, s, now)
    ensures var w := Place(m, id, s, now);
            && Consistent(P, w) && w.nIdCount == m.nIdCount
            && (id in w.mapInfo <==> m.mapInfo[id].nRefCount > 0 || MayInsert(m, id, s, now))
  {
    hide Linked, NewSlot, Consistent, CanClear, ClearNew, CanDelete, Delete, Attach, MissingNew, TriedIds, Yields, MayInsert;
    if s in m.vvNew {
      OwnSlotHasReference(P, m, Fresh(m, id), s);
    }
    if s in m.vvNew && m.vvNew[s] == id {
      ConsistentWhole(P, m);
    } else if MayInsert(m, id, s, now) {
      InsertKeeps(P, m, id, s);
    } else if m.mapInfo[id].nRefCount == 0 {
      ForgetKeeps(P, m, id);
    } else {
      NewHasReferences(P, m, id);
      ConsistentWhole(P, m);
    }
  }

  lemma NewHasReferences(P: Params, m: AddrMan, id: Id)
    requires id in m.mapInfo && Linked(P, m, {}) && !m.mapInfo[id].fInTried
    ensures m.mapInfo[id].nRefCount > 0
  {
    assert EntryOk(P, m, {}, id);
  }

  /** An announced address (`CAddress`). */
  datatype Announced = Announced(service: Service, nServices: set<nat>, nTime: int)

  /** A source's announcement of itself carries no penalty. */
  function Penalty(addr: Announced, source: NetAddr, timePenalty: int): int {
    if addr.service.ip == source then 0 else timePenalty
  }

  /** The statistics of a known address once it is announced again. */
  function RefreshStats(stats: Stats, addr: Announced, penalty: int, now: int): Stats {
    var interval := if now - addr.nTime < 24 * 60 * 60 then 60 * 60 else 24 * 60 * 60;
    stats.(nServices := stats.nServices + addr.nServices,
           nTime := if addr.nTime != 0 && (stats.nTime == 0 || stats.nTime < addr.nTime - interval - penalty)
                    then Max(0, addr.nTime - penalty) else stats.nTime)
  }

  /** Whether a known entry, with refreshed statistics, is offered one more slot. `coin` is the
      outcome of the stochastic test, which an entry without references passes by itself. */
  predicate WantsSlot(info: AddrInfo, addr: Announced, coin: bool) {
    && addr.nTime != 0 && (info.stats.nTime == 0 || addr.nTime > info.stats.nTime)
    && !info.fInTried
    && info.nRefCount != NEW_BUCKETS_PER_ADDRESS
    && (info.nRefCount <= 0 || coin)
  }

  function FirstStats(addr: Announced, penalty: int): Stats {
    Stats(addr.nServices, Max(0, addr.nTime - penalty), 0, 0, 0, 0)
  }

  /** The manager before `Add_` looks for a slot. */
  function Announce(m: AddrMan, addr: Announced, source: NetAddr, penalty: int, now: int): AddrMan {
    if Found(m, addr.service.ip) then
      var id := m.mapAddr[addr.service.ip];
      WithInfo(m, id, m.mapInfo[id].(stats := RefreshStats(m.mapInfo[id].stats, addr, penalty, now)))
    else
      var w := Create(m, addr.service, source, FirstStats(addr, penalty));
      w.(nNew := w.nNew + 1)
  }

  function AnnouncedId(m: AddrMan, addr: Announced): Id {
    if Found(m, addr.service.ip) then m.mapAddr[addr.service.ip] else m.nIdCount
  }

  lemma AnnouncedIsThere(m: AddrMan, addr: Announced, source: NetAddr, penalty: int, now: int)
    ensures AnnouncedId(m, addr) in Announce(m, addr, source, penalty, now).mapInfo
  {
  }

  /** The slot that `Add_` tries. */
  function TargetSlot(P: Params, m: AddrMan, addr: Announced, source: NetAddr, penalty: int, now: int): Slot {
    AnnouncedIsThere(m, addr, source, penalty, now);
    var u := Announce(m, addr, source, penalty, now);
    SourceSlot(P, m.nKey, u.mapInfo[AnnouncedId(m, addr)].service, source)
  }

  predicate Proceeds(m: AddrMan, addr: Announced, source: NetAddr, penalty: int, now: int, coin: bool) {
    AnnouncedIsThere(m, addr, source, penalty, now);
    !Found(m, addr.service.ip)
    || WantsSlot(Announce(m, addr, source, penalty, now).mapInfo[AnnouncedId(m, addr)], addr, coin)
  }

  predicate CanAdd(P: Params, m: AddrMan, addr: Announced, source: NetAddr, timePenalty: int, now: int, coin: bool) {
    var penalty := Penalty(addr, source, timePenalty);
    P.routable(addr.service.ip) && Proceeds(m, addr, source, penalty, now, coin) ==>
      CanPlace(Announce(m, addr, source, penalty, now), AnnouncedId(m, addr), TargetSlot(P, m, addr, source, penalty, now), now)
  }

  /** `Add_`, as the manager it leaves and whether it reports a new address. */
  function Add(P: Params, m: AddrMan, addr: Announced, source: NetAddr, timePenalty: int, now: int, coin: bool): (AddrMan, bool)
    requires CanAdd(P, m, addr, source, timePenalty, now, coin)
  {
    if !P.routable(addr.service.ip) then (m, false) else
    var penalty := Penalty(addr, source, timePenalty);
    var u := Announce(m, addr, source, penalty, now);
    if !Proceeds(m, addr, source, penalty, now, coin) then (u, false) else
    (Place(u, AnnouncedId(m, addr), TargetSlot(P, m, addr, source, penalty, now), now), !Found(m, addr.service.ip))
  }

  lemma FoundById(P: Params, m: AddrMan, ip: NetAddr)
    requires Consistent(P, m)
    ensures Found(m, ip) <==> ip in m.mapAddr
  {
    hide RandomOk, IdsOk, NewTableOk, TriedTableOk, EntriesOk;
  }

  lemma AnnounceNewKeeps(P: Params, m: AddrMan, addr: Announced, source: NetAddr, penalty: int, now: int)
    requires Consistent(P, m) && !Found(m, addr.service.ip) && m.nIdCount >= 0
    ensures var u, id := Announce(m, addr, source, penalty, now), m.nIdCount;
            && id in u.mapInfo && !u.mapInfo[id].fInTried && u.mapInfo[id].nRefCount == 0
            && Linked(P, u, Fresh(u, id)) && u.nTried == |TriedIds(u)| && MissingNew(u) == 0 && u.nIdCount == m.nIdCount + 1 && u.nKey == m.nKey
  {
    hide Consistent, Linked, TriedIds, NewIds, RefreshStats, FirstStats;
    FoundById(P, m, addr.service.ip);
    ConsistentParts(P, m);
    CreateKeeps(P, m, {}, addr.service, source, FirstStats(addr, penalty));
    assert {} + {m.nIdCount} == {m.nIdCount};
    var w := Create(m, addr.service, source, FirstStats(addr, penalty));
    BumpNew(P, w, {m.nIdCount}, w.nNew + 1);
    NewIdNotThere(m);
  }

  lemma NewIdNotThere(m: AddrMan)
    requires m.nIdCount !in m.mapInfo
    ensures |NewIds(m) + {m.nIdCount}| == |NewIds(m)| + 1
  {
  }

  lemma AnnounceOldKeeps(P: Params, m: AddrMan, addr: Announced, source: NetAddr, penalty: int, now: int)
    requires Consistent(P, m) && Found(m, addr.service.ip)
    ensures var u, id := Announce(m, addr, source, penalty, now), m.mapAddr[addr.service.ip];
            && Consistent(P, u) && id in u.mapInfo && u.nIdCount == m.nIdCount && u.nKey == m.nKey
            && (!u.mapInfo[id].fInTried ==> u.mapInfo[id].nRefCount > 0 && Fresh(u, id) == {} && u.mapInfo[id].nRefCount <= 8)
  {
    hide Consistent, RefreshStats;
    var id := m.mapAddr[addr.service.ip];
    RestatConsistent(P, m, id, RefreshStats(m.mapInfo[id].stats, addr, penalty, now));
    var u := Announce(m, addr, source, penalty, now);
    ConsistentParts(P, u);
    if !u.mapInfo[id].fInTried {
      NewHasReferences(P, u, id);
      FewReferences(P, u, id);
    }
  }

  lemma FewReferences(P: Params, m: AddrMan, id: Id)
    requires id in m.mapInfo && Linked(P, m, {}) && !m.mapInfo[id].fInTried
    ensures m.mapInfo[id].nRefCount <= 8
  {
    assert EntryOk(P, m, {}, id);
  }

  lemma TargetFits(P: Params, m: AddrMan, addr: Announced, source: NetAddr, penalty: int, now: int)
    requires ValidParams(P)
    ensures var s := TargetSlot(P, m, addr, source, penalty, now);
            && AnnouncedId(m, addr) in Announce(m, addr, source, penalty, now).mapInfo
            && s.bucket < P.newBuckets
            && s == NewSlot(P, m.nKey, Announce(m, addr, source, penalty, now).mapInfo[AnnouncedId(m, addr)].service, s.bucket)
  {
    AnnouncedIsThere(m, addr, source, penalty, now);
  }

  /** `Add` keeps the manager consistent. It reports a new address exactly when the address is
      routable and was not known; and an address reported as new is kept exactly when its slot was
      free or yielded, so a report of a new address does not mean that it is there. */
  lemma AddKeeps(P: Params, m: AddrMan, addr: Announced, source: NetAddr, timePenalty: int, now: int, coin: bool)
    requires ValidParams(P) && Consistent(P, m) && m.nIdCount >= 0
    ensures CanAdd(P, m, addr, source, timePenalty, now, coin)
    ensures var (w, isNew) := Add(P, m, addr, source, timePenalty, now, coin);
            var penalty := Penalty(addr, source, timePenalty);
            && Consistent(P, w) && w.nIdCount >= m.nIdCount
            && (isNew <==> P.routable(addr.service.ip) && addr.service.ip !in m.mapAddr)
            && (isNew ==>
                  m.nIdCount in Announce(m, addr, source, penalty, now).mapInfo
                  && (m.nIdCount in w.mapInfo <==>
                      MayInsert(Announce(m, addr, source, penalty, now), m.nIdCount, TargetSlot(P, m, addr, source, penalty, now), now)))
  {
    hide Consistent, Linked, NewSlot, CanPlace, Place, TargetSlot, Announce, WantsSlot, MayInsert, TriedIds, MissingNew, Fresh, ValidParams;
    var penalty := Penalty(addr, source, timePenalty);
    var u, id := Announce(m, addr, source, penalty, now), AnnouncedId(m, addr);
    FoundById(P, m, addr.service.ip);
    TargetFits(P, m, addr, source, penalty, now);
    var s := TargetSlot(P, m, addr, source, penalty, now);
    if !Found(m, addr.service.ip) {
      AnnounceNewKeeps(P, m, addr, source, penalty, now);
      PlaceKeeps(P, u, id, s, now);
    } else {
      AnnounceOldKeeps(P, m, addr, source, penalty, now);
      ConsistentParts(P, u);
      if Proceeds(m, addr, source, penalty, now, coin) {
        WantsSlotShape(u.mapInfo[id], addr, coin);
        PlaceKeeps(P, u, id, s, now);
      }
    }
  }

  lemma WantsSlotShape(info: AddrInfo, addr: Announced, coin: bool)
    requires WantsSlot(info, addr, coin)
    ensures !info.fInTried && info.nRefCount != 8
  {
  }

  /** A manager with one slot in each table, where every address goes. */
  function OneSlot(): Params {
    Params(1, 1, 1, (k, a) => 0, (k, a, src) => 0, (k, n, b, a) => 0, a => true)
  }

  /** The first of two addresses, in the one slot. */
  ghost function OneAddress(now: int): AddrMan {
    var info := AddrInfo(Service(1, 8), 9, Stats({}, now, 0, 0, 0, 0), 1, false, 0);
    AddrMan(0, 1, map[0 := info], map[1 := 0], [0], 0, map[], 1, map[Slot(0, 0) := 0], 1)
  }

  lemma FirstIsKept(now: int, coin: bool)
    requires now > 0
    ensures CanAdd(OneSlot(), Empty(0), Announced(Service(1, 8), {}, now), 9, 0, now, coin)
    ensures Add(OneSlot(), Empty(0), Announced(Service(1, 8), {}, now), 9, 0, now, coin) == (OneAddress(now), true)
  {
    var w, m := Add(OneSlot(), Empty(0), Announced(Service(1, 8), {}, now), 9, 0, now, coin).0, OneAddress(now);
    assert w.vRandom == m.vRandom && w.mapInfo == m.mapInfo && w.mapAddr == m.mapAddr && w.vvNew == m.vvNew && w.vvTried == m.vvTried;
  }

  /** Two addresses heard of at the same time, with one slot between them: the second is reported as
      new, and the manager does not know it. */
  lemma ReportedButDropped(now: int, coin: bool)
    requires now > 0
    ensures var P, addr := OneSlot(), Announced(Service(2, 8), {}, now);
            && CanAdd(P, Empty(0), Announced(Service(1, 8), {}, now), 9, 0, now, coin)
            && var m := Add(P, Empty(0), Announced(Service(1, 8), {}, now), 9, 0, now, coin).0;
            && CanAdd(P, m, addr, 9, 0, now, coin)
            && var (w, isNew) := Add(P, m, addr, 9, 0, now, coin);
            && isNew && 2 !in w.mapAddr
  {
    FirstIsKept(now, coin);
  }

  // ----- attempt, connected, set services -----

  function AttemptStats(stats: Stats, countFailure: bool, nTime: int, nLastGood: int): Stats {
    if countFailure && stats.nLastCountAttempt < nLastGood
    then stats.(nLastTry := nTime, nLastCountAttempt := nTime, nAttempts := stats.nAttempts + 1)
    else stats.(nLastTry := nTime)
  }

  function ConnectedStats(stats: Stats, nTime: int): Stats {
    if nTime - stats.nTime > 20 * 60 then stats.(nTime := nTime) else stats
  }

  /** Replace the statistics of an address, if it is known with this port. */
  function Restat(m: AddrMan, service: Service, stats: Stats): AddrMan {
    if !Knows(m, service) then m else
    var id := m.mapAddr[service.ip];
    WithInfo(m, id, m.mapInfo[id].(stats := stats))
  }

  function StatsOf(m: AddrMan, service: Service): Stats {
    if Knows(m, service) then m.mapInfo[m.mapAddr[service.ip]].stats else Stats({}, 0, 0, 0, 0, 0)
  }

  lemma RestatServiceKeeps(P: Params, m: AddrMan, service: Service, stats: Stats)
    requires Consistent(P, m)
    ensures Consistent(P, Restat(m, service, stats)) && Restat(m, service, stats).nIdCount == m.nIdCount
  {
    hide Consistent;
    if Knows(m, service) {
      RestatConsistent(P, m, m.mapAddr[service.ip], stats);
    }
  }

  // ----- getaddr -----

  /** The shuffle inside `GetAddr_`: position `n` is swapped with a random later one, and so on. */
  predicate CanShuffle(m: AddrMan, n: nat, picks: seq<nat>)
    decreases picks
  {
    picks == [] ||
    (CanSwap(m, n, picks[0]) && CanShuffle(SwapRandom(m, n, picks[0]), n + 1, picks[1..]))
  }

  function Shuffle(m: AddrMan, n: nat, picks: seq<nat>): AddrMan
    requires CanShuffle(m, n, picks)
    decreases picks
  {
    if picks == [] then m else Shuffle(SwapRandom(m, n, picks[0]), n + 1, picks[1..])
  }

  lemma SwapConsistent(P: Params, m: AddrMan, i: nat, j: nat)
    requires Consistent(P, m) && i < |m.vRandom| && j < |m.vRandom|
    ensures CanSwap(m, i, j)
    ensures var w := SwapRandom(m, i, j);
            Consistent(P, w) && |w.vRandom| == |m.vRandom| && w.nIdCount == m.nIdCount && SameButOrder(m, w)
  {
    hide Linked, TriedIds, NewIds;
    SwapKeeps(P, m, {}, i, j);
  }

  lemma {:induction false} ShuffleKeeps(P: Params, m: AddrMan, n: nat, picks: seq<nat>)
    requires Consistent(P, m) && n + |picks| <= |m.vRandom| && forall k :: 0 <= k < |picks| ==> picks[k] < |m.vRandom|
    ensures CanShuffle(m, n, picks) && Consistent(P, Shuffle(m, n, picks)) && Shuffle(m, n, picks).nIdCount == m.nIdCount
    decreases picks
  {
    hide Consistent, CanSwap, SwapRandom;
    if picks != [] {
      SwapConsistent(P, m, n, picks[0]);
      ShuffleKeeps(P, SwapRandom(m, n, picks[0]), n + 1, picks[1..]);
    }
  }

  // ----- whole runs -----

  datatype Event =
    | AddEvent(addr: Announced, source: NetAddr, timePenalty: int, now: int, coin: bool)
    | GoodEvent(service: Service, nTime: int)
    | AttemptEvent(service: Service, countFailure: bool, nTime: int)
    | ConnectedEvent(service: Service, nTime: int)
    | ServicesEvent(service: Service, nServices: set<nat>)
    | GetAddrEvent(picks: seq<nat>)
    | ClearEvent(key: Key)

  /** The picks of `GetAddr_` are within the list. `Clear` is called on a manager of size 0 only:
      `ClearKeepsExactly` says why. */
  predicate Enabled(m: AddrMan, e: Event) {
    match e
    case GetAddrEvent(picks) => |picks| <= |m.vRandom| && forall k :: 0 <= k < |picks| ==> picks[k] < |m.vRandom|
    case ClearEvent(_) => m.vRandom == []
    case _ => true
  }

  /** Every function called below is within its assertions. */
  predicate Safe(P: Params, m: AddrMan, e: Event) {
    match e
    case AddEvent(addr, source, timePenalty, now, coin) => CanAdd(P, m, addr, source, timePenalty, now, coin)
    case GoodEvent(service, nTime) => CanGood(P, m, service, nTime)
    case GetAddrEvent(picks) => CanShuffle(m, 0, picks)
    case _ => true
  }

  function Step(P: Params, m: AddrMan, e: Event): AddrMan
    requires Safe(P, m, e)
  {
    match e
    case AddEvent(addr, source, timePenalty, now, coin) => Add(P, m, addr, source, timePenalty, now, coin).0
    case GoodEvent(service, nTime) => Good(P, m, service, nTime)
    case AttemptEvent(service, countFailure, nTime) =>
      Restat(m, service, AttemptStats(StatsOf(m, service), countFailure, nTime, m.nLastGood))
    case ConnectedEvent(service, nTime) => Restat(m, service, ConnectedStats(StatsOf(m, service), nTime))
    case ServicesEvent(service, nServices) => Restat(m, service, StatsOf(m, service).(nServices := nServices))
    case GetAddrEvent(picks) => Shuffle(m, 0, picks)
    case ClearEvent(key) => Clear(m, key)
  }

  /** `Clear`: the tables, the random order and the counters are reset; the two maps are left as they are. */
  function Clear(m: AddrMan, key: Key): AddrMan {
    AddrMan(key, 0, m.mapInfo, m.mapAddr, [], 0, map[], 0, map[], 1)
  }

  /** A newly constructed manager. */
  function Empty(key: Key): AddrMan {
    AddrMan(key, 0, map[], map[], [], 0, map[], 0, map[], 1)
  }

  /** `Clear` leaves a consistent manager consistent exactly when the manager is empty already. */
  lemma ClearKeepsExactly(P: Params, m: AddrMan, key: Key)
    requires Consistent(P, m)
    ensures Consistent(P, Clear(m, key)) <==> m.vRandom == []
    ensures m.vRandom == [] ==> Clear(m, key) == Empty(key)
  {
    if m.vRandom == [] {
      EmptyMaps(P, m);
      EmptyIsConsistent(P, key);
    } else {
      var w, id := Clear(m, key), m.vRandom[0];
      assert id in w.mapInfo && !(0 <= w.mapInfo[id].nRandomPos < |w.vRandom|);
    }
  }

  lemma EmptyMaps(P: Params, m: AddrMan)
    requires Consistent(P, m) && m.vRandom == []
    ensures m.mapInfo == map[] && m.mapAddr == map[]
  {
    hide IdsOk, NewTableOk, TriedTableOk, EntriesOk;
    assert forall id :: id !in m.mapInfo;
    assert forall a :: a !in m.mapAddr;
  }

  ghost predicate Inv(P: Params, m: AddrMan) {
    Consistent(P, m) && m.nIdCount >= 0
  }

  lemma GoodIdCount(P: Params, m: AddrMan, service: Service, nTime: int)
    requires ValidParams(P) && Consistent(P, m) && CanGood(P, m, service, nTime)
    ensures Good(P, m, service, nTime).nIdCount == m.nIdCount
  {
    hide Consistent, ValidParams, OwnSlots, MakeTried, CanMakeTried;
    NoteGoodKeeps(P, m, service, nTime);
    var u := NoteGood(m, service, nTime);
    if Knows(u, service) && !u.mapInfo[u.mapAddr[service.ip]].fInTried {
      MakeTriedKeeps(P, u, u.mapAddr[service.ip]);
    }
  }

  /** One step: no assertion inside the manager fires, and it stays consistent. */
  lemma StepKeeps(P: Params, m: AddrMan, e: Event)
    requires ValidParams(P) && Inv(P, m) && Enabled(m, e)
    ensures Safe(P, m, e) && Inv(P, Step(P, m, e))
  {
    hide Consistent, ValidParams, CanAdd, CanGood, CanShuffle, Add, Good, Restat, Shuffle, MayInsert, Announce, TargetSlot, Penalty;
    match e
    case AddEvent(addr, source, timePenalty, now, coin) => AddKeeps(P, m, addr, source, timePenalty, now, coin);
    case GoodEvent(service, nTime) =>
      GoodKeeps(P, m, service, nTime);
      GoodIdCount(P, m, service, nTime);
    case AttemptEvent(service, countFailure, nTime) =>
      RestatServiceKeeps(P, m, service, AttemptStats(StatsOf(m, service), countFailure, nTime, m.nLastGood));
    case ConnectedEvent(service, nTime) => RestatServiceKeeps(P, m, service, ConnectedStats(StatsOf(m, service), nTime));
    case ServicesEvent(service, nServices) => RestatServiceKeeps(P, m, service, StatsOf(m, service).(nServices := nServices));
    case GetAddrEvent(picks) => ShuffleKeeps(P, m, 0, picks);
    case ClearEvent(key) =>
      ClearKeepsExactly(P, m, key);
      EmptyIsConsistent(P, key);
  }

  lemma EmptyIsConsistent(P: Params, key: Key)
    ensures Inv(P, Empty(key))
  {
  }

  ghost predicate Next(P: Params, m: AddrMan, e: Event, w: AddrMan) {
    Enabled(m, e) && Safe(P, m, e) && w == Step(P, m, e)
  }

  ghost predicate IsRun(P: Params, run: seq<AddrMan>, events: seq<Event>) {
    && |run| == |events| + 1
    && (forall i :: 0 <= i < |events| ==> Next(P, run[i], events[i], run[i + 1]))
  }

  /** The manager of one address, cleared and told of that address again. */
  ghost function ToldTwice(now: int): AddrMan {
    var info := AddrInfo(Service(1, 8), 9, Stats({}, now, 0, 0, 0, 0), 2, false, 0);
    AddrMan(0, 0, map[0 := info], map[1 := 0], [], 0, map[], 0, map[Slot(0, 0) := 0], 1)
  }

  lemma ToldAgain(now: int)
    requires now > 0
    ensures var P, c, addr := OneSlot(), Clear(OneAddress(now), 0), Announced(Service(1, 8), {}, now + 1);
            CanAdd(P, c, addr, 9, 0, now + 1, true) && Add(P, c, addr, 9, 0, now + 1, true).0 == ToldTwice(now)
  {
    var P, c, addr := OneSlot(), Clear(OneAddress(now), 0), Announced(Service(1, 8), {}, now + 1);
    var w, m := Add(P, c, addr, 9, 0, now + 1, true).0, ToldTwice(now);
    assert w.mapInfo[0].stats.nServices == {};
    assert w.mapInfo == m.mapInfo && w.mapAddr == m.mapAddr && w.vvNew == m.vvNew;
  }

  /** Two references and one slot. */
  lemma ToldTwiceTrips(now: int, nTime: int)
    ensures !CanGood(OneSlot(), ToldTwice(now), Service(1, 8), nTime)
  {
    var P, u := OneSlot(), NoteGood(ToldTwice(now), Service(1, 8), nTime);
    assert OwnSlots(P, u, 0) == {Slot(0, 0)};
    assert Detach(P, u, 0).mapInfo[0].nRefCount == 1;
  }

  /** What `Clear` does to a manager that is in use: an address is added, the manager is cleared and
      told of the address again, and then `Good` trips the assertion on its reference count. */
  lemma ClearedTripsGood(now: int, nTime: int, coin: bool)
    requires now > 0
    ensures var P, s := OneSlot(), Service(1, 8);
            && CanAdd(P, Empty(0), Announced(s, {}, now), 9, 0, now, coin)
            && var c := Clear(Add(P, Empty(0), Announced(s, {}, now), 9, 0, now, coin).0, 0);
            && CanAdd(P, c, Announced(s, {}, now + 1), 9, 0, now + 1, true)
            && !CanGood(P, Add(P, c, Announced(s, {}, now + 1), 9, 0, now + 1, true).0, s, nTime)
  {
    FirstIsKept(now, coin);
    ToldAgain(now);
    ToldTwiceTrips(now, nTime);
  }

  /** From an empty manager, every run of the operations keeps the structural part of `Check_`. */
  lemma {:induction false} RunKeeps(P: Params, key: Key, run: seq<AddrMan>, events: seq<Event>, k: nat)
    requires ValidParams(P) && IsRun(P, run, events) && run[0] == Empty(key) && k < |run|
    ensures Consistent(P, run[k]) && run[k].nIdCount >= 0
  {
    hide Consistent, ValidParams, Safe, Step, Enabled, Empty;
    if k == 0 {
      EmptyIsConsistent(P, key);
    } else {
      RunKeeps(P, key, run, events, k - 1);
      assert Next(P, run[k - 1], events[k - 1], run[k]);
      StepKeeps(P, run[k - 1], events[k - 1]);
    }
  }

  /** And no run ever trips an assertion: whatever is asked next can be carried out. */
  lemma RunIsSafe(P: Params, key: Key, run: seq<AddrMan>, events: seq<Event>, e: Event)
    requires ValidParams(P) && IsRun(P, run, events) && run[0] == Empty(key) && Enabled(run[|events|], e)
    ensures Safe(P, run[|events|], e)
  {
    hide Consistent, ValidParams, Safe, Enabled, Empty, IsRun;
    RunHasStates(P, run, events);
    RunKeeps(P, key, run, events, |events|);
    StepKeeps(P, run[|events|], e);
  }

  lemma RunHasStates(P: Params, run: seq<AddrMan>, events: seq<Event>)
    requires IsRun(P, run, events)
    ensures |run| == |events| + 1
  {
  }

  // ----- what a consistent manager looks like from outside -----

  lemma {:induction false} DistinctCount(s: seq<Id>)
    requires forall i, j :: 0 <= i < j < |s| ==> s[i] != s[j]
    ensures |set x | x in s| == |s|
  {
    if s != [] {
      var n := |s| - 1;
      DistinctCount(s[..n]);
      assert (set x | x in s) == (set x | x in s[..n]) + {s[n]};
    } else {
      assert (set x | x in s) == {};
    }
  }

  /** The random order lists every entry once, and there are `nTried + nNew` of them. */
  lemma SizeIsSum(P: Params, m: AddrMan)
    requires Consistent(P, m)
    ensures |m.vRandom| == |m.mapInfo| == m.nTried + m.nNew
  {
    hide IndexOk, IdsOk, NewTableOk, TriedTableOk, EntriesOk;
    forall i, j | 0 <= i < j < |m.vRandom|
      ensures m.vRandom[i] != m.vRandom[j]
    {
      assert m.mapInfo[m.vRandom[i]].nRandomPos == i;
    }
    DistinctCount(m.vRandom);
    assert (set x | x in m.vRandom) == m.mapInfo.Keys by {
      forall id | id in m.mapInfo
        ensures id in m.vRandom
      {
        assert m.vRandom[m.mapInfo[id].nRandomPos] == id;
      }
    }
    assert m.mapInfo.Keys == TriedIds(m) + NewIds(m) && TriedIds(m) !! NewIds(m);
  }
}
