/**
 Compact blocks (src/blockencodings.h, src/blockencodings.cpp, BIP 152): a block sent as
 short transaction ids and a few whole transactions, rebuilt from the receiver's pool.
 */
module CompactBlock {
  import opened Basics

  const MAX_INDEX := 0xFFFF

  /** A transaction: what it is, its hash for short ids, and its witness hash. */
  datatype Tx = Tx(body: nat, hash: nat, witnessHash: nat)

  datatype Prefilled = Prefilled(index: nat, tx: Option<Tx>)

  datatype Message = Message(headerIsNull: bool, shortIds: seq<nat>, prefilled: seq<Prefilled>)

  datatype Status = OK | INVALID | FAILED | CHECKBLOCK_FAILED

  type Slots = seq<Option<Tx>>

  /** What the receiver cannot choose: the short id of a hash, the size limit, and how crowded a hash bucket gets. */
  datatype World = World(shortId: nat -> nat, maxTxs: nat, bucketSize: seq<nat> -> nat)

  function TxCount(m: Message): nat {
    |m.shortIds| + |m.prefilled|
  }

  // ----- slots -----

  /** The empty ones among the first `n` slots, in order. */
  function Empties(s: Slots, n: nat): seq<nat>
    requires n <= |s|
  {
    if n == 0 then [] else Empties(s, n - 1) + if s[n - 1].None? then [n - 1] else []
  }

  function AllEmpty(n: nat): Slots {
    seq(n, i => None)
  }

  lemma {:induction false} EmptiesOfNone(n: nat, k: nat)
    requires k <= n
    ensures |Empties(AllEmpty(n), k)| == k
  {
    if k > 0 {
      EmptiesOfNone(n, k - 1);
    }
  }

  lemma {:induction false} EmptiesShape(s: Slots, n: nat, j: nat)
    requires n <= |s| && j < |Empties(s, n)|
    ensures Empties(s, n)[j] < n && s[Empties(s, n)[j]].None?
  {
    if j < |Empties(s, n - 1)| {
      EmptiesShape(s, n - 1, j);
    }
  }

  lemma {:induction false} EmptiesPrefix(s: Slots, n: nat, m: nat)
    requires n <= m <= |s|
    ensures Empties(s, n) <= Empties(s, m)
  {
    if n < m {
      EmptiesPrefix(s, n, m - 1);
    }
  }

  /** Filling one empty slot leaves one fewer, emptying one leaves one more. */
  lemma {:induction false} EmptiesUpdate(s: Slots, n: nat, p: nat, x: Option<Tx>)
    requires n <= |s| && p < |s|
    ensures var d := if p < n then (if x.None? then 1 else 0) - (if s[p].None? then 1 else 0) else 0;
            |Empties(s[p := x], n)| == |Empties(s, n)| + d
  {
    if n > 0 {
      EmptiesUpdate(s, n - 1, p, x);
    }
  }

  function Missing(s: Slots): nat {
    |Empties(s, |s|)|
  }

  // ----- the prefilled transactions -----

  /** The `i`-th prefilled transaction, the one before it being at `last`, is null or goes where no slot is left for it. */
  predicate Misplaced(m: Message, i: nat, last: int)
    requires i < |m.prefilled|
  {
    var at := last + m.prefilled[i].index + 1;
    m.prefilled[i].tx.None? || at > MAX_INDEX || at > |m.shortIds| + i
  }

  /** The slots once the prefilled transactions from `i` on are in, the last one so far being at `last`. */
  function PrefillFrom(m: Message, s: Slots, i: nat, last: int): Option<Slots>
    requires |s| == TxCount(m) && i <= |m.prefilled| && last >= -1
    decreases |m.prefilled| - i
  {
    if i == |m.prefilled| then Some(s)
    else if Misplaced(m, i, last) then None
    else
      var at := last + m.prefilled[i].index + 1;
      PrefillFrom(m, s[at := m.prefilled[i].tx], i + 1, at)
  }

  function Prefill(m: Message): Option<Slots> {
    PrefillFrom(m, AllEmpty(TxCount(m)), 0, -1)
  }

  /** The slots as the loop leaves them, also where it stops at a misplaced transaction. */
  function PlacedFrom(m: Message, s: Slots, i: nat, last: int): Slots
    requires |s| == TxCount(m) && i <= |m.prefilled| && last >= -1
    decreases |m.prefilled| - i
  {
    if i == |m.prefilled| || Misplaced(m, i, last) then s
    else
      var at := last + m.prefilled[i].index + 1;
      PlacedFrom(m, s[at := m.prefilled[i].tx], i + 1, at)
  }

  function Placed(m: Message): Slots {
    PlacedFrom(m, AllEmpty(TxCount(m)), 0, -1)
  }

  lemma {:induction false} PlacedShape(m: Message, s: Slots, i: nat, last: int)
    requires |s| == TxCount(m) && i <= |m.prefilled| && last >= -1
    ensures |PlacedFrom(m, s, i, last)| == TxCount(m)
    ensures PrefillFrom(m, s, i, last).Some? ==> PrefillFrom(m, s, i, last).value == PlacedFrom(m, s, i, last)
    decreases |m.prefilled| - i
  {
    if i < |m.prefilled| && !Misplaced(m, i, last) {
      var at := last + m.prefilled[i].index + 1;
      PlacedShape(m, s[at := m.prefilled[i].tx], i + 1, at);
    }
  }

  /** The prefilled transactions never meet, so as many slots stay empty as there are short ids. */
  lemma {:induction false} PrefillLeaves(m: Message, s: Slots, i: nat, last: int)
    requires |s| == TxCount(m) && i <= |m.prefilled| && -1 <= last
    requires (forall j :: last < j < |s| ==> s[j].None?) && Missing(s) == TxCount(m) - i
    requires PrefillFrom(m, s, i, last).Some?
    ensures var r := PrefillFrom(m, s, i, last).value; |r| == |s| && Missing(r) == |m.shortIds|
    decreases |m.prefilled| - i
  {
    if i < |m.prefilled| {
      var at := last + m.prefilled[i].index + 1;
      EmptiesUpdate(s, |s|, at, m.prefilled[i].tx);
      PrefillLeaves(m, s[at := m.prefilled[i].tx], i + 1, at);
    }
  }

  lemma PrefilledShape(m: Message)
    requires Prefill(m).Some?
    ensures |Prefill(m).value| == TxCount(m) && Missing(Prefill(m).value) == |m.shortIds|
  {
    EmptiesOfNone(TxCount(m), TxCount(m));
    PrefillLeaves(m, AllEmpty(TxCount(m)), 0, -1);
  }

  // ----- what a message says about a block -----

  /** Every slot is empty or holds the block's own transaction. */
  ghost predicate Faithful(s: Slots, txs: seq<Tx>) {
    |s| == |txs| && forall i :: 0 <= i < |s| ==> s[i].None? || s[i] == Some(txs[i])
  }

  /** The message was made from the block: its transactions prefilled, or their short ids in order. */
  ghost predicate Describes(W: World, m: Message, txs: seq<Tx>) {
    && Prefill(m).Some? && Faithful(Prefill(m).value, txs)
    && var s := Prefill(m).value;
       |m.shortIds| == Missing(s) &&
       forall j :: 0 <= j < |m.shortIds| ==>
         EmptyAt(s, j) < |txs| && m.shortIds[j] == W.shortId(txs[EmptyAt(s, j)].hash)
  }

  /** The `j`-th empty slot. */
  function EmptyAt(s: Slots, j: nat): nat
    requires j < Missing(s)
  {
    Empties(s, |s|)[j]
  }

  datatype PoolEntry = PoolEntry(hash: nat, tx: Tx)

  /** No entry has the short id of a transaction of the block without being that transaction. */
  ghost predicate NoCollision(W: World, pool: seq<PoolEntry>, txs: seq<Tx>) {
    forall k, i :: 0 <= k < |pool| && 0 <= i < |txs| && W.shortId(pool[k].hash) == W.shortId(txs[i].hash) ==> pool[k].tx == txs[i]
  }

  /** The message that the sender makes of a block: the first transaction whole, short ids for the rest. */
  function MakeMessage(W: World, txs: seq<Tx>): Message
    requires txs != []
  {
    Message(false, seq<nat>(|txs| - 1, i requires 0 <= i < |txs| - 1 => W.shortId(txs[i + 1].hash)), [Prefilled(0, Some(txs[0]))])
  }

  lemma {:induction false} EmptiesAfterFirst(s: Slots, n: nat)
    requires 1 <= n <= |s| && s[0].Some? && forall j :: 0 < j < |s| ==> s[j].None?
    ensures Empties(s, n) == seq(n - 1, i => i + 1)
  {
    if n > 1 {
      EmptiesAfterFirst(s, n - 1);
      assert seq(n - 1, i => i + 1) == seq(n - 2, i => i + 1) + [n - 1];
    } else {
      assert Empties(s, 0) == [];
    }
  }

  lemma MessageSlots(W: World, txs: seq<Tx>)
    requires txs != []
    ensures var m, s := MakeMessage(W, txs), AllEmpty(|txs|)[0 := Some(txs[0])];
            Prefill(m) == Some(s) && |s| == |txs| && Missing(s) == |m.shortIds| == |txs| - 1 && forall j :: 0 <= j < |m.shortIds| ==> EmptyAt(s, j) == j + 1
  {
    var m := MakeMessage(W, txs);
    var s := AllEmpty(|txs|)[0 := Some(txs[0])];
    assert PrefillFrom(m, s, 1, 0) == Some(s);
    EmptiesAfterFirst(s, |s|);
  }

  /** What the sender makes describes the block. */
  lemma MakeDescribes(W: World, txs: seq<Tx>)
    requires txs != []
    ensures Describes(W, MakeMessage(W, txs), txs)
  {
    MessageSlots(W, txs);
    hide Prefill, Empties, Missing, EmptyAt;
  }

  // ----- receiving -----

  /** Malformed before anything is looked at. */
  predicate Rejected(W: World, m: Message) {
    m.headerIsNull || TxCount(m) == 0 || TxCount(m) > W.maxTxs || TxCount(m) > MAX_INDEX
  }

  /** Some bucket of the short id table is too crowded. */
  ghost predicate Crowded(W: World, ids: seq<nat>) {
    exists i :: 0 < i <= |ids| && W.bucketSize(ids[..i]) > 12
  }

  /** Short ids to slots: the `k`-th id to the `k`-th empty slot. */
  ghost predicate Indexed(ids: map<nat, nat>, shortIds: seq<nat>, s: Slots, n: nat)
    requires n <= |shortIds| && n <= Missing(s)
  {
    && (forall k :: 0 <= k < n ==> shortIds[k] in ids && ids[shortIds[k]] == EmptyAt(s, k))
    && (forall id :: id in ids ==> exists k :: 0 <= k < n && shortIds[k] == id)
  }

  class PartiallyDownloadedBlock {
    const W: World
    var headerIsNull: bool
    var txnAvailable: Slots
    var mempoolCount: int

    constructor (W: World)
      ensures this.W == W && headerIsNull && txnAvailable == [] && mempoolCount == 0
    {
      this.W := W;
      headerIsNull, txnAvailable, mempoolCount := true, [], 0;
    }

    /** `InitData`. */
    method InitData(m: Message, pool: seq<PoolEntry>, extra: seq<PoolEntry>, ghost txs: seq<Tx>) returns (st: Status)
      modifies this
      ensures var isFresh := old(headerIsNull) && old(txnAvailable) == [];
              st == if Rejected(W, m) then INVALID
                    else if !isFresh then FAILED
                    else if Prefill(m).None? then INVALID
                    else if Crowded(W, m.shortIds) || !Distinct(m.shortIds) then FAILED
                    else OK
      ensures Rejected(W, m) || !old(headerIsNull) || old(txnAvailable) != [] ==>
                headerIsNull == old(headerIsNull) && txnAvailable == old(txnAvailable) && mempoolCount == old(mempoolCount)
      ensures !Rejected(W, m) && old(headerIsNull) && old(txnAvailable) == [] ==> !headerIsNull && |txnAvailable| == TxCount(m)
      ensures !Rejected(W, m) && old(headerIsNull) && old(txnAvailable) == [] && st != OK ==>
                txnAvailable == Placed(m) && mempoolCount == old(mempoolCount)
      ensures st == OK ==> FilledFrom(W, m, pool + extra, Prefill(m).value, txnAvailable)
      ensures st == OK && old(mempoolCount) == 0 ==> Harvested(W, m, pool, extra, Prefill(m).value, txnAvailable)
      ensures st == OK ==> mempoolCount == old(mempoolCount) + |m.shortIds| - Missing(txnAvailable)
      ensures st == OK && Describes(W, m, txs) && NoCollision(W, pool, txs) && NoCollision(W, extra, txs) ==>
                Faithful(txnAvailable, txs)
    {
      hide *;
      Prepared(m);
      if m.headerIsNull || (|m.shortIds| == 0 && |m.prefilled| == 0) {
        return INVALID;
      }
      if |m.shortIds| + |m.prefilled| > W.maxTxs {
        return INVALID;
      }
      if |m.shortIds| + |m.prefilled| > MAX_INDEX {
        return INVALID;
      }
      if !headerIsNull || |txnAvailable| != 0 {
        return FAILED;
      }
      headerIsNull := false;
      PlacedIs(m);
      var ok := InsertPrefilled(m);
      if !ok {
        return INVALID;
      }
      ghost var s := txnAvailable;
      PrefilledShape(m);
      var ids: map<nat, nat>;
      st, ids := IndexShortIds(m);
      if st != OK {
        return;
      }
      MatchStart(W, m, s, ids, pool + extra);
      TracksStart(W, m, ids, pool, extra, s);
      var have := seq(|txnAvailable|, i => false);
      have := FromPool(m, ids, pool, have, s, extra, mempoolCount);
      have := FromExtra(m, ids, extra, have, s, pool, old(mempoolCount));
      if old(mempoolCount) == 0 {
        HarvestedIs(W, m, ids, pool, extra, have, s, txnAvailable);
      }
      FilledIsFaithful(W, m, pool, extra, txnAvailable, txs);
    }

    lemma PlacedIs(m: Message)
      ensures |Placed(m)| == TxCount(m) && (Prefill(m).Some? ==> Prefill(m).value == Placed(m))
    {
      PlacedShape(m, AllEmpty(TxCount(m)), 0, -1);
    }

    lemma Prepared(m: Message)
      ensures TxCount(m) == |m.shortIds| + |m.prefilled|
      ensures Rejected(W, m) <==> m.headerIsNull || TxCount(m) == 0 || TxCount(m) > W.maxTxs || TxCount(m) > MAX_INDEX
    {
    }

    /** The first loop: put the prefilled transactions where their indexes say. */
    method InsertPrefilled(m: Message) returns (ok: bool)
      modifies this`txnAvailable
      ensures ok <==> Prefill(m).Some?
      ensures txnAvailable == Placed(m)
    {
      hide Empties;
      txnAvailable := seq(|m.shortIds| + |m.prefilled|, i => None);
      assert txnAvailable == AllEmpty(TxCount(m));
      var last: int, i := -1, 0;
      while i < |m.prefilled|
        invariant 0 <= i <= |m.prefilled| && last >= -1 && |txnAvailable| == TxCount(m)
        invariant Prefill(m) == PrefillFrom(m, txnAvailable, i, last) && Placed(m) == PlacedFrom(m, txnAvailable, i, last)
      {
        if m.prefilled[i].tx.None? {
          return false;
        }
        last := last + m.prefilled[i].index + 1;
        if last > MAX_INDEX {
          return false;
        }
        if last > |m.shortIds| + i {
          return false;
        }
        txnAvailable := txnAvailable[last := m.prefilled[i].tx];
        i := i + 1;
      }
      return true;
    }

    /** The inner search: since a slot is left, it finds the next one. */
    method NextSlot(i: nat, from: nat) returns (offset: nat)
      requires i + from <= |txnAvailable| && |Empties(txnAvailable, i + from)| == i < Missing(txnAvailable)
      ensures i + offset < |txnAvailable| && EmptyAt(txnAvailable, i) == i + offset
      ensures |Empties(txnAvailable, i + 1 + offset)| == i + 1
    {
      hide *;
      offset := from;
      while i + offset < |txnAvailable| && txnAvailable[i + offset].Some?
        invariant i + offset <= |txnAvailable| && |Empties(txnAvailable, i + offset)| == i
      {
        EmptiesStep(txnAvailable, i + offset);
        offset := offset + 1;
      }
      MissingIs(txnAvailable);
      EmptiesStep(txnAvailable, i + offset);
      EmptiesPrefix(txnAvailable, i + offset + 1, |txnAvailable|);
      EmptyAtIs(txnAvailable, i);
    }

    /** The second loop: the search for the next empty slot never runs out of slots. */
    method IndexShortIds(m: Message) returns (st: Status, ids: map<nat, nat>)
      requires Missing(txnAvailable) == |m.shortIds|
      ensures st == if Crowded(W, m.shortIds) || !Distinct(m.shortIds) then FAILED else OK
      ensures st == OK ==> Indexed(ids, m.shortIds, txnAvailable, |m.shortIds|) && |ids| == |m.shortIds|
    {
      hide *;
      ghost var s := txnAvailable;
      ids := map[];
      var offset, i := 0, 0;
      IndexStart(W, m.shortIds, s);
      while i < |m.shortIds|
        invariant 0 <= i <= |m.shortIds| && 0 <= offset && i + offset <= |txnAvailable|
        invariant |Empties(s, i + offset)| == i
        invariant Uncrowded(W, m.shortIds, i) && IndexInv(ids, m.shortIds, s, i)
      {
        offset := NextSlot(i, offset);
        IndexStep(ids, m.shortIds, s, i, i + offset);
        ids := ids[m.shortIds[i] := i + offset];
        if W.bucketSize(m.shortIds[..i + 1]) > 12 {
          CrowdedAt(W, m.shortIds, i + 1);
          return FAILED, ids;
        }
        UncrowdedStep(W, m.shortIds, i);
        i := i + 1;
      }
      IndexEnd(W, ids, m.shortIds, s);
      st := if |ids| != |m.shortIds| then FAILED else OK;
    }

    /** The pool loop: the first match fills the slot, a second one empties it again. */
    method FromPool(m: Message, ids: map<nat, nat>, pool: seq<PoolEntry>, haveBefore: seq<bool>, ghost before: Slots, ghost extra: seq<PoolEntry>, ghost base: int)
      returns (have: seq<bool>)
      requires |haveBefore| == |txnAvailable| && Points(m, ids, before) && |ids| == |m.shortIds|
      requires mempoolCount == base + |m.shortIds| - Missing(txnAvailable) && Vacant(ids, haveBefore, txnAvailable)
      requires FilledFrom(W, m, pool + extra, before, txnAvailable)
      requires Tracks(W, ids, pool, extra, [], haveBefore, txnAvailable)
      modifies this`txnAvailable, this`mempoolCount
      ensures |have| == |txnAvailable| == |old(txnAvailable)| && Vacant(ids, have, txnAvailable)
      ensures mempoolCount == base + |m.shortIds| - Missing(txnAvailable)
      ensures FilledFrom(W, m, pool + extra, before, txnAvailable)
      ensures base == 0 ==> Tracks(W, ids, pool, extra, pool, have, txnAvailable)
    {
      hide *;
      have := haveBefore;
      var i := 0;
      assert pool[..0] == [];
      while i < |pool|
        invariant 0 <= i <= |pool| && |have| == |txnAvailable| == |old(txnAvailable)| && Vacant(ids, have, txnAvailable)
        invariant mempoolCount == base + |m.shortIds| - Missing(txnAvailable)
        invariant FilledFrom(W, m, pool + extra, before, txnAvailable)
        invariant Tracks(W, ids, pool, extra, pool[..i], have, txnAvailable)
      {
        ghost var s, held := txnAvailable, have;
        assert pool[..i + 1] == pool[..i] + [pool[i]] && pool[i] in pool + extra;
        var id := W.shortId(pool[i].hash);
        if id in ids {
          var at := ids[id];
          SlotOf(W, m, ids, id, have, pool + extra, before, txnAvailable);
          if !have[at] {
            txnAvailable := txnAvailable[at := Some(pool[i].tx)];
            have := have[at := true];
            mempoolCount := mempoolCount + 1;
            Filled(W, m, ids, pool + extra, pool[i], before, s);
          } else {
            SecondDisputes(W, ids, pool, extra, i, held, s);
            if txnAvailable[at].Some? {
              txnAvailable := txnAvailable[at := None];
              mempoolCount := mempoolCount - 1;
              SlotEmptied(W, m, pool + extra, before, s, at);
            }
          }
          StillVacant(ids, at, held, s, have, txnAvailable);
        }
        TracksStep(W, m, ids, before, pool, extra, pool[..i], pool[i], held, s, have, txnAvailable);
        if mempoolCount == |ids| {
          if base == 0 {
            TracksFull(W, ids, pool, extra, pool[..i + 1], pool, have, txnAvailable);
          }
          return;
        }
        i := i + 1;
      }
      assert pool[..|pool|] == pool;
    }

    /** The loop over the extra transactions: here a second match with the same witness hash is no conflict. */
    method FromExtra(m: Message, ids: map<nat, nat>, extra: seq<PoolEntry>, haveBefore: seq<bool>, ghost before: Slots, ghost pool: seq<PoolEntry>, ghost base: int)
      returns (have: seq<bool>)
      requires |haveBefore| == |txnAvailable| && Points(m, ids, before) && |ids| == |m.shortIds|
      requires mempoolCount == base + |m.shortIds| - Missing(txnAvailable) && Vacant(ids, haveBefore, txnAvailable)
      requires FilledFrom(W, m, pool + extra, before, txnAvailable)
      requires base == 0 ==> Tracks(W, ids, pool, extra, pool, haveBefore, txnAvailable)
      modifies this`txnAvailable, this`mempoolCount
      ensures |have| == |txnAvailable| == |old(txnAvailable)|
      ensures mempoolCount == base + |m.shortIds| - Missing(txnAvailable)
      ensures FilledFrom(W, m, pool + extra, before, txnAvailable)
      ensures base == 0 ==> Tracks(W, ids, pool, extra, pool + extra, have, txnAvailable)
    {
      hide *;
      have := haveBefore;
      var i := 0;
      assert pool + extra[..0] == pool;
      while i < |extra|
        invariant 0 <= i <= |extra| && |have| == |txnAvailable| == |old(txnAvailable)| && Vacant(ids, have, txnAvailable)
        invariant mempoolCount == base + |m.shortIds| - Missing(txnAvailable)
        invariant FilledFrom(W, m, pool + extra, before, txnAvailable)
        invariant base == 0 ==> Tracks(W, ids, pool, extra, pool + extra[..i], have, txnAvailable)
      {
        ghost var s, held := txnAvailable, have;
        assert pool + extra[..i + 1] == pool + extra[..i] + [extra[i]] && extra[i] in pool + extra;
        var id := W.shortId(extra[i].hash);
        if id in ids {
          var at := ids[id];
          SlotOf(W, m, ids, id, have, pool + extra, before, txnAvailable);
          if !have[at] {
            txnAvailable := txnAvailable[at := Some(extra[i].tx)];
            have := have[at := true];
            mempoolCount := mempoolCount + 1;
            Filled(W, m, ids, pool + extra, extra[i], before, s);
          } else {
            if base == 0 && Undisputed(W, pool, extra, id) {
              ExtraAgrees(W, m, ids, pool, extra, pool + extra[..i], extra[i], held, before, s);
            }
            if txnAvailable[at].Some? && txnAvailable[at].value.witnessHash != extra[i].tx.witnessHash {
              txnAvailable := txnAvailable[at := None];
              mempoolCount := mempoolCount - 1;
              SlotEmptied(W, m, pool + extra, before, s, at);
            }
          }
          StillVacant(ids, at, held, s, have, txnAvailable);
        }
        if base == 0 {
          TracksStep(W, m, ids, before, pool, extra, pool + extra[..i], extra[i], held, s, have, txnAvailable);
        }
        if mempoolCount == |ids| {
          if base == 0 {
            TracksFull(W, ids, pool, extra, pool + extra[..i + 1], pool + extra, have, txnAvailable);
          }
          return;
        }
        i := i + 1;
      }
      assert pool + extra[..|extra|] == pool + extra;
    }

    /**
     `FillBlock`: the transactions that were asked for go into the empty slots in order.
     With too few of them the slots already passed have lost their transactions and the
     block is still open; in every other case it is closed for good.
     */
    method FillBlock(missing: seq<Tx>, check: seq<Tx> -> CheckResult, ghost txs: seq<Tx>) returns (st: Status, vtx: seq<Tx>)
      modifies this
      ensures var s := old(txnAvailable);
              st == if old(headerIsNull) || |missing| != Missing(s) then INVALID else StatusOf(check(vtx))
      ensures var s := old(txnAvailable);
              !old(headerIsNull) && |missing| == Missing(s) && Faithful(s, txs) && missing == Wanted(s, txs) ==> vtx == txs
      ensures !old(headerIsNull) && |missing| >= old(Missing(txnAvailable)) ==> headerIsNull && txnAvailable == []
      ensures var s := old(txnAvailable);
              !old(headerIsNull) && |missing| < Missing(s) ==> !headerIsNull && Emptied(s, txnAvailable, EmptyAt(s, |missing|) + 1)
    {
      vtx := [];
      if headerIsNull {
        return INVALID, vtx;
      }
      hide *;
      ghost var s := txnAvailable;
      var offset, i := 0, 0;
      FillStart(s, missing, txs);
      while i < |txnAvailable|
        invariant 0 <= i <= |txnAvailable| == |s| && Emptied(s, txnAvailable, i) && !headerIsNull
        invariant offset == |Empties(s, i)| <= |missing| && |vtx| == i
        invariant Rebuilt(s, missing, txs, vtx)
      {
        EmptiesStep(s, i);
        EmptiesPrefix(s, i + 1, |s|);
        MissingIs(s);
        StillThere(s, txnAvailable, i);
        FillStep(s, missing, txs, vtx);
        if txnAvailable[i].None? {
          if |missing| <= offset {
            EmptyAtIs(s, offset);
            EmptiedStep(s, txnAvailable, i);
            return INVALID, vtx;
          }
          vtx := vtx + [missing[offset]];
          offset := offset + 1;
        } else {
          vtx := vtx + [txnAvailable[i].value];
          txnAvailable := txnAvailable[i := None];
        }
        i := i + 1;
      }
      MissingIs(s);
      FillEnd(s, missing, txs, vtx);
      headerIsNull, txnAvailable := true, [];
      if |missing| != offset {
        return INVALID, vtx;
      }
      StatusIs(check(vtx));
      match check(vtx)
      case Corrupt => st := FAILED;
      case Bad => st := CHECKBLOCK_FAILED;
      case Good => st := OK;
    }
  }

  /** What `CheckBlock` says: valid, invalid in a way a short id collision explains, or plainly invalid. */
  datatype CheckResult = Good | Corrupt | Bad

  function StatusOf(c: CheckResult): Status {
    match c
    case Good => OK
    case Corrupt => FAILED
    case Bad => CHECKBLOCK_FAILED
  }

  lemma StatusIs(c: CheckResult)
    ensures StatusOf(c) == if c == Good then OK else if c == Corrupt then FAILED else CHECKBLOCK_FAILED
  {
  }

  /** The transactions to ask for: those of the empty slots, in order. */
  ghost function Wanted(s: Slots, txs: seq<Tx>): seq<Tx>
    requires Faithful(s, txs)
  {
    WantedInside(s);
    seq(Missing(s), j requires 0 <= j < Missing(s) => txs[EmptyAt(s, j)])
  }

  lemma WantedInside(s: Slots)
    ensures forall j :: 0 <= j < Missing(s) ==> EmptyAt(s, j) < |s|
  {
    hide Empties;
    forall j | 0 <= j < Missing(s)
      ensures EmptyAt(s, j) < |s|
    {
      EmptiesShape(s, |s|, j);
    }
  }

  /** The first `n` slots have been emptied, the others are as they were. */
  ghost predicate Emptied(before: Slots, s: Slots, n: nat) {
    |s| == |before| && forall i :: 0 <= i < |s| ==> s[i] == if i < n then None else before[i]
  }

  lemma StillThere(before: Slots, s: Slots, i: nat)
    requires Emptied(before, s, i) && i < |s|
    ensures s[i] == before[i] && Emptied(before, s[i := None], i + 1)
  {
  }

  lemma EmptiedStep(before: Slots, s: Slots, i: nat)
    requires Emptied(before, s, i) && i < |s| && s[i].None?
    ensures Emptied(before, s, i + 1)
  {
  }

  lemma {:induction false} EmptiesAfter(before: Slots, s: Slots, n: nat, k: nat)
    requires Emptied(before, s, n) && n <= |s| && k <= |s|
    ensures |Empties(s, k)| == if k <= n then k else |Empties(before, k)| + n - |Empties(before, n)|
  {
    if k > 0 {
      EmptiesAfter(before, s, n, k - 1);
    }
  }

  lemma {:induction false} AllEmptyBefore(s: Slots, n: nat)
    requires n <= |s|
    ensures |Empties(s, n)| <= n && (|Empties(s, n)| == n <==> forall i :: 0 <= i < n ==> s[i].None?)
  {
    if n > 0 {
      AllEmptyBefore(s, n - 1);
    }
  }

  /** What a call with too few transactions does to the next one: more are missing than before,
      unless nothing stood before the gap. */
  lemma MissingAfterShort(before: Slots, s: Slots, n: nat)
    requires Emptied(before, s, n) && n <= |before|
    ensures Missing(s) >= Missing(before) && (Missing(s) == Missing(before) <==> forall i :: 0 <= i < n ==> before[i].None?)
  {
    EmptiesAfter(before, s, n, |s|);
    AllEmptyBefore(before, n);
  }

  /** If the right transactions were sent, what has been put together so far is the start of the block. */
  ghost predicate Rebuilt(s: Slots, missing: seq<Tx>, txs: seq<Tx>, vtx: seq<Tx>) {
    Faithful(s, txs) && missing == Wanted(s, txs) ==> vtx <= txs
  }

  lemma FillStart(s: Slots, missing: seq<Tx>, txs: seq<Tx>)
    ensures Rebuilt(s, missing, txs, []) && Empties(s, 0) == [] && Emptied(s, s, 0)
  {
  }

  lemma FillStep(s: Slots, missing: seq<Tx>, txs: seq<Tx>, vtx: seq<Tx>)
    requires |vtx| < |s| && Rebuilt(s, missing, txs, vtx)
    ensures s[|vtx|].Some? ==> Rebuilt(s, missing, txs, vtx + [s[|vtx|].value])
    ensures var k := |Empties(s, |vtx|)|;
            s[|vtx|].None? && k < |missing| ==> Rebuilt(s, missing, txs, vtx + [missing[k]])
  {
    var i := |vtx|;
    EmptiesStep(s, i);
    EmptiesPrefix(s, i + 1, |s|);
    hide Empties;
    if Faithful(s, txs) && missing == Wanted(s, txs) && s[i].None? {
      var k := |Empties(s, i)|;
      assert Empties(s, |s|)[k] == i;
      assert missing[k] == txs[EmptyAt(s, k)];
    }
  }

  lemma FillEnd(s: Slots, missing: seq<Tx>, txs: seq<Tx>, vtx: seq<Tx>)
    requires |vtx| == |s| && Rebuilt(s, missing, txs, vtx)
    ensures Faithful(s, txs) && missing == Wanted(s, txs) ==> vtx == txs
  {
  }

  lemma MissingIs(s: Slots)
    ensures Missing(s) == |Empties(s, |s|)|
  {
  }

  lemma EmptyAtIs(s: Slots, j: nat)
    requires j < Missing(s)
    ensures EmptyAt(s, j) == Empties(s, |s|)[j]
  {
  }

  lemma EmptiesStep(s: Slots, n: nat)
    requires n <= |s|
    ensures n < |s| ==> Empties(s, n + 1) == Empties(s, n) + if s[n].None? then [n] else []
  {
  }

  ghost predicate Uncrowded(W: World, ids: seq<nat>, n: nat) {
    n <= |ids| && forall k :: 0 < k <= n ==> W.bucketSize(ids[..k]) <= 12
  }

  /** The table after `i` short ids: as large as `i` exactly when no two of them are the same. */
  ghost predicate IndexInv(ids: map<nat, nat>, shortIds: seq<nat>, s: Slots, i: nat) {
    && i <= |shortIds| && i <= Missing(s)
    && ids.Keys == (set k | 0 <= k < i :: shortIds[k])
    && |ids| <= i && (|ids| == i <==> Distinct(shortIds[..i])) && (|ids| == i ==> Indexed(ids, shortIds, s, i))
  }

  lemma IndexStart(W: World, shortIds: seq<nat>, s: Slots)
    ensures IndexInv(map[], shortIds, s, 0) && Empties(s, 0) == [] && Uncrowded(W, shortIds, 0)
  {
  }

  lemma IndexStep(ids: map<nat, nat>, shortIds: seq<nat>, s: Slots, i: nat, at: nat)
    requires i < |shortIds| && i < Missing(s) && EmptyAt(s, i) == at && IndexInv(ids, shortIds, s, i)
    ensures IndexInv(ids[shortIds[i] := at], shortIds, s, i + 1)
  {
    var more := ids[shortIds[i] := at];
    assert more.Keys == ids.Keys + {shortIds[i]};
    DistinctStep(shortIds, i, ids.Keys);
    if shortIds[i] !in ids {
      assert |more| == |ids| + 1;
      if |ids| == i {
        IndexedStep(ids, shortIds, s, i, at);
      }
    } else {
      assert more.Keys == ids.Keys;
      assert |more.Keys| == |ids.Keys|;
    }
  }

  lemma DistinctStep(ids: seq<nat>, i: nat, keys: set<nat>)
    requires i < |ids| && keys == set k | 0 <= k < i :: ids[k]
    ensures Distinct(ids[..i + 1]) <==> Distinct(ids[..i]) && ids[i] !in keys
    ensures keys + {ids[i]} == set k | 0 <= k < i + 1 :: ids[k]
  {
    var a, b := ids[..i], ids[..i + 1];
    assert forall k :: 0 <= k < i ==> a[k] == b[k] == ids[k];
    assert b[i] == ids[i];
  }

  lemma IndexedStep(ids: map<nat, nat>, shortIds: seq<nat>, s: Slots, i: nat, at: nat)
    requires i < |shortIds| && i < Missing(s) && EmptyAt(s, i) == at && shortIds[i] !in ids && Indexed(ids, shortIds, s, i)
    ensures Indexed(ids[shortIds[i] := at], shortIds, s, i + 1)
  {
    hide Missing, EmptyAt;
  }

  lemma UncrowdedStep(W: World, ids: seq<nat>, i: nat)
    requires Uncrowded(W, ids, i) && i < |ids| && W.bucketSize(ids[..i + 1]) <= 12
    ensures Uncrowded(W, ids, i + 1)
  {
  }

  lemma CrowdedAt(W: World, ids: seq<nat>, i: nat)
    requires 0 < i <= |ids| && W.bucketSize(ids[..i]) > 12
    ensures Crowded(W, ids)
  {
  }

  lemma IndexEnd(W: World, ids: map<nat, nat>, shortIds: seq<nat>, s: Slots)
    requires Uncrowded(W, shortIds, |shortIds|) && IndexInv(ids, shortIds, s, |shortIds|)
    ensures !Crowded(W, shortIds) && (|ids| == |shortIds| <==> Distinct(shortIds)) && |shortIds| <= Missing(s)
    ensures |ids| == |shortIds| ==> Indexed(ids, shortIds, s, |shortIds|)
  {
    assert shortIds[..|shortIds|] == shortIds;
  }

  // ----- matching -----

  /** A slot that the message left empty has this short id. */
  ghost predicate HasShortId(m: Message, before: Slots, i: nat, id: nat) {
    exists j :: 0 <= j < |m.shortIds| && j < Missing(before) && EmptyAt(before, j) == i && m.shortIds[j] == id
  }

  /** Every short id leads to the empty slot that has it. */
  ghost predicate Points(m: Message, ids: map<nat, nat>, before: Slots) {
    forall id :: id in ids ==> ids[id] < |before| && before[ids[id]].None? && HasShortId(m, before, ids[id], id)
  }

  /** An entry with the short id of the slot. */
  ghost predicate Suits(W: World, m: Message, entries: seq<PoolEntry>, before: Slots, i: nat, x: Option<Tx>) {
    x.Some? && exists e :: e in entries && e.tx == x.value && HasShortId(m, before, i, W.shortId(e.hash))
  }

  /** What came with the message stays; any other slot is empty or holds an entry that has its short id. */
  ghost predicate FilledFrom(W: World, m: Message, entries: seq<PoolEntry>, before: Slots, s: Slots) {
    |s| == |before| && forall i :: 0 <= i < |s| && s[i] != before[i] ==> before[i].None? && Suits(W, m, entries, before, i, s[i])
  }

  /** Some of the entries has this short id. */
  ghost predicate Offers(W: World, entries: seq<PoolEntry>, id: nat) {
    exists k :: 0 <= k < |entries| && W.shortId(entries[k].hash) == id
  }

  /** No entry contradicts another about a short id: the pool has it at most once, and wherever else it
      is, among the pool and the extra transactions, the witness hash is the same. */
  ghost predicate Undisputed(W: World, pool: seq<PoolEntry>, extra: seq<PoolEntry>, id: nat) {
    && (forall k, l :: 0 <= k < l < |pool| && W.shortId(pool[k].hash) == id ==> W.shortId(pool[l].hash) != id)
    && (forall e, f :: e in pool + extra && f in pool + extra && W.shortId(e.hash) == id && W.shortId(f.hash) == id ==>
          e.tx.witnessHash == f.tx.witnessHash)
  }

  /** Where the loops are once they have seen some entries: a slot is marked only if its short id was
      among them, and what was among them undisputed is in its slot. */
  ghost predicate Tracks(W: World, ids: map<nat, nat>, pool: seq<PoolEntry>, extra: seq<PoolEntry>, seen: seq<PoolEntry>, have: seq<bool>, s: Slots) {
    && |have| == |s|
    && (forall id :: id in ids ==> ids[id] < |s| && (have[ids[id]] ==> Offers(W, seen, id)))
    && (forall id :: id in ids && Undisputed(W, pool, extra, id) && Offers(W, seen, id) ==> s[ids[id]].Some?)
  }

  /** What becomes of every short id: nobody offers it and its slot is empty, or it is offered
      undisputed and its slot is filled. */
  ghost predicate Harvested(W: World, m: Message, pool: seq<PoolEntry>, extra: seq<PoolEntry>, before: Slots, s: Slots) {
    forall j :: 0 <= j < |m.shortIds| && j < Missing(before) && EmptyAt(before, j) < |s| ==>
      && (!Offers(W, pool + extra, m.shortIds[j]) ==> s[EmptyAt(before, j)].None?)
      && (Offers(W, pool + extra, m.shortIds[j]) && Undisputed(W, pool, extra, m.shortIds[j]) ==> s[EmptyAt(before, j)].Some?)
  }

  lemma {:induction false} EmptiesOrdered(s: Slots, n: nat, i: nat, j: nat)
    requires n <= |s| && i < j < |Empties(s, n)|
    ensures Empties(s, n)[i] < Empties(s, n)[j]
  {
    if j < |Empties(s, n - 1)| {
      EmptiesOrdered(s, n - 1, i, j);
    } else {
      EmptiesShape(s, n - 1, i);
    }
  }

  lemma OneShortId(m: Message, before: Slots, i: nat, a: nat, b: nat)
    requires HasShortId(m, before, i, a) && HasShortId(m, before, i, b)
    ensures a == b
  {
    hide Empties;
    var j :| 0 <= j < |m.shortIds| && j < Missing(before) && EmptyAt(before, j) == i && m.shortIds[j] == a;
    var k :| 0 <= k < |m.shortIds| && k < Missing(before) && EmptyAt(before, k) == i && m.shortIds[k] == b;
    if j < k {
      EmptiesOrdered(before, |before|, j, k);
    } else if k < j {
      EmptiesOrdered(before, |before|, k, j);
    }
  }

  lemma Separate(m: Message, ids: map<nat, nat>, before: Slots, a: nat, b: nat)
    requires Points(m, ids, before) && a in ids && b in ids && ids[a] == ids[b]
    ensures a == b
  {
    hide HasShortId;
    OneShortId(m, before, ids[a], a, b);
  }

  lemma OffersMore(W: World, seen: seq<PoolEntry>, e: PoolEntry, id: nat)
    ensures Offers(W, seen + [e], id) <==> Offers(W, seen, id) || W.shortId(e.hash) == id
  {
    var all := seen + [e];
    if Offers(W, seen, id) {
      var k :| 0 <= k < |seen| && W.shortId(seen[k].hash) == id;
      assert all[k] == seen[k];
    }
    assert all[|seen|] == e;
  }

  /** One more entry seen: if it has a short id of the block, only the slot of that id may change. */
  lemma TracksStep(W: World, m: Message, ids: map<nat, nat>, before: Slots, pool: seq<PoolEntry>, extra: seq<PoolEntry>,
                   seen: seq<PoolEntry>, e: PoolEntry, have: seq<bool>, s: Slots, have': seq<bool>, s': Slots)
    requires Tracks(W, ids, pool, extra, seen, have, s) && Points(m, ids, before) && |have'| == |have| && |s'| == |s|
    requires var id := W.shortId(e.hash);
             if id in ids then
               && ids[id] < |s| && (Undisputed(W, pool, extra, id) ==> s'[ids[id]].Some?)
               && forall j :: 0 <= j < |s| && j != ids[id] ==> have'[j] == have[j] && s'[j] == s[j]
             else have' == have && s' == s
    ensures Tracks(W, ids, pool, extra, seen + [e], have', s')
  {
    hide Undisputed, Offers, Points;
    forall b | b in ids
      ensures ids[b] < |s'| && (have'[ids[b]] ==> Offers(W, seen + [e], b))
      ensures Undisputed(W, pool, extra, b) && Offers(W, seen + [e], b) ==> s'[ids[b]].Some?
    {
      OffersMore(W, seen, e, b);
      if W.shortId(e.hash) in ids && ids[W.shortId(e.hash)] == ids[b] {
        Separate(m, ids, before, W.shortId(e.hash), b);
      }
    }
  }

  lemma TracksStart(W: World, m: Message, ids: map<nat, nat>, pool: seq<PoolEntry>, extra: seq<PoolEntry>, s: Slots)
    requires Points(m, ids, s)
    ensures Tracks(W, ids, pool, extra, [], seq(|s|, i => false), s)
  {
    hide Undisputed, HasShortId;
  }

  /** A second entry of the pool with the same short id is a dispute. */
  lemma SecondDisputes(W: World, ids: map<nat, nat>, pool: seq<PoolEntry>, extra: seq<PoolEntry>, i: nat, have: seq<bool>, s: Slots)
    requires i < |pool| && Tracks(W, ids, pool, extra, pool[..i], have, s)
    requires var id := W.shortId(pool[i].hash); id in ids && ids[id] < |have| && have[ids[id]]
    ensures !Undisputed(W, pool, extra, W.shortId(pool[i].hash))
  {
    var id := W.shortId(pool[i].hash);
    var k :| 0 <= k < i && W.shortId(pool[..i][k].hash) == id;
    assert W.shortId(pool[k].hash) == id;
  }

  /** An extra transaction with an undisputed short id that was seen before agrees with what is in the slot. */
  lemma ExtraAgrees(W: World, m: Message, ids: map<nat, nat>, pool: seq<PoolEntry>, extra: seq<PoolEntry>, seen: seq<PoolEntry>,
                    e: PoolEntry, have: seq<bool>, before: Slots, s: Slots)
    requires Tracks(W, ids, pool, extra, seen, have, s) && Points(m, ids, before) && FilledFrom(W, m, pool + extra, before, s)
    requires e in pool + extra && var id := W.shortId(e.hash); id in ids && ids[id] < |have| && have[ids[id]] && Undisputed(W, pool, extra, id)
    ensures var at := ids[W.shortId(e.hash)]; s[at].Some? && s[at].value.witnessHash == e.tx.witnessHash
  {
    hide HasShortId, Offers;
    var id := W.shortId(e.hash);
    var at := ids[id];
    assert Suits(W, m, pool + extra, before, at, s[at]);
    var f :| f in pool + extra && f.tx == s[at].value && HasShortId(m, before, at, W.shortId(f.hash));
    OneShortId(m, before, at, id, W.shortId(f.hash));
  }

  lemma OffersPrefix(W: World, a: seq<PoolEntry>, b: seq<PoolEntry>, id: nat)
    requires a <= b && Offers(W, a, id)
    ensures Offers(W, b, id)
  {
    var k :| 0 <= k < |a| && W.shortId(a[k].hash) == id;
    assert b[k] == a[k];
  }

  /** Once every slot is filled, the entries that are left over make no difference. */
  lemma TracksFull(W: World, ids: map<nat, nat>, pool: seq<PoolEntry>, extra: seq<PoolEntry>, seen: seq<PoolEntry>, all: seq<PoolEntry>, have: seq<bool>, s: Slots)
    requires Tracks(W, ids, pool, extra, seen, have, s) && seen <= all && Missing(s) == 0
    ensures Tracks(W, ids, pool, extra, all, have, s)
  {
    hide Undisputed, Offers;
    forall id | id in ids
      ensures have[ids[id]] ==> Offers(W, all, id)
      ensures s[ids[id]].Some?
    {
      if Offers(W, seen, id) {
        OffersPrefix(W, seen, all, id);
      }
      NoneMissing(s, |s|, ids[id]);
    }
  }

  lemma {:induction false} NoneMissing(s: Slots, n: nat, i: nat)
    requires i < n <= |s| && Empties(s, n) == []
    ensures s[i].Some?
  {
    if i < n - 1 {
      NoneMissing(s, n - 1, i);
    }
  }

  lemma HarvestedIs(W: World, m: Message, ids: map<nat, nat>, pool: seq<PoolEntry>, extra: seq<PoolEntry>, have: seq<bool>, before: Slots, s: Slots)
    requires Missing(before) == |m.shortIds| && Indexed(ids, m.shortIds, before, |m.shortIds|) && Points(m, ids, before)
    requires Tracks(W, ids, pool, extra, pool + extra, have, s) && FilledFrom(W, m, pool + extra, before, s)
    ensures Harvested(W, m, pool, extra, before, s)
  {
    hide Undisputed, Missing, EmptyAt, HasShortId;
    forall j | 0 <= j < |m.shortIds| && j < Missing(before) && EmptyAt(before, j) < |s|
      ensures !Offers(W, pool + extra, m.shortIds[j]) ==> s[EmptyAt(before, j)].None?
    {
      var id, i := m.shortIds[j], EmptyAt(before, j);
      assert id in ids && ids[id] == i;
      if s[i].Some? {
        FilledIsOffered(W, m, pool + extra, before, s, i, id);
      }
    }
  }

  lemma FilledIsOffered(W: World, m: Message, entries: seq<PoolEntry>, before: Slots, s: Slots, i: nat, id: nat)
    requires FilledFrom(W, m, entries, before, s) && i < |s| && before[i].None? && s[i].Some? && HasShortId(m, before, i, id)
    ensures Offers(W, entries, id)
  {
    hide HasShortId;
    assert Suits(W, m, entries, before, i, s[i]);
    var f :| f in entries && f.tx == s[i].value && HasShortId(m, before, i, W.shortId(f.hash));
    OneShortId(m, before, i, id, W.shortId(f.hash));
    var k :| 0 <= k < |entries| && entries[k] == f;
  }

  /** A slot that no transaction was put in yet is empty. */
  ghost predicate Vacant(ids: map<nat, nat>, have: seq<bool>, s: Slots) {
    |have| == |s| && forall id :: id in ids && ids[id] < |s| && !have[ids[id]] ==> s[ids[id]].None?
  }

  lemma MatchStart(W: World, m: Message, s: Slots, ids: map<nat, nat>, entries: seq<PoolEntry>)
    requires Prefill(m) == Some(s) && |s| == TxCount(m) && Missing(s) == |m.shortIds| && Indexed(ids, m.shortIds, s, |m.shortIds|)
    ensures Points(m, ids, s) && Vacant(ids, seq(|s|, i => false), s) && FilledFrom(W, m, entries, s, s)
  {
    hide Prefill, Empties;
    forall id | id in ids
      ensures ids[id] < |s| && s[ids[id]].None? && HasShortId(m, s, ids[id], id)
    {
      var k :| 0 <= k < |m.shortIds| && m.shortIds[k] == id;
      EmptiesShape(s, |s|, k);
    }
  }

  /** When no entry collides with the block, whatever fills a slot is the transaction of that slot. */
  lemma FilledIsFaithful(W: World, m: Message, pool: seq<PoolEntry>, extra: seq<PoolEntry>, s: Slots, txs: seq<Tx>)
    requires Prefill(m).Some? && FilledFrom(W, m, pool + extra, Prefill(m).value, s)
    ensures |s| == |Prefill(m).value|
    ensures Describes(W, m, txs) && NoCollision(W, pool, txs) && NoCollision(W, extra, txs) ==> Faithful(s, txs)
  {
    hide Prefill, Empties;
    if Describes(W, m, txs) && NoCollision(W, pool, txs) && NoCollision(W, extra, txs) {
      var before := Prefill(m).value;
      forall i | 0 <= i < |s| && s[i] != before[i]
        ensures s[i] == Some(txs[i])
      {
        var e :| e in pool + extra && e.tx == s[i].value && HasShortId(m, before, i, W.shortId(e.hash));
        var j :| 0 <= j < |m.shortIds| && j < Missing(before) && EmptyAt(before, j) == i && m.shortIds[j] == W.shortId(e.hash);
        assert e in pool || e in extra;
      }
    }
  }

  lemma SlotOf(W: World, m: Message, ids: map<nat, nat>, id: nat, have: seq<bool>, entries: seq<PoolEntry>, before: Slots, s: Slots)
    requires id in ids && Points(m, ids, before) && FilledFrom(W, m, entries, before, s) && Vacant(ids, have, s)
    ensures ids[id] < |s| == |before| && before[ids[id]].None? && (!have[ids[id]] ==> s[ids[id]].None?)
  {
  }

  lemma Filled(W: World, m: Message, ids: map<nat, nat>, entries: seq<PoolEntry>, e: PoolEntry, before: Slots, s: Slots)
    requires e in entries && W.shortId(e.hash) in ids && Points(m, ids, before) && FilledFrom(W, m, entries, before, s)
    requires ids[W.shortId(e.hash)] < |s| && s[ids[W.shortId(e.hash)]].None?
    ensures var more := s[ids[W.shortId(e.hash)] := Some(e.tx)];
            Missing(more) == Missing(s) - 1 && FilledFrom(W, m, entries, before, more)
  {
    EmptiesUpdate(s, |s|, ids[W.shortId(e.hash)], Some(e.tx));
    hide Missing, Empties, HasShortId;
  }

  lemma SlotEmptied(W: World, m: Message, entries: seq<PoolEntry>, before: Slots, s: Slots, at: nat)
    requires at < |s| == |before| && s[at].Some? && before[at].None? && FilledFrom(W, m, entries, before, s)
    ensures Missing(s[at := None]) == Missing(s) + 1 && FilledFrom(W, m, entries, before, s[at := None])
  {
    EmptiesUpdate(s, |s|, at, None);
    hide Missing, Empties, HasShortId;
  }

  lemma StillVacant(ids: map<nat, nat>, at: nat, held: seq<bool>, before: Slots, have: seq<bool>, s: Slots)
    requires Vacant(ids, held, before) && |have| == |s| == |before| && at < |s| && have[at]
    requires forall j :: 0 <= j < |s| && j != at ==> have[j] == held[j] && s[j] == before[j]
    ensures Vacant(ids, have, s)
  {
  }

  // ----- asking for transactions -----

  ghost predicate Increasing(ix: seq<nat>) {
    (forall i :: 0 <= i < |ix| ==> ix[i] <= MAX_INDEX) && forall i, j :: 0 <= i < j < |ix| ==> ix[i] < ix[j]
  }

  /** Each index as sent: what it is beyond the index before it plus one, as an unsigned 64-bit number. */
  function Differences(ix: seq<nat>): seq<nat> {
    seq<nat>(|ix|, i requires 0 <= i < |ix| => Difference(if i == 0 then 0 else ix[i - 1] + 1, ix[i]))
  }

  function Difference(from: nat, to: nat): nat {
    (to - from) % 0x1_0000_0000_0000_0000
  }

  lemma DifferenceIs(from: nat, d: nat)
    requires d <= MAX_INDEX
    ensures Difference(from, d + from) == d
  {
  }

  /** The indexes read back, from what was sent and what the next index is counted from. */
  function Restored(d: seq<nat>, offset: nat): Option<seq<nat>> {
    if d == [] then Some([])
    else if d[0] > MAX_INDEX || d[0] + offset > MAX_INDEX then None
    else
      match Restored(d[1..], d[0] + offset + 1)
      case None => None
      case Some(more) => Some([d[0] + offset] + more)
  }

  /** What an index is counted from: the one before it plus one. */
  function From(ix: seq<nat>, i: nat, offset: nat): nat
    requires i <= |ix|
  {
    if i == 0 then offset else ix[i - 1] + 1
  }

  ghost predicate Steps(ix: seq<nat>, d: seq<nat>, offset: nat) {
    |ix| == |d| && forall i :: 0 <= i < |ix| ==> ix[i] == d[i] + From(ix, i, offset) && ix[i] <= MAX_INDEX
  }

  lemma FromShift(ix: seq<nat>, i: nat, offset: nat)
    requires i < |ix|
    ensures From(ix, i + 1, offset) == From(ix[1..], i, ix[0] + 1)
  {
  }

  lemma StepsTail(ix: seq<nat>, d: seq<nat>, offset: nat)
    requires ix != [] && d != []
    ensures Steps(ix, d, offset) <==>
              ix[0] == d[0] + offset <= MAX_INDEX && Steps(ix[1..], d[1..], d[0] + offset + 1)
  {
    hide From;
    FromIs(ix, 0, offset);
    var more, e := ix[1..], d[1..];
    if ix[0] == d[0] + offset {
      if Steps(ix, d, offset) {
        forall i | 0 <= i < |more|
          ensures more[i] == e[i] + From(more, i, d[0] + offset + 1) && more[i] <= MAX_INDEX
        {
          FromShift(ix, i, offset);
          assert ix[i + 1] == d[i + 1] + From(ix, i + 1, offset);
        }
      }
      if Steps(more, e, d[0] + offset + 1) && ix[0] <= MAX_INDEX {
        forall i | 0 <= i < |ix|
          ensures ix[i] == d[i] + From(ix, i, offset) && ix[i] <= MAX_INDEX
        {
          if i > 0 {
            FromShift(ix, i - 1, offset);
            assert more[i - 1] == e[i - 1] + From(more, i - 1, d[0] + offset + 1);
          }
        }
      }
    }
  }

  /** Reading succeeds exactly when the indexes stay within 16 bits, and then gives the sums. */
  lemma {:induction false} RestoredIs(d: seq<nat>, offset: nat, ix: seq<nat>)
    ensures Restored(d, offset) == Some(ix) <==> Steps(ix, d, offset)
    decreases |d|
  {
    if d == [] {
      assert Steps([], [], offset);
    } else if ix != [] {
      var more := ix[1..];
      RestoredIs(d[1..], d[0] + offset + 1, more);
      StepsTail(ix, d, offset);
      hide Steps;
      assert ix == [ix[0]] + more;
    }
  }

  lemma StepAt(ix: seq<nat>, d: seq<nat>, offset: nat, i: nat)
    requires Steps(ix, d, offset) && i < |ix|
    ensures ix[i] == d[i] + (if i == 0 then offset else ix[i - 1] + 1) <= MAX_INDEX
  {
    hide From;
    FromIs(ix, i, offset);
  }

  lemma StepsShape(ix: seq<nat>, d: seq<nat>, offset: nat)
    requires Steps(ix, d, offset)
    ensures |ix| == |d|
  {
  }

  lemma FromIs(ix: seq<nat>, i: nat, offset: nat)
    requires i <= |ix|
    ensures From(ix, i, offset) == if i == 0 then offset else ix[i - 1] + 1
  {
  }

  lemma {:induction false} StepsIncrease(ix: seq<nat>, d: seq<nat>, i: nat, j: nat)
    requires Steps(ix, d, 0) && i < j < |ix|
    ensures ix[i] < ix[j]
    decreases j
  {
    hide Steps, From;
    StepsShape(ix, d, 0);
    StepAt(ix, d, 0, j);
    if i < j - 1 {
      StepsIncrease(ix, d, i, j - 1);
    }
  }

  lemma DifferencesShape(ix: seq<nat>)
    ensures |Differences(ix)| == |ix|
    ensures forall i :: 0 <= i < |ix| ==> Differences(ix)[i] == Difference(From(ix, i, 0), ix[i])
  {
  }

  lemma DifferenceAt(ix: seq<nat>, i: nat)
    requires Increasing(ix) && i < |ix|
    ensures |Differences(ix)| == |ix| && ix[i] == Differences(ix)[i] + From(ix, i, 0) && ix[i] <= MAX_INDEX
  {
    hide Differences, From, Increasing, Difference;
    DifferencesShape(ix);
    IncreasingAt(ix, i);
    FromIs(ix, i, 0);
    DifferenceIs(From(ix, i, 0), ix[i] - From(ix, i, 0));
  }

  lemma IncreasingAt(ix: seq<nat>, i: nat)
    requires Increasing(ix) && i < |ix|
    ensures ix[i] <= MAX_INDEX && (i > 0 ==> ix[i - 1] < ix[i])
  {
  }

  /** Increasing indexes are read back as they were. */
  lemma RequestRoundTrip(ix: seq<nat>)
    requires Increasing(ix)
    ensures Restored(Differences(ix), 0) == Some(ix)
  {
    hide Restored, From, Differences, Increasing;
    var d := Differences(ix);
    DifferencesShape(ix);
    forall i | 0 <= i < |ix|
      ensures ix[i] == d[i] + From(ix, i, 0) && ix[i] <= MAX_INDEX
    {
      DifferenceAt(ix, i);
    }
    RestoredIs(d, 0, ix);
  }

  /** Whatever is read is increasing, and is what an encoder would have sent. */
  lemma RequestIsIncreasing(d: seq<nat>)
    requires Restored(d, 0).Some?
    ensures var ix := Restored(d, 0).value; Increasing(ix) && Differences(ix) == d
  {
    hide Restored, From, Steps, Differences, Difference;
    var ix := Restored(d, 0).value;
    RestoredIs(d, 0, ix);
    StepsShape(ix, d, 0);
    DifferencesShape(ix);
    forall i, j | 0 <= i < j < |ix|
      ensures ix[i] < ix[j]
    {
      StepsIncrease(ix, d, i, j);
    }
    forall i | 0 <= i < |ix|
      ensures ix[i] <= MAX_INDEX && Differences(ix)[i] == d[i]
    {
      StepAt(ix, d, 0, i);
      FromIs(ix, i, 0);
      DifferenceIs(From(ix, i, 0), d[i]);
    }
  }

  /** The first `j` indexes are sums already, the others are as they were sent. */
  ghost predicate SummedUp(a: seq<nat>, d: seq<nat>, j: nat) {
    && j <= |a| == |d| && a[j..] == d[j..]
    && forall k :: 0 <= k < j ==> a[k] == d[k] + From(a, k, 0) && a[k] <= MAX_INDEX
  }

  lemma SumNext(a: seq<nat>, d: seq<nat>, j: nat)
    requires SummedUp(a, d, j) && j < |a|
    ensures a[j] == d[j]
    ensures a[j] + From(a, j, 0) <= MAX_INDEX ==>
              var b := a[j := a[j] + From(a, j, 0)]; SummedUp(b, d, j + 1) && From(b, j + 1, 0) == b[j] + 1
  {
    assert a[j] == a[j..][0] == d[j];
    var b := a[j := a[j] + From(a, j, 0)];
    assert forall k :: 0 <= k <= j ==> From(b, k, 0) == From(a, k, 0);
    assert b[j + 1..] == a[j..][1..] == d[j + 1..];
  }

  lemma SummedParts(a: seq<nat>, d: seq<nat>, j: nat)
    requires SummedUp(a, d, j)
    ensures |a| == |d| && forall k :: 0 <= k < j ==> a[k] == d[k] + From(a, k, 0)
    ensures j == |a| ==> Steps(a, d, 0)
  {
  }

  lemma NoneSummed(a: seq<nat>)
    ensures SummedUp(a, a, 0) && From(a, 0, 0) == 0
  {
  }

  /** The read loop of `BlockTransactionsRequest`, in place. */
  method ReadIndexes(a: array<nat>) returns (ok: bool)
    modifies a
    ensures ok <==> Restored(old(a[..]), 0).Some?
    ensures ok ==> Some(a[..]) == Restored(old(a[..]), 0)
  {
    hide *;
    ghost var d := a[..];
    var i := 0;
    while i < a.Length
      invariant 0 <= i <= a.Length
    {
      if a[i] > MAX_INDEX {
        TooLarge(d, i);
        return false;
      }
      i := i + 1;
    }
    var offset: nat, j := 0, 0;
    NoneSummed(d);
    while j < a.Length
      invariant 0 <= j <= a.Length && SummedUp(a[..], d, j) && offset == From(a[..], j, 0)
    {
      ghost var s := a[..];
      SumNext(s, d, j);
      if a[j] + offset > MAX_INDEX {
        SummedParts(s, d, j);
        TooFar(s, d, j);
        return false;
      }
      a[j] := a[j] + offset;
      assert a[..] == s[j := s[j] + offset];
      offset := a[j] + 1;
      j := j + 1;
    }
    SummedParts(a[..], d, j);
    RestoredIs(d, 0, a[..]);
    return true;
  }

  lemma TooLarge(d: seq<nat>, i: nat)
    requires i < |d| && d[i] > MAX_INDEX
    ensures Restored(d, 0).None?
  {
    if Restored(d, 0).Some? {
      RestoredIs(d, 0, Restored(d, 0).value);
    }
  }

  lemma TooFar(a: seq<nat>, d: seq<nat>, j: nat)
    requires j < |a| == |d| && d[j] + From(a, j, 0) > MAX_INDEX
    requires forall k :: 0 <= k < j ==> a[k] == d[k] + From(a, k, 0)
    ensures Restored(d, 0).None?
  {
    hide Restored, From, Steps;
    FromIs(a, j, 0);
    if Restored(d, 0).Some? {
      var ix := Restored(d, 0).value;
      RestoredIs(d, 0, ix);
      StepsShape(ix, d, 0);
      SamePrefix(a, ix, d, j);
      assert j > 0 ==> a[..j][j - 1] == ix[..j][j - 1];
      StepAt(ix, d, 0, j);
    }
  }

  lemma {:induction false} SamePrefix(a: seq<nat>, ix: seq<nat>, d: seq<nat>, j: nat)
    requires j <= |a| && Steps(ix, d, 0) && |a| == |d| == |ix| && forall k :: 0 <= k < j ==> a[k] == d[k] + From(a, k, 0)
    ensures a[..j] == ix[..j]
  {
    hide From, Steps;
    if j > 0 {
      StepsShape(ix, d, 0);
      SamePrefix(a, ix, d, j - 1);
      StepAt(ix, d, 0, j - 1);
      FromIs(a, j - 1, 0);
      if j > 1 {
        assert a[..j - 1][j - 2] == ix[..j - 1][j - 2];
      }
      assert a[..j] == a[..j - 1] + [a[j - 1]] && ix[..j] == ix[..j - 1] + [ix[j - 1]];
    }
  }

  // ----- the whole exchange -----

  lemma {:induction false} EmptiesIncrease(s: Slots, n: nat)
    requires n <= |s| <= MAX_INDEX
    ensures Increasing(Empties(s, n))
  {
    if n > 0 {
      EmptiesIncrease(s, n - 1);
      var e := Empties(s, n - 1);
      forall j | 0 <= j < |e|
        ensures e[j] < n - 1
      {
        EmptiesShape(s, n - 1, j);
      }
    }
  }

  /** The first transaction comes with the message; of the others, those are asked for that neither pool offers. */
  ghost predicate AsksFor(W: World, txs: seq<Tx>, pool: seq<PoolEntry>, extra: seq<PoolEntry>, asked: seq<nat>) {
    && 0 !in asked
    && forall i: nat :: 0 < i < |txs| ==>
         var id := W.shortId(txs[i].hash);
         && (!Offers(W, pool + extra, id) ==> i in asked)
         && (Offers(W, pool + extra, id) && Undisputed(W, pool, extra, id) ==> i !in asked)
  }

  lemma {:induction false} EmptiesMember(s: Slots, n: nat, i: nat)
    requires i < n <= |s|
    ensures i in Empties(s, n) <==> s[i].None?
  {
    if i < n - 1 {
      EmptiesMember(s, n - 1, i);
    } else if i in Empties(s, n - 1) {
      var j :| 0 <= j < |Empties(s, n - 1)| && Empties(s, n - 1)[j] == i;
      EmptiesShape(s, n - 1, j);
    }
  }

  lemma AskedIs(W: World, txs: seq<Tx>, pool: seq<PoolEntry>, extra: seq<PoolEntry>, s: Slots)
    requires txs != [] && Prefill(MakeMessage(W, txs)).Some?
    requires FilledFrom(W, MakeMessage(W, txs), pool + extra, Prefill(MakeMessage(W, txs)).value, s)
    requires Harvested(W, MakeMessage(W, txs), pool, extra, Prefill(MakeMessage(W, txs)).value, s)
    ensures AsksFor(W, txs, pool, extra, Empties(s, |s|))
  {
    var m := MakeMessage(W, txs);
    MessageSlots(W, txs);
    var before := Prefill(m).value;
    hide Prefill, Empties, Undisputed, Offers, Missing, EmptyAt, Suits;
    EmptiesMember(s, |s|, 0);
    forall i: nat | 0 < i < |txs|
      ensures var id := W.shortId(txs[i].hash);
              && (!Offers(W, pool + extra, id) ==> i in Empties(s, |s|))
              && (Offers(W, pool + extra, id) && Undisputed(W, pool, extra, id) ==> i !in Empties(s, |s|))
    {
      EmptiesMember(s, |s|, i);
      assert EmptyAt(before, i - 1) == i && m.shortIds[i - 1] == W.shortId(txs[i].hash);
    }
  }

  /**
   A block goes out as a compact message, the receiver asks for what it lacks, and puts the
   block together. When no entry collides, the only ways to fail are those that the sender
   and the receiver can see: too many transactions, short ids that meet or crowd, and a
   block that does not check. What comes out is the block that went in. What is asked for is
   what nobody offers, and nothing that is offered undisputed.
   */
  method Relay(W: World, txs: seq<Tx>, pool: seq<PoolEntry>, extra: seq<PoolEntry>, check: seq<Tx> -> CheckResult)
    returns (r: Option<seq<Tx>>, asked: seq<nat>)
    requires txs != [] && NoCollision(W, pool, txs) && NoCollision(W, extra, txs)
    ensures r == None || r == Some(txs)
    ensures var ids := MakeMessage(W, txs).shortIds;
            r.Some? <==> |txs| <= W.maxTxs && |txs| <= MAX_INDEX && !Crowded(W, ids) && Distinct(ids) && check(txs) == Good
    ensures r.Some? ==> AsksFor(W, txs, pool, extra, asked)
  {
    hide *;
    var m := MakeMessage(W, txs);
    MakeDescribes(W, txs);
    MessageShape(W, txs);
    var p := new PartiallyDownloadedBlock(W);
    var st := p.InitData(m, pool, extra, txs);
    asked := [];
    if st != OK {
      return None, asked;
    }
    var s := p.txnAvailable;
    FaithfulShape(s, txs);
    AskedIs(W, txs, pool, extra, s);
    asked := Empties(s, |s|);
    EmptiesIncrease(s, |s|);
    RequestRoundTrip(asked);
    var read := Restored(Differences(asked), 0);
    WantedIs(s, txs);
    var missing := seq(|read.value|, j requires 0 <= j < |read.value| && read.value[j] < |txs| => txs[read.value[j]]);
    var vtx;
    st, vtx := p.FillBlock(missing, check, txs);
    StatusIs(check(vtx));
    r := if st == OK then Some(vtx) else None;
  }

  /**
   A call with too few transactions, and then one with as many as were asked for: the second is
   invalid exactly when some slot before the gap was filled, whose transaction the first call lost.
   */
  method Retry(p: PartiallyDownloadedBlock, few: seq<Tx>, wanted: seq<Tx>, check: seq<Tx> -> CheckResult) returns (first: Status, second: Status)
    requires !p.headerIsNull && |few| < Missing(p.txnAvailable) == |wanted|
    modifies p
    ensures first == INVALID
    ensures second == INVALID <==> exists i :: 0 <= i < EmptyAt(old(p.txnAvailable), |few|) && i < |old(p.txnAvailable)| && old(p.txnAvailable)[i].Some?
  {
    hide *;
    ghost var s := p.txnAvailable;
    ghost var gap := EmptyAt(s, |few|);
    GapIs(s, |few|);
    var vtx;
    first, vtx := p.FillBlock(few, check, []);
    MissingAfterShort(s, p.txnAvailable, gap + 1);
    second, vtx := p.FillBlock(wanted, check, []);
    StatusIs(check(vtx));
  }

  lemma GapIs(s: Slots, k: nat)
    requires k < Missing(s)
    ensures EmptyAt(s, k) < |s| && s[EmptyAt(s, k)].None?
  {
    EmptiesShape(s, |s|, k);
  }

  /**
   Two transactions, of which the receiver has the first, from the message itself: a call without
   the second one leaves the block open and the first one lost.
   */
  method ShortFillLoses(a: Tx, b: Tx, check: seq<Tx> -> CheckResult) returns (p: PartiallyDownloadedBlock, init: Status, fill: Status)
    ensures init == OK && fill == INVALID && !p.headerIsNull && p.txnAvailable == [None, None]
  {
    var W := World(h => h, 2, ids => 0);
    var m := MakeMessage(W, [a, b]);
    hide *;
    p := new PartiallyDownloadedBlock(W);
    PairMessage(W, a, b);
    init := p.InitData(m, [], [], []);
    PairSlots(W, m, a, p.txnAvailable);
    var vtx;
    fill, vtx := p.FillBlock([], check, []);
    PairEmptied(a, p.txnAvailable);
  }

  lemma PairMessage(W: World, a: Tx, b: Tx)
    requires W.maxTxs == 2 && forall ids :: W.bucketSize(ids) == 0
    ensures var m := MakeMessage(W, [a, b]);
            && !Rejected(W, m) && !Crowded(W, m.shortIds) && Distinct(m.shortIds)
            && Prefill(m) == Some([Some(a), None]) && TxCount(m) == 2
  {
    var m, s := MakeMessage(W, [a, b]), AllEmpty(2)[0 := Some(a)];
    assert PrefillFrom(m, s, 1, 0) == Some(s);
    assert s == [Some(a), None];
  }

  lemma PairSlots(W: World, m: Message, a: Tx, s: Slots)
    requires FilledFrom(W, m, [] + [], [Some(a), None], s)
    ensures s == [Some(a), None] && Missing(s) == 1 && EmptyAt(s, 0) == 1
  {
    assert s == [Some(a), None];
    EmptiesAfterFirst(s, 2);
  }

  lemma PairEmptied(a: Tx, s: Slots)
    requires Emptied([Some(a), None], s, 2)
    ensures s == [None, None]
  {
  }

  lemma MessageShape(W: World, txs: seq<Tx>)
    requires txs != [] && Describes(W, MakeMessage(W, txs), txs)
    ensures var m := MakeMessage(W, txs);
            TxCount(m) == |txs| && Prefill(m).Some? &&
            (Rejected(W, m) <==> |txs| > W.maxTxs || |txs| > MAX_INDEX)
  {
  }

  lemma FaithfulShape(s: Slots, txs: seq<Tx>)
    requires Faithful(s, txs)
    ensures |s| == |txs|
  {
  }

  lemma WantedIs(s: Slots, txs: seq<Tx>)
    requires Faithful(s, txs)
    ensures var ix := Empties(s, |s|);
            |ix| == Missing(s) && (forall j :: 0 <= j < |ix| ==> ix[j] < |txs|) &&
            Wanted(s, txs) == seq(|ix|, j requires 0 <= j < |ix| && ix[j] < |txs| => txs[ix[j]])
  {
    hide Empties;
    WantedInside(s);
    var ix := Empties(s, |s|);
    forall j | 0 <= j < |ix|
      ensures ix[j] < |txs|
    {
      EmptiesShape(s, |s|, j);
    }
  }
}
