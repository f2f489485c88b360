/**
 The cuckoo cache (`CuckooCache::cache` in src/cuckoocache.h) as values: the
 displacement insert, erasure by flag, and the ageing of epochs.
 */
module Cuckoo {
  import opened Basics

  type Element = nat

  /** What `setup` fixes: the table size, the size of an epoch, the depth of a displacement chain,
      and the eight slots where an element may stand. */
  datatype Config = Config(size: nat, epochSize: nat, depthLimit: nat, locs: Element -> seq<nat>)

  ghost predicate ValidConfig(c: Config) {
    && c.size > 0 && c.epochSize > 0
    && (forall e :: |c.locs(e)| == 8 && forall k :: 0 <= k < 8 ==> c.locs(e)[k] < c.size)
  }

  /** `collected[i]`: slot `i` may be overwritten. `epoch[i]`: slot `i` is of the current epoch. */
  datatype State = State(table: seq<Element>, collected: seq<bool>, epoch: seq<bool>, counter: nat)

  ghost predicate Sized(c: Config, s: State) {
    |s.table| == |s.collected| == |s.epoch| == c.size
  }

  /** `setup`: every slot is free, and a whole epoch may pass before the first scan. */
  function Setup(c: Config, default: Element): State {
    State(seq(c.size, i => default), seq(c.size, i => true), seq(c.size, i => false), c.epochSize)
  }

  // ----- what is in the cache -----

  ghost predicate LiveAt(s: State, i: int) {
    0 <= i < |s.table| == |s.collected| && !s.collected[i]
  }

  /** The elements not free to be overwritten. */
  ghost function Live(s: State): set<Element>
    requires |s.table| == |s.collected|
  {
    set i | 0 <= i < |s.table| && !s.collected[i] :: s.table[i]
  }

  /** Every live element is where a search for it looks first. In particular it stands in one of its
      own slots, and in one only. */
  ghost predicate Homed(c: Config, s: State) {
    forall i :: LiveAt(s, i) ==> FirstAt(c, s.table, s.table[i], i)
  }

  /** Among the slots of an element, the first to hold it is slot `i`. */
  ghost predicate FirstAt(c: Config, table: seq<Element>, e: Element, i: int) {
    exists k :: 0 <= k < |c.locs(e)| && FirstIs(c, table, e, i, k)
  }

  ghost predicate FirstIs(c: Config, table: seq<Element>, e: Element, i: int, k: int)
    requires 0 <= k < |c.locs(e)|
  {
    && c.locs(e)[k] == i < |table| && table[i] == e
    && (forall j :: 0 <= j < k && c.locs(e)[j] < |table| ==> table[c.locs(e)[j]] != e)
  }

  /** The live slots of the current epoch. */
  ghost function Current(s: State): set<nat>
    requires |s.collected| == |s.epoch|
  {
    set i: nat | i < |s.epoch| && s.epoch[i] && !s.collected[i]
  }

  // ----- epochs -----

  /** All of the current epoch becomes the old one; what was old is free. */
  function Age(c: Config, s: State): State
    requires |s.collected| == |s.epoch|
  {
    s.(collected := seq(|s.epoch|, i requires 0 <= i < |s.epoch| => s.collected[i] || !s.epoch[i]),
       epoch := seq(|s.epoch|, i => false),
       counter := c.epochSize)
  }

  /** `epoch_check`. */
  ghost function EpochCheck(c: Config, s: State): State
    requires |s.collected| == |s.epoch|
  {
    if s.counter != 0 then s.(counter := s.counter - 1)
    else if |Current(s)| >= c.epochSize then Age(c, s)
    else s.(counter := Max(1, Max(c.epochSize / 16, c.epochSize - |Current(s)|)))
  }

  // ----- insertion -----

  /** The first of some slots whose flag is set, or their number. */
  function FirstSet(flags: seq<bool>, locs: seq<nat>, k: nat): nat
    requires k <= |locs| && forall i :: 0 <= i < |locs| ==> locs[i] < |flags|
    decreases |locs| - k
  {
    if k == |locs| || flags[locs[k]] then k else FirstSet(flags, locs, k + 1)
  }

  /** The first of some slots that holds an element, or their number. */
  function FirstHolding(table: seq<Element>, locs: seq<nat>, e: Element, k: nat): nat
    requires k <= |locs| && forall i :: 0 <= i < |locs| ==> locs[i] < |table|
    decreases |locs| - k
  {
    if k == |locs| || table[locs[k]] == e then k else FirstHolding(table, locs, e, k + 1)
  }

  /** `std::find`. */
  function Find(locs: seq<nat>, loc: int, k: nat): nat
    requires k <= |locs|
    decreases |locs| - k
  {
    if k == |locs| || locs[k] == loc then k else Find(locs, loc, k + 1)
  }

  /** The slot to displace: the one after the last, around the eight; the second one at first. */
  function NextLoc(locs: seq<nat>, lastLoc: int): nat
    requires |locs| == 8
  {
    locs[(1 + Find(locs, lastLoc, 0)) % 8]
  }

  const INVALID := -1

  /** What an insertion leaves: the cache, and the element that fell out of it, if one did. */
  datatype Outcome = Outcome(s: State, dropped: seq<Element>)

  /** Put an element in a slot, with its epoch, and keep it. */
  function Keep(s: State, loc: nat, e: Element, isCurrent: bool): State
    requires loc < |s.table| == |s.collected| == |s.epoch|
  {
    s.(table := s.table[loc := e], collected := s.collected[loc := false], epoch := s.epoch[loc := isCurrent])
  }

  /** The displacement chain: each round finds a free slot, or takes one and goes on with what was in it. */
  ghost function Displace(c: Config, s: State, e: Element, lastLoc: int, isCurrent: bool, depth: nat): (r: Outcome)
    requires ValidConfig(c) && Sized(c, s) && depth <= c.depthLimit
    ensures Sized(c, r.s)
    decreases c.depthLimit - depth
  {
    if depth == c.depthLimit then Outcome(s, [e])
    else
      var locs := c.locs(e);
      var k := FirstSet(s.collected, locs, 0);
      if k < 8 then Outcome(Keep(s, locs[k], e, isCurrent), [])
      else
        NextLocFits(c, e, lastLoc);
        var loc := NextLoc(locs, lastLoc);
        Displace(c, s.(table := s.table[loc := e], epoch := s.epoch[loc := isCurrent]), s.table[loc], loc, s.epoch[loc], depth + 1)
  }

  lemma {:induction false} FindMissing(locs: seq<nat>, loc: int, k: nat)
    requires k <= |locs| && forall i :: k <= i < |locs| ==> locs[i] != loc
    ensures Find(locs, loc, k) == |locs|
    decreases |locs| - k
  {
    if k < |locs| {
      FindMissing(locs, loc, k + 1);
    }
  }

  /** A chain starts by displacing the second of an element's slots, not the first. */
  lemma FirstDisplaced(c: Config, e: Element)
    requires ValidConfig(c)
    ensures NextLoc(c.locs(e), INVALID) == c.locs(e)[1]
  {
    FindMissing(c.locs(e), INVALID, 0);
  }

  lemma NextLocFits(c: Config, e: Element, lastLoc: int)
    requires ValidConfig(c)
    ensures NextLoc(c.locs(e), lastLoc) < c.size && NextLoc(c.locs(e), lastLoc) in c.locs(e)
  {
    var locs := c.locs(e);
    assert locs[(1 + Find(locs, lastLoc, 0)) % 8] in locs;
  }

  /** `insert` once the epoch check is done. */
  ghost function Place(c: Config, s: State, e: Element): (r: Outcome)
    requires ValidConfig(c) && Sized(c, s)
    ensures Sized(c, r.s)
  {
    var locs := c.locs(e);
    var k := FirstHolding(s.table, locs, e, 0);
    if k < 8 then Outcome(Keep(s, locs[k], e, true), [])
    else Displace(c, s, e, INVALID, true, 0)
  }

  ghost function Insert(c: Config, s: State, e: Element): (r: Outcome)
    requires ValidConfig(c) && Sized(c, s)
    ensures Sized(c, r.s)
  {
    Place(c, EpochCheck(c, s), e)
  }

  predicate Contains(c: Config, s: State, e: Element)
    requires |c.locs(e)| == 8 && forall k :: 0 <= k < 8 ==> c.locs(e)[k] < |s.table|
  {
    FirstHolding(s.table, c.locs(e), e, 0) < 8
  }

  /** `contains` with `erase`: the first slot that holds the element is flagged. */
  function Erase(c: Config, s: State, e: Element): State
    requires |c.locs(e)| == 8 && forall k :: 0 <= k < 8 ==> c.locs(e)[k] < |s.table|
    requires |s.collected| == |s.table|
  {
    var k := FirstHolding(s.table, c.locs(e), e, 0);
    if k < 8 then s.(collected := s.collected[c.locs(e)[k] := true]) else s
  }

  // ----- searches -----

  lemma {:induction false} FirstSetFinds(flags: seq<bool>, locs: seq<nat>, k: nat)
    requires k <= |locs| && forall i :: 0 <= i < |locs| ==> locs[i] < |flags|
    ensures var r := FirstSet(flags, locs, k);
            && k <= r <= |locs| && (r < |locs| ==> flags[locs[r]])
            && (forall i :: k <= i < r ==> !flags[locs[i]])
    decreases |locs| - k
  {
    if k < |locs| && !flags[locs[k]] {
      FirstSetFinds(flags, locs, k + 1);
    }
  }

  lemma {:induction false} FirstHoldingFinds(table: seq<Element>, locs: seq<nat>, e: Element, k: nat)
    requires k <= |locs| && forall i :: 0 <= i < |locs| ==> locs[i] < |table|
    ensures var r := FirstHolding(table, locs, e, k);
            && k <= r <= |locs| && (r < |locs| ==> table[locs[r]] == e)
            && (forall i :: k <= i < r ==> table[locs[i]] != e)
    decreases |locs| - k
  {
    if k < |locs| && table[locs[k]] != e {
      FirstHoldingFinds(table, locs, e, k + 1);
    }
  }

  // ----- insertion conserves elements -----

  lemma LiveMember(s: State, x: Element)
    requires |s.table| == |s.collected|
    ensures x in Live(s) <==> exists i :: LiveAt(s, i) && s.table[i] == x
  {
    if x in Live(s) {
      var i :| 0 <= i < |s.table| && !s.collected[i] && s.table[i] == x;
      assert LiveAt(s, i);
    }
  }

  lemma FirstAtUnique(c: Config, table: seq<Element>, e: Element, i: int, j: int)
    requires FirstAt(c, table, e, i) && FirstAt(c, table, e, j)
    ensures i == j
  {
    var k :| 0 <= k < |c.locs(e)| && FirstIs(c, table, e, i, k);
    var l :| 0 <= l < |c.locs(e)| && FirstIs(c, table, e, j, l);
  }

  /** Two live slots never hold the same element. */
  lemma LiveOnce(c: Config, s: State, i: int, j: int)
    requires Homed(c, s) && LiveAt(s, i) && LiveAt(s, j) && s.table[i] == s.table[j]
    ensures i == j && i in c.locs(s.table[i])
  {
    FirstAtUnique(c, s.table, s.table[i], i, j);
    var k :| 0 <= k < |c.locs(s.table[i])| && FirstIs(c, s.table, s.table[i], i, k);
    assert c.locs(s.table[i])[k] in c.locs(s.table[i]);
  }

  /** Writing something else elsewhere does not move where an element is first found. */
  lemma FirstAtStable(c: Config, table: seq<Element>, x: Element, i: int, loc: nat, e: Element)
    requires FirstAt(c, table, x, i) && loc < |table| && loc != i && e != x
    ensures FirstAt(c, table[loc := e], x, i)
  {
    var k :| 0 <= k < |c.locs(x)| && FirstIs(c, table, x, i, k);
    assert FirstIs(c, table[loc := e], x, i, k);
  }

  /** The conditions under which an insertion gives a slot to an element: none of the slots the
      element would rather have is free. */
  ghost predicate Takes(c: Config, s: State, e: Element, k: nat) {
    && k < |c.locs(e)| && c.locs(e)[k] < c.size
    && (forall j :: 0 <= j < k ==> LiveAt(s, c.locs(e)[j]))
  }

  lemma TakenIsFirst(c: Config, s: State, e: Element, k: nat)
    requires Sized(c, s) && Takes(c, s, e, k) && e !in Live(s)
    ensures FirstAt(c, s.table[c.locs(e)[k] := e], e, c.locs(e)[k])
  {
    var locs := c.locs(e);
    var table := s.table[locs[k] := e];
    if j :| 0 <= j < k && locs[j] == locs[k] {
      TakenIsFirst(c, s, e, j);
    } else {
      forall j | 0 <= j < k
        ensures table[locs[j]] != e
      {
        assert LiveAt(s, locs[j]);
        assert s.table[locs[j]] in Live(s);
      }
      assert FirstIs(c, table, e, locs[k], k);
    }
  }

  /** Giving a slot to an element that is not live keeps every live element findable. */
  lemma FillHomed(c: Config, s: State, k: nat, e: Element, isCurrent: bool)
    requires Sized(c, s) && Homed(c, s) && Takes(c, s, e, k) && e !in Live(s)
    ensures Homed(c, Keep(s, c.locs(e)[k], e, isCurrent))
  {
    hide FirstAt;
    var loc := c.locs(e)[k];
    var w := Keep(s, loc, e, isCurrent);
    TakenIsFirst(c, s, e, k);
    forall i | LiveAt(w, i)
      ensures FirstAt(c, w.table, w.table[i], i)
    {
      if i != loc {
        assert LiveAt(s, i) && s.table[i] in Live(s);
        FirstAtStable(c, s.table, s.table[i], i, loc, e);
      }
    }
  }

  /** And the live elements change as they should, whatever the slot held before. */
  lemma FillSlot(c: Config, s: State, k: nat, e: Element, isCurrent: bool)
    requires Sized(c, s) && Homed(c, s) && Takes(c, s, e, k) && e !in Live(s)
    ensures var loc := c.locs(e)[k];
            var w := Keep(s, loc, e, isCurrent);
            && Sized(c, w) && Homed(c, w)
            && Live(w) == (if s.collected[loc] then Live(s) else Live(s) - {s.table[loc]}) + {e}
            && (!s.collected[loc] ==> s.table[loc] !in Live(w) && s.table[loc] in Live(s))
  {
    FillHomed(c, s, k, e, isCurrent);
    var loc := c.locs(e)[k];
    assert !s.collected[loc] ==> LiveAt(s, loc) && s.table[loc] in Live(s);
    forall x
      ensures x in Live(Keep(s, loc, e, isCurrent)) <==> x in (if s.collected[loc] then Live(s) else Live(s) - {s.table[loc]}) + {e}
    {
      FillSlotMember(c, s, loc, e, isCurrent, x);
    }
  }

  lemma FillSlotMember(c: Config, s: State, loc: nat, e: Element, isCurrent: bool, x: Element)
    requires Sized(c, s) && Homed(c, s) && loc < c.size && e !in Live(s)
    ensures var w := Keep(s, loc, e, isCurrent);
            x in Live(w) <==> x in (if s.collected[loc] then Live(s) else Live(s) - {s.table[loc]}) + {e}
  {
    hide FirstAt, Homed;
    var w := Keep(s, loc, e, isCurrent);
    LiveMember(s, x);
    LiveMember(w, x);
    if x == e {
      assert LiveAt(w, loc);
    } else if x in Live(w) {
      var i :| LiveAt(w, i) && w.table[i] == x;
      assert LiveAt(s, i) && s.table[i] == x;
      if LiveAt(s, loc) && s.table[loc] == x {
        LiveOnce(c, s, i, loc);
      }
    } else if i :| LiveAt(s, i) && s.table[i] == x {
      assert i != loc ==> LiveAt(w, i);
    }
  }

  /** What an insertion may do to the live elements: gain the new one, and lose at most one. */
  ghost predicate Conserves(before: set<Element>, e: Element, r: Outcome)
    requires |r.s.table| == |r.s.collected|
  {
    && |r.dropped| <= 1
    && (r.dropped == [] ==> Live(r.s) == before + {e})
    && (r.dropped != [] ==> Live(r.s) + {r.dropped[0]} == before + {e} && r.dropped[0] !in Live(r.s))
  }

  /** Through any chain of displacements: every live element is at home, and at most one is lost. */
  lemma {:induction false} DisplaceConserves(c: Config, s: State, e: Element, lastLoc: int, isCurrent: bool, depth: nat)
    requires ValidConfig(c) && Sized(c, s) && depth <= c.depthLimit && Homed(c, s) && e !in Live(s)
    ensures var r := Displace(c, s, e, lastLoc, isCurrent, depth);
            Sized(c, r.s) && Homed(c, r.s) && Conserves(Live(s), e, r) && r.s.counter == s.counter
    decreases c.depthLimit - depth
  {
    hide Homed, Live, FirstSet, NextLoc;
    if depth < c.depthLimit {
      var locs := c.locs(e);
      FirstSetFinds(s.collected, locs, 0);
      var k := FirstSet(s.collected, locs, 0);
      if k < 8 {
        FillSlot(c, s, k, e, isCurrent);
      } else {
        NextLocFits(c, e, lastLoc);
        var loc := NextLoc(locs, lastLoc);
        var i :| 0 <= i < 8 && locs[i] == loc;
        assert !s.collected[locs[i]];
        FillSlot(c, s, i, e, isCurrent);
        var w := s.(table := s.table[loc := e], epoch := s.epoch[loc := isCurrent]);
        assert w == Keep(s, loc, e, isCurrent);
        DisplaceConserves(c, w, s.table[loc], loc, s.epoch[loc], depth + 1);
        ConservesChain(Live(s), Live(w), e, s.table[loc], Displace(c, w, s.table[loc], loc, s.epoch[loc], depth + 1));
      }
    }
  }

  lemma ConservesChain(before: set<Element>, mid: set<Element>, e: Element, out: Element, r: Outcome)
    requires |r.s.table| == |r.s.collected|
    requires mid == before - {out} + {e} && out in before && Conserves(mid, out, r)
    ensures Conserves(before, e, r)
  {
    assert mid + {out} == before + {e};
  }

  lemma FirstHoldingIsFirst(c: Config, s: State, e: Element)
    requires ValidConfig(c) && Sized(c, s) && FirstHolding(s.table, c.locs(e), e, 0) < 8
    ensures FirstAt(c, s.table, e, c.locs(e)[FirstHolding(s.table, c.locs(e), e, 0)])
  {
    FirstHoldingFinds(s.table, c.locs(e), e, 0);
    assert FirstIs(c, s.table, e, c.locs(e)[FirstHolding(s.table, c.locs(e), e, 0)], FirstHolding(s.table, c.locs(e), e, 0));
  }

  /** A search finds a live element in its live slot, and finds nothing only if the element is not live. */
  lemma SearchIsRight(c: Config, s: State, e: Element)
    requires ValidConfig(c) && Sized(c, s) && Homed(c, s)
    ensures var k := FirstHolding(s.table, c.locs(e), e, 0);
            && (e in Live(s) ==> k < 8 && LiveAt(s, c.locs(e)[k]))
            && (k < 8 ==> s.table[c.locs(e)[k]] == e)
  {
    FirstHoldingFinds(s.table, c.locs(e), e, 0);
    if e in Live(s) {
      LiveMember(s, e);
      var i :| LiveAt(s, i) && s.table[i] == e;
      var l :| 0 <= l < |c.locs(e)| && FirstIs(c, s.table, e, i, l);
      FirstHoldingIsFirst(c, s, e);
      FirstAtUnique(c, s.table, e, i, c.locs(e)[FirstHolding(s.table, c.locs(e), e, 0)]);
    }
  }

  /** Keeping an element that already stands in one of its slots. */
  lemma KeepFound(c: Config, s: State, e: Element)
    requires ValidConfig(c) && Sized(c, s) && Homed(c, s) && FirstHolding(s.table, c.locs(e), e, 0) < 8
    ensures var w := Keep(s, c.locs(e)[FirstHolding(s.table, c.locs(e), e, 0)], e, true);
            Sized(c, w) && Homed(c, w) && Live(w) == Live(s) + {e}
  {
    hide FirstAt;
    SearchIsRight(c, s, e);
    FirstHoldingIsFirst(c, s, e);
    var loc := c.locs(e)[FirstHolding(s.table, c.locs(e), e, 0)];
    var w := Keep(s, loc, e, true);
    assert w.table == s.table;
    forall i
      ensures LiveAt(w, i) <==> LiveAt(s, i) || i == loc
    {
    }
    forall x
      ensures x in Live(w) <==> x in Live(s) + {e}
    {
      LiveMember(s, x);
      LiveMember(w, x);
      assert LiveAt(w, loc) && w.table[loc] == e;
    }
  }

  /** After the epoch check, an insertion keeps every live element but at most one, and adds the new
      one unless that is the one lost. */
  lemma PlaceConserves(c: Config, s: State, e: Element)
    requires ValidConfig(c) && Sized(c, s) && Homed(c, s)
    ensures var r := Place(c, s, e); Sized(c, r.s) && Homed(c, r.s) && Conserves(Live(s), e, r) && r.s.counter == s.counter
  {
    hide Homed, Live, FirstHolding;
    SearchIsRight(c, s, e);
    if FirstHolding(s.table, c.locs(e), e, 0) < 8 {
      KeepFound(c, s, e);
    } else {
      DisplaceConserves(c, s, e, INVALID, true, 0);
    }
  }

  // ----- erasing -----

  /** Erasing flags the live slot of the element, and no other. */
  lemma EraseRemoves(c: Config, s: State, e: Element)
    requires ValidConfig(c) && Sized(c, s) && Homed(c, s)
    ensures var w := Erase(c, s, e);
            && Sized(c, w) && Homed(c, w) && Live(w) == Live(s) - {e} && w.counter == s.counter
            && Current(w) <= Current(s) && Contains(c, w, e) == Contains(c, s, e)
  {
    hide FirstAt;
    SearchIsRight(c, s, e);
    var k := FirstHolding(s.table, c.locs(e), e, 0);
    var w := Erase(c, s, e);
    if k < 8 {
      var loc := c.locs(e)[k];
      forall i
        ensures LiveAt(w, i) <==> LiveAt(s, i) && i != loc
      {
      }
      forall x
        ensures x in Live(w) <==> x in Live(s) && x != e
      {
        LiveMember(s, x);
        LiveMember(w, x);
        if i :| LiveAt(s, i) && s.table[i] == x && x != e {
          assert LiveAt(w, i);
        }
        if i :| LiveAt(w, i) && w.table[i] == e {
          FirstHoldingIsFirst(c, s, e);
          FirstAtUnique(c, s.table, e, i, loc);
        }
      }
    }
  }

  /** A live element is always found. */
  lemma LiveIsContained(c: Config, s: State, e: Element)
    requires ValidConfig(c) && Sized(c, s) && Homed(c, s) && e in Live(s)
    ensures Contains(c, s, e)
  {
    SearchIsRight(c, s, e);
  }

  // ----- epochs -----

  lemma AgeLives(c: Config, s: State)
    requires Sized(c, s) && Homed(c, s)
    ensures var w := Age(c, s); Sized(c, w) && Homed(c, w) && Live(w) <= Live(s) && Current(w) == {}
    ensures forall i :: LiveAt(Age(c, s), i) <==> LiveAt(s, i) && s.epoch[i]
  {
    hide FirstAt;
    var w := Age(c, s);
    forall x | x in Live(w)
      ensures x in Live(s)
    {
      LiveMember(s, x);
      LiveMember(w, x);
      var i :| LiveAt(w, i) && w.table[i] == x;
      assert LiveAt(s, i);
    }
  }

  /** The most entries of the current epoch there can be. */
  function Bound(c: Config): int {
    c.epochSize + Max(1, c.epochSize / 16)
  }

  /** The epoch check only frees slots, and leaves room for one more entry of the current epoch. */
  lemma EpochCheckKeeps(c: Config, s: State)
    requires ValidConfig(c) && Sized(c, s) && Homed(c, s) && |Current(s)| + s.counter <= Bound(c)
    ensures var w := EpochCheck(c, s);
            && Sized(c, w) && Homed(c, w) && Live(w) <= Live(s)
            && |Current(w)| + w.counter + 1 <= Bound(c)
  {
    hide FirstAt;
    var w := EpochCheck(c, s);
    if s.counter == 0 && |Current(s)| >= c.epochSize {
      AgeLives(c, s);
    } else {
      SameTables(c, s, w);
    }
  }

  lemma SameTables(c: Config, s: State, w: State)
    requires Sized(c, s) && Homed(c, s) && w == s.(counter := w.counter)
    ensures Sized(c, w) && Homed(c, w) && Live(w) == Live(s) && Current(w) == Current(s)
  {
    hide FirstAt;
    assert forall i :: LiveAt(w, i) <==> LiveAt(s, i);
  }

  lemma KeepCurrent(s: State, loc: nat, e: Element, isCurrent: bool)
    requires loc < |s.table| == |s.collected| == |s.epoch|
    ensures |Current(Keep(s, loc, e, isCurrent))|
         == |Current(s)| - (if loc in Current(s) then 1 else 0) + if isCurrent then 1 else 0
  {
    hide Current;
    var w := Keep(s, loc, e, isCurrent);
    forall i: nat
      ensures i in Current(w) <==> i in WithOrWithout(Current(s), loc, isCurrent)
    {
      KeepCurrentAt(s, loc, e, isCurrent, i);
    }
    assert Current(w) == WithOrWithout(Current(s), loc, isCurrent);
  }

  lemma KeepCurrentAt(s: State, loc: nat, e: Element, isCurrent: bool, i: nat)
    requires loc < |s.table| == |s.collected| == |s.epoch|
    ensures i in Current(Keep(s, loc, e, isCurrent)) <==> if i == loc then isCurrent else i in Current(s)
  {
  }

  function WithOrWithout(a: set<nat>, x: nat, present: bool): (r: set<nat>)
    ensures forall i :: i in r <==> if i == x then present else i in a
    ensures |r| == |a| - (if x in a then 1 else 0) + if present then 1 else 0
  {
    if present then (a - {x}) + {x} else a - {x}
  }

  /** A displacement chain carries epochs along: only the new entry is new to the current one. */
  lemma {:induction false} DisplaceCurrent(c: Config, s: State, e: Element, lastLoc: int, isCurrent: bool, depth: nat)
    requires ValidConfig(c) && Sized(c, s) && depth <= c.depthLimit
    ensures var r := Displace(c, s, e, lastLoc, isCurrent, depth);
            |r.s.collected| == |r.s.epoch| && |Current(r.s)| <= |Current(s)| + if isCurrent then 1 else 0
    decreases c.depthLimit - depth
  {
    hide FirstSet, NextLoc, Current;
    if depth < c.depthLimit {
      var locs := c.locs(e);
      FirstSetFinds(s.collected, locs, 0);
      var k := FirstSet(s.collected, locs, 0);
      if k < 8 {
        KeepCurrent(s, locs[k], e, isCurrent);
      } else {
        NextLocFits(c, e, lastLoc);
        var loc := NextLoc(locs, lastLoc);
        var i :| 0 <= i < 8 && locs[i] == loc;
        assert !s.collected[locs[i]];
        CurrentAt(s, loc);
        KeepCurrent(s, loc, e, isCurrent);
        var w := s.(table := s.table[loc := e], epoch := s.epoch[loc := isCurrent]);
        assert w == Keep(s, loc, e, isCurrent);
        DisplaceCurrent(c, w, s.table[loc], loc, s.epoch[loc], depth + 1);
      }
    }
  }

  lemma CurrentAt(s: State, loc: nat)
    requires loc < |s.collected| == |s.epoch| && !s.collected[loc]
    ensures loc in Current(s) <==> s.epoch[loc]
  {
  }

  lemma PlaceCurrent(c: Config, s: State, e: Element)
    requires ValidConfig(c) && Sized(c, s)
    ensures var r := Place(c, s, e); |r.s.collected| == |r.s.epoch| && |Current(r.s)| <= |Current(s)| + 1
  {
    hide Current, FirstHolding;
    FirstHoldingFinds(s.table, c.locs(e), e, 0);
    var k := FirstHolding(s.table, c.locs(e), e, 0);
    if k < 8 {
      KeepCurrent(s, c.locs(e)[k], e, true);
    } else {
      DisplaceCurrent(c, s, e, INVALID, true, 0);
    }
  }

  // ----- whole runs -----

  datatype Event = InsertEvent(e: Element) | EraseEvent(e: Element)

  ghost predicate Inv(c: Config, s: State) {
    Sized(c, s) && Homed(c, s) && |Current(s)| + s.counter <= Bound(c)
  }

  ghost function Step(c: Config, s: State, ev: Event): (r: State)
    requires ValidConfig(c) && Sized(c, s)
    ensures Sized(c, r)
  {
    match ev
    case InsertEvent(e) => Insert(c, s, e).s
    case EraseEvent(e) => Erase(c, s, e)
  }

  /** An insertion: room is kept in the epoch, and apart from what the epoch check frees, at most one
      live element is lost. */
  lemma InsertKeeps(c: Config, s: State, e: Element)
    requires ValidConfig(c) && Inv(c, s)
    ensures Inv(c, Insert(c, s, e).s) && Conserves(Live(EpochCheck(c, s)), e, Insert(c, s, e))
  {
    hide Homed, Live, Place, EpochCheck, Current, Conserves;
    EpochCheckKeeps(c, s);
    PlaceConserves(c, EpochCheck(c, s), e);
    PlaceCurrent(c, EpochCheck(c, s), e);
  }

  lemma StepKeeps(c: Config, s: State, ev: Event)
    requires ValidConfig(c) && Inv(c, s)
    ensures Inv(c, Step(c, s, ev))
  {
    hide Homed, Live, Current, Insert, Erase, Contains;
    match ev
    case InsertEvent(e) => InsertKeeps(c, s, e);
    case EraseEvent(e) =>
      EraseRemoves(c, s, e);
      SubsetCard(Current(Erase(c, s, e)), Current(s));
  }

  lemma SetupInv(c: Config, default: Element)
    requires ValidConfig(c)
    ensures Inv(c, Setup(c, default)) && Live(Setup(c, default)) == {}
  {
    var s := Setup(c, default);
    assert forall i :: !LiveAt(s, i);
    assert Current(s) == {};
  }

  /** The cache after a run of insertions and erasures, from a fresh one. */
  ghost function After(c: Config, default: Element, events: seq<Event>): (s: State)
    requires ValidConfig(c)
    ensures Sized(c, s)
  {
    if events == [] then Setup(c, default)
    else Step(c, After(c, default, events[..|events| - 1]), events[|events| - 1])
  }

  /** After every run of insertions and erasures: every live element is in the one of its eight slots
      where a search finds it, and the current epoch never holds more than
      `epochSize + max(1, epochSize / 16)` live entries. */
  lemma {:induction false} RunKeeps(c: Config, default: Element, events: seq<Event>)
    requires ValidConfig(c)
    ensures Inv(c, After(c, default, events)) && |Current(After(c, default, events))| <= Bound(c)
  {
    hide Homed, Current, Step, Setup, Bound;
    if events == [] {
      SetupInv(c, default);
    } else {
      RunKeeps(c, default, events[..|events| - 1]);
      StepKeeps(c, After(c, default, events[..|events| - 1]), events[|events| - 1]);
    }
  }

  /** Whatever stands in the table is the default element or one of those given. */
  ghost predicate Drawn(s: State, default: Element, from: set<Element>) {
    forall i :: 0 <= i < |s.table| ==> s.table[i] == default || s.table[i] in from
  }

  /** A displacement moves elements and makes none up. */
  lemma {:induction false} DisplaceDraws(c: Config, s: State, e: Element, lastLoc: int, isCurrent: bool, depth: nat, default: Element, from: set<Element>)
    requires ValidConfig(c) && Sized(c, s) && depth <= c.depthLimit
    requires Drawn(s, default, from) && (e == default || e in from)
    ensures Drawn(Displace(c, s, e, lastLoc, isCurrent, depth).s, default, from)
    decreases c.depthLimit - depth
  {
    if depth < c.depthLimit && FirstSet(s.collected, c.locs(e), 0) >= 8 {
      NextLocFits(c, e, lastLoc);
      var loc := NextLoc(c.locs(e), lastLoc);
      DisplaceDraws(c, s.(table := s.table[loc := e], epoch := s.epoch[loc := isCurrent]), s.table[loc], loc, s.epoch[loc], depth + 1, default, from);
    }
  }

  lemma InsertDraws(c: Config, s: State, e: Element, default: Element, from: set<Element>)
    requires ValidConfig(c) && Sized(c, s) && Drawn(s, default, from) && e in from
    ensures Drawn(Insert(c, s, e).s, default, from)
  {
    hide Displace, Current, FirstHolding;
    var w := EpochCheck(c, s);
    assert w.table == s.table;
    DisplaceDraws(c, w, e, INVALID, true, 0, default, from);
  }

  ghost function Inserted(events: seq<Event>): set<Element> {
    set i | 0 <= i < |events| && events[i].InsertEvent? :: events[i].e
  }

  lemma InsertedGrows(events: seq<Event>)
    requires events != []
    ensures var before, last := events[..|events| - 1], events[|events| - 1];
            Inserted(before) <= Inserted(events) && (last.InsertEvent? ==> last.e in Inserted(events))
  {
    var before := events[..|events| - 1];
    forall x | x in Inserted(before)
      ensures x in Inserted(events)
    {
      var i :| 0 <= i < |before| && before[i].InsertEvent? && before[i].e == x;
      assert events[i].InsertEvent? && events[i].e == x;
    }
  }

  lemma {:induction false} RunDraws(c: Config, default: Element, events: seq<Event>)
    requires ValidConfig(c)
    ensures Drawn(After(c, default, events), default, Inserted(events))
  {
    hide Insert, Inserted, FirstHolding;
    if events != [] {
      var before, last := events[..|events| - 1], events[|events| - 1];
      RunDraws(c, default, before);
      InsertedGrows(events);
      if last.InsertEvent? {
        InsertDraws(c, After(c, default, before), last.e, default, Inserted(events));
      }
    }
  }

  /** After every run, `contains` says yes only to the default element and to what was inserted. */
  lemma ContainsOnlyInserted(c: Config, default: Element, events: seq<Event>, e: Element)
    requires ValidConfig(c) && Contains(c, After(c, default, events), e)
    ensures e == default || exists i :: 0 <= i < |events| && events[i] == InsertEvent(e)
  {
    hide After;
    RunDraws(c, default, events);
    FirstHoldingFinds(After(c, default, events).table, c.locs(e), e, 0);
    if e in Inserted(events) {
      var i :| 0 <= i < |events| && events[i].InsertEvent? && events[i].e == e;
      assert events[i] == InsertEvent(e);
    }
  }
}
