/**
 The cuckoo cache as the object it is, with its collection flags packed eight to
 a byte. Each method is proved against the value it leaves the cache with, as
 given in module Cuckoo.
 */
module CuckooCache {
  import opened Basics
  import opened Bits
  import opened Cuckoo

  function FlagsOf(mem: seq<bv8>, n: nat): seq<bool>
    requires n <= 8 * |mem|
  {
    seq(n, i requires 0 <= i < n => BitSet(mem[i / 8], i % 8))
  }

  /** The one byte is the other but for bit `k`. */
  ghost predicate OneBitApart(byte: bv8, b: bv8, k: nat, flag: bool) {
    forall j: nat :: j < 8 ==> BitSet(byte, j) == if j == k then flag else BitSet(b, j)
  }

  /** Changing one bit of one byte changes one flag. */
  lemma FlagsAfterWrite(mem: seq<bv8>, s: nat, n: nat, byte: bv8, flag: bool)
    requires s < n <= 8 * |mem|
    requires OneBitApart(byte, mem[s / 8], s % 8, flag)
    ensures FlagsOf(mem[s / 8 := byte], n) == FlagsOf(mem, n)[s := flag]
  {
    hide BitSet;
    var after, before := FlagsOf(mem[s / 8 := byte], n), FlagsOf(mem, n);
    forall i | 0 <= i < n
      ensures after[i] == if i == s then flag else before[i]
    {
      var b, j := i / 8, i % 8;
      assert i == 8 * b + j && s == 8 * (s / 8) + s % 8;
      if b == s / 8 {
        assert BitSet(byte, j) == if j == s % 8 then flag else BitSet(mem[s / 8], j);
      }
    }
  }

  lemma ByteAfterSet(b: bv8, k: nat)
    requires k < 8
    ensures OneBitApart(b | Bit(k), b, k, true)
  {
    hide Bit, BitSet;
    forall j: nat | j < 8
      ensures BitSet(b | Bit(k), j) == if j == k then true else BitSet(b, j)
    {
      SetBit(b, k, j);
    }
  }

  lemma ByteAfterClear(b: bv8, k: nat)
    requires k < 8
    ensures OneBitApart(b & !Bit(k), b, k, false)
  {
    hide Bit, BitSet;
    forall j: nat | j < 8
      ensures BitSet(b & !Bit(k), j) == if j == k then false else BitSet(b, j)
    {
      ClearBit(b, k, j);
    }
  }

  lemma FlagsAfterSet(mem: seq<bv8>, s: nat, n: nat)
    requires s < n <= 8 * |mem|
    ensures FlagsOf(mem[s / 8 := mem[s / 8] | Bit(s % 8)], n) == FlagsOf(mem, n)[s := true]
  {
    hide *;
    ByteAfterSet(mem[s / 8], s % 8);
    FlagsAfterWrite(mem, s, n, mem[s / 8] | Bit(s % 8), true);
  }

  lemma FlagsAfterClear(mem: seq<bv8>, s: nat, n: nat)
    requires s < n <= 8 * |mem|
    ensures FlagsOf(mem[s / 8 := mem[s / 8] & !Bit(s % 8)], n) == FlagsOf(mem, n)[s := false]
  {
    hide *;
    ByteAfterClear(mem[s / 8], s % 8);
    FlagsAfterWrite(mem, s, n, mem[s / 8] & !Bit(s % 8), false);
  }

  /** `bit_packed_atomic_flags`. */
  class BitPackedFlags {
    var mem: seq<bv8>

    /** The first `n` flags. */
    ghost function Flags(n: nat): (r: seq<bool>)
      requires n <= 8 * |mem|
      reads this
      ensures |r| == n
    {
      FlagsOf(mem, n)
    }

    constructor (size: nat)
      ensures size <= 8 * |mem| && Flags(size) == seq(size, i => true)
    {
      mem := seq((size + 7) / 8, i => 0xFF);
      new;
      forall i | 0 <= i < size
        ensures Flags(size)[i]
      {
        AllBitsSet(i % 8);
      }
    }

    method SetFlag(s: nat, ghost n: nat)
      requires s < n <= 8 * |mem|
      modifies this
      ensures |mem| == old(|mem|) && Flags(n) == old(Flags(n))[s := true]
    {
      FlagsAfterSet(mem, s, n);
      mem := mem[s / 8 := mem[s / 8] | Bit(s % 8)];
    }

    method ClearFlag(s: nat, ghost n: nat)
      requires s < n <= 8 * |mem|
      modifies this
      ensures |mem| == old(|mem|) && Flags(n) == old(Flags(n))[s := false]
    {
      FlagsAfterClear(mem, s, n);
      mem := mem[s / 8 := mem[s / 8] & !Bit(s % 8)];
    }

    method IsSet(s: nat, ghost n: nat) returns (r: bool)
      requires s < n <= 8 * |mem|
      ensures r == Flags(n)[s]
    {
      r := BitSet(mem[s / 8], s % 8);
    }
  }

  /** The live slots of the current epoch below a slot. */
  ghost function CurrentBelow(s: State, i: nat): set<nat>
    requires |s.collected| == |s.epoch|
  {
    set j | j in Current(s) && j < i
  }

  lemma CurrentBelowNext(s: State, i: nat)
    requires i < |s.collected| == |s.epoch|
    ensures |CurrentBelow(s, i + 1)| == |CurrentBelow(s, i)| + if s.epoch[i] && !s.collected[i] then 1 else 0
  {
    var here := if s.epoch[i] && !s.collected[i] then {i} else {};
    assert CurrentBelow(s, i + 1) == CurrentBelow(s, i) + here;
  }

  lemma CurrentBelowEnds(s: State)
    requires |s.collected| == |s.epoch|
    ensures CurrentBelow(s, 0) == {} && CurrentBelow(s, |s.epoch|) == Current(s)
  {
  }

  class Cache {
    const c: Config
    const flags: BitPackedFlags
    var table: seq<Element>
    var epochFlags: seq<bool>
    var counter: nat

    ghost predicate Valid()
      reads this, flags
    {
      ValidConfig(c) && |table| == |epochFlags| == c.size && c.size <= 8 * |flags.mem|
    }

    ghost function Model(): State
      requires Valid()
      reads this, flags
    {
      State(table, flags.Flags(c.size), epochFlags, counter)
    }

    constructor (c: Config, default: Element)
      requires ValidConfig(c)
      ensures Valid() && this.c == c && fresh(flags) && Model() == Setup(c, default)
    {
      this.c := c;
      table := seq(c.size, i => default);
      epochFlags := seq(c.size, i => false);
      counter := c.epochSize;
      flags := new BitPackedFlags(c.size);
    }

    /** The scan of `epoch_check`. */
    method CountCurrent() returns (count: nat)
      requires Valid()
      ensures count == |Current(Model())|
    {
      hide Current;
      count := 0;
      var i := 0;
      CurrentBelowEnds(Model());
      while i < c.size
        invariant 0 <= i <= c.size && count == |CurrentBelow(Model(), i)|
      {
        CurrentBelowNext(Model(), i);
        var isCollected := flags.IsSet(i, c.size);
        if epochFlags[i] && !isCollected {
          count := count + 1;
        }
        i := i + 1;
      }
    }

    /** The ageing loop of `epoch_check`. */
    method AgeEpoch()
      requires Valid()
      modifies this, flags
      ensures Valid() && Model() == Age(c, old(Model()))
    {
      ghost var m := Model();
      var i := 0;
      while i < c.size
        invariant 0 <= i <= c.size && Valid() && table == m.table
        invariant forall j :: 0 <= j < c.size ==> epochFlags[j] == if j < i then false else m.epoch[j]
        invariant forall j :: 0 <= j < c.size ==> Model().collected[j] == if j < i then m.collected[j] || !m.epoch[j] else m.collected[j]
      {
        if epochFlags[i] {
          epochFlags := epochFlags[i := false];
        } else {
          flags.SetFlag(i, c.size);
        }
        i := i + 1;
      }
      counter := c.epochSize;
    }

    method EpochCheck()
      requires Valid()
      modifies this, flags
      ensures Valid() && Model() == Cuckoo.EpochCheck(c, old(Model()))
    {
      hide Age;
      if counter != 0 {
        counter := counter - 1;
        return;
      }
      var count := CountCurrent();
      if count >= c.epochSize {
        AgeEpoch();
      } else {
        counter := Max(1, Max(c.epochSize / 16, c.epochSize - count));
      }
    }

    /** The first of an element's slots that holds it, or 8. */
    method Search(e: Element) returns (k: nat)
      requires Valid()
      ensures k == FirstHolding(table, c.locs(e), e, 0) && k <= 8
    {
      k := 0;
      while k < 8 && table[c.locs(e)[k]] != e
        invariant k <= 8 && FirstHolding(table, c.locs(e), e, k) == FirstHolding(table, c.locs(e), e, 0)
      {
        k := k + 1;
      }
    }

    /** The first of some slots that is free, or 8. */
    method SearchFree(locs: seq<nat>) returns (k: nat)
      requires Valid() && |locs| == 8 && forall i :: 0 <= i < 8 ==> locs[i] < c.size
      ensures k == FirstSet(Model().collected, locs, 0) && k <= 8
    {
      k := 0;
      while k < 8
        invariant k <= 8 && FirstSet(Model().collected, locs, k) == FirstSet(Model().collected, locs, 0)
      {
        var free := flags.IsSet(locs[k], c.size);
        if free {
          return;
        }
        k := k + 1;
      }
    }

    method KeepAt(loc: nat, e: Element, isCurrent: bool)
      requires Valid() && loc < c.size
      modifies this`table, this`epochFlags, flags
      ensures Valid() && Model() == Keep(old(Model()), loc, e, isCurrent)
    {
      table := table[loc := e];
      flags.ClearFlag(loc, c.size);
      epochFlags := epochFlags[loc := isCurrent];
    }

    /** `insert`. `dropped` is the element that fell out, which the code lets go. */
    method Insert(elem: Element) returns (ghost dropped: seq<Element>)
      requires Valid()
      modifies this, flags
      ensures Valid() && Outcome(Model(), dropped) == Cuckoo.Insert(c, old(Model()), elem)
    {
      hide FirstHolding, FirstSet, NextLoc, Keep, BitPackedFlags.Flags;
      EpochCheck();
      ghost var m := Model();
      var e, locs, lastLoc, lastEpoch := elem, c.locs(elem), INVALID, true;
      var k := Search(e);
      if k < 8 {
        KeepAt(locs[k], e, lastEpoch);
        return [];
      }
      var depth := 0;
      while depth < c.depthLimit
        invariant depth <= c.depthLimit && Valid() && locs == c.locs(e) && counter == m.counter
        invariant Displace(c, Model(), e, lastLoc, lastEpoch, depth) == Displace(c, m, elem, INVALID, true, 0)
      {
        k := SearchFree(locs);
        if k < 8 {
          KeepAt(locs[k], e, lastEpoch);
          return [];
        }
        NextLocFits(c, e, lastLoc);
        lastLoc := NextLoc(locs, lastLoc);
        table, e := table[lastLoc := e], table[lastLoc];
        epochFlags, lastEpoch := epochFlags[lastLoc := lastEpoch], epochFlags[lastLoc];
        locs := c.locs(e);
        depth := depth + 1;
      }
      dropped := [e];
    }

    method Contains(e: Element, erase: bool) returns (found: bool)
      requires Valid()
      modifies flags
      ensures Valid() && found == Cuckoo.Contains(c, old(Model()), e)
      ensures Model() == if erase then Erase(c, old(Model()), e) else old(Model())
    {
      var k := Search(e);
      found := k < 8;
      if found && erase {
        flags.SetFlag(c.locs(e)[k], c.size);
      }
    }
  }
}
