/**
 The tree of block headers and the active chain (src/chain.h, src/chain.cpp): every
 block points to the one before it and to one much earlier, and the chain is a list of
 blocks by height.
 */
module Chain {
  import opened Powers
  import opened Limbs

  // ----- skip heights -----

  function InvertLowestOne(n: nat): nat {
    if n == 0 then 0 else BitAnd(n, n - 1)
  }

  /** The lowest bit that is set, as a number. */
  function LowestOne(n: nat): nat
    requires n > 0
  {
    if n % 2 == 1 then 1 else 2 * LowestOne(n / 2)
  }

  /** Clearing the lowest bit set takes exactly that bit away. */
  lemma {:induction false} InvertTakesLowestOne(n: nat)
    requires n > 0
    ensures 0 < LowestOne(n) <= n && InvertLowestOne(n) == n - LowestOne(n)
  {
    if n % 2 == 1 {
      assert (n - 1) / 2 == n / 2;
      BitAndSelf(n / 2);
    } else {
      InvertTakesLowestOne(n / 2);
      assert (n - 1) / 2 == n / 2 - 1 && (n - 1) % 2 == 1;
    }
  }

  function SkipHeight(height: nat): nat {
    if height < 2 then 0
    else if height % 2 == 1 then InvertLowestOne(InvertLowestOne(height - 1)) + 1
    else InvertLowestOne(height)
  }

  /** A skip always goes back. */
  lemma SkipIsEarlier(height: nat)
    requires height > 0
    ensures SkipHeight(height) < height
  {
    if height >= 2 {
      InvertTakesLowestOne(height);
      InvertTakesLowestOne(height - 1);
      var h := InvertLowestOne(height - 1);
      if h > 0 {
        InvertTakesLowestOne(h);
      }
    }
  }

  /** Where the walk of `GetAncestor` towards `target` goes next: along the skip pointer, unless it
      overshoots, or the one of the block before leads further without overshooting. */
  function NextHeight(height: nat, target: nat): (r: nat)
    requires height > target
    ensures target <= r < height
  {
    SkipIsEarlier(height);
    var skip, skipPrev := SkipHeight(height), SkipHeight(height - 1);
    if skip == target || (skip > target && !(skipPrev < skip - 2 && skipPrev >= target)) then skip else height - 1
  }

  /** How many blocks the walk passes through. */
  function Steps(height: nat, target: nat): nat
    requires height >= target
    decreases height
  {
    if height == target then 0 else 1 + Steps(NextHeight(height, target), target)
  }

  lemma StepsUnfold(height: nat, target: nat)
    ensures Steps(target, target) == 0
    ensures height > target ==>
      var skip, skipPrev := SkipHeight(height), SkipHeight(height - 1);
      && skip < height
      && Steps(height, target) == 1 +
           if skip == target || (skip > target && !(skipPrev < skip - 2 && skipPrev >= target)) then Steps(skip, target)
           else Steps(height - 1, target)
  {
    hide SkipHeight;
    if height > 0 {
      SkipIsEarlier(height);
    }
  }

  // ----- the block tree -----

  class BlockIndex {
    var pprev: BlockIndex?
    var pskip: BlockIndex?
    var nHeight: nat

    constructor (prev: BlockIndex?)
      ensures pprev == prev && pskip == null
      ensures nHeight == if prev == null then 0 else prev.nHeight + 1
    {
      pprev, pskip := prev, null;
      nHeight := if prev == null then 0 else prev.nHeight + 1;
    }

    /** `GetAncestor`: along the skip pointers where they help, else block by block. */
    method GetAncestor(height: int, ghost tree: set<BlockIndex>) returns (r: BlockIndex?, ghost steps: nat)
      requires Tree(tree) && this in tree
      ensures r == if 0 <= height <= nHeight then Ancestor(tree, this, height) else null
      ensures 0 <= height <= nHeight && Skipped(tree) ==> steps == Steps(nHeight, height)
    {
      hide *;
      if height > nHeight || height < 0 {
        return null, 0;
      }
      var walk, heightWalk := this, nHeight;
      steps := 0;
      TreeIsLinked(tree);
      while heightWalk > height
        invariant walk in tree && heightWalk == walk.nHeight && height <= heightWalk && Linked(tree)
        invariant Ancestor(tree, walk, height) == Ancestor(tree, this, height)
        invariant Skipped(tree) ==> steps + Steps(heightWalk, height) == Steps(nHeight, height)
      {
        WalkStep(tree, walk, height);
        StepsUnfold(heightWalk, height);
        var heightSkip := SkipHeight(heightWalk);
        var heightSkipPrev := SkipHeight(heightWalk - 1);
        if walk.pskip != null &&
           (heightSkip == height ||
            (heightSkip > height && !(heightSkipPrev < heightSkip - 2 && heightSkipPrev >= height)))
        {
          walk := walk.pskip;
          heightWalk := heightSkip;
        } else {
          walk := walk.pprev;
          heightWalk := heightWalk - 1;
        }
        steps := steps + 1;
      }
      AncestorAt(tree, walk);
      StepsUnfold(height, height);
      r := walk;
    }

    /** `BuildSkip`: a new block joins the tree with a skip pointer of its own. */
    method BuildSkip(ghost tree: set<BlockIndex>)
      requires Tree(tree) && this !in tree && pskip == null
      requires pprev == null ==> nHeight == 0
      requires pprev != null ==> pprev in tree && nHeight == pprev.nHeight + 1
      modifies this`pskip
      ensures Tree(tree + {this}) && (Skipped(tree) ==> Skipped(tree + {this}))
      ensures pprev != null ==> pskip != null && pskip == Ancestor(tree + {this}, this, SkipHeight(nHeight))
      ensures forall b, h :: b in tree && 0 <= h <= b.nHeight ==> Ancestor(tree + {this}, b, h) == Ancestor(tree, b, h)
    {
      hide Ancestor, SkipHeight;
      if pprev != null {
        SkipIsEarlier(nHeight);
        ghost var steps;
        pskip, steps := pprev.GetAncestor(SkipHeight(nHeight), tree);
      }
      Joins(tree, this);
    }
  }

  /** Heights and links agree: every block is one above the block before it. */
  ghost predicate Linked(tree: set<BlockIndex>)
    reads tree
  {
    forall b :: b in tree ==>
      (b.pprev == null ==> b.nHeight == 0) &&
      (b.pprev != null ==> b.pprev in tree && b.nHeight == b.pprev.nHeight + 1)
  }

  /** The block of height `h` on the way down from `b`: what following `pprev` alone finds. */
  ghost function Ancestor(tree: set<BlockIndex>, b: BlockIndex, h: nat): (r: BlockIndex)
    requires Linked(tree) && b in tree && h <= b.nHeight
    reads tree
    ensures r in tree && r.nHeight == h
    decreases b.nHeight
  {
    if h == b.nHeight then b else Ancestor(tree, b.pprev, h)
  }

  /** Every skip pointer leads to the ancestor of its height. */
  ghost predicate Tree(tree: set<BlockIndex>)
    reads tree
  {
    && Linked(tree)
    && forall b :: b in tree && b.pskip != null ==>
         b.nHeight > 0 && SkipHeight(b.nHeight) < b.nHeight && b.pskip == Ancestor(tree, b, SkipHeight(b.nHeight))
  }

  /** Every block but the first has its skip pointer. */
  ghost predicate Skipped(tree: set<BlockIndex>)
    reads tree
  {
    forall b :: b in tree && b.nHeight > 0 ==> b.pskip != null
  }

  lemma {:induction false} AncestorOfAncestor(tree: set<BlockIndex>, b: BlockIndex, h: nat, k: nat)
    requires Linked(tree) && b in tree && k <= h <= b.nHeight
    ensures Ancestor(tree, Ancestor(tree, b, h), k) == Ancestor(tree, b, k)
    decreases b.nHeight
  {
    if h < b.nHeight {
      AncestorOfAncestor(tree, b.pprev, h, k);
    }
  }

  lemma TreeIsLinked(tree: set<BlockIndex>)
    requires Tree(tree)
    ensures Linked(tree)
  {
  }

  lemma AncestorAt(tree: set<BlockIndex>, b: BlockIndex)
    requires Linked(tree) && b in tree
    ensures Ancestor(tree, b, b.nHeight) == b
  {
  }

  /** Either way down from a block, what is left to walk stays the same. */
  lemma WalkStep(tree: set<BlockIndex>, b: BlockIndex, height: nat)
    requires Tree(tree) && b in tree && b.nHeight > height
    ensures Linked(tree)
    ensures b.pprev != null && b.pprev in tree && b.pprev.nHeight == b.nHeight - 1
    ensures Ancestor(tree, b.pprev, height) == Ancestor(tree, b, height)
    ensures b.pskip != null ==> b.pskip in tree && b.pskip.nHeight == SkipHeight(b.nHeight) < b.nHeight
    ensures b.pskip != null && SkipHeight(b.nHeight) >= height ==> Ancestor(tree, b.pskip, height) == Ancestor(tree, b, height)
    ensures Skipped(tree) ==> b.pskip != null
  {
    hide SkipHeight;
    SkipIsEarlier(b.nHeight);
    if SkipHeight(b.nHeight) >= height {
      AncestorOfAncestor(tree, b, SkipHeight(b.nHeight), height);
    }
  }

  lemma Joins(tree: set<BlockIndex>, x: BlockIndex)
    requires Tree(tree) && x !in tree
    requires x.pprev == null ==> x.nHeight == 0 && x.pskip == null
    requires x.pprev != null ==> x.pprev in tree && x.nHeight == x.pprev.nHeight + 1 && SkipHeight(x.nHeight) < x.nHeight
                                 && x.pskip == Ancestor(tree, x.pprev, SkipHeight(x.nHeight))
    ensures Tree(tree + {x})
    ensures forall b, h :: b in tree && 0 <= h <= b.nHeight ==> Ancestor(tree + {x}, b, h) == Ancestor(tree, b, h)
    ensures x.pprev != null ==> x.pskip == Ancestor(tree + {x}, x, SkipHeight(x.nHeight))
  {
    hide SkipHeight;
    SameAncestors(tree, x);
  }

  /** A block that nothing points to yet changes no one's ancestors. */
  lemma SameAncestors(tree: set<BlockIndex>, x: BlockIndex)
    requires Linked(tree) && Linked(tree + {x})
    ensures forall b, h :: b in tree && 0 <= h <= b.nHeight ==> Ancestor(tree + {x}, b, h) == Ancestor(tree, b, h)
  {
    forall b, h | b in tree && 0 <= h <= b.nHeight
      ensures Ancestor(tree + {x}, b, h) == Ancestor(tree, b, h)
    {
      SameAncestor(tree, x, b, h);
    }
  }

  lemma {:induction false} SameAncestor(tree: set<BlockIndex>, x: BlockIndex, b: BlockIndex, h: nat)
    requires Linked(tree) && Linked(tree + {x})
    requires b in tree && h <= b.nHeight
    ensures Ancestor(tree + {x}, b, h) == Ancestor(tree, b, h)
    decreases b.nHeight
  {
    if h < b.nHeight {
      SameAncestor(tree, x, b.pprev, h);
    }
  }

  // ----- the active chain -----

  class Chain {
    var vChain: seq<BlockIndex?>

    constructor ()
      ensures vChain == []
    {
      vChain := [];
    }

    /** The chain is empty, or it is the path of its last block, from height 0 on. */
    ghost predicate Valid(tree: set<BlockIndex>)
      requires Linked(tree)
      reads this, tree
    {
      ValidPath(tree, vChain)
    }

    predicate Contains(b: BlockIndex)
      reads this, b
    {
      b.nHeight < |vChain| && vChain[b.nHeight] == b
    }

    /** `SetTip`: write the path of the block down from the top, and stop where it is there already. */
    method SetTip(tip: BlockIndex?, ghost tree: set<BlockIndex>)
      requires Tree(tree) && Valid(tree) && (tip != null ==> tip in tree)
      modifies this
      ensures Valid(tree)
      ensures tip == null ==> vChain == []
      ensures tip != null ==> |vChain| == tip.nHeight + 1 && IsPath(tree, vChain, tip)
    {
      hide *;
      if tip == null {
        vChain := [];
        ValidIs(tree);
        return;
      }
      var n := tip.nHeight + 1;
      ghost var before := vChain;
      ValidIs(tree);
      vChain := if n <= |vChain| then vChain[..n] else vChain + seq(n - |vChain|, i => null);
      var b: BlockIndex? := tip;
      SelfAncestor(tree, tip);
      Resized(tree, vChain, before, tip);
      while b != null && vChain[b.nHeight] != b
        invariant |vChain| == n
        invariant b != null ==> IsAncestor(tree, tip, b) && b.nHeight < n && Prefix(vChain, before, b.nHeight + 1)
        invariant Written(tree, tip, vChain, if b == null then 0 else b.nHeight + 1)
        decreases if b == null then 0 else b.nHeight + 1
      {
        WriteStep(tree, tip, vChain, before, b);
        vChain := vChain[b.nHeight := b];
        b := b.pprev;
      }
      if b != null {
        Meets(tree, before, tip, b, vChain);
      } else {
        AllWritten(tree, tip, vChain);
      }
      SelfAncestor(tree, tip);
      PathEnds(tree, vChain, tip);
      ValidIs(tree);
    }

    lemma ValidIs(tree: set<BlockIndex>)
      requires Tree(tree)
      ensures Linked(tree)
      ensures Valid(tree) <==> ValidPath(tree, vChain)
      ensures vChain == [] ==> Valid(tree)
    {
    }

    /** `FindFork`: the highest block of the chain that the given block descends from. */
    method FindFork(b: BlockIndex?, ghost tree: set<BlockIndex>) returns (r: BlockIndex?)
      requires Tree(tree) && Valid(tree) && (b != null ==> b in tree)
      ensures b == null ==> r == null
      ensures r != null ==> b != null && Contains(r) && IsAncestor(tree, b, r)
      ensures b != null ==> Apart(tree, b, if r == null then 0 else r.nHeight + 1)
    {
      hide Ancestor, SkipHeight, Linked;
      if b == null {
        return null;
      }
      r := b;
      if b.nHeight > |vChain| - 1 {
        ghost var steps;
        r, steps := b.GetAncestor(|vChain| - 1, tree);
      }
      ApartAbove(tree, b);
      while r != null && !Contains(r)
        invariant r != null ==> IsAncestor(tree, b, r)
        invariant Apart(tree, b, if r == null then 0 else r.nHeight + 1)
        decreases if r == null then 0 else r.nHeight + 1
      {
        ApartStep(tree, b, r);
        r := r.pprev;
      }
    }

    /** `GetLocator`: the block itself, then ancestors ever further back, the last of height 0. */
    method GetLocator(b: BlockIndex?, ghost tree: set<BlockIndex>) returns (have: seq<BlockIndex>)
      requires Tree(tree) && Valid(tree) && (b != null ==> b in tree)
      ensures b == null && vChain == [] ==> have == []
      ensures b != null ==> IsLocator(tree, b, have)
      ensures b == null && vChain != [] ==> vChain[|vChain| - 1] != null && IsLocator(tree, vChain[|vChain| - 1], have)
    {
      hide Ancestor, SkipHeight, Linked, LocatorHeights;
      var step: nat := 1;
      have := [];
      if b == null && |vChain| == 0 {
        return;
      }
      var walk: BlockIndex := if b == null then vChain[|vChain| - 1] else b;
      ghost var start := walk;
      SelfAncestor(tree, start);
      LocatorStart(tree, start);
      while true
        invariant step == StepAt(|have|) && IsAncestor(tree, start, walk)
        invariant Gathered(tree, start, have, LocatorHeights(walk.nHeight, |have|))
        decreases walk.nHeight
      {
        ghost var before, at := have, walk;
        have := have + [walk];
        LocatorStep(tree, start, before, walk);
        if walk.nHeight == 0 {
          break;
        }
        var height := if walk.nHeight > step then walk.nHeight - step else 0;
        AncestorOfAncestor(tree, start, walk.nHeight, height);
        if Contains(walk) {
          OnChain(tree, walk, height);
          walk := vChain[height];
        } else {
          ghost var steps;
          walk, steps := walk.GetAncestor(height, tree);
        }
        if |have| > 10 {
          step := step * 2;
        }
      }
    }

    lemma OnChain(tree: set<BlockIndex>, b: BlockIndex, h: nat)
      requires Tree(tree) && Valid(tree) && b in tree && Contains(b) && h <= b.nHeight
      ensures vChain[h] == Ancestor(tree, b, h)
    {
      hide Ancestor, SkipHeight, Linked;
      AncestorOfAncestor(tree, vChain[|vChain| - 1], b.nHeight, h);
    }

    /** From height `low` up, no ancestor of the block is in the chain. */
    ghost predicate Apart(tree: set<BlockIndex>, b: BlockIndex, low: nat)
      requires Tree(tree) && b in tree
      reads this, tree
    {
      forall h :: low <= h <= b.nHeight ==> !Contains(Ancestor(tree, b, h))
    }

    lemma ApartAbove(tree: set<BlockIndex>, b: BlockIndex)
      requires Tree(tree) && b in tree
      ensures Apart(tree, b, |vChain|) && Apart(tree, b, b.nHeight + 1)
      ensures IsAncestor(tree, b, b)
    {
    }

    lemma ApartStep(tree: set<BlockIndex>, b: BlockIndex, r: BlockIndex)
      requires Tree(tree) && b in tree && IsAncestor(tree, b, r) && !Contains(r) && Apart(tree, b, r.nHeight + 1)
      ensures Apart(tree, b, r.nHeight)
      ensures (r.pprev == null <==> r.nHeight == 0) && (r.pprev != null ==> IsAncestor(tree, b, r.pprev) && r.pprev.nHeight + 1 == r.nHeight)
    {
      hide Ancestor, SkipHeight, Linked;
      AncestorStep(tree, b, r.nHeight);
      StepDown(tree, r);
    }
  }

  ghost predicate IsAncestor(tree: set<BlockIndex>, b: BlockIndex, a: BlockIndex)
    requires Tree(tree) && b in tree
    reads tree, a
  {
    a in tree && a.nHeight <= b.nHeight && a == Ancestor(tree, b, a.nHeight)
  }

  /** A list of blocks, by height, that leads up to a block. */
  ghost predicate IsPath(tree: set<BlockIndex>, path: seq<BlockIndex?>, tip: BlockIndex)
    requires Linked(tree) && tip in tree
    reads tree
  {
    |path| == tip.nHeight + 1 && forall i :: 0 <= i < |path| ==> path[i] == Ancestor(tree, tip, i)
  }

  ghost predicate ValidPath(tree: set<BlockIndex>, path: seq<BlockIndex?>)
    requires Linked(tree)
    reads tree
  {
    path != [] ==>
      var tip := path[|path| - 1];
      tip != null && tip in tree && IsPath(tree, path, tip)
  }

  /** Up to height `n` a list holds what it held before, or nothing where it did not reach. */
  ghost predicate Prefix(path: seq<BlockIndex?>, before: seq<BlockIndex?>, n: nat) {
    n <= |path| && forall i :: 0 <= i < n ==> path[i] == if i < |before| then before[i] else null
  }

  /** From height `low` up, a list holds the ancestors of the tip. */
  ghost predicate Written(tree: set<BlockIndex>, tip: BlockIndex, path: seq<BlockIndex?>, low: nat)
    requires Linked(tree) && tip in tree
    reads tree
  {
    |path| == tip.nHeight + 1 && forall i :: low <= i <= tip.nHeight ==> path[i] == Ancestor(tree, tip, i)
  }

  lemma SelfAncestor(tree: set<BlockIndex>, b: BlockIndex)
    requires Tree(tree) && b in tree
    ensures IsAncestor(tree, b, b)
  {
  }

  lemma StepDown(tree: set<BlockIndex>, b: BlockIndex)
    requires Linked(tree) && b in tree
    ensures b.pprev == null ==> b.nHeight == 0
    ensures b.pprev != null ==> b.pprev in tree && b.pprev.nHeight + 1 == b.nHeight
  {
  }

  lemma Resized(tree: set<BlockIndex>, path: seq<BlockIndex?>, before: seq<BlockIndex?>, tip: BlockIndex)
    requires Linked(tree) && tip in tree && |path| == tip.nHeight + 1
    requires forall i :: 0 <= i < |path| ==> path[i] == if i < |before| then before[i] else null
    ensures Prefix(path, before, |path|) && Written(tree, tip, path, |path|)
  {
  }

  lemma WriteStep(tree: set<BlockIndex>, tip: BlockIndex, path: seq<BlockIndex?>, before: seq<BlockIndex?>, b: BlockIndex)
    requires Tree(tree) && tip in tree && IsAncestor(tree, tip, b) && b.nHeight < |path|
    requires Prefix(path, before, b.nHeight + 1) && Written(tree, tip, path, b.nHeight + 1)
    ensures var more := path[b.nHeight := b];
            Written(tree, tip, more, b.nHeight) && Prefix(more, before, b.nHeight)
    ensures b.pprev == null ==> b.nHeight == 0
    ensures b.pprev != null ==> IsAncestor(tree, tip, b.pprev) && b.pprev.nHeight + 1 == b.nHeight
  {
    hide Ancestor, SkipHeight, Linked;
    AncestorStep(tree, tip, b.nHeight);
    StepDown(tree, b);
  }

  lemma AllWritten(tree: set<BlockIndex>, tip: BlockIndex, path: seq<BlockIndex?>)
    requires Linked(tree) && tip in tree && Written(tree, tip, path, 0)
    ensures IsPath(tree, path, tip)
  {
  }

  lemma PathEnds(tree: set<BlockIndex>, path: seq<BlockIndex?>, tip: BlockIndex)
    requires Tree(tree) && tip in tree && IsPath(tree, path, tip)
    ensures ValidPath(tree, path) && |path| == tip.nHeight + 1
  {
    assert Ancestor(tree, tip, tip.nHeight) == tip;
  }

  /** Where the old chain already holds an ancestor of the new tip, everything below agrees as well. */
  lemma Meets(tree: set<BlockIndex>, before: seq<BlockIndex?>, tip: BlockIndex, b: BlockIndex, path: seq<BlockIndex?>)
    requires Tree(tree) && tip in tree && IsAncestor(tree, tip, b)
    requires Written(tree, tip, path, b.nHeight + 1) && Prefix(path, before, b.nHeight + 1) && path[b.nHeight] == b
    requires ValidPath(tree, before)
    ensures IsPath(tree, path, tip)
  {
    hide Ancestor, SkipHeight, Linked;
    forall i | 0 <= i <= b.nHeight
      ensures path[i] == Ancestor(tree, tip, i)
    {
      AncestorOfAncestor(tree, before[|before| - 1], b.nHeight, i);
      AncestorOfAncestor(tree, tip, b.nHeight, i);
    }
  }

  /** One step down: the ancestor below an ancestor is the block before it. */
  lemma AncestorStep(tree: set<BlockIndex>, b: BlockIndex, h: nat)
    requires Linked(tree) && b in tree && h <= b.nHeight
    ensures var a := Ancestor(tree, b, h);
            (a.pprev == null <==> h == 0) && (a.pprev != null ==> a.pprev == Ancestor(tree, b, h - 1))
  {
    if h > 0 {
      AncestorOfAncestor(tree, b, h, h - 1);
    }
  }

  // ----- locators -----

  /** How far back the locator goes after entry `i`: one block at a time at first, then doubling. */
  function StepAt(i: nat): nat {
    if i <= 10 then 1 else 2 * StepAt(i - 1)
  }

  /** The heights of a locator from entry `i` on, when that entry has height `h`. */
  function LocatorHeights(h: nat, i: nat): seq<nat>
    decreases h
  {
    StepPositive(i);
    [h] + if h == 0 then [] else LocatorHeights(if h > StepAt(i) then h - StepAt(i) else 0, i + 1)
  }

  lemma {:induction false} StepPositive(i: nat)
    ensures StepAt(i) > 0
  {
    if i > 10 {
      StepPositive(i - 1);
    }
  }

  /** A list of ancestors of `start` with the heights a locator has. */
  ghost predicate IsLocator(tree: set<BlockIndex>, start: BlockIndex, have: seq<BlockIndex>)
    requires Tree(tree) && start in tree
    reads tree, have
  {
    AtHeights(tree, start, have, LocatorHeights(start.nHeight, 0))
  }

  ghost predicate AtHeights(tree: set<BlockIndex>, start: BlockIndex, have: seq<BlockIndex>, heights: seq<nat>)
    requires Tree(tree) && start in tree
    reads tree, have
  {
    |have| == |heights| && forall i :: 0 <= i < |have| ==> IsAncestor(tree, start, have[i]) && have[i].nHeight == heights[i]
  }

  /** The blocks found so far have the first heights of the locator, and `more` are those still to come. */
  ghost predicate Gathered(tree: set<BlockIndex>, start: BlockIndex, have: seq<BlockIndex>, more: seq<nat>)
    requires Tree(tree) && start in tree
    reads tree, have
  {
    exists heights :: AtHeights(tree, start, have, heights) && heights + more == LocatorHeights(start.nHeight, 0)
  }

  lemma LocatorStart(tree: set<BlockIndex>, start: BlockIndex)
    requires Tree(tree) && start in tree
    ensures Gathered(tree, start, [], LocatorHeights(start.nHeight, 0))
  {
    var all := LocatorHeights(start.nHeight, 0);
    assert AtHeights(tree, start, [], []) && [] + all == all;
  }

  lemma LocatorStep(tree: set<BlockIndex>, start: BlockIndex, have: seq<BlockIndex>, walk: BlockIndex)
    requires Tree(tree) && start in tree && IsAncestor(tree, start, walk)
    requires Gathered(tree, start, have, LocatorHeights(walk.nHeight, |have|))
    ensures StepAt(|have|) > 0
    ensures var h, step := walk.nHeight, StepAt(|have|);
            if h == 0 then IsLocator(tree, start, have + [walk])
            else Gathered(tree, start, have + [walk], LocatorHeights(if h > step then h - step else 0, |have| + 1))
  {
    hide *;
    StepPositive(|have|);
    var h, step, all := walk.nHeight, StepAt(|have|), LocatorHeights(start.nHeight, 0);
    var more := LocatorHeights(h, |have|);
    LocatorUnfold(h, |have|);
    var heights := Split(tree, start, have, more);
    Extend(tree, start, have, heights, walk);
    if h == 0 {
      assert heights + [h] == all;
      IsLocatorIs(tree, start, have + [walk]);
    } else {
      var later := LocatorHeights(if h > step then h - step else 0, |have| + 1);
      assert heights + [h] + later == all;
      Join(tree, start, have + [walk], heights + [h], later);
    }
  }

  lemma LocatorUnfold(h: nat, i: nat)
    ensures LocatorHeights(h, i)
         == [h] + if h == 0 then [] else LocatorHeights(if h > StepAt(i) then h - StepAt(i) else 0, i + 1)
  {
  }

  lemma Split(tree: set<BlockIndex>, start: BlockIndex, have: seq<BlockIndex>, more: seq<nat>) returns (heights: seq<nat>)
    requires Tree(tree) && start in tree && Gathered(tree, start, have, more)
    ensures AtHeights(tree, start, have, heights) && heights + more == LocatorHeights(start.nHeight, 0)
  {
    hide LocatorHeights, AtHeights, Tree;
    heights :| AtHeights(tree, start, have, heights) && heights + more == LocatorHeights(start.nHeight, 0);
  }

  lemma Join(tree: set<BlockIndex>, start: BlockIndex, have: seq<BlockIndex>, heights: seq<nat>, more: seq<nat>)
    requires Tree(tree) && start in tree
    requires AtHeights(tree, start, have, heights) && heights + more == LocatorHeights(start.nHeight, 0)
    ensures Gathered(tree, start, have, more)
  {
    hide LocatorHeights, AtHeights, Tree;
  }

  lemma Extend(tree: set<BlockIndex>, start: BlockIndex, have: seq<BlockIndex>, heights: seq<nat>, walk: BlockIndex)
    requires Tree(tree) && start in tree && AtHeights(tree, start, have, heights) && IsAncestor(tree, start, walk)
    ensures AtHeights(tree, start, have + [walk], heights + [walk.nHeight])
  {
    hide Tree, IsAncestor;
  }

  lemma IsLocatorIs(tree: set<BlockIndex>, start: BlockIndex, have: seq<BlockIndex>)
    requires Tree(tree) && start in tree && AtHeights(tree, start, have, LocatorHeights(start.nHeight, 0))
    ensures IsLocator(tree, start, have)
  {
  }

  /** The heights in closed form: twelve in a row, then gaps of 2, 4, 8 and so on, cut off at 0. */
  function HeightAt(h: nat, i: nat): int {
    if i <= 11 then h - i else h - 9 - Pow2(i - 10)
  }

  lemma {:induction false} StepIsGap(h: nat, i: nat)
    ensures HeightAt(h, i) - StepAt(i) == HeightAt(h, i + 1)
    ensures i >= 10 ==> StepAt(i) == Pow2(i - 10)
  {
    if i > 10 {
      StepIsGap(h, i - 1);
    }
  }

  /** Entry `k` of a locator from height `h`; the locator ends with its first entry of height 0. */
  lemma {:induction false} LocatorAt(h: nat, i: nat, k: nat, top: nat)
    requires h == (if HeightAt(top, i) > 0 then HeightAt(top, i) else 0)
    requires k < |LocatorHeights(h, i)|
    ensures var hs := LocatorHeights(h, i);
            hs[k] == (if HeightAt(top, i + k) > 0 then HeightAt(top, i + k) else 0) && (hs[k] == 0 <==> k == |hs| - 1)
    decreases h
  {
    hide HeightAt, StepAt;
    StepPositive(i);
    StepIsGap(top, i);
    if h > 0 {
      var next := if h > StepAt(i) then h - StepAt(i) else 0;
      assert LocatorHeights(h, i) == [h] + LocatorHeights(next, i + 1);
      if k > 0 {
        LocatorAt(next, i + 1, k - 1, top);
      }
    }
  }

  /** A locator has all its heights in closed form, goes strictly down, and stays short. */
  lemma LocatorIsShort(h: nat, m: nat)
    requires h < Pow2(m)
    ensures var hs := LocatorHeights(h, 0);
            |hs| <= 11 + m && hs[0] == h && hs[|hs| - 1] == 0 &&
            forall j, k :: 0 <= j < k < |hs| ==> hs[j] > hs[k]
  {
    var hs := LocatorHeights(h, 0);
    forall k | 0 <= k < |hs|
      ensures hs[k] == (if HeightAt(h, k) > 0 then HeightAt(h, k) else 0) && (hs[k] == 0 <==> k == |hs| - 1)
    {
      LocatorAt(h, 0, k, h);
    }
    hide LocatorHeights, StepAt;
    forall j, k | 0 <= j < k < |hs|
      ensures hs[j] > hs[k]
    {
      HeightFalls(h, j, k);
    }
    if |hs| > 13 {
      assert HeightAt(h, |hs| - 2) > 0;
      if |hs| > 11 + m {
        PowMonotone(2, m, |hs| - 12);
        assert false;
      }
    } else if |hs| > 1 {
      assert HeightAt(h, |hs| - 2) > 0;
      if m <= 1 {
        PowMonotone(2, m, 1);
        assert h <= 1;
      }
    }
  }

  lemma {:induction false} HeightFalls(h: nat, j: nat, k: nat)
    requires j < k
    ensures HeightAt(h, j) > HeightAt(h, k)
    decreases k
  {
    StepIsGap(h, k - 1);
    StepPositive(k - 1);
    if j < k - 1 {
      HeightFalls(h, j, k - 1);
    }
  }
}
