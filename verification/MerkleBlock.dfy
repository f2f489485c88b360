/**
 Partial Merkle trees (`CPartialMerkleTree` in src/merkleblock.cpp): the encoder
 and decoder of the partial Merkle branch format of BIP 37.
 */
module MerkleBlock {
  import opened Basics
  import opened Powers
  import opened Bits

  /** The double hash of two concatenated hashes, which stays abstract. */
  type Combine = (Hash, Hash) -> Hash

  /** A matched transaction and its index in the block. */
  datatype Match = Match(txid: Hash, index: nat)

  const MAX_BLOCK_BASE_SIZE := 1000000

  // ----- the shape of the tree -----

  /** `CalcTreeWidth`: the number of nodes at a height. */
  function TreeWidth(n: nat, height: nat): nat {
    PowPositive(2, height);
    (n + Pow2(height) - 1) / Pow2(height)
  }

  /** A position exists at a height exactly when the leftmost leaf under it does. */
  lemma WidthCountsLeaves(n: nat, height: nat, pos: nat)
    ensures pos < TreeWidth(n, height) <==> pos * Pow2(height) < n
  {
    PowPositive(2, height);
    var p := Pow2(height);
    DivGreatest(n + p - 1, p, pos + 1);
    assert (pos + 1) * p == pos * p + p;
  }

  function Lo(height: nat, pos: nat): nat {
    pos * Pow2(height)
  }

  function Hi(n: nat, height: nat, pos: nat): nat {
    if (pos + 1) * Pow2(height) < n then (pos + 1) * Pow2(height) else n
  }

  /** The leaves under a node are those under its left child followed by those under its right child. */
  lemma ChildRanges(n: nat, height: nat, pos: nat)
    requires height > 0 && pos < TreeWidth(n, height)
    ensures 2 * pos < TreeWidth(n, height - 1)
    ensures Lo(height, pos) == Lo(height - 1, 2 * pos) < Hi(n, height - 1, 2 * pos) <= Hi(n, height, pos) <= n
    ensures 2 * pos + 1 < TreeWidth(n, height - 1)
        ==> Hi(n, height - 1, 2 * pos) == Lo(height - 1, 2 * pos + 1) < Hi(n, height - 1, 2 * pos + 1) == Hi(n, height, pos)
    ensures 2 * pos + 1 >= TreeWidth(n, height - 1) ==> Hi(n, height - 1, 2 * pos) == Hi(n, height, pos)
  {
    var p := Pow2(height - 1);
    PowPositive(2, height - 1);
    assert Pow2(height) == 2 * p;
    WidthCountsLeaves(n, height, pos);
    WidthCountsLeaves(n, height - 1, 2 * pos);
    WidthCountsLeaves(n, height - 1, 2 * pos + 1);
    assert pos * (2 * p) == (2 * pos) * p;
    assert (pos + 1) * (2 * p) == (2 * pos + 1) * p + p;
    assert (2 * pos + 1) * p == (2 * pos) * p + p;
    assert (2 * pos + 2) * p == (2 * pos + 1) * p + p;
  }

  lemma LeafRange(n: nat, pos: nat)
    requires pos < TreeWidth(n, 0)
    ensures pos < n && Lo(0, pos) == pos && Hi(n, 0, pos) == pos + 1
  {
    WidthCountsLeaves(n, 0, pos);
  }

  /** The first height from `height` on that has at most one node. */
  function TreeHeight(n: nat, height: nat): (h: nat)
    ensures n > 0 ==> TreeWidth(n, h) == 1
    decreases n - height
  {
    WidthCountsLeaves(n, height, 0);
    WidthCountsLeaves(n, height, 1);
    Pow2Exceeds(height);
    if TreeWidth(n, height) > 1 then TreeHeight(n, height + 1) else height
  }

  lemma {:induction false} TopIsOneNode(n: nat, height: nat)
    requires n > 0
    ensures TreeWidth(n, TreeHeight(n, height)) == 1
    ensures Lo(TreeHeight(n, height), 0) == 0 && Hi(n, TreeHeight(n, height), 0) == n
    decreases n - height
  {
    WidthCountsLeaves(n, height, 0);
    WidthCountsLeaves(n, height, 1);
    Pow2Exceeds(height);
    if TreeWidth(n, height) > 1 {
      TopIsOneNode(n, height + 1);
    }
  }

  // ----- the full tree -----

  /** `CalcHash`: the hash of a node; a missing right child counts as a copy of the left one. */
  function CalcHash(H: Combine, txids: seq<Hash>, height: nat, pos: nat): Hash
    requires pos < TreeWidth(|txids|, height)
  {
    if height == 0 then
      LeafRange(|txids|, pos);
      txids[pos]
    else
      ChildRanges(|txids|, height, pos);
      var left := CalcHash(H, txids, height - 1, 2 * pos);
      var right := if 2 * pos + 1 < TreeWidth(|txids|, height - 1)
                   then CalcHash(H, txids, height - 1, 2 * pos + 1) else left;
      H(left, right)
  }

  function MerkleRoot(H: Combine, txids: seq<Hash>): Hash
    requires txids != []
  {
    TopIsOneNode(|txids|, 0);
    CalcHash(H, txids, TreeHeight(|txids|, 0), 0)
  }

  // ----- encoding -----

  predicate AnyMatch(mask: seq<bool>, lo: nat, hi: nat)
    requires hi <= |mask|
  {
    exists p :: lo <= p < hi && mask[p]
  }

  lemma HiFits(n: nat, height: nat, pos: nat)
    ensures Hi(n, height, pos) <= n
  {
  }

  /** The flag bits `TraverseAndBuild` appends for a node, depth first. */
  function BuildBits(mask: seq<bool>, height: nat, pos: nat): seq<bool>
    requires pos < TreeWidth(|mask|, height)
  {
    var parent := AnyMatch(mask, Lo(height, pos), Hi(|mask|, height, pos));
    if height == 0 || !parent then [parent]
    else
      ChildRanges(|mask|, height, pos);
      [parent] + BuildBits(mask, height - 1, 2 * pos)
      + if 2 * pos + 1 < TreeWidth(|mask|, height - 1) then BuildBits(mask, height - 1, 2 * pos + 1) else []
  }

  /** The hashes `TraverseAndBuild` appends for a node. */
  function BuildHashes(H: Combine, txids: seq<Hash>, mask: seq<bool>, height: nat, pos: nat): seq<Hash>
    requires |txids| == |mask| && pos < TreeWidth(|mask|, height)
  {
    if height == 0 || !AnyMatch(mask, Lo(height, pos), Hi(|mask|, height, pos)) then
      [CalcHash(H, txids, height, pos)]
    else
      ChildRanges(|mask|, height, pos);
      BuildHashes(H, txids, mask, height - 1, 2 * pos)
      + if 2 * pos + 1 < TreeWidth(|mask|, height - 1)
        then BuildHashes(H, txids, mask, height - 1, 2 * pos + 1) else []
  }

  // ----- decoding -----

  /** How far a traversal has come. */
  datatype Cursor = Cursor(bitsUsed: nat, hashUsed: nat, matches: seq<Match>, bad: bool)

  datatype Node = Node(hash: Hash, next: Cursor)

  /** `TraverseAndExtract` at one node. It goes on after a failure, as the code does. */
  function Extract(H: Combine, n: nat, bits: seq<bool>, hashes: seq<Hash>, height: nat, pos: nat, at: Cursor): Node
    decreases height
  {
    if at.bitsUsed >= |bits| then Node(0, at.(bad := true))
    else
      var parent := bits[at.bitsUsed];
      var at := at.(bitsUsed := at.bitsUsed + 1);
      if height == 0 || !parent then
        if at.hashUsed >= |hashes| then Node(0, at.(bad := true))
        else
          var hash := hashes[at.hashUsed];
          Node(hash, at.(hashUsed := at.hashUsed + 1,
                         matches := if height == 0 && parent then at.matches + [Match(hash, pos)] else at.matches))
      else
        var left := Extract(H, n, bits, hashes, height - 1, 2 * pos, at);
        if 2 * pos + 1 < TreeWidth(n, height - 1) then
          var right := Extract(H, n, bits, hashes, height - 1, 2 * pos + 1, left.next);
          Node(H(left.hash, right.hash), if right.hash == left.hash then right.next.(bad := true) else right.next)
        else
          Node(H(left.hash, left.hash), left.next)
  }

  /** What `ExtractMatches` requires before it looks at the tree at all. */
  predicate Plausible(n: nat, bits: seq<bool>, hashes: seq<Hash>) {
    0 < n <= MAX_BLOCK_BASE_SIZE / 60 && |hashes| <= n && |hashes| <= |bits|
  }

  const START := Cursor(0, 0, [], false)

  function ExtractTop(H: Combine, n: nat, bits: seq<bool>, hashes: seq<Hash>): Node {
    Extract(H, n, bits, hashes, TreeHeight(n, 0), 0, START)
  }

  /** Whether `ExtractMatches` gets through all its checks. */
  predicate Accepts(H: Combine, n: nat, bits: seq<bool>, hashes: seq<Hash>) {
    Plausible(n, bits, hashes) &&
    var top := ExtractTop(H, n, bits, hashes);
    && !top.next.bad
    && (top.next.bitsUsed + 7) / 8 == (|bits| + 7) / 8
    && top.next.hashUsed == |hashes|
  }

  // ----- collisions -----

  /** Two different pairs with the same hash. */
  predicate IsCollision(H: Combine, a: Hash, b: Hash, c: Hash, d: Hash) {
    (a != c || b != d) && H(a, b) == H(c, d)
  }

  /** The two hashes that the hash of a node is made of. */
  function Children(H: Combine, txids: seq<Hash>, height: nat, pos: nat): (Hash, Hash)
    requires height > 0 && pos < TreeWidth(|txids|, height)
  {
    ChildRanges(|txids|, height, pos);
    var left := CalcHash(H, txids, height - 1, 2 * pos);
    (left, if 2 * pos + 1 < TreeWidth(|txids|, height - 1) then CalcHash(H, txids, height - 1, 2 * pos + 1) else left)
  }

  /** Somewhere the decoder combined two hashes that are not those of the true node, and still got the hash of the true node. */
  predicate DecoderCollides(H: Combine, txids: seq<Hash>, bits: seq<bool>, hashes: seq<Hash>, height: nat, pos: nat, at: Cursor)
    requires pos < TreeWidth(|txids|, height)
    decreases height
  {
    height > 0 && at.bitsUsed < |bits| && bits[at.bitsUsed] &&
    (ChildRanges(|txids|, height, pos);
     var at1 := at.(bitsUsed := at.bitsUsed + 1);
     var left := Extract(H, |txids|, bits, hashes, height - 1, 2 * pos, at1);
     var (a, b) := Children(H, txids, height, pos);
     if 2 * pos + 1 < TreeWidth(|txids|, height - 1) then
       || IsCollision(H, left.hash, Extract(H, |txids|, bits, hashes, height - 1, 2 * pos + 1, left.next).hash, a, b)
       || DecoderCollides(H, txids, bits, hashes, height - 1, 2 * pos, at1)
       || DecoderCollides(H, txids, bits, hashes, height - 1, 2 * pos + 1, left.next)
     else
       || IsCollision(H, left.hash, left.hash, a, b)
       || DecoderCollides(H, txids, bits, hashes, height - 1, 2 * pos, at1))
  }

  /** Two nodes at one height, made of different pairs, have the same hash. */
  predicate NodesCollide(H: Combine, txids: seq<Hash>, height: nat, p: nat, q: nat) {
    height > 0 && p < TreeWidth(|txids|, height) && q < TreeWidth(|txids|, height) &&
    var (a, b) := Children(H, txids, height, p);
    var (c, d) := Children(H, txids, height, q);
    IsCollision(H, a, b, c, d)
  }

  ghost predicate TreeCollides(H: Combine, txids: seq<Hash>) {
    exists height, p, q :: NodesCollide(H, txids, height, p, q)
  }

  // ----- soundness -----

  predicate Genuine(txids: seq<Hash>, m: Match) {
    m.index < |txids| && txids[m.index] == m.txid
  }

  /** The matches a traversal adds, given where it started. */
  ghost predicate AddsOnly(txids: seq<Hash>, before: seq<Match>, after: seq<Match>, lo: nat, hi: nat) {
    && before <= after
    && (forall i :: |before| <= i < |after| ==> Genuine(txids, after[i]) && lo <= after[i].index < hi)
    && (forall i, j :: |before| <= i < j < |after| ==> after[i].index < after[j].index)
  }

  lemma AddsOnlyTwice(txids: seq<Hash>, a: seq<Match>, b: seq<Match>, c: seq<Match>, lo: nat, mid: nat, hi: nat)
    requires lo <= mid <= hi && AddsOnly(txids, a, b, lo, mid) && AddsOnly(txids, b, c, mid, hi)
    ensures AddsOnly(txids, a, c, lo, hi)
  {
    forall i | 0 <= i < |b|
      ensures c[i] == b[i]
    {
    }
  }

  /** A traversal only ever appends matches, and never forgets that it failed. */
  lemma {:induction false} ExtractGrows(H: Combine, n: nat, bits: seq<bool>, hashes: seq<Hash>, height: nat, pos: nat, at: Cursor)
    ensures var r := Extract(H, n, bits, hashes, height, pos, at);
            at.matches <= r.next.matches && (at.bad ==> r.next.bad)
    decreases height
  {
    hide Extract, TreeWidth;
    if at.bitsUsed < |bits| && height > 0 && bits[at.bitsUsed] {
      var at1 := at.(bitsUsed := at.bitsUsed + 1);
      ExtractGrows(H, n, bits, hashes, height - 1, 2 * pos, at1);
      ExtractGrows(H, n, bits, hashes, height - 1, 2 * pos + 1, Extract(H, n, bits, hashes, height - 1, 2 * pos, at1).next);
      ExtractInner(H, n, bits, hashes, height, pos, at);
    } else {
      ExtractOuter(H, n, bits, hashes, height, pos, at);
    }
  }

  /** A node that is not descended into. */
  lemma ExtractOuter(H: Combine, n: nat, bits: seq<bool>, hashes: seq<Hash>, height: nat, pos: nat, at: Cursor)
    requires at.bitsUsed >= |bits| || height == 0 || !bits[at.bitsUsed]
    ensures Extract(H, n, bits, hashes, height, pos, at) ==
      if at.bitsUsed >= |bits| then Node(0, at.(bad := true))
      else if at.hashUsed >= |hashes| then Node(0, at.(bitsUsed := at.bitsUsed + 1, bad := true))
      else
        var hash := hashes[at.hashUsed];
        Node(hash, at.(bitsUsed := at.bitsUsed + 1, hashUsed := at.hashUsed + 1,
                       matches := if height == 0 && bits[at.bitsUsed] then at.matches + [Match(hash, pos)] else at.matches))
  {
  }

  /** Without a collision, a true hash above means true hashes below. */
  lemma TrueBelow(H: Combine, txids: seq<Hash>, bits: seq<bool>, hashes: seq<Hash>, height: nat, pos: nat, at: Cursor)
    requires height > 0 && pos < TreeWidth(|txids|, height) && at.bitsUsed < |bits| && bits[at.bitsUsed]
    requires !DecoderCollides(H, txids, bits, hashes, height, pos, at)
    requires Extract(H, |txids|, bits, hashes, height, pos, at).hash == CalcHash(H, txids, height, pos)
    ensures 2 * pos < TreeWidth(|txids|, height - 1)
    ensures var left := Extract(H, |txids|, bits, hashes, height - 1, 2 * pos, at.(bitsUsed := at.bitsUsed + 1));
            && left.hash == CalcHash(H, txids, height - 1, 2 * pos)
            && !DecoderCollides(H, txids, bits, hashes, height - 1, 2 * pos, at.(bitsUsed := at.bitsUsed + 1))
            && (2 * pos + 1 < TreeWidth(|txids|, height - 1) ==>
                  Extract(H, |txids|, bits, hashes, height - 1, 2 * pos + 1, left.next).hash == CalcHash(H, txids, height - 1, 2 * pos + 1) &&
                  !DecoderCollides(H, txids, bits, hashes, height - 1, 2 * pos + 1, left.next))
  {
    hide TreeWidth, Extract, CalcHash;
    ChildRanges(|txids|, height, pos);
    ExtractInner(H, |txids|, bits, hashes, height, pos, at);
    CalcInner(H, txids, height, pos);
  }

  /** If a node comes out with its true hash, every match under it is genuine, unless the hash collides. */
  lemma {:induction false} NodeSound(H: Combine, txids: seq<Hash>, bits: seq<bool>, hashes: seq<Hash>, height: nat, pos: nat, at: Cursor)
    requires pos < TreeWidth(|txids|, height) && !DecoderCollides(H, txids, bits, hashes, height, pos, at)
    requires var r := Extract(H, |txids|, bits, hashes, height, pos, at);
             !r.next.bad && r.hash == CalcHash(H, txids, height, pos)
    ensures var r := Extract(H, |txids|, bits, hashes, height, pos, at);
            AddsOnly(txids, at.matches, r.next.matches, Lo(height, pos), Hi(|txids|, height, pos))
    decreases height
  {
    hide DecoderCollides;
    if height == 0 {
      LeafRange(|txids|, pos);
    } else if bits[at.bitsUsed] {
      InnerSound(H, txids, bits, hashes, height, pos, at);
    }
  }

  lemma {:induction false} InnerSound(H: Combine, txids: seq<Hash>, bits: seq<bool>, hashes: seq<Hash>, height: nat, pos: nat, at: Cursor)
    requires height > 0 && pos < TreeWidth(|txids|, height) && !DecoderCollides(H, txids, bits, hashes, height, pos, at)
    requires at.bitsUsed < |bits| && bits[at.bitsUsed]
    requires var r := Extract(H, |txids|, bits, hashes, height, pos, at);
             !r.next.bad && r.hash == CalcHash(H, txids, height, pos)
    ensures var r := Extract(H, |txids|, bits, hashes, height, pos, at);
            AddsOnly(txids, at.matches, r.next.matches, Lo(height, pos), Hi(|txids|, height, pos))
    decreases height, 0
  {
    hide *;
    var n := |txids|;
    ChildRanges(n, height, pos);
    TrueBelow(H, txids, bits, hashes, height, pos, at);
    ExtractInner(H, n, bits, hashes, height, pos, at);
    var at1 := at.(bitsUsed := at.bitsUsed + 1);
    var left := Extract(H, n, bits, hashes, height - 1, 2 * pos, at1);
    if 2 * pos + 1 < TreeWidth(n, height - 1) {
      var right := Extract(H, n, bits, hashes, height - 1, 2 * pos + 1, left.next);
      ExtractGrows(H, n, bits, hashes, height - 1, 2 * pos + 1, left.next);
      NodeSound(H, txids, bits, hashes, height - 1, 2 * pos, at1);
      NodeSound(H, txids, bits, hashes, height - 1, 2 * pos + 1, left.next);
      AddsOnlyTwice(txids, at.matches, left.next.matches, right.next.matches,
                    Lo(height, pos), Lo(height - 1, 2 * pos + 1), Hi(n, height, pos));
    } else {
      NodeSound(H, txids, bits, hashes, height - 1, 2 * pos, at1);
    }
  }

  /** Soundness. Take any bits and any hashes at all: if they are accepted and give the root of a
      list of txids of the claimed length, then every match is a txid of that list at its index, in
      increasing order of index; or else the decoder has met a collision: a node of the tree, and a
      pair of hashes that is not the pair it is made of but has the same hash. */
  lemma ExtractIsSound(H: Combine, txids: seq<Hash>, bits: seq<bool>, hashes: seq<Hash>)
    requires txids != [] && Accepts(H, |txids|, bits, hashes)
    requires ExtractTop(H, |txids|, bits, hashes).hash == MerkleRoot(H, txids)
    ensures TreeWidth(|txids|, TreeHeight(|txids|, 0)) == 1
    ensures var found := ExtractTop(H, |txids|, bits, hashes).next.matches;
            || DecoderCollides(H, txids, bits, hashes, TreeHeight(|txids|, 0), 0, START)
            || ((forall i :: 0 <= i < |found| ==> Genuine(txids, found[i]))
                && (forall i, j :: 0 <= i < j < |found| ==> found[i].index < found[j].index))
  {
    hide DecoderCollides, Extract, TreeWidth, CalcHash;
    TopIsOneNode(|txids|, 0);
    if !DecoderCollides(H, txids, bits, hashes, TreeHeight(|txids|, 0), 0, START) {
      NodeSound(H, txids, bits, hashes, TreeHeight(|txids|, 0), 0, START);
    }
  }

  // ----- completeness -----

  /** The matched transactions in a range, in order. */
  function Matched(txids: seq<Hash>, mask: seq<bool>, lo: nat, hi: nat): seq<Match>
    requires |txids| == |mask| && hi <= |mask|
    decreases hi - lo
  {
    if lo >= hi then []
    else (if mask[lo] then [Match(txids[lo], lo)] else []) + Matched(txids, mask, lo + 1, hi)
  }

  lemma {:induction false} MatchedSplit(txids: seq<Hash>, mask: seq<bool>, lo: nat, mid: nat, hi: nat)
    requires |txids| == |mask| && lo <= mid <= hi <= |mask|
    ensures Matched(txids, mask, lo, hi) == Matched(txids, mask, lo, mid) + Matched(txids, mask, mid, hi)
    decreases mid - lo
  {
    if lo < mid {
      MatchedSplit(txids, mask, lo + 1, mid, hi);
    }
  }

  lemma {:induction false} MatchedNone(txids: seq<Hash>, mask: seq<bool>, lo: nat, hi: nat)
    requires |txids| == |mask| && hi <= |mask|
    ensures AnyMatch(mask, lo, hi) <==> Matched(txids, mask, lo, hi) != []
    decreases hi - lo
  {
    if lo < hi {
      MatchedNone(txids, mask, lo + 1, hi);
    }
  }

  /** `part` stands in `s` at `k`. */
  ghost predicate At<T>(s: seq<T>, k: nat, part: seq<T>) {
    k + |part| <= |s| && s[k..k + |part|] == part
  }

  lemma AtSplit<T>(s: seq<T>, k: nat, a: seq<T>, b: seq<T>)
    requires At(s, k, a + b)
    ensures At(s, k, a) && At(s, k + |a|, b)
  {
    assert a == (a + b)[..|a|] && b == (a + b)[|a|..];
    assert s[k..k + |a|] == s[k..k + |a + b|][..|a|];
    assert s[k + |a|..k + |a| + |b|] == s[k..k + |a + b|][|a|..];
  }

  /** Nodes at one height have different hashes, when the leaves do and no two nodes collide. */
  lemma {:induction false} NodesDiffer(H: Combine, txids: seq<Hash>, height: nat, p: nat, q: nat)
    requires !TreeCollides(H, txids) && Distinct(txids)
    requires p < TreeWidth(|txids|, height) && q < TreeWidth(|txids|, height)
    requires CalcHash(H, txids, height, p) == CalcHash(H, txids, height, q)
    ensures p == q
    decreases height
  {
    var n := |txids|;
    if height == 0 {
      LeafRange(n, p);
      LeafRange(n, q);
    } else {
      hide TreeWidth, CalcHash, Distinct;
      CalcInner(H, txids, height, p);
      CalcInner(H, txids, height, q);
      assert !NodesCollide(H, txids, height, p, q);
      NodesDiffer(H, txids, height - 1, 2 * p, 2 * q);
    }
  }

  /** Somewhere in the part of the tree that is descended into, two siblings have the same hash. */
  predicate Twins(H: Combine, txids: seq<Hash>, mask: seq<bool>, height: nat, pos: nat)
    requires |txids| == |mask| && pos < TreeWidth(|txids|, height)
    decreases height
  {
    height > 0 && AnyMatch(mask, Lo(height, pos), Hi(|txids|, height, pos)) &&
    (ChildRanges(|txids|, height, pos);
     || Twins(H, txids, mask, height - 1, 2 * pos)
     || (2 * pos + 1 < TreeWidth(|txids|, height - 1) &&
         (CalcHash(H, txids, height - 1, 2 * pos) == CalcHash(H, txids, height - 1, 2 * pos + 1) ||
          Twins(H, txids, mask, height - 1, 2 * pos + 1))))
  }

  /** Different txids and no collision among the nodes: no twins, whatever is matched. */
  lemma {:induction false} NoTwins(H: Combine, txids: seq<Hash>, mask: seq<bool>, height: nat, pos: nat)
    requires |txids| == |mask| && pos < TreeWidth(|txids|, height) && !TreeCollides(H, txids) && Distinct(txids)
    ensures !Twins(H, txids, mask, height, pos)
    decreases height
  {
    hide TreeWidth, CalcHash, TreeCollides, Distinct, AnyMatch;
    if height > 0 {
      ChildRanges(|txids|, height, pos);
      NoTwins(H, txids, mask, height - 1, 2 * pos);
      if 2 * pos + 1 < TreeWidth(|txids|, height - 1) {
        NoTwins(H, txids, mask, height - 1, 2 * pos + 1);
        if CalcHash(H, txids, height - 1, 2 * pos) == CalcHash(H, txids, height - 1, 2 * pos + 1) {
          NodesDiffer(H, txids, height - 1, 2 * pos, 2 * pos + 1);
        }
      }
    }
  }

  /** Decoding what was built for a node yields its hash and its matches, uses exactly what was built,
      and fails exactly where there are twins. */
  lemma {:induction false} NodeComplete(
    H: Combine, txids: seq<Hash>, mask: seq<bool>, bits: seq<bool>, hashes: seq<Hash>, height: nat, pos: nat, at: Cursor)
    requires |txids| == |mask| && pos < TreeWidth(|txids|, height)
    requires At(bits, at.bitsUsed, BuildBits(mask, height, pos))
    requires At(hashes, at.hashUsed, BuildHashes(H, txids, mask, height, pos))
    ensures Extract(H, |txids|, bits, hashes, height, pos, at) == Ends(H, txids, mask, height, pos, at)
    decreases height
  {
    var parent := AnyMatch(mask, Lo(height, pos), Hi(|txids|, height, pos));
    MatchedNone(txids, mask, Lo(height, pos), Hi(|txids|, height, pos));
    assert bits[at.bitsUsed] == parent by {
      assert bits[at.bitsUsed] == bits[at.bitsUsed..at.bitsUsed + |BuildBits(mask, height, pos)|][0];
    }
    if height == 0 || !parent {
      assert hashes[at.hashUsed] == hashes[at.hashUsed..at.hashUsed + 1][0];
      if height == 0 {
        LeafRange(|txids|, pos);
        assert Matched(txids, mask, pos, pos + 1) == if mask[pos] then [Match(txids[pos], pos)] else [];
      }
    } else {
      InnerComplete(H, txids, mask, bits, hashes, height, pos, at);
    }
  }

  function RightBits(mask: seq<bool>, height: nat, pos: nat): seq<bool>
    requires height > 0
  {
    if 2 * pos + 1 < TreeWidth(|mask|, height - 1) then BuildBits(mask, height - 1, 2 * pos + 1) else []
  }

  function RightHashes(H: Combine, txids: seq<Hash>, mask: seq<bool>, height: nat, pos: nat): seq<Hash>
    requires height > 0 && |txids| == |mask|
  {
    if 2 * pos + 1 < TreeWidth(|mask|, height - 1) then BuildHashes(H, txids, mask, height - 1, 2 * pos + 1) else []
  }

  /** What is built for a node that is descended into. */
  lemma BuildInner(H: Combine, txids: seq<Hash>, mask: seq<bool>, height: nat, pos: nat)
    requires |txids| == |mask| && height > 0 && pos < TreeWidth(|txids|, height)
    requires AnyMatch(mask, Lo(height, pos), Hi(|txids|, height, pos))
    ensures 2 * pos < TreeWidth(|txids|, height - 1)
    ensures BuildBits(mask, height, pos) == [true] + (BuildBits(mask, height - 1, 2 * pos) + RightBits(mask, height, pos))
    ensures BuildHashes(H, txids, mask, height, pos)
         == BuildHashes(H, txids, mask, height - 1, 2 * pos) + RightHashes(H, txids, mask, height, pos)
  {
    hide *;
    ChildRanges(|txids|, height, pos);
    BitsInner(mask, height, pos);
    HashesInner(H, txids, mask, height, pos);
  }

  lemma BitsInner(mask: seq<bool>, height: nat, pos: nat)
    requires height > 0 && pos < TreeWidth(|mask|, height) && 2 * pos < TreeWidth(|mask|, height - 1)
    requires AnyMatch(mask, Lo(height, pos), Hi(|mask|, height, pos))
    ensures BuildBits(mask, height, pos) == [true] + (BuildBits(mask, height - 1, 2 * pos) + RightBits(mask, height, pos))
  {
    hide TreeWidth, Lo, Hi, AnyMatch;
  }

  lemma HashesInner(H: Combine, txids: seq<Hash>, mask: seq<bool>, height: nat, pos: nat)
    requires |txids| == |mask| && height > 0 && pos < TreeWidth(|mask|, height) && 2 * pos < TreeWidth(|mask|, height - 1)
    requires AnyMatch(mask, Lo(height, pos), Hi(|mask|, height, pos))
    ensures BuildHashes(H, txids, mask, height, pos)
         == BuildHashes(H, txids, mask, height - 1, 2 * pos) + RightHashes(H, txids, mask, height, pos)
  {
    hide TreeWidth, Lo, Hi, AnyMatch, CalcHash;
  }

  /** What is built for a node that is not descended into. */
  lemma BuildLeaf(H: Combine, txids: seq<Hash>, mask: seq<bool>, height: nat, pos: nat)
    requires |txids| == |mask| && pos < TreeWidth(|txids|, height)
    requires height == 0 || !AnyMatch(mask, Lo(height, pos), Hi(|txids|, height, pos))
    ensures BuildBits(mask, height, pos) == [AnyMatch(mask, Lo(height, pos), Hi(|txids|, height, pos))]
    ensures BuildHashes(H, txids, mask, height, pos) == [CalcHash(H, txids, height, pos)]
  {
  }

  /** The parts built for the children stand where the traversal will look for them. */
  lemma AtChildren(
    H: Combine, txids: seq<Hash>, mask: seq<bool>, bits: seq<bool>, hashes: seq<Hash>, height: nat, pos: nat, at: Cursor)
    requires |txids| == |mask| && height > 0 && pos < TreeWidth(|txids|, height)
    requires AnyMatch(mask, Lo(height, pos), Hi(|txids|, height, pos))
    requires At(bits, at.bitsUsed, BuildBits(mask, height, pos))
    requires At(hashes, at.hashUsed, BuildHashes(H, txids, mask, height, pos))
    ensures 2 * pos < TreeWidth(|txids|, height - 1)
    ensures var lb, lh := BuildBits(mask, height - 1, 2 * pos), BuildHashes(H, txids, mask, height - 1, 2 * pos);
            && At(bits, at.bitsUsed, [true])
            && At(bits, at.bitsUsed + 1, lb)
            && At(bits, at.bitsUsed + 1 + |lb|, RightBits(mask, height, pos))
            && At(hashes, at.hashUsed, lh)
            && At(hashes, at.hashUsed + |lh|, RightHashes(H, txids, mask, height, pos))
  {
    hide *;
    ChildRanges(|txids|, height, pos);
    BuildInner(H, txids, mask, height, pos);
    var lb, lh := BuildBits(mask, height - 1, 2 * pos), BuildHashes(H, txids, mask, height - 1, 2 * pos);
    AtSplit(bits, at.bitsUsed, [true], lb + RightBits(mask, height, pos));
    AtSplit(bits, at.bitsUsed + 1, lb, RightBits(mask, height, pos));
    AtSplit(hashes, at.hashUsed, lh, RightHashes(H, txids, mask, height, pos));
  }

  /** One level of the traversal, at a node that is descended into. */
  lemma ExtractInner(H: Combine, n: nat, bits: seq<bool>, hashes: seq<Hash>, height: nat, pos: nat, at: Cursor)
    requires height > 0 && at.bitsUsed < |bits| && bits[at.bitsUsed]
    ensures var left := Extract(H, n, bits, hashes, height - 1, 2 * pos, at.(bitsUsed := at.bitsUsed + 1));
            var right := Extract(H, n, bits, hashes, height - 1, 2 * pos + 1, left.next);
            Extract(H, n, bits, hashes, height, pos, at) ==
              if 2 * pos + 1 < TreeWidth(n, height - 1)
              then Node(H(left.hash, right.hash), if right.hash == left.hash then right.next.(bad := true) else right.next)
              else Node(H(left.hash, left.hash), left.next)
  {
  }

  lemma CalcInner(H: Combine, txids: seq<Hash>, height: nat, pos: nat)
    requires height > 0 && pos < TreeWidth(|txids|, height)
    ensures 2 * pos < TreeWidth(|txids|, height - 1)
    ensures CalcHash(H, txids, height, pos) ==
            H(CalcHash(H, txids, height - 1, 2 * pos),
              if 2 * pos + 1 < TreeWidth(|txids|, height - 1) then CalcHash(H, txids, height - 1, 2 * pos + 1)
              else CalcHash(H, txids, height - 1, 2 * pos))
  {
    ChildRanges(|txids|, height, pos);
  }

  /** Where the traversal of a node that was built should end up. */
  function Ends(H: Combine, txids: seq<Hash>, mask: seq<bool>, height: nat, pos: nat, at: Cursor): Node
    requires |txids| == |mask| && pos < TreeWidth(|txids|, height)
  {
    Node(CalcHash(H, txids, height, pos),
         Cursor(at.bitsUsed + |BuildBits(mask, height, pos)|,
                at.hashUsed + |BuildHashes(H, txids, mask, height, pos)|,
                at.matches + Matched(txids, mask, Lo(height, pos), Hi(|txids|, height, pos)),
                at.bad || Twins(H, txids, mask, height, pos)))
  }

  lemma EndsInner(H: Combine, txids: seq<Hash>, mask: seq<bool>, height: nat, pos: nat, at: Cursor)
    requires |txids| == |mask| && height > 0 && pos < TreeWidth(|txids|, height)
    requires AnyMatch(mask, Lo(height, pos), Hi(|txids|, height, pos))
    ensures 2 * pos < TreeWidth(|txids|, height - 1)
    ensures var left := Ends(H, txids, mask, height - 1, 2 * pos, at.(bitsUsed := at.bitsUsed + 1));
            Ends(H, txids, mask, height, pos, at) ==
              if 2 * pos + 1 < TreeWidth(|txids|, height - 1) then
                var right := Ends(H, txids, mask, height - 1, 2 * pos + 1, left.next);
                Node(H(left.hash, right.hash), if right.hash == left.hash then right.next.(bad := true) else right.next)
              else Node(H(left.hash, left.hash), left.next)
  {
    hide TreeWidth, Lo, Hi, CalcHash, BuildBits, BuildHashes, Matched, AnyMatch;
    ChildRanges(|txids|, height, pos);
    CalcInner(H, txids, height, pos);
    BuildInner(H, txids, mask, height, pos);
    MatchedSplit(txids, mask, Lo(height, pos), Hi(|txids|, height - 1, 2 * pos), Hi(|txids|, height, pos));
    assert 2 * pos + 1 >= TreeWidth(|txids|, height - 1)
       ==> Matched(txids, mask, Hi(|txids|, height - 1, 2 * pos), Hi(|txids|, height, pos)) == [] by {
      MatchedEmpty(txids, mask, Hi(|txids|, height, pos));
    }
  }

  lemma MatchedEmpty(txids: seq<Hash>, mask: seq<bool>, lo: nat)
    requires |txids| == |mask| && lo <= |mask|
    ensures Matched(txids, mask, lo, lo) == []
  {
  }

  lemma {:induction false} InnerComplete(
    H: Combine, txids: seq<Hash>, mask: seq<bool>, bits: seq<bool>, hashes: seq<Hash>, height: nat, pos: nat, at: Cursor)
    requires |txids| == |mask| && height > 0 && pos < TreeWidth(|txids|, height)
    requires AnyMatch(mask, Lo(height, pos), Hi(|txids|, height, pos))
    requires At(bits, at.bitsUsed, BuildBits(mask, height, pos)) && at.bitsUsed < |bits| && bits[at.bitsUsed]
    requires At(hashes, at.hashUsed, BuildHashes(H, txids, mask, height, pos))
    ensures Extract(H, |txids|, bits, hashes, height, pos, at) == Ends(H, txids, mask, height, pos, at)
    decreases height, 0
  {
    hide TreeWidth, Lo, Hi, CalcHash, BuildBits, BuildHashes, Matched, At, Extract, Twins, AnyMatch;
    AtChildren(H, txids, mask, bits, hashes, height, pos, at);
    ExtractInner(H, |txids|, bits, hashes, height, pos, at);
    EndsInner(H, txids, mask, height, pos, at);
    var at1 := at.(bitsUsed := at.bitsUsed + 1);
    NodeComplete(H, txids, mask, bits, hashes, height - 1, 2 * pos, at1);
    var left := Ends(H, txids, mask, height - 1, 2 * pos, at1);
    if 2 * pos + 1 < TreeWidth(|txids|, height - 1) {
      NodeComplete(H, txids, mask, bits, hashes, height - 1, 2 * pos + 1, left.next);
    }
  }

  // ----- how much is stored -----

  function MatchCount(mask: seq<bool>, lo: nat, hi: nat): nat
    requires hi <= |mask|
    decreases hi - lo
  {
    if lo >= hi then 0 else (if mask[lo] then 1 else 0) + MatchCount(mask, lo + 1, hi)
  }

  lemma {:induction false} MatchCountSplit(mask: seq<bool>, lo: nat, mid: nat, hi: nat)
    requires lo <= mid <= hi <= |mask|
    ensures MatchCount(mask, lo, hi) == MatchCount(mask, lo, mid) + MatchCount(mask, mid, hi)
    decreases mid - lo
  {
    if lo < mid {
      MatchCountSplit(mask, lo + 1, mid, hi);
    }
  }

  lemma {:induction false} MatchCountPositive(mask: seq<bool>, lo: nat, hi: nat)
    requires hi <= |mask| && AnyMatch(mask, lo, hi)
    ensures MatchCount(mask, lo, hi) >= 1
    decreases hi - lo
  {
    if !mask[lo] {
      MatchCountPositive(mask, lo + 1, hi);
    }
  }

  lemma BoundStep(s1: nat, s2: nat, m1: nat, m2: nat, height: nat)
    requires height > 0 && s1 <= 1 + m1 * (height - 1) && s2 <= 1 + m2 * (height - 1) && m1 + m2 >= 1
    ensures s1 + s2 <= 1 + (m1 + m2) * height
  {
    assert (m1 + m2) * height == m1 * (height - 1) + m2 * (height - 1) + (m1 + m2);
  }

  /** No more hashes are stored than there are leaves, and there is at least one bit for every hash. */
  lemma {:induction false} StoredAtMostLeaves(H: Combine, txids: seq<Hash>, mask: seq<bool>, height: nat, pos: nat)
    requires |txids| == |mask| && pos < TreeWidth(|txids|, height)
    ensures |BuildHashes(H, txids, mask, height, pos)| <= Hi(|txids|, height, pos) - Lo(height, pos)
    ensures |BuildHashes(H, txids, mask, height, pos)| <= |BuildBits(mask, height, pos)|
    decreases height
  {
    hide TreeWidth, Lo, Hi, AnyMatch;
    if height == 0 {
      LeafRange(|txids|, pos);
    } else {
      ChildRanges(|txids|, height, pos);
      if AnyMatch(mask, Lo(height, pos), Hi(|txids|, height, pos)) {
        BuildInner(H, txids, mask, height, pos);
        StoredAtMostLeaves(H, txids, mask, height - 1, 2 * pos);
        if 2 * pos + 1 < TreeWidth(|txids|, height - 1) {
          StoredAtMostLeaves(H, txids, mask, height - 1, 2 * pos + 1);
        }
      }
    }
  }

  /** The other size bound of the format: one hash, and one more per match and level. */
  lemma {:induction false} StoredAtMostPerMatch(H: Combine, txids: seq<Hash>, mask: seq<bool>, height: nat, pos: nat)
    requires |txids| == |mask| && pos < TreeWidth(|txids|, height)
    ensures |BuildHashes(H, txids, mask, height, pos)|
         <= 1 + MatchCount(mask, Lo(height, pos), Hi(|txids|, height, pos)) * height
    decreases height
  {
    hide TreeWidth, Lo, Hi, AnyMatch, MatchCount;
    var n := |txids|;
    var lo, hi := Lo(height, pos), Hi(n, height, pos);
    HiFits(n, height, pos);
    if height > 0 && AnyMatch(mask, lo, hi) {
      ChildRanges(n, height, pos);
      BuildInner(H, txids, mask, height, pos);
      MatchCountPositive(mask, lo, hi);
      var mid := Hi(n, height - 1, 2 * pos);
      MatchCountSplit(mask, lo, mid, hi);
      StoredAtMostPerMatch(H, txids, mask, height - 1, 2 * pos);
      if 2 * pos + 1 < TreeWidth(n, height - 1) {
        StoredAtMostPerMatch(H, txids, mask, height - 1, 2 * pos + 1);
      }
      BoundStep(|BuildHashes(H, txids, mask, height - 1, 2 * pos)|, |RightHashes(H, txids, mask, height, pos)|,
                MatchCount(mask, lo, mid), MatchCount(mask, mid, hi), height);
    } else {
      assert MatchCount(mask, lo, hi) * height >= 0;
    }
  }

  // ----- packing the flag bits into bytes -----

  /** Eight bits to a byte, least significant first, and zeros to fill the last byte. */
  ghost predicate PacksTo(bits: seq<bool>, bytes: seq<bv8>) {
    && |bytes| == (|bits| + 7) / 8
    && (forall p {:trigger bytes[p / 8]} :: 0 <= p < 8 * |bytes| ==> (BitSet(bytes[p / 8], p % 8) <==> p < |bits| && bits[p]))
  }

  function Unpack(bytes: seq<bv8>): seq<bool> {
    seq(8 * |bytes|, p requires 0 <= p < 8 * |bytes| => BitSet(bytes[p / 8], p % 8))
  }

  lemma UnpackPacked(bits: seq<bool>, bytes: seq<bv8>)
    requires PacksTo(bits, bytes)
    ensures bits <= Unpack(bytes) && (|Unpack(bytes)| + 7) / 8 == (|bits| + 7) / 8
  {
    forall p | 0 <= p < |bits|
      ensures Unpack(bytes)[p] == bits[p]
    {
      assert BitSet(bytes[p / 8], p % 8) <==> p < |bits| && bits[p];
    }
  }

  // ----- completeness of the whole -----

  lemma AtStart<T>(s: seq<T>, part: seq<T>)
    requires part <= s
    ensures At(s, 0, part)
  {
  }

  /** Completeness. Whatever the mask, building, packing, unpacking and extracting gives the true root
      and exactly the matched transactions with their indices, in order, and it is accepted exactly
      when no two siblings that are descended past have the same hash. */
  lemma BuildIsAccepted(H: Combine, txids: seq<Hash>, mask: seq<bool>, bytes: seq<bv8>)
    requires 0 < |txids| == |mask| <= MAX_BLOCK_BASE_SIZE / 60
    requires PacksTo(BuildBits(mask, TreeHeight(|txids|, 0), 0), bytes)
    ensures TreeWidth(|txids|, TreeHeight(|txids|, 0)) == 1
    ensures var hashes := BuildHashes(H, txids, mask, TreeHeight(|txids|, 0), 0);
            && (Accepts(H, |txids|, Unpack(bytes), hashes) <==> !Twins(H, txids, mask, TreeHeight(|txids|, 0), 0))
            && ExtractTop(H, |txids|, Unpack(bytes), hashes).hash == MerkleRoot(H, txids)
            && ExtractTop(H, |txids|, Unpack(bytes), hashes).next.matches == Matched(txids, mask, 0, |txids|)
  {
    hide TreeWidth, TreeHeight, BuildBits, BuildHashes, CalcHash, Matched, Extract, PacksTo, Unpack, At, Twins, Lo, Hi;
    var n := |txids|;
    var height := TreeHeight(n, 0);
    TopIsOneNode(n, 0);
    var bits, hashes := BuildBits(mask, height, 0), BuildHashes(H, txids, mask, height, 0);
    UnpackPacked(bits, bytes);
    AtStart(Unpack(bytes), bits);
    AtStart(hashes, hashes);
    NodeComplete(H, txids, mask, Unpack(bytes), hashes, height, 0, START);
    StoredAtMostLeaves(H, txids, mask, height, 0);
  }

  lemma WidthsOfTwo()
    ensures TreeWidth(2, 0) == 2 && TreeWidth(2, 1) == 1 && TreeHeight(2, 0) == 1
    ensures Lo(1, 0) == 0 && Hi(2, 1, 0) == 2
  {
    assert Pow2(0) == 1 && Pow2(1) == 2;
  }

  /** The smallest tree that is refused: one transaction, listed twice. */
  lemma SameTwiceIsRefused(H: Combine, txid: Hash)
    ensures TreeHeight(2, 0) == 1 && TreeWidth(2, 1) == 1 && Twins(H, [txid, txid], [true, true], 1, 0)
  {
    WidthsOfTwo();
    hide TreeWidth, TreeHeight, Lo, Hi;
    assert AnyMatch([true, true], 0, 2) by {
      assert [true, true][0];
    }
  }

  function TxidsOf(found: seq<Match>): seq<Hash> {
    seq(|found|, i requires 0 <= i < |found| => found[i].txid)
  }

  function IndexesOf(found: seq<Match>): seq<nat> {
    seq(|found|, i requires 0 <= i < |found| => found[i].index)
  }

  /** A list of matches that says the same as the mask does over a range. */
  ghost predicate Lists(txids: seq<Hash>, mask: seq<bool>, lo: nat, hi: nat, found: seq<Match>)
    requires |txids| == |mask| && hi <= |mask|
  {
    && (forall i :: 0 <= i < |found| ==> lo <= found[i].index < hi && Genuine(txids, found[i]) && mask[found[i].index])
    && (forall i, j :: 0 <= i < j < |found| ==> found[i].index < found[j].index)
    && (forall p :: lo <= p < hi && mask[p] ==> Match(txids[p], p) in found)
  }

  lemma ListsPrepend(txids: seq<Hash>, mask: seq<bool>, lo: nat, hi: nat, rest: seq<Match>)
    requires |txids| == |mask| && lo < hi <= |mask| && Lists(txids, mask, lo + 1, hi, rest)
    ensures Lists(txids, mask, lo, hi, if mask[lo] then [Match(txids[lo], lo)] + rest else rest)
  {
    if mask[lo] {
      var found := [Match(txids[lo], lo)] + rest;
      forall i | 0 <= i < |found|
        ensures lo <= found[i].index < hi && Genuine(txids, found[i]) && mask[found[i].index]
        ensures i == 0 || (found[i] == rest[i - 1] && lo < found[i].index)
      {
      }
      forall i, j | 0 <= i < j < |found|
        ensures found[i].index < found[j].index
      {
        assert found[j] == rest[j - 1];
      }
      forall p | lo <= p < hi && mask[p]
        ensures Match(txids[p], p) in found
      {
        assert p == lo || Match(txids[p], p) in rest;
      }
    }
  }

  /** The matched list is the mask, read as a list. */
  lemma {:induction false} MatchedIsMask(txids: seq<Hash>, mask: seq<bool>, lo: nat, hi: nat)
    requires |txids| == |mask| && lo <= hi <= |mask|
    ensures Lists(txids, mask, lo, hi, Matched(txids, mask, lo, hi))
    decreases hi - lo
  {
    hide Lists;
    if lo < hi {
      MatchedIsMask(txids, mask, lo + 1, hi);
      ListsPrepend(txids, mask, lo, hi, Matched(txids, mask, lo + 1, hi));
      assert !mask[lo] ==> Matched(txids, mask, lo, hi) == Matched(txids, mask, lo + 1, hi);
    } else {
      ListsNothing(txids, mask, lo);
    }
  }

  lemma ListsNothing(txids: seq<Hash>, mask: seq<bool>, lo: nat)
    requires |txids| == |mask| && lo <= |mask|
    ensures Lists(txids, mask, lo, lo, [])
  {
  }

  /** The two lists the decoder returns, read against the mask. */
  lemma ReturnedIsMask(txids: seq<Hash>, mask: seq<bool>)
    requires |txids| == |mask|
    ensures var found := Matched(txids, mask, 0, |txids|);
            && (forall i :: 0 <= i < |found| ==> IndexesOf(found)[i] < |txids| && TxidsOf(found)[i] == txids[IndexesOf(found)[i]])
            && (forall i, j :: 0 <= i < j < |found| ==> IndexesOf(found)[i] < IndexesOf(found)[j])
            && (forall p :: 0 <= p < |mask| ==> (mask[p] <==> p in IndexesOf(found)))
  {
    hide Matched;
    MatchedIsMask(txids, mask, 0, |txids|);
    var found := Matched(txids, mask, 0, |txids|);
    assert forall i :: 0 <= i < |found| ==> mask[IndexesOf(found)[i]];
    forall p | 0 <= p < |mask|
      ensures mask[p] <==> p in IndexesOf(found)
    {
      if mask[p] {
        var i :| 0 <= i < |found| && found[i] == Match(txids[p], p);
        assert IndexesOf(found)[i] == p;
      }
    }
  }
}
