/**
 `CPartialMerkleTree` as the object it is: bits and hashes appended by one
 traversal and consumed by another.
 */
module PartialMerkleTree {
  import opened Basics
  import opened Powers
  import opened Bits
  import opened MerkleBlock

  class PartialMerkleTree {
    const H: Combine
    var nTransactions: nat
    var vBits: seq<bool>
    var vHash: seq<Hash>
    var fBad: bool

    /** Builds the partial tree of a block for a match mask. */
    constructor (H: Combine, txids: seq<Hash>, mask: seq<bool>)
      requires 0 < |txids| == |mask|
      ensures this.H == H && nTransactions == |txids| && !fBad
      ensures vBits == BuildBits(mask, TreeHeight(|txids|, 0), 0)
      ensures vHash == BuildHashes(H, txids, mask, TreeHeight(|txids|, 0), 0)
    {
      this.H := H;
      nTransactions := |txids|;
      vBits, vHash, fBad := [], [], false;
      new;
      TopIsOneNode(|txids|, 0);
      var top := CalcTreeHeight();
      TraverseAndBuild(top, 0, txids, mask);
    }

    /** The object a stream is read into. */
    constructor Empty(H: Combine)
      ensures this.H == H && nTransactions == 0 && vBits == [] && vHash == [] && fBad
    {
      this.H := H;
      nTransactions, vBits, vHash, fBad := 0, [], [], true;
    }

    method CalcTreeHeight() returns (top: nat)
      ensures top == TreeHeight(nTransactions, 0)
    {
      top := 0;
      while TreeWidth(nTransactions, top) > 1
        invariant TreeHeight(nTransactions, top) == TreeHeight(nTransactions, 0)
        invariant top <= nTransactions
        decreases nTransactions - top
      {
        WidthCountsLeaves(nTransactions, top, 1);
        Pow2Exceeds(top);
        top := top + 1;
      }
    }

    /** The loop that decides whether a node has a match under it. */
    method ParentOfMatch(height: nat, pos: nat, mask: seq<bool>) returns (parentOfMatch: bool)
      requires nTransactions == |mask|
      ensures parentOfMatch <==> AnyMatch(mask, Lo(height, pos), Hi(|mask|, height, pos))
    {
      parentOfMatch := false;
      var p := pos * Pow2(height);
      while p < (pos + 1) * Pow2(height) && p < nTransactions
        invariant Lo(height, pos) <= p
        invariant p <= Hi(nTransactions, height, pos) || Hi(nTransactions, height, pos) <= Lo(height, pos) == p
        invariant parentOfMatch <==> exists q :: Lo(height, pos) <= q < p && q < |mask| && mask[q]
      {
        parentOfMatch := parentOfMatch || mask[p];
        p := p + 1;
      }
    }

    method TraverseAndBuild(height: nat, pos: nat, txids: seq<Hash>, mask: seq<bool>)
      requires nTransactions == |txids| == |mask| && pos < TreeWidth(|mask|, height)
      modifies this`vBits, this`vHash
      ensures vBits == old(vBits) + BuildBits(mask, height, pos)
      ensures vHash == old(vHash) + BuildHashes(H, txids, mask, height, pos)
      decreases height
    {
      hide TreeWidth, Lo, Hi, CalcHash, AnyMatch, BuildBits, BuildHashes;
      HiFits(nTransactions, height, pos);
      var parentOfMatch := ParentOfMatch(height, pos, mask);
      vBits := vBits + [parentOfMatch];
      if height == 0 || !parentOfMatch {
        BuildLeaf(H, txids, mask, height, pos);
        vHash := vHash + [CalcHash(H, txids, height, pos)];
      } else {
        ChildRanges(nTransactions, height, pos);
        BuildInner(H, txids, mask, height, pos);
        TraverseAndBuild(height - 1, pos * 2, txids, mask);
        if pos * 2 + 1 < TreeWidth(nTransactions, height - 1) {
          TraverseAndBuild(height - 1, pos * 2 + 1, txids, mask);
        }
      }
    }

    /** The bytes written for the flag bits. */
    method Serialize() returns (bytes: seq<bv8>)
      ensures PacksTo(vBits, bytes)
    {
      bytes := seq((|vBits| + 7) / 8, i => 0);
      var p := 0;
      forall q: nat | q < 8
        ensures !BitSet(0, q)
      {
        NoBitSet(q);
      }
      while p < |vBits|
        invariant 0 <= p <= |vBits| && |bytes| == (|vBits| + 7) / 8
        invariant forall q {:trigger bytes[q / 8]} :: 0 <= q < 8 * |bytes| ==> (BitSet(bytes[q / 8], q % 8) <==> q < p && vBits[q])
      {
        ghost var before := bytes;
        if vBits[p] {
          bytes := bytes[p / 8 := bytes[p / 8] | Bit(p % 8)];
        }
        forall q | 0 <= q < 8 * |bytes|
          ensures BitSet(bytes[q / 8], q % 8) <==> q < p + 1 && vBits[q]
        {
          assert BitSet(before[q / 8], q % 8) <==> q < p && vBits[q];
          SetBit(before[p / 8], p % 8, q % 8);
        }
        p := p + 1;
      }
    }

    /** What is read back. */
    method Unserialize(nTransactions: nat, vHash: seq<Hash>, bytes: seq<bv8>)
      modifies this
      ensures this.nTransactions == nTransactions && this.vHash == vHash && !fBad
      ensures vBits == Unpack(bytes)
    {
      this.nTransactions := nTransactions;
      this.vHash := vHash;
      vBits := seq(8 * |bytes|, i => false);
      var p := 0;
      while p < |vBits|
        invariant 0 <= p <= |vBits| == 8 * |bytes|
        invariant forall q :: 0 <= q < p ==> vBits[q] == Unpack(bytes)[q]
        invariant this.nTransactions == nTransactions && this.vHash == vHash
      {
        vBits := vBits[p := BitSet(bytes[p / 8], p % 8)];
        p := p + 1;
      }
      fBad := false;
    }

    /** One node of the decoder. The four counters and lists the code passes by reference go in and out. */
    method TraverseAndExtract(height: nat, pos: nat, at: Cursor) returns (hash: Hash, next: Cursor)
      requires fBad == at.bad
      modifies this`fBad
      ensures Node(hash, next) == Extract(H, nTransactions, vBits, vHash, height, pos, at)
      ensures fBad == next.bad
      decreases height
    {
      hide Extract, TreeWidth;
      if at.bitsUsed < |vBits| && height > 0 && vBits[at.bitsUsed] {
        ExtractInner(H, nTransactions, vBits, vHash, height, pos, at);
      } else {
        ExtractOuter(H, nTransactions, vBits, vHash, height, pos, at);
      }
      if at.bitsUsed >= |vBits| {
        fBad := true;
        return 0, at.(bad := true);
      }
      var parentOfMatch := vBits[at.bitsUsed];
      next := at.(bitsUsed := at.bitsUsed + 1);
      if height == 0 || !parentOfMatch {
        if next.hashUsed >= |vHash| {
          fBad := true;
          return 0, next.(bad := true);
        }
        hash := vHash[next.hashUsed];
        next := next.(hashUsed := next.hashUsed + 1);
        if height == 0 && parentOfMatch {
          next := next.(matches := next.matches + [Match(hash, pos)]);
        }
      } else {
        var left, right;
        left, next := TraverseAndExtract(height - 1, pos * 2, next);
        if pos * 2 + 1 < TreeWidth(nTransactions, height - 1) {
          right, next := TraverseAndExtract(height - 1, pos * 2 + 1, next);
          if right == left {
            fBad := true;
            next := next.(bad := true);
          }
        } else {
          right := left;
        }
        hash := H(left, right);
      }
    }

    /** Returns the root, or 0 on any failure. The index list is appended to, not cleared. */
    method ExtractMatches(indexesBefore: seq<nat>) returns (root: Hash, matched: seq<Hash>, indexes: seq<nat>)
      modifies this`fBad
      ensures old(fBad) || !Accepts(H, nTransactions, vBits, vHash) ==> root == 0
      ensures !old(fBad) && Accepts(H, nTransactions, vBits, vHash) ==>
        var found := ExtractTop(H, nTransactions, vBits, vHash);
        root == found.hash && matched == TxidsOf(found.next.matches) && indexes == indexesBefore + IndexesOf(found.next.matches)
    {
      root, matched, indexes := 0, [], indexesBefore;
      if nTransactions == 0 || nTransactions > MAX_BLOCK_BASE_SIZE / 60 {
        return;
      }
      if |vHash| > nTransactions || |vBits| < |vHash| {
        return;
      }
      var top := CalcTreeHeight();
      ExtractGrows(H, nTransactions, vBits, vHash, top, 0, START.(bad := fBad));
      var hashMerkleRoot, used := TraverseAndExtract(top, 0, START.(bad := fBad));
      matched := TxidsOf(used.matches);
      indexes := indexes + IndexesOf(used.matches);
      if fBad || (used.bitsUsed + 7) / 8 != (|vBits| + 7) / 8 || used.hashUsed != |vHash| {
        return;
      }
      root := hashMerkleRoot;
    }
  }

  /** A node builds a proof, sends it, and the receiver gets back exactly what was matched. */
  method RelayMatches(H: Combine, txids: seq<Hash>, mask: seq<bool>) returns (root: Hash, found: seq<Hash>, indexes: seq<nat>)
    requires 0 < |txids| == |mask| <= MAX_BLOCK_BASE_SIZE / 60 && Distinct(txids) && !TreeCollides(H, txids)
    ensures root == MerkleRoot(H, txids)
    ensures |found| == |indexes| && (forall i :: 0 <= i < |indexes| ==> indexes[i] < |txids| && found[i] == txids[indexes[i]])
    ensures forall i, j :: 0 <= i < j < |indexes| ==> indexes[i] < indexes[j]
    ensures forall p :: 0 <= p < |mask| ==> (mask[p] <==> p in indexes)
  {
    hide TreeWidth, TreeHeight, BuildBits, BuildHashes, Accepts, ExtractTop, Matched, PacksTo, Unpack, MerkleRoot, Twins, TreeCollides, Distinct;
    var sent := new PartialMerkleTree(H, txids, mask);
    var bytes := sent.Serialize();
    var got := new PartialMerkleTree.Empty(H);
    got.Unserialize(sent.nTransactions, sent.vHash, bytes);
    BuildIsAccepted(H, txids, mask, bytes);
    NoTwins(H, txids, mask, TreeHeight(|txids|, 0), 0);
    root, found, indexes := got.ExtractMatches([]);
    ReturnedIsMask(txids, mask);
  }
}
