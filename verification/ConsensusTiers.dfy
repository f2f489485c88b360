/**
 Consensus parameters by height (`Consensus::Params::GetConsensus` and
 `ArmMigrationTiers` in src/chainparams.cpp): tiers in a binary tree by the height from
 which they are in force.
 */
module ConsensusTiers {

  datatype Migration = Migration(hashOutputs: nat, total: int, height: int)

  class Params {
    const nHeightEffective: nat
    var pLeft: Params?
    var pRight: Params?
    var migration: Migration
    /** This tier and all tiers below it. */
    ghost var Repr: set<Params>

    constructor (height: nat, m: Migration)
      ensures fresh(this) && nHeightEffective == height && migration == m
      ensures pLeft == null && pRight == null && Repr == {this}
      ensures Valid() && Ordered() && Heights() == {height}
    {
      nHeightEffective, migration := height, m;
      pLeft, pRight := null, null;
      Repr := {this};
    }

    /** The tiers below are linked in. */
    method Link(left: Params?, right: Params)
      requires left != null ==> left.Valid() && left.Ordered() && this !in left.Repr && left.Repr !! right.Repr
      requires left != null ==> forall k :: k in left.Heights() ==> k < nHeightEffective
      requires right.Valid() && right.Ordered() && this !in right.Repr
      requires forall k :: k in right.Heights() ==> k > nHeightEffective
      modifies this
      ensures Valid() && Ordered() && migration == old(migration)
      ensures Repr == {this} + (if left == null then {} else left.Repr) + right.Repr
      ensures Heights() == {nHeightEffective} + (if left == null then {} else left.Heights()) + right.Heights()
    {
      hide *;
      RootIsThere(right);
      if left != null {
        RootIsThere(left);
      }
      pLeft, pRight := left, right;
      Repr := {this} + (if left == null then {} else left.Repr) + right.Repr;
      LinkedInOrder(left, right);
    }

    lemma LinkedInOrder(left: Params?, right: Params)
      requires pLeft == left && pRight == right
      requires right.Valid() && right.Ordered() && this !in right.Repr
      requires forall k :: k in right.Heights() ==> k > nHeightEffective
      requires left != null ==> left.Valid() && left.Ordered() && this !in left.Repr && left.Repr !! right.Repr
      requires left != null ==> forall k :: k in left.Heights() ==> k < nHeightEffective
      requires Repr == {this} + (if left == null then {} else left.Repr) + right.Repr
      ensures Valid() && Ordered()
      ensures Heights() == {nHeightEffective} + (if left == null then {} else left.Heights()) + right.Heights()
    {
      hide Ordered;
      RootIsThere(pRight);
      if pLeft != null {
        RootIsThere(pLeft);
      }
      assert Valid();
      LinkedIsOrdered();
    }

    lemma RootIsThere(p: Params)
      requires p.Valid()
      ensures p in p.Repr
    {
    }

    lemma LinkedIsOrdered()
      requires Valid() && pRight != null && pRight.Ordered()
      requires forall k :: k in pRight.Heights() ==> k > nHeightEffective
      requires pLeft != null ==> pLeft.Ordered() && forall k :: k in pLeft.Heights() ==> k < nHeightEffective
      ensures Ordered()
    {
      forall p | p in RightRepr()
        ensures p.nHeightEffective > nHeightEffective
      {
        assert p.nHeightEffective in pRight.Heights();
      }
      forall p | p in LeftRepr()
        ensures p.nHeightEffective < nHeightEffective
      {
        assert p.nHeightEffective in pLeft.Heights();
      }
    }

    /** The heights at which the tiers of the tree come into force. */
    ghost function Heights(): set<nat>
      reads this, Repr
    {
      set p | p in Repr :: p.nHeightEffective
    }

    /** A proper tree: no tier is reached twice. */
    ghost predicate Valid()
      reads this, Repr
      decreases Repr
    {
      && this in Repr
      && (pLeft != null ==> pLeft in Repr && pLeft.Repr < Repr && this !in pLeft.Repr && pLeft.Valid())
      && (pRight != null ==> pRight in Repr && pRight.Repr < Repr && this !in pRight.Repr && pRight.Valid())
      && (pLeft != null && pRight != null ==> pLeft.Repr !! pRight.Repr)
      && Repr == {this} + LeftRepr() + RightRepr()
    }

    ghost function LeftRepr(): set<Params>
      reads this, pLeft
    {
      if pLeft == null then {} else pLeft.Repr
    }

    ghost function RightRepr(): set<Params>
      reads this, pRight
    {
      if pRight == null then {} else pRight.Repr
    }

    /** A search tree by height. */
    ghost predicate Ordered()
      requires Valid()
      reads this, Repr
      decreases Repr
    {
      && (forall p :: p in LeftRepr() ==> p.nHeightEffective < nHeightEffective)
      && (forall p :: p in RightRepr() ==> p.nHeightEffective > nHeightEffective)
      && (pLeft != null ==> pLeft.Ordered())
      && (pRight != null ==> pRight.Ordered())
    }

    /** The tier for a height: the code does not come back from the left, but does from the right. */
    function GetConsensus(h: nat): (r: Params)
      requires Valid()
      reads this, Repr
      ensures r in Repr
      decreases Repr
    {
      if h < nHeightEffective && pLeft != null then pLeft.GetConsensus(h)
      else if h > nHeightEffective && pRight != null && pRight.GetConsensus(h).nHeightEffective <= h then pRight.GetConsensus(h)
      else this
    }

    /** In a search tree the tier in force is found; where none is in force yet, the first one is given. */
    lemma {:induction false} GetConsensusIsLatest(h: nat)
      requires Valid() && Ordered()
      ensures var r := GetConsensus(h);
              (r.nHeightEffective <= h <==> exists p :: p in Repr && p.nHeightEffective <= h) &&
              (r.nHeightEffective <= h ==> forall p :: p in Repr && p.nHeightEffective <= h ==> p.nHeightEffective <= r.nHeightEffective) &&
              (r.nHeightEffective > h ==> forall p :: p in Repr ==> r.nHeightEffective <= p.nHeightEffective)
      decreases Repr
    {
      if pLeft != null {
        pLeft.GetConsensusIsLatest(h);
      }
      if pRight != null {
        pRight.GetConsensusIsLatest(h);
      }
    }

    /** `ArmMigrationTiers`: every tier that can be found carries the values, and nothing else changes. */
    method ArmMigrationTiers(m: Migration)
      requires Valid()
      modifies Repr`migration
      ensures Valid()
      ensures forall p :: p in Repr ==> p.migration == m
      ensures forall h: nat :: GetConsensus(h).migration == m
      decreases Repr
    {
      hide GetConsensus;
      migration := m;
      if pLeft != null {
        pLeft.ArmMigrationTiers(m);
      }
      if pRight != null {
        pRight.ArmMigrationTiers(m);
      }
    }
  }

  /** At every height the tier in force is the one with the last height reached. */
  ghost predicate InForce(root: Params, heights: set<nat>)
    requires root.Valid()
    reads root, root.Repr
  {
    forall h: nat :: IsLastReached(root.GetConsensus(h).nHeightEffective, heights, h)
  }

  predicate IsLastReached(k: nat, heights: set<nat>, h: nat) {
    k in heights && k <= h && forall j :: j in heights && j <= h ==> j <= k
  }

  /** A tree with a tier from height 0 on never runs out. */
  lemma HeightsInForce(root: Params)
    requires root.Valid() && root.Ordered() && 0 in root.Heights()
    ensures InForce(root, root.Heights())
  {
    forall h: nat
      ensures IsLastReached(root.GetConsensus(h).nHeightEffective, root.Heights(), h)
    {
      root.GetConsensusIsLatest(h);
    }
  }

  /** Mainnet and testnet: the DigiShield tier is not linked. */
  method MainTiers(m: Migration) returns (root: Params)
    ensures fresh(root.Repr) && root.Valid() && root.Ordered() && InForce(root, {0, 1})
    ensures forall p :: p in root.Repr ==> p.migration == m
  {
    hide *;
    var consensus := new Params(0, m);
    var auxpow := new Params(1, m);
    consensus.Link(null, auxpow);
    root := consensus;
    assert root.Heights() == {0, 1};
    HeightsInForce(root);
  }

  /** Regtest and stagenet: the root is the DigiShield tier, with the genesis tier on its left. */
  method DigishieldRoot(height: nat, right: Params, m: Migration) returns (root: Params)
    requires height > 0 && right.Valid() && right.Ordered()
    requires forall k :: k in right.Heights() ==> k > height
    ensures root.Valid() && root.Ordered() && root.Heights() == {0, height} + right.Heights()
    ensures right.Repr <= root.Repr && fresh(root.Repr - right.Repr)
    ensures forall p :: p in root.Repr && p !in right.Repr ==> p.migration == m
  {
    hide *;
    var consensus := new Params(0, m);
    var digishield := new Params(height, m);
    digishield.Link(consensus, right);
    root := digishield;
  }

  method RegtestTiers(m: Migration) returns (root: Params)
    ensures fresh(root.Repr) && root.Valid() && root.Ordered() && InForce(root, {0, 10, 20})
    ensures forall p :: p in root.Repr ==> p.migration == m
  {
    hide *;
    var auxpow := new Params(20, m);
    root := DigishieldRoot(10, auxpow, m);
    assert root.Heights() == {0, 10, 20};
    HeightsInForce(root);
  }

  method StagenetTiers(m: Migration) returns (root: Params)
    ensures fresh(root.Repr) && root.Valid() && root.Ordered() && InForce(root, {0, 1, 100, 100000})
    ensures forall p :: p in root.Repr ==> p.migration == m
  {
    hide *;
    var auxpow := new Params(100, m);
    var maturityMirror := new Params(100000, m);
    auxpow.Link(null, maturityMirror);
    root := DigishieldRoot(1, auxpow, m);
    assert root.Heights() == {0, 1, 100, 100000};
    HeightsInForce(root);
  }
}
