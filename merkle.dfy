/**
 * Merkle-branch checking of ethereum-common/src/merkle.rs: the
 * `is_valid_merkle_branch` check of the phase0 beacon-chain specification,
 * the sync-protocol (depth, index) pairs before and after the Electra fork,
 * and the three light-client proof checks built on them.
 *
 * SHA-256 is a parameter: any function from bytes to 32 bytes.
 */
module Merkle {
  import opened Arith
  import opened Bits
  import opened Wrappers

  type Bytes32 = s: seq<Byte> | |s| == 32 witness seq(32, _ => 0)

  /** `u32` values. */
  const U32Bound: nat := 0x1_0000_0000

  // ----- is_valid_merkle_branch --------------------------------------------

  /** One level: the running value is hashed with the sibling, on the left when the level's index bit is 0. */
  function HashStep(sha256: seq<Byte> -> Bytes32, value: Bytes32, node: Bytes32, indexBit: bool): Bytes32 {
    if !indexBit then sha256(value + node) else sha256(node + value)
  }

  /** The root a branch computes from `leaf`: one `HashStep` per node, level i using bit i of `index`. */
  function BranchRoot(sha256: seq<Byte> -> Bytes32, leaf: Bytes32, nodes: seq<Bytes32>, index: nat): Bytes32
    decreases |nodes|
  {
    if nodes == [] then leaf
    else
      var i := |nodes| - 1;
      HashStep(sha256, BranchRoot(sha256, leaf, nodes[..i], index), nodes[i], Bit(index, i))
  }

  /** What `is_valid_merkle_branch` decides: enough nodes, and the first `depth` of them lead to `root`. */
  predicate MerkleBranchHolds(sha256: seq<Byte> -> Bytes32, leaf: Bytes32, branch: seq<Bytes32>, depth: nat, index: nat, root: Bytes32) {
    |branch| >= depth && BranchRoot(sha256, leaf, branch[..depth], index) == root
  }

  /**
   * `is_valid_merkle_branch`. Level i reads bit i of `index` as
   * `(index / 2u32.pow(i)) % 2`; at i = 32 that power does not fit a `u32`
   * (an overflow panic, or a division by zero when wrapped), so a loop
   * that reaches level 32 panics (None).
   */
  method IsValidMerkleBranch(sha256: seq<Byte> -> Bytes32, leaf: Bytes32, branch: seq<Bytes32>, depth: nat, index: nat, root: Bytes32)
    returns (r: Option<bool>)
    requires depth < U32Bound && index < U32Bound
    ensures r.None? <==> depth > 32 && |branch| > 32
    ensures r.Some? ==> (r.value <==> MerkleBranchHolds(sha256, leaf, branch, depth, index, root))
  {
    var value: Bytes32 := leaf;
    var i: nat := 0;
    while i < depth
      invariant i <= depth && i <= |branch| && i <= 32
      invariant value == BranchRoot(sha256, leaf, branch[..i], index)
    {
      if i == |branch| {
        return Some(false);
      }
      if i == 32 {
        return None;
      }
      var nextNode := branch[i];
      var nodeFirst: seq<Byte>, nodeSecond: seq<Byte> := value, nextNode;
      if Shr(index, i) % 2 != 0 {
        nodeFirst, nodeSecond := nextNode, value;
      }
      assert branch[..i + 1][..i] == branch[..i];
      value := sha256(nodeFirst + nodeSecond);
      i := i + 1;
    }
    r := Some(value == root);
  }

  /** Nodes after the first `depth` are never read. */
  lemma ExtraNodesIgnored(sha256: seq<Byte> -> Bytes32, leaf: Bytes32, branch: seq<Bytes32>, extra: seq<Bytes32>, depth: nat, index: nat, root: Bytes32)
    requires |branch| >= depth
    ensures MerkleBranchHolds(sha256, leaf, branch + extra, depth, index, root)
        <==> MerkleBranchHolds(sha256, leaf, branch, depth, index, root)
  {
    assert (branch + extra)[..depth] == branch[..depth];
  }

  /** A branch shorter than `depth` never passes, whatever the root. */
  lemma ShortBranchFails(sha256: seq<Byte> -> Bytes32, leaf: Bytes32, branch: seq<Bytes32>, depth: nat, index: nat, root: Bytes32)
    requires |branch| < depth
    ensures !MerkleBranchHolds(sha256, leaf, branch, depth, index, root)
  {
  }

  /** At depth 0 the check is `leaf == root`. */
  lemma DepthZeroIsEquality(sha256: seq<Byte> -> Bytes32, leaf: Bytes32, branch: seq<Bytes32>, index: nat, root: Bytes32)
    ensures MerkleBranchHolds(sha256, leaf, branch, 0, index, root) <==> leaf == root
  {
    assert branch[..0] == [];
  }

  /** Only the low `|nodes|` bits of the index choose sides; higher bits do not matter. */
  lemma {:induction false} BranchRootUsesLowIndexBits(sha256: seq<Byte> -> Bytes32, leaf: Bytes32, nodes: seq<Bytes32>, index: nat, width: nat)
    requires |nodes| <= width
    ensures BranchRoot(sha256, leaf, nodes, index) == BranchRoot(sha256, leaf, nodes, Low(index, width))
    decreases |nodes|
  {
    if nodes != [] {
      var i := |nodes| - 1;
      BranchRootUsesLowIndexBits(sha256, leaf, nodes[..i], index, width);
      BitOfLow(index, width, i);
    }
  }

  /** A branch one node longer applies one more `HashStep` to the shorter branch's root. */
  lemma BranchRootExtend(sha256: seq<Byte> -> Bytes32, leaf: Bytes32, nodes: seq<Bytes32>, node: Bytes32, index: nat)
    ensures BranchRoot(sha256, leaf, nodes + [node], index)
         == HashStep(sha256, BranchRoot(sha256, leaf, nodes, index), node, Bit(index, |nodes|))
  {
    assert (nodes + [node])[..|nodes|] == nodes;
  }

  // ----- generalized indices -------------------------------------------------

  /** `floorlog2`, which `get_generalized_index_length` returns. */
  function FloorLog2(g: nat): (r: nat)
    requires g >= 1
    ensures Pow2(r) <= g < Pow2(r + 1)
  {
    if g == 1 then 0 else FloorLog2(g / 2) + 1
  }

  /** `get_subtree_index`: the generalized index without its leading 1 bit. */
  function SubtreeIndex(g: nat): (r: nat)
    requires g >= 1
    ensures r < Pow2(FloorLog2(g)) && r + Pow2(FloorLog2(g)) == g
  {
    g - Pow2(FloorLog2(g))
  }

  /** A (depth, index) pair as the sync protocol derives it from a generalized index. */
  predicate PairOfGindex(pair: (nat, nat), g: nat)
    requires g >= 1
  {
    pair.0 == FloorLog2(g) && pair.1 == SubtreeIndex(g)
  }

  // Generalized indices of the sync protocol (Altair; Electra).
  const CurrentSyncCommitteeGindex: nat := 54
  const NextSyncCommitteeGindex: nat := 55
  const FinalizedRootGindex: nat := 105
  const CurrentSyncCommitteeGindexElectra: nat := 86
  const NextSyncCommitteeGindexElectra: nat := 87
  const FinalizedRootGindexElectra: nat := 169

  // Constants of the source, before Electra.
  const DepthCurrentSyncCommittee: nat := 5
  const IndexCurrentSyncCommittee: nat := 22
  const DepthNextSyncCommittee: nat := 5
  const IndexNextSyncCommittee: nat := 23
  const DepthFinality: nat := 6
  const IndexFinality: nat := 41

  // The source's `electra` module.
  const ElectraDepthCurrentSyncCommittee: nat := 6
  const ElectraIndexCurrentSyncCommittee: nat := 22
  const ElectraDepthNextSyncCommittee: nat := 6
  const ElectraIndexNextSyncCommittee: nat := 23
  const ElectraDepthFinality: nat := 7
  const ElectraIndexFinality: nat := 41

  /** The depth of a generalized index is the one power of two it lies between. */
  lemma {:induction false} FloorLog2Is(g: nat, d: nat)
    requires Pow2(d) <= g < Pow2(d + 1)
    ensures FloorLog2(g) == d
  {
    if d > 0 {
      FloorLog2Is(g / 2, d - 1);
    }
  }

  /** Before Electra, every constant pair is `get_generalized_index_length` and `get_subtree_index` of its generalized index. */
  lemma ConstantsMatchGindices()
    ensures PairOfGindex((DepthCurrentSyncCommittee, IndexCurrentSyncCommittee), CurrentSyncCommitteeGindex)
    ensures PairOfGindex((DepthNextSyncCommittee, IndexNextSyncCommittee), NextSyncCommitteeGindex)
    ensures PairOfGindex((DepthFinality, IndexFinality), FinalizedRootGindex)
  {
    FloorLog2Is(54, 5);
    FloorLog2Is(55, 5);
    FloorLog2Is(105, 6);
  }

  /** From Electra on, the same holds of the Electra constants. */
  lemma ElectraConstantsMatchGindices()
    ensures PairOfGindex((ElectraDepthCurrentSyncCommittee, ElectraIndexCurrentSyncCommittee), CurrentSyncCommitteeGindexElectra)
    ensures PairOfGindex((ElectraDepthNextSyncCommittee, ElectraIndexNextSyncCommittee), NextSyncCommitteeGindexElectra)
    ensures PairOfGindex((ElectraDepthFinality, ElectraIndexFinality), FinalizedRootGindexElectra)
  {
    FloorLog2Is(86, 6);
    FloorLog2Is(87, 6);
    FloorLog2Is(169, 7);
  }

  // ----- fork-dependent (depth, index) ---------------------------------------

  /** `Network`, reduced to `epoch_electra`. */
  datatype Network = Network(epochElectra: nat)

  /** `BeaconBlockHeader`, reduced to the two fields the proof checks read. */
  datatype BeaconBlockHeader = BeaconBlockHeader(slot: nat, stateRoot: Bytes32)

  /** Whether `slot` falls in Electra; `calculateEpoch` is `utils::calculate_epoch`. */
  predicate IsElectra(network: Network, calculateEpoch: nat -> nat, slot: nat) {
    calculateEpoch(slot) >= network.epochElectra
  }

  /** `depth_index_current`. */
  function DepthIndexCurrent(network: Network, calculateEpoch: nat -> nat, slot: nat): (r: (nat, nat))
    ensures IsElectra(network, calculateEpoch, slot) ==> r == (ElectraDepthCurrentSyncCommittee, ElectraIndexCurrentSyncCommittee)
    ensures !IsElectra(network, calculateEpoch, slot) ==> r == (DepthCurrentSyncCommittee, IndexCurrentSyncCommittee)
  {
    var epochElectra := network.epochElectra;
    var epoch := calculateEpoch(slot);
    if epoch >= epochElectra then (ElectraDepthCurrentSyncCommittee, ElectraIndexCurrentSyncCommittee)
    else (DepthCurrentSyncCommittee, IndexCurrentSyncCommittee)
  }

  /** `depth_index_next`. */
  function DepthIndexNext(network: Network, calculateEpoch: nat -> nat, slot: nat): (r: (nat, nat))
    ensures IsElectra(network, calculateEpoch, slot) ==> r == (ElectraDepthNextSyncCommittee, ElectraIndexNextSyncCommittee)
    ensures !IsElectra(network, calculateEpoch, slot) ==> r == (DepthNextSyncCommittee, IndexNextSyncCommittee)
  {
    var epochElectra := network.epochElectra;
    var epoch := calculateEpoch(slot);
    if epoch >= epochElectra then (ElectraDepthNextSyncCommittee, ElectraIndexNextSyncCommittee)
    else (DepthNextSyncCommittee, IndexNextSyncCommittee)
  }

  /** `depth_index_finality`. */
  function DepthIndexFinality(network: Network, calculateEpoch: nat -> nat, slot: nat): (r: (nat, nat))
    ensures IsElectra(network, calculateEpoch, slot) ==> r == (ElectraDepthFinality, ElectraIndexFinality)
    ensures !IsElectra(network, calculateEpoch, slot) ==> r == (DepthFinality, IndexFinality)
  {
    var epochElectra := network.epochElectra;
    var epoch := calculateEpoch(slot);
    if epoch >= epochElectra then (ElectraDepthFinality, ElectraIndexFinality)
    else (DepthFinality, IndexFinality)
  }

  /** Electra makes every proof one level deeper and keeps its index. */
  lemma ElectraAddsOneLevel(electra: Network, preElectra: Network, calculateEpoch: nat -> nat, slot: nat)
    requires IsElectra(electra, calculateEpoch, slot) && !IsElectra(preElectra, calculateEpoch, slot)
    ensures var (d, i) := DepthIndexCurrent(preElectra, calculateEpoch, slot);
      DepthIndexCurrent(electra, calculateEpoch, slot) == (d + 1, i)
    ensures var (d, i) := DepthIndexNext(preElectra, calculateEpoch, slot);
      DepthIndexNext(electra, calculateEpoch, slot) == (d + 1, i)
    ensures var (d, i) := DepthIndexFinality(preElectra, calculateEpoch, slot);
      DepthIndexFinality(electra, calculateEpoch, slot) == (d + 1, i)
  {
  }

  /** With an epoch function that never decreases, a slot in Electra stays in Electra for all later slots. */
  lemma ElectraIsPermanent(network: Network, calculateEpoch: nat -> nat, slot: nat, later: nat)
    requires forall a: nat, b: nat :: a <= b ==> calculateEpoch(a) <= calculateEpoch(b)
    requires slot <= later && IsElectra(network, calculateEpoch, slot)
    ensures DepthIndexCurrent(network, calculateEpoch, later) == DepthIndexCurrent(network, calculateEpoch, slot)
    ensures DepthIndexNext(network, calculateEpoch, later) == DepthIndexNext(network, calculateEpoch, slot)
    ensures DepthIndexFinality(network, calculateEpoch, later) == DepthIndexFinality(network, calculateEpoch, slot)
  {
    assert calculateEpoch(slot) <= calculateEpoch(later);
  }

  // ----- the three light-client proof checks ---------------------------------

  /**
   * `is_current_committee_proof_valid`: the committee's `tree_hash_root`
   * (a parameter) against the attested header's state root, with the
   * (depth, index) of the attested slot.
   */
  method IsCurrentCommitteeProofValid(sha256: seq<Byte> -> Bytes32, network: Network, calculateEpoch: nat -> nat,
                                      attestedHeader: BeaconBlockHeader, currentCommitteeRoot: Bytes32, branch: seq<Bytes32>)
    returns (ok: bool)
    ensures var (depth, index) := DepthIndexCurrent(network, calculateEpoch, attestedHeader.slot);
      ok <==> MerkleBranchHolds(sha256, currentCommitteeRoot, branch, depth, index, attestedHeader.stateRoot)
  {
    var (depth, index) := DepthIndexCurrent(network, calculateEpoch, attestedHeader.slot);
    var r := IsValidMerkleBranch(sha256, currentCommitteeRoot, branch, depth, index, attestedHeader.stateRoot);
    ok := r.value;
  }

  /** `is_finality_proof_valid`: the finality header's root, with the finality (depth, index). */
  method IsFinalityProofValid(sha256: seq<Byte> -> Bytes32, network: Network, calculateEpoch: nat -> nat,
                              attestedHeader: BeaconBlockHeader, finalityHeaderRoot: Bytes32, branch: seq<Bytes32>)
    returns (ok: bool)
    ensures var (depth, index) := DepthIndexFinality(network, calculateEpoch, attestedHeader.slot);
      ok <==> MerkleBranchHolds(sha256, finalityHeaderRoot, branch, depth, index, attestedHeader.stateRoot)
  {
    var (depth, index) := DepthIndexFinality(network, calculateEpoch, attestedHeader.slot);
    var r := IsValidMerkleBranch(sha256, finalityHeaderRoot, branch, depth, index, attestedHeader.stateRoot);
    ok := r.value;
  }

  /** `is_next_committee_proof_valid`: the next committee's root, with the next-committee (depth, index). */
  method IsNextCommitteeProofValid(sha256: seq<Byte> -> Bytes32, network: Network, calculateEpoch: nat -> nat,
                                   attestedHeader: BeaconBlockHeader, nextCommitteeRoot: Bytes32, branch: seq<Bytes32>)
    returns (ok: bool)
    ensures var (depth, index) := DepthIndexNext(network, calculateEpoch, attestedHeader.slot);
      ok <==> MerkleBranchHolds(sha256, nextCommitteeRoot, branch, depth, index, attestedHeader.stateRoot)
  {
    var (depth, index) := DepthIndexNext(network, calculateEpoch, attestedHeader.slot);
    var r := IsValidMerkleBranch(sha256, nextCommitteeRoot, branch, depth, index, attestedHeader.stateRoot);
    ok := r.value;
  }
}
