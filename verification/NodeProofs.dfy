/** The fast half of internal/merkle/merkle.go: proofs read from precomputed
    tree nodes.  The source also carries a base level, which is 0 in every call
    and is left out here. */
module NodeProofs {
  import opened BitArith
  import opened Wrappers
  import opened Hashing
  import opened Merkle
  import opened MerkleProofs

  /** The callback that returns the stored hash at (level, index). */
  type NodeReader = (nat, nat) -> Hash

  /** [start, end) is a subtree when its start is a multiple of BIT_CEIL(end - start). */
  predicate IsValidSubtree(start: nat, end: nat) {
    start < end && start % BitCeil(end - start) == 0
  }

  function SubtreeHashFromNodes(start: nat, end: nat, nodeAt: NodeReader): Hash
    requires start < end
    decreases end - start
  {
    var n := end - start;
    if n == 1 then nodeAt(0, start)
    else if BitAnd(n, n - 1) == 0 then
      var h := TrailingZeros(n);
      nodeAt(h, ShiftRight(start, h))
    else
      var k := SplitPoint(n);
      InteriorHash(SubtreeHashFromNodes(start, start + k, nodeAt),
                   SubtreeHashFromNodes(start + k, end, nodeAt))
  }

  function InclusionProofFromNodes(index: int, size: int, nodeAt: NodeReader): Result<seq<Hash>> {
    if index < 0 || index >= size then Err("index out of range")
    else Ok(InclusionPathFromNodes(index, 0, size, nodeAt))
  }

  function InclusionPathFromNodes(index: nat, start: nat, end: nat, nodeAt: NodeReader): seq<Hash>
    requires start <= index < end
    decreases end - start
  {
    var n := end - start;
    if n == 1 then []
    else
      var k := SplitPoint(n);
      if index - start < k then
        InclusionPathFromNodes(index, start, start + k, nodeAt) + [SubtreeHashFromNodes(start + k, end, nodeAt)]
      else
        InclusionPathFromNodes(index, start + k, end, nodeAt) + [SubtreeHashFromNodes(start, start + k, nodeAt)]
  }

  function ConsistencyProofFromNodes(oldSize: int, newSize: int, nodeAt: NodeReader): Result<seq<Hash>> {
    if oldSize < 0 || oldSize > newSize then Err("invalid sizes")
    else if oldSize == 0 then Ok([])
    else if oldSize == newSize then Ok([])
    else Ok(ConsistencyPathFromNodes(oldSize, newSize, 0, true, nodeAt))
  }

  function ConsistencyPathFromNodes(m: nat, n: nat, start: nat, openRight: bool, nodeAt: NodeReader): seq<Hash>
    requires 0 < m <= n
    decreases n
  {
    var end := start + n;
    if m == n then
      if openRight then [] else [SubtreeHashFromNodes(start, end, nodeAt)]
    else
      var k := SplitPoint(n);
      if m <= k then
        ConsistencyPathFromNodes(m, k, start, openRight, nodeAt) + [SubtreeHashFromNodes(start + k, end, nodeAt)]
      else
        ConsistencyPathFromNodes(m - k, n - k, start + k, false, nodeAt) +
        [SubtreeHashFromNodes(start, start + k, nodeAt)]
  }

  function RootFromNodes(size: int, nodeAt: NodeReader): Hash {
    if size <= 0 then Sha256([]) else SubtreeHashFromNodes(0, size, nodeAt)
  }

  // ----- what the reader must get right -----

  /** The first leaf below node (level, idx). */
  function NodeStart(level: nat, idx: nat): nat {
    idx * Pow2(level)
  }

  /** Node (level, idx) has all of its 2^level leaves in a tree of this size. */
  predicate Complete(level: nat, idx: nat, size: nat) {
    NodeStart(level, idx) + Pow2(level) <= size
  }

  /** nodeAt is right on the complete nodes; nothing is said of the others. */
  ghost predicate ReadsCompleteNodes(nodeAt: NodeReader, hashAt: LeafReader, size: nat) {
    forall level: nat, idx: nat :: Complete(level, idx, size) ==>
      nodeAt(level, idx) ==
      ComputeSubtreeHash(NodeStart(level, idx), NodeStart(level, idx) + Pow2(level), hashAt)
  }

  lemma BitCeilIsPow2(n: nat)
    requires n >= 1
    ensures BitCeil(n) == Pow2(Log2Ceil(n))
  {
  }

  lemma BitCeilOfPow2(e: nat)
    ensures BitCeil(Pow2(e)) == Pow2(e)
  {
    BitCeilIsPow2(Pow2(e));
    LogOfPow2(e);
  }

  /** The alignment of a range and of its halves, as powers of two. */
  lemma HalvesAlign(start: nat, n: nat, e: nat)
    requires n >= 2 && SplitPoint(n) == Pow2(e) && start % BitCeil(n) == 0
    ensures start % Pow2(e) == 0 && Log2Ceil(n - Pow2(e)) <= e
  {
    hide SplitPoint, BitCeil, Pow2, Log2Ceil;
    HeightOfHalves(n);
    LogOfPow2(e);
    BitCeilIsPow2(n);
    AlignedToSmaller(start, e, e + 1);
  }

  /** A start that is aligned to 2^e stays aligned to smaller powers 2^e on. */
  lemma RightHalfAligns(start: nat, j: nat, e: nat)
    requires j <= e && start % Pow2(e) == 0
    ensures (start + Pow2(e)) % Pow2(j) == 0
  {
    hide Pow2;
    AlignedToSmaller(start, j, e);
    var q := Pow2Divides(j, e);
    MultipleModZero(q, Pow2(j));
    AlignedSum(start, Pow2(e), Pow2(j));
  }

  /** Every range that the recursions reach is a valid subtree again. */
  lemma SubtreeChildren(start: nat, end: nat)
    requires IsValidSubtree(start, end) && end - start >= 2
    ensures var k := SplitPoint(end - start);
            IsValidSubtree(start, start + k) && IsValidSubtree(start + k, end)
  {
    hide SplitPoint, BitCeil, Pow2, Log2Ceil;
    var n := end - start;
    var e := SplitPointIsPow2(n);
    var k := SplitPoint(n);
    HalvesAlign(start, n, e);
    BitCeilOfPow2(e);
    RightHalfAligns(start, Log2Ceil(n - k), e);
    BitCeilIsPow2(n - k);
  }

  lemma LogOfPow2(e: nat)
    ensures Log2Ceil(Pow2(e)) == e
  {
    Log2CeilIsLeast(Pow2(e), e);
    if e > 0 {
      Log2CeilIsLeast(Pow2(e), e - 1);
    }
  }

  /** A valid subtree whose width is a power of two is a complete node. */
  lemma AlignedNode(start: nat, end: nat)
    requires IsValidSubtree(start, end)
    requires end - start == Pow2(TrailingZeros(end - start))
    ensures var h := TrailingZeros(end - start);
            NodeStart(h, ShiftRight(start, h)) == start && Complete(h, ShiftRight(start, h), end)
  {
    hide Pow2, TrailingZeros, Log2Ceil, BitCeil;
    var h := TrailingZeros(end - start);
    LogOfPow2(h);
    BitCeilIsPow2(end - start);
    var width := Pow2(h);
    assert start == (start / width) * width + start % width;
  }

  /** n is a power of two by the source's test: one node is read. */
  lemma NodeStepOne(start: nat, end: nat, nodeAt: NodeReader)
    requires start < end && BitAnd(end - start, end - start - 1) == 0
    ensures var h := TrailingZeros(end - start);
            && SubtreeHashFromNodes(start, end, nodeAt) == nodeAt(h, ShiftRight(start, h))
            && SubtreeReads(start, end) == [(h, ShiftRight(start, h))]
  {
    hide SplitPoint, BitAnd;
    if end - start == 1 {
      assert TrailingZeros(1) == 0;
    }
  }

  /** n is not a power of two: both halves are read. */
  lemma NodeStepTwo(start: nat, end: nat, k: nat, nodeAt: NodeReader)
    requires start + 2 <= end && BitAnd(end - start, end - start - 1) != 0 && k == SplitPoint(end - start)
    ensures SubtreeHashFromNodes(start, end, nodeAt) ==
            InteriorHash(SubtreeHashFromNodes(start, start + k, nodeAt), SubtreeHashFromNodes(start + k, end, nodeAt))
    ensures SubtreeReads(start, end) == SubtreeReads(start, start + k) + SubtreeReads(start + k, end)
  {
    hide SplitPoint, BitAnd, InteriorHash;
  }

  // ----- the fast form refines the simple form -----

  lemma {:induction false} SubtreeFromNodesIsSubtree(start: nat, end: nat, size: nat, nodeAt: NodeReader,
                                                     hashAt: LeafReader)
    requires IsValidSubtree(start, end) && end <= size
    requires ReadsCompleteNodes(nodeAt, hashAt, size)
    ensures SubtreeHashFromNodes(start, end, nodeAt) == ComputeSubtreeHash(start, end, hashAt)
    decreases end - start
  {
    hide SplitPoint, BitAnd, Pow2, ComputeSubtreeHash, InteriorHash, BitCeil, SubtreeHashFromNodes, SubtreeReads,
         TrailingZeros, ShiftRight, NodeStart;
    var n := end - start;
    PowerOfTwoTest(n);
    if BitAnd(n, n - 1) == 0 {
      AlignedNode(start, end);
      NodeStepOne(start, end, nodeAt);
      var h := TrailingZeros(n);
      assert Complete(h, ShiftRight(start, h), size);
    } else {
      assert n >= 2 by { AndWithZero(n); }
      var k := SplitPoint(n);
      NodeStepTwo(start, end, k, nodeAt);
      SubtreeChildren(start, end);
      SubtreeStep(start, end, k, hashAt);
      SubtreeFromNodesIsSubtree(start, start + k, size, nodeAt, hashAt);
      SubtreeFromNodesIsSubtree(start + k, end, size, nodeAt, hashAt);
    }
  }

  lemma AndWithZero(n: nat)
    ensures n == 1 ==> BitAnd(n, n - 1) == 0
  {
  }

  lemma {:induction false} InclusionPathsAgree(index: nat, start: nat, end: nat, size: nat, nodeAt: NodeReader,
                                               hashAt: LeafReader)
    requires IsValidSubtree(start, end) && start <= index < end <= size
    requires ReadsCompleteNodes(nodeAt, hashAt, size)
    ensures InclusionPathFromNodes(index, start, end, nodeAt) == InclusionPath(index, start, end, hashAt)
    decreases end - start
  {
    hide SplitPoint, SubtreeHashFromNodes, ComputeSubtreeHash, IsValidSubtree, ReadsCompleteNodes;
    if end - start > 1 {
      var k := SplitPoint(end - start);
      SubtreeChildren(start, end);
      SubtreeFromNodesIsSubtree(start, start + k, size, nodeAt, hashAt);
      SubtreeFromNodesIsSubtree(start + k, end, size, nodeAt, hashAt);
      if index - start < k {
        InclusionPathsAgree(index, start, start + k, size, nodeAt, hashAt);
      } else {
        InclusionPathsAgree(index, start + k, end, size, nodeAt, hashAt);
      }
    }
  }

  lemma {:induction false} ConsistencyPathsAgree(m: nat, n: nat, start: nat, openRight: bool, size: nat,
                                                 nodeAt: NodeReader, hashAt: LeafReader)
    requires 0 < m <= n && IsValidSubtree(start, start + n) && start + n <= size
    requires ReadsCompleteNodes(nodeAt, hashAt, size)
    ensures ConsistencyPathFromNodes(m, n, start, openRight, nodeAt) == ConsistencyPath(m, n, start, openRight, hashAt)
    decreases n
  {
    hide SplitPoint, SubtreeHashFromNodes, ComputeSubtreeHash, IsValidSubtree, ReadsCompleteNodes;
    if m == n {
      SubtreeFromNodesIsSubtree(start, start + n, size, nodeAt, hashAt);
    } else {
      var k := SplitPoint(n);
      SubtreeChildren(start, start + n);
      SubtreeFromNodesIsSubtree(start, start + k, size, nodeAt, hashAt);
      SubtreeFromNodesIsSubtree(start + k, start + n, size, nodeAt, hashAt);
      if m <= k {
        ConsistencyPathsAgree(m, k, start, openRight, size, nodeAt, hashAt);
      } else {
        ConsistencyPathsAgree(m - k, n - k, start + k, false, size, nodeAt, hashAt);
      }
    }
  }

  lemma WholeTreeIsValid(size: nat)
    requires size >= 1
    ensures IsValidSubtree(0, size)
  {
  }

  /** Both generators return the same result as their leaf-level forms, errors
      included, as soon as the complete nodes of the tree are right. */
  lemma FastProofsAgree(nodeAt: NodeReader, hashAt: LeafReader, size: nat)
    requires ReadsCompleteNodes(nodeAt, hashAt, size)
    ensures forall i: int :: InclusionProofFromNodes(i, size, nodeAt) == InclusionProof(i, size, hashAt)
    ensures forall m: int :: ConsistencyProofFromNodes(m, size, nodeAt) == ConsistencyProof(m, size, hashAt)
    ensures size > 0 ==> RootFromNodes(size, nodeAt) == ComputeSubtreeHash(0, size, hashAt)
    ensures forall i: int :: InclusionProofFromNodes(i, size, nodeAt).Ok? <==> 0 <= i < size
    ensures forall m: int :: ConsistencyProofFromNodes(m, size, nodeAt).Ok? <==> 0 <= m <= size
  {
    hide InclusionPathFromNodes, InclusionPath, ConsistencyPathFromNodes, ConsistencyPath,
         SubtreeHashFromNodes, ComputeSubtreeHash, ReadsCompleteNodes, IsValidSubtree;
    if size > 0 {
      WholeTreeIsValid(size);
      SubtreeFromNodesIsSubtree(0, size, size, nodeAt, hashAt);
    }
    forall i: int | 0 <= i < size
      ensures InclusionPathFromNodes(i, 0, size, nodeAt) == InclusionPath(i, 0, size, hashAt)
    {
      InclusionPathsAgree(i, 0, size, size, nodeAt, hashAt);
    }
    forall m: int | 0 < m < size
      ensures ConsistencyPathFromNodes(m, size, 0, true, nodeAt) == ConsistencyPath(m, size, 0, true, hashAt)
    {
      ConsistencyPathsAgree(m, size, 0, true, size, nodeAt, hashAt);
    }
  }

  // ----- which nodes are read -----

  /** The (level, index) pairs that SubtreeHashFromNodes asks for, in order. */
  ghost function SubtreeReads(start: nat, end: nat): seq<(nat, nat)>
    requires start < end
    decreases end - start
  {
    var n := end - start;
    if n == 1 then [(0, start)]
    else if BitAnd(n, n - 1) == 0 then [(TrailingZeros(n), ShiftRight(start, TrailingZeros(n)))]
    else
      var k := SplitPoint(n);
      SubtreeReads(start, start + k) + SubtreeReads(start + k, end)
  }

  ghost function InclusionReads(index: nat, start: nat, end: nat): seq<(nat, nat)>
    requires start <= index < end
    decreases end - start
  {
    var n := end - start;
    if n == 1 then []
    else
      var k := SplitPoint(n);
      if index - start < k then
        InclusionReads(index, start, start + k) + SubtreeReads(start + k, end)
      else
        InclusionReads(index, start + k, end) + SubtreeReads(start, start + k)
  }

  ghost predicate AgreeOn(nodeAt: NodeReader, nodeAt': NodeReader, asked: seq<(nat, nat)>) {
    forall r :: r in asked ==> nodeAt(r.0, r.1) == nodeAt'(r.0, r.1)
  }

  lemma {:induction false} SubtreeDependsOnReads(start: nat, end: nat, nodeAt: NodeReader, nodeAt': NodeReader)
    requires start < end && AgreeOn(nodeAt, nodeAt', SubtreeReads(start, end))
    ensures SubtreeHashFromNodes(start, end, nodeAt) == SubtreeHashFromNodes(start, end, nodeAt')
    decreases end - start
  {
    hide SplitPoint, BitAnd, InteriorHash, ShiftRight, TrailingZeros, SubtreeHashFromNodes, SubtreeReads;
    var n := end - start;
    if BitAnd(n, n - 1) == 0 {
      NodeStepOne(start, end, nodeAt);
      NodeStepOne(start, end, nodeAt');
      assert (TrailingZeros(n), ShiftRight(start, TrailingZeros(n))) in SubtreeReads(start, end);
    } else {
      assert n >= 2 by { AndWithZero(n); }
      var k := SplitPoint(n);
      NodeStepTwo(start, end, k, nodeAt);
      NodeStepTwo(start, end, k, nodeAt');
      SubtreeDependsOnReads(start, start + k, nodeAt, nodeAt');
      SubtreeDependsOnReads(start + k, end, nodeAt, nodeAt');
    }
  }

  lemma {:induction false} InclusionDependsOnReads(index: nat, start: nat, end: nat, nodeAt: NodeReader,
                                                   nodeAt': NodeReader)
    requires start <= index < end && AgreeOn(nodeAt, nodeAt', InclusionReads(index, start, end))
    ensures InclusionPathFromNodes(index, start, end, nodeAt) == InclusionPathFromNodes(index, start, end, nodeAt')
    decreases end - start
  {
    hide SplitPoint, SubtreeHashFromNodes, SubtreeReads;
    if end - start > 1 {
      var k := SplitPoint(end - start);
      if index - start < k {
        InclusionDependsOnReads(index, start, start + k, nodeAt, nodeAt');
        SubtreeDependsOnReads(start + k, end, nodeAt, nodeAt');
      } else {
        InclusionDependsOnReads(index, start + k, end, nodeAt, nodeAt');
        SubtreeDependsOnReads(start, start + k, nodeAt, nodeAt');
      }
    }
  }

  ghost predicate AllComplete(asked: seq<(nat, nat)>, size: nat) {
    forall r :: r in asked ==> Complete(r.0, r.1, size)
  }

  lemma {:induction false} SubtreeReadsComplete(start: nat, end: nat, size: nat)
    requires IsValidSubtree(start, end) && end <= size
    ensures AllComplete(SubtreeReads(start, end), size)
    decreases end - start
  {
    hide SplitPoint, BitAnd, Pow2, BitCeil, SubtreeReads, SubtreeHashFromNodes, TrailingZeros, ShiftRight, NodeStart;
    var n := end - start;
    PowerOfTwoTest(n);
    var anyReader: NodeReader := (level, idx) => ZeroHash();
    if BitAnd(n, n - 1) == 0 {
      AlignedNode(start, end);
      NodeStepOne(start, end, anyReader);
    } else {
      assert n >= 2 by { AndWithZero(n); }
      var k := SplitPoint(n);
      NodeStepTwo(start, end, k, anyReader);
      SubtreeChildren(start, end);
      SubtreeReadsComplete(start, start + k, size);
      SubtreeReadsComplete(start + k, end, size);
    }
  }

  /** InclusionProofFromNodes reads complete nodes only: nodes no append changes. */
  lemma {:induction false} InclusionReadsComplete(index: nat, start: nat, end: nat, size: nat)
    requires IsValidSubtree(start, end) && start <= index < end <= size
    ensures AllComplete(InclusionReads(index, start, end), size)
    decreases end - start
  {
    hide SplitPoint, IsValidSubtree, SubtreeReads, Complete;
    if end - start > 1 {
      var k := SplitPoint(end - start);
      SubtreeChildren(start, end);
      SubtreeReadsComplete(start, start + k, size);
      SubtreeReadsComplete(start + k, end, size);
      if index - start < k {
        InclusionReadsComplete(index, start, start + k, size);
      } else {
        InclusionReadsComplete(index, start + k, end, size);
      }
    }
  }

  lemma OneReadForPow2(start: nat, e: nat)
    ensures |SubtreeReads(start, start + Pow2(e))| == 1
  {
    TrailingZerosOfPow2(e);
    PowerOfTwoTest(Pow2(e));
    NodeStepOne(start, start + Pow2(e), (level, idx) => ZeroHash());
  }

  lemma {:induction false} SubtreeReadsBound(start: nat, end: nat)
    requires start < end
    ensures |SubtreeReads(start, end)| <= (if end - start <= 2 then 1 else Log2Ceil(end - start))
    decreases end - start
  {
    hide BitAnd, Pow2, SplitPoint, SubtreeReads, SubtreeHashFromNodes, TrailingZeros, ShiftRight, Log2Ceil;
    var n := end - start;
    var anyReader: NodeReader := (level, idx) => ZeroHash();
    if BitAnd(n, n - 1) == 0 {
      NodeStepOne(start, end, anyReader);
      if n > 1 {
        HeightOfHalves(n);
      }
    } else {
      assert n >= 3 by { AndWithZero(n); SmallPow2s(n); }
      var k := SplitPoint(n);
      NodeStepTwo(start, end, k, anyReader);
      var e := SplitPointIsPow2(n);
      OneReadForPow2(start, e);
      HeightOfHalves(n);
      LogOfPow2(e);
      assert e >= 1 by { SmallPow2s(n); }
      SubtreeReadsBound(start + k, end);
    }
  }

  lemma SmallPow2s(n: nat)
    ensures Pow2(0) == 1 && Pow2(1) == 2
    ensures n == 2 ==> BitAnd(n, n - 1) == 0
  {
  }

  lemma InclusionReadsStep(index: nat, start: nat, end: nat, k: nat)
    requires start <= index < end && end - start >= 2 && k == SplitPoint(end - start)
    ensures index < start + k ==>
              InclusionReads(index, start, end) == InclusionReads(index, start, start + k) +
              SubtreeReads(start + k, end)
    ensures index >= start + k ==>
              InclusionReads(index, start, end) == InclusionReads(index, start + k, end) +
              SubtreeReads(start, start + k)
  {
    hide SplitPoint, SubtreeReads;
  }

  lemma {:induction false} CompleteInclusionReads(index: nat, start: nat, e: nat)
    requires start <= index < start + Pow2(e)
    ensures |InclusionReads(index, start, start + Pow2(e))| == e
    decreases e
  {
    hide SplitPoint, SubtreeReads;
    if e > 0 {
      hide InclusionReads;
      var half := Pow2(e - 1);
      assert Pow2(e) == 2 * half;
      SplitPointUnique(Pow2(e), e - 1);
      InclusionReadsStep(index, start, start + Pow2(e), half);
      OneReadForPow2(start, e - 1);
      OneReadForPow2(start + half, e - 1);
      if index - start < half {
        CompleteInclusionReads(index, start, e - 1);
      } else {
        CompleteInclusionReads(index, start + half, e - 1);
      }
    }
  }

  /** At most 2 ceil(log2 n) - 1 node reads for an inclusion proof: at most one
      sibling on the path is a partial subtree. */
  lemma {:induction false} InclusionReadsBound(index: nat, start: nat, end: nat)
    requires start <= index < end
    ensures |InclusionReads(index, start, end)| <= (if end - start == 1 then 0 else 2 * Log2Ceil(end - start) - 1)
    decreases end - start
  {
    hide SplitPoint, SubtreeReads, Pow2, Log2Ceil;
    var n := end - start;
    if n > 1 {
      var e := SplitPointIsPow2(n);
      var k := SplitPoint(n);
      InclusionReadsStep(index, start, end, k);
      HeightOfHalves(n);
      LogOfPow2(e);
      if index - start < k {
        CompleteInclusionReads(index, start, e);
        SubtreeReadsBound(start + k, end);
      } else {
        InclusionReadsBound(index, start + k, end);
        OneReadForPow2(start, e);
      }
    }
  }
}
