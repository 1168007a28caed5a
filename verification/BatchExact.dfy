/** For which ranges the proofs of internal/batch/batch.go match the signed
    subtree hash: exactly for the valid subtrees. */
module BatchExact {
  import opened Wrappers
  import opened BitArith
  import opened Hashing
  import opened Merkle
  import opened MerkleProofs
  import opened NodeProofs
  import opened NodeTable
  import opened Batch
  import opened Recombination
  import BitWalk

  ghost predicate Distinct(d: seq<Bytes>) {
    forall i, j :: 0 <= i < j < |d| ==> d[i] != d[j]
  }

  /** Among distinct entries a slice is found at one place only. */
  lemma SliceUnique(d: seq<Bytes>, x: nat, y: nat, u: nat, v: nat)
    requires Distinct(d) && x < y <= |d| && u < v <= |d| && d[x..y] == d[u..v]
    ensures x == u && y == v
  {
    assert d[x] == d[x..y][0] == d[u];
    assert |d[x..y]| == y - x && |d[u..v]| == v - u;
  }

  /** The sibling that comes last in the path: the other half of the range. */
  function LastSibling(index: nat, start: nat, end: nat): (r: (nat, nat))
    requires start <= index < end && end - start >= 2
    ensures start <= r.0 < r.1 <= end
  {
    var k := SplitPoint(end - start);
    if index < start + k then (start + k, end) else (start, start + k)
  }

  /** A path with its last hash, as the tree hash of a slice. */
  lemma PathEnd(index: nat, start: nat, end: nat, d: seq<Bytes>, hashAt: LeafReader)
    requires start <= index < end <= |d| && end - start >= 2 && ReadsLeaves(hashAt, d)
    ensures var path, r := InclusionPath(index, start, end, hashAt), LastSibling(index, start, end);
            && |path| == PathLen(index - start, end - start) > 0
            && path[|path| - 1] == MTH(d[r.0..r.1])
            && Hashed(d[r.0..r.1]) <= Hashed(d[start..end])
  {
    hide SplitPoint, InclusionPath, ComputeSubtreeHash, RootFromProof, RootQueries, PathLen, InteriorHash,
         InteriorInput, MTH, Hashed, ReadsLeaves;
    var k := SplitPoint(end - start);
    var path := InclusionPath(index, start, end, hashAt);
    InclusionPathLength(index, start, end, hashAt);
    TreeStep(d, start, end, k);
    if index < start + k {
      StepLeft(index, start, end, k, hashAt, ZeroHash(), path);
      SubtreeIsMTH(start + k, end, hashAt, d);
    } else {
      StepRight(index, start, end, k, hashAt, ZeroHash(), path);
      SubtreeIsMTH(start, start + k, hashAt, d);
    }
  }

  /** [a, b) is a node of the tree over the first `end` entries. */
  ghost predicate IsNode(a: nat, b: nat, end: nat) {
    IsValidSubtree(a, b) && b <= end && (b == end || IsPow2(b - a))
  }

  lemma NodeChildren(a: nat, b: nat, end: nat)
    requires IsNode(a, b, end) && b - a >= 2
    ensures var k := SplitPoint(b - a);
            IsNode(a, a + k, end) && IsNode(a + k, b, end)
    ensures b < end ==> b - a == 2 * SplitPoint(b - a)
  {
    hide SplitPoint, IsValidSubtree, Pow2;
    var k := SplitPoint(b - a);
    SubtreeChildren(a, b);
    var e := SplitPointIsPow2(b - a);
    if b < end {
      var j: nat :| b - a == Pow2(j);
      DoubleSplit(b - a, j);
    }
  }

  lemma DoubleSplit(n: nat, j: nat)
    requires n >= 2 && n == Pow2(j)
    ensures n == 2 * SplitPoint(n)
  {
    assert j > 0;
    SplitPointUnique(n, j - 1);
  }

  /** Equal lengths and equal last siblings make equal ranges. */
  lemma SameRange(index: nat, a: nat, b: nat, start: nat, end: nat)
    requires IsNode(a, b, end) && a <= index < b && b - a >= 2
    requires start <= index < end && end - start >= 2
    requires PathLen(index - a, b - a) == PathLen(index - start, end - start)
    requires LastSibling(index, a, b) == LastSibling(index, start, end)
    ensures a == start && b == end
  {
    hide SplitPoint, IsValidSubtree, PathLen, Pow2;
    NodeChildren(a, b, end);
    hide IsNode;
    var k, k' := SplitPoint(end - start), SplitPoint(b - a);
    if index < start + k && index < a + k' {
      LeftPathLength(index - a, b - a);
      LeftPathLength(index - start, end - start);
      var e := SplitPointIsPow2(end - start);
      var e' := SplitPointIsPow2(b - a);
      assert e == e' by {
        LogOfPow2(e);
        LogOfPow2(e');
      }
    }
  }

  lemma LeftPathLength(index: nat, size: nat)
    requires size >= 2 && index < SplitPoint(size)
    ensures PathLen(index, size) == Log2Ceil(SplitPoint(size)) + 1
  {
    hide SplitPoint, PathLen, Pow2, Log2Ceil;
    var e := SplitPointIsPow2(size);
    PathLenStep(index, size, SplitPoint(size));
    BitWalk.PathLenOfPow2(index, e);
    LogOfPow2(e);
  }

  /** If the path in the range begins the path in a node, the range is a node. */
  lemma {:induction false} PrefixForcesNode(index: nat, a: nat, b: nat, start: nat, end: nat, d: seq<Bytes>,
                                            hashAt: LeafReader, inputs: set<Bytes>)
    requires IsNode(a, b, end) && a <= index < b && start <= index < end <= |d| && end - start >= 2
    requires Distinct(d) && ReadsLeaves(hashAt, d)
    requires CollisionFree(inputs) && Hashed(d[a..b]) <= inputs && Hashed(d[start..end]) <= inputs
    requires InclusionPath(index, start, end, hashAt) <= InclusionPath(index, a, b, hashAt)
    ensures IsValidSubtree(start, end)
    decreases b - a
  {
    hide SplitPoint, InclusionPath, ComputeSubtreeHash, RootFromProof, RootQueries, PathLen, InteriorHash,
         InteriorInput, MTH, Hashed, ReadsLeaves, CollisionFree, Distinct, IsValidSubtree, IsPow2, LastSibling;
    var path, whole := InclusionPath(index, start, end, hashAt), InclusionPath(index, a, b, hashAt);
    PathEnd(index, start, end, d, hashAt);
    InclusionPathLength(index, a, b, hashAt);
    PathLenOfOne(index - a);
    assert b - a >= 2;
    if |whole| == |path| {
      PathEnd(index, a, b, d, hashAt);
      var r, r' := LastSibling(index, start, end), LastSibling(index, a, b);
      MTHInjective(d[r.0..r.1], d[r'.0..r'.1], inputs);
      SliceUnique(d, r.0, r.1, r'.0, r'.1);
      SameRange(index, a, b, start, end);
    } else {
      var k := SplitPoint(b - a);
      NodeChildren(a, b, end);
      hide IsNode;
      TreeStep(d, a, b, k);
      if index < a + k {
        StepLeft(index, a, b, k, hashAt, ZeroHash(), whole);
        PrefixForcesNode(index, a, a + k, start, end, d, hashAt, inputs);
      } else {
        StepRight(index, a, b, k, hashAt, ZeroHash(), whole);
        PrefixForcesNode(index, a + k, b, start, end, d, hashAt, inputs);
      }
    }
  }

  lemma SameSlice(d: seq<Bytes>, d': seq<Bytes>, lo: nat, hi: nat, shift: nat)
    requires shift <= lo <= hi <= |d| && hi - shift <= |d'| && forall i :: lo <= i < hi ==> d'[i - shift] == d[i]
    ensures d[lo..hi] == d'[lo - shift..hi - shift]
  {
    forall i: nat | i < hi - lo
      ensures d[lo..hi][i] == d'[lo - shift..hi - shift][i]
    {
      assert d'[lo + i - shift] == d[lo + i];
    }
  }

  /** The same path, computed from the entries of the range alone. */
  lemma {:induction false} PathTranslates(index: nat, start: nat, end: nat, shift: nat,
                                          d: seq<Bytes>, hashAt: LeafReader,
                                          d': seq<Bytes>, hashAt': LeafReader)
    requires shift <= start <= index < end <= |d| && ReadsLeaves(hashAt, d) && ReadsLeaves(hashAt', d')
    requires end - shift <= |d'| && forall i :: start <= i < end ==> d'[i - shift] == d[i]
    ensures InclusionPath(index, start, end, hashAt) ==
            InclusionPath(index - shift, start - shift, end - shift, hashAt')
    decreases end - start
  {
    hide SplitPoint, InclusionPath, ComputeSubtreeHash, RootFromProof, RootQueries, PathLen, InteriorHash,
         InteriorInput, MTH, ReadsLeaves;
    if end - start == 1 {
      StepNone(index, hashAt, ZeroHash(), []);
      StepNone(index - shift, hashAt', ZeroHash(), []);
    } else {
      var k, lo, hi := SplitPoint(end - start), start - shift, end - shift;
      var path, path' := InclusionPath(index, start, end, hashAt), InclusionPath(index - shift, lo, hi, hashAt');
      InclusionPathLength(index, start, end, hashAt);
      InclusionPathLength(index - shift, lo, hi, hashAt');
      SubtreeIsMTH(start, start + k, hashAt, d);
      SubtreeIsMTH(start + k, end, hashAt, d);
      SubtreeIsMTH(lo, lo + k, hashAt', d');
      SubtreeIsMTH(lo + k, hi, hashAt', d');
      SameSlice(d, d', start, start + k, shift);
      SameSlice(d, d', start + k, end, shift);
      if index < start + k {
        StepLeft(index, start, end, k, hashAt, ZeroHash(), path);
        StepLeft(index - shift, lo, hi, k, hashAt', ZeroHash(), path');
        PathTranslates(index, start, start + k, shift, d, hashAt, d', hashAt');
      } else {
        StepRight(index, start, end, k, hashAt, ZeroHash(), path);
        StepRight(index - shift, lo, hi, k, hashAt', ZeroHash(), path');
        PathTranslates(index, start + k, end, shift, d, hashAt, d', hashAt');
      }
    }
  }

  /** Everything that is hashed to check the proof of one entry of a batch. */
  ghost function BatchInputs(index: nat, start: nat, d: seq<Bytes>, proof: seq<Hash>): set<Bytes>
    requires start <= index < |d|
  {
    var sides := UsedSides(index - start, |d| - start, proof);
    Hashed(d) + Hashed(d[start..]) + Queries(LeafHash(d[index]), sides, proof[..|sides|])
  }

  /** A proof that recombines to the subtree hash begins with the path in the
      subtree, also when it is shorter than that path should be. */
  lemma RecombinedHasPath(index: nat, start: nat, d: seq<Bytes>, hashAt: LeafReader, proof: seq<Hash>)
    requires start <= index < |d| && Distinct(d) && ReadsLeaves(hashAt, d)
    requires CollisionFree(BatchInputs(index, start, d, proof))
    requires RootFromInclusionProof(index - start, |d| - start, LeafHash(d[index]), proof) == MTH(d[start..])
    ensures InclusionPath(index, start, |d|, hashAt) <= proof
  {
    hide MTH, Hashed, Recombine, Queries, LeafAt, Sides, PathLen, RootFromProof, InclusionPath, LeafHash, LeafInput,
         CollisionFree, Distinct, ReadsLeaves, LeafHashes;
    var range, i := d[start..], index - start;
    var hashAt' := LeafHashes(range);
    LeafHashesRead(range);
    var sides := UsedSides(i, |range|, proof);
    LeafInputHashed(range, i);
    SmallerInputs(RootInputs(i, range, LeafHash(d[index]), proof) + {LeafInput(d[index])},
                  BatchInputs(index, start, d, proof));
    RootAcceptsLeafExactly(i, range, hashAt', d[index], proof);
    var j := LeafAt(|range|, sides).value;
    SameEntry(d, index, start + j);
    PathTranslates(index, start, |d|, start, d, hashAt, range, hashAt');
  }

  lemma SameEntry(d: seq<Bytes>, i: nat, j: nat)
    requires Distinct(d) && i < |d| && j < |d| && d[i] == d[j]
    ensures i == j
  {
  }

  /** In a log of distinct entries the proof that BuildProof takes in [0, End)
      recombines, relative to Start, to the signed hash of a batch of two or more
      entries if and only if the batch is a valid subtree.  A batch of one entry
      always is one. */
  lemma BatchProofExactly(nodes: Nodes, leaves: seq<Bytes>, start: nat, end: nat, index: nat)
    requires IsStoredTable(nodes, leaves) && |leaves| < Pow2(LEVELS)
    requires start <= index < end <= |leaves| && end - start >= 2 && Distinct(leaves[..end])
    requires CollisionFree(BatchInputs(index, start, leaves[..end],
                                       InclusionPathFromNodes(index, 0, end, Reader(nodes))))
    ensures var proof := InclusionProofFromNodes(index, end, Reader(nodes));
            && proof.Ok?
            && (RootFromInclusionProof(index - start, end - start, LeafHash(leaves[index]), proof.value)
                == MTH(leaves[start..end])
                <==> IsValidSubtree(start, end))
  {
    hide IsStoredTable, ReadsCompleteNodes, ReadsLeaves, LeafHashes, Reader, InclusionPath, InclusionPathFromNodes,
         ConsistencyPath, ConsistencyPathFromNodes, RootFromProof, PathLen, MTH, LeafHash, Pow2, Distinct,
         ComputeSubtreeHash, IsValidSubtree, CollisionFree, Hashed, Queries, UsedSides;
    if IsValidSubtree(start, end) {
      BatchProofRecombines(nodes, leaves, start, end, index);
    }
    var d := leaves[..end];
    var hashAt := LeafHashes(d);
    TableServesPrefix(nodes, leaves, end);
    FastProofsAgree(Reader(nodes), hashAt, end);
    LeafHashesRead(d);
    var proof := InclusionProofFromNodes(index, end, Reader(nodes)).value;
    assert proof == InclusionProof(index, end, hashAt).value;
    assert d[start..] == leaves[start..end] && d[0..end] == d && d[start..end] == d[start..];
    if RootFromInclusionProof(index - start, end - start, LeafHash(leaves[index]), proof) == MTH(leaves[start..end]) {
      RecombinedHasPath(index, start, d, hashAt, proof);
      WholeTreeIsValid(end);
      PrefixForcesNode(index, 0, end, start, end, d, hashAt, BatchInputs(index, start, d, proof));
    }
  }
}
