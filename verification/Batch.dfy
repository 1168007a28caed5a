/** Subtree batches of internal/batch/batch.go: the signed subtree hash and the
    inclusion proofs that go with it. */
module Batch {
  import opened BitArith
  import opened Wrappers
  import opened Hashing
  import opened Merkle
  import opened MerkleProofs
  import opened NodeProofs
  import opened NodeTable
  import IssuanceLog
  import MtcFormat

  /** Level 0 of the table has a row for every leaf and no other. */
  ghost predicate HasLeafRows(nodes: Nodes, leaves: seq<Bytes>) {
    forall i: nat :: ((0, i) in nodes <==> i < |leaves|) && (i < |leaves| ==> nodes[(0, i)] == LeafHash(leaves[i]))
  }

  /** computeSubtreeHash from the leaf rows; empty ranges and ranges that leave
      the log are errors. */
  method ComputeBatchHash(nodes: Nodes, start: int, end: int, ghost leaves: seq<Bytes>) returns (r: Result<Hash>)
    requires HasLeafRows(nodes, leaves)
    ensures 0 <= start < end <= |leaves| ==> r == Ok(MTH(leaves[start..end]))
    ensures !(0 <= start < end <= |leaves|) ==> r.Err?
    decreases end - start
  {
    hide SplitPoint, LeafHash, InteriorHash, InteriorInput, MTH, Hashed;
    var n := end - start;
    if n <= 0 {
      return Err("empty range");
    }
    if n == 1 {
      if start < 0 || (0, start) !in nodes {
        return Err("no such node");
      }
      LeafSlice(leaves, start);
      return Ok(nodes[(0, start)]);
    }
    var k := IssuanceLog.DoublingSplit(n);
    var left := ComputeBatchHash(nodes, start, start + k, leaves);
    if left.Err? {
      return left;
    }
    var right := ComputeBatchHash(nodes, start + k, end, leaves);
    if right.Err? {
      return right;
    }
    TreeStep(leaves, start, end, k);
    return Ok(InteriorHash(left.value, right.value));
  }

  lemma StoredLeafRows(nodes: Nodes, leaves: seq<Bytes>)
    requires IsStoredTable(nodes, leaves)
    ensures HasLeafRows(nodes, leaves)
  {
    hide NodeHash, InTree, LeafHash;
    forall i: nat
      ensures ((0, i) in nodes <==> i < |leaves|) && (i < |leaves| ==> nodes[(0, i)] == LeafHash(leaves[i]))
    {
      IssuanceLog.LeafNode(leaves, i);
    }
  }

  // ----- the batcher -----

  datatype BatchResult = BatchResult(start: int, end: int, subtreeHash: Hash, signatures: seq<MtcFormat.Signature>)

  /** The signatures of the cosigners that did not fail. */
  function Produced(signed: seq<Option<MtcFormat.Signature>>): seq<MtcFormat.Signature> {
    if |signed| == 0 then []
    else Produced(signed[..|signed| - 1]) + (if signed[|signed| - 1].Some? then [signed[|signed| - 1].value] else [])
  }

  lemma {:induction false} NothingProduced(signed: seq<Option<MtcFormat.Signature>>)
    ensures Produced(signed) == [] <==> forall i :: 0 <= i < |signed| ==> signed[i].None?
  {
    if |signed| > 0 {
      NothingProduced(signed[..|signed| - 1]);
    }
  }

  /** Which cosigners the signatures come from: every one that did not fail, in
      order. */
  lemma {:induction false} ProducedInOrder(signed: seq<Option<MtcFormat.Signature>>) returns (from: seq<nat>)
    ensures |from| == |Produced(signed)|
    ensures forall k :: 0 <= k < |from| ==> from[k] < |signed| && signed[from[k]] == Some(Produced(signed)[k])
    ensures forall k, l :: 0 <= k < l < |from| ==> from[k] < from[l]
    ensures forall i :: 0 <= i < |signed| && signed[i].Some? ==> i in from
  {
    if |signed| == 0 {
      from := [];
    } else {
      var n := |signed| - 1;
      from := ProducedInOrder(signed[..n]);
      if signed[n].Some? {
        from := from + [n];
      }
    }
  }

  /** ProcessBatch on any log, the empty and the freshly initialized one included:
      the result carries the tree hash of the entries from batchStart on.
      `signed` is what each cosigner returns. */
  method ProcessBatch(log: IssuanceLog.Log, batchStart: int, signed: seq<Option<MtcFormat.Signature>>)
    returns (r: Result<BatchResult>, ghost from: seq<nat>)
    requires log.Valid()
    ensures r.Ok? <==> 0 <= batchStart < |log.entries| &&
                       (|signed| > 0 ==> exists i :: 0 <= i < |signed| && signed[i].Some?)
    ensures r.Ok? ==> var leaves := IssuanceLog.Leaves(log.entries);
                      r.value == BatchResult(batchStart, |leaves|, MTH(leaves[batchStart..]), Produced(signed))
    ensures r.Ok? ==> |from| == |r.value.signatures|
                      && (forall k :: 0 <= k < |from| ==>
                            from[k] < |signed| && signed[from[k]] == Some(r.value.signatures[k]))
                      && (forall k, l :: 0 <= k < l < |from| ==> from[k] < from[l])
                      && (forall i :: 0 <= i < |signed| && signed[i].Some? ==> i in from)
  {
    hide MTH, IsStoredTable, HasLeafRows;
    from := ProducedInOrder(signed);
    var treeSize := |log.entries|;
    if batchStart >= treeSize {
      return Err("batchStart >= treeSize"), from;
    }
    ghost var leaves := IssuanceLog.Leaves(log.entries);
    StoredLeafRows(log.nodes, leaves);
    var subtreeHash := ComputeBatchHash(log.nodes, batchStart, treeSize, leaves);
    if subtreeHash.Err? {
      return Err(subtreeHash.error), from;
    }
    assert leaves[batchStart..treeSize] == leaves[batchStart..];
    var sigs: seq<MtcFormat.Signature> := [];
    for i := 0 to |signed|
      invariant sigs == Produced(signed[..i])
    {
      assert signed[..i + 1][..i] == signed[..i];
      if signed[i].None? {
        continue;
      }
      sigs := sigs + [signed[i].value];
    }
    assert signed[..|signed|] == signed;
    NothingProduced(signed);
    if |sigs| == 0 && |signed| > 0 {
      return Err("all cosigners failed"), from;
    }
    return Ok(BatchResult(batchStart, treeSize, subtreeHash.value, sigs)), from;
  }

  /** BuildProof on the log as it is now, which may have grown since the batch:
      the path of the leaf in the first `end` entries, with the batch's
      signatures. */
  method BuildProof(log: IssuanceLog.Log, leafIdx: int, batch: BatchResult) returns (r: Result<MtcFormat.Proof>)
    requires log.Valid() && |log.entries| < Pow2(LEVELS)
    requires 0 <= batch.start < batch.end <= |log.entries|
    ensures r.Ok? <==> batch.start <= leafIdx < batch.end
    ensures r.Ok? ==> var leaves := IssuanceLog.Leaves(log.entries)[..batch.end];
                      && (r.value.start, r.value.end) == (batch.start, batch.end)
                      && r.value.inclusionProof == InclusionPath(leafIdx, 0, batch.end, LeafHashes(leaves))
                      && r.value.signatures == batch.signatures
  {
    hide IsStoredTable, ReadsCompleteNodes, ReadsLeaves, LeafHashes, Reader, InclusionPath, InclusionPathFromNodes,
         RootFromNodes;
    if leafIdx < batch.start || leafIdx >= batch.end {
      return Err("leaf not in batch");
    }
    var nodeAt := Reader(log.nodes);
    var proofHashes := InclusionProofFromNodes(leafIdx, batch.end, nodeAt);
    ghost var leaves := IssuanceLog.Leaves(log.entries);
    TableServesPrefix(log.nodes, leaves, batch.end);
    LeafHashesRead(leaves[..batch.end]);
    FastProofsAgree(nodeAt, LeafHashes(leaves[..batch.end]), batch.end);
    if proofHashes.Err? {
      return Err("inclusion proof");
    }
    var proofBytes: seq<Bytes> := [];
    for i := 0 to |proofHashes.value|
      invariant proofBytes == proofHashes.value[..i]
    {
      proofBytes := proofBytes + [proofHashes.value[i]];
    }
    assert proofHashes.value[..|proofHashes.value|] == proofHashes.value;
    Pow2OfLevels();
    return Ok(MtcFormat.Proof(batch.start, batch.end, proofBytes, batch.signatures));
  }

  // ----- proofs relative to the batch -----

  lemma PathLenStep(index: nat, size: nat, k: nat)
    requires index < size && size >= 2 && k == SplitPoint(size)
    ensures index < k ==> PathLen(index, size) == PathLen(index, k) + 1
    ensures index >= k ==> PathLen(index, size) == PathLen(index - k, size - k) + 1
  {
    hide SplitPoint;
  }

  /** The walk depends on the position inside the range only. */
  lemma {:induction false} RootTranslates(index: nat, start: nat, end: nat, shift: nat, leafHash: Hash,
                                          proof: seq<Hash>)
    requires shift <= start <= index < end && |proof| >= PathLen(index - start, end - start)
    ensures RootFromProof(index, start, end, leafHash, proof) ==
            RootFromProof(index - shift, start - shift, end - shift, leafHash, proof)
    decreases end - start
  {
    hide SplitPoint, RootFromProof, RootQueries, InclusionPath, PathLen, InteriorHash, InteriorInput,
         ComputeSubtreeHash;
    var none: LeafReader := i => ZeroHash();
    if end - start == 1 {
      StepNone(index, none, leafHash, proof);
      StepNone(index - shift, none, leafHash, proof);
    } else {
      var k := SplitPoint(end - start);
      PathLenStep(index - start, end - start, k);
      if index < start + k {
        StepLeft(index, start, end, k, none, leafHash, proof);
        StepLeft(index - shift, start - shift, end - shift, k, none, leafHash, proof);
        RootTranslates(index, start, start + k, shift, leafHash, proof);
      } else {
        StepRight(index, start, end, k, none, leafHash, proof);
        StepRight(index - shift, start - shift, end - shift, k, none, leafHash, proof);
        RootTranslates(index, start + k, end, shift, leafHash, proof);
      }
    }
  }

  lemma MultipleBelow(q: int, t: int, p: nat, w: int)
    requires p > 0 && q * p < t * p + w && w <= p
    ensures q <= t
  {
    assert q > t ==> (q - t - 1) * p >= 0;
    assert q * p == t * p + p + (q - t - 1) * p;
  }

  lemma PositiveMultiple(x: nat, p: nat)
    requires x > 0 && p > 0 && x % p == 0
    ensures x == (x / p) * p && p <= x
  {
    var t := x / p;
    assert x == t * p;
    MultipleBelow(1, t, p, p);
  }

  /** From a start that lies a multiple of 2^j to the left, with 2^j at least as
      wide as the range, the recursion goes right until it reaches the range. */
  lemma SplitReachesRange(from: nat, start: nat, end: nat, j: nat)
    requires from < start < end && end - start <= Pow2(j) && (start - from) % Pow2(j) == 0
    ensures var k := SplitPoint(end - from);
            from + k <= start && (start - (from + k)) % Pow2(j) == 0
  {
    hide SplitPoint, Pow2;
    var p, n := Pow2(j), end - from;
    var k := SplitPoint(n);
    var e := SplitPointIsPow2(n);
    PositiveMultiple(start - from, p);
    var t := (start - from) / p;
    if e < j {
      Pow2StrictlyMonotone(e, j);
    }
    var q := Pow2Divides(j, e);
    MultipleBelow(q, t, p, end - start);
    DifferenceOfMultiples(t, q, p);
  }

  lemma DifferenceOfMultiples(t: nat, q: nat, p: nat)
    requires q <= t && p > 0
    ensures t * p - q * p >= 0 && (t * p - q * p) % p == 0
  {
    assert t * p - q * p == (t - q) * p;
    MultipleModZero(t - q, p);
    assert (t - q) * p >= 0;
  }

  /** The path in the batch is a prefix of the path in the whole log. */
  lemma {:induction false} BatchPathIsPrefix(index: nat, from: nat, start: nat, end: nat, j: nat, hashAt: LeafReader)
    requires from <= start <= index < end && end - start <= Pow2(j) && (start - from) % Pow2(j) == 0
    ensures InclusionPath(index, start, end, hashAt) <= InclusionPath(index, from, end, hashAt)
    decreases start - from
  {
    hide SplitPoint, InclusionPath, RootFromProof, RootQueries, PathLen, ComputeSubtreeHash, Pow2;
    if from < start {
      var k := SplitPoint(end - from);
      SplitReachesRange(from, start, end, j);
      BatchPathIsPrefix(index, from + k, start, end, j, hashAt);
      InclusionPathLength(index, from, end, hashAt);
      StepRight(index, from, end, k, hashAt, ZeroHash(), InclusionPath(index, from, end, hashAt));
    }
  }

  /** BuildProof takes the path in [0, End) while the verifier recombines relative
      to Start.  On every valid subtree (section 4.1 of
      draft-ietf-plants-merkle-tree-certs-01) the two agree: the proof recombines
      to the signed subtree hash. */
  lemma BatchProofRecombines(nodes: Nodes, leaves: seq<Bytes>, start: nat, end: nat, index: nat)
    requires IsStoredTable(nodes, leaves) && |leaves| < Pow2(LEVELS)
    requires IsValidSubtree(start, end) && start <= index < end <= |leaves|
    ensures var proof := InclusionProofFromNodes(index, end, Reader(nodes));
            && proof.Ok?
            && RootFromInclusionProof(index - start, end - start, LeafHash(leaves[index]), proof.value)
               == MTH(leaves[start..end])
  {
    hide IsStoredTable, ReadsCompleteNodes, ReadsLeaves, LeafHashes, Reader, InclusionPath, InclusionPathFromNodes,
         ConsistencyPath, ConsistencyPathFromNodes, RootFromProof, PathLen, MTH, LeafHash, Pow2,
         ComputeSubtreeHash, Log2Ceil, BitCeil;
    var prefix := leaves[..end];
    var hashAt := LeafHashes(prefix);
    TableServesPrefix(nodes, leaves, end);
    FastProofsAgree(Reader(nodes), hashAt, end);
    var proof := InclusionPath(index, 0, end, hashAt);
    var j := Log2Ceil(end - start);
    Log2CeilIsLeast(end - start, j);
    BitCeilIsPow2(end - start);
    BatchPathIsPrefix(index, 0, start, end, j, hashAt);
    InclusionPathLength(index, start, end, hashAt);
    LeafHashesRead(prefix);
    assert hashAt(index) == LeafHash(leaves[index]) by {
      LeafRead(hashAt, prefix, index);
    }
    InclusionComplete(index, start, end, hashAt, proof);
    SubtreeIsMTH(start, end, hashAt, prefix);
    assert prefix[start..end] == leaves[start..end];
    RootTranslates(index, start, end, start, hashAt(index), proof);
  }

  lemma LeafRead(hashAt: LeafReader, leaves: seq<Bytes>, i: nat)
    requires ReadsLeaves(hashAt, leaves) && i < |leaves|
    ensures hashAt(i) == LeafHash(leaves[i])
  {
  }

  /** ProcessBatch does not ask for a valid subtree.  On [1, 3) the proof of
      entry 1 recombines with entry 0 in the place of entry 2, and misses the
      signed hash unless the two are equal. */
  lemma UnalignedBatchMismatch(a: Bytes, b: Bytes, c: Bytes, hashAt: LeafReader)
    requires ReadsLeaves(hashAt, [a, b, c])
    requires CollisionFree({InteriorInput(LeafHash(b), LeafHash(a)), InteriorInput(LeafHash(b), LeafHash(c)),
                            LeafInput(a), LeafInput(c)})
    ensures !IsValidSubtree(1, 3)
    ensures var recombined := RootFromInclusionProof(0, 2, LeafHash(b), InclusionProof(1, 3, hashAt).value);
            && recombined == InteriorHash(LeafHash(b), LeafHash(a))
            && (recombined == MTH([a, b, c][1..3]) <==> a == c)
  {
    BitCeilUnique(2, 1);
    hide BitCeil, LeafInput, InteriorInput, MTH, CollisionFree, RootFromProof, InclusionPath;
    UnalignedHashes(a, b, c, hashAt);
    if InteriorHash(LeafHash(b), LeafHash(a)) == InteriorHash(LeafHash(b), LeafHash(c)) {
      var inputs := {InteriorInput(LeafHash(b), LeafHash(a)), InteriorInput(LeafHash(b), LeafHash(c)),
                     LeafInput(a), LeafInput(c)};
      EqualInteriors(LeafHash(b), LeafHash(a), LeafHash(b), LeafHash(c), inputs);
      EqualLeaves(a, c, inputs);
    }
  }

  lemma UnalignedHashes(a: Bytes, b: Bytes, c: Bytes, hashAt: LeafReader)
    requires ReadsLeaves(hashAt, [a, b, c])
    ensures RootFromInclusionProof(0, 2, LeafHash(b), InclusionProof(1, 3, hashAt).value) ==
            InteriorHash(LeafHash(b), LeafHash(a))
    ensures MTH([a, b, c][1..3]) == InteriorHash(LeafHash(b), LeafHash(c))
  {
    SplitPointUnique(2, 0);
    SplitPointUnique(3, 1);
    hide SplitPoint, LeafInput, InteriorInput, MTH;
    var d := [a, b, c];
    assert PathLen(0, 1) == 0;
    assert InclusionPath(1, 0, 2, hashAt) == [hashAt(0)];
    TreeStep(d, 1, 3, 1);
    LeafSlice(d, 1);
    LeafSlice(d, 2);
  }
}
