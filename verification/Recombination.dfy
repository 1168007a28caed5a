/** What the two inclusion verifiers accept for proofs of any length.  Both hash
    upwards from a leaf, one sibling at a time, and differ only in how they
    choose the side: RootFromInclusionProof by the shape of the tree,
    VerifyInclusion by the bits of the index. */
module Recombination {
  import opened BitArith
  import opened Wrappers
  import opened Hashing
  import opened Merkle
  import opened MerkleProofs
  import opened BitWalk

  /** Combines the hash with one sibling after the other; a side is true where
      the sibling is on the left. */
  function Recombine(hash: Hash, sides: seq<bool>, proof: seq<Hash>): Hash
    requires |sides| == |proof|
  {
    if |proof| == 0 then hash
    else
      var n := |proof| - 1;
      var sub := Recombine(hash, sides[..n], proof[..n]);
      if sides[n] then InteriorHash(proof[n], sub) else InteriorHash(sub, proof[n])
  }

  ghost function Queries(hash: Hash, sides: seq<bool>, proof: seq<Hash>): set<Bytes>
    requires |sides| == |proof|
  {
    if |proof| == 0 then {}
    else
      var n := |proof| - 1;
      var sub := Recombine(hash, sides[..n], proof[..n]);
      Queries(hash, sides[..n], proof[..n]) +
      {if sides[n] then InteriorInput(proof[n], sub) else InteriorInput(sub, proof[n])}
  }

  /** The leaf below the root of a tree at the end of these sides, if there is
      one: the last side is taken first. */
  function LeafAt(size: nat, sides: seq<bool>): Option<nat>
    requires size >= 1
    decreases |sides|
  {
    if |sides| == 0 then (if size == 1 then Some(0) else None)
    else if size == 1 then None
    else
      var n, k := |sides| - 1, SplitPoint(size);
      if !sides[n] then LeafAt(k, sides[..n]) else Shift(k, LeafAt(size - k, sides[..n]))
  }

  function Shift(k: nat, leaf: Option<nat>): Option<nat> {
    if leaf.None? then None else Some(k + leaf.value)
  }

  /** The sides of the path from a leaf to the root. */
  function Sides(index: nat, size: nat): (sides: seq<bool>)
    requires index < size
    ensures |sides| == PathLen(index, size)
    decreases size
  {
    hide SplitPoint;
    if size == 1 then []
    else
      var k := SplitPoint(size);
      if index < k then Sides(index, k) + [false] else Sides(index - k, size - k) + [true]
  }

  lemma SidesStep(index: nat, size: nat, k: nat)
    requires index < size && size >= 2 && k == SplitPoint(size)
    ensures index < k ==> Sides(index, size) == Sides(index, k) + [false]
    ensures index >= k ==> Sides(index, size) == Sides(index - k, size - k) + [true]
  {
    hide SplitPoint, PathLen;
  }

  lemma LeafAtStep(size: nat, sides: seq<bool>, k: nat)
    requires size >= 2 && |sides| > 0 && k == SplitPoint(size)
    ensures var n := |sides| - 1;
            && (!sides[n] ==> LeafAt(size, sides) == LeafAt(k, sides[..n]))
            && (sides[n] ==> LeafAt(size, sides) == Shift(k, LeafAt(size - k, sides[..n])))
  {
    hide SplitPoint;
  }

  /** LeafAt and Sides are inverse to each other. */
  lemma {:induction false} LeafAtSides(index: nat, size: nat)
    requires index < size
    ensures LeafAt(size, Sides(index, size)) == Some(index)
    decreases size
  {
    hide SplitPoint, PathLen, LeafAt;
    if size == 1 {
      LeafAtNone(1);
    } else {
      var k := SplitPoint(size);
      var sides := Sides(index, size);
      SidesStep(index, size, k);
      LeafAtStep(size, sides, k);
      if index < k {
        assert sides[..|sides| - 1] == Sides(index, k);
        LeafAtSides(index, k);
      } else {
        assert sides[..|sides| - 1] == Sides(index - k, size - k);
        LeafAtSides(index - k, size - k);
      }
    }
  }

  lemma LeafAtNone(size: nat)
    requires size >= 1
    ensures LeafAt(size, []) == (if size == 1 then Some(0) else None)
  {
  }

  lemma {:induction false} SidesOfLeafAt(size: nat, sides: seq<bool>)
    requires size >= 1 && LeafAt(size, sides).Some?
    ensures var j := LeafAt(size, sides).value;
            j < size && sides == Sides(j, size)
    decreases |sides|
  {
    hide SplitPoint, PathLen;
    if size > 1 && |sides| > 0 {
      var n, k := |sides| - 1, SplitPoint(size);
      SidesOfLeafAt(if sides[n] then size - k else k, sides[..n]);
      SidesStep(LeafAt(size, sides).value, size, k);
      assert sides == sides[..n] + [sides[n]];
    }
  }

  // ----- what recombines to the root -----

  lemma RecombineStep(hash: Hash, sides: seq<bool>, proof: seq<Hash>)
    requires |sides| == |proof| > 0
    ensures var n := |proof| - 1;
            var sub := Recombine(hash, sides[..n], proof[..n]);
            && Recombine(hash, sides, proof) ==
               (if sides[n] then InteriorHash(proof[n], sub) else InteriorHash(sub, proof[n]))
            && Queries(hash, sides, proof) ==
               Queries(hash, sides[..n], proof[..n]) +
               {if sides[n] then InteriorInput(proof[n], sub) else InteriorInput(sub, proof[n])}
  {
    hide InteriorInput;
  }

  /** The node [lo, hi) of the tree over [start, end) that these sides lead to,
      if there is one: like LeafAt, but it may stop above the leaves. */
  function NodeAt(start: nat, end: nat, sides: seq<bool>): (node: Option<(nat, nat)>)
    requires start < end
    ensures node.Some? ==> start <= node.value.0 < node.value.1 <= end
    decreases |sides|
  {
    if |sides| == 0 then Some((start, end))
    else if end - start == 1 then None
    else
      var n, k := |sides| - 1, SplitPoint(end - start);
      if !sides[n] then NodeAt(start, start + k, sides[..n]) else NodeAt(start + k, end, sides[..n])
  }

  /** The hashes beside the way from that node to the root. */
  function PathAbove(start: nat, end: nat, sides: seq<bool>, hashAt: LeafReader): (path: seq<Hash>)
    requires start < end
    decreases |sides|
  {
    if |sides| == 0 || end - start == 1 then []
    else
      var n, k := |sides| - 1, SplitPoint(end - start);
      if !sides[n] then PathAbove(start, start + k, sides[..n], hashAt) + [ComputeSubtreeHash(start + k, end, hashAt)]
      else PathAbove(start + k, end, sides[..n], hashAt) + [ComputeSubtreeHash(start, start + k, hashAt)]
  }

  lemma NodeAtStep(start: nat, end: nat, sides: seq<bool>, k: nat, hashAt: LeafReader)
    requires start + 2 <= end && |sides| > 0 && k == SplitPoint(end - start)
    ensures var n := |sides| - 1;
            && (!sides[n] ==>
                  && NodeAt(start, end, sides) == NodeAt(start, start + k, sides[..n])
                  && PathAbove(start, end, sides, hashAt) ==
                     PathAbove(start, start + k, sides[..n], hashAt) + [ComputeSubtreeHash(start + k, end, hashAt)])
            && (sides[n] ==>
                  && NodeAt(start, end, sides) == NodeAt(start + k, end, sides[..n])
                  && PathAbove(start, end, sides, hashAt) ==
                     PathAbove(start + k, end, sides[..n], hashAt) + [ComputeSubtreeHash(start, start + k, hashAt)])
  {
    hide SplitPoint, ComputeSubtreeHash;
  }

  lemma NodeAtEnds(start: nat, end: nat, sides: seq<bool>, hashAt: LeafReader)
    requires start < end && (|sides| == 0 || end - start == 1)
    ensures NodeAt(start, end, sides) == (if |sides| == 0 then Some((start, end)) else None)
    ensures PathAbove(start, end, sides, hashAt) == []
  {
  }

  /** The proof that belongs to the node the sides lead to. */
  ghost predicate ProvesNode(sides: seq<bool>, start: nat, end: nat, d: seq<Bytes>, hashAt: LeafReader,
                             hash: Hash, proof: seq<Hash>)
    requires start < end <= |d|
  {
    var node := NodeAt(start, end, sides);
    && node.Some? && hash == MTH(d[node.value.0..node.value.1])
    && proof == PathAbove(start, end, sides, hashAt)
  }

  /** Recombining any 32 bytes hits the root exactly when the sides lead to a
      node of the tree, the bytes are its hash and the proof is the path above
      it. */
  lemma {:induction false} RecombineExact(sides: seq<bool>, proof: seq<Hash>, start: nat, end: nat,
                                          d: seq<Bytes>, hashAt: LeafReader, hash: Hash, inputs: set<Bytes>)
    requires |sides| == |proof| && start < end <= |d| && ReadsLeaves(hashAt, d)
    requires CollisionFree(inputs) && Hashed(d[start..end]) <= inputs
    requires Queries(hash, sides, proof) <= inputs
    ensures Recombine(hash, sides, proof) == MTH(d[start..end])
            <==> ProvesNode(sides, start, end, d, hashAt, hash, proof)
    decreases |proof|
  {
    hide SplitPoint, MTH, Hashed, CollisionFree, InteriorHash, InteriorInput, LeafInput, LeafHash, ComputeSubtreeHash,
         NodeAt, PathAbove, Recombine, Queries, ReadsLeaves;
    var n := |proof| - 1;
    if |proof| == 0 {
      NothingToRecombine(hash, sides, proof);
      NodeAtEnds(start, end, sides, hashAt);
    } else if end - start == 1 {
      RecombineStep(hash, sides, proof);
      NodeAtEnds(start, end, sides, hashAt);
      LeafSlice(d, start);
      LeafInSlice(d, start);
      var sub := Recombine(hash, sides[..n], proof[..n]);
      if sides[n] {
        LeafIsNotInterior(d[start], proof[n], sub, inputs);
      } else {
        LeafIsNotInterior(d[start], sub, proof[n], inputs);
      }
    } else {
      var k := SplitPoint(end - start);
      RecombineStep(hash, sides, proof);
      NodeAtStep(start, end, sides, k, hashAt);
      TreeStep(d, start, end, k);
      SubtreeIsMTH(start, start + k, hashAt, d);
      SubtreeIsMTH(start + k, end, hashAt, d);
      assert proof == proof[..n] + [proof[n]];
      var sub, l, r := Recombine(hash, sides[..n], proof[..n]), MTH(d[start..start + k]), MTH(d[start + k..end]);
      if sides[n] {
        RecombineExact(sides[..n], proof[..n], start + k, end, d, hashAt, hash, inputs);
        if InteriorHash(proof[n], sub) == InteriorHash(l, r) {
          EqualInteriors(proof[n], sub, l, r, inputs);
        }
      } else {
        RecombineExact(sides[..n], proof[..n], start, start + k, d, hashAt, hash, inputs);
        if InteriorHash(sub, proof[n]) == InteriorHash(l, r) {
          EqualInteriors(sub, proof[n], l, r, inputs);
        }
      }
    }
  }

  /** Where the sides reach a leaf, the path above it is its inclusion path. */
  lemma {:induction false} LeafIsNode(start: nat, end: nat, sides: seq<bool>, hashAt: LeafReader)
    requires start < end
    ensures var j, node := LeafAt(end - start, sides), NodeAt(start, end, sides);
            && (j.Some? ==> node == Some((start + j.value, start + j.value + 1)))
            && (j.None? ==> node.None? || node.value.0 + 1 < node.value.1)
            && (j.Some? ==>
                  start + j.value < end &&
                  PathAbove(start, end, sides, hashAt) == InclusionPath(start + j.value, start, end, hashAt))
    decreases |sides|
  {
    hide SplitPoint, PathLen, LeafAt, NodeAt, PathAbove, ComputeSubtreeHash, InclusionPath;
    if |sides| == 0 || end - start == 1 {
      NodeAtEnds(start, end, sides, hashAt);
      if |sides| == 0 {
        assert sides == [];
        LeafAtNone(end - start);
        StepNone(start, hashAt, ZeroHash(), []);
      } else {
        LeafAtOne(sides);
      }
    } else {
      var n, k := |sides| - 1, SplitPoint(end - start);
      LeafAtStep(end - start, sides, k);
      NodeAtStep(start, end, sides, k, hashAt);
      if sides[n] {
        LeafIsNode(start + k, end, sides[..n], hashAt);
      } else {
        LeafIsNode(start, start + k, sides[..n], hashAt);
      }
      var j := LeafAt(end - start, sides);
      if j.Some? {
        PathStep(start + j.value, start, end, k, hashAt);
      }
    }
  }

  lemma PathStep(index: nat, start: nat, end: nat, k: nat, hashAt: LeafReader)
    requires start <= index < end && end - start >= 2 && k == SplitPoint(end - start)
    ensures InclusionPath(index, start, end, hashAt) ==
            if index < start + k
            then InclusionPath(index, start, start + k, hashAt) + [ComputeSubtreeHash(start + k, end, hashAt)]
            else InclusionPath(index, start + k, end, hashAt) + [ComputeSubtreeHash(start, start + k, hashAt)]
  {
    hide SplitPoint, ComputeSubtreeHash;
  }

  /** The proof for leaf j of the range. */
  ghost predicate ProvesLeaf(j: Option<nat>, start: nat, end: nat, d: seq<Bytes>, hashAt: LeafReader,
                             data: Bytes, proof: seq<Hash>)
    requires start < end <= |d|
  {
    && j.Some? && start + j.value < end && data == d[start + j.value]
    && proof == InclusionPath(start + j.value, start, end, hashAt)
  }

  /** From the hash of some data the node is a leaf, with that data. */
  lemma ProvesLeafExactly(sides: seq<bool>, d: seq<Bytes>, hashAt: LeafReader, data: Bytes, proof: seq<Hash>,
                          inputs: set<Bytes>)
    requires |d| > 0 && CollisionFree(inputs) && LeafInput(data) in inputs && Hashed(d) <= inputs
    ensures ProvesNode(sides, 0, |d|, d, hashAt, LeafHash(data), proof)
            <==> ProvesLeaf(LeafAt(|d|, sides), 0, |d|, d, hashAt, data, proof)
  {
    hide MTH, Hashed, CollisionFree, NodeAt, PathAbove, InclusionPath, LeafHash, LeafInput, LeafAt;
    LeafIsNode(0, |d|, sides, hashAt);
    var node := NodeAt(0, |d|, sides);
    if node.Some? {
      assert d[0..|d|] == d;
      NodeHashed(0, |d|, sides, d);
      RootOfLeaf(node.value.0, node.value.1, d, data, inputs);
    }
  }

  lemma {:induction false} NodeHashed(start: nat, end: nat, sides: seq<bool>, d: seq<Bytes>)
    requires start < end <= |d| && NodeAt(start, end, sides).Some?
    ensures var node := NodeAt(start, end, sides).value;
            Hashed(d[node.0..node.1]) <= Hashed(d[start..end])
    decreases |sides|
  {
    hide SplitPoint, MTH, Hashed, NodeAt, PathAbove, InteriorInput;
    var none: LeafReader := i => ZeroHash();
    if |sides| == 0 || end - start == 1 {
      NodeAtEnds(start, end, sides, none);
    } else {
      var n, k := |sides| - 1, SplitPoint(end - start);
      NodeAtStep(start, end, sides, k, none);
      TreeStep(d, start, end, k);
      if sides[n] {
        NodeHashed(start + k, end, sides[..n], d);
      } else {
        NodeHashed(start, start + k, sides[..n], d);
      }
    }
  }

  lemma NothingToRecombine(hash: Hash, sides: seq<bool>, proof: seq<Hash>)
    requires |sides| == |proof| == 0
    ensures Recombine(hash, sides, proof) == hash
  {
  }

  lemma LeafAtOne(sides: seq<bool>)
    requires |sides| > 0
    ensures LeafAt(1, sides) == None
  {
  }

  lemma LeafInSlice(d: seq<Bytes>, start: nat)
    requires start < |d|
    ensures LeafInput(d[start]) in Hashed(d[start..start + 1])
  {
    LeafInputHashed(d[start..start + 1], 0);
  }

  /** A leaf hash is the root of a range exactly when the range is that leaf. */
  lemma RootOfLeaf(start: nat, end: nat, d: seq<Bytes>, data: Bytes, inputs: set<Bytes>)
    requires start < end <= |d|
    requires CollisionFree(inputs) && Hashed(d[start..end]) <= inputs && LeafInput(data) in inputs
    ensures LeafHash(data) == MTH(d[start..end]) <==> end == start + 1 && data == d[start]
  {
    hide SplitPoint, MTH, Hashed, InteriorHash, InteriorInput, LeafInput, LeafHash, CollisionFree;
    if end == start + 1 {
      LeafSlice(d, start);
      LeafInSlice(d, start);
      if LeafHash(data) == LeafHash(d[start]) {
        EqualLeaves(data, d[start], inputs);
      }
    } else {
      var k := SplitPoint(end - start);
      TreeStep(d, start, end, k);
      LeafIsNotInterior(data, MTH(d[start..start + k]), MTH(d[start + k..end]), inputs);
    }
  }

  // ----- RootFromInclusionProof -----

  /** The sides that RootFromInclusionProof uses up on this proof. */
  function UsedSides(index: int, size: nat, proof: seq<Hash>): (sides: seq<bool>)
    requires size >= 1
    ensures |sides| <= |proof|
  {
    hide PathLen;
    var all := Sides(Clamp(index, size), size);
    if |all| <= |proof| then all else all[..|proof|]
  }

  lemma {:induction false} RecombinedInRange(index: nat, start: nat, end: nat, leafHash: Hash, proof: seq<Hash>)
    requires start <= index < end
    ensures var sides := UsedSides(index - start, end - start, proof);
            RootFromProof(index, start, end, leafHash, proof) == Recombine(leafHash, sides, proof[..|sides|])
    decreases end - start
  {
    hide SplitPoint, InteriorHash, InteriorInput, PathLen, Recombine, RootFromProof, RootQueries, Sides;
    var size := end - start;
    var sides := UsedSides(index - start, size, proof);
    if size == 1 || |proof| == 0 {
      RootUntouched(index, start, end, leafHash, proof);
      NoSides(index - start, size, proof);
      NothingToRecombine(leafHash, sides, proof[..|sides|]);
    } else {
      var k := SplitPoint(size);
      SidesStep(index - start, size, k);
      RootUnfold(index, start, end, k, leafHash, proof);
      if index < start + k {
        RecombinedInRange(index, start, start + k, leafHash, proof);
        UsedStep(Sides(index - start, k), false, sides, proof, leafHash);
      } else {
        RecombinedInRange(index, start + k, end, leafHash, proof);
        UsedStep(Sides(index - start - k, size - k), true, sides, proof, leafHash);
      }
    }
  }

  lemma NoSides(index: nat, size: nat, proof: seq<Hash>)
    requires index < size && (size == 1 || |proof| == 0)
    ensures |UsedSides(index, size, proof)| == 0
  {
  }

  /** RootFromInclusionProof on any index and a proof of any length hashes along
      the sides of the leaf that the index is clamped to. */
  lemma RootIsRecombined(index: int, size: nat, leafHash: Hash, proof: seq<Hash>)
    requires size >= 1
    ensures var sides := UsedSides(index, size, proof);
            RootFromInclusionProof(index, size, leafHash, proof) == Recombine(leafHash, sides, proof[..|sides|])
  {
    hide Recombine, RootFromProof, Sides;
    RootClamped(index, 0, size, leafHash, proof);
    RecombinedInRange(Clamp(index, size), 0, size, leafHash, proof);
  }

  lemma UsedStep(below: seq<bool>, side: bool, sides: seq<bool>, proof: seq<Hash>, leafHash: Hash)
    requires |proof| > 0
    requires sides == (if |below| + 1 <= |proof| then below + [side] else (below + [side])[..|proof|])
    ensures var used := if |below| <= |proof| then below else below[..|proof|];
            var sub := Recombine(leafHash, used, proof[..|used|]);
            Recombine(leafHash, sides, proof[..|sides|]) ==
            if |below| < |proof|
            then (if side then InteriorHash(proof[|below|], sub) else InteriorHash(sub, proof[|below|]))
            else sub
  {
    hide InteriorHash, Recombine, Queries, InteriorInput;
    if |below| < |proof| {
      var n := |below|;
      RecombineStep(leafHash, sides, proof[..n + 1]);
      assert sides[..n] == below && proof[..n + 1][..n] == proof[..n];
    } else {
      assert sides == if |below| <= |proof| then below else below[..|proof|];
    }
  }

  /** Every byte string hashed while RootFromInclusionProof is checked against
      the root of d. */
  ghost function RootInputs(index: int, d: seq<Bytes>, hash: Hash, proof: seq<Hash>): set<Bytes>
    requires |d| > 0
  {
    var sides := UsedSides(index, |d|, proof);
    Hashed(d) + Queries(hash, sides, proof[..|sides|])
  }

  /** RootFromInclusionProof on any index, any 32 bytes and any proof: it gives
      the root exactly when the sides it uses lead to a node of the tree, the
      bytes are that node's hash and the proof begins with the path above it.
      With |proof| >= PathLen(index, size) that node is the leaf that the index is
      clamped to. */
  lemma RootAcceptsExactly(index: int, d: seq<Bytes>, hashAt: LeafReader, hash: Hash, proof: seq<Hash>)
    requires |d| > 0 && ReadsLeaves(hashAt, d) && CollisionFree(RootInputs(index, d, hash, proof))
    ensures var sides, i := UsedSides(index, |d|, proof), Clamp(index, |d|);
            && (RootFromInclusionProof(index, |d|, hash, proof) == MTH(d)
                <==> ProvesNode(sides, 0, |d|, d, hashAt, hash, proof[..|sides|]))
            && (|proof| >= PathLen(index, |d|) ==>
                  LeafAt(|d|, sides) == Some(i) && NodeAt(0, |d|, sides) == Some((i, i + 1)))
  {
    hide MTH, Hashed, CollisionFree, Recombine, Queries, LeafAt, NodeAt, PathAbove, Sides, PathLen, RootFromProof,
         InclusionPath, ProvesNode;
    var sides := UsedSides(index, |d|, proof);
    assert d[0..|d|] == d;
    PathLenClamped(index, |d|);
    RootIsRecombined(index, |d|, hash, proof);
    RecombineExact(sides, proof[..|sides|], 0, |d|, d, hashAt, hash, RootInputs(index, d, hash, proof));
    LeafAtSides(Clamp(index, |d|), |d|);
    LeafIsNode(0, |d|, sides, hashAt);
  }

  /** From the leaf hash of some data: the leaf has that data and the proof begins
      with its inclusion path. */
  lemma RootAcceptsLeafExactly(index: int, d: seq<Bytes>, hashAt: LeafReader, data: Bytes, proof: seq<Hash>)
    requires |d| > 0 && ReadsLeaves(hashAt, d)
    requires CollisionFree(RootInputs(index, d, LeafHash(data), proof) + {LeafInput(data)})
    ensures var sides := UsedSides(index, |d|, proof);
            && (RootFromInclusionProof(index, |d|, LeafHash(data), proof) == MTH(d)
                <==> ProvesLeaf(LeafAt(|d|, sides), 0, |d|, d, hashAt, data, proof[..|sides|]))
            && (|proof| >= PathLen(index, |d|) ==> LeafAt(|d|, sides) == Some(Clamp(index, |d|)))
  {
    hide MTH, Hashed, CollisionFree, Queries, LeafAt, NodeAt, PathLen, RootFromInclusionProof, ProvesNode, ProvesLeaf,
         LeafHash, LeafInput;
    var sides := UsedSides(index, |d|, proof);
    var inputs := RootInputs(index, d, LeafHash(data), proof) + {LeafInput(data)};
    SmallerInputs(RootInputs(index, d, LeafHash(data), proof), inputs);
    RootAcceptsExactly(index, d, hashAt, LeafHash(data), proof);
    ProvesLeafExactly(sides, d, hashAt, data, proof[..|sides|], inputs);
  }

  // ----- VerifyInclusion -----

  /** The lowest bits of the index, as sides. */
  function BitSides(index: nat, n: nat): (sides: seq<bool>)
    ensures |sides| == n
  {
    if n == 0 then [] else BitSides(index, n - 1) + [Bit(index, n - 1) == 1]
  }

  lemma {:induction false} WalkIsRecombined(hash: Hash, index: nat, proof: seq<Hash>)
    ensures Walk(hash, index, proof) == Recombine(hash, BitSides(index, |proof|), proof)
    ensures WalkQueries(hash, index, proof) == Queries(hash, BitSides(index, |proof|), proof)
    decreases |proof|
  {
    hide InteriorHash, InteriorInput, Bit, Walk, WalkQueries;
    if |proof| == 0 {
      assert proof == [];
      WalkDone(hash, index);
    } else {
      hide Recombine, Queries;
      var n := |proof| - 1;
      WalkIsRecombined(hash, index, proof[..n]);
      assert proof == proof[..n] + [proof[n]];
      WalkAppend(hash, index, proof[..n], proof[n]);
      BitIsBinary(index, n);
      var sides := BitSides(index, |proof|);
      assert sides[..n] == BitSides(index, n);
      RecombineStep(hash, sides, proof);
    }
  }

  /** VerifyInclusion on any input, the leaf hash being any 32 bytes: it accepts
      exactly the hash of the node that the low bits of the index lead to, with
      the path above it.  That node need not be the leaf at the index, nor a leaf. */
  lemma WalkAcceptsExactly(index: nat, d: seq<Bytes>, hashAt: LeafReader, hash: Hash, proof: seq<Hash>)
    requires index < |d| && ReadsLeaves(hashAt, d)
    requires CollisionFree(Hashed(d) + WalkQueries(hash, index, proof))
    ensures Walk(hash, index, proof) == MTH(d)
            <==> ProvesNode(BitSides(index, |proof|), 0, |d|, d, hashAt, hash, proof)
  {
    hide MTH, Hashed, CollisionFree, Recombine, Queries, NodeAt, PathAbove, Walk, WalkQueries, BitSides, ProvesNode;
    assert d[0..|d|] == d;
    WalkIsRecombined(hash, index, proof);
    RecombineExact(BitSides(index, |proof|), proof, 0, |d|, d, hashAt, hash,
                   Hashed(d) + WalkQueries(hash, index, proof));
  }

  /** From the leaf hash of some data: the data and the path of the leaf that the
      low bits lead to. */
  lemma WalkAcceptsLeafExactly(index: nat, d: seq<Bytes>, hashAt: LeafReader, data: Bytes, proof: seq<Hash>)
    requires index < |d| && ReadsLeaves(hashAt, d)
    requires CollisionFree(Hashed(d) + {LeafInput(data)} + WalkQueries(LeafHash(data), index, proof))
    ensures Walk(LeafHash(data), index, proof) == MTH(d)
            <==> ProvesLeaf(LeafAt(|d|, BitSides(index, |proof|)), 0, |d|, d, hashAt, data, proof)
  {
    hide MTH, Hashed, CollisionFree, LeafAt, Walk, WalkQueries, BitSides, ProvesNode, ProvesLeaf, LeafHash, LeafInput;
    var inputs := Hashed(d) + {LeafInput(data)} + WalkQueries(LeafHash(data), index, proof);
    SmallerInputs(Hashed(d) + WalkQueries(LeafHash(data), index, proof), inputs);
    WalkAcceptsExactly(index, d, hashAt, LeafHash(data), proof);
    ProvesLeafExactly(BitSides(index, |proof|), d, hashAt, data, proof, inputs);
  }

  lemma RootOfThree(a: Bytes, b: Bytes, c: Bytes)
    ensures MTH([a, b, c]) == InteriorHash(InteriorHash(LeafHash(a), LeafHash(b)), LeafHash(c))
  {
    SplitPointUnique(2, 0);
    SplitPointUnique(3, 1);
    hide SplitPoint, LeafInput, InteriorInput;
    var d, l := [a, b, c], [a, b];
    assert d[..2] == l && d[2..] == [c] && l[..1] == [a] && l[1..] == [b];
    assert MTH(l) == InteriorHash(LeafHash(a), LeafHash(b));
  }

  /** The smallest mismatch of positions: in a log of three, one hash verifies the
      entry at index 2 under index 1. */
  lemma SecondOfThreeLeadsToThird(a: Bytes, b: Bytes, c: Bytes)
    ensures LeafAt(3, BitSides(1, 1)) == Some(2)
    ensures Walk(LeafHash(c), 1, [InteriorHash(LeafHash(a), LeafHash(b))]) == MTH([a, b, c])
  {
    SplitPointUnique(3, 1);
    BitZero(1);
    RootOfThree(a, b, c);
    hide SplitPoint, Bit, MTH, LeafHash, InteriorHash;
    var sides := BitSides(1, 1);
    assert sides == [true];
    LeafAtStep(3, sides, 2);
    LeafAtNone(1);
    var s := InteriorHash(LeafHash(a), LeafHash(b));
    assert [s][1..] == [];
    WalkDone(InteriorHash(s, LeafHash(c)), 0);
  }

  /** The smallest mismatch of levels: in a log of three, the node above the first
      two entries passes both verifiers as the leaf hash at index 0. */
  lemma InteriorPassesAsLeaf(a: Bytes, b: Bytes, c: Bytes)
    ensures var node := InteriorHash(LeafHash(a), LeafHash(b));
            && Walk(node, 0, [LeafHash(c)]) == MTH([a, b, c])
            && RootFromInclusionProof(0, 3, node, [LeafHash(c)]) == MTH([a, b, c])
  {
    SplitPointUnique(2, 0);
    SplitPointUnique(3, 1);
    RootOfThree(a, b, c);
    hide SplitPoint, MTH, LeafHash, InteriorHash;
    var node, proof := InteriorHash(LeafHash(a), LeafHash(b)), [LeafHash(c)];
    assert proof[1..] == [];
    WalkDone(InteriorHash(node, LeafHash(c)), 0);
    PathLenOfOne(0);
    PathLenUnfold(0, 2, 1);
    RootUntouched(0, 0, 1, node, proof);
    RootUnfold(0, 0, 2, 1, node, proof);
    RootUnfold(0, 0, 3, 2, node, proof);
  }
}
