/** What the verifiers of internal/merkle/merkle.go accept: exactly the
    generated proofs of true statements, as long as the hash does not collide
    on the byte strings that are hashed on the way. */
module MerkleProofs {
  import opened BitArith
  import opened Wrappers
  import opened Hashing
  import opened Merkle

  ghost predicate ReadsLeaves(hashAt: LeafReader, entries: seq<Bytes>) {
    forall i: nat :: i < |entries| ==> hashAt(i) == LeafHash(entries[i])
  }

  /** One step of MTH on a slice, cut where the range recursions cut it. */
  lemma TreeStep(d: seq<Bytes>, start: nat, end: nat, k: nat)
    requires start + 2 <= end <= |d| && k == SplitPoint(end - start)
    ensures var l, r := d[start..start + k], d[start + k..end];
            && MTH(d[start..end]) == InteriorHash(MTH(l), MTH(r))
            && Hashed(d[start..end]) == {InteriorInput(MTH(l), MTH(r))} + Hashed(l) + Hashed(r)
  {
    hide SplitPoint, LeafInput, InteriorInput;
    assert d[start..end][..k] == d[start..start + k];
    assert d[start..end][k..] == d[start + k..end];
  }

  /** The bytes that are hashed for a tree, as section 2.1.1 of RFC 9162 gives
      them: nothing, 0x00 and the entry, or 0x01, the left root and the right root,
      cut at the one power of two below the size and not below half of it. */
  lemma RootBytes(d: seq<Bytes>, e: nat)
    ensures |d| == 0 ==> MTH(d) == Sha256([])
    ensures |d| == 1 ==> MTH(d) == Sha256([0] + d[0])
    ensures Pow2(e) < |d| <= 2 * Pow2(e) ==> MTH(d) == Sha256([1] + MTH(d[..Pow2(e)]) + MTH(d[Pow2(e)..]))
  {
    if Pow2(e) < |d| <= 2 * Pow2(e) {
      SplitPointUnique(|d|, e);
      hide SplitPoint;
    }
  }

  // ----- the tree hash -----

  lemma SubtreeStep(start: nat, end: nat, k: nat, hashAt: LeafReader)
    requires start + 2 <= end && k == SplitPoint(end - start)
    ensures ComputeSubtreeHash(start, end, hashAt) ==
            InteriorHash(ComputeSubtreeHash(start, start + k, hashAt), ComputeSubtreeHash(start + k, end, hashAt))
  {
    hide SplitPoint, InteriorHash;
  }

  lemma LeafSlice(d: seq<Bytes>, start: nat)
    requires start < |d|
    ensures MTH(d[start..start + 1]) == LeafHash(d[start])
  {
    hide LeafInput;
  }

  lemma {:induction false} SubtreeIsMTH(start: nat, end: nat, hashAt: LeafReader, d: seq<Bytes>)
    requires start < end <= |d| && ReadsLeaves(hashAt, d)
    ensures ComputeSubtreeHash(start, end, hashAt) == MTH(d[start..end])
    decreases end - start
  {
    hide SplitPoint, MTH, Hashed, LeafInput, InteriorInput;
    if end - start == 1 {
      LeafSlice(d, start);
    } else {
      var k := SplitPoint(end - start);
      TreeStep(d, start, end, k);
      SubtreeIsMTH(start, start + k, hashAt, d);
      SubtreeIsMTH(start + k, end, hashAt, d);
    }
  }

  /** The root of a non-empty list is the hash of a non-empty byte string. */
  lemma RootOfNonempty(b: seq<Bytes>) returns (x: Bytes)
    requires |b| > 0
    ensures x in Hashed(b) && |x| > 0 && MTH(b) == Sha256(x)
  {
    hide SplitPoint;
    if |b| == 1 {
      x := LeafInput(b[0]);
    } else {
      var k := SplitPoint(|b|);
      x := InteriorInput(MTH(b[..k]), MTH(b[k..]));
    }
  }

  lemma EmptyRootDiffers(b: seq<Bytes>, inputs: set<Bytes>)
    requires |b| > 0 && CollisionFree(inputs) && [] in inputs && Hashed(b) <= inputs
    ensures MTH(b) != Sha256([])
  {
    hide MTH, Hashed;
    var x := RootOfNonempty(b);
  }

  /** The tree hash determines the list, its length included. */
  lemma {:induction false} MTHInjective(a: seq<Bytes>, b: seq<Bytes>, inputs: set<Bytes>)
    requires CollisionFree(inputs) && Hashed(a) <= inputs && Hashed(b) <= inputs
    requires MTH(a) == MTH(b)
    ensures a == b
    decreases |a|
  {
    hide SplitPoint, LeafInput, InteriorInput;
    if |a| == 0 && |b| == 0 {
    } else if |a| == 0 {
      EmptyRootDiffers(b, inputs);
    } else if |b| == 0 {
      EmptyRootDiffers(a, inputs);
    } else if |a| == 1 && |b| == 1 {
      EqualLeaves(a[0], b[0], inputs);
    } else if |a| == 1 {
      var j := SplitPoint(|b|);
      LeafIsNotInterior(a[0], MTH(b[..j]), MTH(b[j..]), inputs);
    } else if |b| == 1 {
      var k := SplitPoint(|a|);
      LeafIsNotInterior(b[0], MTH(a[..k]), MTH(a[k..]), inputs);
    } else {
      var k, j := SplitPoint(|a|), SplitPoint(|b|);
      EqualInteriors(MTH(a[..k]), MTH(a[k..]), MTH(b[..j]), MTH(b[j..]), inputs);
      MTHInjective(a[..k], b[..j], inputs);
      MTHInjective(a[k..], b[j..], inputs);
      assert a == a[..k] + a[k..] && b == b[..j] + b[j..];
    }
  }

  // ----- inclusion -----

  lemma {:induction false} InclusionPathLength(index: nat, start: nat, end: nat, hashAt: LeafReader)
    requires start <= index < end
    ensures |InclusionPath(index, start, end, hashAt)| == PathLen(index - start, end - start)
    decreases end - start
  {
    hide SplitPoint, ComputeSubtreeHash;
    if end - start > 1 {
      var k := SplitPoint(end - start);
      if index - start < k {
        InclusionPathLength(index, start, start + k, hashAt);
      } else {
        InclusionPathLength(index, start + k, end, hashAt);
      }
    }
  }

  // One step of the walk from a leaf: none, into the left half, or into the
  // right half.  `at` is where the proof holds the sibling.

  lemma StepNone(index: nat, hashAt: LeafReader, leafHash: Hash, proof: seq<Hash>)
    ensures RootFromProof(index, index, index + 1, leafHash, proof) == leafHash
    ensures InclusionPath(index, index, index + 1, hashAt) == []
    ensures ComputeSubtreeHash(index, index + 1, hashAt) == hashAt(index)
  {
  }

  lemma StepLeft(index: nat, start: nat, end: nat, k: nat, hashAt: LeafReader, leafHash: Hash, proof: seq<Hash>)
    requires start <= index < start + k < end && k == SplitPoint(end - start)
    requires |proof| >= PathLen(index - start, end - start)
    ensures PathLen(index - start, end - start) == PathLen(index - start, k) + 1
    ensures InclusionPath(index, start, end, hashAt) ==
            InclusionPath(index, start, start + k, hashAt) + [ComputeSubtreeHash(start + k, end, hashAt)]
    ensures var sub, at := RootFromProof(index, start, start + k, leafHash, proof), PathLen(index - start, k);
            && RootFromProof(index, start, end, leafHash, proof) == InteriorHash(sub, proof[at])
            && RootQueries(index, start, end, leafHash, proof) ==
               RootQueries(index, start, start + k, leafHash, proof) + {InteriorInput(sub, proof[at])}
  {
    hide SplitPoint, InteriorInput, ComputeSubtreeHash;
  }

  lemma StepRight(index: nat, start: nat, end: nat, k: nat, hashAt: LeafReader, leafHash: Hash, proof: seq<Hash>)
    requires start + k <= index < end && end - start >= 2 && k == SplitPoint(end - start)
    requires |proof| >= PathLen(index - start, end - start)
    ensures PathLen(index - start, end - start) == PathLen(index - start - k, end - start - k) + 1
    ensures InclusionPath(index, start, end, hashAt) ==
            InclusionPath(index, start + k, end, hashAt) + [ComputeSubtreeHash(start, start + k, hashAt)]
    ensures var sub := RootFromProof(index, start + k, end, leafHash, proof);
            var at := PathLen(index - start - k, end - start - k);
            && RootFromProof(index, start, end, leafHash, proof) == InteriorHash(proof[at], sub)
            && RootQueries(index, start, end, leafHash, proof) ==
               RootQueries(index, start + k, end, leafHash, proof) + {InteriorInput(proof[at], sub)}
  {
    hide SplitPoint, InteriorInput, ComputeSubtreeHash;
  }

  /** A proof that begins with the generated path recombines to the tree hash. */
  lemma {:induction false} InclusionComplete(index: nat, start: nat, end: nat, hashAt: LeafReader, proof: seq<Hash>)
    requires start <= index < end
    requires InclusionPath(index, start, end, hashAt) <= proof
    ensures RootFromProof(index, start, end, hashAt(index), proof) == ComputeSubtreeHash(start, end, hashAt)
    decreases end - start
  {
    hide SplitPoint, InteriorHash, InteriorInput, ComputeSubtreeHash, PathLen, RootFromProof, RootQueries,
         InclusionPath;
    InclusionPathLength(index, start, end, hashAt);
    if end - start == 1 {
      StepNone(index, hashAt, hashAt(index), proof);
    } else {
      var k := SplitPoint(end - start);
      SubtreeStep(start, end, k, hashAt);
      if index < start + k {
        StepLeft(index, start, end, k, hashAt, hashAt(index), proof);
        InclusionPathLength(index, start, start + k, hashAt);
        InclusionComplete(index, start, start + k, hashAt, proof);
      } else {
        StepRight(index, start, end, k, hashAt, hashAt(index), proof);
        InclusionPathLength(index, start + k, end, hashAt);
        InclusionComplete(index, start + k, end, hashAt, proof);
      }
    }
  }

  lemma {:induction false} InclusionExact(index: nat, start: nat, end: nat, hashAt: LeafReader,
                                          d: seq<Bytes>, leafHash: Hash, proof: seq<Hash>, inputs: set<Bytes>)
    requires start <= index < end <= |d| && ReadsLeaves(hashAt, d)
    requires |proof| >= PathLen(index - start, end - start)
    requires CollisionFree(inputs) && Hashed(d[start..end]) <= inputs
    requires RootQueries(index, start, end, leafHash, proof) <= inputs
    requires RootFromProof(index, start, end, leafHash, proof) == MTH(d[start..end])
    ensures leafHash == hashAt(index)
    ensures InclusionPath(index, start, end, hashAt) <= proof
    decreases end - start
  {
    hide SplitPoint, MTH, Hashed, RootQueries, CollisionFree, InteriorHash, InteriorInput, ComputeSubtreeHash,
         PathLen, RootFromProof, InclusionPath;
    if end - start == 1 {
      LeafSlice(d, start);
      StepNone(index, hashAt, leafHash, proof);
    } else {
      var k := SplitPoint(end - start);
      TreeStep(d, start, end, k);
      SubtreeIsMTH(start, start + k, hashAt, d);
      SubtreeIsMTH(start + k, end, hashAt, d);
      var l, r := MTH(d[start..start + k]), MTH(d[start + k..end]);
      if index < start + k {
        StepLeft(index, start, end, k, hashAt, leafHash, proof);
        var sub, at := RootFromProof(index, start, start + k, leafHash, proof), PathLen(index - start, k);
        EqualInteriors(sub, proof[at], l, r, inputs);
        InclusionExact(index, start, start + k, hashAt, d, leafHash, proof, inputs);
        InclusionPathLength(index, start, start + k, hashAt);
      } else {
        StepRight(index, start, end, k, hashAt, leafHash, proof);
        var sub := RootFromProof(index, start + k, end, leafHash, proof);
        var at := PathLen(index - start - k, end - start - k);
        EqualInteriors(proof[at], sub, l, r, inputs);
        InclusionExact(index, start + k, end, hashAt, d, leafHash, proof, inputs);
        InclusionPathLength(index, start + k, end, hashAt);
      }
    }
  }

  /** The leaf that an index stands for when nothing checks its range: indices
      past the right edge end at the last leaf, negative ones at the first. */
  function Clamp(index: int, size: nat): (i: nat)
    requires size >= 1
    ensures i < size
    ensures 0 <= index < size ==> i == index
  {
    if index < 0 then 0 else if index >= size then size - 1 else index
  }

  lemma PathLenUnfold(index: int, size: nat, k: nat)
    requires size >= 2 && k == SplitPoint(size)
    ensures PathLen(index, size) == (if index < k then PathLen(index, k) else PathLen(index - k, size - k)) + 1
  {
    hide SplitPoint;
  }

  /** One level of RootFromProof, for any index and a proof of any length. */
  lemma RootUnfold(index: int, start: nat, end: nat, k: nat, leafHash: Hash, proof: seq<Hash>)
    requires end - start >= 2 && k == SplitPoint(end - start) && |proof| > 0
    ensures index < start + k ==>
              var sub, at := RootFromProof(index, start, start + k, leafHash, proof), PathLen(index - start, k);
              && RootFromProof(index, start, end, leafHash, proof) ==
                 (if at < |proof| then InteriorHash(sub, proof[at]) else sub)
              && RootQueries(index, start, end, leafHash, proof) ==
                 RootQueries(index, start, start + k, leafHash, proof) +
                 (if at < |proof| then {InteriorInput(sub, proof[at])} else {})
    ensures index >= start + k ==>
              var sub := RootFromProof(index, start + k, end, leafHash, proof);
              var at := PathLen(index - start - k, end - start - k);
              && RootFromProof(index, start, end, leafHash, proof) ==
                 (if at < |proof| then InteriorHash(proof[at], sub) else sub)
              && RootQueries(index, start, end, leafHash, proof) ==
                 RootQueries(index, start + k, end, leafHash, proof) +
                 (if at < |proof| then {InteriorInput(proof[at], sub)} else {})
  {
    hide SplitPoint, InteriorHash, InteriorInput, PathLen;
  }

  lemma RootUntouched(index: int, start: nat, end: nat, leafHash: Hash, proof: seq<Hash>)
    requires start < end && (end - start == 1 || |proof| == 0)
    ensures RootFromProof(index, start, end, leafHash, proof) == leafHash
    ensures RootQueries(index, start, end, leafHash, proof) == {}
  {
    hide SplitPoint, InteriorHash, InteriorInput;
  }

  lemma {:induction false} PathLenClamped(index: int, size: nat)
    requires size >= 1
    ensures PathLen(index, size) == PathLen(Clamp(index, size), size)
    decreases size
  {
    hide SplitPoint, PathLen;
    if size == 1 {
      PathLenOfOne(index);
      PathLenOfOne(0);
    } else {
      var k := SplitPoint(size);
      PathLenUnfold(index, size, k);
      PathLenUnfold(Clamp(index, size), size, k);
      if index < k {
        PathLenClamped(index, k);
      } else {
        PathLenClamped(index - k, size - k);
      }
    }
  }

  lemma PathLenOfOne(index: int)
    ensures PathLen(index, 1) == 0
  {
  }

  /** RootFromInclusionProof does not check the range of the index either: every
      index behaves as the leaf it is clamped to. */
  lemma {:induction false} RootClamped(index: int, start: nat, end: nat, leafHash: Hash, proof: seq<Hash>)
    requires start < end
    ensures var i := start + Clamp(index - start, end - start);
            && RootFromProof(index, start, end, leafHash, proof) == RootFromProof(i, start, end, leafHash, proof)
            && RootQueries(index, start, end, leafHash, proof) == RootQueries(i, start, end, leafHash, proof)
    decreases end - start
  {
    hide SplitPoint, InteriorHash, InteriorInput, PathLen, RootFromProof, RootQueries;
    var n := end - start;
    var i := start + Clamp(index - start, n);
    if n == 1 || |proof| == 0 {
      RootUntouched(index, start, end, leafHash, proof);
      RootUntouched(i, start, end, leafHash, proof);
    } else {
      var k := SplitPoint(n);
      RootUnfold(index, start, end, k, leafHash, proof);
      RootUnfold(i, start, end, k, leafHash, proof);
      if index < start + k {
        PathLenClamped(index - start, k);
        RootClamped(index, start, start + k, leafHash, proof);
      } else {
        PathLenClamped(index - start - k, n - k);
        RootClamped(index, start + k, end, leafHash, proof);
      }
    }
  }

  /** Every byte string hashed to check `proof` for `data` against MTH(d). */
  ghost function InclusionInputs(index: int, d: seq<Bytes>, data: Bytes, proof: seq<Hash>): set<Bytes>
    requires |d| > 0
  {
    Hashed(d) + RootQueries(index, 0, |d|, LeafHash(data), proof) + {LeafInput(data)}
  }

  /** RootFromInclusionProof on any size and any index: a long enough proof
      recombines to the tree hash exactly when it proves the entry at the clamped
      index and begins with the path that the generator returns for it. */
  lemma InclusionAcceptsExactly(index: int, d: seq<Bytes>, hashAt: LeafReader, data: Bytes, proof: seq<Hash>)
    requires |d| > 0 && ReadsLeaves(hashAt, d)
    requires |proof| >= PathLen(index, |d|)
    requires CollisionFree(InclusionInputs(index, d, data, proof))
    ensures var i := Clamp(index, |d|);
            RootFromInclusionProof(index, |d|, LeafHash(data), proof) == MTH(d)
            <==> data == d[i] && InclusionProof(i, |d|, hashAt).value <= proof
  {
    hide SplitPoint, LeafInput, InteriorInput, InclusionPath, RootFromProof, MTH, Hashed, RootQueries, PathLen;
    var i := Clamp(index, |d|);
    PathLenClamped(index, |d|);
    RootClamped(index, 0, |d|, LeafHash(data), proof);
    var inputs := InclusionInputs(index, d, data, proof);
    assert d[0..|d|] == d;
    if RootFromInclusionProof(index, |d|, LeafHash(data), proof) == MTH(d) {
      InclusionExact(i, 0, |d|, hashAt, d, LeafHash(data), proof, inputs);
      LeafInputHashed(d, i);
      EqualLeaves(data, d[i], inputs);
    }
    if data == d[i] && InclusionProof(i, |d|, hashAt).value <= proof {
      InclusionComplete(i, 0, |d|, hashAt, proof);
      SubtreeIsMTH(0, |d|, hashAt, d);
    }
  }

  lemma {:induction false} LeafInputHashed(d: seq<Bytes>, index: nat)
    requires index < |d|
    ensures LeafInput(d[index]) in Hashed(d)
    decreases |d|
  {
    hide SplitPoint, LeafInput, InteriorInput, MTH;
    if |d| > 1 {
      var k := SplitPoint(|d|);
      if index < k {
        LeafInputHashed(d[..k], index);
      } else {
        LeafInputHashed(d[k..], index - k);
      }
    }
  }

  /** The length bound is needed: RootFromInclusionProof does not check it, and
      a one-hash proof for index 1 of a three-entry tree, where the path has
      two, recombines to the root from the entry at index 2. */
  lemma ShortProofProvesWrongEntry(a: Bytes, b: Bytes, c: Bytes)
    ensures PathLen(1, 3) == 2
    ensures RootFromInclusionProof(1, 3, LeafHash(c), [InteriorHash(LeafHash(a), LeafHash(b))]) == MTH([a, b, c])
  {
    SplitPointUnique(2, 0);
    SplitPointUnique(3, 1);
    hide SplitPoint, LeafInput, InteriorInput;
    var d, l, s := [a, b, c], [a, b], InteriorHash(LeafHash(a), LeafHash(b));
    assert d[..2] == l && d[2..] == [c] && l[..1] == [a] && l[1..] == [b];
    assert MTH(l) == s;
    assert MTH(d) == InteriorHash(s, LeafHash(c));
    assert PathLen(1, 2) == 1;
    assert RootFromProof(1, 0, 2, LeafHash(c), [s]) == InteriorHash(s, LeafHash(c));
  }

  /** Nor does it check the range: a proof of full length verifies entry 2 of a
      three-entry tree under index 5. */
  lemma IndexBeyondProvesLast(a: Bytes, b: Bytes, c: Bytes)
    ensures PathLen(5, 3) == 1
    ensures RootFromInclusionProof(5, 3, LeafHash(c), [InteriorHash(LeafHash(a), LeafHash(b))]) == MTH([a, b, c])
  {
    SplitPointUnique(2, 0);
    SplitPointUnique(3, 1);
    hide SplitPoint, LeafInput, InteriorInput;
    var d, l, s := [a, b, c], [a, b], InteriorHash(LeafHash(a), LeafHash(b));
    assert d[..2] == l && d[2..] == [c] && l[..1] == [a] && l[1..] == [b];
    assert MTH(l) == s;
    assert MTH(d) == InteriorHash(s, LeafHash(c));
    assert PathLen(3, 1) == 0;
    assert RootFromProof(5, 2, 3, LeafHash(c), [s]) == LeafHash(c);
  }

  // ----- consistency -----

  lemma ReplayAll(n: nat, start: nat, openRight: bool, passThrough: Hash, proof: seq<Hash>, cursor: nat,
                  hashAt: LeafReader)
    requires 0 < n
    ensures openRight ==>
              && VerifyConsistencyRec(n, n, openRight, passThrough, proof, cursor) ==
                 Replayed(passThrough, passThrough, cursor)
              && ConsistencyPath(n, n, start, openRight, hashAt) == []
    ensures !openRight ==>
              && VerifyConsistencyRec(n, n, openRight, passThrough, proof, cursor) ==
                 (if cursor >= |proof| then Short else Replayed(proof[cursor], proof[cursor], cursor + 1))
              && ConsistencyPath(n, n, start, openRight, hashAt) == [ComputeSubtreeHash(start, start + n, hashAt)]
  {
    hide ComputeSubtreeHash;
  }

  lemma ReplayStepLeft(m: nat, n: nat, k: nat, openRight: bool, passThrough: Hash, proof: seq<Hash>, cursor: nat)
    requires 0 < m < n && k == SplitPoint(n) && m <= k
    ensures var r := VerifyConsistencyRec(m, k, openRight, passThrough, proof, cursor);
            && (VerifyConsistencyRec(m, n, openRight, passThrough, proof, cursor).Replayed?
                <==> r.Replayed? && r.next < |proof|)
            && (r.Replayed? && r.next < |proof| ==>
               VerifyConsistencyRec(m, n, openRight, passThrough, proof, cursor) ==
               Replayed(r.oldHash, InteriorHash(r.newHash, proof[r.next]), r.next + 1)
               && ConsistencyQueries(m, n, openRight, passThrough, proof, cursor) ==
               ConsistencyQueries(m, k, openRight, passThrough, proof, cursor) +
               {InteriorInput(r.newHash, proof[r.next])})
  {
    hide SplitPoint, InteriorInput;
  }

  lemma ReplayStepRight(m: nat, n: nat, k: nat, openRight: bool, passThrough: Hash, proof: seq<Hash>, cursor: nat)
    requires 0 < m < n && k == SplitPoint(n) && k < m
    ensures var r := VerifyConsistencyRec(m - k, n - k, false, ZeroHash(), proof, cursor);
            && (VerifyConsistencyRec(m, n, openRight, passThrough, proof, cursor).Replayed?
                <==> r.Replayed? && r.next < |proof|)
            && (r.Replayed? && r.next < |proof| ==>
               VerifyConsistencyRec(m, n, openRight, passThrough, proof, cursor) ==
               Replayed(InteriorHash(proof[r.next], r.oldHash), InteriorHash(proof[r.next], r.newHash), r.next + 1)
               && ConsistencyQueries(m, n, openRight, passThrough, proof, cursor) ==
               ConsistencyQueries(m - k, n - k, false, ZeroHash(), proof, cursor) +
               {InteriorInput(proof[r.next], r.oldHash), InteriorInput(proof[r.next], r.newHash)})
  {
    hide SplitPoint, InteriorInput;
  }

  lemma ConsistencyPathStep(m: nat, n: nat, k: nat, start: nat, openRight: bool, hashAt: LeafReader)
    requires 0 < m < n && k == SplitPoint(n)
    ensures m <= k ==> ConsistencyPath(m, n, start, openRight, hashAt) ==
                       ConsistencyPath(m, k, start, openRight, hashAt) +
                       [ComputeSubtreeHash(start + k, start + n, hashAt)]
    ensures k < m ==> ConsistencyPath(m, n, start, openRight, hashAt) ==
                      ConsistencyPath(m - k, n - k, start + k, false, hashAt) +
                      [ComputeSubtreeHash(start, start + k, hashAt)]
  {
    hide SplitPoint, ComputeSubtreeHash;
  }

  /** The replay of a generated proof yields both subtree hashes; the
      pass-through root is only ever used for the leftmost subtree. */
  lemma {:induction false} ConsistencyComplete(m: nat, n: nat, start: nat, openRight: bool, passThrough: Hash,
                                               hashAt: LeafReader, proof: seq<Hash>, cursor: nat)
    requires 0 < m <= n && cursor <= |proof|
    requires openRight ==> start == 0 && passThrough == ComputeSubtreeHash(0, m, hashAt)
    requires ConsistencyPath(m, n, start, openRight, hashAt) <= proof[cursor..]
    ensures VerifyConsistencyRec(m, n, openRight, passThrough, proof, cursor) ==
            Replayed(ComputeSubtreeHash(start, start + m, hashAt), ComputeSubtreeHash(start, start + n, hashAt),
                     cursor + |ConsistencyPath(m, n, start, openRight, hashAt)|)
    decreases n
  {
    hide SplitPoint, InteriorHash, InteriorInput, ComputeSubtreeHash, VerifyConsistencyRec, ConsistencyPath,
         ConsistencyQueries;
    var path := ConsistencyPath(m, n, start, openRight, hashAt);
    if m == n {
      ReplayAll(n, start, openRight, passThrough, proof, cursor, hashAt);
      if !openRight {
        assert proof[cursor] == proof[cursor..][0] == path[0];
      }
    } else {
      var k := SplitPoint(n);
      ConsistencyPathStep(m, n, k, start, openRight, hashAt);
      SubtreeStep(start, start + n, k, hashAt);
      var last := |path| - 1;
      assert proof[cursor + last] == proof[cursor..][last] == path[last];
      if m <= k {
        ReplayStepLeft(m, n, k, openRight, passThrough, proof, cursor);
        ConsistencyComplete(m, k, start, openRight, passThrough, hashAt, proof, cursor);
      } else {
        ReplayStepRight(m, n, k, openRight, passThrough, proof, cursor);
        ConsistencyComplete(m - k, n - k, start + k, false, ZeroHash(), hashAt, proof, cursor);
        SplitPointShared(m, n);
        SubtreeStep(start, start + m, k, hashAt);
      }
    }
  }

  /** A replay that ends at the hash of the new subtree consumed exactly the
      generated path, and its old hash is that of the first m leaves. */
  lemma {:induction false} ConsistencyExact(m: nat, n: nat, start: nat, openRight: bool, passThrough: Hash,
                                            proof: seq<Hash>, cursor: nat,
                                            d: seq<Bytes>, hashAt: LeafReader, inputs: set<Bytes>)
    requires 0 < m <= n && start + n <= |d| && ReadsLeaves(hashAt, d) && cursor <= |proof|
    requires CollisionFree(inputs) && Hashed(d[start..start + n]) <= inputs
    requires ConsistencyQueries(m, n, openRight, passThrough, proof, cursor) <= inputs
    requires var r := VerifyConsistencyRec(m, n, openRight, passThrough, proof, cursor);
             r.Replayed? && r.newHash == MTH(d[start..start + n])
    ensures var r := VerifyConsistencyRec(m, n, openRight, passThrough, proof, cursor);
            && r.oldHash == MTH(d[start..start + m])
            && cursor <= r.next <= |proof|
            && proof[cursor..r.next] == ConsistencyPath(m, n, start, openRight, hashAt)
    decreases n
  {
    hide SplitPoint, MTH, Hashed, ConsistencyQueries, CollisionFree, InteriorHash, InteriorInput,
         ComputeSubtreeHash, ReadsLeaves, VerifyConsistencyRec, ConsistencyPath;
    var end := start + n;
    if m == n {
      ReplayAll(n, start, openRight, passThrough, proof, cursor, hashAt);
      SubtreeIsMTH(start, end, hashAt, d);
    } else {
      var k := SplitPoint(n);
      TreeStep(d, start, end, k);
      ConsistencyPathStep(m, n, k, start, openRight, hashAt);
      SubtreeIsMTH(start, start + k, hashAt, d);
      SubtreeIsMTH(start + k, end, hashAt, d);
      var left, right := d[start..start + k], d[start + k..end];
      if m <= k {
        ReplayStepLeft(m, n, k, openRight, passThrough, proof, cursor);
        var r := VerifyConsistencyRec(m, k, openRight, passThrough, proof, cursor);
        EqualInteriors(r.newHash, proof[r.next], MTH(left), MTH(right), inputs);
        ConsistencyExact(m, k, start, openRight, passThrough, proof, cursor, d, hashAt, inputs);
        assert proof[cursor..r.next + 1] == proof[cursor..r.next] + [proof[r.next]];
      } else {
        ReplayStepRight(m, n, k, openRight, passThrough, proof, cursor);
        var r := VerifyConsistencyRec(m - k, n - k, false, ZeroHash(), proof, cursor);
        SplitPointShared(m, n);
        TreeStep(d, start, start + m, k);
        EqualInteriors(proof[r.next], r.newHash, MTH(left), MTH(right), inputs);
        ConsistencyExact(m - k, n - k, start + k, false, ZeroHash(), proof, cursor, d, hashAt, inputs);
        assert proof[cursor..r.next + 1] == proof[cursor..r.next] + [proof[r.next]];
      }
    }
  }

  /** Every byte string hashed to check `proof` from an old root to MTH(d). */
  ghost function ConsistencyInputs(m: int, oldRoot: Hash, d: seq<Bytes>, proof: seq<Hash>): set<Bytes> {
    Hashed(d) + (if 0 < m <= |d| then ConsistencyQueries(m, |d|, true, oldRoot, proof, 0) else {})
  }

  lemma {:induction false} ConsistencyPathNonempty(m: nat, n: nat, start: nat, openRight: bool, hashAt: LeafReader)
    requires 0 < m < n
    ensures |ConsistencyPath(m, n, start, openRight, hashAt)| > 0
  {
    hide SplitPoint, ComputeSubtreeHash;
  }

  /** VerifyConsistency from any size and any 32 bytes to the root of a list: it
      accepts exactly the root of the list's first m entries with the generated
      proof.  From size 0 it does not look at the old root. */
  lemma ConsistencyAcceptsExactly(m: int, oldRoot: Hash, d: seq<Bytes>, hashAt: LeafReader, proof: seq<Hash>)
    requires ReadsLeaves(hashAt, d) && CollisionFree(ConsistencyInputs(m, oldRoot, d, proof))
    ensures m != 0 ==>
              (VerifyConsistency(m, |d|, proof, oldRoot, MTH(d))
               <==> 0 < m <= |d| && oldRoot == MTH(d[..m]) && Ok(proof) == ConsistencyProof(m, |d|, hashAt))
    ensures m == 0 ==>
              (VerifyConsistency(m, |d|, proof, oldRoot, MTH(d))
               <==> |proof| == 0 && (|d| == 0 ==> oldRoot == MTH([])))
  {
    hide SplitPoint, MTH, Hashed, ConsistencyQueries, VerifyConsistencyRec, ConsistencyPath, ReadsLeaves;
    var n := |d|;
    assert d[0..n] == d && d[..n] == d;
    if 0 < m < n {
      assert d[0..m] == d[..m];
      if VerifyConsistency(m, n, proof, oldRoot, MTH(d)) {
        ConsistencyExact(m, n, 0, true, oldRoot, proof, 0, d, hashAt, ConsistencyInputs(m, oldRoot, d, proof));
        assert proof[0..|proof|] == proof;
      }
      if oldRoot == MTH(d[..m]) && Ok(proof) == ConsistencyProof(m, n, hashAt) {
        ConsistencyProofAccepted(d, m, hashAt);
      }
    } else if n == 0 {
      assert d == [];
    }
  }

  /** The same for an old root that is the root of a list: the list is a prefix. */
  lemma ConsistencyOfLists(a: seq<Bytes>, b: seq<Bytes>, hashAt: LeafReader, proof: seq<Hash>)
    requires ReadsLeaves(hashAt, b)
    requires CollisionFree(Hashed(a) + ConsistencyInputs(|a|, MTH(a), b, proof) + PrefixInputs(b, |a|))
    ensures VerifyConsistency(|a|, |b|, proof, MTH(a), MTH(b))
            <==> a <= b && Ok(proof) == ConsistencyProof(|a|, |b|, hashAt)
  {
    hide SplitPoint, MTH, Hashed, VerifyConsistencyRec, VerifyConsistency, ConsistencyProof, ReadsLeaves,
         ConsistencyInputs;
    var all := Hashed(a) + ConsistencyInputs(|a|, MTH(a), b, proof) + PrefixInputs(b, |a|);
    assert CollisionFree(ConsistencyInputs(|a|, MTH(a), b, proof)) by {
      SmallerInputs(ConsistencyInputs(|a|, MTH(a), b, proof), all);
    }
    ConsistencyAcceptsExactly(|a|, MTH(a), b, hashAt, proof);
    if |a| == 0 {
      assert a == [] && a <= b;
      ProofFromNothing(|b|, hashAt);
    } else if |a| <= |b| {
      if MTH(a) == MTH(b[..|a|]) {
        MTHInjective(a, b[..|a|], all);
      }
      assert a <= b <==> a == b[..|a|];
    }
  }

  ghost function PrefixInputs(d: seq<Bytes>, m: nat): set<Bytes> {
    if m <= |d| then Hashed(d[..m]) else {}
  }

  lemma ProofFromNothing(n: nat, hashAt: LeafReader)
    ensures ConsistencyProof(0, n, hashAt) == Ok([])
  {
  }

  lemma SmallerInputs(some: set<Bytes>, all: set<Bytes>)
    requires CollisionFree(all) && some <= all
    ensures CollisionFree(some)
  {
  }

  /** Generated proofs are accepted whatever the hash function is. */
  lemma ConsistencyProofAccepted(d: seq<Bytes>, m: nat, hashAt: LeafReader)
    requires 0 < m <= |d| && ReadsLeaves(hashAt, d)
    ensures ConsistencyProof(m, |d|, hashAt).Ok?
    ensures VerifyConsistency(m, |d|, ConsistencyProof(m, |d|, hashAt).value, MTH(d[..m]), MTH(d))
  {
    hide SplitPoint, MTH, VerifyConsistencyRec, ConsistencyPath, ComputeSubtreeHash;
    var n := |d|;
    assert d[0..n] == d && d[0..m] == d[..m];
    SubtreeIsMTH(0, m, hashAt, d);
    SubtreeIsMTH(0, n, hashAt, d);
    if m < n {
      var proof := ConsistencyPath(m, n, 0, true, hashAt);
      assert proof[0..] == proof;
      ConsistencyPathNonempty(m, n, 0, true, hashAt);
      ConsistencyComplete(m, n, 0, true, MTH(d[..m]), hashAt, proof, 0);
    }
  }

  // ----- length bounds -----

  lemma HeightOfHalves(n: nat)
    requires n >= 2
    ensures Log2Ceil(SplitPoint(n)) == Log2Ceil(n) - 1
    ensures Log2Ceil(n - SplitPoint(n)) <= Log2Ceil(n) - 1
  {
    var e := SplitPointIsPow2(n);
    Log2CeilIsLeast(SplitPoint(n), e);
    Log2CeilIsLeast(n - SplitPoint(n), e);
    if e > 0 {
      Log2CeilIsLeast(SplitPoint(n), e - 1);
    }
  }

  /** Inclusion proofs have at most ceil(log2 n) hashes. */
  lemma {:induction false} PathLenBound(index: int, size: nat)
    requires size >= 1
    ensures PathLen(index, size) <= Log2Ceil(size)
    decreases size
  {
    hide SplitPoint, Log2Ceil;
    if size > 1 {
      var k := SplitPoint(size);
      HeightOfHalves(size);
      PathLenBound(index, k);
      PathLenBound(index - k, size - k);
    }
  }

  /** Consistency proofs have at most ceil(log2 n) + 1 hashes. */
  lemma {:induction false} ConsistencyPathBound(m: nat, n: nat, start: nat, openRight: bool, hashAt: LeafReader)
    requires 0 < m <= n
    ensures |ConsistencyPath(m, n, start, openRight, hashAt)| <= Log2Ceil(n) + 1
    decreases n
  {
    hide SplitPoint, Log2Ceil, ComputeSubtreeHash;
    if m < n {
      var k := SplitPoint(n);
      HeightOfHalves(n);
      if m <= k {
        ConsistencyPathBound(m, k, start, openRight, hashAt);
      } else {
        ConsistencyPathBound(m - k, n - k, start + k, false, hashAt);
      }
    }
  }
}
