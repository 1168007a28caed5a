/** VerifyInclusion, the loop that walks up by the bits of the index, and the
    positions for which it accepts the proofs that the log generates. */
module BitWalk {
  import opened BitArith
  import opened Hashing
  import opened Merkle
  import opened MerkleProofs

  /** The hash after the walk has used up the proof. */
  function Walk(hash: Hash, index: nat, proof: seq<Hash>): Hash
    decreases |proof|
  {
    if |proof| == 0 then hash
    else Walk(if index % 2 == 0 then InteriorHash(hash, proof[0]) else InteriorHash(proof[0], hash),
              index / 2, proof[1..])
  }

  /** Every byte string that the walk hashes. */
  ghost function WalkQueries(hash: Hash, index: nat, proof: seq<Hash>): set<Bytes>
    decreases |proof|
  {
    if |proof| == 0 then {}
    else if index % 2 == 0 then
      {InteriorInput(hash, proof[0])} + WalkQueries(InteriorHash(hash, proof[0]), index / 2, proof[1..])
    else
      {InteriorInput(proof[0], hash)} + WalkQueries(InteriorHash(proof[0], hash), index / 2, proof[1..])
  }

  method VerifyInclusion(leafHash: Hash, index: int, size: int, proof: seq<Hash>, root: Hash) returns (ok: bool)
    ensures ok <==> 0 <= index < size && Walk(leafHash, index, proof) == root
  {
    if index < 0 || index >= size {
      return false;
    }
    var hash, at := leafHash, index;
    for i := 0 to |proof|
      invariant at >= 0
      invariant Walk(hash, at, proof[i..]) == Walk(leafHash, index, proof)
    {
      hide InteriorHash;
      assert proof[i..][0] == proof[i] && proof[i..][1..] == proof[i + 1..];
      if at % 2 == 0 {
        hash := InteriorHash(hash, proof[i]);
      } else {
        hash := InteriorHash(proof[i], hash);
      }
      at := at / 2;
    }
    return hash == root;
  }

  function Bit(x: nat, j: nat): nat {
    ShiftRight(x, j) % 2
  }

  /** The positions that the walk gets right, from the numbers alone: all of the
      left half, and those of the right half whose own walk is right and whose
      bit above that walk is set. */
  predicate WalkCovers(index: nat, size: nat)
    requires index < size
    decreases size
  {
    if size == 1 then true
    else
      var k := SplitPoint(size);
      index < k || (WalkCovers(index - k, size - k) && Bit(index, PathLen(index - k, size - k)) == 1)
  }

  // ----- the walk, seen from its last step -----

  lemma {:induction false} WalkAppend(hash: Hash, index: nat, proof: seq<Hash>, x: Hash)
    ensures var s := Walk(hash, index, proof);
            && Walk(hash, index, proof + [x]) ==
               (if Bit(index, |proof|) == 0 then InteriorHash(s, x) else InteriorHash(x, s))
            && WalkQueries(hash, index, proof + [x]) ==
               WalkQueries(hash, index, proof) +
               {if Bit(index, |proof|) == 0 then InteriorInput(s, x) else InteriorInput(x, s)}
    decreases |proof|
  {
    hide InteriorHash, InteriorInput, Bit;
    if |proof| == 0 {
      BitZero(index);
      assert (proof + [x])[1..] == [];
      WalkDone(if index % 2 == 0 then InteriorHash(hash, x) else InteriorHash(x, hash), index / 2);
    } else {
      var next := if index % 2 == 0 then InteriorHash(hash, proof[0]) else InteriorHash(proof[0], hash);
      assert (proof + [x])[1..] == proof[1..] + [x];
      WalkAppend(next, index / 2, proof[1..], x);
      BitSucc(index, |proof| - 1);
    }
  }

  lemma WalkDone(hash: Hash, index: nat)
    ensures Walk(hash, index, []) == hash && WalkQueries(hash, index, []) == {}
  {
  }

  lemma BitZero(x: nat)
    ensures Bit(x, 0) == x % 2
  {
  }

  lemma BitSucc(x: nat, j: nat)
    ensures Bit(x / 2, j) == Bit(x, j + 1)
  {
    DivDiv(x, Pow2(j));
  }

  lemma DivDiv(x: nat, p: nat)
    requires p > 0
    ensures x / 2 / p == x / (2 * p)
  {
    var q, r := x / (2 * p), x % (2 * p);
    assert x == q * (2 * p) + r;
    assert x / 2 == q * p + r / 2 by {
      assert x == 2 * (q * p) + r;
    }
    DivModUnique(x / 2, p, q, r / 2);
  }

  /** The walk looks at the low bits only. */
  lemma {:induction false} WalkLowBits(hash: Hash, index: nat, t: nat, proof: seq<Hash>)
    ensures Walk(hash, index + t * Pow2(|proof|), proof) == Walk(hash, index, proof)
    ensures WalkQueries(hash, index + t * Pow2(|proof|), proof) == WalkQueries(hash, index, proof)
    decreases |proof|
  {
    hide InteriorHash, InteriorInput;
    if |proof| > 0 {
      var half := t * Pow2(|proof| - 1);
      var high := index + t * Pow2(|proof|);
      assert Pow2(|proof|) == 2 * Pow2(|proof| - 1);
      assert t * Pow2(|proof|) == 2 * half;
      assert high % 2 == index % 2 && high / 2 == index / 2 + half;
      var next := if index % 2 == 0 then InteriorHash(hash, proof[0]) else InteriorHash(proof[0], hash);
      WalkLowBits(next, index / 2, t, proof[1..]);
    }
  }

  // ----- paths in complete trees -----

  lemma {:induction false} PathLenOfPow2(index: int, e: nat)
    ensures PathLen(index, Pow2(e)) == e
    decreases e
  {
    hide SplitPoint;
    if e > 0 {
      SplitPointUnique(Pow2(e), e - 1);
      PathLenOfPow2(index, e - 1);
      PathLenOfPow2(index - Pow2(e - 1), e - 1);
    }
  }

  lemma BitOfSmall(x: nat, e: nat)
    requires x < 2 * Pow2(e)
    ensures Bit(x, e) == (if x < Pow2(e) then 0 else 1)
  {
    var p := Pow2(e);
    if x < p {
      DivModUnique(x, p, 0, x);
    } else {
      DivModUnique(x, p, 1, x - p);
    }
  }

  /** A tree whose size is a power of two is covered everywhere. */
  lemma {:induction false} WalkCoversPow2(index: nat, e: nat)
    requires index < Pow2(e)
    ensures WalkCovers(index, Pow2(e))
  {
    hide SplitPoint, Bit;
    if e > 0 {
      var k := Pow2(e - 1);
      SplitPointUnique(Pow2(e), e - 1);
      if index >= k {
        WalkCoversPow2(index - k, e - 1);
        PathLenOfPow2(index - k, e - 1);
        BitOfSmall(index, e - 1);
      }
    }
  }

  /** The last entry of any other size is not covered. */
  lemma {:induction false} WalkMissesLast(size: nat)
    requires size >= 1 && !IsPow2(size)
    ensures !WalkCovers(size - 1, size)
    decreases size
  {
    hide SplitPoint, Bit;
    assert size >= 2 by {
      assert Pow2(0) == 1;
    }
    var e := SplitPointIsPow2(size);
    var k := SplitPoint(size);
    assert Pow2(e + 1) == 2 * k;
    var rest := size - k;
    if IsPow2(rest) {
      var j: nat :| rest == Pow2(j);
      if e <= j {
        Pow2Monotone(e, j);
      }
      PathLenOfPow2(rest - 1, j);
      AlignedBit(k, rest - 1, e, j);
    } else {
      WalkMissesLast(rest);
    }
  }

  /** Bit j of 2^e + x is clear when j < e and x < 2^j. */
  lemma AlignedBit(k: nat, x: nat, e: nat, j: nat)
    requires k == Pow2(e) && j < e && x < Pow2(j)
    ensures Bit(k + x, j) == 0
  {
    hide Pow2;
    var q := Pow2Divides(j + 1, e);
    Pow2Succ(j);
    var p := Pow2(j);
    assert q * (2 * p) == (2 * q) * p;
    DivModUnique(k + x, p, 2 * q, x);
    assert (2 * q) % 2 == 0;
  }

  // ----- agreement -----

  /** The low bits of an index in the right half are those of its offset. */
  lemma WalkInRightHalf(hash: Hash, index: nat, size: nat, proof: seq<Hash>)
    requires size >= 2 && SplitPoint(size) <= index < size
    requires |proof| == PathLen(index - SplitPoint(size), size - SplitPoint(size))
    ensures var k := SplitPoint(size);
            && Walk(hash, index, proof) == Walk(hash, index - k, proof)
            && WalkQueries(hash, index, proof) == WalkQueries(hash, index - k, proof)
  {
    hide SplitPoint, Walk, WalkQueries, PathLen;
    var k := SplitPoint(size);
    var e := SplitPointIsPow2(size);
    HeightOfHalves(size);
    Log2CeilIsLeast(k, e);
    PathLenBound(index - k, size - k);
    var q := Pow2Divides(|proof|, e);
    WalkLowBits(hash, index - k, q, proof);
  }

  lemma WalkCoversStep(index: nat, size: nat, k: nat)
    requires size >= 2 && k == SplitPoint(size) && k <= index < size
    ensures WalkCovers(index, size) <==>
            WalkCovers(index - k, size - k) && Bit(index, PathLen(index - k, size - k)) == 1
  {
    hide SplitPoint, Bit, PathLen;
  }

  /** Where the walk covers, it agrees with RootFromInclusionProof on every leaf
      hash and every proof that is long enough. */
  lemma {:induction false} WalkAgrees(index: nat, start: nat, end: nat, leafHash: Hash, proof: seq<Hash>)
    requires start <= index < end && WalkCovers(index - start, end - start)
    requires |proof| >= PathLen(index - start, end - start)
    ensures Walk(leafHash, index - start, proof[..PathLen(index - start, end - start)])
            == RootFromProof(index, start, end, leafHash, proof)
    decreases end - start
  {
    hide SplitPoint, Walk, WalkQueries, RootFromProof, RootQueries, InclusionPath, InteriorHash, InteriorInput,
         PathLen, WalkCovers, Bit;
    var n := end - start;
    var hashAt: LeafReader := i => ZeroHash();
    if n == 1 {
      StepNone(index, hashAt, leafHash, proof);
      PathLenOfOne(index - start);
      assert proof[..0] == [];
      WalkDone(leafHash, index - start);
    } else {
      var k := SplitPoint(n);
      var e := SplitPointIsPow2(n);
      if index < start + k {
        StepLeft(index, start, end, k, hashAt, leafHash, proof);
        PathLenOfPow2(index - start, e);
        WalkCoversPow2(index - start, e);
        WalkAgrees(index, start, start + k, leafHash, proof);
        BitOfSmall(index - start, e);
        assert proof[..e + 1] == proof[..e] + [proof[e]];
        WalkAppend(leafHash, index - start, proof[..e], proof[e]);
      } else {
        StepRight(index, start, end, k, hashAt, leafHash, proof);
        var p := PathLen(index - start - k, n - k);
        WalkCoversStep(index - start, n, k);
        WalkAgrees(index, start + k, end, leafHash, proof);
        WalkInRightHalf(leafHash, index - start, n, proof[..p]);
        assert proof[..p + 1] == proof[..p] + [proof[p]];
        WalkAppend(leafHash, index - start, proof[..p], proof[p]);
      }
    }
  }

  /** Where it does not, the walk misses the root even on the generated path. */
  lemma {:induction false} WalkMisses(index: nat, start: nat, end: nat, d: seq<Bytes>, hashAt: LeafReader,
                                      inputs: set<Bytes>)
    requires start <= index < end <= |d| && ReadsLeaves(hashAt, d) && !WalkCovers(index - start, end - start)
    requires CollisionFree(inputs) && Hashed(d[start..end]) <= inputs
    requires WalkQueries(hashAt(index), index - start, InclusionPath(index, start, end, hashAt)) <= inputs
    ensures Walk(hashAt(index), index - start, InclusionPath(index, start, end, hashAt)) != MTH(d[start..end])
    decreases end - start
  {
    hide SplitPoint, Walk, WalkQueries, RootFromProof, RootQueries, InclusionPath, InteriorHash, InteriorInput,
         PathLen, Bit, MTH, Hashed, CollisionFree, ComputeSubtreeHash;
    var n := end - start;
    var k := SplitPoint(n);
    assert index >= start + k;
    hide WalkCovers;
    var leafHash := hashAt(index);
    InclusionPathLength(index, start, end, hashAt);
    StepRight(index, start, end, k, hashAt, leafHash, InclusionPath(index, start, end, hashAt));
    TreeStep(d, start, end, k);
    SubtreeIsMTH(start, start + k, hashAt, d);
    var left, right := d[start..start + k], d[start + k..end];
    var sub := InclusionPath(index, start + k, end, hashAt);
    InclusionPathLength(index, start + k, end, hashAt);
    WalkInRightHalf(leafHash, index - start, n, sub);
    WalkAppend(leafHash, index - start, sub, MTH(left));
    WalkCoversStep(index - start, n, k);
    var s := Walk(leafHash, index - start, sub);
    if Walk(leafHash, index - start, sub + [MTH(left)]) == MTH(d[start..end]) {
      if Bit(index - start, |sub|) == 0 {
        EqualInteriors(s, MTH(left), MTH(left), MTH(right), inputs);
        MTHInjective(left, right, inputs);
        EqualHalvesCovered(index - start, n);
        assert false;
      } else {
        BitIsBinary(index - start, |sub|);
        EqualInteriors(MTH(left), s, MTH(left), MTH(right), inputs);
        WalkMisses(index, start + k, end, d, hashAt, inputs);
        assert false;
      }
    }
  }

  lemma BitIsBinary(x: nat, j: nat)
    ensures Bit(x, j) == 0 || Bit(x, j) == 1
  {
  }

  lemma EqualHalvesCovered(index: nat, size: nat)
    requires index < size && size >= 2 && size == 2 * SplitPoint(size)
    ensures WalkCovers(index, size)
  {
    var e := SplitPointIsPow2(size);
    assert size == Pow2(e + 1);
    WalkCoversPow2(index, e + 1);
  }

  /** VerifyInclusion accepts the generated proof of the entry at `index`
      exactly when the walk covers that position. */
  lemma GeneratedProofAcceptedExactly(index: nat, d: seq<Bytes>, hashAt: LeafReader)
    requires index < |d| && ReadsLeaves(hashAt, d)
    requires CollisionFree(Hashed(d) + WalkQueries(LeafHash(d[index]), index, InclusionProof(index, |d|, hashAt).value))
    ensures Walk(LeafHash(d[index]), index, InclusionProof(index, |d|, hashAt).value) == MTH(d)
            <==> WalkCovers(index, |d|)
  {
    hide Walk, WalkQueries, WalkCovers, MTH, Hashed, CollisionFree, InclusionPath, RootFromProof,
         ComputeSubtreeHash, PathLen;
    var proof := InclusionPath(index, 0, |d|, hashAt);
    assert d[0..|d|] == d;
    if WalkCovers(index, |d|) {
      InclusionPathLength(index, 0, |d|, hashAt);
      assert proof[..|proof|] == proof;
      WalkAgrees(index, 0, |d|, hashAt(index), proof);
      InclusionComplete(index, 0, |d|, hashAt, proof);
      SubtreeIsMTH(0, |d|, hashAt, d);
    } else {
      WalkMisses(index, 0, |d|, d, hashAt, Hashed(d) + WalkQueries(LeafHash(d[index]), index, proof));
    }
  }

  /** The last entry is covered exactly when the size is a power of two. */
  lemma LastCoveredExactly(size: nat)
    requires size >= 1
    ensures WalkCovers(size - 1, size) <==> IsPow2(size)
  {
    hide WalkCovers;
    if IsPow2(size) {
      var e: nat :| size == Pow2(e);
      WalkCoversPow2(size - 1, e);
    } else {
      WalkMissesLast(size);
    }
  }

  /** The smallest case: the log of three entries generates a proof for its
      entry 2 that is refused. */
  lemma ThirdOfThreeRejected(a: Bytes, b: Bytes, c: Bytes, hashAt: LeafReader)
    requires ReadsLeaves(hashAt, [a, b, c])
    requires CollisionFree(Hashed([a, b, c]) + WalkQueries(LeafHash(c), 2, InclusionProof(2, 3, hashAt).value))
    ensures InclusionProof(2, 3, hashAt).value == [InteriorHash(LeafHash(a), LeafHash(b))]
    ensures Walk(LeafHash(c), 2, InclusionProof(2, 3, hashAt).value) != MTH([a, b, c])
  {
    SplitPointUnique(2, 0);
    SplitPointUnique(3, 1);
    hide SplitPoint, LeafInput, InteriorInput, MTH, Hashed, Walk, WalkQueries, CollisionFree;
    var d := [a, b, c];
    assert ComputeSubtreeHash(0, 2, hashAt) == InteriorHash(hashAt(0), hashAt(1));
    assert hashAt(0) == LeafHash(d[0]) && hashAt(1) == LeafHash(d[1]);
    assert InclusionPath(2, 2, 3, hashAt) == [];
    NotPow2(3, 1);
    LastCoveredExactly(3);
    GeneratedProofAcceptedExactly(2, d, hashAt);
  }

  lemma NotPow2(n: nat, e: nat)
    requires Pow2(e) < n < Pow2(e + 1)
    ensures !IsPow2(n)
  {
    if IsPow2(n) {
      var j: nat :| n == Pow2(j);
      if j <= e {
        Pow2Monotone(j, e);
      } else {
        Pow2Monotone(e + 1, j);
      }
      assert false;
    }
  }
}
