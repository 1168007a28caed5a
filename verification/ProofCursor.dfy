/** VerifyConsistency as internal/merkle/merkle.go runs it: the recursion takes
    proof hashes through a shared cursor that it moves forward. */
module ProofCursor {
  import opened BitArith
  import opened Wrappers
  import opened Hashing
  import opened Merkle
  import opened MerkleProofs

  class Cursor {
    var next: nat

    constructor ()
      ensures next == 0
    {
      next := 0;
    }
  }

  /** verifyConsistencyRec. */
  method Replay(m: nat, n: nat, openRight: bool, passThrough: Hash, proof: seq<Hash>, cursor: Cursor)
    returns (oldHash: Hash, newHash: Hash, ok: bool)
    requires 0 < m <= n
    modifies cursor
    ensures var r := VerifyConsistencyRec(m, n, openRight, passThrough, proof, old(cursor.next));
            && (ok <==> r.Replayed?)
            && (ok ==> r == Replayed(oldHash, newHash, cursor.next))
            && (!ok ==> oldHash == newHash == ZeroHash())
    decreases n
  {
    hide SplitPoint, InteriorHash, ZeroHash;
    if m == n {
      if openRight {
        return passThrough, passThrough, true;
      }
      if cursor.next >= |proof| {
        return ZeroHash(), ZeroHash(), false;
      }
      var h := proof[cursor.next];
      cursor.next := cursor.next + 1;
      return h, h, true;
    }
    var k := SplitPoint(n);
    if m <= k {
      var oldH, newLeft, sub := Replay(m, k, openRight, passThrough, proof, cursor);
      if !sub || cursor.next >= |proof| {
        return ZeroHash(), ZeroHash(), false;
      }
      var right := proof[cursor.next];
      cursor.next := cursor.next + 1;
      return oldH, InteriorHash(newLeft, right), true;
    }
    var oldRight, newRight, sub := Replay(m - k, n - k, false, ZeroHash(), proof, cursor);
    if !sub || cursor.next >= |proof| {
      return ZeroHash(), ZeroHash(), false;
    }
    var left := proof[cursor.next];
    cursor.next := cursor.next + 1;
    return InteriorHash(left, oldRight), InteriorHash(left, newRight), true;
  }

  /** VerifyConsistency.  The second clause says what an accepted proof to the
      root of a list means, for any old root: it is the root of the list's first
      oldSize entries and the proof is the generated one. */
  method CheckConsistency(oldSize: int, newSize: int, proof: seq<Hash>, oldRoot: Hash, newRoot: Hash,
                          ghost d: seq<Bytes>, ghost hashAt: LeafReader) returns (ok: bool)
    ensures ok <==> VerifyConsistency(oldSize, newSize, proof, oldRoot, newRoot)
    ensures oldSize != 0 && newSize == |d| && newRoot == MTH(d) && ReadsLeaves(hashAt, d)
            && CollisionFree(ConsistencyInputs(oldSize, oldRoot, d, proof))
            ==> (ok <==> 0 < oldSize <= |d| && oldRoot == MTH(d[..oldSize])
                         && Ok(proof) == ConsistencyProof(oldSize, newSize, hashAt))
  {
    hide MTH, VerifyConsistencyRec, ConsistencyPath, CollisionFree, ConsistencyInputs, ReadsLeaves;
    if newSize == |d| && newRoot == MTH(d) && ReadsLeaves(hashAt, d)
       && CollisionFree(ConsistencyInputs(oldSize, oldRoot, d, proof)) {
      ConsistencyAcceptsExactly(oldSize, oldRoot, d, hashAt, proof);
    }
    if oldSize > newSize || oldSize < 0 || newSize < 0 {
      return false;
    }
    if oldSize == newSize {
      return |proof| == 0 && oldRoot == newRoot;
    }
    if oldSize == 0 {
      return |proof| == 0;
    }
    if |proof| == 0 {
      return false;
    }
    var cursor := new Cursor();
    var oldHash, newHash, replayed := Replay(oldSize, newSize, true, oldRoot, proof, cursor);
    return replayed && cursor.next == |proof| && oldHash == oldRoot && newHash == newRoot;
  }
}
