/** The leaf-level half of internal/merkle/merkle.go: the tree hash MTH, the
    proof generators that recompute subtrees from the leaves, and the two
    recursive verifiers. */
module Merkle {
  import opened BitArith
  import opened Wrappers
  import opened Hashing

  /** The callback that returns the leaf hash of an entry index. */
  type LeafReader = nat -> Hash

  function MTH(entries: seq<Bytes>): Hash
    decreases |entries|
  {
    if |entries| == 0 then Sha256([])
    else if |entries| == 1 then LeafHash(entries[0])
    else
      var k := SplitPoint(|entries|);
      InteriorHash(MTH(entries[..k]), MTH(entries[k..]))
  }

  /** Every byte string that is hashed while MTH(entries) is computed. */
  ghost function Hashed(entries: seq<Bytes>): set<Bytes>
    decreases |entries|
  {
    if |entries| == 0 then {[]}
    else if |entries| == 1 then {LeafInput(entries[0])}
    else
      var k := SplitPoint(|entries|);
      {InteriorInput(MTH(entries[..k]), MTH(entries[k..]))} + Hashed(entries[..k]) + Hashed(entries[k..])
  }

  function ComputeSubtreeHash(start: nat, end: nat, hashAt: LeafReader): Hash
    requires start < end
    decreases end - start
  {
    var n := end - start;
    if n == 1 then hashAt(start)
    else
      var k := SplitPoint(n);
      InteriorHash(ComputeSubtreeHash(start, start + k, hashAt),
                   ComputeSubtreeHash(start + k, end, hashAt))
  }

  // ----- inclusion proofs -----

  function InclusionProof(index: int, size: int, hashAt: LeafReader): Result<seq<Hash>> {
    if index < 0 || index >= size then Err("index out of range")
    else Ok(InclusionPath(index, 0, size, hashAt))
  }

  /** inclusionProof: siblings from the leaf up to the root of [start, end). */
  function InclusionPath(index: nat, start: nat, end: nat, hashAt: LeafReader): seq<Hash>
    requires start <= index < end
    decreases end - start
  {
    var n := end - start;
    if n == 1 then []
    else
      var k := SplitPoint(n);
      if index - start < k then
        InclusionPath(index, start, start + k, hashAt) + [ComputeSubtreeHash(start + k, end, hashAt)]
      else
        InclusionPath(index, start + k, end, hashAt) + [ComputeSubtreeHash(start, start + k, hashAt)]
  }

  /** pathLen.  Any index is accepted, as in the source: one that lies outside
      the range follows the left or the right edge. */
  function PathLen(index: int, size: nat): nat
    decreases size
  {
    if size <= 1 then 0
    else
      var k := SplitPoint(size);
      if index < k then PathLen(index, k) + 1 else PathLen(index - k, size - k) + 1
  }

  function RootFromInclusionProof(index: int, size: nat, leafHash: Hash, proof: seq<Hash>): Hash
    requires size >= 1
  {
    RootFromProof(index, 0, size, leafHash, proof)
  }

  /** rootFromProof.  The source also threads a cursor, which is 0 in every
      call: each level indexes the whole proof by the length of the path below. */
  function RootFromProof(index: int, start: nat, end: nat, leafHash: Hash, proof: seq<Hash>): Hash
    requires start < end
    decreases end - start
  {
    var n := end - start;
    if n == 1 then leafHash
    else if |proof| == 0 then leafHash
    else
      var k := SplitPoint(n);
      if index - start < k then
        var left := RootFromProof(index, start, start + k, leafHash, proof);
        var at := PathLen(index - start, k);
        if at < |proof| then InteriorHash(left, proof[at]) else left
      else
        var right := RootFromProof(index, start + k, end, leafHash, proof);
        var at := PathLen(index - start - k, n - k);
        if at < |proof| then InteriorHash(proof[at], right) else right
  }

  /** Every byte string that RootFromProof hashes. */
  ghost function RootQueries(index: int, start: nat, end: nat, leafHash: Hash, proof: seq<Hash>): set<Bytes>
    requires start < end
    decreases end - start
  {
    var n := end - start;
    if n == 1 || |proof| == 0 then {}
    else
      var k := SplitPoint(n);
      if index - start < k then
        var left := RootFromProof(index, start, start + k, leafHash, proof);
        var at := PathLen(index - start, k);
        RootQueries(index, start, start + k, leafHash, proof) +
        (if at < |proof| then {InteriorInput(left, proof[at])} else {})
      else
        var right := RootFromProof(index, start + k, end, leafHash, proof);
        var at := PathLen(index - start - k, n - k);
        RootQueries(index, start + k, end, leafHash, proof) +
        (if at < |proof| then {InteriorInput(proof[at], right)} else {})
  }

  // ----- consistency proofs -----

  function ConsistencyProof(oldSize: int, newSize: int, hashAt: LeafReader): Result<seq<Hash>> {
    if oldSize < 0 || oldSize > newSize then Err("invalid sizes")
    else if oldSize == 0 then Ok([])
    else if oldSize == newSize then Ok([])
    else Ok(ConsistencyPath(oldSize, newSize, 0, true, hashAt))
  }

  /** consistencyProof, for the subtree of n leaves at start of which the old
      tree covers the first m. */
  function ConsistencyPath(m: nat, n: nat, start: nat, openRight: bool, hashAt: LeafReader): seq<Hash>
    requires 0 < m <= n
    decreases n
  {
    var end := start + n;
    if m == n then
      if openRight then [] else [ComputeSubtreeHash(start, end, hashAt)]
    else
      var k := SplitPoint(n);
      if m <= k then
        ConsistencyPath(m, k, start, openRight, hashAt) + [ComputeSubtreeHash(start + k, end, hashAt)]
      else
        ConsistencyPath(m - k, n - k, start + k, false, hashAt) + [ComputeSubtreeHash(start, start + k, hashAt)]
  }

  /** What verifyConsistencyRec returns: both subtree hashes and the advanced
      proof cursor, or nothing when the proof ran out. */
  datatype Replay = Short | Replayed(oldHash: Hash, newHash: Hash, next: nat)

  function VerifyConsistency(oldSize: int, newSize: int, proof: seq<Hash>, oldRoot: Hash, newRoot: Hash): bool {
    if oldSize > newSize || oldSize < 0 || newSize < 0 then false
    else if oldSize == newSize then |proof| == 0 && oldRoot == newRoot
    else if oldSize == 0 then |proof| == 0
    else if |proof| == 0 then false
    else
      var r := VerifyConsistencyRec(oldSize, newSize, true, oldRoot, proof, 0);
      r.Replayed? && r.next == |proof| && r.oldHash == oldRoot && r.newHash == newRoot
  }

  function VerifyConsistencyRec(m: nat, n: nat, openRight: bool, passThrough: Hash, proof: seq<Hash>,
                                cursor: nat): Replay
    requires 0 < m <= n
    decreases n
  {
    if m == n then
      if openRight then Replayed(passThrough, passThrough, cursor)
      else if cursor >= |proof| then Short
      else Replayed(proof[cursor], proof[cursor], cursor + 1)
    else
      var k := SplitPoint(n);
      if m <= k then
        var r := VerifyConsistencyRec(m, k, openRight, passThrough, proof, cursor);
        if r.Short? || r.next >= |proof| then Short
        else Replayed(r.oldHash, InteriorHash(r.newHash, proof[r.next]), r.next + 1)
      else
        var r := VerifyConsistencyRec(m - k, n - k, false, ZeroHash(), proof, cursor);
        if r.Short? || r.next >= |proof| then Short
        else Replayed(InteriorHash(proof[r.next], r.oldHash), InteriorHash(proof[r.next], r.newHash), r.next + 1)
  }

  /** Every byte string that VerifyConsistencyRec hashes. */
  ghost function ConsistencyQueries(m: nat, n: nat, openRight: bool, passThrough: Hash, proof: seq<Hash>,
                                    cursor: nat): set<Bytes>
    requires 0 < m <= n
    decreases n
  {
    if m == n then {}
    else
      var k := SplitPoint(n);
      if m <= k then
        var r := VerifyConsistencyRec(m, k, openRight, passThrough, proof, cursor);
        ConsistencyQueries(m, k, openRight, passThrough, proof, cursor) +
        (if r.Short? || r.next >= |proof| then {} else {InteriorInput(r.newHash, proof[r.next])})
      else
        var r := VerifyConsistencyRec(m - k, n - k, false, ZeroHash(), proof, cursor);
        ConsistencyQueries(m - k, n - k, false, ZeroHash(), proof, cursor) +
        (if r.Short? || r.next >= |proof| then {}
         else {InteriorInput(proof[r.next], r.oldHash), InteriorInput(proof[r.next], r.newHash)})
  }
}
