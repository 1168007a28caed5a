/** Whole runs of the log: any sequence of operations from the empty store. */
module LogRuns {
  import opened BitArith
  import opened Wrappers
  import opened Hashing
  import opened Merkle
  import opened MerkleProofs
  import opened BitWalk
  import opened NodeProofs
  import opened NodeTable
  import opened IssuanceLog

  /** The state after the operations, one after the other. */
  ghost function Run(ops: seq<Op>): LogState {
    if |ops| == 0 then LogState([], map[], [])
    else Step(Run(ops[..|ops| - 1]), ops[|ops| - 1])
  }

  ghost predicate GoodCheckpoint(cp: Checkpoint, entries: seq<LogEntry>) {
    0 < cp.treeSize <= |entries| && cp.rootHash == MTH(Leaves(entries)[..cp.treeSize])
  }

  /** What every reachable state satisfies: the table is right for the entries,
      and every checkpoint is the root of the prefix it names. */
  ghost predicate GoodState(s: LogState) {
    && IsStoredTable(s.nodes, Leaves(s.entries))
    && (|s.entries| >= 2 ==> IsTable(s.nodes, Leaves(s.entries), LEVELS))
    && (forall cp :: cp in s.checkpoints ==> GoodCheckpoint(cp, s.entries))
  }

  lemma LeavesGrow(entries: seq<LogEntry>, more: seq<LogEntry>)
    requires entries <= more
    ensures Leaves(entries) <= Leaves(more)
  {
  }

  lemma GoodCheckpointKept(cp: Checkpoint, entries: seq<LogEntry>, more: seq<LogEntry>)
    requires GoodCheckpoint(cp, entries) && entries <= more
    ensures GoodCheckpoint(cp, more)
  {
    hide MTH;
    LeavesGrow(entries, more);
    assert Leaves(more)[..cp.treeSize] == Leaves(entries)[..cp.treeSize];
  }

  /** Every operation keeps the entries and the checkpoints that are there. */
  lemma StepGrows(s: LogState, op: Op)
    ensures s.entries <= Step(s, op).entries
    ensures s.checkpoints <= Step(s, op).checkpoints
  {
    hide Table, MTH;
  }

  lemma StepKeepsGood(s: LogState, op: Op)
    requires GoodState(s)
    ensures GoodState(Step(s, op))
  {
    hide MTH, IsTable, GoodCheckpoint;
    var t := Step(s, op);
    StepGrows(s, op);
    forall cp | cp in t.checkpoints
      ensures GoodCheckpoint(cp, t.entries)
    {
      if cp in s.checkpoints {
        GoodCheckpointKept(cp, s.entries, t.entries);
      } else {
        NewCheckpointGood(t.entries);
      }
    }
  }

  lemma NewCheckpointGood(entries: seq<LogEntry>)
    requires |entries| > 0
    ensures GoodCheckpoint(Checkpoint(|entries|, MTH(Leaves(entries))), entries)
  {
    hide MTH;
    assert Leaves(entries)[..|entries|] == Leaves(entries);
  }

  /** Safety of whole runs. */
  lemma {:induction false} RunIsGood(ops: seq<Op>)
    ensures GoodState(Run(ops))
  {
    hide Step, GoodCheckpoint;
    if |ops| == 0 {
      EmptyIsGood();
    } else {
      RunIsGood(ops[..|ops| - 1]);
      StepKeepsGood(Run(ops[..|ops| - 1]), ops[|ops| - 1]);
    }
  }

  lemma EmptyIsGood()
    ensures GoodState(LogState([], map[], []))
  {
    hide NodeHash;
  }

  /** Append-only: a later state of a run extends every earlier one. */
  lemma {:induction false} RunGrows(ops: seq<Op>, i: nat)
    requires i <= |ops|
    ensures Run(ops[..i]).entries <= Run(ops).entries
    ensures Run(ops[..i]).checkpoints <= Run(ops).checkpoints
    decreases |ops|
  {
    hide Step;
    if i == |ops| {
      assert ops[..i] == ops;
    } else {
      var before := ops[..|ops| - 1];
      assert before[..i] == ops[..i];
      RunGrows(before, i);
      StepGrows(Run(before), ops[|ops| - 1]);
    }
  }

  /** A checkpoint saved anywhere in a run names a prefix of the final log. */
  lemma SavedCheckpointGood(ops: seq<Op>, i: nat, cp: Checkpoint)
    requires i <= |ops| && cp in Run(ops[..i]).checkpoints
    ensures GoodCheckpoint(cp, Run(ops).entries)
  {
    hide Run, GoodCheckpoint;
    RunIsGood(ops[..i]);
    RunGrows(ops, i);
    GoodCheckpointKept(cp, Run(ops[..i]).entries, Run(ops).entries);
  }

  /** Consistency over whole runs: between any two checkpoints ever saved, the
      proof read from the nodes of any later state is accepted. */
  lemma ConsistencyOverRuns(ops: seq<Op>, i: nat, j: nat, older: Checkpoint, newer: Checkpoint)
    requires i <= |ops| && j <= |ops| && |Run(ops).entries| < Pow2(LEVELS)
    requires older in Run(ops[..i]).checkpoints && newer in Run(ops[..j]).checkpoints
    requires older.treeSize <= newer.treeSize
    ensures var proof := ConsistencyProofFromNodes(older.treeSize, newer.treeSize, Reader(Run(ops).nodes));
            && proof.Ok?
            && VerifyConsistency(older.treeSize, newer.treeSize, proof.value, older.rootHash, newer.rootHash)
  {
    hide Run, MTH, VerifyConsistency, ConsistencyProof, ConsistencyProofFromNodes, InclusionProof,
         InclusionProofFromNodes, IsTable, ReadsCompleteNodes, ReadsLeaves, LeafHashes, Reader, RootFromNodes, Pow2;
    RunIsGood(ops);
    SavedCheckpointGood(ops, i, older);
    SavedCheckpointGood(ops, j, newer);
    var s := Run(ops);
    var m, n := older.treeSize, newer.treeSize;
    var prefix := Leaves(s.entries)[..n];
    TableServesPrefix(s.nodes, Leaves(s.entries), n);
    FastProofsAgree(Reader(s.nodes), LeafHashes(prefix), n);
    LeafHashesRead(prefix);
    ConsistencyProofAccepted(prefix, m, LeafHashes(prefix));
    assert prefix[..m] == Leaves(s.entries)[..m];
  }

  /** Inclusion over whole runs: for every checkpoint ever saved and every entry
      below it, the proof read from the nodes of any later state recombines from
      that entry's leaf hash to the checkpoint's root. */
  lemma InclusionOverRuns(ops: seq<Op>, i: nat, cp: Checkpoint, index: nat)
    requires i <= |ops| && |Run(ops).entries| < Pow2(LEVELS)
    requires cp in Run(ops[..i]).checkpoints && index < cp.treeSize
    ensures index < |Run(ops[..i]).entries| <= |Run(ops).entries|
    ensures Run(ops).entries[index] == Run(ops[..i]).entries[index]
    ensures var proof := InclusionProofFromNodes(index, cp.treeSize, Reader(Run(ops).nodes));
            && proof.Ok? && |proof.value| == PathLen(index, cp.treeSize) <= Log2Ceil(cp.treeSize)
            && RootFromInclusionProof(index, cp.treeSize, LeafHash(Run(ops).entries[index].data), proof.value)
               == cp.rootHash
  {
    hide Run, MTH, ConsistencyProof, ConsistencyProofFromNodes, InclusionPath, InclusionPathFromNodes, RootFromProof,
         PathLen, Log2Ceil, IsTable, ReadsCompleteNodes, LeafHashes, Reader, RootFromNodes, Pow2, ComputeSubtreeHash;
    RunIsGood(ops[..i]);
    RunIsGood(ops);
    RunGrows(ops, i);
    SavedCheckpointGood(ops, i, cp);
    var s := Run(ops);
    var n := cp.treeSize;
    var prefix := Leaves(s.entries)[..n];
    var hashAt := LeafHashes(prefix);
    TableServesPrefix(s.nodes, Leaves(s.entries), n);
    FastProofsAgree(Reader(s.nodes), hashAt, n);
    LeafHashesRead(prefix);
    InclusionPathLength(index, 0, n, hashAt);
    PathLenBound(index, n);
    InclusionComplete(index, 0, n, hashAt, InclusionPath(index, 0, n, hashAt));
    SubtreeIsMTH(0, n, hashAt, prefix);
    assert prefix[0..n] == prefix && prefix[index] == s.entries[index].data;
  }

  /** The leaves that a checkpoint of this size commits to. */
  function LeavesBelow(entries: seq<LogEntry>, size: nat): seq<Bytes> {
    if size <= |entries| then Leaves(entries)[..size] else Leaves(entries)
  }

  /** The checkpoint that operation j of a run saves. */
  ghost function SavedBy(ops: seq<Op>, j: nat): Checkpoint
    requires j < |ops|
  {
    var entries := Run(ops[..j]).entries;
    Checkpoint(|entries|, MTH(Leaves(entries)))
  }

  /** The proof read from the nodes of the last state for the entry appended by
      operation k and the checkpoint saved by operation j. */
  ghost function IssuedProof(ops: seq<Op>, k: nat, j: nat): Result<seq<Hash>>
    requires k < |ops| && j < |ops|
  {
    InclusionProofFromNodes(|Run(ops[..k]).entries|, SavedBy(ops, j).treeSize, Reader(Run(ops).nodes))
  }

  lemma AppendedThenSaved(ops: seq<Op>, k: nat, j: nat, entry: LogEntry)
    requires k < j < |ops| && ops[k] == AppendDirectEntry(entry) && ops[j] == CreateCheckpoint
    ensures var index, saved := |Run(ops[..k]).entries|, Run(ops[..j + 1]).checkpoints;
            && |saved| > 0 && saved[|saved| - 1] == SavedBy(ops, j)
            && index < SavedBy(ops, j).treeSize <= |Run(ops).entries| && Run(ops).entries[index] == entry
            && (j == k + 1 ==> SavedBy(ops, j).treeSize == index + 1)
  {
    hide MTH, Run, Table, LeafHash, Leaves;
    RunStep(ops, k);
    RunStep(ops, j);
    RunGrows(ops[..j], k + 1);
    RunGrows(ops, k + 1);
    RunGrows(ops, j);
    assert ops[..j][..k + 1] == ops[..k + 1];
  }

  /** Issuing with an embedded proof: an entry appended directly, a checkpoint
      created at any later point, and the proof that is then read, now or after
      more operations, at the index that the append returned. */
  lemma IssuedProofRecombines(ops: seq<Op>, k: nat, j: nat, entry: LogEntry)
    requires k < j < |ops| && ops[k] == AppendDirectEntry(entry) && ops[j] == CreateCheckpoint
    requires |Run(ops).entries| < Pow2(LEVELS)
    ensures var index, cp, proof := |Run(ops[..k]).entries|, SavedBy(ops, j), IssuedProof(ops, k, j);
            && cp in Run(ops[..j + 1]).checkpoints && index < cp.treeSize
            && proof.Ok?
            && RootFromInclusionProof(index, cp.treeSize, LeafHash(entry.data), proof.value) == cp.rootHash
  {
    hide MTH, Run, InclusionPath, InclusionPathFromNodes, RootFromProof, PathLen, Reader, Pow2, Table, LeafHash,
         Leaves, SavedBy;
    AppendedThenSaved(ops, k, j, entry);
    InclusionOverRuns(ops, j + 1, SavedBy(ops, j), |Run(ops[..k]).entries|);
  }

  /** No issued proof has more than 64 hashes. */
  lemma IssuedProofShort(ops: seq<Op>, k: nat, j: nat, entry: LogEntry)
    requires k < j < |ops| && ops[k] == AppendDirectEntry(entry) && ops[j] == CreateCheckpoint
    requires |Run(ops).entries| < Pow2(LEVELS)
    ensures IssuedProof(ops, k, j).Ok? && |IssuedProof(ops, k, j).value| <= LEVELS
  {
    hide MTH, Run, InclusionPath, InclusionPathFromNodes, RootFromProof, PathLen, Reader, Pow2, Table, LeafHash,
         Leaves, SavedBy, Log2Ceil;
    AppendedThenSaved(ops, k, j, entry);
    InclusionOverRuns(ops, j + 1, SavedBy(ops, j), |Run(ops[..k]).entries|);
    Log2CeilIsLeast(SavedBy(ops, j).treeSize, LEVELS);
  }

  /** The same proof under the bit walk, which is what checks the certificates of
      the local CA: accepted exactly where the walk covers.  When the checkpoint
      follows the append at once, that is when its size is a power of two. */
  lemma IssuedProofWalksExactly(ops: seq<Op>, k: nat, j: nat, entry: LogEntry)
    requires k < j < |ops| && ops[k] == AppendDirectEntry(entry) && ops[j] == CreateCheckpoint
    requires |Run(ops).entries| < Pow2(LEVELS)
    requires CollisionFree(Hashed(LeavesBelow(Run(ops).entries, SavedBy(ops, j).treeSize)) +
                           WalkQueries(LeafHash(entry.data), |Run(ops[..k]).entries|, IssuedProof(ops, k, j).GetOr([])))
    ensures var index, cp, proof := |Run(ops[..k]).entries|, SavedBy(ops, j), IssuedProof(ops, k, j);
            && index < cp.treeSize && proof.Ok?
            && (Walk(LeafHash(entry.data), index, proof.value) == cp.rootHash <==> WalkCovers(index, cp.treeSize))
            && (j == k + 1 ==>
                  (Walk(LeafHash(entry.data), index, proof.value) == cp.rootHash <==> IsPow2(cp.treeSize)))
  {
    hide MTH, Hashed, Run, InclusionPath, InclusionPathFromNodes, ConsistencyProof, ConsistencyProofFromNodes, Reader,
         Pow2, Table, LeafHash, SavedBy, Walk, WalkQueries, WalkCovers, CollisionFree, IsStoredTable, LeafHashes,
         ReadsLeaves, ReadsCompleteNodes, RootFromNodes, IsPow2, ComputeSubtreeHash;
    AppendedThenSaved(ops, k, j, entry);
    var s, index, cp := Run(ops), |Run(ops[..k]).entries|, SavedBy(ops, j);
    SavedCheckpointGood(ops, j + 1, cp);
    RunIsGood(ops);
    var prefix := LeavesBelow(s.entries, cp.treeSize);
    var hashAt := LeafHashes(prefix);
    TableServesPrefix(s.nodes, Leaves(s.entries), cp.treeSize);
    FastProofsAgree(Reader(s.nodes), hashAt, cp.treeSize);
    LeafHashesRead(prefix);
    assert prefix[index] == entry.data;
    GeneratedProofAcceptedExactly(index, prefix, hashAt);
    LastCoveredExactly(cp.treeSize);
  }

  lemma RunStep(ops: seq<Op>, i: nat)
    requires i < |ops|
    ensures Run(ops[..i + 1]) == Step(Run(ops[..i]), ops[i])
  {
    hide Step;
    assert ops[..i + 1][..i] == ops[..i];
  }

  /** The node table over whole runs.  Once two entries are in the log every
      level is stored, promoted right-edge nodes included, and nothing else. */
  lemma TableOverRuns(ops: seq<Op>, level: nat, idx: nat)
    requires |Run(ops).entries| >= 2
    ensures var s := Run(ops);
            var lo, n := idx * Pow2(level), |s.entries|;
            && ((level, idx) in s.nodes <==> level < 64 && lo < n)
            && ((level, idx) in s.nodes ==>
                  lo < n && s.nodes[(level, idx)] ==
                            MTH(Leaves(s.entries)[lo..if lo + Pow2(level) <= n then lo + Pow2(level) else n]))
  {
    hide Run, MTH, IsTable, Pow2, GoodCheckpoint, IsStoredTable;
    RunIsGood(ops);
    TableRow(Run(ops).nodes, Leaves(Run(ops).entries), level, idx);
  }

  /** Whatever 32 bytes a client holds for some size: if any proof is accepted
      from them to a saved checkpoint, they are the root of that many first
      entries of the log, now and later. */
  lemma AcceptedRootIsPrefix(ops: seq<Op>, i: nat, cp: Checkpoint, oldSize: int, oldRoot: Hash, proof: seq<Hash>)
    requires i <= |ops| && cp in Run(ops[..i]).checkpoints && oldSize != 0
    requires CollisionFree(ConsistencyInputs(oldSize, oldRoot, LeavesBelow(Run(ops).entries, cp.treeSize), proof))
    requires VerifyConsistency(oldSize, cp.treeSize, proof, oldRoot, cp.rootHash)
    ensures 0 < oldSize <= cp.treeSize <= |Run(ops).entries|
    ensures oldRoot == MTH(Leaves(Run(ops).entries)[..oldSize])
  {
    hide Run, MTH, VerifyConsistency, CollisionFree, ConsistencyInputs, LeafHashes;
    SavedCheckpointGood(ops, i, cp);
    var b := LeavesBelow(Run(ops).entries, cp.treeSize);
    LeafHashesRead(b);
    ConsistencyAcceptsExactly(oldSize, oldRoot, b, LeafHashes(b), proof);
    assert b[..oldSize] == Leaves(Run(ops).entries)[..oldSize];
  }
}
