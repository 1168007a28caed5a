/** The issuance log of internal/issuancelog/issuancelog.go over the tables of
    internal/store/store.go.  Each method is one successful operation. */
module IssuanceLog {
  import opened BitArith
  import opened Wrappers
  import opened Hashing
  import opened Merkle
  import opened MerkleProofs
  import opened NodeProofs
  import opened NodeTable

  /** A row of log_entries; its index is its position. */
  datatype LogEntry = LogEntry(entryType: int, data: Bytes, serial: string, caCertId: string)

  datatype Checkpoint = Checkpoint(treeSize: nat, rootHash: Hash)

  const ENTRY_TYPE_NULL := 0
  const ENTRY_TYPE_CERTIFICATE := 1

  /** What the log keeps of a row of the CA database. */
  datatype Certificate = Certificate(serial: string, blob: Bytes, issuerId: string)

  function LittleEndian(x: nat, width: nat): Bytes {
    if width == 0 then [] else [(x % 256) as byte] + LittleEndian(x / 256, width - 1)
  }

  function BuildEntry(cert: Certificate): LogEntry {
    LogEntry(ENTRY_TYPE_CERTIFICATE,
             LittleEndian(ENTRY_TYPE_CERTIFICATE, 2) + LittleEndian(|cert.blob|, 4) + cert.blob,
             cert.serial, cert.issuerId)
  }

  function BuildEntries(certs: seq<Certificate>): seq<LogEntry> {
    seq(|certs|, i requires 0 <= i < |certs| => BuildEntry(certs[i]))
  }

  lemma LittleEndianStep(x: nat, width: nat)
    requires width > 0
    ensures LittleEndian(x, width) == [(x % 256) as byte] + LittleEndian(x / 256, width - 1)
  {
  }

  /** The four bytes of a length, least significant first, wrapped at 2^32. */
  lemma LengthBytes(x: nat)
    ensures var b := LittleEndian(x, 4);
            && |b| == 4
            && b[0] as nat + 256 * b[1] as nat + 0x1_0000 * b[2] as nat + 0x100_0000 * b[3] as nat == x % 0x1_0000_0000
  {
    hide LittleEndian;
    var x1, x2, x3 := x / 256, x / 256 / 256, x / 256 / 256 / 256;
    LittleEndianStep(x, 4);
    LittleEndianStep(x1, 3);
    LittleEndianStep(x2, 2);
    LittleEndianStep(x3, 1);
    NoBytes(x3 / 256);
    assert LittleEndian(x, 4) == [(x % 256) as byte, (x1 % 256) as byte, (x2 % 256) as byte, (x3 % 256) as byte];
    LowByte(x, 0x100_0000);
    LowByte(x1, 0x1_0000);
    LowByte(x2, 256);
  }

  /** The lowest byte of x modulo 256 * m, and the rest. */
  lemma LowByte(x: nat, m: nat)
    requires m > 0
    ensures x % (256 * m) == x % 256 + 256 * (x / 256 % m)
  {
    var q, r, y := x / 256, x % 256, x / 256 % m;
    assert q == (q / m) * m + y;
    assert 256 * q == (q / m) * (256 * m) + 256 * y;
    DivModUnique(x, 256 * m, q / m, 256 * y + r);
  }

  lemma NoBytes(x: nat)
    ensures LittleEndian(x, 0) == []
  {
  }

  /** What the log keeps of a certificate, byte by byte. */
  lemma EntryBytes(cert: Certificate)
    ensures var e, n := BuildEntry(cert), |cert.blob|;
            && e.entryType == 1 && e.serial == cert.serial && e.caCertId == cert.issuerId
            && |e.data| == 6 + n && e.data[..2] == [1, 0] && e.data[6..] == cert.blob
            && e.data[2] as nat + 256 * e.data[3] as nat + 0x1_0000 * e.data[4] as nat + 0x100_0000 * e.data[5] as nat
               == n % 0x1_0000_0000
  {
    LengthBytes(|cert.blob|);
    TypeBytes();
    hide LittleEndian;
    var e := BuildEntry(cert);
    assert e.data == [1, 0] + LittleEndian(|cert.blob|, 4) + cert.blob;
  }

  lemma TypeBytes()
    ensures LittleEndian(1, 2) == [1, 0]
  {
  }

  lemma AllEntryBytes(certs: seq<Certificate>)
    ensures forall i :: 0 <= i < |certs| ==>
              var e, n := BuildEntry(certs[i]), |certs[i].blob|;
              && e.entryType == 1 && e.serial == certs[i].serial && e.caCertId == certs[i].issuerId
              && |e.data| == 6 + n && e.data[..2] == [1, 0] && e.data[6..] == certs[i].blob
              && e.data[2] as nat + 256 * e.data[3] as nat + 0x1_0000 * e.data[4] as nat
                 + 0x100_0000 * e.data[5] as nat == n % 0x1_0000_0000
  {
    hide BuildEntry;
    forall i | 0 <= i < |certs| {
      EntryBytes(certs[i]);
    }
  }

  function NullEntry(): LogEntry {
    LogEntry(ENTRY_TYPE_NULL, [0, 0], "", "")
  }

  /** The byte strings that are leaf-hashed. */
  function Leaves(entries: seq<LogEntry>): (leaves: seq<Bytes>)
    ensures |leaves| == |entries|
  {
    seq(|entries|, i requires 0 <= i < |entries| => entries[i].data)
  }

  // ----- the specification of one operation -----

  datatype LogState = LogState(entries: seq<LogEntry>, nodes: Nodes, checkpoints: seq<Checkpoint>)

  datatype Op =
    | Initialize
    | AppendDirectEntry(entry: LogEntry)
    | AppendCertificates(certs: seq<Certificate>)
    | CreateCheckpoint

  ghost function Appended(s: LogState, entries: seq<LogEntry>): LogState {
    var all := s.entries + entries;
    LogState(all, Table(Leaves(all), LEVELS), s.checkpoints)
  }

  ghost function Step(s: LogState, op: Op): LogState {
    match op
    case Initialize =>
      if |s.entries| > 0 then s
      else LogState([NullEntry()], Table(Leaves([NullEntry()]), 1), s.checkpoints)
    case AppendDirectEntry(entry) => Appended(s, [entry])
    case AppendCertificates(certs) => if |certs| == 0 then s else Appended(s, BuildEntries(certs))
    case CreateCheckpoint =>
      if |s.entries| == 0 then s
      else s.(checkpoints := s.checkpoints + [Checkpoint(|s.entries|, MTH(Leaves(s.entries)))])
  }

  // ----- recomputing the interior nodes -----

  /** While level `level` is being recomputed: the levels below it are right for
      all leaves, the others are still those of the first oldSize leaves. */
  ghost predicate Mixed(nodes: Nodes, leaves: seq<Bytes>, oldSize: nat, oldTop: nat, level: nat)
    requires oldSize <= |leaves|
  {
    && (forall l: nat, i: nat ::
          (l, i) in nodes <==> if l < level then InTree(l, i, |leaves|) else l < oldTop && InTree(l, i, oldSize))
    && (forall l: nat, i: nat ::
          (l, i) in nodes ==>
            nodes[(l, i)] == if l < level then NodeHash(leaves, l, i) else NodeHash(leaves[..oldSize], l, i))
  }

  /** The rows that recomputeInterior writes at one level. */
  ghost predicate IsLevelBatch(batch: Nodes, leaves: seq<Bytes>, level: nat, first: nat, past: nat) {
    && (forall key :: key in batch <==> key.0 == level && first <= key.1 < past)
    && (forall key :: key in batch ==> InTree(level, key.1, |leaves|) && batch[key] == NodeHash(leaves, level, key.1))
  }

  /** The inner loop of recomputeInterior: missing left children are skipped,
      a left child without a right sibling is promoted. */
  method RecomputeLevel(nodes: Nodes, level: nat, startIdx: nat, endIdx: nat,
                        ghost leaves: seq<Bytes>, ghost oldSize: nat, ghost oldTop: nat) returns (batch: Nodes)
    requires level >= 1 && oldSize <= |leaves| && |leaves| >= 1
    requires Mixed(nodes, leaves, oldSize, oldTop, level)
    requires startIdx <= endIdx == ShiftRight(|leaves| - 1, level)
    ensures IsLevelBatch(batch, leaves, level, startIdx, endIdx + 1)
  {
    hide NodeHash, InTree, ShiftRight, InteriorHash;
    batch := map[];
    var idx := startIdx;
    while idx <= endIdx
      invariant startIdx <= idx <= endIdx + 1
      invariant IsLevelBatch(batch, leaves, level, startIdx, idx)
    {
      InTreeExactly(level, idx, |leaves|);
      NodeFromChildren(leaves, level, idx);
      var leftChild, rightChild := idx * 2, idx * 2 + 1;
      assert (level - 1, leftChild) in nodes;
      if (level - 1, leftChild) in nodes {
        var left := nodes[(level - 1, leftChild)];
        if (level - 1, rightChild) in nodes {
          batch := batch[(level, idx) := InteriorHash(left, nodes[(level - 1, rightChild)])];
        } else {
          batch := batch[(level, idx) := left];
        }
      }
      idx := idx + 1;
    }
  }

  /** Writing the batch of a level moves the boundary of Mixed up by one. */
  lemma LevelWritten(nodes: Nodes, batch: Nodes, leaves: seq<Bytes>, oldSize: nat, oldTop: nat, level: nat)
    requires oldSize < |leaves| && 1 <= level < LEVELS
    requires oldTop == LEVELS || (oldTop == 1 && oldSize <= 1)
    requires Mixed(nodes, leaves, oldSize, oldTop, level)
    requires IsLevelBatch(batch, leaves, level, ShiftRight(oldSize, level), ShiftRight(|leaves| - 1, level) + 1)
    ensures Mixed(nodes + batch, leaves, oldSize, oldTop, level + 1)
  {
    hide NodeHash, InTree, ShiftRight, Complete;
    var now := nodes + batch;
    forall l: nat, i: nat
      ensures (l, i) in now <==>
              if l < level + 1 then InTree(l, i, |leaves|) else l < oldTop && InTree(l, i, oldSize)
      ensures (l, i) in now ==>
              now[(l, i)] == if l < level + 1 then NodeHash(leaves, l, i) else NodeHash(leaves[..oldSize], l, i)
    {
      if l == level {
        InTreeExactly(level, i, |leaves|);
        if i < ShiftRight(oldSize, level) {
          OldNodeKept(leaves, oldSize, oldTop, level, i);
        } else if (l, i) in nodes {
          OldInNew(level, i, oldSize, |leaves|);
        }
      }
    }
  }

  lemma OldInNew(level: nat, i: nat, oldSize: nat, newSize: nat)
    requires InTree(level, i, oldSize) && oldSize <= newSize
    ensures InTree(level, i, newSize)
  {
  }

  lemma OldNodeKept(leaves: seq<Bytes>, oldSize: nat, oldTop: nat, level: nat, i: nat)
    requires oldSize <= |leaves| && 1 <= level < LEVELS && i < ShiftRight(oldSize, level)
    requires oldTop == LEVELS || (oldTop == 1 && oldSize <= 1)
    ensures oldTop == LEVELS && InTree(level, i, oldSize) && InTree(level, i, |leaves|)
    ensures NodeHash(leaves[..oldSize], level, i) == NodeHash(leaves, level, i)
  {
    hide NodeHash, ShiftRight, NodeStart;
    CompleteExactly(level, i, oldSize);
    Pow2Monotone(1, level);
    assert Pow2(1) == 2;
    CompleteNodeStable(leaves[..oldSize], leaves, level, i);
  }

  /** Leaf rows written after the entries: the level-0 boundary. */
  ghost predicate IsLeafBatch(batch: Nodes, leaves: seq<Bytes>, oldSize: nat) {
    && (forall key :: key in batch <==> key.0 == 0 && oldSize <= key.1 < |leaves|)
    && (forall key :: key in batch ==> batch[key] == LeafHash(leaves[key.1]))
  }

  lemma LeavesWritten(nodes: Nodes, batch: Nodes, leaves: seq<Bytes>, oldSize: nat, oldTop: nat)
    requires oldSize <= |leaves| && oldTop >= 1
    requires IsTable(nodes, leaves[..oldSize], oldTop) && IsLeafBatch(batch, leaves, oldSize)
    ensures Mixed(nodes + batch, leaves, oldSize, oldTop, 1)
  {
    hide NodeHash, InTree, LeafHash;
    var now := nodes + batch;
    forall l: nat, i: nat
      ensures (l, i) in now <==> if l < 1 then InTree(l, i, |leaves|) else l < oldTop && InTree(l, i, oldSize)
      ensures (l, i) in now ==>
              now[(l, i)] == if l < 1 then NodeHash(leaves, l, i) else NodeHash(leaves[..oldSize], l, i)
    {
      if l == 0 {
        LeafNode(leaves, i);
        LeafNode(leaves[..oldSize], i);
      }
    }
  }

  lemma LeafNode(leaves: seq<Bytes>, i: nat)
    ensures InTree(0, i, |leaves|) <==> i < |leaves|
    ensures i < |leaves| ==> NodeHash(leaves, 0, i) == LeafHash(leaves[i])
  {
    hide MTH, LeafHash;
    assert NodeStart(0, i) == i;
    if i < |leaves| {
      LeafSlice(leaves, i);
    }
  }

  lemma MixedDone(nodes: Nodes, leaves: seq<Bytes>, oldSize: nat, oldTop: nat)
    requires oldSize <= |leaves| && oldTop <= LEVELS && Mixed(nodes, leaves, oldSize, oldTop, LEVELS)
    ensures IsTable(nodes, leaves, LEVELS)
  {
    hide NodeHash, InTree;
  }

  // ----- the doubling-loop split -----

  /** The loop `for k*2 < n { k *= 2 }` of computeMTH and of the batcher finds
      the split that splitPoint takes from the bit length. */
  method DoublingSplit(n: nat) returns (k: nat)
    requires n >= 2
    ensures k == SplitPoint(n)
  {
    hide SplitPoint;
    k := 1;
    ghost var e := 0;
    while k * 2 < n
      invariant k == Pow2(e) && k < n
      decreases n - k
    {
      k, e := k * 2, e + 1;
    }
    SplitPointUnique(n, e);
  }

  /** computeMTH: the tree hash of [start, start+n) from the leaf rows.  A
      missing row is an error. */
  method ComputeMTH(nodes: Nodes, start: nat, n: nat, ghost leaves: seq<Bytes>) returns (r: Result<Hash>)
    requires start + n <= |leaves|
    requires forall i: nat :: i < |leaves| ==> (0, i) in nodes && nodes[(0, i)] == LeafHash(leaves[i])
    ensures r == Ok(MTH(leaves[start..start + n]))
    decreases n
  {
    hide SplitPoint, LeafHash, InteriorHash, InteriorInput, Hashed, MTH;
    if n == 0 {
      EmptyTree(leaves[start..start + n]);
      return Ok(Sha256([]));
    }
    if n == 1 {
      LeafSlice(leaves, start);
      if (0, start) !in nodes {
        return Err("no such node");
      }
      return Ok(nodes[(0, start)]);
    }
    var k := DoublingSplit(n);
    TreeStep(leaves, start, start + n, k);
    var left := ComputeMTH(nodes, start, k, leaves);
    if left.Err? {
      return left;
    }
    var right := ComputeMTH(nodes, start + k, n - k, leaves);
    if right.Err? {
      return right;
    }
    return Ok(InteriorHash(left.value, right.value));
  }

  // ----- the log -----

  class Log {
    var entries: seq<LogEntry>
    var nodes: Nodes
    var checkpoints: seq<Checkpoint>

    ghost predicate Valid()
      reads this
    {
      IsStoredTable(nodes, Leaves(entries))
    }

    ghost function State(): LogState
      reads this
    {
      LogState(entries, nodes, checkpoints)
    }

    constructor ()
      ensures Valid() && State() == LogState([], map[], [])
    {
      entries, nodes, checkpoints := [], map[], [];
    }

    method Initialize()
      requires Valid()
      modifies this
      ensures Valid() && State() == Step(old(State()), Op.Initialize)
      ensures entries == if |old(entries)| > 0 then old(entries) else [LogEntry(0, [0, 0], "", "")]
      ensures checkpoints == old(checkpoints)
    {
      if |entries| > 0 {
        return;
      }
      EmptyTable(nodes, Leaves(entries));
      var first := NullEntry();
      entries := [first];
      nodes := nodes[(0, 0) := LeafHash(first.data)];
      InitialTable(nodes, Leaves(entries));
      TableUnique(nodes, Leaves(entries), 1);
    }

    /** Appends one entry at the current size and returns its index. */
    method AppendDirectEntry(entry: LogEntry) returns (index: nat)
      requires Valid()
      modifies this
      ensures Valid() && State() == Step(old(State()), Op.AppendDirectEntry(entry))
      ensures index == |old(entries)| && entries == old(entries) + [entry] && checkpoints == old(checkpoints)
    {
      hide LeafHash, Mixed, IsTable;
      index := |entries|;
      ghost var before := Leaves(entries);
      entries := entries + [entry];
      ghost var leaves := Leaves(entries);
      assert leaves[..index] == before;
      nodes := nodes[(0, index) := LeafHash(entry.data)];
      ghost var oldTop := if IsTable(old(nodes), before, LEVELS) then LEVELS else 1;
      DirectLeafWritten(old(nodes), leaves, index, oldTop);
      RecomputeInterior(index, |entries|, oldTop);
      TableUnique(nodes, leaves, LEVELS);
    }

    method AppendCertificates(certs: seq<Certificate>) returns (count: nat, newSize: nat)
      requires Valid()
      modifies this
      ensures Valid() && State() == Step(old(State()), Op.AppendCertificates(certs))
      ensures count == |certs| && newSize == |entries| == |old(entries)| + |certs|
      ensures entries[..|old(entries)|] == old(entries) && checkpoints == old(checkpoints)
      ensures forall i :: 0 <= i < |certs| ==>
                var e, n := entries[|old(entries)| + i], |certs[i].blob|;
                && e.entryType == 1 && e.serial == certs[i].serial && e.caCertId == certs[i].issuerId
                && |e.data| == 6 + n && e.data[..2] == [1, 0] && e.data[6..] == certs[i].blob
                && e.data[2] as nat + 256 * e.data[3] as nat + 0x1_0000 * e.data[4] as nat
                   + 0x100_0000 * e.data[5] as nat == n % 0x1_0000_0000
    {
      hide LeafHash, BuildEntry, Mixed, IsTable;
      if |certs| == 0 {
        return 0, |entries|;
      }
      var currentSize := |entries|;
      ghost var before := Leaves(entries);
      var built: seq<LogEntry> := [];
      var batch: Nodes := map[];
      for i := 0 to |certs|
        invariant built == BuildEntries(certs[..i])
        invariant |built| == i
        invariant forall key :: key in batch <==> key.0 == 0 && currentSize <= key.1 < currentSize + i
        invariant forall key :: key in batch ==> batch[key] == LeafHash(built[key.1 - currentSize].data)
      {
        var entry := BuildEntry(certs[i]);
        built := built + [entry];
        batch := batch[(0, currentSize + i) := LeafHash(entry.data)];
      }
      assert certs[..|certs|] == certs;
      entries := entries + built;
      ghost var leaves := Leaves(entries);
      assert leaves[..currentSize] == before;
      BatchIsLeafBatch(batch, leaves, built, currentSize);
      nodes := nodes + batch;
      ghost var oldTop := if IsTable(old(nodes), before, LEVELS) then LEVELS else 1;
      LeavesWritten(old(nodes), batch, leaves, currentSize, oldTop);
      newSize := currentSize + |certs|;
      RecomputeInterior(currentSize, newSize, oldTop);
      TableUnique(nodes, leaves, LEVELS);
      count := |certs|;
      forall i | 0 <= i < |certs|
        ensures entries[currentSize + i] == BuildEntry(certs[i])
      {
        assert entries[currentSize + i] == built[i];
      }
      AllEntryBytes(certs);
    }

    /** recomputeInterior: levels 1 to 63, bottom up, from the first node that
        the new leaves touch to the right edge. */
    method RecomputeInterior(oldSize: nat, newSize: nat, ghost oldTop: nat)
      requires oldSize < newSize == |entries|
      requires oldTop == LEVELS || (oldTop == 1 && oldSize <= 1)
      requires Mixed(nodes, Leaves(entries), oldSize, oldTop, 1)
      modifies this`nodes
      ensures IsTable(nodes, Leaves(entries), LEVELS)
    {
      hide Mixed, IsTable, IsLevelBatch, ShiftRight;
      ghost var leaves := Leaves(entries);
      var level := 1;
      while level < 64
        invariant 1 <= level <= 64
        invariant Mixed(nodes, leaves, oldSize, oldTop, level)
      {
        var startIdx := ShiftRight(oldSize, level);
        var endIdx := ShiftRight(newSize - 1, level);
        ShiftMonotone(oldSize, newSize - 1, level);
        if startIdx > endIdx {
          break;
        }
        var batch := RecomputeLevel(nodes, level, startIdx, endIdx, leaves, oldSize, oldTop);
        BatchNonempty(batch, leaves, level, startIdx, endIdx + 1);
        if |batch| == 0 {
          break;
        }
        LevelWritten(nodes, batch, leaves, oldSize, oldTop, level);
        nodes := nodes + batch;
        level := level + 1;
      }
      MixedDone(nodes, leaves, oldSize, oldTop);
    }

    /** Fails on the empty log; otherwise saves the size and the root. */
    method CreateCheckpoint() returns (r: Result<Checkpoint>)
      requires Valid()
      modifies this`checkpoints
      ensures Valid() && State() == Step(old(State()), Op.CreateCheckpoint)
      ensures |entries| == 0 ==> r.Err?
      ensures |entries| > 0 ==> r == Ok(Checkpoint(|entries|, MTH(Leaves(entries))))
    {
      var treeSize := |entries|;
      if treeSize == 0 {
        return Err("log is empty");
      }
      var root := ComputeRootHash(treeSize);
      if root.Err? {
        return Err("root hash");
      }
      var cp := Checkpoint(treeSize, root.value);
      checkpoints := checkpoints + [cp];
      return Ok(cp);
    }

    /** computeRootHash: one node read at level ceil(log2 n), or, when that row
        is missing, a recomputation from the leaves. */
    method ComputeRootHash(treeSize: nat) returns (r: Result<Hash>)
      requires Valid() && treeSize == |entries|
      ensures r == Ok(MTH(Leaves(entries)))
      ensures |entries| == 0 ==> r == Ok(Sha256([]))
      ensures |entries| == 1 ==> r == Ok(Sha256([0] + entries[0].data))
      ensures forall e: nat :: Pow2(e) < |entries| <= 2 * Pow2(e) ==>
                var leaves := Leaves(entries);
                r == Ok(Sha256([1] + MTH(leaves[..Pow2(e)]) + MTH(leaves[Pow2(e)..])))
    {
      hide MTH, LeafHash, ShiftRight, Log2Ceil;
      ghost var leaves := Leaves(entries);
      forall e: nat
        ensures |leaves| == 0 ==> MTH(leaves) == Sha256([])
        ensures |leaves| == 1 ==> MTH(leaves) == Sha256([0] + leaves[0])
        ensures Pow2(e) < |leaves| <= 2 * Pow2(e) ==>
                  MTH(leaves) == Sha256([1] + MTH(leaves[..Pow2(e)]) + MTH(leaves[Pow2(e)..]))
      {
        RootBytes(leaves, e);
      }
      assert leaves[0..treeSize] == leaves;
      if treeSize == 0 {
        EmptyTree(leaves);
        return Ok(Sha256([]));
      }
      StoredLeaves(nodes, leaves);
      if treeSize == 1 {
        LeafSlice(leaves, 0);
        if (0, 0) !in nodes {
          return Err("no such node");
        }
        return Ok(nodes[(0, 0)]);
      }
      var maxLevel, n := 0, treeSize;
      while n > 1
        invariant n >= 1 && maxLevel + Log2Ceil(n) == Log2Ceil(treeSize)
        decreases n
      {
        HalvingStep(n);
        n := (n + 1) / 2;
        maxLevel := maxLevel + 1;
      }
      LogOfOne();
      if (maxLevel, 0) in nodes {
        RootNode(nodes, leaves, maxLevel);
        return Ok(nodes[(maxLevel, 0)]);
      }
      r := ComputeMTH(nodes, 0, treeSize, leaves);
    }
  }

  // ----- small facts used by the methods -----

  lemma EmptyTree(leaves: seq<Bytes>)
    requires |leaves| == 0
    ensures MTH(leaves) == Sha256([])
  {
  }

  lemma LogOfOne()
    ensures Log2Ceil(1) == 0
  {
  }

  /** One round of the counting loop takes one level off. */
  lemma HalvingStep(n: nat)
    requires n >= 2
    ensures Log2Ceil((n + 1) / 2) == Log2Ceil(n) - 1
  {
    assert (n + 1) / 2 - 1 == (n - 1) / 2;
  }

  lemma StoredLeaves(nodes: Nodes, leaves: seq<Bytes>)
    requires IsStoredTable(nodes, leaves)
    ensures forall i: nat :: i < |leaves| ==> (0, i) in nodes && nodes[(0, i)] == LeafHash(leaves[i])
  {
    hide NodeHash, InTree, LeafHash;
    forall i: nat | i < |leaves|
      ensures (0, i) in nodes && nodes[(0, i)] == LeafHash(leaves[i])
    {
      LeafNode(leaves, i);
    }
  }

  lemma RootNode(nodes: Nodes, leaves: seq<Bytes>, level: nat)
    requires IsStoredTable(nodes, leaves) && |leaves| >= 1
    requires level == Log2Ceil(|leaves|) && (level, 0) in nodes
    ensures nodes[(level, 0)] == MTH(leaves)
  {
    hide MTH, Log2Ceil;
    Log2CeilIsLeast(|leaves|, level);
    assert NodeStart(level, 0) == 0;
    assert leaves[0..|leaves|] == leaves;
  }

  lemma EmptyTable(nodes: Nodes, leaves: seq<Bytes>)
    requires |leaves| == 0 && IsStoredTable(nodes, leaves)
    ensures nodes == map[]
  {
    hide NodeHash;
    forall key: (nat, nat)
      ensures key !in nodes
    {
      assert key == (key.0, key.1);
      assert !InTree(key.0, key.1, 0);
    }
  }

  lemma InitialTable(nodes: Nodes, leaves: seq<Bytes>)
    requires |leaves| == 1 && nodes == map[(0, 0) := LeafHash(leaves[0])]
    ensures IsTable(nodes, leaves, 1)
  {
    hide NodeHash, InTree, LeafHash;
    forall level: nat, idx: nat
      ensures (level, idx) in nodes <==> level < 1 && InTree(level, idx, 1)
      ensures (level, idx) in nodes ==> nodes[(level, idx)] == NodeHash(leaves, level, idx)
    {
      LeafNode(leaves, idx);
    }
  }

  lemma DirectLeafWritten(nodes: Nodes, leaves: seq<Bytes>, oldSize: nat, oldTop: nat)
    requires |leaves| == oldSize + 1 && oldTop >= 1 && IsTable(nodes, leaves[..oldSize], oldTop)
    ensures Mixed(nodes[(0, oldSize) := LeafHash(leaves[oldSize])], leaves, oldSize, oldTop, 1)
  {
    hide Mixed, IsTable, LeafHash;
    var batch: Nodes := map[(0, oldSize) := LeafHash(leaves[oldSize])];
    LeavesWritten(nodes, batch, leaves, oldSize, oldTop);
    assert nodes + batch == nodes[(0, oldSize) := LeafHash(leaves[oldSize])];
  }

  lemma BatchIsLeafBatch(batch: Nodes, leaves: seq<Bytes>, built: seq<LogEntry>, oldSize: nat)
    requires |leaves| == oldSize + |built| && leaves[oldSize..] == Leaves(built)
    requires forall key :: key in batch <==> key.0 == 0 && oldSize <= key.1 < oldSize + |built|
    requires forall key :: key in batch ==> batch[key] == LeafHash(built[key.1 - oldSize].data)
    ensures IsLeafBatch(batch, leaves, oldSize)
  {
    hide LeafHash;
    forall key | key in batch
      ensures batch[key] == LeafHash(leaves[key.1])
    {
      assert leaves[key.1] == leaves[oldSize..][key.1 - oldSize] == built[key.1 - oldSize].data;
    }
  }

  lemma BatchNonempty(batch: Nodes, leaves: seq<Bytes>, level: nat, first: nat, past: nat)
    requires IsLevelBatch(batch, leaves, level, first, past) && first < past
    ensures |batch| > 0
  {
    assert (level, first) in batch;
  }

  lemma ShiftMonotone(x: nat, y: nat, s: nat)
    requires x <= y
    ensures ShiftRight(x, s) <= ShiftRight(y, s)
  {
    hide Pow2;
    QuotientExactly(x, Pow2(s), x / Pow2(s));
    QuotientExactly(y, Pow2(s), x / Pow2(s));
  }
}
