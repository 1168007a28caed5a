/** Hash tiles and entry bundles as internal/tlogtiles/handler.go serves them,
    and when the header that calls a tile immutable tells the truth. */
module Tiles {
  import opened BitArith
  import opened Hashing
  import opened Merkle
  import opened MerkleProofs
  import opened NodeProofs
  import opened NodeTable
  import opened IssuanceLog

  const TILE_WIDTH: nat := 256

  datatype Response =
    | BadRequest
    | NotFound
    | Tile(hashes: seq<Hash>, immutable: bool)
    | Bundle(data: Bytes, immutable: bool)

  /** (treeSize + (1 << level) - 1) >> level in signed 64-bit arithmetic, where
      1 << 63 is negative and larger shifts give 0.  Sizes are below 2^62. */
  function NodesAtLevel(size: nat, level: nat): (count: int)
    ensures count >= -1
  {
    if level < 63 then ShiftRight(size + Pow2(level) - 1, level)
    else if level == 63 then (if size == 0 then 0 else -1)
    else (if size == 0 then -1 else 0)
  }

  lemma NodesAtLevelCounts(size: nat, level: nat, idx: nat)
    requires level < 63
    ensures InTree(level, idx, size) <==> idx < NodesAtLevel(size, level)
  {
    hide Pow2;
    var p := Pow2(level);
    QuotientExactly(size + p - 1, p, idx + 1);
    assert (idx + 1) * p == idx * p + p;
  }

  /** GetTileHashes: rows are placed by their offset, and as many hashes are
      returned as rows were found. */
  method GetTileHashes(nodes: Nodes, level: nat, nodeStart: int, count: nat) returns (hashes: seq<Hash>)
    ensures (forall i :: nodeStart <= i < nodeStart + count ==> HasRow(nodes, level, i)) ==>
              |hashes| == count && forall i :: 0 <= i < count ==> hashes[i] == RowHash(nodes, level, nodeStart + i)
    ensures !(forall i :: nodeStart <= i < nodeStart + count ==> HasRow(nodes, level, i)) ==> |hashes| < count
    ensures (forall i :: nodeStart <= i < nodeStart + count ==> !HasRow(nodes, level, i)) ==> hashes == []
  {
    var buf := new Hash[count](_ => ZeroHash());
    var found := 0;
    for offset := 0 to count
      invariant 0 <= found <= offset
      invariant found == offset <==> forall i :: nodeStart <= i < nodeStart + offset ==> HasRow(nodes, level, i)
      invariant (forall i :: nodeStart <= i < nodeStart + offset ==> !HasRow(nodes, level, i)) ==> found == 0
      invariant forall i :: 0 <= i < offset ==> buf[i] == RowHash(nodes, level, nodeStart + i)
      invariant forall i :: offset <= i < count ==> buf[i] == ZeroHash()
    {
      var idx := nodeStart + offset;
      if HasRow(nodes, level, idx) {
        buf[offset] := nodes[(level, idx)];
        found := found + 1;
      }
    }
    hashes := buf[..found];
  }

  function RowHash(nodes: Nodes, level: nat, idx: int): Hash {
    if HasRow(nodes, level, idx) then nodes[(level, idx)] else ZeroHash()
  }

  predicate HasRow(nodes: Nodes, level: nat, idx: int) {
    idx >= 0 && (level, idx) in nodes
  }

  /** The table right after Initialize: the leaf row of the null entry alone. */
  ghost predicate IsFresh(nodes: Nodes, leaves: seq<Bytes>) {
    |leaves| == 1 && IsTable(nodes, leaves, 1)
  }

  /** handleHashTile after the path is decoded.  A negative tile index, which
      the decoder lets through, is answered with an empty tile.  So is tile 0 of
      the levels 1 to 62 of a freshly initialized log, where the size counts a
      node that is not stored yet. */
  method HandleHashTile(treeSize: nat, nodes: Nodes, level: int, tileIdx: int,
                        ghost leaves: seq<Bytes>) returns (r: Response)
    requires treeSize == |leaves| && IsStoredTable(nodes, leaves)
    ensures level < 0 ==> r == BadRequest
    ensures level >= 0 && tileIdx >= 0 ==>
              r == if IsFresh(nodes, leaves) && 1 <= level < 63 && tileIdx == 0 then Tile([], false)
                   else Served(leaves, level, tileIdx)
    ensures level >= 0 && tileIdx < 0 ==> r == Tile([], false)
    ensures level >= 0 && tileIdx >= 0 ==>
              (r.NotFound? <==> level >= 63 || 256 * tileIdx * Pow2(level) >= |leaves|)
    ensures level >= 0 && tileIdx >= 0 && r.Tile? ==>
              (r.immutable <==> (256 * tileIdx + 255) * Pow2(level) < |leaves|)
  {
    hide NodeHash, InTree, NodesAtLevel, IsTable, HasRow, RowHash, TileNode;
    if level >= 0 && tileIdx >= 0 {
      ServedExactly(leaves, level, tileIdx);
    }
    if level < 0 {
      return BadRequest;
    }
    var nodeStart := TILE_WIDTH * tileIdx;
    var nodesAtLevel := NodesAtLevel(treeSize, level);
    if nodeStart >= nodesAtLevel {
      SingleNode(level);
      return NotFound;
    }
    var count := TILE_WIDTH;
    if nodeStart + count > nodesAtLevel {
      count := nodesAtLevel - nodeStart;
    }
    var hashes := GetTileHashes(nodes, level, nodeStart, count);
    if tileIdx >= 0 {
      assert count == TileCount(treeSize, level, tileIdx);
      if IsFresh(nodes, leaves) && level >= 1 {
        SingleNode(level);
        FreshRows(nodes, leaves, level);
      } else {
        TileRows(nodes, leaves, level, tileIdx, hashes);
      }
    } else {
      NoNegativeRows(nodes, level);
    }
    return Tile(hashes, |hashes| == TILE_WIDTH);
  }

  /** A tree of one entry has one node on every level. */
  lemma SingleNode(level: nat)
    ensures NodesAtLevel(1, level) == if level < 63 then 1 else if level == 63 then -1 else 0
  {
    if level < 63 {
      DivModUnique(Pow2(level), Pow2(level), 1, 0);
    }
  }

  lemma FreshRows(nodes: Nodes, leaves: seq<Bytes>, level: nat)
    requires IsFresh(nodes, leaves) && level >= 1
    ensures forall i :: !HasRow(nodes, level, i)
  {
    hide NodeHash, InTree;
  }

  /** Initialize leaves such a log, and its tree has the node that is missing. */
  lemma FreshLogLacksNode(level: nat)
    requires 1 <= level < 63
    ensures var s := IssuanceLog.Step(LogState([], map[], []), Op.Initialize);
            && IsFresh(s.nodes, Leaves(s.entries))
            && TileOf(Leaves(s.entries), level, 0) == [LeafHash(NullEntry().data)]
            && !HasRow(s.nodes, level, 0)
  {
    hide NodesAtLevel, LeafHash, MTH, Pow2;
    var leaves := Leaves([NullEntry()]);
    var nodes := Table(leaves, 1);
    FreshRows(nodes, leaves, level);
    SingleNode(level);
    LeafSlice(leaves, 0);
    assert NodeStart(level, 0) == 0;
    assert NodeHash(leaves, level, 0) == MTH(leaves[0..1]);
  }

  lemma NoNegativeRows(nodes: Nodes, level: nat)
    ensures forall i :: i < 0 ==> !HasRow(nodes, level, i)
  {
  }

  lemma TileRow(nodes: Nodes, leaves: seq<Bytes>, level: nat, tileIdx: nat, i: nat)
    requires IsStoredTable(nodes, leaves) && (IsFresh(nodes, leaves) ==> level == 0)
    requires i < TileCount(|leaves|, level, tileIdx)
    ensures HasRow(nodes, level, TileStart(tileIdx) + i)
    ensures RowHash(nodes, level, TileStart(tileIdx) + i) == TileNode(leaves, level, tileIdx, i)
  {
    hide NodeHash, NodeStart, NodesAtLevel;
    PositiveCount(|leaves|, level);
    NodesAtLevelCounts(|leaves|, level, TileStart(tileIdx) + i);
  }

  lemma TileRows(nodes: Nodes, leaves: seq<Bytes>, level: nat, tileIdx: nat, hashes: seq<Hash>)
    requires IsStoredTable(nodes, leaves) && (IsFresh(nodes, leaves) ==> level == 0)
    requires var start, count := TileStart(tileIdx), TileCount(|leaves|, level, tileIdx);
             && ((forall i :: start <= i < start + count ==> HasRow(nodes, level, i)) ==>
                   |hashes| == count && forall i :: 0 <= i < count ==> hashes[i] == RowHash(nodes, level, start + i))
    ensures hashes == TileOf(leaves, level, tileIdx)
  {
    hide IsTable, HasRow, RowHash, TileNode, TileCount;
    var start, count := TileStart(tileIdx), TileCount(|leaves|, level, tileIdx);
    forall i | start <= i < start + count
      ensures HasRow(nodes, level, i)
    {
      TileRow(nodes, leaves, level, tileIdx, i - start);
    }
    forall i: nat | i < count
      ensures hashes[i] == TileNode(leaves, level, tileIdx, i)
    {
      TileRow(nodes, leaves, level, tileIdx, i);
    }
  }

  lemma PositiveCount(size: nat, level: nat)
    ensures NodesAtLevel(size, level) > 0 ==> level < 63
  {
  }

  // ----- what a tile holds -----

  ghost function NodeHashOrZero(leaves: seq<Bytes>, level: nat, idx: nat): Hash {
    if InTree(level, idx, |leaves|) then NodeHash(leaves, level, idx) else ZeroHash()
  }

  function TileStart(tileIdx: nat): nat {
    TILE_WIDTH * tileIdx
  }

  /** How many nodes of the level fall into the tile. */
  function TileCount(size: nat, level: nat, tileIdx: nat): nat {
    hide NodesAtLevel;
    var left := NodesAtLevel(size, level) - TileStart(tileIdx);
    if left <= 0 then 0 else if left < TILE_WIDTH then left else TILE_WIDTH
  }

  /** Hash i of the tile. */
  ghost function TileNode(leaves: seq<Bytes>, level: nat, tileIdx: nat, i: nat): Hash {
    NodeHashOrZero(leaves, level, TileStart(tileIdx) + i)
  }

  ghost function TilePrefix(leaves: seq<Bytes>, level: nat, tileIdx: nat, n: nat): (tile: seq<Hash>)
    ensures |tile| == n && forall i: nat :: i < n ==> tile[i] == TileNode(leaves, level, tileIdx, i)
  {
    hide TileNode;
    if n == 0 then [] else TilePrefix(leaves, level, tileIdx, n - 1) + [TileNode(leaves, level, tileIdx, n - 1)]
  }

  /** The hashes of tile tileIdx at this level of the tree over `leaves`. */
  ghost function TileOf(leaves: seq<Bytes>, level: nat, tileIdx: nat): seq<Hash> {
    TilePrefix(leaves, level, tileIdx, TileCount(|leaves|, level, tileIdx))
  }

  ghost function Served(leaves: seq<Bytes>, level: nat, tileIdx: nat): Response {
    var hashes := TileOf(leaves, level, tileIdx);
    if |hashes| == 0 then NotFound else Tile(hashes, |hashes| == TILE_WIDTH)
  }

  /** Which hashes a tile holds: hash i is the tree hash of the leaves below node
      256 * tileIdx + i, for as many i below 256 as there are such leaves. */
  lemma TileHashes(leaves: seq<Bytes>, level: nat, tileIdx: nat, i: nat)
    ensures var lo, n := (256 * tileIdx + i) * Pow2(level), |leaves|;
            && (i < |TileOf(leaves, level, tileIdx)| <==> i < 256 && level < 63 && lo < n)
            && (i < |TileOf(leaves, level, tileIdx)| ==>
                  lo < n && TileOf(leaves, level, tileIdx)[i] ==
                            MTH(leaves[lo..if lo + Pow2(level) <= n then lo + Pow2(level) else n]))
  {
    hide NodesAtLevel, MTH, Pow2;
    PositiveCount(|leaves|, level);
    if level < 63 {
      NodesAtLevelCounts(|leaves|, level, TileStart(tileIdx) + i);
    }
  }

  /** The answer to a request for a tile: none when its first node has no leaves,
      and marked as immutable exactly when its 256th node has some. */
  lemma ServedExactly(leaves: seq<Bytes>, level: nat, tileIdx: nat)
    ensures var r := Served(leaves, level, tileIdx);
            && (r.NotFound? <==> level >= 63 || 256 * tileIdx * Pow2(level) >= |leaves|)
            && (!r.NotFound? ==>
                  && r.Tile? && r.hashes == TileOf(leaves, level, tileIdx)
                  && (r.immutable <==> (256 * tileIdx + 255) * Pow2(level) < |leaves|)
                  && (r.immutable ==> |r.hashes| == 256))
  {
    hide TileOf, Pow2;
    TileHashes(leaves, level, tileIdx, 0);
    TileHashes(leaves, level, tileIdx, 255);
    TileHashes(leaves, level, tileIdx, 256);
  }

  /** The last node of the tile. */
  function LastNode(tileIdx: nat): nat {
    TileStart(tileIdx) + (TILE_WIDTH - 1)
  }

  lemma FullTile(leaves: seq<Bytes>, level: nat, tileIdx: nat)
    requires |TileOf(leaves, level, tileIdx)| == TILE_WIDTH
    ensures level < 63 && InTree(level, LastNode(tileIdx), |leaves|)
    ensures TileOf(leaves, level, tileIdx)[TILE_WIDTH - 1] == NodeHash(leaves, level, LastNode(tileIdx))
  {
    hide NodeHash, InTree, NodesAtLevel;
    PositiveCount(|leaves|, level);
    NodesAtLevelCounts(|leaves|, level, LastNode(tileIdx));
  }

  /** A tile whose last node is complete is the same in every later tree. */
  lemma CompleteTileStable(leaves: seq<Bytes>, more: seq<Bytes>, level: nat, tileIdx: nat)
    requires leaves <= more && level < 63 && Complete(level, LastNode(tileIdx), |leaves|)
    ensures TileOf(more, level, tileIdx) == TileOf(leaves, level, tileIdx)
    ensures |TileOf(more, level, tileIdx)| == TILE_WIDTH
  {
    hide NodeHash, InTree, NodesAtLevel, Complete;
    NodesOfStableTile(leaves, more, level, tileIdx, TILE_WIDTH - 1);
    forall i: nat | i < TILE_WIDTH
      ensures TileOf(more, level, tileIdx)[i] == TileOf(leaves, level, tileIdx)[i]
    {
      NodesOfStableTile(leaves, more, level, tileIdx, i);
    }
  }

  lemma NodesOfStableTile(leaves: seq<Bytes>, more: seq<Bytes>, level: nat, tileIdx: nat, i: nat)
    requires leaves <= more && level < 63 && Complete(level, LastNode(tileIdx), |leaves|) && i < TILE_WIDTH
    ensures TileStart(tileIdx) + i < NodesAtLevel(|leaves|, level)
    ensures TileStart(tileIdx) + i < NodesAtLevel(|more|, level)
    ensures NodeHashOrZero(leaves, level, TileStart(tileIdx) + i) == NodeHashOrZero(more, level, TileStart(tileIdx) + i)
  {
    hide NodeHash, InTree, NodesAtLevel, Complete;
    var idx := TileStart(tileIdx) + i;
    EarlierComplete(level, idx, LastNode(tileIdx), |leaves|);
    CompleteNodeStable(leaves, more, level, idx);
    NodesAtLevelCounts(|leaves|, level, idx);
    NodesAtLevelCounts(|more|, level, idx);
  }

  lemma EarlierComplete(level: nat, idx: nat, last: nat, size: nat)
    requires idx <= last && Complete(level, last, size)
    ensures Complete(level, idx, size)
  {
    hide Pow2;
    var p := Pow2(level);
    assert (last - idx) * p >= 0;
    assert last * p == idx * p + (last - idx) * p;
  }

  /** A node that still lacks leaves changes with the next entry. */
  lemma PartialNodeChanges(leaves: seq<Bytes>, x: Bytes, level: nat, idx: nat)
    requires InTree(level, idx, |leaves|) && !Complete(level, idx, |leaves|)
    requires var lo := NodeStart(level, idx);
             CollisionFree(Hashed(leaves[lo..]) + Hashed((leaves + [x])[lo..]))
    ensures InTree(level, idx, |leaves| + 1) && NodeHash(leaves + [x], level, idx) != NodeHash(leaves, level, idx)
  {
    hide NodeStart, MTH, Hashed, CollisionFree, Pow2;
    var lo := NodeStart(level, idx);
    var before, after := leaves[lo..], (leaves + [x])[lo..];
    assert leaves[lo..|leaves|] == before && (leaves + [x])[lo..|leaves| + 1] == after;
    assert before != after by {
      assert |after| == |before| + 1;
    }
    if MTH(before) == MTH(after) {
      MTHInjective(before, after, Hashed(before) + Hashed(after));
      assert false;
    }
  }

  /** A full tile, which the handler marks as immutable, survives the next entry
      exactly when its last node is complete, that is when the tree has at least
      (tileIdx + 1) * 256 * 2^level entries; then it never changes again. */
  lemma ImmutableExactly(leaves: seq<Bytes>, x: Bytes, level: nat, tileIdx: nat)
    requires |TileOf(leaves, level, tileIdx)| == TILE_WIDTH
    requires var lo := NodeStart(level, LastNode(tileIdx));
             lo <= |leaves| ==> CollisionFree(Hashed(leaves[lo..]) + Hashed((leaves + [x])[lo..]))
    ensures TileOf(leaves + [x], level, tileIdx) == TileOf(leaves, level, tileIdx)
            <==> (tileIdx + 1) * TILE_WIDTH * Pow2(level) <= |leaves|
  {
    hide NodeHash, NodesAtLevel, NodeStart, CollisionFree, Hashed, TileOf, Pow2;
    FullTile(leaves, level, tileIdx);
    LastNodeEnd(level, tileIdx, |leaves|);
    if Complete(level, LastNode(tileIdx), |leaves|) {
      CompleteTileStable(leaves, leaves + [x], level, tileIdx);
    } else {
      PartialNodeChanges(leaves, x, level, LastNode(tileIdx));
      if |TileOf(leaves + [x], level, tileIdx)| == TILE_WIDTH {
        FullTile(leaves + [x], level, tileIdx);
      }
    }
  }

  lemma LastNodeEnd(level: nat, tileIdx: nat, size: nat)
    ensures Complete(level, LastNode(tileIdx), size) <==> (tileIdx + 1) * TILE_WIDTH * Pow2(level) <= size
  {
    hide Pow2;
    var p := Pow2(level);
    var q := (tileIdx + 1) * TILE_WIDTH;
    assert LastNode(tileIdx) == q - 1;
    assert (q - 1) * p + p == q * p;
  }

  /** Full leaf tiles are always complete. */
  lemma LeafTilesImmutable(leaves: seq<Bytes>, more: seq<Bytes>, tileIdx: nat)
    requires leaves <= more && |TileOf(leaves, 0, tileIdx)| == TILE_WIDTH
    ensures TileOf(more, 0, tileIdx) == TileOf(leaves, 0, tileIdx)
  {
    hide NodeHash, TileOf;
    FullTile(leaves, 0, tileIdx);
    assert Pow2(0) == 1;
    CompleteTileStable(leaves, more, 0, tileIdx);
  }

  /** A leaf tile that was served as immutable is served unchanged ever after. */
  lemma ServedLeafTilesImmutable(leaves: seq<Bytes>, more: seq<Bytes>, tileIdx: nat, hashes: seq<Hash>)
    requires leaves <= more && Served(leaves, 0, tileIdx) == Tile(hashes, true)
    ensures Served(more, 0, tileIdx) == Tile(hashes, true)
  {
    hide TileOf;
    ServedExactly(leaves, 0, tileIdx);
    LeafTilesImmutable(leaves, more, tileIdx);
  }

  /** On any level such a tile survives the next entry exactly when the tree has
      (tileIdx + 1) * 256 * 2^level entries. */
  lemma ServedImmutableExactly(leaves: seq<Bytes>, x: Bytes, level: nat, tileIdx: nat, hashes: seq<Hash>)
    requires Served(leaves, level, tileIdx) == Tile(hashes, true)
    requires var lo := NodeStart(level, LastNode(tileIdx));
             lo <= |leaves| ==> CollisionFree(Hashed(leaves[lo..]) + Hashed((leaves + [x])[lo..]))
    ensures Served(leaves + [x], level, tileIdx) == Tile(hashes, true)
            <==> (tileIdx + 1) * 256 * Pow2(level) <= |leaves|
  {
    hide TileOf, Pow2, NodeStart, CollisionFree, Hashed;
    ServedExactly(leaves, level, tileIdx);
    ServedExactly(leaves + [x], level, tileIdx);
    ImmutableExactly(leaves, x, level, tileIdx);
  }

  /** The smallest tile that is served as immutable and is not: tile 0 of level 1
      of a tree with 511 entries changes with the next entry. */
  lemma FullButPartial(leaves: seq<Bytes>, x: Bytes)
    requires |leaves| == 511
    requires CollisionFree(Hashed(leaves[510..]) + Hashed((leaves + [x])[510..]))
    ensures Served(leaves, 1, 0) == Tile(TileOf(leaves, 1, 0), true)
    ensures TileOf(leaves + [x], 1, 0) != TileOf(leaves, 1, 0)
  {
    hide NodeHash, TileOf, Hashed, CollisionFree;
    assert Pow2(1) == 2;
    assert NodeStart(1, LastNode(0)) == 510;
    FullAt511(leaves);
    ImmutableExactly(leaves, x, 1, 0);
  }

  lemma FullAt511(leaves: seq<Bytes>)
    requires |leaves| == 511
    ensures |TileOf(leaves, 1, 0)| == TILE_WIDTH
  {
    hide NodeHash;
    assert Pow2(1) == 2;
    NodesAtLevelCounts(511, 1, 255);
    assert InTree(1, 255, 511);
  }

  // ----- entry bundles -----

  /** A 4-byte little-endian length before each entry; the length wraps at 2^32. */
  function Bundled(entries: seq<Bytes>): Bytes {
    if |entries| == 0 then []
    else
      var last := entries[|entries| - 1];
      Bundled(entries[..|entries| - 1]) + LittleEndian(|last|, 4) + last
  }

  /** The entries of the tile that the log holds. */
  function TileEntries(leaves: seq<Bytes>, tileIdx: nat): seq<Bytes> {
    var start, end := TileStart(tileIdx), TileStart(tileIdx) + TILE_WIDTH;
    if end <= |leaves| then leaves[start..end] else if start <= |leaves| then leaves[start..] else []
  }

  function ServedBundle(leaves: seq<Bytes>, tileIdx: nat): Response {
    var entries := TileEntries(leaves, tileIdx);
    if |entries| == 0 then NotFound else Bundle(Bundled(entries), |entries| == TILE_WIDTH)
  }

  /** handleEntryTile after the path is decoded.  A negative tile index is
      answered with an empty bundle that is marked as immutable. */
  method HandleEntryTile(entries: seq<LogEntry>, tileIdx: int) returns (r: Response)
    ensures tileIdx >= 0 ==> r == ServedBundle(Leaves(entries), tileIdx)
    ensures tileIdx < 0 ==> r == Bundle([], true)
    ensures tileIdx >= 0 ==> (r.NotFound? <==> 256 * tileIdx >= |entries|)
    ensures tileIdx >= 0 && !r.NotFound? ==> r.Bundle? && (r.immutable <==> 256 * tileIdx + 256 <= |entries|)
  {
    hide LittleEndian;
    var start := tileIdx * TILE_WIDTH;
    var end := start + TILE_WIDTH;
    var treeSize := |entries|;
    if start >= treeSize {
      return NotFound;
    }
    if end > treeSize {
      end := treeSize;
    }
    var found := GetEntries(entries, start, end);
    ghost var stored := Leaves(found);
    var data: Bytes := [];
    for i := 0 to |found|
      invariant data == Bundled(stored[..i])
    {
      assert stored[..i + 1][..i] == stored[..i];
      data := data + LittleEndian(|found[i].data|, 4) + found[i].data;
    }
    assert stored[..|found|] == stored;
    if tileIdx >= 0 {
      assert stored == TileEntries(Leaves(entries), tileIdx);
    }
    return Bundle(data, end - start == TILE_WIDTH);
  }

  /** Which entries a tile holds. */
  lemma TileEntriesAt(leaves: seq<Bytes>, tileIdx: nat, i: nat)
    ensures i < |TileEntries(leaves, tileIdx)| <==> i < 256 && 256 * tileIdx + i < |leaves|
    ensures i < |TileEntries(leaves, tileIdx)| ==> TileEntries(leaves, tileIdx)[i] == leaves[256 * tileIdx + i]
  {
  }

  /** The bytes of a bundle: each entry behind its length, four bytes with the
      least significant first. */
  lemma BundleBytes(entries: seq<Bytes>, x: Bytes)
    ensures Bundled([]) == []
    ensures var before, b := Bundled(entries), Bundled(entries + [x]);
            var n := |before|;
            && |b| == n + 4 + |x| && b[..n] == before && b[n + 4..] == x
            && b[n] as nat + 256 * b[n + 1] as nat + 0x1_0000 * b[n + 2] as nat + 0x100_0000 * b[n + 3] as nat
               == |x| % 0x1_0000_0000
  {
    hide LittleEndian;
    LengthBytes(|x|);
    assert (entries + [x])[..|entries|] == entries;
    assert Bundled(entries + [x]) == Bundled(entries) + LittleEndian(|x|, 4) + x;
  }

  /** The rows with start <= idx < end, in order of idx. */
  function GetEntries(entries: seq<LogEntry>, start: int, end: int): seq<LogEntry>
    requires start < |entries| && end <= |entries|
  {
    var from := if start < 0 then 0 else start;
    if end <= from then [] else entries[from..end]
  }

  /** A bundle that was served as immutable is served unchanged ever after. */
  lemma EntryTilesImmutable(leaves: seq<Bytes>, more: seq<Bytes>, tileIdx: nat)
    requires leaves <= more
    requires ServedBundle(leaves, tileIdx).Bundle? && ServedBundle(leaves, tileIdx).immutable
    ensures ServedBundle(more, tileIdx) == ServedBundle(leaves, tileIdx)
  {
    hide Bundled;
    assert TileEntries(more, tileIdx) == TileEntries(leaves, tileIdx);
  }

  lemma {:induction false} BundledFront(entries: seq<Bytes>)
    requires |entries| > 0
    ensures Bundled(entries) == LittleEndian(|entries[0]|, 4) + entries[0] + Bundled(entries[1..])
  {
    hide LittleEndian;
    if |entries| > 1 {
      var init, rest := entries[..|entries| - 1], entries[1..];
      BundledFront(init);
      assert init[1..] == rest[..|rest| - 1];
    } else {
      assert entries[..0] == [] && entries[1..] == [];
    }
  }

  lemma {:induction false} LittleEndianInjective(x: nat, y: nat, width: nat, limit: nat)
    requires limit == Pow2(8 * width) && x < limit && y < limit
    requires LittleEndian(x, width) == LittleEndian(y, width)
    ensures x == y
    decreases width
  {
    if width > 0 {
      var e := 8 * (width - 1);
      Pow2Times256(e);
      var b, c := LittleEndian(x, width), LittleEndian(y, width);
      assert b[0] == (x % 256) as byte && c[0] == (y % 256) as byte;
      assert b[1..] == LittleEndian(x / 256, width - 1) && c[1..] == LittleEndian(y / 256, width - 1);
      LittleEndianInjective(x / 256, y / 256, width - 1, Pow2(e));
    }
  }

  lemma {:induction false} LittleEndianLength(x: nat, width: nat)
    ensures |LittleEndian(x, width)| == width
  {
    if width > 0 {
      LittleEndianLength(x / 256, width - 1);
    }
  }

  /** The bytes of a bundle determine the entries, how many they are and where
      each one ends. */
  lemma {:induction false} BundleUnambiguous(a: seq<Bytes>, b: seq<Bytes>)
    requires forall i :: 0 <= i < |a| ==> |a[i]| < Pow2(32)
    requires forall i :: 0 <= i < |b| ==> |b[i]| < Pow2(32)
    requires Bundled(a) == Bundled(b)
    ensures a == b
    decreases |a|
  {
    hide LittleEndian, Bundled, Pow2;
    NonemptyBundle(a);
    NonemptyBundle(b);
    if |a| > 0 && |b| > 0 {
      BundledFront(a);
      BundledFront(b);
      var data, x, y := Bundled(a), a[0], b[0];
      LittleEndianLength(|x|, 4);
      LittleEndianLength(|y|, 4);
      assert data[..4] == LittleEndian(|x|, 4) && data[..4] == LittleEndian(|y|, 4);
      LittleEndianInjective(|x|, |y|, 4, Pow2(32));
      assert data[4..4 + |x|] == x && data[4..4 + |y|] == y;
      assert data[4 + |x|..] == Bundled(a[1..]) && data[4 + |y|..] == Bundled(b[1..]);
      BundleUnambiguous(a[1..], b[1..]);
      assert a == [x] + a[1..] && b == [y] + b[1..];
    }
  }

  lemma NonemptyBundle(entries: seq<Bytes>)
    ensures |entries| == 0 <==> Bundled(entries) == []
  {
    if |entries| > 0 {
      LittleEndianLength(|entries[|entries| - 1]|, 4);
    }
  }
}
