/** The stored tree nodes: what the table of internal/store/store.go holds for
    a list of leaves, and how one level follows from the level below. */
module NodeTable {
  import opened BitArith
  import opened Hashing
  import opened Merkle
  import opened MerkleProofs
  import opened NodeProofs

  /** The levels that recomputeInterior fills, 0 to 63. */
  const LEVELS: nat := 64

  lemma Pow2OfLevels()
    ensures Pow2(LEVELS) == 0x1_0000_0000_0000_0000
  {
    hide Pow2;
    Pow2Zero();
    Pow2Times256(0);
    Pow2Times256(8);
    Pow2Times256(16);
    Pow2Times256(24);
    Pow2Times256(32);
    Pow2Times256(40);
    Pow2Times256(48);
    Pow2Times256(56);
  }

  /** The table tree_nodes, keyed by (level, idx). */
  type Nodes = map<(nat, nat), Hash>

  /** The nodeAt callback over the table: a missing row reads as the zero hash. */
  function Reader(nodes: Nodes): NodeReader {
    (level, idx) => if (level, idx) in nodes then nodes[(level, idx)] else ZeroHash()
  }

  /** Node (level, idx) has at least one leaf in a tree of this size. */
  predicate InTree(level: nat, idx: nat, size: nat) {
    NodeStart(level, idx) < size
  }

  /** Where the leaves below node (level, idx) end: at the right edge a node
      covers what is there, so a lone child is promoted unchanged. */
  function NodeEnd(level: nat, idx: nat, size: nat): nat
    requires InTree(level, idx, size)
  {
    var full := NodeStart(level, idx) + Pow2(level);
    if full <= size then full else size
  }

  ghost function NodeHash(leaves: seq<Bytes>, level: nat, idx: nat): Hash
    requires InTree(level, idx, |leaves|)
  {
    MTH(leaves[NodeStart(level, idx)..NodeEnd(level, idx, |leaves|)])
  }

  /** The table that holds the levels below `top` and nothing past the edge. */
  ghost predicate IsTable(nodes: Nodes, leaves: seq<Bytes>, top: nat) {
    && (forall level: nat, idx: nat ::
          (level, idx) in nodes <==> level < top && InTree(level, idx, |leaves|))
    && (forall level: nat, idx: nat ::
          (level, idx) in nodes ==> nodes[(level, idx)] == NodeHash(leaves, level, idx))
  }

  /** One row of a full table, by the positions of its leaves. */
  lemma TableRow(nodes: Nodes, leaves: seq<Bytes>, level: nat, idx: nat)
    requires IsTable(nodes, leaves, LEVELS)
    ensures var lo, n := idx * Pow2(level), |leaves|;
            && ((level, idx) in nodes <==> level < 64 && lo < n)
            && ((level, idx) in nodes ==>
                  lo < n && nodes[(level, idx)] ==
                            MTH(leaves[lo..if lo + Pow2(level) <= n then lo + Pow2(level) else n]))
  {
    hide MTH, Pow2;
  }

  lemma IndexBelowStart(level: nat, idx: nat)
    ensures idx <= NodeStart(level, idx)
  {
    assert idx * Pow2(level) >= idx * 1;
  }

  ghost function Table(leaves: seq<Bytes>, top: nat): (nodes: Nodes)
    ensures IsTable(nodes, leaves, top)
  {
    var keys :=
      set level: nat, idx: nat | level < top && idx < |leaves| && InTree(level, idx, |leaves|) :: (level, idx);
    assert forall level: nat, idx: nat :: InTree(level, idx, |leaves|) ==> idx < |leaves| by {
      forall level: nat, idx: nat | InTree(level, idx, |leaves|)
        ensures idx < |leaves|
      {
        IndexBelowStart(level, idx);
      }
    }
    map key | key in keys :: NodeHash(leaves, key.0, key.1)
  }

  lemma TableUnique(nodes: Nodes, leaves: seq<Bytes>, top: nat)
    requires IsTable(nodes, leaves, top)
    ensures nodes == Table(leaves, top)
  {
    hide NodeHash, InTree;
    var table := Table(leaves, top);
    assert nodes.Keys == table.Keys by {
      forall key: (nat, nat)
        ensures key in nodes <==> key in table
      {
        assert key == (key.0, key.1);
      }
    }
    forall key | key in nodes
      ensures nodes[key] == table[key]
    {
      assert key == (key.0, key.1);
    }
  }

  // ----- shifts and indices -----

  lemma InTreeExactly(level: nat, idx: nat, size: nat)
    requires size >= 1
    ensures InTree(level, idx, size) <==> idx <= ShiftRight(size - 1, level)
  {
    hide Pow2;
    QuotientExactly(size - 1, Pow2(level), idx);
  }

  lemma CompleteExactly(level: nat, idx: nat, size: nat)
    ensures Complete(level, idx, size) <==> idx < ShiftRight(size, level)
  {
    hide Pow2;
    var p := Pow2(level);
    QuotientExactly(size, p, idx + 1);
    assert (idx + 1) * p == idx * p + p;
  }

  lemma QuotientExactly(x: nat, d: nat, q: nat)
    requires d > 0
    ensures q * d <= x <==> q <= x / d
  {
    var t, r := x / d, x % d;
    assert x == t * d + r;
    if q <= t {
      assert (t - q) * d >= 0;
      assert t * d == q * d + (t - q) * d;
    } else {
      assert (q - t - 1) * d >= 0;
      assert q * d == t * d + d + (q - t - 1) * d;
    }
  }

  lemma ChildStarts(level: nat, idx: nat)
    requires level >= 1
    ensures NodeStart(level - 1, 2 * idx) == NodeStart(level, idx)
    ensures NodeStart(level - 1, 2 * idx + 1) == NodeStart(level, idx) + Pow2(level - 1)
    ensures Pow2(level) == 2 * Pow2(level - 1)
  {
    Pow2Succ(level - 1);
    var h := Pow2(level - 1);
    assert idx * (2 * h) == (2 * idx) * h;
    assert (2 * idx + 1) * h == (2 * idx) * h + h;
  }

  // ----- one level from the level below -----

  lemma NodeFromBothChildren(leaves: seq<Bytes>, level: nat, idx: nat)
    requires level >= 1 && InTree(level - 1, 2 * idx + 1, |leaves|)
    ensures InTree(level, idx, |leaves|) && InTree(level - 1, 2 * idx, |leaves|)
    ensures NodeHash(leaves, level, idx) ==
            InteriorHash(NodeHash(leaves, level - 1, 2 * idx), NodeHash(leaves, level - 1, 2 * idx + 1))
  {
    hide NodeStart, Pow2, MTH, Hashed, InteriorHash, InteriorInput, SplitPoint;
    ChildStarts(level, idx);
    var lo, hi, half := NodeStart(level, idx), NodeEnd(level, idx, |leaves|), Pow2(level - 1);
    assert NodeEnd(level - 1, 2 * idx, |leaves|) == lo + half;
    assert NodeEnd(level - 1, 2 * idx + 1, |leaves|) == hi;
    SplitPointUnique(hi - lo, level - 1);
    TreeStep(leaves, lo, hi, half);
  }

  /** A node is the interior hash of its children, or its left child promoted
      unchanged when it has no right child. */
  lemma NodeFromChildren(leaves: seq<Bytes>, level: nat, idx: nat)
    requires level >= 1 && InTree(level, idx, |leaves|)
    ensures InTree(level - 1, 2 * idx, |leaves|)
    ensures NodeHash(leaves, level, idx) ==
            if InTree(level - 1, 2 * idx + 1, |leaves|)
            then InteriorHash(NodeHash(leaves, level - 1, 2 * idx), NodeHash(leaves, level - 1, 2 * idx + 1))
            else NodeHash(leaves, level - 1, 2 * idx)
  {
    hide NodeStart, Pow2, MTH, InteriorHash;
    ChildStarts(level, idx);
    if InTree(level - 1, 2 * idx + 1, |leaves|) {
      NodeFromBothChildren(leaves, level, idx);
    }
  }

  /** Complete nodes never change again. */
  lemma CompleteNodeStable(leaves: seq<Bytes>, more: seq<Bytes>, level: nat, idx: nat)
    requires leaves <= more && Complete(level, idx, |leaves|)
    ensures InTree(level, idx, |leaves|) && InTree(level, idx, |more|)
    ensures NodeHash(leaves, level, idx) == NodeHash(more, level, idx)
  {
    hide NodeStart, MTH;
    var lo, hi := NodeStart(level, idx), NodeStart(level, idx) + Pow2(level);
    assert leaves[lo..hi] == more[lo..hi];
  }

  // ----- reading the table -----

  function LeafHashAt(leaves: seq<Bytes>, i: nat): Hash {
    if i < |leaves| then LeafHash(leaves[i]) else ZeroHash()
  }

  function LeafHashes(leaves: seq<Bytes>): LeafReader {
    (i: nat) => LeafHashAt(leaves, i)
  }

  lemma LeafHashesRead(leaves: seq<Bytes>)
    ensures ReadsLeaves(LeafHashes(leaves), leaves)
  {
    hide LeafInput;
  }

  /** The tables that the log ever stores: every level below 64, or, right after
      Initialize and before that, level 0 only. */
  ghost predicate IsStoredTable(nodes: Nodes, leaves: seq<Bytes>) {
    IsTable(nodes, leaves, LEVELS) || (|leaves| <= 1 && IsTable(nodes, leaves, 1))
  }

  /** One complete node of a prefix, read from the table of the whole list. */
  lemma NodeServed(nodes: Nodes, leaves: seq<Bytes>, size: nat, level: nat, idx: nat)
    requires IsStoredTable(nodes, leaves) && size <= |leaves| < Pow2(LEVELS) && Complete(level, idx, size)
    ensures Reader(nodes)(level, idx) ==
            ComputeSubtreeHash(NodeStart(level, idx), NodeStart(level, idx) + Pow2(level), LeafHashes(leaves[..size]))
  {
    hide MTH, NodeStart, Pow2, ComputeSubtreeHash, LeafHashes, LeafHash, ReadsLeaves;
    var prefix := leaves[..size];
    var lo, hi := NodeStart(level, idx), NodeStart(level, idx) + Pow2(level);
    LeafHashesRead(prefix);
    CompleteNodeStable(prefix, leaves, level, idx);
    SubtreeIsMTH(lo, hi, LeafHashes(prefix), prefix);
    LevelInTable(nodes, leaves, level, idx);
  }

  /** A table of a list serves right nodes for every prefix of the list: all
      complete nodes of a prefix are complete nodes of the list. */
  lemma TableServesPrefix(nodes: Nodes, leaves: seq<Bytes>, size: nat)
    requires IsStoredTable(nodes, leaves) && size <= |leaves| < Pow2(LEVELS)
    ensures ReadsCompleteNodes(Reader(nodes), LeafHashes(leaves[..size]), size)
  {
    hide IsStoredTable, Complete, NodeStart, Pow2, ComputeSubtreeHash, LeafHashes, Reader;
    forall level: nat, idx: nat | Complete(level, idx, size)
      ensures Reader(nodes)(level, idx) ==
              ComputeSubtreeHash(NodeStart(level, idx), NodeStart(level, idx) + Pow2(level), LeafHashes(leaves[..size]))
    {
      NodeServed(nodes, leaves, size, level, idx);
    }
  }

  lemma LevelInTable(nodes: Nodes, leaves: seq<Bytes>, level: nat, idx: nat)
    requires IsStoredTable(nodes, leaves) && |leaves| < Pow2(LEVELS) && Complete(level, idx, |leaves|)
    ensures (level, idx) in nodes
  {
    hide NodeHash, NodeStart;
    if level >= LEVELS {
      Pow2Monotone(LEVELS, level);
    }
    if level >= 1 {
      Pow2Monotone(1, level);
    }
    assert Pow2(1) == 2;
  }
}
