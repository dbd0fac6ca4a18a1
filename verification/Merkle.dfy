/**
  The sparse Merkle tree: a map from flat indices to hashes in which a missing node reads as the
  empty hash. `InsertAt` specifies the leaf-to-root climb of `MerkleTree.Insert`; `NodeHash` is the
  recursive Merkle hash that the climb is proved to maintain.
*/
module Merkle {
  import opened Hashing
  import opened Numbering

  type Hashes = map<TreeIndex, Hash>
  type Leaves = map<TreeIndex, Hash>

  function Get(hashes: Hashes, ix: TreeIndex): Hash {
    if ix in hashes then hashes[ix] else EMPTY_HASH
  }

  function Root(hashes: Hashes): Hash {
    Get(hashes, ROOT_INDEX)
  }

  /** The hash of the next node on the path from `ix`, when the path node of level d holds `hash`. */
  function ParentHash(hashes: Hashes, d: nat, ix: TreeIndex, hash: Hash): Hash
    requires d < TREE_DEPTH
  {
    var beside := Get(hashes, SiblingSlot(ix, d));
    if PathAt(ix, d) % 2 == 0 then HashPair(hash, beside) else HashPair(beside, hash)
  }

  /** Writes `hash` at the path node of level d, and the recomputed hashes of all its ancestors. */
  function Climb(hashes: Hashes, d: nat, ix: TreeIndex, hash: Hash): Hashes
    requires d <= TREE_DEPTH
    decreases TREE_DEPTH - d, hash
  {
    var written := hashes[PathSlot(ix, d) := hash];
    if d == TREE_DEPTH then written
    else Climb(written, d + 1, ix, ParentHash(written, d, ix, hash))
  }

  function InsertAt(hashes: Hashes, ix: TreeIndex, valueHash: Hash): Hashes {
    Climb(hashes, LEAF_LEVEL, ix, valueHash)
  }

  /** The tree object; its methods update the map in place. */
  class MerkleTree {
    var hashes: Hashes

    constructor ()
      ensures hashes == map[]
    {
      hashes := map[];
    }

    function GetHash(ix: TreeIndex): Hash
      reads this
    {
      Get(hashes, ix)
    }

    function TreeRoot(): Hash
      reads this
    {
      GetHash(ROOT_INDEX)
    }

    method Insert(ix: TreeIndex, valueHash: Hash)
      modifies this
      ensures hashes == InsertAt(old(hashes), ix, valueHash)
      ensures forall leaves: Leaves :: ix < TREE_SIZE && NodeConsistent(old(hashes), leaves) ==>
        NodeConsistent(hashes, leaves[ix := valueHash])
    {
      hide NodeConsistent, PathSlot, SiblingSlot, Width;
      RunningOffset(LEAF_LEVEL);
      var hash := valueHash;
      var at: TreeIndex := ix;
      var offset: TreeIndex := 0;
      for depth := 0 to TREE_DEPTH
        invariant offset == LevelStart(depth) && at == PathAt(ix, depth)
        invariant Climb(hashes, depth, ix, hash) == InsertAt(old(hashes), ix, valueHash)
      {
        RunningOffset(depth);
        SlotOffsets(ix, depth);
        hashes := hashes[offset + at := hash];
        if at % 2 == 0 {
          hash := HashPair(hash, GetHash(offset + at + 1));
        } else {
          hash := HashPair(GetHash(offset + at - 1), hash);
        }
        offset := offset + Width(depth);
        at := at / 2;
      }
      SlotOffsets(ix, TREE_DEPTH);
      hashes := hashes[offset + at := hash];
      forall leaves: Leaves | ix < TREE_SIZE && NodeConsistent(old(hashes), leaves)
        ensures NodeConsistent(hashes, leaves[ix := valueHash])
      {
        InsertRefines(old(hashes), leaves, ix, valueHash);
      }
    }
  }

  // ---------------------------------------------------------------- the recursive definition

  /** The Merkle hash of node p of level d over a leaf map: nothing flat about it. */
  ghost function NodeHash(leaves: Leaves, d: nat, p: nat): Hash
    requires d <= TREE_DEPTH && p < Width(d)
    decreases d, |leaves|
  {
    if d == 0 then WidthBounds(LEAF_LEVEL); Get(leaves, p)
    else HashPair(NodeHash(leaves, d - 1, 2 * p), NodeHash(leaves, d - 1, 2 * p + 1))
  }

  ghost function LeavesRoot(leaves: Leaves): Hash {
    NodeHash(leaves, TREE_DEPTH, 0)
  }

  /** Every node reads as its recursive hash. */
  ghost predicate NodeConsistent(hashes: Hashes, leaves: Leaves) {
    forall d: nat, p: nat {:trigger Slot(d, p)} | d <= TREE_DEPTH && p < Width(d) ::
      Get(hashes, Slot(d, p)) == NodeHash(leaves, d, p)
  }

  /** Only nodes are stored, and only those with a non-empty hash. */
  ghost predicate Sparse(hashes: Hashes) {
    forall i | i in hashes :: i < TREE_HASHES && hashes[i] != EMPTY_HASH
  }

  ghost predicate ProperLeaves(leaves: Leaves) {
    forall i | i in leaves :: i < TREE_SIZE && leaves[i] != EMPTY_HASH
  }

  ghost predicate Consistent(hashes: Hashes, leaves: Leaves) {
    NodeConsistent(hashes, leaves) && Sparse(hashes) && ProperLeaves(leaves)
  }

  lemma {:induction false} OffPath(leaves: Leaves, ix: TreeIndex, h: Hash, d: nat, p: nat)
    requires d <= TREE_DEPTH && p < Width(d) && p != PathAt(ix, d)
    ensures NodeHash(leaves[ix := h], d, p) == NodeHash(leaves, d, p)
  {
    if d > 0 {
      OffPath(leaves, ix, h, d - 1, 2 * p);
      OffPath(leaves, ix, h, d - 1, 2 * p + 1);
    }
  }

  /** Levels below d are consistent with the new leaves, the others still with the old ones. */
  ghost predicate ClimbedTo(hashes: Hashes, before: Leaves, after: Leaves, d: nat) {
    forall e: nat, p: nat {:trigger Slot(e, p)} | e <= TREE_DEPTH && p < Width(e) ::
      Get(hashes, Slot(e, p)) == NodeHash(if e < d then after else before, e, p)
  }

  lemma WriteClimbs(hashes: Hashes, d: nat, leaves: Leaves, ix: TreeIndex, h: Hash)
    requires ix < TREE_SIZE && d <= TREE_DEPTH && PathAt(ix, d) < Width(d)
    requires ClimbedTo(hashes, leaves, leaves[ix := h], d)
    ensures ClimbedTo(hashes[PathSlot(ix, d) := NodeHash(leaves[ix := h], d, PathAt(ix, d))], leaves, leaves[ix := h], d + 1)
  {
    var at := PathAt(ix, d);
    var after := leaves[ix := h];
    var written := hashes[PathSlot(ix, d) := NodeHash(after, d, at)];
    forall e: nat, p: nat | e <= TREE_DEPTH && p < Width(e)
      ensures Get(written, Slot(e, p)) == NodeHash(if e < d + 1 then after else leaves, e, p)
    {
      SlotInjective(d, at, e, p);
      if e == d && p != at {
        OffPath(leaves, ix, h, d, p);
      }
    }
  }

  lemma ParentClimbs(hashes: Hashes, d: nat, leaves: Leaves, after: Leaves, ix: TreeIndex)
    requires ix < TREE_SIZE && d < TREE_DEPTH && PathAt(ix, d) < Width(d)
    requires ClimbedTo(hashes, leaves, after, d + 1)
    ensures ParentHash(hashes, d, ix, NodeHash(after, d, PathAt(ix, d))) == NodeHash(after, d + 1, PathAt(ix, d + 1))
  {
    var at := PathAt(ix, d);
    assert PathAt(ix, d + 1) == at / 2;
    assert Get(hashes, Slot(d, Sibling(at))) == NodeHash(after, d, Sibling(at));
  }

  lemma {:induction false} ClimbRefines(hashes: Hashes, d: nat, leaves: Leaves, ix: TreeIndex, h: Hash)
    requires ix < TREE_SIZE && d <= TREE_DEPTH && PathAt(ix, d) < Width(d)
    requires ClimbedTo(hashes, leaves, leaves[ix := h], d)
    ensures NodeConsistent(Climb(hashes, d, ix, NodeHash(leaves[ix := h], d, PathAt(ix, d))), leaves[ix := h])
    decreases TREE_DEPTH - d
  {
    var after := leaves[ix := h];
    var hash := NodeHash(after, d, PathAt(ix, d));
    var written := hashes[PathSlot(ix, d) := hash];
    WriteClimbs(hashes, d, leaves, ix, h);
    if d < TREE_DEPTH {
      PathBounds(ix, d + 1);
      ParentClimbs(written, d, leaves, after, ix);
      ClimbRefines(written, d + 1, leaves, ix, h);
    }
  }

  /** The climb refines the recursive definition, for any hash put at a leaf below TREE_SIZE. */
  lemma InsertRefines(hashes: Hashes, leaves: Leaves, ix: TreeIndex, h: Hash)
    requires ix < TREE_SIZE && NodeConsistent(hashes, leaves)
    ensures NodeConsistent(InsertAt(hashes, ix, h), leaves[ix := h])
    ensures Root(InsertAt(hashes, ix, h)) == LeavesRoot(leaves[ix := h])
  {
    WidthBounds(LEAF_LEVEL);
    ClimbRefines(hashes, LEAF_LEVEL, leaves, ix, h);
    ConsistentRoot(InsertAt(hashes, ix, h), leaves[ix := h]);
  }

  lemma ConsistentRoot(hashes: Hashes, leaves: Leaves)
    requires NodeConsistent(hashes, leaves)
    ensures Root(hashes) == LeavesRoot(leaves)
  {
    RunningOffset(LEAF_LEVEL);
    assert Slot(TREE_DEPTH, 0) == ROOT_INDEX;
  }

  // ---------------------------------------------------------------- what a climb writes

  lemma {:induction false} ClimbWrites(hashes: Hashes, d: nat, ix: TreeIndex, hash: Hash)
    requires d <= TREE_DEPTH
    ensures forall i | !OnPath(ix, i) :: Get(Climb(hashes, d, ix, hash), i) == Get(hashes, i)
    ensures forall i | i in Climb(hashes, d, ix, hash) :: i in hashes || OnPath(ix, i)
    ensures forall e: nat | d <= e <= TREE_DEPTH :: PathSlot(ix, e) in Climb(hashes, d, ix, hash)
    ensures forall i | i in hashes :: i in Climb(hashes, d, ix, hash)
    decreases TREE_DEPTH - d
  {
    hide PathSlot, SiblingSlot;
    var written := hashes[PathSlot(ix, d) := hash];
    assert OnPath(ix, PathSlot(ix, d));
    if d < TREE_DEPTH {
      ClimbWrites(written, d + 1, ix, ParentHash(written, d, ix, hash));
    }
  }

  /** Every node off the path keeps its hash, every node on it is stored. */
  lemma InsertWrites(hashes: Hashes, ix: TreeIndex, h: Hash)
    ensures forall i | !OnPath(ix, i) :: Get(InsertAt(hashes, ix, h), i) == Get(hashes, i)
    ensures forall i | i in InsertAt(hashes, ix, h) :: i in hashes || OnPath(ix, i)
    ensures forall d: nat | d <= TREE_DEPTH :: PathSlot(ix, d) in InsertAt(hashes, ix, h)
    ensures forall i | i in hashes :: i in InsertAt(hashes, ix, h)
  {
    hide PathSlot, Climb;
    ClimbWrites(hashes, LEAF_LEVEL, ix, h);
  }

  lemma {:induction false} ClimbNonEmpty(hashes: Hashes, d: nat, ix: TreeIndex, hash: Hash)
    requires d <= TREE_DEPTH && hash != EMPTY_HASH
    ensures forall i | Get(hashes, i) != EMPTY_HASH :: Get(Climb(hashes, d, ix, hash), i) != EMPTY_HASH
    ensures (forall i | i in hashes :: hashes[i] != EMPTY_HASH) ==>
      forall i | i in Climb(hashes, d, ix, hash) :: Climb(hashes, d, ix, hash)[i] != EMPTY_HASH
    decreases TREE_DEPTH - d
  {
    hide PathSlot, SiblingSlot;
    var written := hashes[PathSlot(ix, d) := hash];
    assert forall i | Get(hashes, i) != EMPTY_HASH :: Get(written, i) != EMPTY_HASH;
    if d < TREE_DEPTH {
      ClimbNonEmpty(written, d + 1, ix, ParentHash(written, d, ix, hash));
    }
  }

  /** Inserting a non-empty hash never empties a node. */
  lemma InsertNonEmpty(hashes: Hashes, ix: TreeIndex, h: Hash)
    requires h != EMPTY_HASH
    ensures forall i | Get(hashes, i) != EMPTY_HASH :: Get(InsertAt(hashes, ix, h), i) != EMPTY_HASH
    ensures (forall i | i in hashes :: hashes[i] != EMPTY_HASH) ==>
      forall i | i in InsertAt(hashes, ix, h) :: InsertAt(hashes, ix, h)[i] != EMPTY_HASH
  {
    ClimbNonEmpty(hashes, LEAF_LEVEL, ix, h);
  }

  /**
    The tree stays a sparse set of nodes exactly when the leaf index is below TREE_SIZE: from any
    other index the climb ends by writing an index that is no node.
  */
  lemma InsertSparse(hashes: Hashes, ix: TreeIndex, h: Hash)
    requires Sparse(hashes) && h != EMPTY_HASH
    ensures Sparse(InsertAt(hashes, ix, h)) <==> ix < TREE_SIZE
  {
    hide PathSlot, OnPath, InsertAt;
    InsertNonEmpty(hashes, ix, h);
    InsertWrites(hashes, ix, h);
    ClimbEnd(ix);
    assert PathSlot(ix, TREE_DEPTH) in InsertAt(hashes, ix, h);
    if ix < TREE_SIZE {
      forall i | i in InsertAt(hashes, ix, h) ensures i < TREE_HASHES {
        if i !in hashes {
          PathBelow(ix, i);
        }
      }
    }
  }

  /** An insert below TREE_SIZE keeps the tree consistent; one at any other index makes it no tree of any leaves. */
  lemma InsertConsistent(hashes: Hashes, leaves: Leaves, ix: TreeIndex, h: Hash)
    requires Consistent(hashes, leaves) && h != EMPTY_HASH
    ensures ix < TREE_SIZE ==> Consistent(InsertAt(hashes, ix, h), leaves[ix := h])
    ensures TREE_SIZE <= ix ==> forall any: Leaves :: !Consistent(InsertAt(hashes, ix, h), any)
  {
    hide InsertAt, NodeConsistent, Sparse;
    InsertSparse(hashes, ix, h);
    if ix < TREE_SIZE {
      InsertRefines(hashes, leaves, ix, h);
    }
  }

  // ---------------------------------------------------------------- the root determines the tree

  lemma EmptyConsistent()
    ensures Consistent(map[], map[])
  {
    forall d: nat, p: nat | d <= TREE_DEPTH && p < Width(d)
      ensures NodeHash(map[], d, p) == EMPTY_HASH
    {
      EmptyNode(map[], d, p);
    }
  }

  lemma {:induction false} EmptyNode(leaves: Leaves, d: nat, p: nat)
    requires d <= TREE_DEPTH && p < Width(d) && leaves == map[]
    ensures NodeHash(leaves, d, p) == EMPTY_HASH
  {
    if d > 0 {
      EmptyNode(leaves, d - 1, 2 * p);
      EmptyNode(leaves, d - 1, 2 * p + 1);
    }
  }

  /** The leaves determine the whole hash map, whatever inserts produced it. */
  lemma LeavesDetermineHashes(h1: Hashes, h2: Hashes, leaves: Leaves)
    requires Consistent(h1, leaves) && Consistent(h2, leaves)
    ensures h1 == h2
  {
    hide Slot;
    forall i: TreeIndex | i < TREE_HASHES ensures Get(h1, i) == Get(h2, i) {
      var d, p := Locate(i);
      assert Get(h1, Slot(d, p)) == NodeHash(leaves, d, p) == Get(h2, Slot(d, p));
    }
    SameReadings(h1, h2);
  }

  lemma SameReadings(h1: Hashes, h2: Hashes)
    requires forall i | i in h1 :: h1[i] != EMPTY_HASH
    requires forall i | i in h2 :: h2[i] != EMPTY_HASH
    requires forall i: TreeIndex | i in h1 || i in h2 :: Get(h1, i) == Get(h2, i)
    ensures h1 == h2
  {
    forall i | i in h1 || i in h2 ensures i in h1 && i in h2 && h1[i] == h2[i] {
      assert Get(h1, i) == Get(h2, i);
    }
    assert h1.Keys == h2.Keys;
  }

  /** Equal node hashes mean equal leaves below the node. */
  lemma {:induction false} NodeDeterminesLeaf(l1: Leaves, l2: Leaves, d: nat, ix: TreeIndex)
    requires d <= TREE_DEPTH && PathAt(ix, d) < Width(d)
    requires NodeHash(l1, d, PathAt(ix, d)) == NodeHash(l2, d, PathAt(ix, d))
    ensures Get(l1, ix) == Get(l2, ix)
    decreases d
  {
    if d > 0 {
      var p := PathAt(ix, d);
      HashPairInjective(NodeHash(l1, d - 1, 2 * p), NodeHash(l1, d - 1, 2 * p + 1),
                        NodeHash(l2, d - 1, 2 * p), NodeHash(l2, d - 1, 2 * p + 1));
      assert PathAt(ix, d - 1) == 2 * p || PathAt(ix, d - 1) == 2 * p + 1;
      NodeDeterminesLeaf(l1, l2, d - 1, ix);
    }
  }

  lemma RootDeterminesLeaves(l1: Leaves, l2: Leaves)
    requires ProperLeaves(l1) && ProperLeaves(l2)
    ensures LeavesRoot(l1) == LeavesRoot(l2) <==> l1 == l2
  {
    if LeavesRoot(l1) == LeavesRoot(l2) {
      forall ix: TreeIndex | ix < TREE_SIZE ensures Get(l1, ix) == Get(l2, ix) {
        PathBounds(ix, TREE_DEPTH);
        NodeDeterminesLeaf(l1, l2, TREE_DEPTH, ix);
      }
      SameReadings(l1, l2);
    }
  }

  lemma ParentProvesNode(hashes: Hashes, leaves: Leaves, d: nat, ix: TreeIndex, e: nat, q: nat, hash: Hash)
    requires d < TREE_DEPTH && e < TREE_DEPTH && q < Width(e) && q / 2 < Width(e + 1)
    requires PathAt(ix, d) % 2 == q % 2
    requires ParentHash(hashes, d, ix, hash) == NodeHash(leaves, e + 1, q / 2)
    ensures hash == NodeHash(leaves, e, q)
  {
    hide SiblingSlot;
    var p, beside := q / 2, Get(hashes, SiblingSlot(ix, d));
    var l, r := NodeHash(leaves, e, 2 * p), NodeHash(leaves, e, 2 * p + 1);
    if q % 2 == 0 {
      HashPairInjective(hash, beside, l, r);
    } else {
      HashPairInjective(beside, hash, l, r);
    }
  }

  /** A climb that has passed the root leaves all nodes as they are. */
  lemma {:induction false} ClimbPastRoot(hashes: Hashes, d: nat, ix: TreeIndex, hash: Hash)
    requires d <= TREE_DEPTH && PathSlot(ix, d) == TREE_HASHES
    ensures forall i | i != TREE_HASHES :: Get(Climb(hashes, d, ix, hash), i) == Get(hashes, i)
    decreases TREE_DEPTH - d
  {
    hide PathSlot, SiblingSlot, ParentHash;
    if d < TREE_DEPTH {
      var written := hashes[PathSlot(ix, d) := hash];
      BeyondRoot(ix, d);
      ClimbPastRoot(written, d + 1, ix, ParentHash(written, d, ix, hash));
    }
  }

  /** A climb that is at the root makes its hash the root. */
  lemma ClimbAtRoot(hashes: Hashes, d: nat, ix: TreeIndex, hash: Hash)
    requires d <= TREE_DEPTH && PathSlot(ix, d) == ROOT_INDEX
    ensures Root(Climb(hashes, d, ix, hash)) == hash
  {
    hide PathSlot, SiblingSlot, ParentHash;
    if d < TREE_DEPTH {
      var written := hashes[PathSlot(ix, d) := hash];
      BeyondRoot(ix, d);
      ClimbPastRoot(written, d + 1, ix, ParentHash(written, d, ix, hash));
    }
  }

  /**
    If a climb, over whatever siblings, ends in the root of a leaf map, then the hash that it writes at
    the index of a node is that node's hash; its level need not be the one the climb counts.
  */
  lemma {:induction false} ClimbProvesNode(hashes: Hashes, leaves: Leaves, d: nat, ix: TreeIndex, e: nat, q: nat, hash: Hash)
    requires d <= TREE_DEPTH && e <= TREE_DEPTH && q < Width(e) && PathSlot(ix, d) == Slot(e, q)
    requires Root(Climb(hashes, d, ix, hash)) == LeavesRoot(leaves)
    ensures hash == NodeHash(leaves, e, q)
    decreases TREE_DEPTH - e
  {
    hide PathSlot, SiblingSlot, ParentHash, Slot;
    if e == TREE_DEPTH {
      SlotBelow(e, q);
      ClimbAtRoot(hashes, d, ix, hash);
    } else {
      ParentSlot(ix, d, e, q);
      var written := hashes[PathSlot(ix, d) := hash];
      ClimbProvesNode(written, leaves, d + 1, ix, e + 1, q / 2, ParentHash(written, d, ix, hash));
      ParentProvesNode(written, leaves, d, ix, e, q, hash);
    }
  }

  // ---------------------------------------------------------------- inserts at any node

  ghost predicate IsNode(ix: TreeIndex, e: nat, q: nat) {
    e <= TREE_DEPTH && q < Width(e) && Slot(e, q) == ix
  }

  /** The Merkle hash of the node with the flat index ix. */
  ghost function NodeAt(leaves: Leaves, ix: TreeIndex): Hash
    requires ix < TREE_HASHES
  {
    NodeExists(ix);
    var e: nat, q: nat :| IsNode(ix, e, q);
    NodeHash(leaves, e, q)
  }

  lemma NodeExists(ix: TreeIndex)
    requires ix < TREE_HASHES
    ensures exists e: nat, q: nat :: IsNode(ix, e, q)
  {
    var e, q := Locate(ix);
    assert IsNode(ix, e, q);
  }

  lemma NodeAtSlot(leaves: Leaves, e: nat, q: nat)
    requires e <= TREE_DEPTH && q < Width(e)
    ensures Slot(e, q) < TREE_HASHES && NodeAt(leaves, Slot(e, q)) == NodeHash(leaves, e, q)
  {
    SlotBelow(e, q);
    NodeExists(Slot(e, q));
    assert IsNode(Slot(e, q), e, q);
    forall d: nat, p: nat | IsNode(Slot(e, q), d, p) ensures d == e && p == q {
      SlotInjective(d, p, e, q);
    }
  }

  /** A leaf is a node of its own index. */
  lemma NodeAtLeaf(leaves: Leaves, ix: TreeIndex)
    requires ix < TREE_SIZE
    ensures NodeAt(leaves, ix) == Get(leaves, ix)
  {
    WidthBounds(LEAF_LEVEL);
    NodeAtSlot(leaves, LEAF_LEVEL, ix);
  }

  /** Every other node is the pair of its children. */
  lemma NodeAtInner(leaves: Leaves, ix: TreeIndex) returns (e: nat, q: nat)
    requires TREE_SIZE <= ix < TREE_HASHES
    ensures 0 < e && IsNode(ix, e, q) && 2 * q + 1 < Width(e - 1)
    ensures NodeAt(leaves, ix) == HashPair(NodeHash(leaves, e - 1, 2 * q), NodeHash(leaves, e - 1, 2 * q + 1))
  {
    WidthBounds(LEAF_LEVEL);
    e, q := Locate(ix);
    NodeAtSlot(leaves, e, q);
  }

  lemma FirstSlot(ix: TreeIndex)
    ensures PathSlot(ix, LEAF_LEVEL) == ix
  {
    WidthBounds(LEAF_LEVEL);
  }

  /** If an insert, over whatever hashes and at whatever node, yields the root of a leaf map, it wrote that map's node. */
  lemma InsertProvesNode(hashes: Hashes, leaves: Leaves, ix: TreeIndex, h: Hash)
    requires ix < TREE_HASHES && Root(InsertAt(hashes, ix, h)) == LeavesRoot(leaves)
    ensures NodeAt(leaves, ix) == h
  {
    hide Slot, PathSlot, Climb;
    var e, q := Locate(ix);
    FirstSlot(ix);
    NodeAtSlot(leaves, e, q);
    ClimbProvesNode(hashes, leaves, LEAF_LEVEL, ix, e, q, h);
  }

  /**
    If an insert of the hash of a value with a raw key, over whatever hashes and at whatever node, yields
    the root of a leaf map, then the node is a leaf of that map and holds that hash.
  */
  lemma InsertProvesLeaf(hashes: Hashes, leaves: Leaves, ix: TreeIndex, value: Balance, key: Key)
    requires ix < TREE_HASHES && Root(InsertAt(hashes, ix, LeafHash(value, key))) == LeavesRoot(leaves)
    requires key.Raw?
    ensures ix < TREE_SIZE && Get(leaves, ix) == LeafHash(value, key)
  {
    hide Slot, PathSlot, InsertAt, Root, LeavesRoot, NodeAt;
    InsertProvesNode(hashes, leaves, ix, LeafHash(value, key));
    if ix < TREE_SIZE {
      NodeAtLeaf(leaves, ix);
    } else {
      var e, q := NodeAtInner(leaves, ix);
    }
  }

  lemma ConsistentAt(hashes: Hashes, leaves: Leaves, ix: TreeIndex)
    requires NodeConsistent(hashes, leaves) && ix < TREE_HASHES
    ensures Get(hashes, ix) == NodeAt(leaves, ix)
  {
    hide Slot;
    var e, q := Locate(ix);
    NodeAtSlot(leaves, e, q);
    assert Get(hashes, Slot(e, q)) == NodeHash(leaves, e, q);
  }

  lemma {:induction false} ClimbKeeps(hashes: Hashes, leaves: Leaves, d: nat, ix: TreeIndex, e: nat, q: nat)
    requires NodeConsistent(hashes, leaves)
    requires d <= TREE_DEPTH && e <= TREE_DEPTH && q < Width(e) && PathSlot(ix, d) == Slot(e, q)
    ensures NodeConsistent(Climb(hashes, d, ix, NodeHash(leaves, e, q)), leaves)
    decreases TREE_DEPTH - e
  {
    hide PathSlot, SiblingSlot, NodeHash, Slot;
    var hash := NodeHash(leaves, e, q);
    assert Get(hashes, Slot(e, q)) == hash;
    var written := hashes[PathSlot(ix, d) := hash];
    assert forall i :: Get(written, i) == Get(hashes, i);
    if e == TREE_DEPTH {
      SlotBelow(e, q);
      if d < TREE_DEPTH {
        BeyondRoot(ix, d);
        ClimbPastRoot(written, d + 1, ix, ParentHash(written, d, ix, hash));
        SameNodes(Climb(hashes, d, ix, hash), hashes, leaves);
      }
    } else {
      ParentSlot(ix, d, e, q);
      ParentKeeps(written, leaves, d, ix, e, q);
      ClimbKeeps(written, leaves, d + 1, ix, e + 1, q / 2);
    }
  }

  lemma ParentKeeps(hashes: Hashes, leaves: Leaves, d: nat, ix: TreeIndex, e: nat, q: nat)
    requires NodeConsistent(hashes, leaves)
    requires d < TREE_DEPTH && e < TREE_DEPTH && q < Width(e) && q / 2 < Width(e + 1) && Sibling(q) < Width(e)
    requires PathAt(ix, d) % 2 == q % 2 && SiblingSlot(ix, d) == Slot(e, Sibling(q))
    ensures ParentHash(hashes, d, ix, NodeHash(leaves, e, q)) == NodeHash(leaves, e + 1, q / 2)
  {
    hide SiblingSlot, Slot;
    assert Get(hashes, Slot(e, Sibling(q))) == NodeHash(leaves, e, Sibling(q));
  }

  lemma SameNodes(h1: Hashes, h2: Hashes, leaves: Leaves)
    requires NodeConsistent(h2, leaves) && forall i: TreeIndex | i < TREE_HASHES :: Get(h1, i) == Get(h2, i)
    ensures NodeConsistent(h1, leaves)
  {
    hide Slot;
    forall d: nat, p: nat | d <= TREE_DEPTH && p < Width(d) ensures Get(h1, Slot(d, p)) == NodeHash(leaves, d, p) {
      SlotBelow(d, p);
      assert Get(h2, Slot(d, p)) == NodeHash(leaves, d, p);
    }
  }

  /** In a tree of leaves, an insert at any node leaves the root as it is exactly when it writes the hash that the node has. */
  lemma InsertKeepsRootIff(hashes: Hashes, leaves: Leaves, ix: TreeIndex, h: Hash)
    requires NodeConsistent(hashes, leaves) && ix < TREE_HASHES
    ensures Root(InsertAt(hashes, ix, h)) == Root(hashes) <==> Get(hashes, ix) == h
    ensures Get(hashes, ix) == h ==> NodeConsistent(InsertAt(hashes, ix, h), leaves)
  {
    hide Slot, PathSlot, Climb, Root, LeavesRoot, NodeAt, NodeConsistent;
    ConsistentRoot(hashes, leaves);
    ConsistentAt(hashes, leaves, ix);
    if Root(InsertAt(hashes, ix, h)) == Root(hashes) {
      InsertProvesNode(hashes, leaves, ix, h);
    }
    if Get(hashes, ix) == h {
      var e, q := Locate(ix);
      FirstSlot(ix);
      NodeAtSlot(leaves, e, q);
      ClimbKeeps(hashes, leaves, LEAF_LEVEL, ix, e, q);
      ConsistentRoot(InsertAt(hashes, ix, h), leaves);
    }
  }

  /**
    The exact condition for raw keys: writing a value into a tree with the hashes of a leaf map gives a tree
    with the hashes, or just the root, of some leaf map if and only if the index is below TREE_SIZE.
  */
  lemma InsertIsTreeIff(hashes: Hashes, leaves: Leaves, ix: TreeIndex, value: Balance, key: Key)
    requires NodeConsistent(hashes, leaves) && ix < TREE_HASHES && key.Raw?
    ensures (exists any: Leaves :: Root(InsertAt(hashes, ix, LeafHash(value, key))) == LeavesRoot(any)) <==> ix < TREE_SIZE
    ensures (exists any: Leaves :: NodeConsistent(InsertAt(hashes, ix, LeafHash(value, key)), any)) <==> ix < TREE_SIZE
  {
    hide NodeConsistent, Root, LeavesRoot, InsertAt;
    var after := InsertAt(hashes, ix, LeafHash(value, key));
    if ix < TREE_SIZE {
      InsertRefines(hashes, leaves, ix, LeafHash(value, key));
      assert NodeConsistent(after, leaves[ix := LeafHash(value, key)]);
    }
    forall any: Leaves | NodeConsistent(after, any) ensures Root(after) == LeavesRoot(any) {
      ConsistentRoot(after, any);
    }
    forall any: Leaves | Root(after) == LeavesRoot(any) ensures ix < TREE_SIZE {
      InsertProvesLeaf(hashes, any, ix, value, key);
    }
  }

  // ---------------------------------------------------------------- what inserts at any indices leave

  /** An inner node is the pair of its children, or the hash of a value with a raw key was written over it. */
  ghost predicate Joined(hashes: Hashes, e: nat, q: nat)
    requires 0 < e <= TREE_DEPTH && q < Width(e)
  {
    || Get(hashes, Slot(e, q)).Leaf?
    || Get(hashes, Slot(e, q)) == HashPair(Get(hashes, Slot(e - 1, 2 * q)), Get(hashes, Slot(e - 1, 2 * q + 1)))
  }

  ghost predicate Woven(hashes: Hashes) {
    forall e: nat, q: nat | 0 < e <= TREE_DEPTH && q < Width(e) :: Joined(hashes, e, q)
  }

  /** Every inner node is joined, except perhaps node q of level e. */
  ghost predicate WovenBut(hashes: Hashes, e: nat, q: nat) {
    forall d: nat, p: nat | 0 < d <= TREE_DEPTH && p < Width(d) && !(d == e && p == q) :: Joined(hashes, d, p)
  }

  lemma WriteWeaves(hashes: Hashes, e: nat, q: nat, hash: Hash)
    requires e <= TREE_DEPTH && q < Width(e) && WovenBut(hashes, e, q)
    requires 0 < e ==>
      hash.Leaf? || hash == HashPair(Get(hashes, Slot(e - 1, 2 * q)), Get(hashes, Slot(e - 1, 2 * q + 1)))
    ensures WovenBut(hashes[Slot(e, q) := hash], e + 1, q / 2)
  {
    hide Slot, Width;
    var written := hashes[Slot(e, q) := hash];
    forall d: nat, p: nat | 0 < d <= TREE_DEPTH && p < Width(d) && !(d == e + 1 && p == q / 2)
      ensures Joined(written, d, p)
    {
      Halves(d - 1);
      SlotInjective(e, q, d, p);
      SlotInjective(e, q, d - 1, 2 * p);
      SlotInjective(e, q, d - 1, 2 * p + 1);
      if !(d == e && p == q) {
        assert Joined(hashes, d, p);
      }
    }
  }

  lemma WeavingPastRoot(h1: Hashes, h2: Hashes)
    requires Woven(h2) && forall i: TreeIndex | i < TREE_HASHES :: Get(h1, i) == Get(h2, i)
    ensures Woven(h1)
  {
    hide Slot;
    forall d: nat, p: nat | 0 < d <= TREE_DEPTH && p < Width(d) ensures Joined(h1, d, p) {
      assert Joined(h2, d, p);
      SlotBelow(d, p);
      SlotBelow(d - 1, 2 * p);
      SlotBelow(d - 1, 2 * p + 1);
    }
  }

  lemma ParentWeaves(hashes: Hashes, d: nat, ix: TreeIndex, e: nat, q: nat, hash: Hash)
    requires d < TREE_DEPTH && e < TREE_DEPTH && q < Width(e) && q / 2 < Width(e + 1) && Sibling(q) < Width(e)
    requires PathAt(ix, d) % 2 == q % 2 && SiblingSlot(ix, d) == Slot(e, Sibling(q)) && Get(hashes, Slot(e, q)) == hash
    ensures ParentHash(hashes, d, ix, hash)
         == HashPair(Get(hashes, Slot(e, 2 * (q / 2))), Get(hashes, Slot(e, 2 * (q / 2) + 1)))
  {
    hide SiblingSlot, Slot;
  }

  lemma {:induction false} ClimbWeaves(hashes: Hashes, d: nat, ix: TreeIndex, e: nat, q: nat, hash: Hash)
    requires d <= TREE_DEPTH && e <= TREE_DEPTH && q < Width(e) && PathSlot(ix, d) == Slot(e, q)
    requires WovenBut(hashes, e, q)
    requires 0 < e ==>
      hash.Leaf? || hash == HashPair(Get(hashes, Slot(e - 1, 2 * q)), Get(hashes, Slot(e - 1, 2 * q + 1)))
    ensures Woven(Climb(hashes, d, ix, hash))
    decreases TREE_DEPTH - e
  {
    hide PathSlot, SiblingSlot, ParentHash, Slot, Joined;
    WriteWeaves(hashes, e, q, hash);
    var written := hashes[PathSlot(ix, d) := hash];
    if e == TREE_DEPTH {
      SlotBelow(e, q);
      assert Woven(written);
      if d < TREE_DEPTH {
        BeyondRoot(ix, d);
        ClimbPastRoot(written, d + 1, ix, ParentHash(written, d, ix, hash));
        WeavingPastRoot(Climb(hashes, d, ix, hash), written);
      }
    } else {
      ParentSlot(ix, d, e, q);
      ParentWeaves(written, d, ix, e, q, hash);
      ClimbWeaves(written, d + 1, ix, e + 1, q / 2, ParentHash(written, d, ix, hash));
    }
  }

  /** Writing a value with a raw key at any node keeps inner nodes joined. */
  lemma InsertWeaves(hashes: Hashes, ix: TreeIndex, value: Balance, key: Key)
    requires Woven(hashes) && ix < TREE_HASHES && key.Raw?
    ensures Woven(InsertAt(hashes, ix, LeafHash(value, key)))
  {
    hide Slot, PathSlot, Climb, Joined;
    var e, q := Locate(ix);
    FirstSlot(ix);
    ClimbWeaves(hashes, LEAF_LEVEL, ix, e, q, LeafHash(value, key));
  }

  lemma {:induction false} NodeFromRoot(hashes: Hashes, leaves: Leaves, e: nat, q: nat)
    requires Woven(hashes) && Root(hashes) == LeavesRoot(leaves) && e <= TREE_DEPTH && q < Width(e)
    ensures Get(hashes, Slot(e, q)) == NodeHash(leaves, e, q)
    decreases TREE_DEPTH - e
  {
    hide Slot;
    if e == TREE_DEPTH {
      SlotBelow(e, q);
    } else {
      Halves(e);
      NodeFromRoot(hashes, leaves, e + 1, q / 2);
      assert Joined(hashes, e + 1, q / 2);
      var p := q / 2;
      HashPairInjective(Get(hashes, Slot(e, 2 * p)), Get(hashes, Slot(e, 2 * p + 1)),
                        NodeHash(leaves, e, 2 * p), NodeHash(leaves, e, 2 * p + 1));
    }
  }

  /**
    Hashes that values with raw keys, written at whatever indices in whatever order, have left: if their
    root is that of a leaf map, then so is every node.
  */
  lemma RootDeterminesNodes(hashes: Hashes, leaves: Leaves)
    requires Woven(hashes)
    ensures Root(hashes) == LeavesRoot(leaves) <==> NodeConsistent(hashes, leaves)
  {
    hide Slot, Root, LeavesRoot, Woven;
    if Root(hashes) == LeavesRoot(leaves) {
      forall e: nat, q: nat | e <= TREE_DEPTH && q < Width(e) ensures Get(hashes, Slot(e, q)) == NodeHash(leaves, e, q) {
        NodeFromRoot(hashes, leaves, e, q);
      }
    }
    if NodeConsistent(hashes, leaves) {
      ConsistentRoot(hashes, leaves);
    }
  }

  lemma EmptyWoven()
    ensures Woven(map[])
  {
    hide Slot;
    forall e: nat, q: nat | 0 < e <= TREE_DEPTH && q < Width(e) ensures Joined(map[], e, q) {
    }
  }

  /** A climb writes nothing below the level at which it is. */
  lemma {:induction false} ClimbAbove(hashes: Hashes, d: nat, ix: TreeIndex, hash: Hash, i: TreeIndex)
    requires d <= TREE_DEPTH && i < LevelStart(d)
    ensures Get(Climb(hashes, d, ix, hash), i) == Get(hashes, i)
    decreases TREE_DEPTH - d
  {
    hide SiblingSlot, ParentHash, Width;
    SlotOffsets(ix, d);
    var written := hashes[PathSlot(ix, d) := hash];
    if d < TREE_DEPTH {
      RunningOffset(d);
      ClimbAbove(written, d + 1, ix, ParentHash(written, d, ix, hash), i);
    }
  }

  /** Of the leaves, an insert at any index writes the one with that index, or none. */
  lemma InsertLeaf(hashes: Hashes, ix: TreeIndex, h: Hash, i: TreeIndex)
    requires i < TREE_SIZE
    ensures Get(InsertAt(hashes, ix, h), i) == if i == ix then h else Get(hashes, i)
  {
    hide SiblingSlot, ParentHash, PathSlot;
    FirstSlot(ix);
    RunningOffset(LEAF_LEVEL);
    WidthBounds(LEAF_LEVEL);
    var written := hashes[ix := h];
    ClimbAbove(written, LEAF_LEVEL + 1, ix, ParentHash(written, LEAF_LEVEL, ix, h), i);
  }

  // ---------------------------------------------------------------- two trees side by side

  /** The two trees read the same at every node that the climb from `ix` reads. */
  ghost predicate SameBeside(h1: Hashes, h2: Hashes, ix: TreeIndex, from: nat) {
    forall d: nat | from <= d < TREE_DEPTH && SiblingSlot(ix, d) < TREE_HASHES ::
      Get(h1, SiblingSlot(ix, d)) == Get(h2, SiblingSlot(ix, d))
  }

  lemma {:induction false} ClimbAgrees(h1: Hashes, h2: Hashes, d: nat, ix: TreeIndex, hash: Hash)
    requires d <= TREE_DEPTH && SameBeside(h1, h2, ix, d)
    ensures forall i: TreeIndex | i < TREE_HASHES && Get(h1, i) == Get(h2, i) ::
      Get(Climb(h1, d, ix, hash), i) == Get(Climb(h2, d, ix, hash), i)
    ensures forall e: nat | d <= e <= TREE_DEPTH && PathSlot(ix, e) < TREE_HASHES ::
      Get(Climb(h1, d, ix, hash), PathSlot(ix, e)) == Get(Climb(h2, d, ix, hash), PathSlot(ix, e))
    decreases TREE_DEPTH - d
  {
    hide PathSlot, SiblingSlot, PathAt;
    var w1 := h1[PathSlot(ix, d) := hash];
    var w2 := h2[PathSlot(ix, d) := hash];
    assert forall i | Get(h1, i) == Get(h2, i) :: Get(w1, i) == Get(w2, i);
    assert Get(w1, PathSlot(ix, d)) == Get(w2, PathSlot(ix, d));
    if d < TREE_DEPTH {
      if SiblingSlot(ix, d) < TREE_HASHES {
        assert Get(w1, SiblingSlot(ix, d)) == Get(w2, SiblingSlot(ix, d));
        ClimbAgrees(w1, w2, d + 1, ix, ParentHash(w1, d, ix, hash));
      } else {
        SiblingBeyond(ix, d);
        BeyondRoot(ix, d);
        ClimbPastRoot(w1, d + 1, ix, ParentHash(w1, d, ix, hash));
        ClimbPastRoot(w2, d + 1, ix, ParentHash(w2, d, ix, hash));
        StaysBeyond(ix, d + 1);
      }
    }
  }

  /** The nodes beside its path are all that an insert reads of a tree. */
  lemma InsertAgrees(h1: Hashes, h2: Hashes, ix: TreeIndex, h: Hash)
    requires SameBeside(h1, h2, ix, 0)
    ensures forall i: TreeIndex | i < TREE_HASHES && Get(h1, i) == Get(h2, i) ::
      Get(InsertAt(h1, ix, h), i) == Get(InsertAt(h2, ix, h), i)
    ensures forall i: TreeIndex | i < TREE_HASHES && OnPath(ix, i) :: Get(InsertAt(h1, ix, h), i) == Get(InsertAt(h2, ix, h), i)
  {
    hide PathSlot;
    ClimbAgrees(h1, h2, LEAF_LEVEL, ix, h);
  }

  /** Writing again the leaf that a tree of leaves already holds changes no reading. */
  lemma InsertReadsAgain(hashes: Hashes, leaves: Leaves, ix: TreeIndex)
    requires NodeConsistent(hashes, leaves) && ix in leaves && ix < TREE_SIZE
    ensures forall i :: Get(InsertAt(hashes, ix, leaves[ix]), i) == Get(hashes, i)
  {
    hide NodeConsistent, InsertAt, PathSlot, OnPath, NodeAt;
    var after := InsertAt(hashes, ix, leaves[ix]);
    InsertRefines(hashes, leaves, ix, leaves[ix]);
    assert leaves[ix := leaves[ix]] == leaves;
    InsertWrites(hashes, ix, leaves[ix]);
    forall i | OnPath(ix, i) ensures Get(after, i) == Get(hashes, i) {
      PathBelow(ix, i);
      ConsistentAt(hashes, leaves, i);
      ConsistentAt(after, leaves, i);
    }
  }

  /** Writing again the leaf that a consistent tree already holds changes nothing. */
  lemma InsertAgain(hashes: Hashes, leaves: Leaves, ix: TreeIndex)
    requires Consistent(hashes, leaves) && ix in leaves
    ensures InsertAt(hashes, ix, leaves[ix]) == hashes
  {
    hide NodeConsistent, InsertAt;
    InsertConsistent(hashes, leaves, ix, leaves[ix]);
    assert leaves[ix := leaves[ix]] == leaves;
    LeavesDetermineHashes(InsertAt(hashes, ix, leaves[ix]), hashes, leaves);
  }

  // ---------------------------------------------------------------- leaf indices beyond the leaves

  lemma {:induction false} FirstOverflowPath(d: nat)
    requires d <= TREE_DEPTH
    ensures PathAt(TREE_SIZE, d) == Width(d)
  {
    WidthBounds(LEAF_LEVEL);
    if d > 0 {
      FirstOverflowPath(d - 1);
    }
  }

  lemma {:induction false} ZeroPath(d: nat)
    requires d <= TREE_DEPTH
    ensures PathAt(0, d) == 0
  {
    if d > 0 {
      ZeroPath(d - 1);
    }
  }

  lemma OverflowAvoidsZeroPath(d: nat)
    requires d < TREE_DEPTH
    ensures !OnPath(0, SiblingSlot(TREE_SIZE, d))
  {
    FirstOverflowPath(d);
    RunningOffset(d);
    WidthBounds(d);
    assert SiblingSlot(TREE_SIZE, d) == LevelStart(d + 1) + 1;
    forall e: nat | e <= TREE_DEPTH ensures PathSlot(0, e) != SiblingSlot(TREE_SIZE, d) {
      ZeroPath(e);
      WidthBounds(e);
      if d + 1 < TREE_DEPTH {
        SlotInjective(d + 1, 1, e, 0);
      } else {
        SlotBelow(e, 0);
      }
    }
  }

  lemma ZeroAvoidsOverflowPath(d: nat)
    requires d < TREE_DEPTH
    ensures !OnPath(TREE_SIZE, SiblingSlot(0, d))
  {
    ZeroPath(d);
    WidthBounds(d);
    assert Width(d) == 2 * Width(d + 1);
    SlotBelow(d, 1);
    forall e: nat | e <= TREE_DEPTH ensures PathSlot(TREE_SIZE, e) != SiblingSlot(0, d) {
      FirstOverflowPath(e);
      WidthBounds(e);
      if e < TREE_DEPTH {
        RunningOffset(e);
        SlotInjective(d, 1, e + 1, 0);
      } else {
        ClimbEnd(TREE_SIZE);
      }
    }
  }

  /** The nodes on the path from TREE_SIZE are on the path from leaf 0. */
  lemma OverflowPathIsZeroPath(i: TreeIndex)
    requires i < TREE_HASHES && OnPath(TREE_SIZE, i)
    ensures OnPath(0, i)
  {
    ClimbEnd(TREE_SIZE);
    var d: nat :| d <= TREE_DEPTH && PathSlot(TREE_SIZE, d) == i;
    FirstOverflowPath(d);
    RunningOffset(d);
    ZeroPath(d + 1);
    assert PathSlot(0, d + 1) == i;
  }

  /** A later write at leaf 0 covers a write at TREE_SIZE: every node reads as if that had not happened. */
  lemma LeafZeroHeals(hashes: Hashes, h1: Hash, h2: Hash)
    ensures forall i: TreeIndex | i < TREE_HASHES ::
      Get(InsertAt(InsertAt(hashes, TREE_SIZE, h2), 0, h1), i) == Get(InsertAt(hashes, 0, h1), i)
    ensures Root(InsertAt(InsertAt(hashes, TREE_SIZE, h2), 0, h1)) == Root(InsertAt(hashes, 0, h1))
  {
    hide SiblingSlot, InsertAt, OnPath;
    var first := InsertAt(hashes, TREE_SIZE, h2);
    InsertWrites(hashes, TREE_SIZE, h2);
    forall d: nat | d < TREE_DEPTH ensures Get(first, SiblingSlot(0, d)) == Get(hashes, SiblingSlot(0, d)) {
      ZeroAvoidsOverflowPath(d);
    }
    InsertAgrees(first, hashes, 0, h1);
    forall i: TreeIndex | i < TREE_HASHES && !OnPath(0, i) ensures Get(first, i) == Get(hashes, i) {
      if OnPath(TREE_SIZE, i) {
        OverflowPathIsZeroPath(i);
      }
    }
  }

  /**
    Why the range matters: index TREE_SIZE is the parent of leaf 0. After a write there the root no
    longer depends on what leaf 0 holds, so different stores share a root.
  */
  lemma RootForgetsLeaf(h1: Hash, h2: Hash)
    ensures Root(InsertAt(InsertAt(map[], 0, h1), TREE_SIZE, h2)) == Root(InsertAt(map[], TREE_SIZE, h2))
  {
    hide SiblingSlot, InsertAt;
    var first := InsertAt(map[], 0, h1);
    InsertWrites(map[], 0, h1);
    forall d: nat | d < TREE_DEPTH
      ensures Get(first, SiblingSlot(TREE_SIZE, d)) == Get(map[], SiblingSlot(TREE_SIZE, d))
    {
      OverflowAvoidsZeroPath(d);
    }
    InsertAgrees(first, map[], TREE_SIZE, h2);
    FirstOverflowPath(TREE_DEPTH - 1);
    assert PathSlot(TREE_SIZE, TREE_DEPTH - 1) == ROOT_INDEX;
  }
}
