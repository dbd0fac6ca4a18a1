/**
  The flat numbering of the tree: all levels of a binary tree with 2^15 leaves are packed into one
  16-bit index space, level after level, leaves first and the root last.
*/
module Numbering {

  const TREE_DEPTH: nat := 15
  const LEAF_LEVEL: nat := 0
  const TREE_SIZE: nat := 0x8000
  const TREE_HASHES: nat := 2 * TREE_SIZE - 1
  const ROOT_INDEX: TreeIndex := TREE_HASHES - 1

  /** The program's u16 index. */
  type TreeIndex = i: int | 0 <= i < 0x1_0000

  function Pow2(n: nat): (r: nat)
    ensures 1 <= r
  {
    if n == 0 then 1 else 2 * Pow2(n - 1)
  }

  /** The number of nodes of level d. */
  function Width(d: nat): nat
    requires d <= TREE_DEPTH
  {
    Pow2(TREE_DEPTH - d)
  }

  lemma WidthBounds(d: nat)
    requires d <= TREE_DEPTH
    ensures 1 <= Width(d) <= Width(LEAF_LEVEL) == TREE_SIZE
  {
    assert Pow2(4) == 16;
    assert Pow2(8) == 256;
    assert Pow2(12) == 4096;
    assert Pow2(15) == TREE_SIZE;
    WidthHalves(LEAF_LEVEL, d);
  }

  lemma {:induction false} WidthHalves(d: nat, e: nat)
    requires d <= e <= TREE_DEPTH
    ensures d < e ==> 2 * Width(e) <= Width(d)
    ensures Width(e) <= Width(d)
    decreases e - d
  {
    if d < e {
      WidthHalves(d + 1, e);
    }
  }

  /** The index at which level d starts. */
  function LevelStart(d: nat): int
    requires d <= TREE_DEPTH
  {
    2 * TREE_SIZE - 2 * Width(d)
  }

  /** The flat index of position `at` counted from the start of level d. */
  function Slot(d: nat, at: nat): TreeIndex
    requires d <= TREE_DEPTH && at < 2 * Width(d)
  {
    WidthBounds(d);
    LevelStart(d) + at
  }

  /** The position of leaf `ix`, or of its ancestor, on level d. */
  function PathAt(ix: nat, d: nat): nat {
    if d == 0 then ix else PathAt(ix, d - 1) / 2
  }

  /** The other child of the parent of position `at`. */
  function Sibling(at: nat): (s: nat)
    ensures s != at && s / 2 == at / 2
  {
    if at % 2 == 0 then at + 1 else at - 1
  }

  lemma {:induction false} PathBounds(ix: nat, d: nat)
    requires d <= TREE_DEPTH
    ensures ix < 2 * TREE_SIZE ==> PathAt(ix, d) < 2 * Width(d)
    ensures ix < TREE_SIZE ==> PathAt(ix, d) < Width(d)
    ensures TREE_SIZE <= ix ==> Width(d) <= PathAt(ix, d)
  {
    WidthBounds(LEAF_LEVEL);
    if d > 0 {
      PathBounds(ix, d - 1);
    }
  }

  /** The index of leaf `ix`, or of its ancestor, on level d: the index that a climb writes. */
  function PathSlot(ix: TreeIndex, d: nat): TreeIndex
    requires d <= TREE_DEPTH
  {
    WidthBounds(LEAF_LEVEL); PathBounds(ix, d);
    Slot(d, PathAt(ix, d))
  }

  /** The index that a climb reads on level d. */
  function SiblingSlot(ix: TreeIndex, d: nat): TreeIndex
    requires d < TREE_DEPTH
  {
    WidthBounds(LEAF_LEVEL); PathBounds(ix, d);
    Slot(d, Sibling(PathAt(ix, d)))
  }

  ghost predicate OnPath(ix: TreeIndex, i: TreeIndex) {
    exists d: nat :: d <= TREE_DEPTH && PathSlot(ix, d) == i
  }

  /** The start of each level is what adding up the sizes of the levels below gives. */
  lemma RunningOffset(d: nat)
    requires d < TREE_DEPTH
    ensures LevelStart(0) == 0
    ensures LevelStart(d + 1) == LevelStart(d) + Width(d)
    ensures LevelStart(TREE_DEPTH) == ROOT_INDEX
  {
    WidthBounds(LEAF_LEVEL);
  }

  /** The indices that a climb writes and reads, as offsets from the start of the level; they fit in 16 bits. */
  lemma SlotOffsets(ix: TreeIndex, d: nat)
    requires d <= TREE_DEPTH
    ensures PathSlot(ix, d) == LevelStart(d) + PathAt(ix, d)
    ensures d < TREE_DEPTH ==>
      SiblingSlot(ix, d) == if PathAt(ix, d) % 2 == 0 then PathSlot(ix, d) + 1 else PathSlot(ix, d) - 1
  {
    WidthBounds(d);
    PathBounds(ix, d);
  }

  /** Distinct nodes have distinct indices: level ranges are disjoint. */
  lemma SlotInjective(d: nat, p: nat, e: nat, q: nat)
    requires d <= TREE_DEPTH && p < Width(d)
    requires e <= TREE_DEPTH && q < Width(e)
    ensures Slot(d, p) == Slot(e, q) <==> d == e && p == q
  {
    if d < e {
      WidthHalves(d, e);
    } else if e < d {
      WidthHalves(e, d);
    }
  }

  /** Every node has an index below TREE_HASHES, and a node of every level d has one. */
  lemma SlotBelow(d: nat, p: nat)
    requires d <= TREE_DEPTH && p < Width(d)
    ensures Slot(d, p) < TREE_HASHES
    ensures Slot(d, p) == ROOT_INDEX <==> d == TREE_DEPTH
  {
    WidthBounds(LEAF_LEVEL);
    if d < TREE_DEPTH {
      WidthHalves(d, TREE_DEPTH);
    }
  }

  /** Every index below TREE_HASHES is the index of a node. */
  lemma Locate(i: nat) returns (d: nat, p: nat)
    requires i < TREE_HASHES
    ensures d <= TREE_DEPTH && p < Width(d) && Slot(d, p) == i
  {
    WidthBounds(LEAF_LEVEL);
    d := 0;
    while LevelStart(d) + Width(d) <= i
      invariant d <= TREE_DEPTH && LevelStart(d) <= i
      decreases TREE_DEPTH - d
    {
      RunningOffset(d);
      d := d + 1;
    }
    p := i - LevelStart(d);
  }

  /** A climb from a leaf index below TREE_SIZE ends at the root; from any other index it ends beyond every node. */
  lemma ClimbEnd(ix: TreeIndex)
    ensures ix < TREE_SIZE <==> PathSlot(ix, TREE_DEPTH) == ROOT_INDEX
    ensures TREE_SIZE <= ix <==> PathSlot(ix, TREE_DEPTH) == TREE_HASHES
  {
    WidthBounds(LEAF_LEVEL);
    PathBounds(ix, TREE_DEPTH);
  }

  /**
    The flat index alone decides where a climb goes next: from an index that is node q of level e, it
    reads that node's sibling and continues at that node's parent, whatever level it believes to be on.
  */
  lemma ParentSlot(ix: TreeIndex, d: nat, e: nat, q: nat)
    requires d <= TREE_DEPTH && e < TREE_DEPTH && q < Width(e) && PathSlot(ix, d) == Slot(e, q)
    ensures d < TREE_DEPTH && q / 2 < Width(e + 1) && Sibling(q) < Width(e)
    ensures PathAt(ix, d) % 2 == q % 2
    ensures SiblingSlot(ix, d) == Slot(e, Sibling(q))
    ensures PathSlot(ix, d + 1) == Slot(e + 1, q / 2)
  {
    WidthBounds(LEAF_LEVEL);
    PathBounds(ix, d);
    Halves(e);
    if d < TREE_DEPTH {
      Halves(d);
      PathBounds(ix, d + 1);
      hide Width;
      HalfOffset(Width(d + 1), Width(e + 1), PathAt(ix, d), q);
    }
  }

  lemma Halves(d: nat)
    requires d < TREE_DEPTH
    ensures Width(d) == 2 * Width(d + 1)
  {
  }

  lemma HalfOffset(v: nat, w: nat, p: nat, q: nat)
    requires p - 4 * v == q - 4 * w
    ensures p % 2 == q % 2
    ensures p / 2 - 2 * v == q / 2 - 2 * w
  {
  }

  /** After the root a climb goes to TREE_HASHES and stays there. */
  lemma BeyondRoot(ix: TreeIndex, d: nat)
    requires d < TREE_DEPTH && (PathSlot(ix, d) == ROOT_INDEX || PathSlot(ix, d) == TREE_HASHES)
    ensures PathSlot(ix, d + 1) == TREE_HASHES
  {
    WidthBounds(LEAF_LEVEL);
    PathBounds(ix, d);
    assert Width(d) == 2 * Width(d + 1);
  }

  /** The first two leaves and their parent. */
  lemma LowestSlots()
    ensures 0 < Width(1) && Slot(1, 0) == TREE_SIZE
    ensures 1 < Width(0) && Slot(0, 0) == 0 && Slot(0, 1) == 1
  {
    hide Width, Slot;
    FirstOfLevel(1);
    FirstOfLevel(0);
  }

  lemma FirstOfLevel(d: nat)
    requires d <= 1
    ensures 1 < Width(d) && Slot(d, 0) == d * TREE_SIZE && Slot(d, 1) == d * TREE_SIZE + 1
  {
    WidthBounds(d);
    WidthHalves(1, TREE_DEPTH - 1);
    if d == 1 {
      Halves(d - 1);
    }
    Halves(TREE_DEPTH - 1);
  }

  /** The one index beyond the nodes that a climb may read is beside the root. */
  lemma SiblingBeyond(ix: TreeIndex, d: nat)
    requires d < TREE_DEPTH && TREE_HASHES <= SiblingSlot(ix, d)
    ensures PathSlot(ix, d) == ROOT_INDEX
  {
    WidthBounds(LEAF_LEVEL);
    PathBounds(ix, d);
    Halves(d);
  }

  lemma {:induction false} StaysBeyond(ix: TreeIndex, d: nat)
    requires d <= TREE_DEPTH && PathSlot(ix, d) == TREE_HASHES
    ensures forall e: nat | d <= e <= TREE_DEPTH :: PathSlot(ix, e) == TREE_HASHES
    decreases TREE_DEPTH - d
  {
    hide PathSlot;
    if d < TREE_DEPTH {
      BeyondRoot(ix, d);
      StaysBeyond(ix, d + 1);
    }
  }

  /** Below TREE_SIZE a path visits nodes only. */
  lemma PathBelow(ix: TreeIndex, i: TreeIndex)
    requires ix < TREE_SIZE && OnPath(ix, i)
    ensures i < TREE_HASHES
  {
    var d: nat :| d <= TREE_DEPTH && PathSlot(ix, d) == i;
    PathBounds(ix, d);
    SlotBelow(d, PathAt(ix, d));
  }
}
