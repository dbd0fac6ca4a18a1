/**
  What a loaded witness proves about the full store with its root: which values any list of hashes and
  values can bring.
*/
module Membership {
  import opened Wrappers
  import opened Hashing
  import opened Numbering
  import opened Keys
  import opened Merkle
  import opened StateTrees
  import opened Replay

  /**
    A value that is no entry and has the hash of an inner node: the value 0 under a key that selects a node
    with an empty left child, and that is the hash of the right child.
  */
  ghost predicate PassesForNode(digest: Digest, full: Tree, key: Key, value: Balance) {
    && key.Block? && value == 0 && key.hash != EMPTY_HASH
    && exists e: nat, q: nat :: 0 < e && IsNode(TreeIndexFromKey(digest, key), e, q)
         && Get(full.hashes, Slot(e - 1, 2 * q)) == EMPTY_HASH && Get(full.hashes, Slot(e - 1, 2 * q + 1)) == key.hash
  }

  lemma {:induction false} WordsAreEmpty(entries: Entries, d: nat, p: nat)
    requires d <= TREE_DEPTH && p < Width(d)
    ensures NodeHash(LeavesOf(entries), d, p).Word? ==> NodeHash(LeavesOf(entries), d, p) == EMPTY_HASH
  {
    if d == 0 {
      WidthBounds(LEAF_LEVEL);
      if p in entries {
        LeafHashInjective(entries[p].value, entries[p].key, entries[p].value, entries[p].key);
      }
    } else {
      WordsAreEmpty(entries, d - 1, 2 * p);
      WordsAreEmpty(entries, d - 1, 2 * p + 1);
    }
  }

  lemma LeafHolds(digest: Digest, full: Tree, key: Key, value: Balance)
    requires HashedTree(digest, full) && TreeIndexFromKey(digest, key) < TREE_SIZE
    ensures Get(full.hashes, TreeIndexFromKey(digest, key)) == LeafHash(value, key) <==> Lookup(digest, full.entries, key) == Some(value)
  {
    hide NodeConsistent, TreeIndexFromKey, NodeAt, LeafHash;
    var ix := TreeIndexFromKey(digest, key);
    ConsistentAt(full.hashes, LeavesOf(full.entries), ix);
    NodeAtLeaf(LeavesOf(full.entries), ix);
    if ix in full.entries {
      LeafHashInjective(full.entries[ix].value, full.entries[ix].key, value, key);
    }
  }

  lemma InnerHolds(digest: Digest, full: Tree, key: Key, value: Balance)
    requires HashedTree(digest, full) && TREE_SIZE <= TreeIndexFromKey(digest, key)
    ensures Get(full.hashes, TreeIndexFromKey(digest, key)) == LeafHash(value, key) <==> PassesForNode(digest, full, key, value)
  {
    hide Slot, TreeIndexFromKey, NodeAt, LeavesOf, Keyed, OnLeaves;
    var ix, leaves := TreeIndexFromKey(digest, key), LeavesOf(full.entries);
    ConsistentAt(full.hashes, leaves, ix);
    var e, q := NodeAtInner(leaves, ix);
    WordsAreEmpty(full.entries, e - 1, 2 * q);
    assert Get(full.hashes, Slot(e - 1, 2 * q)) == NodeHash(leaves, e - 1, 2 * q);
    assert Get(full.hashes, Slot(e - 1, 2 * q + 1)) == NodeHash(leaves, e - 1, 2 * q + 1);
    forall d: nat, p: nat | IsNode(ix, d, p) ensures d == e && p == q {
      SlotInjective(d, p, e, q);
    }
  }

  lemma NodesBeyondLeaves(ix: TreeIndex, e: nat, q: nat)
    requires IsNode(ix, e, q)
    ensures ix < TREE_SIZE <==> e == 0
  {
    WidthBounds(LEAF_LEVEL);
    if 0 < e {
      WidthBounds(1);
      Halves(0);
      WidthHalves(1, e);
    }
  }

  /** The node of a key has the hash of a value exactly when the value is the key's entry or passes for the node. */
  lemma NodeHoldsIff(digest: Digest, full: Tree, key: Key, value: Balance)
    requires HashedTree(digest, full)
    ensures Get(full.hashes, TreeIndexFromKey(digest, key)) == LeafHash(value, key)
       <==> Lookup(digest, full.entries, key) == Some(value) || PassesForNode(digest, full, key, value)
  {
    hide HashedTree, TreeIndexFromKey, LeafHash, Slot;
    var ix := TreeIndexFromKey(digest, key);
    if ix < TREE_SIZE {
      LeafHolds(digest, full, key, value);
      forall e: nat, q: nat | IsNode(ix, e, q) ensures e == 0 {
        NodesBeyondLeaves(ix, e, q);
      }
    } else {
      InnerHolds(digest, full, key, value);
      assert ix !in full.entries by {
        HashedOnLeaves(digest, full);
      }
    }
  }

  lemma HashedOnLeaves(digest: Digest, t: Tree)
    requires HashedTree(digest, t)
    ensures OnLeaves(t.entries)
  {
  }

  /** What loading ensures of an entry. */
  ghost predicate Proven(digest: Digest, full: Tree, key: Key, value: Balance) {
    Get(full.hashes, TreeIndexFromKey(digest, key)) == LeafHash(value, key)
  }

  lemma {:induction false} LoadedValuesAreProven(digest: Digest, t: Tree, root: Hash, values: seq<(Key, Balance)>, full: Tree)
    requires HashedTree(digest, full) && root == Root(full.hashes)
    requires forall ix | ix in t.entries :: Proven(digest, full, t.entries[ix].key, t.entries[ix].value)
    requires LoadValues(digest, t, root, values).Some?
    ensures var loaded := LoadValues(digest, t, root, values).value.entries;
      forall ix | ix in loaded :: Proven(digest, full, loaded[ix].key, loaded[ix].value)
    decreases |values|
  {
    hide InsertAt, NodeConsistent, OnLeaves, Keyed, Root, LeavesRoot, TreeIndexFromKey, NodeAt;
    if values != [] {
      var (key, value) := values[0];
      var ix := TreeIndexFromKey(digest, key);
      var next := TreeSet(digest, t, key, value).GetOr(t);
      if !Collides(digest, t.entries, key) {
        ConsistentRoot(full.hashes, LeavesOf(full.entries));
        InsertProvesNode(t.hashes, LeavesOf(full.entries), ix, LeafHash(value, key));
        ConsistentAt(full.hashes, LeavesOf(full.entries), ix);
        assert Proven(digest, full, key, value);
      }
      LoadedValuesAreProven(digest, next, root, values[1..], full);
    }
  }

  /**
    Membership: whatever a witness lists, if it loads and has the root of a full store, then every value
    it answers with is in that store or passes for an inner node of it.
  */
  lemma WitnessValuesAreMembers(digest: Digest, listed: seq<(TreeIndex, Hash)>, values: seq<(Key, Balance)>, full: Tree, key: Key)
    requires ValidTree(digest, full)
    requires LoadWitness(digest, listed, values).Some?
    requires Root(LoadWitness(digest, listed, values).value.hashes) == Root(full.hashes)
    ensures var found := Lookup(digest, LoadWitness(digest, listed, values).value.entries, key);
      found.Some? ==> Lookup(digest, full.entries, key) == found || PassesForNode(digest, full, key, found.value)
  {
    hide ValidTree, HashedTree, Root, PassesForNode, TreeIndexFromKey;
    ValidIsHashed(digest, full);
    var hashes := WithHashes(map[], listed);
    LoadKeepsRoot(digest, Tree(hashes, map[]), Root(hashes), values);
    LoadedValuesAreProven(digest, Tree(hashes, map[]), Root(hashes), values, full);
    var loaded := LoadWitness(digest, listed, values).value.entries;
    if Lookup(digest, loaded, key).Some? {
      assert Proven(digest, full, key, Lookup(digest, loaded, key).value);
      NodeHoldsIff(digest, full, key, Lookup(digest, loaded, key).value);
    }
  }

  /** A witness with this answer, which loads and has the root. */
  ghost predicate Answers(digest: Digest, listed: seq<(TreeIndex, Hash)>, values: seq<(Key, Balance)>, root: Hash,
                          key: Key, value: Balance) {
    var loaded := LoadWitness(digest, listed, values);
    loaded.Some? && Root(loaded.value.hashes) == root && Lookup(digest, loaded.value.entries, key) == Some(value)
  }

  lemma ProvenIsAnswered(digest: Digest, full: Tree, key: Key, value: Balance) returns (listed: seq<(TreeIndex, Hash)>)
    requires HashedTree(digest, full) && Proven(digest, full, key, value)
    ensures Enumerates(listed, full.hashes) && Answers(digest, listed, [(key, value)], Root(full.hashes), key, value)
  {
    hide InsertAt, NodeConsistent, OnLeaves, Keyed, Root, TreeIndexFromKey;
    listed := EnumerationExists(full.hashes);
    WithHashesListed(listed, full.hashes);
    InsertKeepsRootIff(full.hashes, LeavesOf(full.entries), TreeIndexFromKey(digest, key), LeafHash(value, key));
    var values := [(key, value)];
    var start, next := Tree(full.hashes, map[]), TreeSet(digest, Tree(full.hashes, map[]), key, value).value;
    assert values[1..] == [];
    assert LoadValues(digest, next, Root(full.hashes), values[1..]) == Some(next);
    assert LoadValues(digest, start, Root(full.hashes), values) == Some(next);
  }

  /**
    The exact membership theorem: some witness with the root of the full store answers a key with a value
    if and only if this is the entry of the key or passes for an inner node.
  */
  lemma AnsweredIff(digest: Digest, full: Tree, key: Key, value: Balance)
    requires ValidTree(digest, full)
    ensures (exists listed, values :: Answers(digest, listed, values, Root(full.hashes), key, value))
       <==> Lookup(digest, full.entries, key) == Some(value) || PassesForNode(digest, full, key, value)
  {
    hide ValidTree, HashedTree, Root, PassesForNode, TreeIndexFromKey, LoadWitness, Lookup;
    ValidIsHashed(digest, full);
    NodeHoldsIff(digest, full, key, value);
    forall listed, values | Answers(digest, listed, values, Root(full.hashes), key, value)
      ensures Lookup(digest, full.entries, key) == Some(value) || PassesForNode(digest, full, key, value)
    {
      WitnessValuesAreMembers(digest, listed, values, full, key);
    }
    if Proven(digest, full, key, value) {
      var listed := ProvenIsAnswered(digest, full, key, value);
    }
  }

  /** Raw keys, hence all balances, never pass for a node: a loaded witness answers for them as the full store does, or not at all. */
  lemma RawValuesAreMembers(digest: Digest, full: Tree, key: Key, value: Balance)
    requires ValidTree(digest, full) && key.Raw?
    ensures (exists listed, values :: Answers(digest, listed, values, Root(full.hashes), key, value))
       <==> Lookup(digest, full.entries, key) == Some(value)
  {
    hide ValidTree, Answers, TreeIndexFromKey, Lookup;
    AnsweredIff(digest, full, key, value);
  }

  /**
    A value that passes: next to one entry at leaf 1, the key that is the hash of that entry, when it
    selects the parent of the leaf.
  */
  lemma EntryHashPasses(digest: Digest, entry: KeyValue)
    requires TreeIndexFromKey(digest, entry.key) == 1
    requires TreeIndexFromKey(digest, Block(entry.MerkleValue())) == TREE_SIZE
    ensures var full := TreeSet(digest, EMPTY_TREE, entry.key, entry.value).value;
      var key := Block(entry.MerkleValue());
      && ValidTree(digest, full) && Lookup(digest, full.entries, key) == None
      && exists listed, values :: Answers(digest, listed, values, Root(full.hashes), key, 0)
  {
    hide InsertAt, ValidTree, Answers, Root, TreeIndexFromKey, NodeConsistent, LeafHash, Slot;
    var full, key := TreeSet(digest, EMPTY_TREE, entry.key, entry.value).value, Block(entry.MerkleValue());
    EmptyTreeValid(digest);
    SetValid(digest, EMPTY_TREE, entry.key, entry.value);
    InsertLeaf(map[], 1, entry.MerkleValue(), 0);
    InsertLeaf(map[], 1, entry.MerkleValue(), 1);
    LowestSlots();
    assert IsNode(TREE_SIZE, 1, 0);
    assert PassesForNode(digest, full, key, 0);
    AnsweredIff(digest, full, key, 0);
  }
}
