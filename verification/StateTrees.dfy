/** The keyed store over the Merkle tree. */
module StateTrees {
  import opened Wrappers
  import opened Hashing
  import opened Numbering
  import opened Keys
  import opened Merkle

  datatype KeyValue = KeyValue(value: Balance, key: Key) {
    function MerkleValue(): Hash { LeafHash(value, key) }
  }

  type Entries = map<TreeIndex, KeyValue>

  /** The value of a store: what the fields of a `StateTree` object hold. */
  datatype Tree = Tree(hashes: Hashes, entries: Entries)

  const EMPTY_TREE: Tree := Tree(map[], map[])

  function Lookup(digest: Digest, entries: Entries, key: Key): Option<Balance> {
    var ix := TreeIndexFromKey(digest, key);
    if ix in entries && entries[ix].key == key then Some(entries[ix].value) else None
  }

  /** Another key sits at the leaf of `key`. */
  predicate Collides(digest: Digest, entries: Entries, key: Key) {
    var ix := TreeIndexFromKey(digest, key);
    ix in entries && entries[ix].key != key
  }

  function TreeSet(digest: Digest, t: Tree, key: Key, value: Balance): Option<Tree> {
    if Collides(digest, t.entries, key) then None
    else
      var ix := TreeIndexFromKey(digest, key);
      var entry := KeyValue(value, key);
      Some(Tree(InsertAt(t.hashes, ix, entry.MerkleValue()), t.entries[ix := entry]))
  }

  // ---------------------------------------------------------------- validity

  ghost function LeavesOf(entries: Entries): Leaves {
    map ix | ix in entries :: entries[ix].MerkleValue()
  }

  /** Every entry sits at the index of its key. */
  ghost predicate Keyed(digest: Digest, entries: Entries) {
    forall ix | ix in entries :: TreeIndexFromKey(digest, entries[ix].key) == ix
  }

  /** Every entry sits at a leaf. */
  ghost predicate OnLeaves(entries: Entries) {
    forall ix | ix in entries :: ix < TREE_SIZE
  }

  ghost predicate ValidTree(digest: Digest, t: Tree) {
    Keyed(digest, t.entries) && Consistent(t.hashes, LeavesOf(t.entries))
  }

  /** The nodes have the hashes of the entries, which are all at leaves; other indices may hold anything. */
  ghost predicate HashedTree(digest: Digest, t: Tree) {
    Keyed(digest, t.entries) && OnLeaves(t.entries) && NodeConsistent(t.hashes, LeavesOf(t.entries))
  }

  lemma ValidIsHashed(digest: Digest, t: Tree)
    ensures ValidTree(digest, t) <==> HashedTree(digest, t) && Sparse(t.hashes)
  {
    hide NodeConsistent, Sparse, TreeIndexFromKey;
    assert forall ix | ix in t.entries :: ix in LeavesOf(t.entries);
  }

  lemma ValidOnLeaves(digest: Digest, t: Tree)
    requires ValidTree(digest, t)
    ensures OnLeaves(t.entries) && TREE_HASHES !in t.hashes
  {
    hide NodeConsistent;
    assert forall ix | ix in t.entries :: ix in LeavesOf(t.entries);
  }

  lemma EmptyTreeValid(digest: Digest)
    ensures ValidTree(digest, EMPTY_TREE)
  {
    EmptyConsistent();
    assert LeavesOf(EMPTY_TREE.entries) == map[];
  }

  /** Every `set`, whatever index its key selects, keeps entries at the indices of their keys. */
  lemma SetKeyed(digest: Digest, t: Tree, key: Key, value: Balance)
    requires Keyed(digest, t.entries) && TreeSet(digest, t, key, value).Some?
    ensures Keyed(digest, TreeSet(digest, t, key, value).value.entries)
  {
    hide InsertAt, TreeIndexFromKey;
  }

  /** A successful `set` is a map update and nothing else, for any store. */
  lemma SetLookup(digest: Digest, t: Tree, key: Key, value: Balance, other: Key)
    requires TreeSet(digest, t, key, value).Some?
    ensures Lookup(digest, TreeSet(digest, t, key, value).value.entries, other)
         == if other == key then Some(value) else Lookup(digest, t.entries, other)
  {
    hide InsertAt;
  }

  /**
    A successful `set` of a valid store gives a valid store if and only if the key selects an index below
    TREE_SIZE; for any other raw key not even the root is that of some set of leaves. Whatever the key, the
    root stays as it is exactly when the node already has the hash of the value.
  */
  lemma SetValid(digest: Digest, t: Tree, key: Key, value: Balance)
    requires ValidTree(digest, t) && TreeSet(digest, t, key, value).Some?
    ensures ValidTree(digest, TreeSet(digest, t, key, value).value) <==> TreeIndexFromKey(digest, key) < TREE_SIZE
    ensures key.Raw? ==>
      ((exists leaves: Leaves :: Root(TreeSet(digest, t, key, value).value.hashes) == LeavesRoot(leaves))
        <==> TreeIndexFromKey(digest, key) < TREE_SIZE)
    ensures Root(TreeSet(digest, t, key, value).value.hashes) == Root(t.hashes)
       <==> Get(t.hashes, TreeIndexFromKey(digest, key)) == LeafHash(value, key)
  {
    hide InsertAt, NodeConsistent, Sparse, ProperLeaves, Root, LeavesRoot, TreeIndexFromKey;
    var ix := TreeIndexFromKey(digest, key);
    var entry := KeyValue(value, key);
    var t' := TreeSet(digest, t, key, value).value;
    assert t'.entries[ix] == entry;
    assert LeavesOf(t.entries[ix := entry]) == LeavesOf(t.entries)[ix := entry.MerkleValue()];
    InsertConsistent(t.hashes, LeavesOf(t.entries), ix, entry.MerkleValue());
    InsertKeepsRootIff(t.hashes, LeavesOf(t.entries), ix, entry.MerkleValue());
    if key.Raw? {
      InsertIsTreeIff(t.hashes, LeavesOf(t.entries), ix, value, key);
    }
  }

  /** The entries determine the tree, so stores that agree on their entries agree on every hash. */
  lemma EntriesDetermineTree(digest: Digest, t1: Tree, t2: Tree)
    requires ValidTree(digest, t1) && ValidTree(digest, t2)
    ensures t1 == t2 <==> t1.entries == t2.entries
  {
    hide Consistent;
    if t1.entries == t2.entries {
      LeavesDetermineHashes(t1.hashes, t2.hashes, LeavesOf(t1.entries));
    }
  }

  lemma LeavesDetermineEntries(e1: Entries, e2: Entries)
    requires LeavesOf(e1) == LeavesOf(e2)
    ensures e1 == e2
  {
    assert LeavesOf(e1).Keys == e1.Keys && LeavesOf(e2).Keys == e2.Keys;
    forall ix | ix in e1 ensures e1[ix] == e2[ix] {
      assert LeavesOf(e1)[ix] == LeavesOf(e2)[ix];
    }
  }

  /** The root determines the store. */
  lemma RootDeterminesTree(digest: Digest, t1: Tree, t2: Tree)
    requires ValidTree(digest, t1) && ValidTree(digest, t2)
    ensures Root(t1.hashes) == Root(t2.hashes) <==> t1 == t2
  {
    hide NodeConsistent, Sparse, Root, LeavesRoot;
    if Root(t1.hashes) == Root(t2.hashes) {
      ConsistentRoot(t1.hashes, LeavesOf(t1.entries));
      ConsistentRoot(t2.hashes, LeavesOf(t2.entries));
      RootDeterminesLeaves(LeavesOf(t1.entries), LeavesOf(t2.entries));
      LeavesDetermineEntries(t1.entries, t2.entries);
      EntriesDetermineTree(digest, t1, t2);
    }
  }

  /**
    Outside the range the root does not determine the store: once a key has selected index TREE_SIZE,
    the root forgets the value of the key at leaf 0.
  */
  lemma RootForgetsEntry(digest: Digest, low: Key, high: Key, v: Balance, w: Balance, x: Balance)
    requires TreeIndexFromKey(digest, low) == 0 && TreeIndexFromKey(digest, high) == TREE_SIZE && v != w
    ensures var one := TreeSet(digest, EMPTY_TREE, low, v).value;
      var two := TreeSet(digest, EMPTY_TREE, low, w).value;
      && TreeSet(digest, one, high, x).Some? && TreeSet(digest, two, high, x).Some?
      && TreeSet(digest, one, high, x).value.entries != TreeSet(digest, two, high, x).value.entries
      && Root(TreeSet(digest, one, high, x).value.hashes) == Root(TreeSet(digest, two, high, x).value.hashes)
  {
    hide InsertAt, Root, TreeIndexFromKey;
    RootForgetsLeaf(LeafHash(v, low), LeafHash(x, high));
    RootForgetsLeaf(LeafHash(w, low), LeafHash(x, high));
    var one, two := TreeSet(digest, EMPTY_TREE, low, v).value, TreeSet(digest, EMPTY_TREE, low, w).value;
    assert TreeSet(digest, one, high, x).value.entries[0] == KeyValue(v, low);
    assert TreeSet(digest, two, high, x).value.entries[0] == KeyValue(w, low);
  }

  /**
    And the entries do not determine the root: setting a key at leaf 0 and one at index TREE_SIZE in either
    order gives the same entries and different roots.
  */
  lemma RootDependsOnOrder(digest: Digest, low: Key, high: Key, v: Balance, x: Balance)
    requires TreeIndexFromKey(digest, low) == 0 && TreeIndexFromKey(digest, high) == TREE_SIZE
    ensures var one := TreeSet(digest, EMPTY_TREE, low, v).value;
      var two := TreeSet(digest, EMPTY_TREE, high, x).value;
      && TreeSet(digest, one, high, x).Some? && TreeSet(digest, two, low, v).Some?
      && TreeSet(digest, one, high, x).value.entries == TreeSet(digest, two, low, v).value.entries
      && Root(TreeSet(digest, one, high, x).value.hashes) != Root(TreeSet(digest, two, low, v).value.hashes)
  {
    hide InsertAt, Root, TreeIndexFromKey, NodeConsistent, Sparse, LeavesRoot, NodeAt;
    RootForgetsLeaf(LeafHash(v, low), LeafHash(x, high));
    LeafZeroHeals(map[], LeafHash(v, low), LeafHash(x, high));
    EmptyConsistent();
    InsertRefines(map[], map[], 0, LeafHash(v, low));
    var leaves: Leaves := map[][0 := LeafHash(v, low)];
    ParentOfLeaves(leaves);
    if Root(InsertAt(map[], TREE_SIZE, LeafHash(x, high))) == LeavesRoot(leaves) {
      InsertProvesNode(map[], leaves, TREE_SIZE, LeafHash(x, high));
    }
  }

  /** TREE_SIZE is the parent of leaves 0 and 1. */
  lemma ParentOfLeaves(leaves: Leaves)
    ensures NodeAt(leaves, TREE_SIZE) == HashPair(Get(leaves, 0), Get(leaves, 1))
  {
    hide NodeHash, NodeAt, Slot, Width;
    LowestSlots();
    var e, q := NodeAtInner(leaves, TREE_SIZE);
    SlotInjective(e, q, 1, 0);
    NodeAtLeaf(leaves, 0);
    NodeAtLeaf(leaves, 1);
    NodeAtSlot(leaves, 0, 0);
    NodeAtSlot(leaves, 0, 1);
  }

  /** Such a store can have the root of a valid one: the root shows nothing of the entry at TREE_SIZE. */
  lemma RootHidesEntry(digest: Digest, low: Key, high: Key, v: Balance, x: Balance)
    requires TreeIndexFromKey(digest, low) == 0 && TreeIndexFromKey(digest, high) == TREE_SIZE
    ensures var valid := TreeSet(digest, EMPTY_TREE, low, v).value;
      var two := TreeSet(digest, EMPTY_TREE, high, x).value;
      && ValidTree(digest, valid) && Lookup(digest, valid.entries, high) == None
      && TreeSet(digest, two, low, v).Some? && Lookup(digest, TreeSet(digest, two, low, v).value.entries, high) == Some(x)
      && Root(TreeSet(digest, two, low, v).value.hashes) == Root(valid.hashes)
  {
    hide InsertAt, Root, TreeIndexFromKey, ValidTree, LeavesRoot, NodeHash;
    EmptyTreeValid(digest);
    SetValid(digest, EMPTY_TREE, low, v);
    LeafZeroHeals(map[], LeafHash(v, low), LeafHash(x, high));
  }

  // ---------------------------------------------------------------- persistence

  /** Sets the entries read from a stream, one after the other, ignoring the result of `set`. */
  function Restore(digest: Digest, t: Tree, stream: seq<KeyValue>): Tree
    decreases |stream|
  {
    if stream == [] then t
    else Restore(digest, TreeSet(digest, t, stream[0].key, stream[0].value).GetOr(t), stream[1..])
  }

  /** The stream lists every entry once, in any order. */
  ghost predicate Lists(digest: Digest, stream: seq<KeyValue>, entries: Entries) {
    && (forall i | 0 <= i < |stream| :: TreeIndexFromKey(digest, stream[i].key) in entries
          && entries[TreeIndexFromKey(digest, stream[i].key)] == stream[i])
    && (forall i, j | 0 <= i < j < |stream| :: stream[i] != stream[j])
    && (forall ix | ix in entries :: entries[ix] in stream)
  }

  /** The entries that have been read from the stream. */
  ghost function Among(entries: Entries, done: seq<KeyValue>): Entries {
    map ix | ix in entries && entries[ix] in done :: entries[ix]
  }

  lemma {:induction false} RestoreInParts(digest: Digest, t: Tree, a: seq<KeyValue>, b: seq<KeyValue>)
    ensures Restore(digest, t, a + b) == Restore(digest, Restore(digest, t, a), b)
    decreases |a|
  {
    hide TreeSet;
    if a == [] {
      assert a + b == b;
    } else {
      assert (a + b)[0] == a[0] && (a + b)[1..] == a[1..] + b;
      RestoreInParts(digest, TreeSet(digest, t, a[0].key, a[0].value).GetOr(t), a[1..], b);
    }
  }

  /** An entry in the stream whose leaf another key has taken is passed over, and the rest restored. */
  lemma CollidingEntrySkipped(digest: Digest, t: Tree, a: seq<KeyValue>, kv: KeyValue, b: seq<KeyValue>)
    requires Collides(digest, Restore(digest, t, a).entries, kv.key)
    ensures Restore(digest, t, a + ([kv] + b)) == Restore(digest, t, a + b)
  {
    hide Collides;
    RestoreInParts(digest, t, a, [kv] + b);
    RestoreInParts(digest, t, a, b);
    assert ([kv] + b)[0] == kv && ([kv] + b)[1..] == b;
  }

  lemma RestoreOne(digest: Digest, t: Tree, done: seq<KeyValue>, kv: KeyValue, entries: Entries)
    requires Keyed(digest, entries) && t.entries == Among(entries, done)
    requires var ix := TreeIndexFromKey(digest, kv.key); ix in entries && entries[ix] == kv
    ensures TreeSet(digest, t, kv.key, kv.value).Some?
    ensures TreeSet(digest, t, kv.key, kv.value).value.entries == Among(entries, done + [kv])
  {
    hide InsertAt, TreeIndexFromKey;
  }

  lemma {:induction false} RestorePart(digest: Digest, t: Tree, stream: seq<KeyValue>, done: seq<KeyValue>, entries: Entries)
    requires Keyed(digest, entries) && Lists(digest, done + stream, entries) && t.entries == Among(entries, done)
    ensures Restore(digest, t, stream).entries == entries
    decreases |stream|
  {
    hide TreeIndexFromKey, TreeSet, Keyed;
    if stream == [] {
      assert done + stream == done;
    } else {
      assert (done + stream)[|done|] == stream[0];
      RestoreOne(digest, t, done, stream[0], entries);
      assert done + stream == (done + [stream[0]]) + stream[1..];
      RestorePart(digest, TreeSet(digest, t, stream[0].key, stream[0].value).value, stream[1..], done + [stream[0]], entries);
    }
  }

  lemma {:induction false} RestoreValid(digest: Digest, t: Tree, stream: seq<KeyValue>)
    requires ValidTree(digest, t) && forall kv | kv in stream :: TreeIndexFromKey(digest, kv.key) < TREE_SIZE
    ensures ValidTree(digest, Restore(digest, t, stream))
    decreases |stream|
  {
    hide ValidTree, TreeSet, TreeIndexFromKey;
    if stream != [] {
      assert stream[0] in stream && forall kv | kv in stream[1..] :: kv in stream;
      if TreeSet(digest, t, stream[0].key, stream[0].value).Some? {
        SetValid(digest, t, stream[0].key, stream[0].value);
      }
      RestoreValid(digest, TreeSet(digest, t, stream[0].key, stream[0].value).GetOr(t), stream[1..]);
    }
  }

  /**
    Saving a store and loading it again restores its entries, in whatever order they were listed, and all
    hashes with the root when the store is valid.
  */
  lemma RestoreRoundTrip(digest: Digest, t: Tree, stream: seq<KeyValue>)
    requires Keyed(digest, t.entries) && Lists(digest, stream, t.entries)
    ensures Restore(digest, EMPTY_TREE, stream).entries == t.entries
    ensures ValidTree(digest, t) ==> Restore(digest, EMPTY_TREE, stream) == t
  {
    hide Consistent, Restore, TreeIndexFromKey;
    assert [] + stream == stream;
    RestorePart(digest, EMPTY_TREE, stream, [], t.entries);
    if ValidTree(digest, t) {
      EmptyTreeValid(digest);
      ValidOnLeaves(digest, t);
      RestoreValid(digest, EMPTY_TREE, stream);
      EntriesDetermineTree(digest, Restore(digest, EMPTY_TREE, stream), t);
    }
  }

  // ---------------------------------------------------------------- loading a witness

  /** Puts listed hashes into the map; a later entry for an index replaces an earlier one. */
  function WithHashes(hashes: Hashes, listed: seq<(TreeIndex, Hash)>): Hashes
    decreases |listed|
  {
    if listed == [] then hashes else WithHashes(hashes[listed[0].0 := listed[0].1], listed[1..])
  }

  /** Sets the listed values, as long as none of them changes the root. */
  function LoadValues(digest: Digest, t: Tree, root: Hash, values: seq<(Key, Balance)>): Option<Tree>
    decreases |values|
  {
    if values == [] then Some(t)
    else
      var next := TreeSet(digest, t, values[0].0, values[0].1).GetOr(t);
      if Root(next.hashes) != root then None else LoadValues(digest, next, root, values[1..])
  }

  function LoadWitness(digest: Digest, listed: seq<(TreeIndex, Hash)>, values: seq<(Key, Balance)>): Option<Tree> {
    var hashes := WithHashes(map[], listed);
    LoadValues(digest, Tree(hashes, map[]), Root(hashes), values)
  }

  lemma {:induction false} UnlistedHash(hashes: Hashes, listed: seq<(TreeIndex, Hash)>, k: TreeIndex)
    requires forall i | 0 <= i < |listed| :: listed[i].0 != k
    ensures Get(WithHashes(hashes, listed), k) == Get(hashes, k)
    decreases |listed|
  {
    if listed != [] {
      UnlistedHash(hashes[listed[0].0 := listed[0].1], listed[1..], k);
    }
  }

  /** An index that is listed more than once reads as it was listed last. */
  lemma {:induction false} LastListedHash(hashes: Hashes, listed: seq<(TreeIndex, Hash)>, i: nat)
    requires i < |listed| && forall j | i < j < |listed| :: listed[j].0 != listed[i].0
    ensures Get(WithHashes(hashes, listed), listed[i].0) == listed[i].1
    decreases i
  {
    var next, rest := hashes[listed[0].0 := listed[0].1], listed[1..];
    if i == 0 {
      UnlistedHash(next, rest, listed[0].0);
    } else {
      assert rest[i - 1] == listed[i];
      LastListedHash(next, rest, i - 1);
    }
  }

  lemma {:induction false} LoadInParts(digest: Digest, t: Tree, root: Hash, a: seq<(Key, Balance)>, b: seq<(Key, Balance)>)
    ensures LoadValues(digest, t, root, a + b)
         == match LoadValues(digest, t, root, a) case None => None case Some(next) => LoadValues(digest, next, root, b)
    decreases |a|
  {
    hide TreeSet, Root;
    if a == [] {
      assert a + b == b;
    } else {
      assert (a + b)[0] == a[0] && (a + b)[1..] == a[1..] + b;
      LoadInParts(digest, TreeSet(digest, t, a[0].0, a[0].1).GetOr(t), root, a[1..], b);
    }
  }

  /** A listed value whose leaf another key has taken is passed over: the witness loads, or does not, as without it. */
  lemma CollidingValueIgnored(digest: Digest, t: Tree, a: seq<(Key, Balance)>, kv: (Key, Balance), b: seq<(Key, Balance)>)
    ensures var loaded := LoadValues(digest, t, Root(t.hashes), a);
      loaded.Some? && Collides(digest, loaded.value.entries, kv.0) ==>
        LoadValues(digest, t, Root(t.hashes), a + ([kv] + b)) == LoadValues(digest, t, Root(t.hashes), a + b)
  {
    hide Collides, Root;
    var root := Root(t.hashes);
    LoadInParts(digest, t, root, a, [kv] + b);
    LoadInParts(digest, t, root, a, b);
    var loaded := LoadValues(digest, t, root, a);
    if loaded.Some? && Collides(digest, loaded.value.entries, kv.0) {
      LoadKeepsRoot(digest, t, root, a);
      assert ([kv] + b)[0] == kv && ([kv] + b)[1..] == b;
      assert TreeSet(digest, loaded.value, kv.0, kv.1).GetOr(loaded.value) == loaded.value;
    }
  }

  lemma {:induction false} LoadKeepsRoot(digest: Digest, t: Tree, root: Hash, values: seq<(Key, Balance)>)
    requires Root(t.hashes) == root && LoadValues(digest, t, root, values).Some?
    ensures Root(LoadValues(digest, t, root, values).value.hashes) == root
    decreases |values|
  {
    hide TreeSet, Root;
    if values != [] {
      LoadKeepsRoot(digest, TreeSet(digest, t, values[0].0, values[0].1).GetOr(t), root, values[1..]);
    }
  }

  // ---------------------------------------------------------------- the object

  class StateTree {
    const digest: Digest
    const tree: MerkleTree
    var entries: Entries

    ghost function Model(): Tree
      reads this, tree
    {
      Tree(tree.hashes, entries)
    }

    constructor (digest: Digest)
      ensures this.digest == digest && fresh(tree) && Model() == EMPTY_TREE
    {
      this.digest := digest;
      tree := new MerkleTree();
      entries := map[];
    }

    method GetValue(key: Key) returns (v: Option<Balance>)
      ensures v == Lookup(digest, entries, key)
    {
      var ix := TreeIndexFromKey(digest, key);
      if ix in entries {
        if entries[ix].key != key {
          return None;
        }
        return Some(entries[ix].value);
      }
      return None;
    }

    method Set(key: Key, value: Balance) returns (ok: bool)
      modifies this, tree
      ensures ok <==> !Collides(digest, old(entries), key)
      ensures ok ==> Some(Model()) == TreeSet(digest, old(Model()), key, value)
      ensures !ok ==> Model() == old(Model()) && TreeSet(digest, old(Model()), key, value) == None
    {
      var ix := TreeIndexFromKey(digest, key);
      if ix in entries {
        if entries[ix].key == key {
          entries := entries[ix := KeyValue(value, entries[ix].key)];
          tree.Insert(ix, entries[ix].MerkleValue());
        } else {
          return false;
        }
      } else {
        var entry := KeyValue(value, key);
        tree.Insert(ix, entry.MerkleValue());
        entries := entries[ix := entry];
      }
      return true;
    }

    static method InitFromWitness(digest: Digest, witnessHashes: seq<(TreeIndex, Hash)>, witnessValues: seq<(Key, Balance)>)
        returns (r: StateTree?)
      ensures r == null <==> LoadWitness(digest, witnessHashes, witnessValues).None?
      ensures r != null ==> fresh(r) && fresh(r.tree) && r.digest == digest
      ensures r != null ==> Some(r.Model()) == LoadWitness(digest, witnessHashes, witnessValues)
    {
      hide InsertAt, NodeConsistent, TreeSet, Collides;
      var result := new StateTree(digest);
      for i := 0 to |witnessHashes|
        invariant result.entries == map[]
        invariant WithHashes(result.tree.hashes, witnessHashes[i..]) == WithHashes(map[], witnessHashes)
      {
        var (index, hash) := witnessHashes[i];
        result.tree.hashes := result.tree.hashes[index := hash];
      }
      var witnessRoot := result.tree.TreeRoot();
      ghost var start := result.Model();
      assert start == Tree(WithHashes(map[], witnessHashes), map[]);
      for i := 0 to |witnessValues|
        invariant LoadValues(digest, result.Model(), witnessRoot, witnessValues[i..])
               == LoadWitness(digest, witnessHashes, witnessValues)
      {
        var (key, value) := witnessValues[i];
        ghost var before := result.Model();
        var ok := result.Set(key, value);
        assert result.Model() == TreeSet(digest, before, key, value).GetOr(before);
        assert witnessValues[i..][1..] == witnessValues[i + 1..];
        if result.tree.TreeRoot() != witnessRoot {
          return null;
        }
      }
      return result;
    }
  }
}
