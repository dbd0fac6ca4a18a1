/**
  Stateless replay: loading the recorded witness gives a partial store on which the same accesses
  have the same outcome and lead to the same root.
*/
module Replay {
  import opened Wrappers
  import opened Hashing
  import opened Numbering
  import opened Keys
  import opened Merkle
  import opened StateTrees
  import opened Ledgers
  import opened Recording
  import opened Witnesses

  /** The list holds exactly the pairs of the map, each once. */
  ghost predicate Enumerates<K, V>(list: seq<(K, V)>, m: map<K, V>) {
    && (forall i | 0 <= i < |list| :: list[i].0 in m && m[list[i].0] == list[i].1)
    && (forall i, j | 0 <= i < j < |list| :: list[i].0 != list[j].0)
    && (forall k | k in m :: exists i :: 0 <= i < |list| && list[i].0 == k)
  }

  lemma EnumerateMore<K, V>(init: seq<(K, V)>, m: map<K, V>, k: K)
    requires k in m && Enumerates(init, m - {k})
    ensures Enumerates(init + [(k, m[k])], m)
  {
    var list := init + [(k, m[k])];
    forall i | 0 <= i < |list| ensures list[i].0 in m && m[list[i].0] == list[i].1 && (i < |init| ==> list[i].0 != k) {
      if i < |init| {
        assert init[i].0 in m - {k};
      }
    }
    forall j | j in m ensures exists i :: 0 <= i < |list| && list[i].0 == j {
      if j == k {
        assert list[|init|].0 == j;
      } else {
        assert j in m - {k};
        var i :| 0 <= i < |init| && init[i].0 == j;
        assert list[i].0 == j;
      }
    }
  }

  lemma {:induction false} EnumerationExists<K, V>(m: map<K, V>) returns (list: seq<(K, V)>)
    ensures Enumerates(list, m)
    decreases |m|
  {
    list := [];
    if m.Keys != {} {
      var k :| k in m.Keys;
      var init := EnumerationExists(m - {k});
      hide Enumerates;
      EnumerateMore(init, m, k);
      list := init + [(k, m[k])];
    }
  }

  lemma {:induction false} WithHashesReads(hashes: Hashes, listed: seq<(TreeIndex, Hash)>)
    requires forall i, j | 0 <= i < j < |listed| :: listed[i].0 != listed[j].0
    ensures forall i | 0 <= i < |listed| ::
      listed[i].0 in WithHashes(hashes, listed) && WithHashes(hashes, listed)[listed[i].0] == listed[i].1
    ensures forall k | k in hashes && (forall i | 0 <= i < |listed| :: listed[i].0 != k) ::
      k in WithHashes(hashes, listed) && WithHashes(hashes, listed)[k] == hashes[k]
    ensures forall k | k in WithHashes(hashes, listed) :: k in hashes || exists i :: 0 <= i < |listed| && listed[i].0 == k
    decreases |listed|
  {
    if listed != [] {
      var first, rest := listed[0], listed[1..];
      var next := hashes[first.0 := first.1];
      WithHashesReads(next, rest);
      assert forall i | 0 < i < |listed| :: listed[i] == rest[i - 1];
      assert forall i | 0 <= i < |rest| :: rest[i].0 != first.0;
      forall k | k in WithHashes(next, rest) ensures k in hashes || exists i :: 0 <= i < |listed| && listed[i].0 == k {
        if k !in next {
          var i :| 0 <= i < |rest| && rest[i].0 == k;
          assert listed[i + 1].0 == k;
        } else if k !in hashes {
          assert listed[0].0 == k;
        }
      }
    }
  }

  lemma WithHashesListed(listed: seq<(TreeIndex, Hash)>, hashes: Hashes)
    requires Enumerates(listed, hashes)
    ensures WithHashes(map[], listed) == hashes
  {
    WithHashesReads(map[], listed);
    var loaded := WithHashes(map[], listed);
    forall k ensures k in loaded <==> k in hashes {
      if k in hashes {
        var i :| 0 <= i < |listed| && listed[i].0 == k;
      }
    }
    forall k | k in hashes ensures loaded[k] == hashes[k] {
      var i :| 0 <= i < |listed| && listed[i].0 == k;
    }
  }

  // ---------------------------------------------------------------- loading

  /** A store that knows some hashes and entries of a full one, and nothing wrong. */
  ghost predicate PartOf(p: Tree, recorded: Hashes, full: Tree) {
    && Faithful(p.hashes, full.hashes) && recorded.Keys <= p.hashes.Keys
    && Root(p.hashes) == Root(full.hashes)
    && forall ix | ix in p.entries :: ix in full.entries && full.entries[ix] == p.entries[ix]
  }

  lemma CoveredSame(p: Hashes, recorded: Hashes, full: Hashes, ix: TreeIndex)
    requires Faithful(p, full) && recorded.Keys <= p.Keys && Covers(recorded, full, ix)
    ensures SameBeside(p, full, ix, 0)
  {
    hide SiblingSlot;
  }

  /** Setting an entry of the full store in a part of it recomputes hashes of the full store only. */
  lemma LoadMember(digest: Digest, p: Tree, recorded: Hashes, full: Tree, ix: TreeIndex)
    requires HashedTree(digest, full) && PartOf(p, recorded, full) && Covers(recorded, full.hashes, ix) && ix in full.entries
    ensures var kv := full.entries[ix];
      && TreeSet(digest, p, kv.key, kv.value).Some?
      && PartOf(TreeSet(digest, p, kv.key, kv.value).value, recorded, full)
      && TreeSet(digest, p, kv.key, kv.value).value.entries == p.entries[ix := kv]
  {
    hide InsertAt, TreeIndexFromKey, NodeConsistent, OnPath;
    var kv := full.entries[ix];
    assert ix == TreeIndexFromKey(digest, kv.key);
    CoveredSame(p.hashes, recorded, full.hashes, ix);
    assert LeavesOf(full.entries)[ix] == kv.MerkleValue();
    InsertReadsAgain(full.hashes, LeavesOf(full.entries), ix);
    InsertAgrees(p.hashes, full.hashes, ix, kv.MerkleValue());
    InsertWrites(p.hashes, ix, kv.MerkleValue());
    var hashes := InsertAt(p.hashes, ix, kv.MerkleValue());
    assert Get(hashes, ROOT_INDEX) == Get(full.hashes, ROOT_INDEX);
    PartNonEmpty(p.hashes, full.hashes, ix, kv.MerkleValue());
    forall i | i in hashes ensures hashes[i] == Get(full.hashes, i) != EMPTY_HASH {
      if OnPath(ix, i) {
        PathBelow(ix, i);
        assert Get(hashes, i) == Get(full.hashes, i);
      } else {
        assert i in p.hashes && Get(hashes, i) == Get(p.hashes, i);
      }
    }
  }

  lemma PartNonEmpty(p: Hashes, full: Hashes, ix: TreeIndex, h: Hash)
    requires Faithful(p, full) && h != EMPTY_HASH
    ensures forall i | i in InsertAt(p, ix, h) :: InsertAt(p, ix, h)[i] != EMPTY_HASH
  {
    InsertNonEmpty(p, ix, h);
  }

  /**
    A value for an index where the full store has no entry, beyond the leaves included: with a raw key it
    changes the root. With any key it does, where the siblings are known, unless the full store's node has
    the hash of the value.
  */
  lemma LoadStranger(digest: Digest, p: Tree, recorded: Hashes, full: Tree, key: Key, value: Balance)
    requires HashedTree(digest, full) && PartOf(p, recorded, full)
    requires TreeIndexFromKey(digest, key) !in full.entries
    ensures TreeSet(digest, p, key, value).Some?
    ensures key.Raw? ==> Root(TreeSet(digest, p, key, value).value.hashes) != Root(full.hashes)
    ensures var ix, after := TreeIndexFromKey(digest, key), TreeSet(digest, p, key, value).value;
      Covers(recorded, full.hashes, ix) ==> (Root(after.hashes) == Root(full.hashes) <==> Get(full.hashes, ix) == LeafHash(value, key))
  {
    hide InsertAt, TreeIndexFromKey, NodeConsistent, LeavesRoot, Covers, NodeAt, OnPath;
    var ix := TreeIndexFromKey(digest, key);
    assert !Collides(digest, p.entries, key);
    ConsistentRoot(full.hashes, LeavesOf(full.entries));
    ConsistentAt(full.hashes, LeavesOf(full.entries), ix);
    if Root(InsertAt(p.hashes, ix, LeafHash(value, key))) == LeavesRoot(LeavesOf(full.entries)) {
      InsertProvesNode(p.hashes, LeavesOf(full.entries), ix, LeafHash(value, key));
      if key.Raw? {
        InsertProvesLeaf(p.hashes, LeavesOf(full.entries), ix, value, key);
        assert false;
      }
    }
    InsertKeepsRootIff(full.hashes, LeavesOf(full.entries), ix, LeafHash(value, key));
    if Covers(recorded, full.hashes, ix) {
      CoveredSame(p.hashes, recorded, full.hashes, ix);
      InsertAgrees(p.hashes, full.hashes, ix, LeafHash(value, key));
    }
  }

  ghost predicate Loadable(digest: Digest, recorded: Hashes, full: Tree, value: (Key, Balance)) {
    var ix := TreeIndexFromKey(digest, value.0);
    && Covers(recorded, full.hashes, ix)
    && (if ix in full.entries then full.entries[ix] == KeyValue(value.1, value.0) else value.0.Raw?)
  }

  /** Recorded values load exactly when each of them is an entry of the full store. */
  lemma {:induction false} LoadRecorded(digest: Digest, p: Tree, recorded: Hashes, full: Tree, values: seq<(Key, Balance)>)
    requires HashedTree(digest, full) && PartOf(p, recorded, full)
    requires forall v | v in values :: Loadable(digest, recorded, full, v)
    ensures var loaded := LoadValues(digest, p, Root(full.hashes), values);
      && (loaded.Some? <==> forall v | v in values :: TreeIndexFromKey(digest, v.0) in full.entries)
      && (loaded.Some? ==> PartOf(loaded.value, recorded, full))
      && (loaded.Some? ==> forall ix :: ix in loaded.value.entries <==>
            ix in p.entries || exists v :: v in values && TreeIndexFromKey(digest, v.0) == ix)
    decreases |values|
  {
    hide HashedTree, TreeSet, TreeIndexFromKey, Covers, PartOf, Root;
    if values != [] {
      var v := values[0];
      var ix := TreeIndexFromKey(digest, v.0);
      assert v in values && forall w | w in values[1..] :: w in values;
      assert forall w | w in values :: w == v || w in values[1..];
      if ix in full.entries {
        LoadMember(digest, p, recorded, full, ix);
        var next := TreeSet(digest, p, v.0, v.1).value;
        PartRoot(next, recorded, full);
        LoadRecorded(digest, next, recorded, full, values[1..]);
      } else {
        LoadStranger(digest, p, recorded, full, v.0, v.1);
      }
    }
  }

  lemma PartRoot(p: Tree, recorded: Hashes, full: Tree)
    requires PartOf(p, recorded, full)
    ensures Root(p.hashes) == Root(full.hashes)
  {
  }

  // ---------------------------------------------------------------- simulation

  /** The two stores answer alike wherever the accesses look. */
  ghost predicate Alike(digest: Digest, t1: Tree, t2: Tree, accesses: seq<Access>) {
    && Root(t1.hashes) == Root(t2.hashes)
    && forall a | a in accesses :: var ix := IndexOf(digest, a.id);
         && SameBeside(t1.hashes, t2.hashes, ix, 0)
         && (ix in t1.entries <==> ix in t2.entries)
         && (ix in t1.entries ==> t1.entries[ix] == t2.entries[ix])
  }

  lemma SameBesideAfter(h1: Hashes, h2: Hashes, ix: TreeIndex, h: Hash, other: TreeIndex)
    requires SameBeside(h1, h2, ix, 0) && SameBeside(h1, h2, other, 0)
    ensures SameBeside(InsertAt(h1, ix, h), InsertAt(h2, ix, h), other, 0)
  {
    hide SiblingSlot, InsertAt;
    InsertAgrees(h1, h2, ix, h);
  }

  lemma StepAlike(digest: Digest, t1: Tree, t2: Tree, accesses: seq<Access>, a: Access)
    requires Alike(digest, t1, t2, accesses) && a in accesses
    ensures var s1, s2 := Step(digest, Machine(t1, None), a), Step(digest, Machine(t2, None), a);
      && (s1.Some? <==> s2.Some?)
      && (s1.Some? ==> Alike(digest, s1.value.tree, s2.value.tree, accesses) && s1.value.recorder == s2.value.recorder == None)
  {
    hide InsertAt, SameBeside, BalanceKey, TreeIndexFromKey;
    if a.Write? {
      var ix := IndexOf(digest, a.id);
      var h := LeafHash(a.value, BalanceKey(a.id));
      InsertAgrees(t1.hashes, t2.hashes, ix, h);
      forall b | b in accesses
        ensures SameBeside(InsertAt(t1.hashes, ix, h), InsertAt(t2.hashes, ix, h), IndexOf(digest, b.id), 0)
      {
        SameBesideAfter(t1.hashes, t2.hashes, ix, h, IndexOf(digest, b.id));
      }
    }
  }

  /** Stores that look alike to a run stay alike through it, and abort it alike. */
  lemma {:induction false} ExecuteAlike(digest: Digest, t1: Tree, t2: Tree, all: seq<Access>, accesses: seq<Access>)
    requires Alike(digest, t1, t2, all) && forall a | a in accesses :: a in all
    ensures var e1, e2 := Execute(digest, Machine(t1, None), accesses), Execute(digest, Machine(t2, None), accesses);
      && (e1.Some? <==> e2.Some?)
      && (e1.Some? ==> Alike(digest, e1.value.tree, e2.value.tree, all) && e1.value.recorder == e2.value.recorder == None)
    decreases |accesses|
  {
    hide Step, Alike;
    if accesses != [] {
      var init, a := accesses[..|accesses| - 1], accesses[|accesses| - 1];
      assert a in accesses && forall b | b in init :: b in accesses;
      ExecuteAlike(digest, t1, t2, all, init);
      var e1, e2 := Execute(digest, Machine(t1, None), init), Execute(digest, Machine(t2, None), init);
      if e1.Some? {
        StepAlike(digest, e1.value.tree, e2.value.tree, all, a);
      }
    }
  }

  // ---------------------------------------------------------------- the loaded store and the full one

  /** The full store holds the entries at leaves of the recorded one, whose nodes have exactly their hashes. */
  ghost predicate LeafPart(digest: Digest, t: Tree, full: Tree) {
    && full.hashes == t.hashes && HashedTree(digest, full) && Keyed(digest, t.entries)
    && (forall ix :: ix in full.entries <==> ix in t.entries && ix < TREE_SIZE)
    && (forall ix | ix in full.entries :: full.entries[ix] == t.entries[ix])
    && (forall ix | ix in t.entries && TREE_SIZE <= ix :: t.entries[ix].key.Raw?)
  }

  lemma ValidLeafPart(digest: Digest, t: Tree)
    requires ValidTree(digest, t)
    ensures LeafPart(digest, t, t)
  {
    hide Sparse, NodeConsistent, TreeIndexFromKey;
    ValidIsHashed(digest, t);
  }

  /** Some entry beyond the leaves is read. */
  ghost predicate ReadsBeyond(digest: Digest, initial: Entries, accesses: seq<Access>) {
    exists a :: a in accesses && a.Read? && IndexOf(digest, a.id) in initial && TREE_SIZE <= IndexOf(digest, a.id)
  }

  lemma RecordedLoadable(digest: Digest, t: Tree, full: Tree, accesses: seq<Access>, m: Machine, values: seq<(Key, Balance)>)
    requires LeafPart(digest, t, full) && AllRecorded(digest, t, accesses, m)
    requires Enumerates(values, m.recorder.value.values)
    ensures forall v | v in values :: Loadable(digest, m.recorder.value.hashes, full, v)
  {
    hide HashedTree, TreeIndexFromKey, Covers, ReadsBack, RecordsNew, WrittenLeaf, BalanceKey, Faithful, StillFilled;
    var recorded := m.recorder.value.values;
    forall v | v in values ensures v.0 in recorded && recorded[v.0] == v.1 {
      var i :| 0 <= i < |values| && values[i] == v;
    }
  }

  lemma RecordedNew(digest: Digest, t: Tree, accesses: seq<Access>, m: Machine, values: seq<(Key, Balance)>)
    requires AllRecorded(digest, t, accesses, m) && Enumerates(values, m.recorder.value.values)
    ensures (forall v | v in values :: TreeIndexFromKey(digest, v.0) in t.entries) <==> !ReadsBack(digest, t.entries, accesses)
  {
    hide TreeIndexFromKey, ReadsBack, Covers, Faithful, StillFilled, EntriesGrow, ValuesRecorded;
    var recorded := m.recorder.value.values;
    forall v | v in values ensures v.0 in recorded {
      var i :| 0 <= i < |values| && values[i] == v;
    }
    if RecordsNew(digest, t.entries, recorded) {
      var key :| key in recorded && TreeIndexFromKey(digest, key) !in t.entries;
      var i :| 0 <= i < |values| && values[i].0 == key;
      assert values[i] in values;
    }
  }

  lemma RecordedBeyond(digest: Digest, t: Tree, accesses: seq<Access>, m: Machine, values: seq<(Key, Balance)>)
    requires AllRecorded(digest, t, accesses, m) && Enumerates(values, m.recorder.value.values)
    ensures (forall v | v in values && TreeIndexFromKey(digest, v.0) in t.entries :: TreeIndexFromKey(digest, v.0) < TREE_SIZE)
       <==> !ReadsBeyond(digest, t.entries, accesses)
  {
    hide TreeIndexFromKey, Covers, ReadsBack, RecordsNew, BalanceKey, Faithful, StillFilled, WrittenLeaf, IndexOf;
    var recorded := m.recorder.value.values;
    forall v | v in values ensures v.0 in recorded {
      var i :| 0 <= i < |values| && values[i] == v;
    }
    forall a | a in accesses && a.Read? && IndexOf(digest, a.id) in t.entries
      ensures exists v :: v in values && TreeIndexFromKey(digest, v.0) == IndexOf(digest, a.id)
    {
      var key := t.entries[IndexOf(digest, a.id)].key;
      assert key in recorded;
      var i :| 0 <= i < |values| && values[i].0 == key;
      assert values[i] in values;
    }
    forall v | v in values && TreeIndexFromKey(digest, v.0) in t.entries
      ensures ReadLeaf(digest, accesses, TreeIndexFromKey(digest, v.0))
    {
      assert v.0 in recorded;
    }
  }

  lemma LoadRecording(digest: Digest, t: Tree, full: Tree, accesses: seq<Access>, m: Machine,
      listed: seq<(TreeIndex, Hash)>, values: seq<(Key, Balance)>)
    requires LeafPart(digest, t, full) && AllRecorded(digest, t, accesses, m)
    requires Enumerates(listed, m.recorder.value.hashes) && Enumerates(values, m.recorder.value.values)
    ensures LoadWitness(digest, listed, values).Some?
       <==> !ReadsBack(digest, t.entries, accesses) && !ReadsBeyond(digest, t.entries, accesses)
    ensures var loaded := LoadWitness(digest, listed, values);
      loaded.Some? ==> PartOf(loaded.value, m.recorder.value.hashes, full)
    ensures var loaded := LoadWitness(digest, listed, values);
      loaded.Some? ==> forall ix :: ix in loaded.value.entries <==> exists v :: v in values && TreeIndexFromKey(digest, v.0) == ix
  {
    hide HashedTree, ReadsBack, ReadsBeyond, EntriesGrow, ValuesRecorded, RecordsNew, Covers, TreeIndexFromKey, Enumerates, StillFilled;
    var recorded := m.recorder.value.hashes;
    WithHashesListed(listed, recorded);
    RecordedLoadable(digest, t, full, accesses, m, values);
    RecordedNew(digest, t, accesses, m, values);
    RecordedBeyond(digest, t, accesses, m, values);
    assert PartOf(Tree(recorded, map[]), recorded, full);
    LoadRecorded(digest, Tree(recorded, map[]), recorded, full, values);
  }

  lemma LoadedEntries(digest: Digest, t: Tree, full: Tree, accesses: seq<Access>, m: Machine, values: seq<(Key, Balance)>, ix: TreeIndex)
    requires LeafPart(digest, t, full) && AllRecorded(digest, t, accesses, m) && ReadFirst(accesses)
    requires !ReadsBack(digest, t.entries, accesses) && !ReadsBeyond(digest, t.entries, accesses)
    requires Enumerates(values, m.recorder.value.values)
    requires exists a :: a in accesses && IndexOf(digest, a.id) == ix
    ensures ix in full.entries <==> ix in t.entries
    ensures ix in t.entries <==> exists v :: v in values && TreeIndexFromKey(digest, v.0) == ix
  {
    hide Covers, Faithful, StillFilled, ReadsBack, EntriesGrow, BalanceKey, TreeIndexFromKey, HashedTree, IndexOf;
    var recorded := m.recorder.value.values;
    if ix in t.entries {
      var a :| a in accesses && IndexOf(digest, a.id) == ix;
      var j :| 0 <= j < |accesses| && accesses[j] == a;
      if a.Write? {
        assert Read(accesses[j].id) in accesses[..j];
      }
      assert Read(a.id) in accesses && Read(a.id).Read? && Read(a.id).id == a.id;
      assert t.entries[ix].key in recorded;
      var i :| 0 <= i < |values| && values[i].0 == t.entries[ix].key;
      assert values[i] in values;
    }
    forall v | v in values ensures TreeIndexFromKey(digest, v.0) in t.entries {
      var i :| 0 <= i < |values| && values[i] == v;
      assert !RecordsNew(digest, t.entries, recorded);
    }
  }

  /** The loaded store and the recorded one look to the recorded run like the full one. */
  lemma LoadedAlike(digest: Digest, t: Tree, full: Tree, accesses: seq<Access>, m: Machine,
      listed: seq<(TreeIndex, Hash)>, values: seq<(Key, Balance)>)
    requires LeafPart(digest, t, full) && AllRecorded(digest, t, accesses, m)
    requires Enumerates(listed, m.recorder.value.hashes) && Enumerates(values, m.recorder.value.values)
    requires ReadFirst(accesses) && !ReadsBack(digest, t.entries, accesses) && !ReadsBeyond(digest, t.entries, accesses)
    ensures LoadWitness(digest, listed, values).Some?
    ensures Alike(digest, LoadWitness(digest, listed, values).value, full, accesses)
    ensures Alike(digest, t, full, accesses)
  {
    hide ReadsBack, ReadsBeyond, EntriesGrow, ValuesRecorded, RecordsNew, Covers, IndexOf, TreeIndexFromKey, LoadWitness,
      Enumerates, ReadFirst, HashedTree, Keyed, SameBeside, Faithful, StillFilled, Root;
    LoadRecording(digest, t, full, accesses, m, listed, values);
    var p := LoadWitness(digest, listed, values).value;
    forall a | a in accesses
      ensures SameBeside(p.hashes, t.hashes, IndexOf(digest, a.id), 0) && SameBeside(t.hashes, t.hashes, IndexOf(digest, a.id), 0)
      ensures IndexOf(digest, a.id) in p.entries <==> IndexOf(digest, a.id) in full.entries
      ensures IndexOf(digest, a.id) in t.entries <==> IndexOf(digest, a.id) in full.entries
    {
      CoveredSame(p.hashes, m.recorder.value.hashes, t.hashes, IndexOf(digest, a.id));
      SameAsItself(t.hashes, IndexOf(digest, a.id));
      LoadedEntries(digest, t, full, accesses, m, values, IndexOf(digest, a.id));
    }
  }

  lemma SameAsItself(hashes: Hashes, ix: TreeIndex)
    ensures SameBeside(hashes, hashes, ix, 0)
  {
  }

  /** Stores with the same entries and the same hash at every node look alike to every run. */
  lemma NodesAlike(digest: Digest, t1: Tree, t2: Tree, accesses: seq<Access>)
    requires HashedTree(digest, t1) && HashedTree(digest, t2) && t1.entries == t2.entries
    ensures Alike(digest, t1, t2, accesses)
  {
    hide NodeConsistent, IndexOf, TreeIndexFromKey, SiblingSlot, LeavesRoot, NodeAt;
    forall i: TreeIndex | i < TREE_HASHES ensures Get(t1.hashes, i) == Get(t2.hashes, i) {
      ConsistentAt(t1.hashes, LeavesOf(t1.entries), i);
      ConsistentAt(t2.hashes, LeavesOf(t1.entries), i);
    }
  }
}
