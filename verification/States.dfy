/**
  The state objects. A state without a recorder is the one refinement rebuilds from a witness; with
  a recorder it is the builder's full state.
*/
module States {
  import opened Wrappers
  import opened Hashing
  import opened Numbering
  import opened Keys
  import opened Merkle
  import opened StateTrees
  import opened Ledgers
  import opened Recording
  import opened Witnesses
  import opened Replay
  import opened Transitions

  class TreeRecorder {
    var initialHashes: Hashes
    var recorded: Hashes
    var values: map<Key, Balance>

    ghost function Model(): Recorder
      reads this
    {
      Recorder(initialHashes, recorded, values)
    }

    constructor ()
      ensures Model() == Recorder(map[], map[], map[])
    {
      initialHashes, recorded, values := map[], map[], map[];
    }

    method RecordWitnessHash(tree: MerkleTree, ix: TreeIndex) returns (hash: Hash)
      modifies this
      ensures hash == Get(tree.hashes, ix)
      ensures Model() == RecordHash(old(Model()), tree.hashes, ix)
    {
      hash := tree.GetHash(ix);
      if hash == EMPTY_HASH {
        return;
      }
      var initial := if ix in initialHashes then initialHashes[ix] else EMPTY_HASH;
      if initial != EMPTY_HASH {
        recorded := recorded[ix := initial];
      }
    }

    method RecordWitnessAccess(tree: MerkleTree, ix: TreeIndex)
      modifies this
      ensures Model() == RecordPath(old(Model()), tree.hashes, ix)
    {
      hide SiblingSlot, PathSlot, Width;
      RunningOffset(LEAF_LEVEL);
      var at: TreeIndex := ix;
      var offset: TreeIndex := 0;
      for depth := 0 to TREE_DEPTH
        invariant offset == LevelStart(depth) && at == PathAt(ix, depth)
        invariant Model() == RecordSiblings(old(Model()), tree.hashes, ix, depth)
      {
        RunningOffset(depth);
        SlotOffsets(ix, depth);
        if at % 2 == 0 {
          var _ := RecordWitnessHash(tree, offset + at + 1);
        } else {
          var _ := RecordWitnessHash(tree, offset + at - 1);
        }
        offset := offset + Width(depth);
        at := at / 2;
      }
    }

    method RecordEntry(entry: KeyValue)
      modifies this
      ensures initialHashes == old(initialHashes) && recorded == old(recorded)
      ensures values == if entry.key in old(values) then old(values) else old(values)[entry.key := entry.value]
    {
      if entry.key !in values {
        values := values[entry.key := entry.value];
      }
    }
  }

  class State {
    const balances: StateTree
    const recorder: TreeRecorder?
    var tokens: seq<TokenId>
    var tokenRecord: seq<TokenId>

    ghost const Repr: set<object> := {this, balances, balances.tree} + if recorder == null then {} else {recorder}

    ghost function MachineOf(): Machine
      reads Repr
    {
      Machine(balances.Model(), if recorder == null then None else Some(recorder.Model()))
    }

    ghost function Value(): Snapshot
      reads Repr
    {
      Snapshot(balances.Model(), tokens)
    }

    ghost function LedgerNow(): Ledger
      reads Repr
    {
      LedgerOf(balances.digest, Value())
    }

    /** Nothing was accessed since the last `take_witness`. */
    ghost predicate JustTaken()
      reads Repr
    {
      recorder != null && recorder.Model() == Recorder(balances.tree.hashes, map[], map[]) && tokenRecord == tokens
    }

    /** Nothing was accessed since then, except perhaps the root. */
    ghost predicate Ready()
      reads Repr
    {
      && recorder != null && tokenRecord == tokens
      && (recorder.Model() == Recorder(balances.tree.hashes, map[], map[]) || recorder.Model() == FreshRecorder(balances.Model()))
    }

    constructor Partial(loaded: StateTree, tokens: seq<TokenId>)
      ensures balances == loaded && recorder == null && this.tokens == tokens
    {
      this.balances := loaded;
      this.recorder := null;
      this.tokens := tokens;
      this.tokenRecord := tokens;
    }

    constructor Recorded(digest: Digest)
      ensures fresh(Repr) && balances.digest == digest && Value() == GENESIS && JustTaken()
    {
      this.balances := new StateTree(digest);
      this.recorder := new TreeRecorder();
      this.tokens := [];
      this.tokenRecord := [];
    }

    static method FromWitness(digest: Digest, w: Witness) returns (r: State?)
      ensures r == null <==> Transitions.FromWitness(digest, w).None?
      ensures r != null ==> fresh(r.Repr) && r.recorder == null && r.balances.digest == digest
      ensures r != null ==> Some(r.Value()) == Transitions.FromWitness(digest, w)
    {
      hide LoadWitness;
      var loaded := StateTree.InitFromWitness(digest, w.hashes, w.values);
      if loaded == null {
        return null;
      }
      r := new State.Partial(loaded, w.tokens);
    }

    /** Reads a key, recording the access when there is a recorder. */
    method Get(key: Key) returns (v: Option<Balance>)
      modifies Repr
      ensures v == Lookup(balances.digest, balances.entries, key)
      ensures Value() == old(Value()) && tokenRecord == old(tokenRecord)
      ensures recorder != null ==>
        recorder.Model() == RecordValue(RecordPath(old(recorder.Model()), balances.tree.hashes, TreeIndexFromKey(balances.digest, key)),
                                        balances.entries, TreeIndexFromKey(balances.digest, key))
    {
      hide RecordPath, TreeIndexFromKey;
      if recorder == null {
        v := balances.GetValue(key);
      } else {
        var ix := TreeIndexFromKey(balances.digest, key);
        recorder.RecordWitnessAccess(balances.tree, ix);
        if ix in balances.entries {
          recorder.RecordEntry(balances.entries[ix]);
          if balances.entries[ix].key != key {
            return None;
          }
          return Some(balances.entries[ix].value);
        }
        return None;
      }
    }

    /** Sets a key, recording the access when there is a recorder; fails when another key sits at the leaf. */
    method Set(key: Key, value: Balance) returns (ok: bool)
      modifies Repr
      ensures tokens == old(tokens) && tokenRecord == old(tokenRecord)
      ensures ok <==> TreeSet(balances.digest, old(balances.Model()), key, value).Some?
      ensures balances.Model() == TreeSet(balances.digest, old(balances.Model()), key, value).GetOr(old(balances.Model()))
      ensures recorder != null ==>
        recorder.Model() == RecordPath(old(recorder.Model()), old(balances.tree.hashes), TreeIndexFromKey(balances.digest, key))
    {
      hide RecordPath, TreeIndexFromKey, InsertAt;
      if recorder != null {
        recorder.RecordWitnessAccess(balances.tree, TreeIndexFromKey(balances.digest, key));
      }
      ok := balances.Set(key, value);
    }

    method GetBalance(account: AccountId, token: TokenId) returns (v: Option<Balance>)
      modifies Repr
      ensures v.GetOr(0) == BalanceOf(old(LedgerNow()), BalanceId(token, account))
      ensures Some(MachineOf()) == Step(balances.digest, old(MachineOf()), Read(BalanceId(token, account)))
      ensures tokens == old(tokens) && tokenRecord == old(tokenRecord) && LedgerNow() == old(LedgerNow())
    {
      hide RecordPath, TreeIndexFromKey, RecordValue, Contents;
      var id := BalanceId(token, account);
      v := Get(BalanceKey(id));
      ContentsLookup(balances.digest, balances.entries, id);
    }

    method SetBalance(account: AccountId, token: TokenId, balance: Balance) returns (ok: bool)
      modifies Repr
      ensures tokens == old(tokens) && tokenRecord == old(tokenRecord)
      ensures ok <==> Step(balances.digest, old(MachineOf()), Write(BalanceId(token, account), balance)).Some?
      ensures ok ==> Some(MachineOf()) == Step(balances.digest, old(MachineOf()), Write(BalanceId(token, account), balance))
      ensures ok ==> LedgerNow() == old(LedgerNow()).(balances := old(LedgerNow()).balances[BalanceId(token, account) := balance])
    {
      hide RecordPath, TreeIndexFromKey, TreeSet, Contents;
      var id := BalanceId(token, account);
      ghost var before := balances.Model();
      ok := Set(BalanceKey(id), balance);
      if ok {
        ContentsOfSet(balances.digest, before, id, balance);
      }
    }

    method PushToken(token: TokenId)
      modifies this
      ensures tokens == if token in old(tokens) then old(tokens) else old(tokens) + [token]
      ensures tokenRecord == old(tokenRecord)
    {
      if token !in tokens {
        tokens := tokens + [token];
      }
    }

    /** The root of the state; the builder records the root hash of the tree. */
    method Root() returns (root: Hash)
      modifies Repr
      ensures root == GetRoot(Value()) && Value() == old(Value()) && tokenRecord == old(tokenRecord)
      ensures recorder != null ==> recorder.Model() == RecordHash(old(recorder.Model()), balances.tree.hashes, ROOT_INDEX)
    {
      var hash;
      if recorder == null {
        hash := balances.tree.TreeRoot();
      } else {
        hash := recorder.RecordWitnessHash(balances.tree, ROOT_INDEX);
      }
      root := HashPair(hash, TokensHash(tokens));
    }

    /** Hands out what was recorded and starts over from the present hashes and tokens. */
    method TakeWitness() returns (w: Witness)
      requires recorder != null
      modifies Repr
      ensures Enumerates(w.hashes, old(recorder.recorded)) && Enumerates(w.values, old(recorder.values))
      ensures w.tokens == old(tokenRecord)
      ensures Value() == old(Value()) && JustTaken()
    {
      var hashes := Listing(recorder.recorded);
      recorder.recorded := map[];
      recorder.initialHashes := balances.tree.hashes;
      var values := Listing(recorder.values);
      recorder.values := map[];
      w := Witness(hashes, values, tokenRecord);
      tokenRecord := tokens;
    }

    /** The entries, as they are written to a stream. */
    method Serialize() returns (stream: seq<KeyValue>)
      ensures exists listing :: Enumerates(listing, balances.entries) && stream == ValuesOf(listing)
      ensures Keyed(balances.digest, balances.entries) ==> Lists(balances.digest, stream, balances.entries)
    {
      var listing := Listing(balances.entries);
      stream := ValuesOf(listing);
      if Keyed(balances.digest, balances.entries) {
        ListedEntries(balances.digest, listing, balances.entries);
      }
    }

    /** A builder's state restored from a stream of entries and a token list. */
    static method FromStream(digest: Digest, stream: seq<KeyValue>, tokens: seq<TokenId>) returns (r: State)
      ensures fresh(r.Repr) && r.balances.digest == digest && r.JustTaken()
      ensures r.Value() == Snapshot(Restore(digest, EMPTY_TREE, stream), tokens)
    {
      hide TreeSet, RecordPath, TreeIndexFromKey;
      r := new State.Recorded(digest);
      for i := 0 to |stream|
        invariant r.recorder.Model() == Recorder(map[], map[], map[])
        invariant Restore(digest, r.balances.Model(), stream[i..]) == Restore(digest, EMPTY_TREE, stream)
      {
        assert stream[i..][1..] == stream[i + 1..];
        NothingToRecord(r.balances.tree.hashes, TreeIndexFromKey(digest, stream[i].key));
        var _ := r.Set(stream[i].key, stream[i].value);
      }
      r.recorder.initialHashes := r.balances.tree.hashes;
      r.tokens := tokens;
      r.tokenRecord := tokens;
    }
  }

  function ValuesOf<K, V>(listing: seq<(K, V)>): seq<V> {
    seq(|listing|, i requires 0 <= i < |listing| => listing[i].1)
  }

  /** The values of an enumeration of the entries list the entries. */
  lemma ListedEntries(digest: Digest, listing: seq<(TreeIndex, KeyValue)>, entries: Entries)
    requires Keyed(digest, entries) && Enumerates(listing, entries)
    ensures Lists(digest, ValuesOf(listing), entries)
  {
    hide TreeIndexFromKey;
    var stream := ValuesOf(listing);
    forall i | 0 <= i < |stream|
      ensures TreeIndexFromKey(digest, stream[i].key) == listing[i].0 && entries[listing[i].0] == stream[i]
    {
      assert listing[i].0 in entries;
    }
    forall ix | ix in entries ensures entries[ix] in stream {
      var i :| 0 <= i < |listing| && listing[i].0 == ix;
      assert stream[i] == entries[ix];
    }
  }

  /** A recorder without initial hashes records no hash. */
  lemma NothingToRecord(current: Hashes, ix: TreeIndex)
    ensures RecordPath(Recorder(map[], map[], map[]), current, ix) == Recorder(map[], map[], map[])
  {
    NothingToRecordBelow(Recorder(map[], map[], map[]), current, ix, TREE_DEPTH);
  }

  lemma {:induction false} NothingToRecordBelow(r: Recorder, current: Hashes, ix: TreeIndex, n: nat)
    requires n <= TREE_DEPTH && r.initial == map[]
    ensures RecordSiblings(r, current, ix, n) == r
  {
    hide SiblingSlot;
    if n > 0 {
      NothingToRecordBelow(r, current, ix, n - 1);
    }
  }

  /** The pairs of a map as a list. */
  method Listing<K(==), V>(m: map<K, V>) returns (list: seq<(K, V)>)
    ensures Enumerates(list, m)
  {
    list := [];
    var rest := m.Keys;
    while rest != {}
      invariant rest <= m.Keys
      invariant forall i | 0 <= i < |list| :: list[i].0 in m && m[list[i].0] == list[i].1 && list[i].0 !in rest
      invariant forall i, j | 0 <= i < j < |list| :: list[i].0 != list[j].0
      invariant forall k | k in m && k !in rest :: exists i :: 0 <= i < |list| && list[i].0 == k
      decreases rest
    {
      var k :| k in rest;
      ghost var before := list;
      list := list + [(k, m[k])];
      rest := rest - {k};
      forall j | j in m && j !in rest ensures exists i :: 0 <= i < |list| && list[i].0 == j {
        if j == k {
          assert list[|list| - 1].0 == j;
        } else {
          var i :| 0 <= i < |before| && before[i].0 == j;
          assert list[i].0 == j;
        }
      }
    }
  }
}
