/** What a recorded witness contains, and exactly when a partial store can be loaded from it. */
module Witnesses {
  import opened Wrappers
  import opened Hashing
  import opened Numbering
  import opened Keys
  import opened Merkle
  import opened StateTrees
  import opened Ledgers
  import opened Recording

  /** The recorder after `take_witness` and a call of `root`: only the root hash is recorded, unless it is empty. */
  function FreshRecorder(t: Tree): Recorder {
    RecordHash(Recorder(t.hashes, map[], map[]), t.hashes, ROOT_INDEX)
  }

  /** Every write comes after a read of the same balance. */
  ghost predicate ReadFirst(accesses: seq<Access>) {
    forall j | 0 <= j < |accesses| && accesses[j].Write? :: Read(accesses[j].id) in accesses[..j]
  }

  ghost predicate WrittenLeaf(digest: Digest, accesses: seq<Access>, ix: TreeIndex) {
    exists a :: a in accesses && a.Write? && IndexOf(digest, a.id) == ix
  }

  /** Some leaf that was empty at first is read after it was written. */
  ghost predicate ReadsBack(digest: Digest, initial: Entries, accesses: seq<Access>) {
    exists j :: 0 <= j < |accesses| && accesses[j].Read? && IndexOf(digest, accesses[j].id) !in initial
      && WrittenLeaf(digest, accesses[..j], IndexOf(digest, accesses[j].id))
  }

  // ---------------------------------------------------------------- recorded hashes

  /** Every recorded hash is the initial hash of its index, and never empty. */
  ghost predicate Faithful(hashes: Hashes, initial: Hashes) {
    forall i | i in hashes :: hashes[i] == Get(initial, i) != EMPTY_HASH
  }

  /** All siblings of a path that were not empty at first are recorded. */
  ghost predicate Covers(hashes: Hashes, initial: Hashes, ix: TreeIndex) {
    forall d: nat | d < TREE_DEPTH :: Get(initial, SiblingSlot(ix, d)) != EMPTY_HASH ==> SiblingSlot(ix, d) in hashes
  }

  /** The index is beside the path of some access. */
  ghost predicate BesideAccess(digest: Digest, accesses: seq<Access>, i: TreeIndex) {
    exists a, d: nat :: a in accesses && d < TREE_DEPTH && SiblingSlot(IndexOf(digest, a.id), d) == i
  }

  ghost predicate StillFilled(initial: Hashes, current: Hashes) {
    forall i: TreeIndex :: Get(initial, i) != EMPTY_HASH ==> Get(current, i) != EMPTY_HASH
  }

  lemma {:induction false} RecordSiblingsCovers(r: Recorder, current: Hashes, ix: TreeIndex, n: nat)
    requires n <= TREE_DEPTH && Faithful(r.hashes, r.initial) && StillFilled(r.initial, current)
    ensures var r' := RecordSiblings(r, current, ix, n);
      && r'.initial == r.initial && r'.values == r.values && r.hashes.Keys <= r'.hashes.Keys
      && Faithful(r'.hashes, r.initial)
      && (forall d: nat | d < n :: Get(r.initial, SiblingSlot(ix, d)) != EMPTY_HASH ==> SiblingSlot(ix, d) in r'.hashes)
      && (forall i | i in r'.hashes :: i in r.hashes || exists d: nat :: d < n && SiblingSlot(ix, d) == i)
  {
    hide SiblingSlot;
    if n > 0 {
      RecordSiblingsCovers(r, current, ix, n - 1);
    }
  }

  lemma RecordPathCovers(r: Recorder, current: Hashes, ix: TreeIndex)
    requires Faithful(r.hashes, r.initial) && StillFilled(r.initial, current)
    ensures var r' := RecordPath(r, current, ix);
      && r'.initial == r.initial && r'.values == r.values && r.hashes.Keys <= r'.hashes.Keys
      && Faithful(r'.hashes, r.initial) && Covers(r'.hashes, r.initial, ix)
      && (forall i | i in r'.hashes :: i in r.hashes || exists d: nat :: d < TREE_DEPTH && SiblingSlot(ix, d) == i)
  {
    hide SiblingSlot, Faithful;
    RecordSiblingsCovers(r, current, ix, TREE_DEPTH);
  }

  ghost predicate HashesRecorded(digest: Digest, t: Tree, accesses: seq<Access>, m: Machine) {
    && m.recorder.Some?
    && m.recorder.value.initial == t.hashes
    && Faithful(m.recorder.value.hashes, t.hashes)
    && StillFilled(t.hashes, m.tree.hashes)
    && (Get(t.hashes, ROOT_INDEX) != EMPTY_HASH ==> ROOT_INDEX in m.recorder.value.hashes)
    && (forall a | a in accesses :: Covers(m.recorder.value.hashes, t.hashes, IndexOf(digest, a.id)))
    && (forall i | i in m.recorder.value.hashes :: i == ROOT_INDEX || BesideAccess(digest, accesses, i))
  }

  lemma CoversMore(h1: Hashes, h2: Hashes, initial: Hashes, ix: TreeIndex)
    requires Covers(h1, initial, ix) && h1.Keys <= h2.Keys
    ensures Covers(h2, initial, ix)
  {
    hide SiblingSlot;
  }

  lemma BesideMore(digest: Digest, accesses: seq<Access>, a: Access, i: TreeIndex)
    ensures BesideAccess(digest, accesses, i) ==> BesideAccess(digest, accesses + [a], i)
    ensures (exists d: nat :: d < TREE_DEPTH && SiblingSlot(IndexOf(digest, a.id), d) == i) ==> BesideAccess(digest, accesses + [a], i)
  {
    hide SiblingSlot, IndexOf;
    assert a in accesses + [a];
    if BesideAccess(digest, accesses, i) {
      var b, d: nat :| b in accesses && d < TREE_DEPTH && SiblingSlot(IndexOf(digest, b.id), d) == i;
      assert b in accesses + [a];
    }
  }

  lemma StepRecordsHashes(digest: Digest, t: Tree, accesses: seq<Access>, m: Machine, a: Access)
    requires HashesRecorded(digest, t, accesses, m) && Step(digest, m, a).Some?
    ensures HashesRecorded(digest, t, accesses + [a], Step(digest, m, a).value)
  {
    hide InsertAt, RecordPath, Covers, Faithful, IndexOf, BalanceKey, TreeIndexFromKey, SiblingSlot, BesideAccess;
    var ix := IndexOf(digest, a.id);
    var r, m' := m.recorder.value, Step(digest, m, a).value;
    RecordPathCovers(r, m.tree.hashes, ix);
    if a.Write? {
      InsertNonEmpty(m.tree.hashes, TreeIndexFromKey(digest, BalanceKey(a.id)), LeafHash(a.value, BalanceKey(a.id)));
    }
    forall i | i in m'.recorder.value.hashes ensures i == ROOT_INDEX || BesideAccess(digest, accesses + [a], i) {
      BesideMore(digest, accesses, a, i);
    }
    forall b | b in accesses + [a] ensures Covers(m'.recorder.value.hashes, t.hashes, IndexOf(digest, b.id)) {
      if b in accesses {
        CoversMore(r.hashes, m'.recorder.value.hashes, t.hashes, IndexOf(digest, b.id));
      }
    }
  }

  /**
    Over any run of reads and writes, every recorded hash is the initial one, and for every balance
    accessed all siblings on its path that were not empty at first are recorded, and apart from the root
    nothing else is.
  */
  lemma {:induction false} RunRecordsHashes(digest: Digest, t: Tree, accesses: seq<Access>)
    requires Execute(digest, Machine(t, Some(FreshRecorder(t))), accesses).Some?
    ensures HashesRecorded(digest, t, accesses, Execute(digest, Machine(t, Some(FreshRecorder(t))), accesses).value)
  {
    hide Step, Covers;
    if accesses != [] {
      var init := accesses[..|accesses| - 1];
      RunRecordsHashes(digest, t, init);
      assert accesses == init + [accesses[|accesses| - 1]];
      StepRecordsHashes(digest, t, init, Execute(digest, Machine(t, Some(FreshRecorder(t))), init).value, accesses[|accesses| - 1]);
    }
  }

  // ---------------------------------------------------------------- recorded values

  /** Entries are never removed, and new ones, which are balances, appear where something was written. */
  ghost predicate EntriesGrow(digest: Digest, initial: Entries, accesses: seq<Access>, current: Entries) {
    && (forall ix | ix in initial :: ix in current && current[ix].key == initial[ix].key)
    && (forall ix :: ix in current <==> ix in initial || WrittenLeaf(digest, accesses, ix))
    && (forall ix | ix in current :: TreeIndexFromKey(digest, current[ix].key) == ix)
    && (forall ix | ix in current && ix !in initial :: current[ix].key.Raw?)
  }

  /** A recorded value belongs to a present entry; the values of initial entries are recorded as they were at first. */
  ghost predicate ValuesRecorded(digest: Digest, initial: Entries, accesses: seq<Access>, current: Entries, values: map<Key, Balance>) {
    && (forall key | key in values :: var ix := TreeIndexFromKey(digest, key);
          && ix in current && current[ix].key == key
          && (ix in initial ==> initial[ix] == KeyValue(values[key], key))
          && ReadLeaf(digest, accesses, ix))
    && (forall a | a in accesses && a.Read? && IndexOf(digest, a.id) in initial :: initial[IndexOf(digest, a.id)].key in values)
    && (forall ix | ix in initial && initial[ix].key !in values :: ix in current && current[ix] == initial[ix])
  }

  /** A key without an initial entry is among the recorded values. */
  ghost predicate RecordsNew(digest: Digest, initial: Entries, values: map<Key, Balance>) {
    exists key :: key in values && TreeIndexFromKey(digest, key) !in initial
  }

  lemma WrittenLeafMore(digest: Digest, accesses: seq<Access>, a: Access, ix: TreeIndex)
    ensures WrittenLeaf(digest, accesses + [a], ix) <==> WrittenLeaf(digest, accesses, ix) || (a.Write? && IndexOf(digest, a.id) == ix)
  {
    hide IndexOf;
    assert forall b :: b in accesses + [a] <==> b in accesses || b == a;
  }

  lemma ReadsBackMore(digest: Digest, initial: Entries, accesses: seq<Access>, a: Access)
    ensures ReadsBack(digest, initial, accesses + [a]) <==>
      || ReadsBack(digest, initial, accesses)
      || (a.Read? && IndexOf(digest, a.id) !in initial && WrittenLeaf(digest, accesses, IndexOf(digest, a.id)))
  {
    hide IndexOf, WrittenLeaf;
    var more := accesses + [a];
    assert more[..|accesses|] == accesses;
    assert forall j | 0 <= j < |accesses| :: more[..j] == accesses[..j] && more[j] == accesses[j];
    if ReadsBack(digest, initial, accesses) {
      var j :| 0 <= j < |accesses| && accesses[j].Read? && IndexOf(digest, accesses[j].id) !in initial
        && WrittenLeaf(digest, accesses[..j], IndexOf(digest, accesses[j].id));
      assert more[j] == accesses[j];
    }
    if a.Read? && IndexOf(digest, a.id) !in initial && WrittenLeaf(digest, accesses, IndexOf(digest, a.id)) {
      assert more[|accesses|] == a;
    }
  }

  lemma StepGrows(digest: Digest, initial: Entries, accesses: seq<Access>, m: Machine, a: Access)
    requires EntriesGrow(digest, initial, accesses, m.tree.entries) && Step(digest, m, a).Some?
    ensures EntriesGrow(digest, initial, accesses + [a], Step(digest, m, a).value.tree.entries)
  {
    hide InsertAt, RecordPath, RecordValue, BalanceKey, TreeIndexFromKey, WrittenLeaf;
    var current := Step(digest, m, a).value.tree.entries;
    forall ix: TreeIndex ensures ix in current <==> ix in initial || WrittenLeaf(digest, accesses + [a], ix) {
      WrittenLeafMore(digest, accesses, a, ix);
    }
  }

  ghost predicate ReadLeaf(digest: Digest, accesses: seq<Access>, ix: TreeIndex) {
    exists a :: a in accesses && a.Read? && IndexOf(digest, a.id) == ix
  }

  lemma ReadLeafMore(digest: Digest, accesses: seq<Access>, a: Access, ix: TreeIndex)
    ensures ReadLeaf(digest, accesses + [a], ix) <==> ReadLeaf(digest, accesses, ix) || (a.Read? && IndexOf(digest, a.id) == ix)
  {
    hide IndexOf;
    assert forall b :: b in accesses + [a] <==> b in accesses || b == a;
  }

  lemma ReadRecordsValue(digest: Digest, initial: Entries, accesses: seq<Access>, current: Entries, r: Recorder, a: Access)
    requires EntriesGrow(digest, initial, accesses, current) && ValuesRecorded(digest, initial, accesses, current, r.values)
    requires a.Read?
    ensures ValuesRecorded(digest, initial, accesses + [a], current, RecordValue(r, current, IndexOf(digest, a.id)).values)
  {
    hide TreeIndexFromKey, WrittenLeaf, IndexOf, ReadLeaf;
    forall ix: TreeIndex
      ensures ReadLeaf(digest, accesses + [a], ix) <==> ReadLeaf(digest, accesses, ix) || IndexOf(digest, a.id) == ix
    {
      ReadLeafMore(digest, accesses, a, ix);
    }
  }

  lemma ReadRecordsNew(digest: Digest, initial: Entries, accesses: seq<Access>, current: Entries, r: Recorder, a: Access)
    requires EntriesGrow(digest, initial, accesses, current)
    requires RecordsNew(digest, initial, r.values) <==> ReadsBack(digest, initial, accesses)
    requires a.Read?
    ensures RecordsNew(digest, initial, RecordValue(r, current, IndexOf(digest, a.id)).values)
       <==> ReadsBack(digest, initial, accesses + [a])
  {
    hide TreeIndexFromKey, WrittenLeaf, IndexOf, ReadsBack;
    ReadsBackMore(digest, initial, accesses, a);
    var ix := IndexOf(digest, a.id);
    if ix in current && ix !in initial {
      assert current[ix].key in RecordValue(r, current, ix).values;
    }
  }

  lemma WriteKeepsValues(digest: Digest, initial: Entries, accesses: seq<Access>, current: Entries, values: map<Key, Balance>, a: Access)
    requires EntriesGrow(digest, initial, accesses, current) && ValuesRecorded(digest, initial, accesses, current, values)
    requires a.Write? && Read(a.id) in accesses && !Collides(digest, current, BalanceKey(a.id))
    ensures ValuesRecorded(digest, initial, accesses + [a], current[IndexOf(digest, a.id) := KeyValue(a.value, BalanceKey(a.id))], values)
  {
    hide BalanceKey, TreeIndexFromKey, WrittenLeaf, ReadLeaf;
    forall ix: TreeIndex ensures ReadLeaf(digest, accesses + [a], ix) <==> ReadLeaf(digest, accesses, ix) {
      ReadLeafMore(digest, accesses, a, ix);
    }
    assert Read(a.id).Read? && Read(a.id).id == a.id;
  }

  ghost predicate AllRecorded(digest: Digest, t: Tree, accesses: seq<Access>, m: Machine) {
    && HashesRecorded(digest, t, accesses, m)
    && EntriesGrow(digest, t.entries, accesses, m.tree.entries)
    && ValuesRecorded(digest, t.entries, accesses, m.tree.entries, m.recorder.value.values)
    && (RecordsNew(digest, t.entries, m.recorder.value.values) <==> ReadsBack(digest, t.entries, accesses))
  }

  lemma StepRecords(digest: Digest, t: Tree, accesses: seq<Access>, m: Machine, a: Access)
    requires AllRecorded(digest, t, accesses, m) && Step(digest, m, a).Some?
    requires a.Write? ==> Read(a.id) in accesses
    ensures AllRecorded(digest, t, accesses + [a], Step(digest, m, a).value)
  {
    hide EntriesGrow, ValuesRecorded, RecordsNew, ReadsBack, RecordPath, InsertAt, RecordValue, Covers, Faithful, StillFilled;
    StepRecordsHashes(digest, t, accesses, m, a);
    StepGrows(digest, t.entries, accesses, m, a);
    var ix := IndexOf(digest, a.id);
    PathKeepsValues(m, ix);
    if a.Read? {
      ReadRecordsValue(digest, t.entries, accesses, m.tree.entries, Recorded(m, ix).value, a);
      ReadRecordsNew(digest, t.entries, accesses, m.tree.entries, Recorded(m, ix).value, a);
    } else {
      WriteKeepsValues(digest, t.entries, accesses, m.tree.entries, m.recorder.value.values, a);
      ReadsBackMore(digest, t.entries, accesses, a);
    }
  }

  lemma PathKeepsValues(m: Machine, ix: TreeIndex)
    requires m.recorder.Some?
    ensures Recorded(m, ix).Some? && Recorded(m, ix).value.values == m.recorder.value.values
  {
    SiblingsKeepValues(m.recorder.value, m.tree.hashes, ix, TREE_DEPTH);
  }

  lemma {:induction false} SiblingsKeepValues(r: Recorder, current: Hashes, ix: TreeIndex, n: nat)
    requires n <= TREE_DEPTH
    ensures RecordSiblings(r, current, ix, n).values == r.values
  {
    hide SiblingSlot;
    if n > 0 {
      SiblingsKeepValues(r, current, ix, n - 1);
    }
  }

  lemma NothingRecorded(digest: Digest, t: Tree)
    requires Keyed(digest, t.entries)
    ensures AllRecorded(digest, t, [], Machine(t, Some(FreshRecorder(t))))
  {
    hide BalanceKey, TreeIndexFromKey;
  }

  /** The recorder after a run in which reads come before writes. */
  lemma {:induction false} RunRecords(digest: Digest, t: Tree, accesses: seq<Access>)
    requires Keyed(digest, t.entries) && ReadFirst(accesses)
    requires Execute(digest, Machine(t, Some(FreshRecorder(t))), accesses).Some?
    ensures AllRecorded(digest, t, accesses, Execute(digest, Machine(t, Some(FreshRecorder(t))), accesses).value)
  {
    hide Step, AllRecorded, Keyed, FreshRecorder;
    if accesses == [] {
      NothingRecorded(digest, t);
    } else {
      var init, a := accesses[..|accesses| - 1], accesses[|accesses| - 1];
      ReadFirstInit(accesses);
      RunRecords(digest, t, init);
      assert accesses == init + [a];
      StepRecords(digest, t, init, Execute(digest, Machine(t, Some(FreshRecorder(t))), init).value, a);
    }
  }

  lemma ReadFirstInit(accesses: seq<Access>)
    requires ReadFirst(accesses) && accesses != []
    ensures var n := |accesses| - 1;
      ReadFirst(accesses[..n]) && (accesses[n].Write? ==> Read(accesses[n].id) in accesses[..n])
  {
    var init := accesses[..|accesses| - 1];
    assert forall j | 0 <= j < |init| :: init[..j] == accesses[..j];
  }
}
