/**
  The access recorder of the builder, and the machine that runs a list of balance accesses on a
  store, with the recorder or without it.
*/
module Recording {
  import opened Wrappers
  import opened Hashing
  import opened Numbering
  import opened Keys
  import opened Merkle
  import opened StateTrees
  import opened Ledgers

  /** The hashes when recording began, the hashes recorded since, the values recorded since. */
  datatype Recorder = Recorder(initial: Hashes, hashes: Hashes, values: map<Key, Balance>)

  /** Records the initial hash at an index; nothing is recorded where either hash is empty. */
  function RecordHash(r: Recorder, current: Hashes, ix: TreeIndex): Recorder {
    if Get(current, ix) == EMPTY_HASH || Get(r.initial, ix) == EMPTY_HASH then r
    else r.(hashes := r.hashes[ix := Get(r.initial, ix)])
  }

  /** Records the siblings on the first n levels of a path. */
  function RecordSiblings(r: Recorder, current: Hashes, ix: TreeIndex, n: nat): Recorder
    requires n <= TREE_DEPTH
    decreases n, r
  {
    if n == 0 then r else RecordHash(RecordSiblings(r, current, ix, n - 1), current, SiblingSlot(ix, n - 1))
  }

  function RecordPath(r: Recorder, current: Hashes, ix: TreeIndex): Recorder {
    RecordSiblings(r, current, ix, TREE_DEPTH)
  }

  /** Records the entry found at a leaf, unless its key is recorded already. */
  function RecordValue(r: Recorder, entries: Entries, ix: TreeIndex): Recorder {
    if ix in entries && entries[ix].key !in r.values
    then r.(values := r.values[entries[ix].key := entries[ix].value])
    else r
  }

  // ---------------------------------------------------------------- the machine

  function IndexOf(digest: Digest, id: BalanceId): TreeIndex {
    TreeIndexFromKey(digest, BalanceKey(id))
  }

  /** A store with a recorder, or without one. */
  datatype Machine = Machine(tree: Tree, recorder: Option<Recorder>)

  function Recorded(m: Machine, ix: TreeIndex): Option<Recorder> {
    match m.recorder
    case None => None
    case Some(r) => Some(RecordPath(r, m.tree.hashes, ix))
  }

  /** One access; a write to an occupied leaf aborts the program. */
  function Step(digest: Digest, m: Machine, a: Access): Option<Machine> {
    var ix := IndexOf(digest, a.id);
    var recorder := Recorded(m, ix);
    match a
    case Read(id) =>
      Some(Machine(m.tree, if recorder.None? then None else Some(RecordValue(recorder.value, m.tree.entries, ix))))
    case Write(id, value) =>
      match TreeSet(digest, m.tree, BalanceKey(id), value)
      case None => None
      case Some(tree) => Some(Machine(tree, recorder))
  }

  function Execute(digest: Digest, m: Machine, accesses: seq<Access>): Option<Machine> {
    if accesses == [] then Some(m)
    else
      match Execute(digest, m, accesses[..|accesses| - 1])
      case None => None
      case Some(next) => Step(digest, next, accesses[|accesses| - 1])
  }

  lemma {:induction false} ExecuteConcat(digest: Digest, m: Machine, a: seq<Access>, b: seq<Access>)
    ensures Execute(digest, m, a + b)
         == match Execute(digest, m, a) case None => None case Some(next) => Execute(digest, next, b)
  {
    hide Step;
    if b == [] {
      assert a + b == a;
    } else {
      var n := |b| - 1;
      assert (a + b)[..|a + b| - 1] == a + b[..n];
      ExecuteConcat(digest, m, a, b[..n]);
    }
  }

  /** Recording observes and does not interfere. */
  lemma {:induction false} RecorderIsPassive(digest: Digest, m: Machine, accesses: seq<Access>)
    ensures var plain := Execute(digest, Machine(m.tree, None), accesses);
      && (plain.Some? <==> Execute(digest, m, accesses).Some?)
      && (plain.Some? ==> plain.value == Machine(Execute(digest, m, accesses).value.tree, None))
      && (plain.Some? ==> (Execute(digest, m, accesses).value.recorder.Some? <==> m.recorder.Some?))
  {
    hide TreeSet, RecordPath, RecordValue, IndexOf;
    if accesses != [] {
      RecorderIsPassive(digest, m, accesses[..|accesses| - 1]);
    }
  }

  // ---------------------------------------------------------------- the ledger of a store

  ghost predicate HoldsBalance(digest: Digest, entries: Entries, ix: TreeIndex, id: BalanceId) {
    ix in entries && entries[ix].key == BalanceKey(id) && ix == IndexOf(digest, id)
  }

  ghost function HeldIds(digest: Digest, entries: Entries): set<BalanceId> {
    set ix | ix in entries && exists id :: HoldsBalance(digest, entries, ix, id) :: HeldId(digest, entries, ix)
  }

  ghost function HeldId(digest: Digest, entries: Entries, ix: TreeIndex): BalanceId
    requires exists id :: HoldsBalance(digest, entries, ix, id)
  {
    var id :| HoldsBalance(digest, entries, ix, id);
    id
  }

  lemma HeldIdIs(digest: Digest, entries: Entries, ix: TreeIndex, id: BalanceId)
    requires HoldsBalance(digest, entries, ix, id)
    ensures HeldId(digest, entries, ix) == id
  {
    BalanceKeyInjective(HeldId(digest, entries, ix), id);
  }

  /** The balances that a store answers for. */
  ghost function Contents(digest: Digest, entries: Entries): map<BalanceId, Balance> {
    map id | id in HeldIds(digest, entries) && IndexOf(digest, id) in entries :: entries[IndexOf(digest, id)].value
  }

  lemma ContentsLookup(digest: Digest, entries: Entries, id: BalanceId)
    ensures var found := Lookup(digest, entries, BalanceKey(id));
      && (id in Contents(digest, entries) <==> found.Some?)
      && (found.Some? ==> Contents(digest, entries)[id] == found.value)
  {
    hide BalanceKey, TreeIndexFromKey;
    var ix := IndexOf(digest, id);
    if Lookup(digest, entries, BalanceKey(id)).Some? {
      assert HoldsBalance(digest, entries, ix, id);
      HeldIdIs(digest, entries, ix, id);
    }
  }

  lemma ContentsOfSet(digest: Digest, t: Tree, id: BalanceId, value: Balance)
    requires TreeSet(digest, t, BalanceKey(id), value).Some?
    ensures Contents(digest, TreeSet(digest, t, BalanceKey(id), value).value.entries) == Contents(digest, t.entries)[id := value]
  {
    hide TreeSet, Contents, Lookup, BalanceKey;
    var t' := TreeSet(digest, t, BalanceKey(id), value).value;
    forall other
      ensures other in Contents(digest, t'.entries) <==> other in Contents(digest, t.entries)[id := value]
      ensures other in Contents(digest, t'.entries) ==>
        Contents(digest, t'.entries)[other] == Contents(digest, t.entries)[id := value][other]
    {
      SetLookup(digest, t, BalanceKey(id), value, BalanceKey(other));
      BalanceKeyInjective(id, other);
      ContentsLookup(digest, t.entries, other);
      ContentsLookup(digest, t'.entries, other);
    }
  }

  /** The writes of a list of accesses, on a map of balances. */
  ghost function Written(balances: map<BalanceId, Balance>, accesses: seq<Access>): map<BalanceId, Balance> {
    if accesses == [] then balances
    else
      var before := Written(balances, accesses[..|accesses| - 1]);
      match accesses[|accesses| - 1]
      case Read(_) => before
      case Write(id, value) => before[id := value]
  }

  lemma {:induction false} WrittenConcat(balances: map<BalanceId, Balance>, a: seq<Access>, b: seq<Access>)
    ensures Written(balances, a + b) == Written(Written(balances, a), b)
  {
    if b == [] {
      assert a + b == a;
    } else {
      var n := |b| - 1;
      assert (a + b)[..|a + b| - 1] == a + b[..n];
      WrittenConcat(balances, a, b[..n]);
    }
  }

  /** The store implements the map: executing accesses writes exactly what they say. */
  lemma {:induction false} ExecuteContents(digest: Digest, m: Machine, accesses: seq<Access>)
    requires Execute(digest, m, accesses).Some?
    ensures Contents(digest, Execute(digest, m, accesses).value.tree.entries)
         == Written(Contents(digest, m.tree.entries), accesses)
  {
    hide TreeSet, Contents, Recorded, BalanceKey;
    if accesses != [] {
      var init, a := accesses[..|accesses| - 1], accesses[|accesses| - 1];
      ExecuteContents(digest, m, init);
      if a.Write? {
        ContentsOfSet(digest, Execute(digest, m, init).value.tree, a.id, a.value);
      }
    }
  }

  lemma ApplyWrites(l: Ledger, op: Operation)
    ensures Apply(l, op).ledger.balances == Written(l.balances, Apply(l, op).accesses)
  {
    var accesses := Apply(l, op).accesses;
    assert forall n | 0 < n <= |accesses| :: accesses[..n][..n - 1] == accesses[..n - 1];
    assert accesses[..|accesses|] == accesses;
    if |accesses| == 4 {
      assert Written(l.balances, accesses[..2]) == Written(l.balances, accesses[..1]) == l.balances;
      assert Written(l.balances, accesses[..3]) == l.balances[accesses[2].id := accesses[2].value];
    } else if |accesses| == 2 {
      assert Written(l.balances, accesses[..1]) == l.balances;
    }
  }

  /** The accesses of a run are what makes its ledger. */
  lemma {:induction false} RunWrites(l: Ledger, ops: seq<Operation>)
    ensures ApplyAll(l, ops).ledger.balances == Written(l.balances, ApplyAll(l, ops).accesses)
  {
    hide Apply;
    if ops != [] {
      var init, op := ops[..|ops| - 1], ops[|ops| - 1];
      RunWrites(l, init);
      ApplyWrites(ApplyAll(l, init).ledger, op);
      WrittenConcat(l.balances, ApplyAll(l, init).accesses, Apply(ApplyAll(l, init).ledger, op).accesses);
    }
  }
}
