/** The whole state, the transition of a batch on it, and the theorems that tie witness, root and ledger together. */
module Transitions {
  import opened Wrappers
  import opened Hashing
  import opened Numbering
  import opened Keys
  import opened Merkle
  import opened StateTrees
  import opened Ledgers
  import opened Netting
  import opened Recording
  import opened Witnesses
  import opened Replay

  /** The store and the known tokens. */
  datatype Snapshot = Snapshot(tree: Tree, tokens: seq<TokenId>)

  datatype Witness = Witness(hashes: seq<(TreeIndex, Hash)>, values: seq<(Key, Balance)>, tokens: seq<TokenId>)

  const GENESIS: Snapshot := Snapshot(EMPTY_TREE, [])

  function GetRoot(s: Snapshot): Hash {
    HashPair(Root(s.tree.hashes), TokensHash(s.tokens))
  }

  ghost function LedgerOf(digest: Digest, s: Snapshot): Ledger {
    Ledger(Contents(digest, s.tree.entries), s.tokens)
  }

  /** A batch on a state; None when a write meets an occupied leaf and the program aborts. */
  ghost function Transition(digest: Digest, s: Snapshot, ops: seq<SignedOperation>): Option<Snapshot> {
    var run := Exec(LedgerOf(digest, s), ops);
    match Execute(digest, Machine(s.tree, None), run.accesses)
    case None => None
    case Some(m) => Some(Snapshot(m.tree, run.ledger.tokens))
  }

  function FromWitness(digest: Digest, w: Witness): Option<Snapshot> {
    match LoadWitness(digest, w.hashes, w.values)
    case None => None
    case Some(t) => Some(Snapshot(t, w.tokens))
  }

  // ---------------------------------------------------------------- states and roots

  ghost predicate ValidState(digest: Digest, s: Snapshot) {
    ValidTree(digest, s.tree)
  }

  /** What the state root covers, left and right: the root of the tree and the hash of the token list. */
  lemma RootParts(s: Snapshot)
    ensures GetRoot(s) == EMPTY_HASH <==> Root(s.tree.hashes) == EMPTY_HASH && s.tokens == []
    ensures GetRoot(s) != EMPTY_HASH ==> GetRoot(s) == Pair(Root(s.tree.hashes), TokensHash(s.tokens))
    ensures |s.tokens| == 2 ==> TokensHash(s.tokens) == Pair(Word(s.tokens[0]), Word(s.tokens[1]))
  {
    hide Root;
  }

  /** The root determines the state: store, hashes and token list. */
  lemma RootDeterminesState(digest: Digest, s1: Snapshot, s2: Snapshot)
    requires ValidState(digest, s1) && ValidState(digest, s2)
    ensures GetRoot(s1) == GetRoot(s2) <==> s1 == s2
  {
    hide ValidTree, Root;
    if GetRoot(s1) == GetRoot(s2) {
      HashPairInjective(Root(s1.tree.hashes), TokensHash(s1.tokens), Root(s2.tree.hashes), TokensHash(s2.tokens));
      TokensHashInjective(s1.tokens, s2.tokens);
      RootDeterminesTree(digest, s1.tree, s2.tree);
    }
  }

  /** The Merkle-backed state implements the ledger: a batch that goes through has the ledger's result. */
  lemma TransitionIsExec(digest: Digest, s: Snapshot, ops: seq<SignedOperation>)
    ensures Transition(digest, s, ops).Some? ==>
      LedgerOf(digest, Transition(digest, s, ops).value) == Exec(LedgerOf(digest, s), ops).ledger
  {
    hide Execute, Contents, Written, NetTransfers;
    var l := LedgerOf(digest, s);
    if Transition(digest, s, ops).Some? {
      ExecuteContents(digest, Machine(s.tree, None), Exec(l, ops).accesses);
      RunWrites(l, Mints(ops) + NetTransfers(Transfers(ops)));
    }
  }

  /**
    Order independence, down to the state: batches with the same mints in order and the same transfers
    in any order end in the same store, tokens and root, abort alike, and record the same witness data.
  */
  lemma OrderIndependentState(digest: Digest, s: Snapshot, a: seq<SignedOperation>, b: seq<SignedOperation>)
    requires Mints(a) == Mints(b) && multiset(Transfers(a)) == multiset(Transfers(b))
    ensures Transition(digest, s, a) == Transition(digest, s, b)
    ensures Session(digest, s, a) == Session(digest, s, b)
  {
    hide Exec, Execute;
    OrderIndependent(LedgerOf(digest, s), a, b);
  }

  // ---------------------------------------------------------------- the accesses of a batch

  /** The balances that an operation names. */
  function IdsOf(op: Operation): set<BalanceId> {
    match op
    case Mint(to, token, _) => {BalanceId(token, to)}
    case Transfer(from, to, token, _) => {BalanceId(token, from), BalanceId(token, to)}
  }

  /** The balances that the operations of a batch name. */
  function BatchIds(ops: seq<SignedOperation>): set<BalanceId> {
    set signed, id | signed in ops && id in IdsOf(signed.operation) :: id
  }

  function PairIds(k: PairKey): set<BalanceId> {
    {BalanceId(k.token, k.first), BalanceId(k.token, k.second)}
  }

  lemma {:induction false} RunNamed(l: Ledger, ops: seq<Operation>, ids: set<BalanceId>)
    requires forall op | op in ops :: IdsOf(op) <= ids
    ensures forall a | a in ApplyAll(l, ops).accesses :: a.id in ids
  {
    if ops != [] {
      var init, op := ops[..|ops| - 1], ops[|ops| - 1];
      assert op in ops && forall o | o in init :: o in ops;
      RunNamed(l, init, ids);
    }
  }

  lemma {:induction false} StagedPairsNamed(transfers: seq<Operation>, ids: set<BalanceId>)
    requires forall t | t in transfers :: t.Transfer? && IdsOf(t) <= ids
    ensures forall k | k in StagedOf(transfers) :: PairIds(k) <= ids
  {
    hide Wrap;
    if transfers != [] {
      var init := transfers[..|transfers| - 1];
      assert transfers[|transfers| - 1] in transfers && forall t | t in init :: t in transfers;
      StagedPairsNamed(init, ids);
    }
  }

  lemma {:induction false} SettlementsNamed(keys: seq<PairKey>, staged: Staged, ids: set<BalanceId>)
    requires forall k | k in keys :: k in staged && PairIds(k) <= ids
    ensures forall t | t in Settlements(keys, staged) :: IdsOf(t) <= ids
  {
    hide Settlement, IdsOf, PairIds;
    if keys != [] {
      var init, k := keys[..|keys| - 1], keys[|keys| - 1];
      assert k in keys && forall j | j in init :: j in keys;
      SettlementsNamed(init, staged, ids);
      SettlementNamed(k, staged[k], ids);
    }
  }

  lemma SettlementNamed(k: PairKey, net: I64, ids: set<BalanceId>)
    requires PairIds(k) <= ids
    ensures forall t | t in Settlement(k, net) :: IdsOf(t) <= ids
  {
  }

  lemma {:induction false} MintsNamed(ops: seq<SignedOperation>, ids: set<BalanceId>)
    requires forall signed | signed in ops :: IdsOf(signed.operation) <= ids
    ensures forall op | op in Mints(ops) :: IdsOf(op) <= ids
  {
    hide IdsOf;
    if ops != [] {
      assert ops[|ops| - 1] in ops && forall op | op in ops[..|ops| - 1] :: op in ops;
      MintsNamed(ops[..|ops| - 1], ids);
    }
  }

  lemma BatchNamed(ops: seq<SignedOperation>)
    ensures forall op | op in Mints(ops) + NetTransfers(Transfers(ops)) :: IdsOf(op) <= BatchIds(ops)
  {
    hide IdsOf;
    var ids := BatchIds(ops);
    MintsNamed(ops, ids);
    StagedPairsNamed(Transfers(ops), ids);
    var staged := StagedOf(Transfers(ops));
    SettlementsNamed(SortedKeys(staged.Keys), staged, ids);
  }

  /** Netting included, a batch reads and writes no balance that none of its operations names. */
  lemma AccessesNamed(l: Ledger, ops: seq<SignedOperation>)
    ensures forall a | a in Exec(l, ops).accesses :: a.id in BatchIds(ops)
  {
    hide IdsOf, ApplyAll, BatchIds;
    BatchNamed(ops);
    RunNamed(l, Mints(ops) + NetTransfers(Transfers(ops)), BatchIds(ops));
  }

  lemma ReadFirstConcat(a: seq<Access>, b: seq<Access>)
    requires ReadFirst(a) && ReadFirst(b)
    ensures ReadFirst(a + b)
  {
    forall j | 0 <= j < |a + b| && (a + b)[j].Write? ensures Read((a + b)[j].id) in (a + b)[..j] {
      if j < |a| {
        assert (a + b)[..j] == a[..j];
      } else {
        assert (a + b)[..j] == a + b[..j - |a|];
      }
    }
  }

  lemma ApplyReadsFirst(l: Ledger, op: Operation)
    ensures ReadFirst(Apply(l, op).accesses)
  {
    var accesses := Apply(l, op).accesses;
    forall j | 0 <= j < |accesses| && accesses[j].Write? ensures Read(accesses[j].id) in accesses[..j] {
      if |accesses| == 4 {
        assert accesses[..j][0] == accesses[0] && accesses[..j][1] == accesses[1];
      } else {
        assert accesses[..j][0] == accesses[0];
      }
    }
  }

  lemma {:induction false} RunReadsFirst(l: Ledger, ops: seq<Operation>)
    ensures ReadFirst(ApplyAll(l, ops).accesses)
  {
    hide Apply;
    if ops != [] {
      var init, op := ops[..|ops| - 1], ops[|ops| - 1];
      RunReadsFirst(l, init);
      ApplyReadsFirst(ApplyAll(l, init).ledger, op);
      ReadFirstConcat(ApplyAll(l, init).accesses, Apply(ApplyAll(l, init).ledger, op).accesses);
    }
  }

  /** The accesses of a batch on a state. */
  ghost function AccessesOf(digest: Digest, s: Snapshot, ops: seq<SignedOperation>): seq<Access> {
    Exec(LedgerOf(digest, s), ops).accesses
  }

  // ---------------------------------------------------------------- which runs abort

  /** No leaf that is written holds another key at first, and no two balances are written to one leaf. */
  ghost predicate WritesApart(digest: Digest, initial: Entries, accesses: seq<Access>) {
    && (forall a | a in accesses && a.Write? :: !Collides(digest, initial, BalanceKey(a.id)))
    && (forall a, b | a in accesses && b in accesses && a.Write? && b.Write? && a.id != b.id ::
          IndexOf(digest, a.id) != IndexOf(digest, b.id))
  }

  /** Present keys stay, written leaves hold the key written, nothing else appears. */
  ghost predicate KeysKept(digest: Digest, initial: Entries, accesses: seq<Access>, current: Entries) {
    && (forall ix | ix in initial :: ix in current && current[ix].key == initial[ix].key)
    && (forall a | a in accesses && a.Write? ::
          IndexOf(digest, a.id) in current && current[IndexOf(digest, a.id)].key == BalanceKey(a.id))
    && (forall ix | ix in current :: ix in initial || WrittenLeaf(digest, accesses, ix))
  }

  /** A write meets another key exactly when one was there at first or another balance was written there. */
  lemma CollidesNow(digest: Digest, initial: Entries, accesses: seq<Access>, current: Entries, id: BalanceId)
    requires KeysKept(digest, initial, accesses, current) && WritesApart(digest, initial, accesses)
    ensures Collides(digest, current, BalanceKey(id)) <==>
      || Collides(digest, initial, BalanceKey(id))
      || exists b :: b in accesses && b.Write? && b.id != id && IndexOf(digest, b.id) == IndexOf(digest, id)
  {
    hide BalanceKey, TreeIndexFromKey;
    forall b | b in accesses ensures BalanceKey(id) == BalanceKey(b.id) <==> id == b.id {
      BalanceKeyInjective(id, b.id);
    }
  }

  lemma WritesApartMore(digest: Digest, initial: Entries, accesses: seq<Access>, a: Access)
    ensures WritesApart(digest, initial, accesses + [a]) <==>
      && WritesApart(digest, initial, accesses)
      && (a.Write? ==> !Collides(digest, initial, BalanceKey(a.id)))
      && (a.Write? ==> !exists b :: b in accesses && b.Write? && b.id != a.id && IndexOf(digest, b.id) == IndexOf(digest, a.id))
  {
    hide BalanceKey, Collides, IndexOf;
    assert forall b :: b in accesses + [a] <==> b in accesses || b == a;
  }

  lemma WriteKeepsKeys(digest: Digest, initial: Entries, accesses: seq<Access>, t: Tree, a: Access)
    requires KeysKept(digest, initial, accesses, t.entries) && a.Write?
    ensures TreeSet(digest, t, BalanceKey(a.id), a.value).Some? ==>
      KeysKept(digest, initial, accesses + [a], TreeSet(digest, t, BalanceKey(a.id), a.value).value.entries)
  {
    hide InsertAt, BalanceKey, TreeIndexFromKey, WrittenLeaf;
    forall ix: TreeIndex
      ensures WrittenLeaf(digest, accesses + [a], ix) <==> WrittenLeaf(digest, accesses, ix) || IndexOf(digest, a.id) == ix
    {
      WrittenLeafMore(digest, accesses, a, ix);
    }
  }

  lemma ReadKeepsKeys(digest: Digest, initial: Entries, accesses: seq<Access>, current: Entries, a: Access)
    requires KeysKept(digest, initial, accesses, current) && a.Read?
    ensures KeysKept(digest, initial, accesses + [a], current)
  {
    hide BalanceKey, TreeIndexFromKey, WrittenLeaf, IndexOf;
    forall ix: TreeIndex ensures WrittenLeaf(digest, accesses + [a], ix) <==> WrittenLeaf(digest, accesses, ix) {
      WrittenLeafMore(digest, accesses, a, ix);
    }
  }

  lemma StepSucceeds(digest: Digest, initial: Entries, accesses: seq<Access>, m: Machine, a: Access)
    requires KeysKept(digest, initial, accesses, m.tree.entries) && WritesApart(digest, initial, accesses)
    ensures Step(digest, m, a).Some? <==> WritesApart(digest, initial, accesses + [a])
    ensures Step(digest, m, a).Some? ==> KeysKept(digest, initial, accesses + [a], Step(digest, m, a).value.tree.entries)
  {
    hide InsertAt, RecordPath, RecordValue, BalanceKey, Collides, IndexOf, KeysKept, WritesApart;
    WritesApartMore(digest, initial, accesses, a);
    CollidesNow(digest, initial, accesses, m.tree.entries, a.id);
    if a.Write? {
      WriteKeepsKeys(digest, initial, accesses, m.tree, a);
    } else {
      ReadKeepsKeys(digest, initial, accesses, m.tree.entries, a);
    }
  }

  /** A run of accesses goes through, with a recorder or without, exactly when its writes are apart. */
  lemma {:induction false} ExecuteSucceeds(digest: Digest, m: Machine, accesses: seq<Access>)
    ensures Execute(digest, m, accesses).Some? <==> WritesApart(digest, m.tree.entries, accesses)
    ensures Execute(digest, m, accesses).Some? ==>
      KeysKept(digest, m.tree.entries, accesses, Execute(digest, m, accesses).value.tree.entries)
  {
    hide Step, Collides, IndexOf, BalanceKey;
    if accesses != [] {
      var init, a := accesses[..|accesses| - 1], accesses[|accesses| - 1];
      assert accesses == init + [a];
      ExecuteSucceeds(digest, m, init);
      if Execute(digest, m, init).Some? {
        StepSucceeds(digest, m.tree.entries, init, Execute(digest, m, init).value, a);
      }
    }
  }

  /** A batch aborts the program exactly when two balances meet at a leaf that it writes. */
  lemma TransitionSucceeds(digest: Digest, s: Snapshot, ops: seq<SignedOperation>)
    ensures Transition(digest, s, ops).Some? <==> WritesApart(digest, s.tree.entries, AccessesOf(digest, s, ops))
    ensures Session(digest, s, ops).Some? <==> Transition(digest, s, ops).Some?
  {
    hide Execute, WritesApart, Exec, FreshRecorder;
    ExecuteSucceeds(digest, Machine(s.tree, None), AccessesOf(digest, s, ops));
    ExecuteSucceeds(digest, Machine(s.tree, Some(FreshRecorder(s.tree))), AccessesOf(digest, s, ops));
  }

  /** The balances select pairwise distinct leaves, each empty or held by its balance. */
  ghost predicate IdsApart(digest: Digest, entries: Entries, ids: set<BalanceId>) {
    && (forall id | id in ids :: !Collides(digest, entries, BalanceKey(id)))
    && (forall x, y | x in ids && y in ids && x != y :: IndexOf(digest, x) != IndexOf(digest, y))
  }

  /** Before running it: a batch whose balances are apart does not abort, whatever its operations do. */
  lemma BatchSucceeds(digest: Digest, s: Snapshot, ops: seq<SignedOperation>)
    requires IdsApart(digest, s.tree.entries, BatchIds(ops))
    ensures Transition(digest, s, ops).Some? && Session(digest, s, ops).Some?
  {
    hide Exec, Collides, IndexOf, BalanceKey, BatchIds, Transition, Session, LedgerOf;
    AccessesNamed(LedgerOf(digest, s), ops);
    TransitionSucceeds(digest, s, ops);
  }

  // ---------------------------------------------------------------- which runs keep validity

  /** Everything that is written is written to a leaf. */
  ghost predicate WritesOnLeaves(digest: Digest, accesses: seq<Access>) {
    forall a | a in accesses && a.Write? :: IndexOf(digest, a.id) < TREE_SIZE
  }

  /** Setting any key leaves a trace at TREE_HASHES, the one index that no node has, if and only if it is beyond the leaves. */
  lemma SetTrace(digest: Digest, t: Tree, key: Key, value: Balance)
    requires TreeSet(digest, t, key, value).Some?
    ensures TREE_HASHES in TreeSet(digest, t, key, value).value.hashes
       <==> TREE_HASHES in t.hashes || TREE_SIZE <= TreeIndexFromKey(digest, key)
    ensures OnLeaves(TreeSet(digest, t, key, value).value.entries)
       <==> OnLeaves(t.entries) && TreeIndexFromKey(digest, key) < TREE_SIZE
  {
    hide InsertAt, PathSlot, OnPath, TreeIndexFromKey;
    var ix := TreeIndexFromKey(digest, key);
    var after := TreeSet(digest, t, key, value).value;
    InsertWrites(t.hashes, ix, LeafHash(value, key));
    ClimbEnd(ix);
    assert PathSlot(ix, TREE_DEPTH) in after.hashes;
    if ix < TREE_SIZE && OnPath(ix, TREE_HASHES) {
      PathBelow(ix, TREE_HASHES);
    }
    assert ix in after.entries && forall i | i in t.entries :: i in after.entries;
  }

  /**
    From a valid store, a run ends in a valid one if and only if it writes to leaves only. Anything else
    shows: in an entry beyond the leaves, and in a hash stored at TREE_HASHES.
  */
  lemma {:induction false} ExecuteValid(digest: Digest, t: Tree, accesses: seq<Access>)
    requires ValidTree(digest, t) && Execute(digest, Machine(t, None), accesses).Some?
    ensures var after := Execute(digest, Machine(t, None), accesses).value.tree;
      && (ValidTree(digest, after) <==> WritesOnLeaves(digest, accesses))
      && (OnLeaves(after.entries) <==> WritesOnLeaves(digest, accesses))
      && (TREE_HASHES !in after.hashes <==> WritesOnLeaves(digest, accesses))
  {
    hide ValidTree, TreeSet, OnLeaves, BalanceKey, TreeIndexFromKey;
    if accesses == [] {
      ValidOnLeaves(digest, t);
    } else {
      var init, a := accesses[..|accesses| - 1], accesses[|accesses| - 1];
      assert accesses == init + [a];
      ExecuteValid(digest, t, init);
      var before := Execute(digest, Machine(t, None), init).value.tree;
      var after := Execute(digest, Machine(t, None), accesses).value.tree;
      if a.Write? {
        SetTrace(digest, before, BalanceKey(a.id), a.value);
        if ValidTree(digest, before) {
          SetValid(digest, before, BalanceKey(a.id), a.value);
        }
      }
      if ValidTree(digest, after) {
        ValidOnLeaves(digest, after);
      }
    }
  }

  /** All entries of the state are at leaves. */
  ghost predicate WithinLeaves(s: Snapshot) {
    OnLeaves(s.tree.entries)
  }

  /** A batch keeps a valid state valid if and only if it writes to leaves only. */
  lemma TransitionValid(digest: Digest, s: Snapshot, ops: seq<SignedOperation>)
    requires ValidState(digest, s)
    ensures Transition(digest, s, ops).Some? ==>
      && (ValidState(digest, Transition(digest, s, ops).value) <==> WritesOnLeaves(digest, AccessesOf(digest, s, ops)))
      && (WithinLeaves(Transition(digest, s, ops).value) <==> WritesOnLeaves(digest, AccessesOf(digest, s, ops)))
  {
    hide ValidTree, Execute, OnLeaves, WritesOnLeaves, Exec;
    if Transition(digest, s, ops).Some? {
      ExecuteValid(digest, s.tree, AccessesOf(digest, s, ops));
    }
  }

  /** The balances that the operations of a batch name select leaves. */
  ghost predicate BatchInRange(digest: Digest, ops: seq<SignedOperation>) {
    forall id | id in BatchIds(ops) :: IndexOf(digest, id) < TREE_SIZE
  }

  lemma {:induction false} ExecuteOnLeaves(digest: Digest, m: Machine, accesses: seq<Access>)
    requires Execute(digest, m, accesses).Some?
    ensures OnLeaves(Execute(digest, m, accesses).value.tree.entries)
       <==> OnLeaves(m.tree.entries) && WritesOnLeaves(digest, accesses)
  {
    hide TreeSet, OnLeaves, BalanceKey, TreeIndexFromKey, Recorded;
    if accesses != [] {
      var init, a := accesses[..|accesses| - 1], accesses[|accesses| - 1];
      assert accesses == init + [a];
      ExecuteOnLeaves(digest, m, init);
      if a.Write? {
        SetTrace(digest, Execute(digest, m, init).value.tree, BalanceKey(a.id), a.value);
      }
    }
  }

  /** Before running it: a batch whose balances all select leaves keeps every state within them. */
  lemma BatchStaysWithinLeaves(digest: Digest, s: Snapshot, ops: seq<SignedOperation>)
    requires WithinLeaves(s) && BatchInRange(digest, ops)
    ensures Transition(digest, s, ops).Some? ==> WithinLeaves(Transition(digest, s, ops).value)
  {
    hide Execute, Exec, OnLeaves, BatchIds, IndexOf, LedgerOf;
    AccessesNamed(LedgerOf(digest, s), ops);
    if Transition(digest, s, ops).Some? {
      ExecuteOnLeaves(digest, Machine(s.tree, None), AccessesOf(digest, s, ops));
    }
  }

  /** Entries are never removed: a state that ends within the leaves was within them before. */
  lemma WithinLeavesBefore(digest: Digest, s: Snapshot, ops: seq<SignedOperation>)
    requires Transition(digest, s, ops).Some? && WithinLeaves(Transition(digest, s, ops).value)
    ensures WithinLeaves(s)
    ensures ValidState(digest, s) ==> ValidState(digest, Transition(digest, s, ops).value)
  {
    hide ValidState, OnLeaves, Execute, Exec, WritesOnLeaves;
    ExecuteOnLeaves(digest, Machine(s.tree, None), AccessesOf(digest, s, ops));
    if ValidState(digest, s) {
      TransitionValid(digest, s, ops);
    }
  }

  // ---------------------------------------------------------------- history independence

  /** Every entry is a balance at the leaf of its key. */
  ghost predicate OnlyBalances(digest: Digest, entries: Entries) {
    forall ix | ix in entries :: exists id :: HoldsBalance(digest, entries, ix, id)
  }

  lemma {:induction false} ExecuteOnlyBalances(digest: Digest, t: Tree, accesses: seq<Access>)
    requires OnlyBalances(digest, t.entries) && Execute(digest, Machine(t, None), accesses).Some?
    ensures OnlyBalances(digest, Execute(digest, Machine(t, None), accesses).value.tree.entries)
  {
    hide BalanceKey, TreeIndexFromKey, InsertAt;
    if accesses != [] {
      var init, a := accesses[..|accesses| - 1], accesses[|accesses| - 1];
      ExecuteOnlyBalances(digest, t, init);
      if a.Write? {
        var before := Execute(digest, Machine(t, None), init).value.tree;
        var after := TreeSet(digest, before, BalanceKey(a.id), a.value).value;
        forall ix | ix in after.entries ensures exists id :: HoldsBalance(digest, after.entries, ix, id) {
          if ix == IndexOf(digest, a.id) {
            assert HoldsBalance(digest, after.entries, ix, a.id);
          } else {
            var id :| HoldsBalance(digest, before.entries, ix, id);
            assert HoldsBalance(digest, after.entries, ix, id);
          }
        }
      }
    }
  }

  lemma ContentsDetermineEntries(digest: Digest, e1: Entries, e2: Entries)
    requires OnlyBalances(digest, e1) && OnlyBalances(digest, e2) && Contents(digest, e1) == Contents(digest, e2)
    ensures e1 == e2
  {
    hide BalanceKey, TreeIndexFromKey, Contents;
    forall ix | ix in e1 ensures ix in e2 && e1[ix] == e2[ix] {
      SharedEntry(digest, e1, e2, ix);
    }
    forall ix | ix in e2 ensures ix in e1 {
      SharedEntry(digest, e2, e1, ix);
    }
    assert e1.Keys == e2.Keys;
  }

  lemma SharedEntry(digest: Digest, e1: Entries, e2: Entries, ix: TreeIndex)
    requires OnlyBalances(digest, e1) && Contents(digest, e1) == Contents(digest, e2) && ix in e1
    ensures ix in e2 && e1[ix] == e2[ix]
  {
    hide BalanceKey, TreeIndexFromKey, Contents;
    var id :| HoldsBalance(digest, e1, ix, id);
    ContentsLookup(digest, e1, id);
    ContentsLookup(digest, e2, id);
  }

  /**
    History independence: runs of writes that end in the same balances end in the same entries, and, as
    long as these are at leaves, in the same hash map and root.
  */
  lemma HistoryIndependent(digest: Digest, a: seq<Access>, b: seq<Access>)
    requires Execute(digest, Machine(EMPTY_TREE, None), a).Some? && Execute(digest, Machine(EMPTY_TREE, None), b).Some?
    requires Written(map[], a) == Written(map[], b)
    ensures var ta := Execute(digest, Machine(EMPTY_TREE, None), a).value.tree;
      var tb := Execute(digest, Machine(EMPTY_TREE, None), b).value.tree;
      ta.entries == tb.entries && (OnLeaves(ta.entries) ==> ta == tb)
  {
    hide Execute, ValidTree, Contents, OnLeaves, WritesOnLeaves;
    var ta, tb := Execute(digest, Machine(EMPTY_TREE, None), a).value.tree, Execute(digest, Machine(EMPTY_TREE, None), b).value.tree;
    EmptyTreeValid(digest);
    ExecuteValid(digest, EMPTY_TREE, a);
    ExecuteValid(digest, EMPTY_TREE, b);
    ExecuteOnlyBalances(digest, EMPTY_TREE, a);
    ExecuteOnlyBalances(digest, EMPTY_TREE, b);
    EmptyContents(digest);
    ExecuteContents(digest, Machine(EMPTY_TREE, None), a);
    ExecuteContents(digest, Machine(EMPTY_TREE, None), b);
    ContentsDetermineEntries(digest, ta.entries, tb.entries);
    if OnLeaves(ta.entries) {
      EntriesDetermineTree(digest, ta, tb);
    }
  }

  lemma EmptyContents(digest: Digest)
    ensures Contents(digest, EMPTY_TREE.entries) == map[]
  {
  }

  // ---------------------------------------------------------------- stateless replay

  /** The ledgers agree on the tokens and on the balances that the accesses name. */
  ghost predicate AgreeOn(l1: Ledger, l2: Ledger, accesses: seq<Access>) {
    l1.tokens == l2.tokens && forall a | a in accesses :: BalanceOf(l1, a.id) == BalanceOf(l2, a.id)
  }

  lemma ApplyAgrees(l1: Ledger, l2: Ledger, all: seq<Access>, op: Operation)
    requires AgreeOn(l1, l2, all) && forall a | a in Apply(l1, op).accesses :: a in all
    ensures Apply(l1, op).accesses == Apply(l2, op).accesses
    ensures AgreeOn(Apply(l1, op).ledger, Apply(l2, op).ledger, all)
  {
    var accesses := Apply(l1, op).accesses;
    assert |accesses| > 0 ==> accesses[0] in all;
    assert |accesses| > 1 ==> accesses[1] in all;
  }

  /** A run looks at the balances it accesses and at nothing else. */
  lemma {:induction false} RunAgrees(l1: Ledger, l2: Ledger, all: seq<Access>, ops: seq<Operation>)
    requires AgreeOn(l1, l2, all) && forall a | a in ApplyAll(l1, ops).accesses :: a in all
    ensures ApplyAll(l1, ops).accesses == ApplyAll(l2, ops).accesses
    ensures AgreeOn(ApplyAll(l1, ops).ledger, ApplyAll(l2, ops).ledger, all)
  {
    hide Apply, AgreeOn;
    if ops != [] {
      var init, op := ops[..|ops| - 1], ops[|ops| - 1];
      var before := ApplyAll(l1, init);
      assert forall a | a in before.accesses :: a in ApplyAll(l1, ops).accesses;
      assert forall a | a in Apply(before.ledger, op).accesses :: a in ApplyAll(l1, ops).accesses;
      RunAgrees(l1, l2, all, init);
      ApplyAgrees(before.ledger, ApplyAll(l2, init).ledger, all, op);
    }
  }

  lemma AlikeLedgers(digest: Digest, s1: Snapshot, s2: Snapshot, accesses: seq<Access>)
    requires Alike(digest, s1.tree, s2.tree, accesses) && s1.tokens == s2.tokens
    ensures AgreeOn(LedgerOf(digest, s1), LedgerOf(digest, s2), accesses)
  {
    hide SameBeside, Contents, BalanceKey, TreeIndexFromKey, Root;
    forall a | a in accesses ensures BalanceOf(LedgerOf(digest, s1), a.id) == BalanceOf(LedgerOf(digest, s2), a.id) {
      ContentsLookup(digest, s1.tree.entries, a.id);
      ContentsLookup(digest, s2.tree.entries, a.id);
    }
  }

  /** States that look alike to a batch have the same outcome and the same root after it. */
  lemma TransitionAlike(digest: Digest, s1: Snapshot, s2: Snapshot, ops: seq<SignedOperation>)
    requires s1.tokens == s2.tokens
    requires Alike(digest, s1.tree, s2.tree, Exec(LedgerOf(digest, s1), ops).accesses)
    ensures var t1, t2 := Transition(digest, s1, ops), Transition(digest, s2, ops);
      && (t1.Some? <==> t2.Some?)
      && (t1.Some? ==> GetRoot(t1.value) == GetRoot(t2.value))
  {
    hide SameBeside, Execute, Contents, ApplyAll, NetTransfers, BalanceKey, TreeIndexFromKey, Root;
    var l1, l2 := LedgerOf(digest, s1), LedgerOf(digest, s2);
    var accesses := Exec(l1, ops).accesses;
    AlikeLedgers(digest, s1, s2, accesses);
    RunAgrees(l1, l2, accesses, Mints(ops) + NetTransfers(Transfers(ops)));
    ExecuteAlike(digest, s1.tree, s2.tree, accesses, accesses);
  }

  /** What the builder's store and recorder hold after the batch, when it did not abort. */
  ghost function Session(digest: Digest, s: Snapshot, ops: seq<SignedOperation>): Option<Machine> {
    Execute(digest, Machine(s.tree, Some(FreshRecorder(s.tree))), AccessesOf(digest, s, ops))
  }

  /** The witness that the builder takes after running the batch on the state. */
  ghost predicate WitnessOf(digest: Digest, s: Snapshot, ops: seq<SignedOperation>, w: Witness) {
    && Session(digest, s, ops).Some? && Session(digest, s, ops).value.recorder.Some?
    && var r := Session(digest, s, ops).value.recorder.value;
    && Enumerates(w.hashes, r.hashes) && Enumerates(w.values, r.values) && w.tokens == s.tokens
  }

  /**
    What a witness holds, exactly: the hashes that were not empty at first of the root and of all nodes
    beside the paths of the balances accessed, and, unless something is read back, the entries read.
  */
  lemma WitnessExact(digest: Digest, s: Snapshot, ops: seq<SignedOperation>, w: Witness)
    requires Keyed(digest, s.tree.entries)
    ensures WitnessOf(digest, s, ops, w) ==> forall i: TreeIndex, h: Hash :: (i, h) in w.hashes <==>
      Get(s.tree.hashes, i) == h != EMPTY_HASH && (i == ROOT_INDEX || BesideAccess(digest, AccessesOf(digest, s, ops), i))
    ensures WitnessOf(digest, s, ops, w) && !ReadsBack(digest, s.tree.entries, AccessesOf(digest, s, ops)) ==>
      forall key: Key, v: Balance :: (key, v) in w.values <==>
        EntryRead(digest, s.tree.entries, AccessesOf(digest, s, ops), KeyValue(v, key))
  {
    hide Execute, Enumerates, Exec, FreshRecorder, AccessesOf, HashesRecorded, EntriesGrow, ValuesRecorded, RecordsNew, ReadsBack,
      BesideAccess, EntryRead, Keyed;
    if WitnessOf(digest, s, ops, w) {
      var accesses := AccessesOf(digest, s, ops);
      var m := Session(digest, s, ops).value;
      AccessesReadFirst(digest, s, ops);
      RunRecords(digest, s.tree, accesses);
      EnumeratesPairs(w.hashes, m.recorder.value.hashes);
      EnumeratesPairs(w.values, m.recorder.value.values);
      RecordedHashesExact(digest, s.tree, accesses, m);
      if !ReadsBack(digest, s.tree.entries, accesses) {
        RecordedValuesExact(digest, s.tree.entries, accesses, m.tree.entries, m.recorder.value.values);
      }
    }
  }

  lemma AccessesReadFirst(digest: Digest, s: Snapshot, ops: seq<SignedOperation>)
    ensures ReadFirst(AccessesOf(digest, s, ops))
  {
    hide ReadFirst, ApplyAll, NetTransfers;
    RunReadsFirst(LedgerOf(digest, s), Mints(ops) + NetTransfers(Transfers(ops)));
  }

  lemma EnumeratesPairs<K, V>(list: seq<(K, V)>, m: map<K, V>)
    requires Enumerates(list, m)
    ensures forall k, v :: (k, v) in list <==> k in m && m[k] == v
  {
    forall k, v | (k, v) in list ensures k in m && m[k] == v {
      var i :| 0 <= i < |list| && list[i] == (k, v);
    }
    forall k | k in m ensures (k, m[k]) in list {
      var i :| 0 <= i < |list| && list[i].0 == k;
      assert list[i] == (k, m[k]);
    }
  }

  lemma RecordedHashesExact(digest: Digest, t: Tree, accesses: seq<Access>, m: Machine)
    requires HashesRecorded(digest, t, accesses, m)
    ensures forall i :: i in m.recorder.value.hashes <==>
      Get(t.hashes, i) != EMPTY_HASH && (i == ROOT_INDEX || BesideAccess(digest, accesses, i))
    ensures forall i | i in m.recorder.value.hashes :: m.recorder.value.hashes[i] == Get(t.hashes, i)
  {
    hide SiblingSlot, IndexOf, StillFilled;
    forall i | BesideAccess(digest, accesses, i) && Get(t.hashes, i) != EMPTY_HASH ensures i in m.recorder.value.hashes {
      var a, d: nat :| a in accesses && d < TREE_DEPTH && SiblingSlot(IndexOf(digest, a.id), d) == i;
      assert Covers(m.recorder.value.hashes, t.hashes, IndexOf(digest, a.id));
    }
  }

  /** The entry was there at first, and some access read its index. */
  ghost predicate EntryRead(digest: Digest, initial: Entries, accesses: seq<Access>, entry: KeyValue) {
    var ix := TreeIndexFromKey(digest, entry.key);
    ix in initial && initial[ix] == entry && ReadLeaf(digest, accesses, ix)
  }

  lemma RecordedValuesExact(digest: Digest, initial: Entries, accesses: seq<Access>, current: Entries, values: map<Key, Balance>)
    requires Keyed(digest, initial) && ValuesRecorded(digest, initial, accesses, current, values) && !RecordsNew(digest, initial, values)
    ensures forall key: Key, v: Balance :: key in values && values[key] == v <==> EntryRead(digest, initial, accesses, KeyValue(v, key))
  {
    hide TreeIndexFromKey, IndexOf;
    forall key: Key, v: Balance | EntryRead(digest, initial, accesses, KeyValue(v, key)) ensures key in values && values[key] == v {
      var ix := TreeIndexFromKey(digest, key);
      var a :| a in accesses && a.Read? && IndexOf(digest, a.id) == ix;
      assert initial[IndexOf(digest, a.id)].key in values;
    }
  }

  /** Every batch that does not abort has a witness. */
  lemma WitnessExists(digest: Digest, s: Snapshot, ops: seq<SignedOperation>) returns (w: Witness)
    ensures Transition(digest, s, ops).Some? ==> WitnessOf(digest, s, ops, w)
  {
    hide Execute, Enumerates, Exec, FreshRecorder;
    w := Witness([], [], s.tokens);
    RecorderIsPassive(digest, Machine(s.tree, Some(FreshRecorder(s.tree))), AccessesOf(digest, s, ops));
    if Transition(digest, s, ops).Some? {
      var r := Session(digest, s, ops).value.recorder.value;
      var hashes := EnumerationExists(r.hashes);
      var values := EnumerationExists(r.values);
      w := Witness(hashes, values, s.tokens);
    }
  }

  /**
    Stateless replay is exact. The witness recorded for a batch is accepted exactly when the batch
    reads no leaf that was empty at first and that it has written; then the partial state has the
    root of the full one, the batch does not abort on it, and the roots after the batch are equal.
  */
  lemma StatelessReplay(digest: Digest, s: Snapshot, ops: seq<SignedOperation>, w: Witness)
    requires ValidState(digest, s) && WitnessOf(digest, s, ops, w)
    ensures FromWitness(digest, w).Some? <==> !ReadsBack(digest, s.tree.entries, AccessesOf(digest, s, ops))
    ensures Transition(digest, s, ops).Some?
    ensures FromWitness(digest, w).Some? ==>
      var p := FromWitness(digest, w).value;
      && GetRoot(p) == GetRoot(s)
      && Transition(digest, p, ops).Some?
      && GetRoot(Transition(digest, p, ops).value) == GetRoot(Transition(digest, s, ops).value)
  {
    hide ValidTree, Exec, LoadWitness, ReadsBack, ReadsBeyond, Transition, Session, Root;
    var accesses := AccessesOf(digest, s, ops);
    ValidLeafPart(digest, s.tree);
    ReadsBeyondNothing(digest, s.tree, accesses);
    LeafPartReplay(digest, s, s.tree, ops, w);
  }

  lemma ReadsBeyondNothing(digest: Digest, t: Tree, accesses: seq<Access>)
    requires ValidTree(digest, t)
    ensures !ReadsBeyond(digest, t.entries, accesses)
  {
    hide IndexOf;
    ValidOnLeaves(digest, t);
  }

  /** Replay of a recording made on any state whose nodes have the hashes of its entries at leaves. */
  lemma LeafPartReplay(digest: Digest, s: Snapshot, full: Tree, ops: seq<SignedOperation>, w: Witness)
    requires LeafPart(digest, s.tree, full) && WitnessOf(digest, s, ops, w)
    ensures Transition(digest, s, ops).Some?
    ensures var accesses := AccessesOf(digest, s, ops);
      FromWitness(digest, w).Some? <==> !ReadsBack(digest, s.tree.entries, accesses) && !ReadsBeyond(digest, s.tree.entries, accesses)
    ensures FromWitness(digest, w).Some? ==>
      var p := FromWitness(digest, w).value;
      && GetRoot(p) == GetRoot(s) && p.tokens == s.tokens
      && Alike(digest, full, p.tree, AccessesOf(digest, s, ops)) && Alike(digest, full, s.tree, AccessesOf(digest, s, ops))
      && Transition(digest, p, ops).Some?
      && GetRoot(Transition(digest, p, ops).value) == GetRoot(Transition(digest, s, ops).value)
  {
    hide LeafPart, Execute, Enumerates, LoadWitness, ReadsBack, ReadsBeyond, ApplyAll, NetTransfers, AllRecorded,
      ReadFirst, FreshRecorder, Root, Contents, Alike, PartOf;
    var accesses := AccessesOf(digest, s, ops);
    RunReadsFirst(LedgerOf(digest, s), Mints(ops) + NetTransfers(Transfers(ops)));
    assert Keyed(digest, s.tree.entries) by {
      LeafPartKeyed(digest, s.tree, full);
    }
    RunRecords(digest, s.tree, accesses);
    RecorderIsPassive(digest, Machine(s.tree, Some(FreshRecorder(s.tree))), accesses);
    LoadRecording(digest, s.tree, full, accesses, Session(digest, s, ops).value, w.hashes, w.values);
    if FromWitness(digest, w).Some? {
      var p := FromWitness(digest, w).value;
      LoadedAlike(digest, s.tree, full, accesses, Session(digest, s, ops).value, w.hashes, w.values);
      AlikeSymmetric(digest, p.tree, full, accesses);
      AlikeSymmetric(digest, s.tree, full, accesses);
      AlikeThrough(digest, s.tree, full, p.tree, accesses);
      TransitionAlike(digest, s, p, ops);
    }
  }

  lemma LeafPartKeyed(digest: Digest, t: Tree, full: Tree)
    requires LeafPart(digest, t, full)
    ensures Keyed(digest, t.entries)
  {
  }

  lemma AlikeThrough(digest: Digest, t1: Tree, t2: Tree, t3: Tree, accesses: seq<Access>)
    requires Alike(digest, t1, t2, accesses) && Alike(digest, t2, t3, accesses)
    ensures Alike(digest, t1, t3, accesses) && Root(t1.hashes) == Root(t3.hashes)
  {
    hide IndexOf, SiblingSlot, Root;
  }

  lemma AlikeSymmetric(digest: Digest, t1: Tree, t2: Tree, accesses: seq<Access>)
    requires Alike(digest, t1, t2, accesses)
    ensures Alike(digest, t2, t1, accesses) && Root(t1.hashes) == Root(t2.hashes)
  {
    hide IndexOf, SiblingSlot, Root;
  }

  // ---------------------------------------------------------------- batches that can be replayed for sure

  /** The token is in the list, or an earlier operation mints it. */
  ghost predicate KnownAt(tokens: seq<TokenId>, ops: seq<Operation>, i: nat)
    requires i < |ops|
  {
    ops[i].token in tokens || exists h :: 0 <= h < i && ops[h].Mint? && ops[h].token == ops[i].token
  }

  /** The operation is not skipped for its token: it mints an unknown one, or transfers a known one. */
  ghost predicate Effective(tokens: seq<TokenId>, ops: seq<Operation>, i: nat)
    requires i < |ops|
  {
    if ops[i].Mint? then !KnownAt(tokens, ops, i) else KnownAt(tokens, ops, i)
  }

  lemma RunTokens(l: Ledger, ops: seq<Operation>, i: nat)
    requires i < |ops|
    ensures KnownAt(l.tokens, ops, i) <==> ops[i].token in ApplyAll(l, ops[..i]).ledger.tokens
  {
    hide ApplyAll;
    KnownAfter(l, ops[..i], ops[i].token);
    assert forall h | 0 <= h < i :: ops[..i][h] == ops[h];
  }

  /** Operations that mint a known token or transfer an unknown one change nothing and access nothing. */
  lemma SkippedOperation(l: Ledger, ops: seq<Operation>, i: nat)
    requires i < |ops| && !Effective(l.tokens, ops, i)
    ensures var before := ApplyAll(l, ops[..i]).ledger;
      Apply(before, ops[i]) == Run(before, [])
  {
    hide ApplyAll, Apply;
    RunTokens(l, ops, i);
    OperationAccesses(ApplyAll(l, ops[..i]).ledger, ops[i]);
  }

  /** At most one of the operations that are not skipped names the balance. */
  ghost predicate NamedOnce(tokens: seq<TokenId>, ops: seq<Operation>, id: BalanceId) {
    forall i, j | 0 <= i < j < |ops| && Effective(tokens, ops, i) && Effective(tokens, ops, j) ::
      !(id in IdsOf(ops[i]) && id in IdsOf(ops[j]))
  }

  lemma EffectiveInit(tokens: seq<TokenId>, ops: seq<Operation>, n: nat, i: nat)
    requires i < n <= |ops|
    ensures Effective(tokens, ops[..n], i) <==> Effective(tokens, ops, i)
  {
    assert forall h | 0 <= h < n :: ops[..n][h] == ops[h];
  }

  lemma ReadsBackConcat(digest: Digest, initial: Entries, a: seq<Access>, b: seq<Access>)
    requires !ReadsBack(digest, initial, a) && !ReadsBack(digest, initial, b)
    requires forall x, y | x in b && y in a && x.Read? && y.Write? && IndexOf(digest, x.id) !in initial ::
      IndexOf(digest, x.id) != IndexOf(digest, y.id)
    ensures !ReadsBack(digest, initial, a + b)
  {
    hide IndexOf;
    var all := a + b;
    forall j | 0 <= j < |all| && all[j].Read? && IndexOf(digest, all[j].id) !in initial
      ensures !WrittenLeaf(digest, all[..j], IndexOf(digest, all[j].id))
    {
      if j < |a| {
        assert all[..j] == a[..j] && all[j] == a[j];
      } else {
        assert all[..j] == a + b[..j - |a|] && all[j] == b[j - |a|];
      }
    }
  }

  /** A single operation reads before it writes. */
  lemma ApplyReadsNothingBack(digest: Digest, initial: Entries, l: Ledger, op: Operation)
    ensures !ReadsBack(digest, initial, Apply(l, op).accesses)
    ensures forall a | a in Apply(l, op).accesses :: a.id in IdsOf(op)
  {
    hide IndexOf;
    var accesses := Apply(l, op).accesses;
    forall j | 0 <= j < |accesses| && accesses[j].Read? ensures !WrittenLeaf(digest, accesses[..j], IndexOf(digest, accesses[j].id)) {
      assert forall a | a in accesses[..j] :: a.Read?;
    }
  }

  lemma {:induction false} NamedOnceReadsNothingBack(digest: Digest, initial: Entries, l: Ledger, ops: seq<Operation>, ids: set<BalanceId>)
    requires forall op | op in ops :: IdsOf(op) <= ids
    requires forall x, y | x in ids && y in ids && x != y :: IndexOf(digest, x) != IndexOf(digest, y)
    requires forall id | id in ids && IndexOf(digest, id) !in initial :: NamedOnce(l.tokens, ops, id)
    ensures !ReadsBack(digest, initial, ApplyAll(l, ops).accesses)
  {
    hide IndexOf, Apply, IdsOf, ReadsBack, Effective;
    if ops == [] {
      NothingReadsBack(digest, initial);
    } else {
      var n := |ops| - 1;
      var init, op := ops[..n], ops[n];
      assert op in ops && forall o | o in init :: o in ops;
      forall i: nat | i < n ensures Effective(l.tokens, init, i) <==> Effective(l.tokens, ops, i) {
        EffectiveInit(l.tokens, ops, n, i);
      }
      forall id | id in ids && IndexOf(digest, id) !in initial ensures NamedOnce(l.tokens, init, id) {
        assert NamedOnce(l.tokens, ops, id);
      }
      NamedOnceReadsNothingBack(digest, initial, l, init, ids);
      var before := ApplyAll(l, init);
      ApplyReadsNothingBack(digest, initial, before.ledger, op);
      forall x, y | x in Apply(before.ledger, op).accesses && y in before.accesses && IndexOf(digest, x.id) !in initial
        ensures IndexOf(digest, x.id) != IndexOf(digest, y.id)
      {
        var i := NamedBy(l, init, y);
        assert init[i] in init && ops[i] == init[i];
        if !Effective(l.tokens, ops, n) {
          SkippedOperation(l, ops, n);
        }
        assert NamedOnce(l.tokens, ops, x.id);
      }
      ReadsBackConcat(digest, initial, before.accesses, Apply(before.ledger, op).accesses);
    }
  }

  lemma NothingReadsBack(digest: Digest, initial: Entries)
    ensures !ReadsBack(digest, initial, [])
  {
  }

  /** Each access of a run belongs to an operation that names its balance and is not skipped. */
  lemma {:induction false} NamedBy(l: Ledger, ops: seq<Operation>, a: Access) returns (i: nat)
    requires a in ApplyAll(l, ops).accesses
    ensures i < |ops| && a.id in IdsOf(ops[i]) && Effective(l.tokens, ops, i)
  {
    hide Apply, IdsOf, Effective;
    var n := |ops| - 1;
    var before := ApplyAll(l, ops[..n]);
    if a in before.accesses {
      i := NamedBy(l, ops[..n], a);
      EffectiveInit(l.tokens, ops, n, i);
    } else {
      i := n;
      assert a in Apply(before.ledger, ops[n]).accesses;
      AccessNamed(before.ledger, ops[n], a);
      if !Effective(l.tokens, ops, n) {
        SkippedOperation(l, ops, n);
      }
    }
  }

  lemma AccessNamed(l: Ledger, op: Operation, a: Access)
    requires a in Apply(l, op).accesses
    ensures a.id in IdsOf(op)
  {
  }

  /**
    Before running it: a batch whose balances are apart, and in which no balance without an entry is named
    by more than one mint or settlement that is not skipped for its token, goes through and has its witness
    accepted.
  */
  lemma BatchIsReplayable(digest: Digest, s: Snapshot, ops: seq<SignedOperation>, w: Witness)
    requires ValidState(digest, s) && IdsApart(digest, s.tree.entries, BatchIds(ops))
    requires forall id | id in BatchIds(ops) && IndexOf(digest, id) !in s.tree.entries ::
      NamedOnce(s.tokens, Mints(ops) + NetTransfers(Transfers(ops)), id)
    ensures Transition(digest, s, ops).Some? && !ReadsBack(digest, s.tree.entries, AccessesOf(digest, s, ops))
    ensures WitnessOf(digest, s, ops, w) ==> FromWitness(digest, w).Some?
  {
    hide ValidTree, Collides, IndexOf, ReadsBack, Transition, WitnessOf, FromWitness, NamedOnce, Contents, IdsOf, ApplyAll, BatchIds,
      NetTransfers;
    BatchSucceeds(digest, s, ops);
    BatchNamed(ops);
    NamedOnceReadsNothingBack(digest, s.tree.entries, LedgerOf(digest, s), Mints(ops) + NetTransfers(Transfers(ops)), BatchIds(ops));
    if WitnessOf(digest, s, ops, w) {
      StatelessReplay(digest, s, ops, w);
    }
  }

  // ---------------------------------------------------------------- recordings made on any state

  /** What balances written at whatever indices leave, whether the store is valid or not. */
  ghost predicate MadeBySets(digest: Digest, t: Tree) {
    && Keyed(digest, t.entries) && Woven(t.hashes)
    && (forall ix | ix in t.entries :: t.entries[ix].key.Raw?)
    && (forall i: TreeIndex | i < TREE_SIZE :: Get(t.hashes, i) == Get(LeavesOf(t.entries), i))
  }

  lemma EmptyMadeBySets(digest: Digest)
    ensures MadeBySets(digest, EMPTY_TREE)
  {
    hide Woven;
    EmptyWoven();
  }

  lemma SetMadeBySets(digest: Digest, t: Tree, id: BalanceId, value: Balance)
    requires MadeBySets(digest, t) && TreeSet(digest, t, BalanceKey(id), value).Some?
    ensures MadeBySets(digest, TreeSet(digest, t, BalanceKey(id), value).value)
  {
    hide Woven, InsertAt, TreeIndexFromKey, BalanceKey;
    var key := BalanceKey(id);
    var ix := TreeIndexFromKey(digest, key);
    var t' := TreeSet(digest, t, key, value).value;
    SetKeyed(digest, t, key, value);
    InsertWeaves(t.hashes, ix, value, key);
    forall i: TreeIndex | i < TREE_SIZE ensures Get(t'.hashes, i) == Get(LeavesOf(t'.entries), i) {
      InsertLeaf(t.hashes, ix, LeafHash(value, key), i);
    }
  }

  lemma {:induction false} ExecuteMadeBySets(digest: Digest, m: Machine, accesses: seq<Access>)
    requires MadeBySets(digest, m.tree) && Execute(digest, m, accesses).Some?
    ensures MadeBySets(digest, Execute(digest, m, accesses).value.tree)
  {
    hide MadeBySets, TreeSet, BalanceKey, IndexOf, Recorded;
    if accesses != [] {
      var init, a := accesses[..|accesses| - 1], accesses[|accesses| - 1];
      ExecuteMadeBySets(digest, m, init);
      if a.Write? {
        SetMadeBySets(digest, Execute(digest, m, init).value.tree, a.id, a.value);
      }
    }
  }

  lemma TransitionMadeBySets(digest: Digest, s: Snapshot, ops: seq<SignedOperation>)
    requires MadeBySets(digest, s.tree)
    ensures Transition(digest, s, ops).Some? ==> MadeBySets(digest, Transition(digest, s, ops).value.tree)
  {
    hide MadeBySets, Execute, Exec;
    if Transition(digest, s, ops).Some? {
      ExecuteMadeBySets(digest, Machine(s.tree, None), AccessesOf(digest, s, ops));
    }
  }

  /** Such a store with the root of a valid one agrees with it at every node, and in all entries at leaves. */
  lemma RootDeterminesLeafPart(digest: Digest, t: Tree, valid: Tree)
    requires MadeBySets(digest, t) && ValidTree(digest, valid) && Root(t.hashes) == Root(valid.hashes)
    ensures LeafPart(digest, t, Tree(t.hashes, valid.entries))
  {
    hide NodeConsistent, Sparse, Woven, Root, LeavesRoot, TreeIndexFromKey, NodeAt, LeafHash;
    ValidIsHashed(digest, valid);
    ConsistentRoot(valid.hashes, LeavesOf(valid.entries));
    RootDeterminesNodes(t.hashes, LeavesOf(valid.entries));
    forall ix: TreeIndex | ix < TREE_SIZE
      ensures ix in valid.entries <==> ix in t.entries
      ensures ix in valid.entries ==> valid.entries[ix] == t.entries[ix]
    {
      ConsistentAt(t.hashes, LeavesOf(valid.entries), ix);
      NodeAtLeaf(LeavesOf(valid.entries), ix);
      assert Get(LeavesOf(t.entries), ix) == Get(LeavesOf(valid.entries), ix);
      SameLeaf(t.entries, valid.entries, ix);
    }
  }

  lemma SameLeaf(e1: Entries, e2: Entries, ix: TreeIndex)
    requires Get(LeavesOf(e1), ix) == Get(LeavesOf(e2), ix)
    ensures ix in e1 <==> ix in e2
    ensures ix in e1 ==> e1[ix] == e2[ix]
  {
    if ix in e1 && ix in e2 {
      LeafHashInjective(e1[ix].value, e1[ix].key, e2[ix].value, e2[ix].key);
    }
  }

  /**
    Whoever recorded a witness, and on whatever state, valid or not: if it loads and gives the root of a
    valid state, then replay does what the batch does to that state.
  */
  lemma AnyRecordingReplays(digest: Digest, s: Snapshot, ops: seq<SignedOperation>, w: Witness, valid: Snapshot)
    requires MadeBySets(digest, s.tree) && ValidState(digest, valid)
    requires FromWitness(digest, w).Some? && GetRoot(FromWitness(digest, w).value) == GetRoot(valid)
    ensures WitnessOf(digest, s, ops, w) ==>
      var p := FromWitness(digest, w).value;
      && Transition(digest, p, ops).Some? && Transition(digest, valid, ops).Some?
      && GetRoot(Transition(digest, p, ops).value) == GetRoot(Transition(digest, valid, ops).value)
  {
    hide ValidTree, MadeBySets, LeafPart, Exec, LoadWitness, ReadsBack, ReadsBeyond, Transition, Session, Root, Alike, HashPair, HashedTree;
    if WitnessOf(digest, s, ops, w) {
      var p := FromWitness(digest, w).value;
      RecordedRoot(digest, s, ops, w);
      SameRootParts(p, valid);
      var full := Tree(s.tree.hashes, valid.tree.entries);
      RootDeterminesLeafPart(digest, s.tree, valid.tree);
      LeafPartReplay(digest, s, full, ops, w);
      var accesses := AccessesOf(digest, s, ops);
      FullIsHashed(digest, s.tree, full, valid.tree);
      NodesAlike(digest, full, valid.tree, accesses);
      AlikeSymmetric(digest, full, s.tree, accesses);
      AlikeThrough(digest, s.tree, full, valid.tree, accesses);
      TransitionAlike(digest, s, valid, ops);
    }
  }

  lemma FullIsHashed(digest: Digest, t: Tree, full: Tree, valid: Tree)
    requires LeafPart(digest, t, full) && ValidTree(digest, valid)
    ensures HashedTree(digest, full) && HashedTree(digest, valid)
  {
    hide Sparse, NodeConsistent;
    ValidIsHashed(digest, valid);
  }

  lemma SameRootParts(a: Snapshot, b: Snapshot)
    requires GetRoot(a) == GetRoot(b)
    ensures Root(a.tree.hashes) == Root(b.tree.hashes) && a.tokens == b.tokens
  {
    hide Root;
    HashPairInjective(Root(a.tree.hashes), TokensHash(a.tokens), Root(b.tree.hashes), TokensHash(b.tokens));
    TokensHashInjective(a.tokens, b.tokens);
  }

  /** A recorded witness that loads has the root of the state on which it was recorded. */
  lemma RecordedRoot(digest: Digest, s: Snapshot, ops: seq<SignedOperation>, w: Witness)
    requires FromWitness(digest, w).Some?
    ensures WitnessOf(digest, s, ops, w) ==>
      FromWitness(digest, w).value.tokens == s.tokens && Root(FromWitness(digest, w).value.tree.hashes) == Root(s.tree.hashes)
  {
    hide Execute, Exec, LoadValues, Enumerates, FreshRecorder, Covers, StillFilled;
    if WitnessOf(digest, s, ops, w) {
      RunRecordsHashes(digest, s.tree, AccessesOf(digest, s, ops));
      WithHashesListed(w.hashes, Session(digest, s, ops).value.recorder.value.hashes);
      LoadKeepsRoot(digest, Tree(WithHashes(map[], w.hashes), map[]), Root(WithHashes(map[], w.hashes)), w.values);
    }
  }

  // ---------------------------------------------------------------- spending what was just minted

  lemma {:induction false} KnownAfter(l: Ledger, ops: seq<Operation>, token: TokenId)
    ensures token in ApplyAll(l, ops).ledger.tokens <==>
      token in l.tokens || exists i :: 0 <= i < |ops| && ops[i].Mint? && ops[i].token == token
  {
    if ops != [] {
      var init, op := ops[..|ops| - 1], ops[|ops| - 1];
      KnownAfter(l, init, token);
      assert forall i | 0 <= i < |init| :: init[i] == ops[i];
    }
  }

  /** Operation i is the first mint of a token that the ledger does not know. */
  predicate IsFirstMint(l: Ledger, ops: seq<Operation>, i: nat) {
    && i < |ops| && ops[i].Mint? && ops[i].token !in l.tokens
    && forall h | 0 <= h < i && ops[h].Mint? :: ops[h].token != ops[i].token
  }

  lemma RunPart(l: Ledger, ops: seq<Operation>, i: nat)
    requires i < |ops|
    ensures ApplyAll(l, ops[..i]).accesses + Apply(ApplyAll(l, ops[..i]).ledger, ops[i]).accesses <= ApplyAll(l, ops).accesses
  {
    hide Apply;
    assert ops[..i + 1][..i] == ops[..i];
    assert ops == ops[..i + 1] + ops[i + 1..];
    ApplyConcat(l, ops[..i + 1], ops[i + 1..]);
  }

  /** The first mint of a token writes the balance of its receiver, and a later debit of that balance reads it. */
  lemma MintThenDebit(l: Ledger, ops: seq<Operation>, i: nat, j: nat)
    requires IsFirstMint(l, ops, i) && i < j < |ops|
    requires ops[j].Transfer? && ops[j].token == ops[i].token && ops[j].from == ops[i].to
    ensures var id, accesses := BalanceId(ops[i].token, ops[i].to), ApplyAll(l, ops).accesses;
      exists k, v :: 0 <= k < |accesses| && accesses[k] == Read(id) && Write(id, v) in accesses[..k]
  {
    var id, accesses := BalanceId(ops[i].token, ops[i].to), ApplyAll(l, ops).accesses;
    var before, later := ApplyAll(l, ops[..i]), ApplyAll(l, ops[..j]);
    KnownAfter(l, ops[..i], ops[i].token);
    KnownAfter(l, ops[..j], ops[i].token);
    assert ops[..j][i] == ops[i];
    RunPart(l, ops[..j], i);
    assert ops[..j][..i] == ops[..i];
    var wrote := Apply(before.ledger, ops[i]).accesses;
    var v := wrote[1].value;
    assert wrote == [Read(id), Write(id, v)];
    assert (before.accesses + wrote)[|before.accesses| + 1] == Write(id, v);
    assert Write(id, v) in later.accesses;
    RunPart(l, ops, j);
    var debit := Apply(later.ledger, ops[j]).accesses;
    assert debit != [] && debit[0] == Read(id);
    var k := |later.accesses|;
    assert (later.accesses + debit)[k] == Read(id) && (later.accesses + debit)[..k] == later.accesses;
    assert accesses[..k] == later.accesses && accesses[k] == Read(id);
  }

  lemma WrittenThenReadBack(digest: Digest, initial: Entries, accesses: seq<Access>, id: BalanceId, k: nat, v: Balance)
    requires k < |accesses| && accesses[k] == Read(id) && Write(id, v) in accesses[..k]
    requires IndexOf(digest, id) !in initial
    ensures ReadsBack(digest, initial, accesses)
  {
    hide IndexOf;
    assert Write(id, v).Write? && Write(id, v).id == id;
    assert WrittenLeaf(digest, accesses[..k], IndexOf(digest, accesses[k].id));
    assert accesses[k].Read?;
  }

  /**
    The batch mints a token that the state does not know, to an account whose leaf is empty, and netting
    leaves a transfer of that token from that account, whether it is funded or not.
  */
  ghost predicate SpendsMinted(digest: Digest, s: Snapshot, ops: seq<SignedOperation>, i: nat, spend: Operation) {
    && IsFirstMint(LedgerOf(digest, s), Mints(ops), i)
    && IndexOf(digest, BalanceId(Mints(ops)[i].token, Mints(ops)[i].to)) !in s.tree.entries
    && spend in NetTransfers(Transfers(ops)) && spend.Transfer?
    && spend.token == Mints(ops)[i].token && spend.from == Mints(ops)[i].to
  }

  /** Spending what was just minted reads it back, and then the witness of the batch is always rejected. */
  lemma MintAndSpendIsRejected(digest: Digest, s: Snapshot, ops: seq<SignedOperation>, i: nat, spend: Operation, w: Witness)
    requires ValidState(digest, s)
    ensures SpendsMinted(digest, s, ops, i, spend) ==> ReadsBack(digest, s.tree.entries, AccessesOf(digest, s, ops))
    ensures SpendsMinted(digest, s, ops, i, spend) && WitnessOf(digest, s, ops, w) ==> FromWitness(digest, w) == None
  {
    hide ValidTree, Mints, NetTransfers, ApplyAll, ReadsBack, IndexOf, WitnessOf, FromWitness, LedgerOf, Transition;
    if SpendsMinted(digest, s, ops, i, spend) {
      var l, mints, net := LedgerOf(digest, s), Mints(ops), NetTransfers(Transfers(ops));
      var all, id := mints + net, BalanceId(mints[i].token, mints[i].to);
      var j :| 0 <= j < |net| && net[j] == spend;
      assert all[|mints| + j] == spend && all[i] == mints[i];
      assert IsFirstMint(l, all, i);
      MintThenDebit(l, all, i, |mints| + j);
      var accesses := AccessesOf(digest, s, ops);
      var k, v :| 0 <= k < |accesses| && accesses[k] == Read(id) && Write(id, v) in accesses[..k];
      WrittenThenReadBack(digest, s.tree.entries, accesses, id, k, v);
      if WitnessOf(digest, s, ops, w) {
        StatelessReplay(digest, s, ops, w);
      }
    }
  }
}
