/**
  A run of the whole service in which the stored root departs from the accepted history: a balance that
  selects index TREE_SIZE leaves no trace in the root once leaf 0 has been written, so a report from a state
  without that balance is accepted.
*/
module Divergence {
  import opened Wrappers
  import opened Hashing
  import opened Numbering
  import opened Keys
  import opened Merkle
  import opened StateTrees
  import opened Ledgers
  import opened Netting
  import opened Recording
  import opened Witnesses
  import opened Transitions
  import opened Refinement
  import opened Protocol

  /** Amounts small enough to be added and netted. */
  type Amount = a: int | 0 <= a < 0x2000_0000_0000_0000

  /** One token and three accounts: what the first one keeps, what is hidden beyond the leaves, what the last one is paid. */
  datatype Scenario = Scenario(token: TokenId, first: AccountId, beyond: AccountId, last: AccountId,
                               kept: Amount, hidden: Amount, paid: Amount) {

    predicate Fits(digest: Digest) {
      && first < beyond < last && 0 < hidden && 0 < paid
      && IndexOf(digest, First()) == 0
      && IndexOf(digest, Beyond()) == TREE_SIZE
      && 0 < IndexOf(digest, Last()) < TREE_SIZE
    }

    function First(): BalanceId { BalanceId(token, first) }
    function Beyond(): BalanceId { BalanceId(token, beyond) }
    function Last(): BalanceId { BalanceId(token, last) }
    function Ids(): set<BalanceId> { {First(), Beyond(), Last()} }

    function Hide(): Operation { Transfer(first, beyond, token, hidden) }
    function Pay(): Operation { Transfer(first, last, token, paid) }
    function PassOn(): Operation { Transfer(beyond, last, token, hidden) }

    /** The accepted batches: mint; pay the account beyond the leaves and the last one; pass the hidden amount on. */
    function Opening(): Batch { [WellSigned(Mint(first, token, kept + hidden + paid))] }
    function Hiding(): Batch { [WellSigned(Hide()), WellSigned(Pay())] }
    function Passing(): Batch { [WellSigned(PassOn())] }

    /** What another builder ran instead of the first two. */
    function SmallOpening(): Batch { [WellSigned(Mint(first, token, kept + paid))] }
    function Paying(): Batch { [WellSigned(Pay())] }

    // The stores after these batches.

    ghost function Opened(digest: Digest): Tree {
      Wrote(digest, EMPTY_TREE, First(), kept + hidden + paid)
    }

    ghost function Hidden(digest: Digest): Tree {
      var afterHide := Wrote(digest, Wrote(digest, Opened(digest), First(), kept + paid), Beyond(), hidden);
      Wrote(digest, Wrote(digest, afterHide, First(), kept), Last(), paid)
    }

    ghost function Passed(digest: Digest): Tree {
      Wrote(digest, Wrote(digest, Hidden(digest), Beyond(), 0), Last(), paid + hidden)
    }

    ghost function SmallOpened(digest: Digest): Tree {
      Wrote(digest, EMPTY_TREE, First(), kept + paid)
    }

    ghost function Paid(digest: Digest): Tree {
      Wrote(digest, Wrote(digest, SmallOpened(digest), First(), kept), Last(), paid)
    }
  }

  /** The store after a write that meets no other key. */
  ghost function Wrote(digest: Digest, t: Tree, id: BalanceId, value: Balance): Tree {
    Tree(InsertAt(t.hashes, IndexOf(digest, id), LeafHash(value, BalanceKey(id))),
         t.entries[IndexOf(digest, id) := KeyValue(value, BalanceKey(id))])
  }

  function WellSigned(op: Operation): SignedOperation {
    SignedOperation(op, true, true)
  }

  // ---------------------------------------------------------------- batches of one or two operations

  lemma SplitOne(signed: SignedOperation)
    ensures Mints([signed]) == if signed.operation.Mint? then [signed.operation] else []
    ensures Transfers([signed]) == if signed.operation.Transfer? then [signed.operation] else []
  {
    var ops := [signed];
    assert ops[..|ops| - 1] == [];
    var mints, transfers := Mints(ops[..|ops| - 1]), Transfers(ops[..|ops| - 1]);
    assert mints == [] && transfers == [];
  }

  lemma SingleMint(l: Ledger, op: Operation)
    requires op.Mint?
    ensures Exec(l, [WellSigned(op)]) == Apply(l, op)
  {
    hide Apply;
    SplitOne(WellSigned(op));
    SortedNone();
    assert [op] + NetTransfers([]) == [op];
    RunOfOne(l, op);
  }

  lemma SortedNone()
    ensures NetTransfers([]) == []
  {
  }

  lemma RunOfOne(l: Ledger, op: Operation)
    ensures ApplyAll(l, [op]) == Apply(l, op)
  {
    hide Apply;
    assert [op][..0] == [] && ApplyAll(l, []) == Run(l, []);
    assert [] + Apply(l, op).accesses == Apply(l, op).accesses;
  }

  lemma SingleTransfer(l: Ledger, t: Operation)
    requires t.Transfer? && t.from < t.to && 0 < t.amount < 0x8000_0000_0000_0000
    ensures Exec(l, [WellSigned(t)]) == Apply(l, t)
  {
    hide Apply;
    SplitOne(WellSigned(t));
    var key := PairKey(t.token, t.from, t.to);
    assert [t][..0] == [];
    assert StagedOf([t]) == map[key := t.amount];
    SingleKey(key);
    assert Settlements([key][..0], StagedOf([t])) == [];
    assert NetTransfers([t]) == Settlement(key, t.amount) == [t];
    assert [] + [t] == [t];
    RunOfOne(l, t);
  }

  lemma TwoTransfersNet(t: Operation, u: Operation)
    requires t.Transfer? && u.Transfer? && t.token == u.token && t.from == u.from < t.to < u.to
    requires 0 < t.amount < 0x8000_0000_0000_0000 && 0 < u.amount < 0x8000_0000_0000_0000
    ensures NetTransfers([t, u]) == [t, u]
  {
    OrderedIsNet([t, u]);
  }

  lemma TwoTransfers(l: Ledger, t: Operation, u: Operation)
    requires t.Transfer? && u.Transfer? && t.token == u.token && t.from == u.from < t.to < u.to
    requires 0 < t.amount < 0x8000_0000_0000_0000 && 0 < u.amount < 0x8000_0000_0000_0000
    ensures var first := Apply(l, t);
      var second := Apply(first.ledger, u);
      Exec(l, [WellSigned(t), WellSigned(u)]) == Run(second.ledger, first.accesses + second.accesses)
  {
    hide Apply, NetTransfers;
    var ops := [WellSigned(t), WellSigned(u)];
    SplitOne(WellSigned(t));
    assert ops[..1] == [WellSigned(t)];
    assert Mints(ops) == [] && Transfers(ops) == [t, u];
    TwoTransfersNet(t, u);
    assert [] + [t, u] == [t, u] == [t] + [u];
    ApplyConcat(l, [t], [u]);
    RunOfOne(l, t);
    RunOfOne(Apply(l, t).ledger, u);
  }

  // ---------------------------------------------------------------- what the batches do to a store

  /** What the store answers for a balance. */
  ghost function Held(digest: Digest, t: Tree, id: BalanceId): Balance {
    Lookup(digest, t.entries, BalanceKey(id)).GetOr(0)
  }

  lemma HeldIsBalance(digest: Digest, s: Snapshot, id: BalanceId)
    ensures BalanceOf(LedgerOf(digest, s), id) == Held(digest, s.tree, id)
  {
    hide Contents, Lookup;
    ContentsLookup(digest, s.tree.entries, id);
  }

  lemma HeldAfter(digest: Digest, t: Tree, id: BalanceId, value: Balance, other: BalanceId)
    requires other == id || IndexOf(digest, other) != IndexOf(digest, id)
    ensures Held(digest, Wrote(digest, t, id, value), other) == if other == id then value else Held(digest, t, other)
  {
    hide InsertAt, BalanceKey, TreeIndexFromKey;
  }

  lemma ApartAfter(digest: Digest, t: Tree, ids: set<BalanceId>, id: BalanceId, value: Balance)
    requires IdsApart(digest, t.entries, ids) && id in ids
    ensures IdsApart(digest, Wrote(digest, t, id, value).entries, ids)
  {
    hide InsertAt, BalanceKey, TreeIndexFromKey;
  }

  lemma SetIsWrote(digest: Digest, t: Tree, id: BalanceId, value: Balance)
    ensures var done := TreeSet(digest, t, BalanceKey(id), value);
      done.Some? ==> done.value == Wrote(digest, t, id, value)
  {
  }

  lemma MintExecutes(digest: Digest, t: Tree, id: BalanceId, value: Balance)
    ensures var done := Execute(digest, Machine(t, None), [Read(id), Write(id, value)]);
      done.Some? ==> done.value == Machine(Wrote(digest, t, id, value), None)
  {
    hide TreeSet, Wrote, IndexOf, BalanceKey;
    SetIsWrote(digest, t, id, value);
    var accesses := [Read(id), Write(id, value)];
    assert accesses[..1] == [Read(id)] && [Read(id)][..0] == [];
    assert Execute(digest, Machine(t, None), [Read(id)]) == Some(Machine(t, None));
  }

  lemma TransferExecutes(digest: Digest, t: Tree, a: BalanceId, b: BalanceId, x: Balance, y: Balance)
    ensures var done := Execute(digest, Machine(t, None), [Read(a), Read(b), Write(a, x), Write(b, y)]);
      done.Some? ==> done.value == Machine(Wrote(digest, Wrote(digest, t, a, x), b, y), None)
  {
    hide TreeSet, Wrote, IndexOf, BalanceKey;
    SetIsWrote(digest, t, a, x);
    SetIsWrote(digest, Wrote(digest, t, a, x), b, y);
    var m := Machine(t, None);
    var accesses := [Read(a), Read(b), Write(a, x), Write(b, y)];
    assert accesses[..3] == [Read(a), Read(b), Write(a, x)];
    assert accesses[..3][..2] == [Read(a), Read(b)];
    assert accesses[..2] == [Read(a), Read(b)] && accesses[..2][..1] == [Read(a)] && [Read(a)][..0] == [];
    assert Execute(digest, m, [Read(a)]) == Some(m);
    assert Execute(digest, m, accesses[..2]) == Some(m);
  }

  lemma MintTransition(digest: Digest, s: Snapshot, to: AccountId, token: TokenId, amount: Balance)
    requires token !in s.tokens && Held(digest, s.tree, BalanceId(token, to)) == 0
    ensures var done := Transition(digest, s, [WellSigned(Mint(to, token, amount))]);
      done.Some? ==> done.value == Snapshot(Wrote(digest, s.tree, BalanceId(token, to), amount), s.tokens + [token])
  {
    hide Execute, Wrote, Held, Exec, Contents, BalanceKey;
    HeldIsBalance(digest, s, BalanceId(token, to));
    SingleMint(LedgerOf(digest, s), Mint(to, token, amount));
    MintExecutes(digest, s.tree, BalanceId(token, to), amount);
  }

  lemma TransferTransition(digest: Digest, s: Snapshot, t: Operation)
    requires t.Transfer? && t.from < t.to && 0 < t.amount < 0x8000_0000_0000_0000 && t.token in s.tokens
    requires t.amount <= Held(digest, s.tree, BalanceId(t.token, t.from))
    requires Held(digest, s.tree, BalanceId(t.token, t.to)) + t.amount <= U64_MAX
    ensures var source, target := BalanceId(t.token, t.from), BalanceId(t.token, t.to);
      var done := Transition(digest, s, [WellSigned(t)]);
      done.Some? ==> done.value == Snapshot(Wrote(digest, Wrote(digest, s.tree, source, Held(digest, s.tree, source) - t.amount),
                                                  target, Held(digest, s.tree, target) + t.amount), s.tokens)
  {
    hide Execute, Wrote, Held, Exec, Contents, BalanceKey;
    var source, target := BalanceId(t.token, t.from), BalanceId(t.token, t.to);
    HeldIsBalance(digest, s, source);
    HeldIsBalance(digest, s, target);
    SingleTransfer(LedgerOf(digest, s), t);
    TransferExecutes(digest, s.tree, source, target, Held(digest, s.tree, source) - t.amount, Held(digest, s.tree, target) + t.amount);
  }

  /** An unfunded transfer changes nothing. */
  lemma UnfundedTransition(digest: Digest, s: Snapshot, t: Operation)
    requires t.Transfer? && t.from < t.to && 0 < t.amount < 0x8000_0000_0000_0000 && t.token in s.tokens
    requires Held(digest, s.tree, BalanceId(t.token, t.from)) < t.amount
    ensures Transition(digest, s, [WellSigned(t)]) == Some(s)
    ensures AccessesOf(digest, s, [WellSigned(t)]) == [Read(BalanceId(t.token, t.from))]
  {
    hide Held, Exec, Contents, BalanceKey, IndexOf;
    var source := BalanceId(t.token, t.from);
    HeldIsBalance(digest, s, source);
    SingleTransfer(LedgerOf(digest, s), t);
    assert [Read(source)][..0] == [];
    assert Execute(digest, Machine(s.tree, None), [Read(source)]) == Some(Machine(s.tree, None));
  }

  lemma IdsDiffer(digest: Digest, c: Scenario)
    requires c.Fits(digest)
    ensures forall a, b | a in c.Ids() && b in c.Ids() && a != b :: IndexOf(digest, a) != IndexOf(digest, b)
    ensures IdsApart(digest, EMPTY_TREE.entries, c.Ids())
    ensures Held(digest, EMPTY_TREE, c.First()) == Held(digest, EMPTY_TREE, c.Beyond()) == Held(digest, EMPTY_TREE, c.Last()) == 0
  {
    hide BalanceKey, TreeIndexFromKey;
  }

  /** A batch about the three balances does not abort while they are apart. */
  lemma ScenarioSucceeds(digest: Digest, c: Scenario, s: Snapshot, ops: Batch)
    requires IdsApart(digest, s.tree.entries, c.Ids()) && BatchIds(ops) <= c.Ids()
    ensures Transition(digest, s, ops).Some?
  {
    hide Transition, Collides, IndexOf, BalanceKey, BatchIds;
    BatchSucceeds(digest, s, ops);
  }

  lemma ScenarioIds(c: Scenario)
    ensures BatchIds(c.Opening()) <= c.Ids() && BatchIds(c.Hiding()) <= c.Ids() && BatchIds(c.Passing()) <= c.Ids()
    ensures BatchIds(c.SmallOpening()) <= c.Ids() && BatchIds(c.Paying()) <= c.Ids()
  {
  }

  // ---------------------------------------------------------------- the states of the run

  lemma OpeningTransition(digest: Digest, c: Scenario)
    requires c.Fits(digest)
    ensures Transition(digest, GENESIS, c.Opening()) == Some(Snapshot(c.Opened(digest), [c.token]))
    ensures Transition(digest, GENESIS, c.SmallOpening()) == Some(Snapshot(c.SmallOpened(digest), [c.token]))
  {
    hide Transition, Wrote, IdsApart, BatchIds, Held, Scenario.Fits;
    IdsDiffer(digest, c);
    ScenarioIds(c);
    ScenarioSucceeds(digest, c, GENESIS, c.Opening());
    ScenarioSucceeds(digest, c, GENESIS, c.SmallOpening());
    MintTransition(digest, GENESIS, c.first, c.token, c.kept + c.hidden + c.paid);
    MintTransition(digest, GENESIS, c.first, c.token, c.kept + c.paid);
    assert GENESIS.tokens + [c.token] == [c.token];
  }

  lemma PayingTransition(digest: Digest, c: Scenario)
    requires c.Fits(digest)
    ensures Transition(digest, Snapshot(c.SmallOpened(digest), [c.token]), c.Paying()) == Some(Snapshot(c.Paid(digest), [c.token]))
  {
    hide Transition, Wrote, IdsApart, BatchIds, Held, IndexOf;
    var s := Snapshot(c.SmallOpened(digest), [c.token]);
    IdsDiffer(digest, c);
    ScenarioIds(c);
    ApartAfter(digest, EMPTY_TREE, c.Ids(), c.First(), c.kept + c.paid);
    ScenarioSucceeds(digest, c, s, c.Paying());
    HeldAfter(digest, EMPTY_TREE, c.First(), c.kept + c.paid, c.First());
    HeldAfter(digest, EMPTY_TREE, c.First(), c.kept + c.paid, c.Last());
    TransferTransition(digest, s, c.Pay());
  }

  /** What running the two payments one after the other does, on a ledger that holds what the first account needs. */
  lemma HidingRun(c: Scenario, l: Ledger)
    requires l.tokens == [c.token] && c.first < c.beyond < c.last && 0 < c.hidden && 0 < c.paid
    requires BalanceOf(l, c.First()) == c.kept + c.hidden + c.paid && BalanceOf(l, c.Beyond()) == BalanceOf(l, c.Last()) == 0
    ensures Exec(l, c.Hiding()).ledger.tokens == l.tokens
    ensures Exec(l, c.Hiding()).accesses ==
      [Read(c.First()), Read(c.Beyond()), Write(c.First(), c.kept + c.paid), Write(c.Beyond(), c.hidden)]
      + [Read(c.First()), Read(c.Last()), Write(c.First(), c.kept), Write(c.Last(), c.paid)]
  {
    hide Exec;
    TwoTransfers(l, c.Hide(), c.Pay());
  }

  lemma HidingTransition(digest: Digest, c: Scenario)
    requires c.Fits(digest)
    ensures var s := Snapshot(c.Opened(digest), [c.token]);
      && Transition(digest, s, c.Hiding()) == Some(Snapshot(c.Hidden(digest), [c.token]))
      && AccessesOf(digest, s, c.Hiding()) ==
        [Read(c.First()), Read(c.Beyond()), Write(c.First(), c.kept + c.paid), Write(c.Beyond(), c.hidden)]
        + [Read(c.First()), Read(c.Last()), Write(c.First(), c.kept), Write(c.Last(), c.paid)]
  {
    hide Execute, Exec, Wrote, IdsApart, BatchIds, Held, Contents, IndexOf, BalanceOf;
    var s := Snapshot(c.Opened(digest), [c.token]);
    IdsDiffer(digest, c);
    ScenarioIds(c);
    var total := c.kept + c.hidden + c.paid;
    ApartAfter(digest, EMPTY_TREE, c.Ids(), c.First(), total);
    ScenarioSucceeds(digest, c, s, c.Hiding());
    forall id | id in c.Ids() ensures BalanceOf(LedgerOf(digest, s), id) == if id == c.First() then total else 0 {
      HeldAfter(digest, EMPTY_TREE, c.First(), total, id);
      HeldIsBalance(digest, s, id);
    }
    HidingRun(c, LedgerOf(digest, s));
    var one := [Read(c.First()), Read(c.Beyond()), Write(c.First(), c.kept + c.paid), Write(c.Beyond(), c.hidden)];
    var two := [Read(c.First()), Read(c.Last()), Write(c.First(), c.kept), Write(c.Last(), c.paid)];
    ExecuteConcat(digest, Machine(s.tree, None), one, two);
    TransferExecutes(digest, s.tree, c.First(), c.Beyond(), c.kept + c.paid, c.hidden);
    var mid := Wrote(digest, Wrote(digest, s.tree, c.First(), c.kept + c.paid), c.Beyond(), c.hidden);
    TransferExecutes(digest, mid, c.First(), c.Last(), c.kept, c.paid);
  }

  lemma HiddenHolds(digest: Digest, c: Scenario)
    requires c.Fits(digest)
    ensures IdsApart(digest, c.Hidden(digest).entries, c.Ids())
    ensures Held(digest, c.Hidden(digest), c.Beyond()) == c.hidden && Held(digest, c.Hidden(digest), c.Last()) == c.paid
  {
    hide Wrote, IdsApart, Held, IndexOf;
    IdsDiffer(digest, c);
    var t0, total := c.Opened(digest), c.kept + c.hidden + c.paid;
    ApartAfter(digest, EMPTY_TREE, c.Ids(), c.First(), total);
    ApartAfter(digest, t0, c.Ids(), c.First(), c.kept + c.paid);
    var t1 := Wrote(digest, t0, c.First(), c.kept + c.paid);
    ApartAfter(digest, t1, c.Ids(), c.Beyond(), c.hidden);
    var t2 := Wrote(digest, t1, c.Beyond(), c.hidden);
    ApartAfter(digest, t2, c.Ids(), c.First(), c.kept);
    var t3 := Wrote(digest, t2, c.First(), c.kept);
    ApartAfter(digest, t3, c.Ids(), c.Last(), c.paid);
    HeldAfter(digest, t1, c.Beyond(), c.hidden, c.Beyond());
    HeldAfter(digest, t2, c.First(), c.kept, c.Beyond());
    HeldAfter(digest, t3, c.Last(), c.paid, c.Beyond());
    HeldAfter(digest, t3, c.Last(), c.paid, c.Last());
  }

  lemma PassingTransition(digest: Digest, c: Scenario)
    requires c.Fits(digest)
    ensures Transition(digest, Snapshot(c.Hidden(digest), [c.token]), c.Passing()) == Some(Snapshot(c.Passed(digest), [c.token]))
  {
    hide Transition, Wrote, IdsApart, BatchIds, Held, IndexOf, Scenario.Hidden;
    var s := Snapshot(c.Hidden(digest), [c.token]);
    ScenarioIds(c);
    HiddenHolds(digest, c);
    ScenarioSucceeds(digest, c, s, c.Passing());
    TransferTransition(digest, s, c.PassOn());
  }

  /** The other builder's state knows no balance beyond the leaves, so passing it on has no effect. */
  lemma PassingOnPaid(digest: Digest, c: Scenario)
    requires c.Fits(digest)
    ensures var s := Snapshot(c.Paid(digest), [c.token]);
      && Transition(digest, s, c.Passing()) == Some(s)
      && AccessesOf(digest, s, c.Passing()) == [Read(c.Beyond())]
  {
    hide Transition, Wrote, Held, IndexOf, AccessesOf;
    IdsDiffer(digest, c);
    var t0 := c.SmallOpened(digest);
    HeldAfter(digest, EMPTY_TREE, c.First(), c.kept + c.paid, c.Beyond());
    HeldAfter(digest, t0, c.First(), c.kept, c.Beyond());
    HeldAfter(digest, Wrote(digest, t0, c.First(), c.kept), c.Last(), c.paid, c.Beyond());
    UnfundedTransition(digest, Snapshot(c.Paid(digest), [c.token]), c.PassOn());
  }

  // ---------------------------------------------------------------- the roots of the run

  ghost function ScenarioLeaves(digest: Digest, c: Scenario): Leaves {
    map[0 := LeafHash(c.kept, BalanceKey(c.First())), IndexOf(digest, c.Last()) := LeafHash(c.paid, BalanceKey(c.Last()))]
  }

  lemma PaidConsistent(digest: Digest, c: Scenario)
    requires c.Fits(digest)
    ensures NodeConsistent(c.Paid(digest).hashes, ScenarioLeaves(digest, c))
  {
    hide NodeConsistent, InsertAt, BalanceKey, TreeIndexFromKey, Root, LeavesRoot;
    var key, ix := BalanceKey(c.First()), IndexOf(digest, c.Last());
    EmptyConsistent();
    var t0 := c.SmallOpened(digest);
    InsertRefines(map[], map[], 0, LeafHash(c.kept + c.paid, key));
    InsertRefines(t0.hashes, map[][0 := LeafHash(c.kept + c.paid, key)], 0, LeafHash(c.kept, key));
    var t1 := Wrote(digest, t0, c.First(), c.kept);
    assert map[][0 := LeafHash(c.kept + c.paid, key)][0 := LeafHash(c.kept, key)] == map[0 := LeafHash(c.kept, key)];
    InsertRefines(t1.hashes, map[0 := LeafHash(c.kept, key)], ix, LeafHash(c.paid, BalanceKey(c.Last())));
    assert map[0 := LeafHash(c.kept, key)][ix := LeafHash(c.paid, BalanceKey(c.Last()))] == ScenarioLeaves(digest, c);
  }

  lemma HiddenConsistent(digest: Digest, c: Scenario)
    requires c.Fits(digest)
    ensures NodeConsistent(c.Hidden(digest).hashes, ScenarioLeaves(digest, c))
  {
    hide NodeConsistent, InsertAt, BalanceKey, TreeIndexFromKey, Root, LeavesRoot, Get;
    var key, ix, total := BalanceKey(c.First()), IndexOf(digest, c.Last()), c.kept + c.hidden + c.paid;
    EmptyConsistent();
    var t0 := c.Opened(digest);
    InsertRefines(map[], map[], 0, LeafHash(total, key));
    InsertRefines(t0.hashes, map[][0 := LeafHash(total, key)], 0, LeafHash(c.kept + c.paid, key));
    var t1 := Wrote(digest, t0, c.First(), c.kept + c.paid);
    var leaves := map[][0 := LeafHash(total, key)][0 := LeafHash(c.kept + c.paid, key)];
    InsertRefines(t1.hashes, leaves, 0, LeafHash(c.kept, key));
    var t2 := Wrote(digest, t1, c.Beyond(), c.hidden);
    var t3 := Wrote(digest, t2, c.First(), c.kept);
    LeafZeroHeals(t1.hashes, LeafHash(c.kept, key), LeafHash(c.hidden, BalanceKey(c.Beyond())));
    SameNodes(t3.hashes, InsertAt(t1.hashes, 0, LeafHash(c.kept, key)), leaves[0 := LeafHash(c.kept, key)]);
    assert leaves[0 := LeafHash(c.kept, key)] == map[0 := LeafHash(c.kept, key)];
    InsertRefines(t3.hashes, map[0 := LeafHash(c.kept, key)], ix, LeafHash(c.paid, BalanceKey(c.Last())));
    assert map[0 := LeafHash(c.kept, key)][ix := LeafHash(c.paid, BalanceKey(c.Last()))] == ScenarioLeaves(digest, c);
  }

  /** The state with the hidden balance has the root of the state without it, until the balance is moved. */
  lemma ScenarioRoots(digest: Digest, c: Scenario)
    requires c.Fits(digest)
    ensures GetRoot(Snapshot(c.Hidden(digest), [c.token])) == GetRoot(Snapshot(c.Paid(digest), [c.token]))
    ensures GetRoot(Snapshot(c.Passed(digest), [c.token])) != GetRoot(Snapshot(c.Paid(digest), [c.token]))
  {
    hide NodeConsistent, InsertAt, BalanceKey, TreeIndexFromKey, Root, LeavesRoot, Scenario.Hidden, Scenario.Paid, HashPair, TokensHash;
    HiddenConsistent(digest, c);
    PaidConsistent(digest, c);
    ConsistentRoot(c.Hidden(digest).hashes, ScenarioLeaves(digest, c));
    ConsistentRoot(c.Paid(digest).hashes, ScenarioLeaves(digest, c));
    var tokens := TokensHash([c.token]);
    if HashPair(Root(c.Passed(digest).hashes), tokens) == HashPair(Root(c.Paid(digest).hashes), tokens) {
      HashPairInjective(Root(c.Passed(digest).hashes), tokens, Root(c.Paid(digest).hashes), tokens);
      InsertProvesLeaf(Wrote(digest, c.Hidden(digest), c.Beyond(), 0).hashes, ScenarioLeaves(digest, c), IndexOf(digest, c.Last()),
                       c.paid + c.hidden, BalanceKey(c.Last()));
    }
  }

  // ---------------------------------------------------------------- the run

  lemma NothingReadBack(digest: Digest, c: Scenario, t: Tree)
    requires c.Fits(digest)
    ensures forall x :: !ReadsBack(digest, t.entries, [Read(c.First()), Write(c.First(), x)])
    ensures !ReadsBack(digest, t.entries, [Read(c.Beyond())])
    ensures 0 in t.entries ==> !ReadsBack(digest, t.entries,
      [Read(c.First()), Read(c.Beyond()), Write(c.First(), c.kept + c.paid), Write(c.Beyond(), c.hidden)]
      + [Read(c.First()), Read(c.Last()), Write(c.First(), c.kept), Write(c.Last(), c.paid)])
  {
    hide TreeIndexFromKey, BalanceKey;
  }

  lemma OpeningAccesses(digest: Digest, c: Scenario)
    ensures AccessesOf(digest, GENESIS, c.Opening()) == [Read(c.First()), Write(c.First(), c.kept + c.hidden + c.paid)]
  {
    hide Exec;
    var mint := Mint(c.first, c.token, c.kept + c.hidden + c.paid);
    GenesisLedger(digest);
    SingleMint(EMPTY_LEDGER, mint);
  }

  lemma WroteWithinLeaves(digest: Digest, t: Tree, id: BalanceId, value: Balance)
    requires OnLeaves(t.entries) && IndexOf(digest, id) < TREE_SIZE
    ensures OnLeaves(Wrote(digest, t, id, value).entries) && IndexOf(digest, id) in Wrote(digest, t, id, value).entries
  {
  }

  lemma ScenarioReachable(digest: Digest, c: Scenario)
    requires c.Fits(digest)
    ensures Reachable(digest, GENESIS) && WithinLeaves(GENESIS)
    ensures var s := Snapshot(c.Opened(digest), [c.token]); Reachable(digest, s) && WithinLeaves(s)
    ensures var s := Snapshot(c.Paid(digest), [c.token]); Reachable(digest, s) && WithinLeaves(s)
  {
    hide Transition, OnLeaves, Wrote, IndexOf;
    assert OnLeaves(EMPTY_TREE.entries) && StateAfter(digest, []) == Some(GENESIS) by {
      GenesisReached(digest);
    }
    OpeningTransition(digest, c);
    WroteWithinLeaves(digest, EMPTY_TREE, c.First(), c.kept + c.hidden + c.paid);
    MoreHistory(digest, [], c.Opening());
    assert [] + [c.Opening()] == [c.Opening()];
    assert StateAfter(digest, [c.Opening()]) == Some(Snapshot(c.Opened(digest), [c.token]));
    PayingTransition(digest, c);
    WroteWithinLeaves(digest, EMPTY_TREE, c.First(), c.kept + c.paid);
    WroteWithinLeaves(digest, c.SmallOpened(digest), c.First(), c.kept);
    WroteWithinLeaves(digest, Wrote(digest, c.SmallOpened(digest), c.First(), c.kept), c.Last(), c.paid);
    MoreHistory(digest, [], c.SmallOpening());
    assert [] + [c.SmallOpening()] == [c.SmallOpening()];
    MoreHistory(digest, [c.SmallOpening()], c.Paying());
    assert StateAfter(digest, [c.SmallOpening()] + [c.Paying()]) == Some(Snapshot(c.Paid(digest), [c.token]));
  }

  lemma GenesisReached(digest: Digest)
    ensures OnLeaves(EMPTY_TREE.entries) && StateAfter(digest, []) == Some(GENESIS)
  {
  }

  lemma ScenarioVerified(digest: Digest, c: Scenario)
    requires c.Fits(digest)
    ensures Verified(c.Opening()) && Verified(c.Hiding()) && Verified(c.Passing())
  {
  }

  lemma AcceptedState(digest: Digest, c: Scenario)
    requires c.Fits(digest)
    ensures StateAfter(digest, [c.Opening(), c.Hiding(), c.Passing()]) == Some(Snapshot(c.Passed(digest), [c.token]))
  {
    hide Transition, StateAfter, Scenario.Opened, Scenario.Hidden, Scenario.Passed, Scenario.Fits;
    GenesisReached(digest);
    OpeningTransition(digest, c);
    HidingTransition(digest, c);
    PassingTransition(digest, c);
    MoreHistory(digest, [], c.Opening());
    MoreHistory(digest, [] + [c.Opening()], c.Hiding());
    MoreHistory(digest, [] + [c.Opening()] + [c.Hiding()], c.Passing());
    assert [] + [c.Opening()] + [c.Hiding()] + [c.Passing()] == [c.Opening(), c.Hiding(), c.Passing()];
  }

  /**
    Linear history needs its condition: in this run every witness is recorded on a state with its entries
    at leaves and every accepted batch is verified, and yet the stored root is not the root of what the accepted batches make from genesis.
  */
  lemma RootDeparts(digest: Digest, c: Scenario) returns (worlds: seq<World>)
    requires c.Fits(digest)
    ensures IsRun(digest, worlds)
    ensures var w := worlds[|worlds| - 1];
      && w.accepted == [c.Opening(), c.Hiding(), c.Passing()]
      && StateAfter(digest, w.accepted).Some?
      && w.clientRoot != GetRoot(StateAfter(digest, w.accepted).value)
  {
    hide Transition, StateAfter, AccessesOf, ReadsBack, Verified, Reachable, GetRoot, Next, OnLeaves, RefineStep, PayloadFor, HostFor,
      Scenario.Opening, Scenario.Hiding, Scenario.Passing, Scenario.Hidden, Scenario.Passed, Scenario.Paid;
    ScenarioReachable(digest, c);
    ScenarioVerified(digest, c);
    GenesisValid(digest);
    OpeningTransition(digest, c);
    OpeningAccesses(digest, c);
    NothingReadBack(digest, c, EMPTY_TREE);
    var w0 := INITIAL_WORLD;
    var _, w1, w2 := CurrentBuilderAdvances(digest, w0, GENESIS, c.Opening(), Direct);
    HidingTransition(digest, c);
    NothingReadBack(digest, c, c.Opened(digest));
    WroteWithinLeaves(digest, EMPTY_TREE, c.First(), c.kept + c.hidden + c.paid);
    var _, w3, w4 := CurrentBuilderAdvances(digest, w2, Snapshot(c.Opened(digest), [c.token]), c.Hiding(), Direct);
    ScenarioRoots(digest, c);
    PassingOnPaid(digest, c);
    NothingReadBack(digest, c, c.Paid(digest));
    var _, w5, w6 := CurrentBuilderAdvances(digest, w4, Snapshot(c.Paid(digest), [c.token]), c.Passing(), Direct);
    AcceptedState(digest, c);
    worlds := [w0, w1, w2, w3, w4, w5, w6];
    assert w6.accepted == [c.Opening(), c.Hiding(), c.Passing()];
  }

  /** There are such digests. */
  lemma ScenarioExists() returns (digest: Digest, c: Scenario)
    ensures c.Fits(digest)
  {
    hide BalanceBytes;
    c := Scenario(0, 0, 1, 2, 0, 1, 1);
    BalanceKeyInjective(c.First(), c.Beyond());
    BalanceKeyInjective(c.First(), c.Last());
    BalanceKeyInjective(c.Beyond(), c.Last());
    var first, beyond := BalanceKey(c.First()), BalanceKey(c.Beyond());
    digest := key => if key == first then (0, 0) else if key == beyond then (0, 0x80) else (1, 0);
    IndexIsLeaf((0, 0x80));
  }
}
