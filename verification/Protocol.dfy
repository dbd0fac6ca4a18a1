/**
  The service as a protocol: builders, up to date or stale, record and submit batches; refinements
  and accumulations happen in any order. The on-chain root is always the root of one linear history.
*/
module Protocol {
  import opened Wrappers
  import opened Hashing
  import opened Keys
  import opened StateTrees
  import opened Ledgers
  import opened Supply
  import opened Witnesses
  import opened Transitions
  import opened Accumulation
  import opened Refinement

  type Batch = seq<SignedOperation>

  /** The state after a history of batches from genesis, None when one of them aborts. */
  ghost function StateAfter(digest: Digest, history: seq<Batch>): Option<Snapshot> {
    if history == [] then Some(GENESIS)
    else
      match StateAfter(digest, history[..|history| - 1])
      case None => None
      case Some(s) => Transition(digest, s, history[|history| - 1])
  }

  /** Every batch of the history starts from a state that has its entries at leaves. */
  ghost predicate LeafHistory(digest: Digest, history: seq<Batch>) {
    history == [] ||
    var init := history[..|history| - 1];
    && LeafHistory(digest, init)
    && (StateAfter(digest, init).Some? ==> WithinLeaves(StateAfter(digest, init).value))
  }

  /**
    A state that some builder may hold: any batches from genesis, whether the chain accepted them or not,
    and whatever indices their balances select.
  */
  ghost predicate Reachable(digest: Digest, s: Snapshot) {
    exists history: seq<Batch> :: StateAfter(digest, history) == Some(s)
  }

  /** A witness that a builder recorded for the batch on a state it may hold. */
  ghost predicate Honest(digest: Digest, w: Witness, ops: Batch) {
    exists s: Snapshot :: Reachable(digest, s) && WitnessOf(digest, s, ops, w)
  }

  /** A reported root change, with the batch it executed; a deferring item executes none. */
  datatype Report = Report(change: RootChange, executed: Option<Batch>)

  /** The stored root, the exported segments, the reports so far, and the accepted batches in order. */
  datatype World = World(clientRoot: Hash, segments: set<SegmentData>, reports: set<Report>, accepted: seq<Batch>)

  const INITIAL_WORLD: World := World(EMPTY_HASH, {}, {}, [])

  /** An accumulation item: anything but an output, or a report. */
  datatype WorkItem = Other(item: Item) | Reported(report: Report)

  function ItemsOf(items: seq<WorkItem>): seq<Item> {
    if items == [] then []
    else
      var last := items[|items| - 1];
      ItemsOf(items[..|items| - 1]) + [if last.Other? then last.item else Output(last.report.change)]
  }

  function ReportsOf(items: seq<WorkItem>): seq<Report> {
    if items == [] then []
    else
      var last := items[|items| - 1];
      ReportsOf(items[..|items| - 1]) + if last.Other? then [] else [last.report]
  }

  function Executed(reports: seq<Report>): seq<Batch> {
    if reports == [] then []
    else
      var last := reports[|reports| - 1].executed;
      Executed(reports[..|reports| - 1]) + if last.Some? then [last.value] else []
  }

  function ChangesIn(reports: seq<Report>): seq<RootChange> {
    seq(|reports|, i requires 0 <= i < |reports| => reports[i].change)
  }

  // ---------------------------------------------------------------- steps

  /** The batch that a refinement executes. */
  function ExecutedBy(payload: Payload, host: Host): Option<Batch> {
    match payload.execution
    case Immediate => Some(payload.operations)
    case Deferring => None
    case Deferred => if host.imported.Found? then Some(host.imported.value.operations) else None
  }

  /** The witness that a refinement reads, unless it is deferred. */
  function Delivered(payload: Payload, host: Host): Option<Witness> {
    match payload.delivery
    case Direct => payload.attached
    case Extrinsic => if host.extrinsic.Found? then Some(host.extrinsic.value) else None
  }

  /** Witnesses come from builders, segments from earlier exports. */
  ghost predicate Submitted(digest: Digest, w: World, payload: Payload, host: Host) {
    if payload.execution.Deferred? then host.imported.Found? ==> host.imported.value in w.segments
    else Delivered(payload, host).Some? ==> Honest(digest, Delivered(payload, host).value, payload.operations)
  }

  ghost predicate RefineStep(digest: Digest, w: World, decoded: Option<Payload>, host: Host, w': World) {
    var outcome := RefineTransition(digest, decoded, host);
    && (decoded.Some? ==> Submitted(digest, w, decoded.value, host))
    && w' == if !outcome.Refined? then w
             else w.(segments := w.segments + (set s | s in outcome.exports),
                     reports := w.reports + {Report(outcome.change, ExecutedBy(decoded.value, host))})
  }

  ghost predicate AccumulateStep(w: World, items: seq<WorkItem>, w': World) {
    && (forall item | item in items :: if item.Other? then !item.item.Output? else item.report in w.reports)
    && w' == w.(clientRoot := RootAfter(w.clientRoot, RootChanges(ItemsOf(items))),
                accepted := if Chain(w.clientRoot, RootChanges(ItemsOf(items)))
                            then w.accepted + Executed(ReportsOf(items)) else w.accepted)
  }

  ghost predicate Next(digest: Digest, w: World, w': World) {
    || (exists decoded: Option<Payload>, host: Host :: RefineStep(digest, w, decoded, host, w'))
    || (exists items: seq<WorkItem> :: AccumulateStep(w, items, w'))
  }

  ghost predicate IsRun(digest: Digest, worlds: seq<World>) {
    && worlds != [] && worlds[0] == INITIAL_WORLD
    && forall i | 0 <= i < |worlds| - 1 :: Next(digest, worlds[i], worlds[i + 1])
  }

  // ---------------------------------------------------------------- the invariant

  /** The report tells the truth about every valid state that has the root it starts from. */
  ghost predicate TrueReport(digest: Digest, r: Report) {
    match r.executed
    case None => r.change.previousRoot == r.change.newRoot
    case Some(ops) => Verified(ops) && TrueChange(digest, r.change, ops)
  }

  ghost predicate TrueChange(digest: Digest, change: RootChange, ops: Batch) {
    forall s: Snapshot | ValidState(digest, s) && GetRoot(s) == change.previousRoot ::
      Transition(digest, s, ops).Some? && GetRoot(Transition(digest, s, ops).value) == change.newRoot
  }

  ghost predicate TrueSegment(digest: Digest, s: SegmentData) {
    Verified(s.operations) && Honest(digest, s.recorded, s.operations)
  }

  /**
    The accepted batches are verified, and the stored root is the root of the state that they make from
    genesis, provided that each of them was accepted on a state with its entries at leaves.
  */
  ghost predicate Linear(digest: Digest, root: Hash, accepted: seq<Batch>) {
    && (forall b | b in accepted :: Verified(b))
    && (LeafHistory(digest, accepted) ==>
          StateAfter(digest, accepted).Some? && GetRoot(StateAfter(digest, accepted).value) == root)
  }

  ghost predicate Invariant(digest: Digest, w: World) {
    && Linear(digest, w.clientRoot, w.accepted)
    && (forall r | r in w.reports :: TrueReport(digest, r))
    && (forall s | s in w.segments :: TrueSegment(digest, s))
  }

  /** Entries are never removed: a history that ends within the leaves was within them all the way, and its end is valid. */
  lemma {:induction false} EndsWithinLeaves(digest: Digest, history: seq<Batch>)
    requires StateAfter(digest, history).Some?
    ensures WithinLeaves(StateAfter(digest, history).value) ==>
      LeafHistory(digest, history) && ValidState(digest, StateAfter(digest, history).value)
  {
    hide ValidState, WithinLeaves, Transition;
    if history == [] {
      GenesisValid(digest);
    } else {
      var init, last := history[..|history| - 1], history[|history| - 1];
      EndsWithinLeaves(digest, init);
      if WithinLeaves(StateAfter(digest, history).value) {
        WithinLeavesBefore(digest, StateAfter(digest, init).value, last);
      }
    }
  }

  lemma GenesisValid(digest: Digest)
    ensures ValidState(digest, GENESIS) && GetRoot(GENESIS) == EMPTY_HASH
  {
    EmptyTreeValid(digest);
  }

  lemma {:induction false} HistoryMadeBySets(digest: Digest, history: seq<Batch>)
    requires StateAfter(digest, history).Some?
    ensures MadeBySets(digest, StateAfter(digest, history).value.tree)
  {
    hide MadeBySets, Transition;
    if history == [] {
      EmptyMadeBySets(digest);
    } else {
      HistoryMadeBySets(digest, history[..|history| - 1]);
      TransitionMadeBySets(digest, StateAfter(digest, history[..|history| - 1]).value, history[|history| - 1]);
    }
  }

  lemma ReachableMadeBySets(digest: Digest, s: Snapshot)
    requires Reachable(digest, s)
    ensures MadeBySets(digest, s.tree)
    ensures WithinLeaves(s) ==> ValidState(digest, s)
  {
    hide MadeBySets, ValidState, StateAfter, WithinLeaves;
    var history: seq<Batch> :| StateAfter(digest, history) == Some(s);
    HistoryMadeBySets(digest, history);
    EndsWithinLeaves(digest, history);
  }

  lemma MoreHistory(digest: Digest, history: seq<Batch>, ops: Batch)
    ensures StateAfter(digest, history).Some? ==>
      StateAfter(digest, history + [ops]) == Transition(digest, StateAfter(digest, history).value, ops)
    ensures LeafHistory(digest, history + [ops]) <==>
      && LeafHistory(digest, history)
      && (StateAfter(digest, history).Some? ==> WithinLeaves(StateAfter(digest, history).value))
  {
    hide WithinLeaves, Transition;
    assert (history + [ops])[..|history|] == history;
  }

  /** Before running them: batches whose balances all select leaves make such a history. */
  lemma {:induction false} RangeMakesLeafHistory(digest: Digest, history: seq<Batch>)
    requires forall b | b in history :: BatchInRange(digest, b)
    ensures LeafHistory(digest, history)
    ensures StateAfter(digest, history).Some? ==> WithinLeaves(StateAfter(digest, history).value)
  {
    hide BatchInRange, Transition;
    if history != [] {
      var init, last := history[..|history| - 1], history[|history| - 1];
      assert last in history && forall b | b in init :: b in history;
      RangeMakesLeafHistory(digest, init);
      if StateAfter(digest, init).Some? {
        BatchStaysWithinLeaves(digest, StateAfter(digest, init).value, last);
      }
    }
  }

  // ---------------------------------------------------------------- refinement reports the truth

  /**
    Replaying an honest witness reports nothing but the truth, and does report when some valid state has
    the root of the witness.
  */
  lemma HonestReplay(digest: Digest, w: Witness, ops: Batch, p: Snapshot)
    requires Honest(digest, w, ops) && Verified(ops)
    ensures FromWitness(digest, w) == Some(p) ==>
      && (ReplayOutcome(digest, ops, p).Refined? ==> TrueReport(digest, Report(ReplayOutcome(digest, ops, p).change, Some(ops))))
      && ((exists s: Snapshot :: ValidState(digest, s) && GetRoot(s) == GetRoot(p)) ==> ReplayOutcome(digest, ops, p).Refined?)
  {
    hide ValidState, Reachable, WitnessOf, FromWitness, Transition, GetRoot, MadeBySets;
    if FromWitness(digest, w) == Some(p) {
      var maker: Snapshot :| Reachable(digest, maker) && WitnessOf(digest, maker, ops, w);
      ReachableMadeBySets(digest, maker);
      forall s: Snapshot | ValidState(digest, s) && GetRoot(s) == GetRoot(p)
        ensures Transition(digest, p, ops).Some? && Transition(digest, s, ops).Some?
        ensures GetRoot(Transition(digest, p, ops).value) == GetRoot(Transition(digest, s, ops).value)
      {
        AnyRecordingReplays(digest, maker, ops, w, s);
      }
    }
  }

  lemma RefineWitnessTrue(digest: Digest, payload: Payload, w: Witness, exportOk: bool)
    requires Honest(digest, w, payload.operations) && !payload.execution.Deferred?
    requires RefineWitness(digest, payload, w, exportOk).Refined?
    ensures var outcome := RefineWitness(digest, payload, w, exportOk);
      && TrueReport(digest, Report(outcome.change, if payload.execution.Immediate? then Some(payload.operations) else None))
      && forall s | s in outcome.exports :: TrueSegment(digest, s)
  {
    hide FromWitness, Honest, Verified, GetRoot;
    var p := FromWitness(digest, w).value;
    if payload.execution.Immediate? {
      hide TrueReport;
      HonestReplay(digest, w, payload.operations, p);
    }
  }

  lemma RefineKeepsInvariant(digest: Digest, w: World, decoded: Option<Payload>, host: Host, w': World)
    requires Invariant(digest, w) && RefineStep(digest, w, decoded, host, w')
    ensures Invariant(digest, w')
  {
    hide Linear, TrueReport, TrueSegment, Honest, FromWitness, RefineWitness, ReplayOutcome, Verified;
    var outcome := RefineTransition(digest, decoded, host);
    if outcome.Refined? {
      var payload := decoded.value;
      if payload.execution.Deferred? {
        SegmentTrue(digest, host.imported.value);
        HonestReplay(digest, host.imported.value.recorded, host.imported.value.operations,
                     FromWitness(digest, host.imported.value.recorded).value);
        ReplayExportsNothing(digest, host.imported.value.operations, FromWitness(digest, host.imported.value.recorded).value);
      } else if payload.delivery.Extrinsic? {
        RefineWitnessTrue(digest, payload, host.extrinsic.value, host.exportOk);
      } else {
        RefineWitnessTrue(digest, payload, payload.attached.value, host.exportOk);
      }
    }
  }

  lemma SegmentTrue(digest: Digest, s: SegmentData)
    requires TrueSegment(digest, s)
    ensures Verified(s.operations) && Honest(digest, s.recorded, s.operations)
  {
  }

  lemma ReplayExportsNothing(digest: Digest, ops: Batch, p: Snapshot)
    ensures ReplayOutcome(digest, ops, p).Refined? ==> ReplayOutcome(digest, ops, p).exports == []
  {
  }

  // ---------------------------------------------------------------- accumulation extends the history

  /** A true report that starts from the current root says what its batch does to the current state. */
  lemma ReportApplies(digest: Digest, root: Hash, accepted: seq<Batch>, r: Report)
    requires Linear(digest, root, accepted) && TrueReport(digest, r) && r.change.previousRoot == root
    ensures Linear(digest, r.change.newRoot, accepted + if r.executed.Some? then [r.executed.value] else [])
  {
    hide ValidState, Transition, GetRoot, StateAfter, Verified, LeafHistory, WithinLeaves;
    if r.executed.Some? {
      var ops := r.executed.value;
      assert forall b | b in accepted + [ops] :: b in accepted || b == ops;
      MoreHistory(digest, accepted, ops);
      if LeafHistory(digest, accepted + [ops]) {
        EndsWithinLeaves(digest, accepted);
      }
    } else {
      assert accepted + [] == accepted;
    }
  }

  lemma {:induction false} ChainExtendsHistory(digest: Digest, root: Hash, accepted: seq<Batch>, reports: seq<Report>)
    requires Linear(digest, root, accepted) && forall r | r in reports :: TrueReport(digest, r)
    requires Chain(root, ChangesIn(reports))
    ensures Linear(digest, RootAfter(root, ChangesIn(reports)), accepted + Executed(reports))
    decreases |reports|
  {
    hide Linear, TrueReport, Chain;
    if reports == [] {
      assert ChangesIn(reports) == [] && accepted + [] == accepted;
    } else {
      var init, last := reports[..|reports| - 1], reports[|reports| - 1];
      assert last in reports && forall r | r in init :: r in reports;
      assert ChangesIn(reports) == ChangesIn(init) + [last.change];
      ChainMore(root, ChangesIn(init), last.change);
      ChainExtendsHistory(digest, root, accepted, init);
      ReportApplies(digest, RootAfter(root, ChangesIn(init)), accepted + Executed(init), last);
      var batch := if last.executed.Some? then [last.executed.value] else [];
      assert accepted + Executed(init) + batch == accepted + Executed(reports);
    }
  }

  lemma {:induction false} ItemsHoldReports(items: seq<WorkItem>)
    requires forall item | item in items :: item.Other? ==> !item.item.Output?
    ensures RootChanges(ItemsOf(items)) == ChangesIn(ReportsOf(items))
    ensures forall r | r in ReportsOf(items) :: Reported(r) in items
  {
    if items != [] {
      var init, last := items[..|items| - 1], items[|items| - 1];
      assert last in items && forall item | item in init :: item in items;
      ItemsHoldReports(init);
      assert ItemsOf(items)[..|ItemsOf(items)| - 1] == ItemsOf(init);
      if last.Reported? {
        assert ChangesIn(ReportsOf(items)) == ChangesIn(ReportsOf(init)) + [last.report.change];
      }
    }
  }

  lemma AccumulateKeepsInvariant(digest: Digest, w: World, items: seq<WorkItem>, w': World)
    requires Invariant(digest, w) && AccumulateStep(w, items, w')
    ensures Invariant(digest, w')
  {
    hide Linear, TrueReport, TrueSegment, Chain;
    ItemsHoldReports(items);
    if Chain(w.clientRoot, RootChanges(ItemsOf(items))) {
      ChainExtendsHistory(digest, w.clientRoot, w.accepted, ReportsOf(items));
    }
  }

  lemma InitialInvariant(digest: Digest)
    ensures Invariant(digest, INITIAL_WORLD)
  {
    hide GetRoot;
    GenesisValid(digest);
  }

  lemma NextKeepsInvariant(digest: Digest, w: World, w': World)
    requires Invariant(digest, w)
    ensures Next(digest, w, w') ==> Invariant(digest, w')
  {
    hide Invariant, RefineStep, AccumulateStep;
    if decoded: Option<Payload>, host: Host :| RefineStep(digest, w, decoded, host, w') {
      RefineKeepsInvariant(digest, w, decoded, host, w');
    } else if Next(digest, w, w') {
      var items: seq<WorkItem> :| AccumulateStep(w, items, w');
      AccumulateKeepsInvariant(digest, w, items, w');
    }
  }

  lemma {:induction false} RunKeepsInvariant(digest: Digest, worlds: seq<World>)
    requires IsRun(digest, worlds)
    ensures Invariant(digest, worlds[|worlds| - 1])
    decreases |worlds|
  {
    hide Invariant, RefineStep, AccumulateStep;
    var n := |worlds| - 1;
    if n == 0 {
      InitialInvariant(digest);
    } else {
      RunKeepsInvariant(digest, worlds[..n]);
      var w, w' := worlds[n - 1], worlds[n - 1 + 1];
      assert Next(digest, w, w');
      NextKeepsInvariant(digest, w, w');
    }
  }

  // ---------------------------------------------------------------- what holds in every run

  /**
    Linear history: after any interleaving of refinements and accumulations, every operation of every
    accepted batch is signed and moves something to another account, and the stored root is the root of
    the state that the accepted batches, in the order of acceptance, make from genesis, as long
    as each was accepted on a state with its entries at leaves.
  */
  lemma LinearHistory(digest: Digest, worlds: seq<World>)
    requires IsRun(digest, worlds)
    ensures var w := worlds[|worlds| - 1];
      && (forall b, op | b in w.accepted && op in b ::
            && op.signatureValid && op.operation.amount != 0
            && (op.operation.Transfer? ==> op.signerKeyValid && op.operation.from != op.operation.to))
      && (LeafHistory(digest, w.accepted) ==>
            StateAfter(digest, w.accepted).Some? && w.clientRoot == GetRoot(StateAfter(digest, w.accepted).value))
  {
    hide StateAfter, GetRoot, Next, TrueReport, TrueSegment, LeafHistory, Acceptable;
    RunKeepsInvariant(digest, worlds);
    forall b | b in worlds[|worlds| - 1].accepted {
      VerifiedMeans(b);
    }
  }

  lemma AcceptedVerified(digest: Digest, worlds: seq<World>)
    requires IsRun(digest, worlds)
    ensures forall b | b in worlds[|worlds| - 1].accepted :: Verified(b)
  {
    hide StateAfter, GetRoot, IsRun, TrueReport, TrueSegment, LeafHistory, Verified;
    RunKeepsInvariant(digest, worlds);
  }

  lemma {:induction false} HistoryLedger(digest: Digest, history: seq<Batch>)
    requires StateAfter(digest, history).Some?
    ensures LedgerOf(digest, StateAfter(digest, history).value) == ExecHistory(EMPTY_LEDGER, history)
  {
    hide Transition, LedgerOf, Exec;
    if history == [] {
      GenesisLedger(digest);
    } else {
      HistoryLedger(digest, history[..|history| - 1]);
      TransitionIsExec(digest, StateAfter(digest, history[..|history| - 1]).value, history[|history| - 1]);
    }
  }

  lemma GenesisLedger(digest: Digest)
    ensures LedgerOf(digest, GENESIS) == EMPTY_LEDGER
  {
    assert LedgerOf(digest, GENESIS).balances == map[];
  }

  /**
    On-chain conservation: in every run with such an accepted history, the stored root commits to a state
    in which the balances of each token add up to the first accepted mint of that token.
  */
  lemma CommittedSupply(digest: Digest, worlds: seq<World>, token: TokenId)
    requires IsRun(digest, worlds)
    ensures var w := worlds[|worlds| - 1];
      LeafHistory(digest, w.accepted) ==>
        && StateAfter(digest, w.accepted).Some?
        && w.clientRoot == GetRoot(StateAfter(digest, w.accepted).value)
        && SupplyOf(LedgerOf(digest, StateAfter(digest, w.accepted).value), token) == FirstMint(AllMints(w.accepted), token)
  {
    hide StateAfter, GetRoot, LedgerOf, SupplyOf, Next, LeafHistory;
    LinearHistory(digest, worlds);
    AcceptedVerified(digest, worlds);
    var accepted := worlds[|worlds| - 1].accepted;
    if LeafHistory(digest, accepted) {
      HistoryLedger(digest, accepted);
      HistoryConserves(accepted);
    }
  }

  /** A chain of true reports none of which executed a batch ends where it started. */
  lemma {:induction false} NoBatchNoMove(digest: Digest, root: Hash, reports: seq<Report>)
    requires (forall r | r in reports :: TrueReport(digest, r)) && Chain(root, ChangesIn(reports)) && Executed(reports) == []
    ensures RootAfter(root, ChangesIn(reports)) == root
    decreases |reports|
  {
    hide Chain;
    if reports == [] {
      assert ChangesIn(reports) == [];
    } else {
      var init, last := reports[..|reports| - 1], reports[|reports| - 1];
      assert last in reports && forall r | r in init :: r in reports;
      assert ChangesIn(reports) == ChangesIn(init) + [last.change];
      ChainMore(root, ChangesIn(init), last.change);
      NoBatchNoMove(digest, root, init);
    }
  }

  lemma StepGrowsHistory(digest: Digest, w: World, w': World)
    requires Invariant(digest, w)
    ensures Next(digest, w, w') ==> w.accepted <= w'.accepted && (w'.accepted == w.accepted ==> w'.clientRoot == w.clientRoot)
  {
    hide RefineTransition, Submitted, TrueReport, TrueSegment, Linear, Chain;
    if items: seq<WorkItem> :| AccumulateStep(w, items, w') {
      ItemsHoldReports(items);
      if Chain(w.clientRoot, RootChanges(ItemsOf(items))) && Executed(ReportsOf(items)) == [] {
        NoBatchNoMove(digest, w.clientRoot, ReportsOf(items));
      }
    }
  }

  /** No rollback: over a run the accepted history is only extended, and without a new batch the root stays. */
  lemma {:induction false} HistoryGrows(digest: Digest, worlds: seq<World>, i: nat, j: nat)
    requires IsRun(digest, worlds) && i <= j < |worlds|
    ensures worlds[i].accepted <= worlds[j].accepted
    ensures worlds[i].accepted == worlds[j].accepted ==> worlds[i].clientRoot == worlds[j].clientRoot
    decreases j - i
  {
    hide Next, Invariant;
    if i < j {
      HistoryGrows(digest, worlds, i, j - 1);
      RunKeepsInvariant(digest, worlds[..j]);
      var w, w' := worlds[j - 1], worlds[j - 1 + 1];
      assert Next(digest, w, w');
      StepGrowsHistory(digest, w, w');
    }
  }

  /** How a builder submits a batch for immediate execution: with its witness attached, or as extrinsic 0. */
  function PayloadFor(delivery: DeliveryMode, ops: Batch, wit: Witness): Payload {
    Payload(delivery, Immediate, ops, if delivery.Direct? then Some(wit) else None)
  }

  function HostFor(delivery: DeliveryMode, wit: Witness): Host {
    Host(if delivery.Direct? then Missing else Found(wit), Missing, false)
  }

  lemma SubmissionOutcome(digest: Digest, s: Snapshot, ops: Batch, wit: Witness, delivery: DeliveryMode)
    requires ValidState(digest, s) && Verified(ops)
    ensures WitnessOf(digest, s, ops, wit) && !ReadsBack(digest, s.tree.entries, AccessesOf(digest, s, ops)) ==>
      && Transition(digest, s, ops).Some?
      && RefineTransition(digest, Some(PayloadFor(delivery, ops, wit)), HostFor(delivery, wit))
      == Refined(RootChange(GetRoot(s), GetRoot(Transition(digest, s, ops).value)), [])
  {
    hide ValidState, WitnessOf, ReadsBack, AccessesOf, FromWitness, Transition, GetRoot, Verified;
    if WitnessOf(digest, s, ops, wit) {
      StatelessReplay(digest, s, ops, wit);
    }
  }

  /** One report of a batch, accumulated alone from the root it starts at. */
  lemma SingleReportAccepted(w: World, r: Report)
    requires r in w.reports && r.change.previousRoot == w.clientRoot
    ensures AccumulateStep(w, [Reported(r)],
      w.(clientRoot := r.change.newRoot, accepted := w.accepted + if r.executed.Some? then [r.executed.value] else []))
  {
    hide RootChanges, ItemsOf, ReportsOf, Executed;
    SingleItem(r);
    assert Chain(w.clientRoot, [r.change]);
  }

  lemma SingleItem(r: Report)
    ensures RootChanges(ItemsOf([Reported(r)])) == [r.change]
    ensures ReportsOf([Reported(r)]) == [r]
    ensures Executed([r]) == if r.executed.Some? then [r.executed.value] else []
  {
    hide RootChanges, ItemsOf, ReportsOf, Executed;
    OneReported([Reported(r)], r);
    OneOutput([Output(r.change)], r.change);
    OneExecuted([r], r);
  }

  lemma OneReported(items: seq<WorkItem>, r: Report)
    requires |items| == 1 && items[0] == Reported(r)
    ensures ItemsOf(items) == [Output(r.change)] && ReportsOf(items) == [r]
  {
    assert items[..|items| - 1] == [];
  }

  lemma OneOutput(items: seq<Item>, change: RootChange)
    requires |items| == 1 && items[0] == Output(change)
    ensures RootChanges(items) == [change]
  {
    assert items[..|items| - 1] == [];
  }

  lemma OneExecuted(reports: seq<Report>, r: Report)
    requires |reports| == 1 && reports[0] == r
    ensures Executed(reports) == if r.executed.Some? then [r.executed.value] else []
  {
    assert reports[..|reports| - 1] == [];
  }

  /**
    Progress: when a builder holds a state within the leaves that has the stored root, a verified batch that
    does not abort on it and reads back nothing it created can be submitted in either way of delivery; it is
    refined, and then accumulated it becomes the last one accepted.
  */
  lemma CurrentBuilderAdvances(digest: Digest, w: World, s: Snapshot, ops: Batch, delivery: DeliveryMode)
      returns (wit: Witness, refined: World, accumulated: World)
    requires Reachable(digest, s) && WithinLeaves(s) && GetRoot(s) == w.clientRoot && Verified(ops)
    requires Transition(digest, s, ops).Some? && !ReadsBack(digest, s.tree.entries, AccessesOf(digest, s, ops))
    ensures RefineStep(digest, w, Some(PayloadFor(delivery, ops, wit)), HostFor(delivery, wit), refined)
    ensures Next(digest, w, refined) && Next(digest, refined, accumulated)
    ensures accumulated.accepted == w.accepted + [ops]
    ensures accumulated.clientRoot == GetRoot(Transition(digest, s, ops).value)
  {
    hide ValidState, WitnessOf, ReadsBack, AccessesOf, RefineTransition, Transition, GetRoot, Verified, Reachable, AccumulateStep,
      WithinLeaves, MadeBySets;
    ReachableMadeBySets(digest, s);
    wit := WitnessExists(digest, s, ops);
    SubmissionOutcome(digest, s, ops, wit, delivery);
    var payload, host := PayloadFor(delivery, ops, wit), HostFor(delivery, wit);
    assert Honest(digest, wit, ops);
    var r := Report(RootChange(GetRoot(s), GetRoot(Transition(digest, s, ops).value)), Some(ops));
    refined := w.(reports := w.reports + {r});
    assert w.segments + (set x | x in RefineTransition(digest, Some(payload), host).exports) == w.segments;
    assert RefineStep(digest, w, Some(payload), host, refined);
    SingleReportAccepted(refined, r);
    accumulated := refined.(clientRoot := r.change.newRoot, accepted := w.accepted + [ops]);
    assert AccumulateStep(refined, [Reported(r)], accumulated);
  }
}
