/** Running batches on state objects: the transition, the builder's session, and refinement. */
module Batches {
  import opened Wrappers
  import opened Hashing
  import opened Numbering
  import opened Keys
  import opened Merkle
  import opened StateTrees
  import opened Ledgers
  import opened Recording
  import opened Witnesses
  import opened Transitions
  import opened States
  import opened Accumulation
  import opened Refinement

  /** One more access of a run. */
  lemma ExecuteMore(digest: Digest, m: Machine, done: seq<Access>, a: Access)
    ensures Execute(digest, m, done + [a])
         == match Execute(digest, m, done) case None => None case Some(next) => Step(digest, next, a)
  {
    hide Step;
    assert (done + [a])[..|done|] == done;
  }

  method ProcessMint(state: State, to: AccountId, token: TokenId, amount: Balance) returns (ok: bool)
    modifies state.Repr
    ensures state.tokenRecord == old(state.tokenRecord)
    ensures var run := MintRun(old(state.LedgerNow()), to, token, amount);
      var executed := Execute(state.balances.digest, old(state.MachineOf()), run.accesses);
      && (ok <==> executed.Some?)
      && (ok ==> executed == Some(state.MachineOf()) && state.LedgerNow() == run.ledger)
  {
    hide Step, LedgerOf;
    ghost var digest, m := state.balances.digest, state.MachineOf();
    ghost var l := state.LedgerNow();
    LedgerTokens(digest, state.Value());
    assert Execute(digest, m, []) == Some(m);
    if token in state.tokens {
      return true;
    }
    state.PushToken(token);
    PushedLedger(digest, Snapshot(m.tree, l.tokens), state.tokens);
    var current := state.GetBalance(to, token);
    ghost var id := BalanceId(token, to);
    ExecuteMore(digest, m, [], Read(id));
    var balance := SaturatingAdd(current.GetOr(0), amount);
    ExecuteMore(digest, m, [Read(id)], Write(id, balance));
    ok := state.SetBalance(to, token, balance);
    assert [] + [Read(id)] == [Read(id)] && [Read(id)] + [Write(id, balance)] == [Read(id), Write(id, balance)];
  }

  lemma LedgerTokens(digest: Digest, s: Snapshot)
    ensures LedgerOf(digest, s).tokens == s.tokens
  {
  }

  lemma PushedLedger(digest: Digest, s: Snapshot, tokens: seq<TokenId>)
    ensures LedgerOf(digest, s.(tokens := tokens)) == LedgerOf(digest, s).(tokens := tokens)
  {
  }

  method ProcessTransfer(state: State, from: AccountId, to: AccountId, token: TokenId, amount: Balance) returns (ok: bool)
    modifies state.Repr
    ensures state.tokenRecord == old(state.tokenRecord)
    ensures var run := TransferRun(old(state.LedgerNow()), from, to, token, amount);
      var executed := Execute(state.balances.digest, old(state.MachineOf()), run.accesses);
      && (ok <==> executed.Some?)
      && (ok ==> executed == Some(state.MachineOf()) && state.LedgerNow() == run.ledger)
  {
    hide Step, LedgerOf;
    ghost var digest, m := state.balances.digest, state.MachineOf();
    ghost var l := state.LedgerNow();
    LedgerTokens(digest, state.Value());
    ghost var source, target := BalanceId(token, from), BalanceId(token, to);
    ghost var done := [];
    assert Execute(digest, m, done) == Some(m);
    if token !in state.tokens {
      return true;
    }
    var fromBalance := state.GetBalance(from, token);
    ExecuteMore(digest, m, done, Read(source));
    done := done + [Read(source)];
    if fromBalance.GetOr(0) < amount {
      assert done == [Read(source)];
      return true;
    }
    var toBalance := state.GetBalance(to, token);
    ExecuteMore(digest, m, done, Read(target));
    done := done + [Read(target)];
    var less: Balance := fromBalance.GetOr(0) - amount;
    var more := SaturatingAdd(toBalance.GetOr(0), amount);
    ExecuteMore(digest, m, done, Write(source, less));
    ExecuteMore(digest, m, done + [Write(source, less)], Write(target, more));
    assert done + [Write(source, less)] + [Write(target, more)] == [Read(source), Read(target), Write(source, less), Write(target, more)];
    ok := state.SetBalance(from, token, less);
    if !ok {
      return;
    }
    ok := state.SetBalance(to, token, more);
  }

  // ---------------------------------------------------------------- a whole batch

  /** The state is where running `ops` from the machine and ledger leads. */
  ghost predicate Ran(state: State, m: Machine, l: Ledger, ops: seq<Operation>)
    reads state.Repr
  {
    && Execute(state.balances.digest, m, ApplyAll(l, ops).accesses) == Some(state.MachineOf())
    && state.LedgerNow() == ApplyAll(l, ops).ledger
  }

  /** Running `ops` aborts the program. */
  ghost predicate Aborts(digest: Digest, m: Machine, l: Ledger, ops: seq<Operation>) {
    Execute(digest, m, ApplyAll(l, ops).accesses) == None
  }

  lemma RunMore(digest: Digest, m: Machine, l: Ledger, ops: seq<Operation>, op: Operation)
    ensures var before := ApplyAll(l, ops);
      && ApplyAll(l, ops + [op]).ledger == Apply(before.ledger, op).ledger
      && Execute(digest, m, ApplyAll(l, ops + [op]).accesses)
      == match Execute(digest, m, before.accesses) case None => None
         case Some(next) => Execute(digest, next, Apply(before.ledger, op).accesses)
  {
    hide Apply, Execute;
    assert (ops + [op])[..|ops|] == ops;
    ExecuteConcat(digest, m, ApplyAll(l, ops).accesses, Apply(ApplyAll(l, ops).ledger, op).accesses);
  }

  /** A run that aborts on its first part aborts. */
  lemma AbortedPart(digest: Digest, m: Machine, l: Ledger, ops: seq<Operation>, rest: seq<Operation>)
    requires Aborts(digest, m, l, ops)
    ensures Aborts(digest, m, l, ops + rest)
  {
    hide ApplyAll, Execute;
    ApplyConcat(l, ops, rest);
    ExecuteConcat(digest, m, ApplyAll(l, ops).accesses, ApplyAll(ApplyAll(l, ops).ledger, rest).accesses);
  }

  lemma {:induction false} MintsSplit(ops: seq<SignedOperation>, i: nat)
    requires i <= |ops|
    ensures Mints(ops[..i]) <= Mints(ops)
    decreases |ops|
  {
    if i < |ops| {
      var init := ops[..|ops| - 1];
      assert init[..i] == ops[..i];
      MintsSplit(init, i);
    } else {
      assert ops[..i] == ops;
    }
  }

  lemma AbortedMints(digest: Digest, m: Machine, l: Ledger, ops: seq<SignedOperation>, i: nat)
    requires i <= |ops| && Aborts(digest, m, l, Mints(ops[..i]))
    ensures Execute(digest, m, Exec(l, ops).accesses) == None
  {
    hide ApplyAll, Execute, NetTransfers;
    MintsSplit(ops, i);
    var rest := Mints(ops)[|Mints(ops[..i])|..] + NetTransfers(Transfers(ops));
    assert Mints(ops) + NetTransfers(Transfers(ops)) == Mints(ops[..i]) + rest;
    AbortedPart(digest, m, l, Mints(ops[..i]), rest);
  }

  lemma NextOperation(ops: seq<SignedOperation>, i: nat)
    requires i < |ops|
    ensures Mints(ops[..i + 1]) == Mints(ops[..i]) + if ops[i].operation.Mint? then [ops[i].operation] else []
    ensures Transfers(ops[..i + 1]) == Transfers(ops[..i]) + if ops[i].operation.Transfer? then [ops[i].operation] else []
  {
    assert ops[..i + 1][..i] == ops[..i];
  }

  /** One round of the first loop. */
  method MintOrStage(state: State, op: Operation, staged: Staged, ghost m: Machine, ghost l: Ledger, ghost mints: seq<Operation>)
      returns (ok: bool, next: Staged)
    requires Ran(state, m, l, mints)
    modifies state.Repr
    ensures state.tokenRecord == old(state.tokenRecord)
    ensures ok ==> Ran(state, m, l, if op.Mint? then mints + [op] else mints)
    ensures !ok ==> op.Mint? && Aborts(state.balances.digest, m, l, mints + [op])
    ensures ok ==> next == if op.Mint? then staged
                           else Stage(staged, CanonicalTransfer(op.from, op.to, op.token, op.amount).0,
                                      CanonicalTransfer(op.from, op.to, op.token, op.amount).1)
  {
    hide Apply, LedgerOf, Execute, CanonicalTransfer;
    next := staged;
    ok := true;
    match op
    case Mint(to, token, amount) =>
      RunMore(state.balances.digest, m, l, mints, op);
      MintApplies(state.LedgerNow(), to, token, amount);
      ok := ProcessMint(state, to, token, amount);
    case Transfer(from, to, token, amount) =>
      next := StageTransfer(staged, from, to, token, amount);
  }

  /** The first loop: mints take effect, transfers are staged. */
  method MintAndStage(state: State, operations: seq<SignedOperation>) returns (ok: bool, staged: Staged)
    modifies state.Repr
    ensures state.tokenRecord == old(state.tokenRecord)
    ensures ok ==> Ran(state, old(state.MachineOf()), old(state.LedgerNow()), Mints(operations))
    ensures ok ==> staged == StagedOf(Transfers(operations))
    ensures !ok ==> Execute(state.balances.digest, old(state.MachineOf()), Exec(old(state.LedgerNow()), operations).accesses) == None
  {
    hide Apply, ApplyAll, Exec, CanonicalTransfer, Stage, LedgerOf, Execute;
    ghost var digest, m, l := state.balances.digest, state.MachineOf(), state.LedgerNow();
    NothingRun(digest, m, l);
    staged := map[];
    for i := 0 to |operations|
      invariant state.tokenRecord == old(state.tokenRecord)
      invariant Ran(state, m, l, Mints(operations[..i]))
      invariant staged == StagedOf(Transfers(operations[..i]))
    {
      var op := operations[i].operation;
      NextOperation(operations, i);
      ghost var before := Mints(operations[..i]);
      assert before + [] == before && Transfers(operations[..i]) + [] == Transfers(operations[..i]);
      if op.Transfer? {
        StageMore(Transfers(operations[..i]), op);
      }
      ok, staged := MintOrStage(state, op, staged, m, l, before);
      if !ok {
        AbortedMints(digest, m, l, operations, i + 1);
        return;
      }
    }
    assert operations[..|operations|] == operations;
    ok := true;
  }

  lemma NothingRun(digest: Digest, m: Machine, l: Ledger)
    ensures ApplyAll(l, []) == Run(l, []) && Execute(digest, m, []) == Some(m)
  {
  }

  lemma MintApplies(l: Ledger, to: AccountId, token: TokenId, amount: Balance)
    ensures Apply(l, Mint(to, token, amount)) == MintRun(l, to, token, amount)
  {
  }

  lemma TransferApplies(l: Ledger, from: AccountId, to: AccountId, token: TokenId, amount: Balance)
    ensures Apply(l, Transfer(from, to, token, amount)) == TransferRun(l, from, to, token, amount)
  {
  }

  /** Settles one staged pair. */
  method Settle(state: State, key: PairKey, net: I64) returns (ok: bool)
    modifies state.Repr
    ensures state.tokenRecord == old(state.tokenRecord)
    ensures var run := ApplyAll(old(state.LedgerNow()), Settlement(key, net));
      var executed := Execute(state.balances.digest, old(state.MachineOf()), run.accesses);
      && (ok <==> executed.Some?)
      && (ok ==> executed == Some(state.MachineOf()) && state.LedgerNow() == run.ledger)
  {
    hide Apply, Step, LedgerOf, Execute;
    ghost var digest, m, l := state.balances.digest, state.MachineOf(), state.LedgerNow();
    NothingRun(digest, m, l);
    ok := true;
    if net > 0 {
      RunMore(digest, m, l, [], Transfer(key.first, key.second, key.token, net));
      TransferApplies(l, key.first, key.second, key.token, net);
      ok := ProcessTransfer(state, key.first, key.second, key.token, net);
    } else if net < 0 {
      var amount: Balance := 0 - net as int;
      RunMore(digest, m, l, [], Transfer(key.second, key.first, key.token, amount));
      TransferApplies(l, key.second, key.first, key.token, amount);
      ok := ProcessTransfer(state, key.second, key.first, key.token, amount);
    }
  }

  lemma RunConcat(digest: Digest, m: Machine, l: Ledger, a: seq<Operation>, b: seq<Operation>)
    ensures ApplyAll(l, a + b).ledger == ApplyAll(ApplyAll(l, a).ledger, b).ledger
    ensures Execute(digest, m, ApplyAll(l, a + b).accesses)
      == match Execute(digest, m, ApplyAll(l, a).accesses) case None => None
         case Some(next) => Execute(digest, next, ApplyAll(ApplyAll(l, a).ledger, b).accesses)
  {
    hide ApplyAll, Execute;
    ApplyConcat(l, a, b);
    ExecuteConcat(digest, m, ApplyAll(l, a).accesses, ApplyAll(ApplyAll(l, a).ledger, b).accesses);
  }

  lemma {:induction false} SettlementsSplit(keys: seq<PairKey>, staged: Staged, n: nat)
    requires n <= |keys| && forall k | k in keys :: k in staged
    ensures forall k | k in keys[..n] :: k in staged
    ensures Settlements(keys[..n], staged) <= Settlements(keys, staged)
    decreases |keys|
  {
    hide Settlement;
    if n < |keys| {
      var init := keys[..|keys| - 1];
      assert init[..n] == keys[..n];
      SettlementsSplit(init, staged, n);
    } else {
      assert keys[..n] == keys;
    }
  }

  lemma AbortedSettlements(digest: Digest, m: Machine, l: Ledger, ops: seq<Operation>, keys: seq<PairKey>, staged: Staged, n: nat)
    requires n <= |keys| && (forall k | k in keys :: k in staged) && (forall k | k in keys[..n] :: k in staged)
    requires Aborts(digest, m, l, ops + Settlements(keys[..n], staged))
    ensures Aborts(digest, m, l, ops + Settlements(keys, staged))
  {
    hide ApplyAll, Execute;
    SettlementsSplit(keys, staged, n);
    var first, whole := Settlements(keys[..n], staged), Settlements(keys, staged);
    assert ops + whole == (ops + first) + whole[|first|..];
    AbortedPart(digest, m, l, ops + first, whole[|first|..]);
  }

  lemma NoSettlements(ops: seq<Operation>, staged: Staged)
    ensures ops + Settlements([], staged) == ops
  {
  }

  /** One round of the second loop. */
  method SettleNext(state: State, staged: Staged, ghost m: Machine, ghost l: Ledger, ghost ops: seq<Operation>,
                    ghost keys: seq<PairKey>, ghost n: nat, key: PairKey) returns (ok: bool)
    requires n < |keys| && (forall k | k in keys :: k in staged) && keys[n] == key
    requires (forall k | k in keys[..n] :: k in staged) && (forall k | k in keys[..n + 1] :: k in staged)
    requires Ran(state, m, l, ops + Settlements(keys[..n], staged))
    modifies state.Repr
    ensures state.tokenRecord == old(state.tokenRecord)
    ensures ok ==> Ran(state, m, l, ops + Settlements(keys[..n + 1], staged))
    ensures !ok ==> Aborts(state.balances.digest, m, l, ops + Settlements(keys, staged))
  {
    hide LedgerOf, Settlement;
    SettlementsNext(ops, keys, staged, n);
    RunConcat(state.balances.digest, m, l, ops + Settlements(keys[..n], staged), Settlement(key, staged[key]));
    ok := Settle(state, key, staged[key]);
    if !ok {
      AbortedSettlements(state.balances.digest, m, l, ops, keys, staged, n + 1);
    }
  }

  /** The second loop: the staged pairs in key order. */
  method SettleAll(state: State, staged: Staged, ghost m: Machine, ghost l: Ledger, ghost ops: seq<Operation>) returns (ok: bool)
    requires Ran(state, m, l, ops)
    modifies state.Repr
    ensures state.tokenRecord == old(state.tokenRecord)
    ensures ok ==> Ran(state, m, l, ops + Settlements(SortedKeys(staged.Keys), staged))
    ensures !ok ==> Aborts(state.balances.digest, m, l, ops + Settlements(SortedKeys(staged.Keys), staged))
  {
    hide Ran, Aborts, Settlement, Ascending, Settlements, Remaining;
    ghost var keys := SortedKeys(staged.Keys);
    ghost var n := 0;
    var rest := staged.Keys;
    AllRemain(keys, rest);
    NoSettlements(ops, staged);
    assert keys[..n] == [];
    while rest != {}
      invariant n <= |keys| && Remaining(keys, n, rest)
      invariant (forall k | k in keys :: k in staged) && (forall k | k in keys[..n] :: k in staged)
      invariant state.tokenRecord == old(state.tokenRecord)
      invariant Ran(state, m, l, ops + Settlements(keys[..n], staged))
      decreases rest
    {
      LeastExists(rest);
      var k :| IsLeast(k, rest);
      NextKey(keys, n, rest, k);
      SettlementsNext(ops, keys, staged, n);
      ok := SettleNext(state, staged, m, l, ops, keys, n, k);
      if !ok {
        return;
      }
      n := n + 1;
      rest := rest - {k};
    }
    NothingRemains(keys, n, rest);
    assert keys[..n] == keys;
    ok := true;
  }

  /**
    A batch on a state object is the transition of its value; with a recorder it is the builder's
    session. The result is false when a write met an occupied leaf and the program aborts.
  */
  method StateTransition(state: State, operations: seq<SignedOperation>) returns (ok: bool)
    modifies state.Repr
    ensures state.tokenRecord == old(state.tokenRecord)
    ensures ok <==> Transition(state.balances.digest, old(state.Value()), operations).Some?
    ensures ok ==> Some(state.Value()) == Transition(state.balances.digest, old(state.Value()), operations)
    ensures ok ==>
      Execute(state.balances.digest, old(state.MachineOf()), Exec(old(state.LedgerNow()), operations).accesses) == Some(state.MachineOf())
  {
    hide ApplyAll, Execute, StagedOf, Settlements, Contents;
    ghost var digest, m, l := state.balances.digest, state.MachineOf(), state.LedgerNow();
    RecorderIsPassive(digest, m, Exec(l, operations).accesses);
    var staged;
    ok, staged := MintAndStage(state, operations);
    if !ok {
      return;
    }
    ok := SettleAll(state, staged, m, l, Mints(operations));
  }

  // ---------------------------------------------------------------- builder and refinement

  lemma RootRecordedOnce(t: Tree)
    ensures RecordHash(FreshRecorder(t), t.hashes, ROOT_INDEX) == FreshRecorder(t)
  {
  }

  /** What the builder does with a batch: show the root, run the batch, take the witness, show the root. */
  method ComputeTransitionWitness(state: State, operations: seq<SignedOperation>) returns (w: Option<Witness>)
    requires state.Ready()
    modifies state.Repr
    ensures w.Some? <==> Transition(state.balances.digest, old(state.Value()), operations).Some?
    ensures w.Some? ==> WitnessOf(state.balances.digest, old(state.Value()), operations, w.value)
    ensures w.Some? ==> Some(state.Value()) == Transition(state.balances.digest, old(state.Value()), operations)
    ensures w.Some? ==> state.Ready() && state.recorder.Model() == FreshRecorder(state.balances.Model())
  {
    hide Exec, Execute, Transition, LedgerOf;
    RootRecordedOnce(state.balances.Model());
    var _ := state.Root();
    assert state.MachineOf() == Machine(old(state.Value()).tree, Some(FreshRecorder(old(state.Value()).tree)));
    var ok := StateTransition(state, operations);
    if !ok {
      return None;
    }
    var taken := state.TakeWitness();
    var _ := state.Root();
    return Some(taken);
  }

  method Replayed(state: State, operations: seq<SignedOperation>) returns (outcome: Outcome)
    requires state.recorder == null
    modifies state.Repr
    ensures outcome == ReplayOutcome(state.balances.digest, operations, old(state.Value()))
  {
    hide Transition, GetRoot;
    var previousRoot := state.Root();
    var ok := StateTransition(state, operations);
    if !ok {
      return Panicked;
    }
    var newRoot := state.Root();
    return Refined(RootChange(previousRoot, newRoot), []);
  }

  method RefineFromWitness(digest: Digest, payload: Payload, w: Witness, exportOk: bool) returns (outcome: Outcome)
    ensures outcome == RefineWitness(digest, payload, w, exportOk)
  {
    hide Transitions.FromWitness, Transition, GetRoot;
    var state := State.FromWitness(digest, w);
    if state == null {
      return Rejected;
    }
    var verified := VerifyOperations(payload.operations);
    if payload.execution.Immediate? {
      if !verified {
        return Rejected;
      }
      outcome := Replayed(state, payload.operations);
    } else {
      var previousRoot := state.Root();
      if !verified || !exportOk {
        return Rejected;
      }
      return Refined(RootChange(previousRoot, previousRoot), [SegmentData(payload.operations, w)]);
    }
  }

  method RefineTransition(digest: Digest, decoded: Option<Payload>, host: Host) returns (outcome: Outcome)
    ensures outcome == Refinement.RefineTransition(digest, decoded, host)
  {
    hide Transitions.FromWitness, Transition, GetRoot;
    if decoded.None? {
      return Rejected;
    }
    var payload := decoded.value;
    if payload.execution.Deferred? {
      if !host.imported.Found? {
        return Rejected;
      }
      var segment := host.imported.value;
      var state := State.FromWitness(digest, segment.recorded);
      if state == null {
        return Rejected;
      }
      outcome := Replayed(state, segment.operations);
    } else {
      var w;
      match payload.delivery {
        case Extrinsic =>
          if payload.attached.Some? {
            return Panicked;
          }
          if !host.extrinsic.Found? {
            return Rejected;
          }
          w := host.extrinsic.value;
        case Direct =>
          if payload.attached.None? {
            return Panicked;
          }
          w := payload.attached.value;
      }
      outcome := RefineFromWitness(digest, payload, w, host.exportOk);
    }
  }
}
