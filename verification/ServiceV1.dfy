/** The first version of the service: refinement filters and nets, accumulation applies to key/value storage. */
module ServiceV1 {
  import opened Wrappers
  import opened Hashing
  import opened Keys
  import opened Ledgers
  import opened Supply
  import opened Netting
  import opened Transitions

  /** Refinement drops single operations; it computes signatures of operations but does not reject on them. */
  predicate Kept(op: SignedOperation) {
    match op.operation
    case Mint(_, _, amount) => amount != 0
    case Transfer(from, to, _, amount) => op.signerKeyValid && amount != 0 && from != to
  }

  function Filtered(ops: seq<SignedOperation>): seq<SignedOperation> {
    if ops == [] then []
    else
      var op := ops[|ops| - 1];
      Filtered(ops[..|ops| - 1]) + if Kept(op) then [op] else []
  }

  ghost function Validated(ops: seq<SignedOperation>): seq<Operation> {
    Mints(Filtered(ops)) + NetTransfers(Transfers(Filtered(ops)))
  }

  lemma KeepOne(ops: seq<SignedOperation>, i: nat)
    requires i < |ops|
    ensures var before, after := Filtered(ops[..i]), Filtered(ops[..i + 1]);
      && (!Kept(ops[i]) ==> after == before)
      && (Kept(ops[i]) ==> Mints(after) == Mints(before) + if ops[i].operation.Mint? then [ops[i].operation] else [])
      && (Kept(ops[i]) ==> Transfers(after) == Transfers(before) + if ops[i].operation.Transfer? then [ops[i].operation] else [])
  {
    var before, after := Filtered(ops[..i]), Filtered(ops[..i + 1]);
    assert ops[..i + 1][..i] == ops[..i];
    if Kept(ops[i]) {
      assert after == before + [ops[i]] && after[..|before|] == before;
    }
  }

  /** Of the mints, all with an amount are kept, in order, signed or not. */
  lemma {:induction false} KeptMints(ops: seq<SignedOperation>) returns (at: seq<nat>)
    ensures TakenInOrder(ops, at, Mints(Filtered(ops)))
    ensures forall i: nat | i < |ops| :: i in at <==> ops[i].operation.Mint? && ops[i].operation.amount != 0
  {
    hide TakenInOrder, Mints, Filtered;
    at := [];
    if ops == [] {
      NothingKept(ops);
    } else {
      var n := |ops| - 1;
      at := KeptMints(ops[..n]);
      TakeNext(ops, at, Mints(Filtered(ops[..n])));
      KeepOne(ops, n);
      assert ops[..n + 1] == ops && Mints(Filtered(ops[..n])) + [] == Mints(Filtered(ops[..n]));
      if ops[n].operation.Mint? && ops[n].operation.amount != 0 {
        at := at + [n];
      }
    }
  }

  /** Of the transfers, all with a valid signer, an amount and two accounts are kept, in order, signed or not. */
  lemma {:induction false} KeptTransfers(ops: seq<SignedOperation>) returns (at: seq<nat>)
    ensures TakenInOrder(ops, at, Transfers(Filtered(ops)))
    ensures forall i: nat | i < |ops| :: i in at <==>
      && ops[i].operation.Transfer? && ops[i].signerKeyValid
      && ops[i].operation.amount != 0 && ops[i].operation.from != ops[i].operation.to
  {
    hide TakenInOrder, Transfers, Filtered;
    at := [];
    if ops == [] {
      NothingKept(ops);
    } else {
      var n := |ops| - 1;
      at := KeptTransfers(ops[..n]);
      TakeNext(ops, at, Transfers(Filtered(ops[..n])));
      KeepOne(ops, n);
      assert ops[..n + 1] == ops && Transfers(Filtered(ops[..n])) + [] == Transfers(Filtered(ops[..n]));
      if ops[n].operation.Transfer? && Kept(ops[n]) {
        at := at + [n];
      }
    }
  }

  lemma NothingKept(ops: seq<SignedOperation>)
    requires ops == []
    ensures Mints(Filtered(ops)) == [] && Transfers(Filtered(ops)) == []
    ensures TakenInOrder(ops, [], [])
  {
  }

  /** Every validated operation moves something, and between two accounts. */
  lemma ValidatedMove(ops: seq<SignedOperation>)
    ensures forall op | op in Validated(ops) :: op.amount != 0 && (op.Transfer? ==> op.from != op.to)
  {
    hide NetTransfers, Net, Wrap, Signed;
    KeptDistinct(ops);
    forall op | op in NetTransfers(Transfers(Filtered(ops))) ensures op.amount != 0 && (op.Transfer? ==> op.from != op.to) {
      NetTransfersAre(Transfers(Filtered(ops)), op);
    }
    forall op | op in Mints(Filtered(ops)) ensures op.Mint? && op.amount != 0 {
      var at := KeptMints(ops);
      var i :| 0 <= i < |at| && Mints(Filtered(ops))[i] == op;
      assert at[i] in at;
    }
  }

  lemma ValidatedParts(operations: seq<SignedOperation>)
    ensures exists mints: seq<Operation>, transfers: seq<Operation>, at: seq<nat>, netted: seq<nat> ::
      && TakenInOrder(operations, at, mints) && TakenInOrder(operations, netted, transfers)
      && (forall i: nat | i < |operations| :: i in at <==> operations[i].operation.Mint? && operations[i].operation.amount != 0)
      && (forall i: nat | i < |operations| :: i in netted <==>
            && operations[i].operation.Transfer? && operations[i].signerKeyValid
            && operations[i].operation.amount != 0 && operations[i].operation.from != operations[i].operation.to)
      && (forall t | t in transfers :: t.Transfer?)
      && Validated(operations) == mints + NetTransfers(transfers)
  {
    hide TakenInOrder, NetTransfers;
    var at := KeptMints(operations);
    var netted := KeptTransfers(operations);
  }

  method Refine(operations: seq<SignedOperation>) returns (validated: seq<Operation>)
    ensures validated == Validated(operations)
    ensures forall op | op in validated :: op.amount != 0 && (op.Transfer? ==> op.from != op.to)
    ensures exists mints: seq<Operation>, transfers: seq<Operation>, at: seq<nat>, netted: seq<nat> ::
      && TakenInOrder(operations, at, mints) && TakenInOrder(operations, netted, transfers)
      && (forall i: nat | i < |operations| :: i in at <==> operations[i].operation.Mint? && operations[i].operation.amount != 0)
      && (forall i: nat | i < |operations| :: i in netted <==>
            && operations[i].operation.Transfer? && operations[i].signerKeyValid
            && operations[i].operation.amount != 0 && operations[i].operation.from != operations[i].operation.to)
      && (forall t | t in transfers :: t.Transfer?)
      && validated == mints + NetTransfers(transfers)
  {
    hide CanonicalTransfer, Stage, TakenInOrder, Filtered, Mints, Transfers;
    ValidatedMove(operations);
    ValidatedParts(operations);
    NothingKept(operations[..0]);
    validated := [];
    var staged: Staged := map[];
    for i := 0 to |operations|
      invariant validated == Mints(Filtered(operations[..i]))
      invariant staged == StagedOf(Transfers(Filtered(operations[..i])))
    {
      KeepOne(operations, i);
      ghost var mints, transfers := Mints(Filtered(operations[..i])), Transfers(Filtered(operations[..i]));
      assert mints + [] == mints && transfers + [] == transfers;
      var op := operations[i];
      match op.operation
      case Mint(to, token, amount) =>
        if amount != 0 {
          validated := validated + [op.operation];
        }
      case Transfer(from, to, token, amount) =>
        if op.signerKeyValid && amount != 0 && from != to {
          StageMore(transfers, op.operation);
          staged := StageTransfer(staged, from, to, token, amount);
        }
    }
    assert operations[..|operations|] == operations;
    validated := EmitNet(staged, validated);
  }

  /** Emits the net transfers in key order after the validated mints. */
  method EmitNet(staged: Staged, mints: seq<Operation>) returns (validated: seq<Operation>)
    ensures validated == mints + Settlements(SortedKeys(staged.Keys), staged)
  {
    hide Ascending, Settlements, Remaining;
    validated := mints;
    ghost var keys := SortedKeys(staged.Keys);
    ghost var n := 0;
    var rest := staged.Keys;
    AllRemain(keys, rest);
    NoneEmitted(mints, staged);
    assert keys[..n] == [];
    while rest != {}
      invariant n <= |keys| && Remaining(keys, n, rest)
      invariant (forall k | k in keys :: k in staged) && (forall k | k in keys[..n] :: k in staged)
      invariant validated == mints + Settlements(keys[..n], staged)
      decreases rest
    {
      LeastExists(rest);
      var k :| IsLeast(k, rest);
      NextKey(keys, n, rest, k);
      SettlementsNext(mints, keys, staged, n);
      var net := staged[k];
      ghost var before := validated;
      if net > 0 {
        validated := validated + [Transfer(k.first, k.second, k.token, net)];
      } else if net < 0 {
        validated := validated + [Transfer(k.second, k.first, k.token, 0 - net as int)];
      }
      assert validated == before + Settlement(k, net);
      n := n + 1;
      rest := rest - {k};
    }
    NothingRemains(keys, n, rest);
    assert keys[..n] == keys;
  }

  lemma NoneEmitted(mints: seq<Operation>, staged: Staged)
    ensures mints + Settlements([], staged) == mints
  {
  }

  // ---------------------------------------------------------------- accumulation on storage

  /** Balances under their storage keys, and the token list under its own. */
  class KeyValueStorage {
    var balances: map<Key, Balance>
    var knownTokenIds: seq<TokenId>

    constructor ()
      ensures Holds(EMPTY_LEDGER)
    {
      balances := map[];
      knownTokenIds := [];
    }

    /** The storage holds this ledger. */
    ghost predicate Holds(l: Ledger)
      reads this
    {
      && knownTokenIds == l.tokens
      && forall id :: && (BalanceKey(id) in balances <==> id in l.balances)
                      && (id in l.balances ==> balances[BalanceKey(id)] == l.balances[id])
    }

    method GetBalance(id: BalanceId, ghost l: Ledger) returns (balance: Balance)
      requires Holds(l)
      ensures balance == BalanceOf(l, id)
    {
      var key := BalanceKey(id);
      balance := if key in balances then balances[key] else 0;
    }

    method SetBalance(id: BalanceId, balance: Balance, ghost l: Ledger)
      requires Holds(l)
      modifies this
      ensures Holds(l.(balances := l.balances[id := balance]))
    {
      hide BalanceKey;
      balances := balances[BalanceKey(id) := balance];
      forall other ensures BalanceKey(other) == BalanceKey(id) <==> other == id {
        BalanceKeyInjective(other, id);
      }
    }

    method ProcessMint(to: AccountId, token: TokenId, amount: Balance, ghost l: Ledger)
      requires Holds(l)
      modifies this
      ensures Holds(MintRun(l, to, token, amount).ledger)
    {
      hide BalanceKey;
      if token in knownTokenIds {
        return;
      }
      knownTokenIds := knownTokenIds + [token];
      ghost var pushed := l.(tokens := l.tokens + [token]);
      assert Holds(pushed);
      var current := GetBalance(BalanceId(token, to), pushed);
      SetBalance(BalanceId(token, to), SaturatingAdd(current, amount), pushed);
    }

    method ProcessTransfer(from: AccountId, to: AccountId, token: TokenId, amount: Balance, ghost l: Ledger)
      requires Holds(l)
      modifies this
      ensures Holds(TransferRun(l, from, to, token, amount).ledger)
    {
      hide BalanceKey;
      if token !in knownTokenIds {
        return;
      }
      var fromBalance := GetBalance(BalanceId(token, from), l);
      if fromBalance < amount {
        return;
      }
      var toBalance := GetBalance(BalanceId(token, to), l);
      SetBalance(BalanceId(token, from), fromBalance - amount, l);
      ghost var between := l.(balances := l.balances[BalanceId(token, from) := fromBalance - amount]);
      SetBalance(BalanceId(token, to), SaturatingAdd(toBalance, amount), between);
    }

    /** Applies the validated operations of a work item in order. */
    method OnWorkItem(operations: seq<Operation>, ghost l: Ledger)
      requires Holds(l)
      modifies this
      ensures Holds(ApplyAll(l, operations).ledger)
    {
      hide Holds;
      for i := 0 to |operations|
        invariant Holds(ApplyAll(l, operations[..i]).ledger)
      {
        assert operations[..i + 1][..i] == operations[..i];
        ghost var before := ApplyAll(l, operations[..i]).ledger;
        match operations[i]
        case Mint(to, token, amount) => ProcessMint(to, token, amount, before);
        case Transfer(from, to, token, amount) => ProcessTransfer(from, to, token, amount, before);
      }
      assert operations[..|operations|] == operations;
    }
  }

  // ---------------------------------------------------------------- the two versions

  lemma {:induction false} VerifiedAreKept(ops: seq<SignedOperation>)
    requires Verified(ops)
    ensures Filtered(ops) == ops
  {
    if ops != [] {
      var init, last := ops[..|ops| - 1], ops[|ops| - 1];
      assert last in ops && forall op | op in init :: op in ops;
      VerifiedAreKept(init);
      assert ops == init + [last];
    }
  }

  lemma ValidatedIsBatch(l: Ledger, ops: seq<SignedOperation>)
    ensures ApplyAll(l, Validated(ops)).ledger == Exec(l, Filtered(ops)).ledger
    ensures Verified(ops) ==> ApplyAll(l, Validated(ops)).ledger == Exec(l, ops).ledger
  {
    hide ApplyAll, NetTransfers;
    if Verified(ops) {
      VerifiedAreKept(ops);
    }
  }

  /**
    Version 1 from end to end: refining a batch and accumulating the outcome, on storage that holds the
    ledger of a version 2 state, always runs the kept operations as a batch of that ledger. For a batch
    that version 2 accepts, storage ends holding the ledger of version 2's next state; where version 2
    aborts because two keys meet at a leaf, it ends holding what the ledger prescribes.
  */
  method RefineAndAccumulate(storage: KeyValueStorage, operations: seq<SignedOperation>, ghost digest: Digest, ghost s: Snapshot)
    requires storage.Holds(LedgerOf(digest, s))
    modifies storage
    ensures storage.Holds(Exec(LedgerOf(digest, s), Filtered(operations)).ledger)
    ensures Verified(operations) ==> storage.Holds(Exec(LedgerOf(digest, s), operations).ledger)
    ensures Verified(operations) && Transition(digest, s, operations).Some? ==>
      storage.Holds(LedgerOf(digest, Transition(digest, s, operations).value))
  {
    hide ApplyAll, NetTransfers, Transition, Exec, LedgerOf, KeyValueStorage.Holds;
    ValidatedIsBatch(LedgerOf(digest, s), operations);
    if Transition(digest, s, operations).Some? {
      TransitionIsExec(digest, s, operations);
    }
    var validated := Refine(operations);
    storage.OnWorkItem(validated, LedgerOf(digest, s));
  }

  lemma {:induction false} KeptDistinct(ops: seq<SignedOperation>)
    ensures forall op | op in Filtered(ops) :: Kept(op)
  {
    if ops != [] {
      KeptDistinct(ops[..|ops| - 1]);
    }
  }

  /** Version 1 conserves supplies for every batch, verified or not: its filter is enough. */
  lemma FilteredConserves(l: Ledger, ops: seq<SignedOperation>, token: TokenId)
    requires Sound(l)
    ensures var after := ApplyAll(l, Validated(ops)).ledger;
      && Sound(after)
      && SupplyOf(after, token) == if token in l.tokens then SupplyOf(l, token) else FirstMint(Mints(Filtered(ops)), token)
  {
    hide Sound, SupplyOf, ApplyAll, NetTransfers;
    KeptDistinct(ops);
    assert forall t | t in Transfers(Filtered(ops)) :: t.from != t.to;
    ExecConserves(l, Filtered(ops));
  }
}
