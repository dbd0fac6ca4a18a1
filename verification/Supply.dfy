/** Conservation: what every operation, batch and history keeps of a token's supply. */
module Supply {
  import opened Hashing
  import opened Keys
  import opened Ledgers

  ghost function Share(balances: map<BalanceId, Balance>, id: BalanceId, token: TokenId): nat
    requires id in balances
  {
    if id.token == token then balances[id] else 0
  }

  /** The sum of all balances of a token. */
  ghost function SumOf(balances: map<BalanceId, Balance>, token: TokenId): nat
    decreases |balances|
  {
    if balances == map[] then 0
    else
      var id :| id in balances;
      Share(balances, id, token) + SumOf(balances - {id}, token)
  }

  ghost function SupplyOf(l: Ledger, token: TokenId): nat {
    SumOf(l.balances, token)
  }

  lemma {:induction false} SumWithout(balances: map<BalanceId, Balance>, id: BalanceId, token: TokenId)
    requires id in balances
    ensures SumOf(balances, token) == Share(balances, id, token) + SumOf(balances - {id}, token)
    decreases |balances|
  {
    var pick :| pick in balances && SumOf(balances, token) == Share(balances, pick, token) + SumOf(balances - {pick}, token);
    if pick != id {
      SumWithout(balances - {pick}, id, token);
      SumWithout(balances - {id}, pick, token);
      assert balances - {pick} - {id} == balances - {id} - {pick};
      assert Share(balances - {pick}, id, token) == Share(balances, id, token);
      assert Share(balances - {id}, pick, token) == Share(balances, pick, token);
    }
  }

  /** Replacing one balance changes the sum by the difference. */
  lemma SumUpdate(balances: map<BalanceId, Balance>, id: BalanceId, value: Balance, token: TokenId)
    ensures SumOf(balances[id := value], token)
         == SumOf(balances, token) + if id.token == token then value - (if id in balances then balances[id] else 0) else 0
  {
    var updated := balances[id := value];
    SumWithout(updated, id, token);
    assert updated - {id} == balances - {id};
    if id in balances {
      SumWithout(balances, id, token);
    } else {
      assert balances - {id} == balances;
    }
  }

  /** No two distinct balances of a token exceed its supply together. */
  lemma PairBelowSupply(l: Ledger, a: BalanceId, b: BalanceId)
    requires a != b && a.token == b.token
    ensures BalanceOf(l, a) + BalanceOf(l, b) <= SupplyOf(l, a.token)
  {
    var rest := l.balances - {a};
    if a in l.balances {
      SumWithout(l.balances, a, a.token);
    } else {
      assert rest == l.balances;
    }
    if b in l.balances {
      SumWithout(rest, b, a.token);
    }
  }

  /** Supplies fit in a balance, and only known tokens have any. */
  ghost predicate Sound(l: Ledger) {
    && (forall token :: SupplyOf(l, token) <= U64_MAX)
    && (forall token | token !in l.tokens :: SupplyOf(l, token) == 0)
  }

  predicate BetweenDistinct(op: Operation) {
    op.Transfer? ==> op.from != op.to
  }

  /** A mint of an unknown token creates exactly its amount, any other operation leaves every supply as it is. */
  ghost function Created(l: Ledger, op: Operation, token: TokenId): nat {
    if op.Mint? && op.token == token && token !in l.tokens then op.amount else 0
  }

  lemma BalanceBelowSupply(l: Ledger, id: BalanceId)
    ensures BalanceOf(l, id) <= SupplyOf(l, id.token)
  {
    if id in l.balances {
      SumWithout(l.balances, id, id.token);
    }
  }

  /** On a sound ledger the addition to the receiving account never saturates. */
  lemma NeverSaturates(l: Ledger, op: Operation)
    requires Sound(l) && BetweenDistinct(op)
    ensures op.Mint? && op.token !in l.tokens ==> BalanceOf(l, BalanceId(op.token, op.to)) == 0
    ensures op.Transfer? && op.amount <= BalanceOf(l, BalanceId(op.token, op.from)) ==>
      BalanceOf(l, BalanceId(op.token, op.to)) + op.amount <= U64_MAX
  {
    if op.Mint? {
      BalanceBelowSupply(l, BalanceId(op.token, op.to));
    } else {
      PairBelowSupply(l, BalanceId(op.token, op.from), BalanceId(op.token, op.to));
    }
  }

  lemma ApplyConserves(l: Ledger, op: Operation)
    requires Sound(l) && BetweenDistinct(op)
    ensures Sound(Apply(l, op).ledger)
    ensures forall token :: SupplyOf(Apply(l, op).ledger, token) == SupplyOf(l, token) + Created(l, op, token)
    ensures forall token :: token in Apply(l, op).ledger.tokens <==> token in l.tokens || (op.Mint? && op.token == token)
  {
    hide SumOf;
    NeverSaturates(l, op);
    var after := Apply(l, op).ledger;
    forall token ensures SupplyOf(after, token) == SupplyOf(l, token) + Created(l, op, token) {
      match op
      case Mint(to, t, amount) =>
        SumUpdate(l.balances, BalanceId(t, to), SaturatingAdd(BalanceOf(l, BalanceId(t, to)), amount), token);
      case Transfer(from, to, t, amount) =>
        var source, target := BalanceId(t, from), BalanceId(t, to);
        if amount <= BalanceOf(l, source) {
          var less := BalanceOf(l, source) - amount;
          SumUpdate(l.balances, source, less, token);
          SumUpdate(l.balances[source := less], target, SaturatingAdd(BalanceOf(l, target), amount), token);
        }
    }
  }

  /**
    Why self-transfers are rejected before execution: a transfer that goes through keeps the supply
    exactly when its two accounts differ, or when the balance is already at the limit.
  */
  lemma TransferConservesIff(l: Ledger, from: AccountId, to: AccountId, token: TokenId, amount: Balance)
    requires Sound(l) && token in l.tokens && 0 < amount <= BalanceOf(l, BalanceId(token, from))
    ensures SupplyOf(TransferRun(l, from, to, token, amount).ledger, token) == SupplyOf(l, token)
       <==> from != to || BalanceOf(l, BalanceId(token, from)) == U64_MAX
  {
    hide SumOf;
    var source := BalanceId(token, from);
    if from != to {
      ApplyConserves(l, Transfer(from, to, token, amount));
    } else {
      var less, more := BalanceOf(l, source) - amount, SaturatingAdd(BalanceOf(l, source), amount);
      SumUpdate(l.balances, source, less, token);
      SumUpdate(l.balances[source := less], source, more, token);
    }
  }

  /** The amount of the first mint of a token, 0 when there is none. */
  function FirstMint(ops: seq<Operation>, token: TokenId): nat {
    if ops == [] then 0
    else if ops[0].Mint? && ops[0].token == token then ops[0].amount
    else FirstMint(ops[1..], token)
  }

  predicate Minted(ops: seq<Operation>, token: TokenId) {
    exists op :: op in ops && op.Mint? && op.token == token
  }

  lemma {:induction false} FirstMintConcat(a: seq<Operation>, b: seq<Operation>, token: TokenId)
    ensures FirstMint(a + b, token) == if Minted(a, token) then FirstMint(a, token) else FirstMint(b, token)
    decreases |a|
  {
    if a == [] {
      assert a + b == b;
    } else {
      assert (a + b)[1..] == a[1..] + b;
      FirstMintConcat(a[1..], b, token);
      assert forall op :: op in a <==> op == a[0] || op in a[1..];
    }
  }

  /** Operations run from a sound ledger add to each supply the first mint of a token that was unknown. */
  lemma {:induction false} ApplyAllConserves(l: Ledger, ops: seq<Operation>)
    requires Sound(l) && forall op | op in ops :: BetweenDistinct(op)
    ensures var after := ApplyAll(l, ops).ledger;
      && Sound(after)
      && (forall token :: SupplyOf(after, token) == if token in l.tokens then SupplyOf(l, token) else FirstMint(ops, token))
      && (forall token :: token in after.tokens <==> token in l.tokens || Minted(ops, token))
  {
    hide Sound, SupplyOf, Apply;
    if ops == [] {
      EmptyRun(l);
    } else {
      var init, op := ops[..|ops| - 1], ops[|ops| - 1];
      assert ops == init + [op] && op in ops && forall o | o in init :: o in ops;
      ApplyAllConserves(l, init);
      ApplyConserves(ApplyAll(l, init).ledger, op);
      forall token ensures Minted(ops, token) <==> Minted(init, token) || (op.Mint? && op.token == token) {
        if op.Mint? && op.token == token {
          assert op in ops;
        }
      }
      forall token
        ensures SupplyOf(ApplyAll(l, ops).ledger, token) == if token in l.tokens then SupplyOf(l, token) else FirstMint(ops, token)
      {
        FirstMintConcat(init, [op], token);
        NoMint(init, token);
        assert [op][1..] == [];
      }
    }
  }

  lemma EmptyRun(l: Ledger)
    requires Sound(l)
    ensures Sound(ApplyAll(l, []).ledger)
    ensures forall token ::
      SupplyOf(ApplyAll(l, []).ledger, token) == if token in l.tokens then SupplyOf(l, token) else FirstMint([], token)
    ensures forall token :: token in ApplyAll(l, []).ledger.tokens <==> token in l.tokens || Minted([], token)
  {
  }

  lemma {:induction false} NoMint(ops: seq<Operation>, token: TokenId)
    ensures !Minted(ops, token) ==> FirstMint(ops, token) == 0
    decreases |ops|
  {
    if ops != [] {
      NoMint(ops[1..], token);
      assert forall op | op in ops[1..] :: op in ops;
      assert ops[0] in ops;
    }
  }

  // ---------------------------------------------------------------- histories

  function AllMints(batches: seq<seq<SignedOperation>>): seq<Operation> {
    if batches == [] then [] else AllMints(batches[..|batches| - 1]) + Mints(batches[|batches| - 1])
  }

  lemma NetBetweenDistinct(transfers: seq<Operation>)
    requires forall t | t in transfers :: t.Transfer? && t.from != t.to
    ensures forall t | t in NetTransfers(transfers) :: t.Transfer? && t.from != t.to
  {
    StagedBetweenDistinct(transfers);
    var staged := StagedOf(transfers);
    SettlementsBetweenDistinct(SortedKeys(staged.Keys), staged);
  }

  lemma {:induction false} StagedBetweenDistinct(transfers: seq<Operation>)
    requires forall t | t in transfers :: t.Transfer? && t.from != t.to
    ensures forall k | k in StagedOf(transfers) :: k.first != k.second
  {
    if transfers != [] {
      var init := transfers[..|transfers| - 1];
      assert transfers[|transfers| - 1] in transfers && forall t | t in init :: t in transfers;
      StagedBetweenDistinct(init);
    }
  }

  lemma {:induction false} SettlementsBetweenDistinct(keys: seq<PairKey>, staged: Staged)
    requires forall k | k in keys :: k in staged && k.first != k.second
    ensures forall t | t in Settlements(keys, staged) :: t.Transfer? && t.from != t.to
  {
    if keys != [] {
      SettlementsBetweenDistinct(keys[..|keys| - 1], staged);
    }
  }

  lemma {:induction false} MintsOnly(ops: seq<Operation>, rest: seq<Operation>, token: TokenId)
    requires forall op | op in rest :: op.Transfer?
    ensures FirstMint(ops + rest, token) == FirstMint(ops, token)
    ensures Minted(ops + rest, token) <==> Minted(ops, token)
  {
    FirstMintConcat(ops, rest, token);
    NoMint(ops, token);
    NoMint(rest, token);
    assert forall op :: op in ops + rest <==> op in ops || op in rest;
  }

  lemma VerifiedTransfers(ops: seq<SignedOperation>)
    requires Verified(ops)
    ensures forall t | t in Transfers(ops) :: t.Transfer? && t.from != t.to
  {
  }

  lemma ExecConserves(l: Ledger, ops: seq<SignedOperation>)
    requires Sound(l) && forall t | t in Transfers(ops) :: t.from != t.to
    ensures var after := Exec(l, ops).ledger;
      && Sound(after)
      && (forall token :: SupplyOf(after, token) == if token in l.tokens then SupplyOf(l, token) else FirstMint(Mints(ops), token))
      && (forall token :: token in after.tokens <==> token in l.tokens || Minted(Mints(ops), token))
  {
    hide Sound, SupplyOf, ApplyAll, NetTransfers, Minted;
    NetBetweenDistinct(Transfers(ops));
    var net := NetTransfers(Transfers(ops));
    ApplyAllConserves(l, Mints(ops) + net);
    forall token
      ensures FirstMint(Mints(ops) + net, token) == FirstMint(Mints(ops), token)
      ensures Minted(Mints(ops) + net, token) <==> Minted(Mints(ops), token)
    {
      MintsOnly(Mints(ops), net, token);
    }
  }

  /**
    Conservation over every history of verified batches: the balances of a token add up to its first
    mint, a token never minted has none, and the sums always fit in 64 bits.
  */
  lemma {:induction false} HistoryConserves(batches: seq<seq<SignedOperation>>)
    requires forall b | b in batches :: Verified(b)
    ensures var l := ExecHistory(EMPTY_LEDGER, batches);
      && Sound(l)
      && (forall token :: SupplyOf(l, token) == FirstMint(AllMints(batches), token))
      && (forall token :: token in l.tokens <==> Minted(AllMints(batches), token))
  {
    hide Exec, Sound, SupplyOf, Minted;
    if batches == [] {
      EmptyLedgerSound();
    } else {
      var init, last := batches[..|batches| - 1], batches[|batches| - 1];
      assert last in batches && forall b | b in init :: b in batches;
      HistoryConserves(init);
      VerifiedTransfers(last);
      ExecConserves(ExecHistory(EMPTY_LEDGER, init), last);
      forall token
        ensures FirstMint(AllMints(batches), token)
             == if Minted(AllMints(init), token) then FirstMint(AllMints(init), token) else FirstMint(Mints(last), token)
        ensures Minted(AllMints(batches), token) <==> Minted(AllMints(init), token) || Minted(Mints(last), token)
      {
        FirstMintConcat(AllMints(init), Mints(last), token);
        MintedConcat(AllMints(init), Mints(last), token);
      }
    }
  }

  /** Known tokens are listed once each. */
  ghost predicate NoRepeatedToken(tokens: seq<TokenId>) {
    forall i, j | 0 <= i < j < |tokens| :: tokens[i] != tokens[j]
  }

  lemma {:induction false} RunListsTokensOnce(l: Ledger, ops: seq<Operation>)
    requires NoRepeatedToken(l.tokens)
    ensures NoRepeatedToken(ApplyAll(l, ops).ledger.tokens)
    ensures l.tokens <= ApplyAll(l, ops).ledger.tokens
  {
    if ops != [] {
      RunListsTokensOnce(l, ops[..|ops| - 1]);
    }
  }

  lemma MintedConcat(a: seq<Operation>, b: seq<Operation>, token: TokenId)
    ensures Minted(a + b, token) <==> Minted(a, token) || Minted(b, token)
  {
    assert forall op :: op in a + b <==> op in a || op in b;
  }

  lemma EmptyLedgerSound()
    ensures Sound(EMPTY_LEDGER)
    ensures forall token :: SupplyOf(EMPTY_LEDGER, token) == 0 && FirstMint([], token) == 0 && !Minted([], token)
  {
  }
}
