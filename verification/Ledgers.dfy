/**
  The meaning of a batch of operations on an abstract ledger: a map of balances and the list of
  known tokens. A run also lists, in order, the balances that the program reads and writes.
*/
module Ledgers {
  import opened Hashing
  import opened Keys

  datatype Operation =
    | Mint(to: AccountId, token: TokenId, amount: Balance)
    | Transfer(from: AccountId, to: AccountId, token: TokenId, amount: Balance)

  /**
    An operation with the outcome of its signature checks: whether the `from` account decodes as a
    verification key, and whether the signature verifies under the key that must have signed.
  */
  datatype SignedOperation = SignedOperation(operation: Operation, signerKeyValid: bool, signatureValid: bool)

  predicate Acceptable(op: SignedOperation) {
    match op.operation
    case Mint(_, _, amount) => op.signatureValid && amount != 0
    case Transfer(from, to, _, amount) => op.signerKeyValid && op.signatureValid && amount != 0 && from != to
  }

  ghost predicate Verified(operations: seq<SignedOperation>) {
    forall op | op in operations :: Acceptable(op)
  }

  /** Every operation of a verified batch is signed, moves something, and pays from a valid signer to another account. */
  lemma VerifiedMeans(operations: seq<SignedOperation>)
    ensures Verified(operations) <==> forall op | op in operations ::
      && op.signatureValid && op.operation.amount != 0
      && (op.operation.Transfer? ==> op.signerKeyValid && op.operation.from != op.operation.to)
  {
  }

  method VerifyOperations(operations: seq<SignedOperation>) returns (ok: bool)
    ensures ok <==> Verified(operations)
    ensures ok <==> forall op | op in operations ::
      && op.signatureValid && op.operation.amount != 0
      && (op.operation.Transfer? ==> op.signerKeyValid && op.operation.from != op.operation.to)
  {
    VerifiedMeans(operations);
    for i := 0 to |operations|
      invariant forall op | op in operations[..i] :: Acceptable(op)
    {
      var op := operations[i];
      assert op in operations;
      match op.operation
      case Mint(_, _, amount) =>
        if !op.signatureValid {
          return false;
        }
        if amount == 0 {
          return false;
        }
      case Transfer(from, to, _, amount) =>
        if !op.signerKeyValid {
          return false;
        }
        if !op.signatureValid {
          return false;
        }
        if amount == 0 {
          return false;
        }
        if from == to {
          return false;
        }
    }
    assert operations[..|operations|] == operations;
    return true;
  }

  // ---------------------------------------------------------------- single operations

  datatype Ledger = Ledger(balances: map<BalanceId, Balance>, tokens: seq<TokenId>)

  const EMPTY_LEDGER: Ledger := Ledger(map[], [])

  function BalanceOf(l: Ledger, id: BalanceId): Balance {
    if id in l.balances then l.balances[id] else 0
  }

  datatype Access = Read(id: BalanceId) | Write(id: BalanceId, value: Balance)

  datatype Run = Run(ledger: Ledger, accesses: seq<Access>)

  function SaturatingAdd(a: Balance, b: Balance): Balance {
    if a + b <= U64_MAX then a + b else U64_MAX
  }

  function MintRun(l: Ledger, to: AccountId, token: TokenId, amount: Balance): Run {
    if token in l.tokens then Run(l, [])
    else
      var id := BalanceId(token, to);
      var balance := SaturatingAdd(BalanceOf(l, id), amount);
      Run(Ledger(l.balances[id := balance], l.tokens + [token]), [Read(id), Write(id, balance)])
  }

  function TransferRun(l: Ledger, from: AccountId, to: AccountId, token: TokenId, amount: Balance): Run {
    var source, target := BalanceId(token, from), BalanceId(token, to);
    if token !in l.tokens then Run(l, [])
    else if BalanceOf(l, source) < amount then Run(l, [Read(source)])
    else
      var less := BalanceOf(l, source) - amount;
      var more := SaturatingAdd(BalanceOf(l, target), amount);
      Run(l.(balances := l.balances[source := less][target := more]),
          [Read(source), Read(target), Write(source, less), Write(target, more)])
  }

  function Apply(l: Ledger, op: Operation): Run {
    match op
    case Mint(to, token, amount) => MintRun(l, to, token, amount)
    case Transfer(from, to, token, amount) => TransferRun(l, from, to, token, amount)
  }

  /**
    What an operation accesses, and in which order: nothing for a known token to mint or an unknown one to
    transfer, the source alone when it holds too little, and otherwise all its balances, which are read
    before they are written with what they hold afterwards.
  */
  lemma OperationAccesses(l: Ledger, op: Operation)
    ensures var known, run, target := op.token in l.tokens, Apply(l, op), BalanceId(op.token, op.to);
      && (op.Mint? && known ==> run == Run(l, []))
      && (op.Mint? && !known ==> run.accesses == [Read(target), Write(target, BalanceOf(run.ledger, target))])
    ensures op.Transfer? ==>
      var known, run := op.token in l.tokens, Apply(l, op);
      var source, target := BalanceId(op.token, op.from), BalanceId(op.token, op.to);
      var all := [Read(source), Read(target), Write(source, BalanceOf(run.ledger, source)), Write(target, BalanceOf(run.ledger, target))];
      && (!known ==> run == Run(l, []))
      && (known && BalanceOf(l, source) < op.amount ==> run == Run(l, [Read(source)]))
      && (known && op.amount <= BalanceOf(l, source) && op.from != op.to ==> run.accesses == all)
  {
  }

  /** The operations one by one, in order. */
  function ApplyAll(l: Ledger, ops: seq<Operation>): Run {
    if ops == [] then Run(l, [])
    else
      var before := ApplyAll(l, ops[..|ops| - 1]);
      var last := Apply(before.ledger, ops[|ops| - 1]);
      Run(last.ledger, before.accesses + last.accesses)
  }

  lemma {:induction false} ApplyConcat(l: Ledger, a: seq<Operation>, b: seq<Operation>)
    ensures ApplyAll(l, a + b).ledger == ApplyAll(ApplyAll(l, a).ledger, b).ledger
    ensures ApplyAll(l, a + b).accesses == ApplyAll(l, a).accesses + ApplyAll(ApplyAll(l, a).ledger, b).accesses
  {
    hide Apply;
    if b == [] {
      assert a + b == a;
    } else {
      var n := |b| - 1;
      assert (a + b)[..|a + b| - 1] == a + b[..n];
      ApplyConcat(l, a, b[..n]);
    }
  }

  // ---------------------------------------------------------------- netting

  type I64 = x: int | -0x8000_0000_0000_0000 <= x < 0x8000_0000_0000_0000

  /** Two's complement: the i64 that equals x modulo 2^64. */
  function Wrap(x: int): I64 {
    var r := x % 0x1_0000_0000_0000_0000;
    if r < 0x8000_0000_0000_0000 then r else r - 0x1_0000_0000_0000_0000
  }

  /** A token and an unordered pair of accounts, the smaller one first. */
  datatype PairKey = PairKey(token: TokenId, first: AccountId, second: AccountId)

  function CanonicalTransfer(from: AccountId, to: AccountId, token: TokenId, amount: Balance): (PairKey, I64) {
    if from < to then (PairKey(token, from, to), Wrap(amount))
    else (PairKey(token, to, from), Wrap(0 - Wrap(amount) as int))
  }

  type Staged = map<PairKey, I64>

  function Stage(staged: Staged, key: PairKey, delta: I64): Staged {
    staged[key := if key in staged then Wrap(staged[key] + delta) else delta]
  }

  function StagedOf(transfers: seq<Operation>): Staged
    requires forall t | t in transfers :: t.Transfer?
  {
    if transfers == [] then map[]
    else
      var t := transfers[|transfers| - 1];
      var (key, delta) := CanonicalTransfer(t.from, t.to, t.token, t.amount);
      Stage(StagedOf(transfers[..|transfers| - 1]), key, delta)
  }

  /** The key order of the staged map. */
  predicate Before(a: PairKey, b: PairKey) {
    || a.token < b.token
    || (a.token == b.token && a.first < b.first)
    || (a.token == b.token && a.first == b.first && a.second < b.second)
  }

  predicate IsLeast(k: PairKey, keys: set<PairKey>) {
    k in keys && forall j | j in keys :: j == k || Before(k, j)
  }

  lemma {:induction false} LeastExists(keys: set<PairKey>)
    requires keys != {}
    ensures exists k :: IsLeast(k, keys)
  {
    var some :| some in keys;
    var rest := keys - {some};
    if rest == {} {
      assert keys == {some};
      assert IsLeast(some, keys);
    } else {
      LeastExists(rest);
      var k :| IsLeast(k, rest);
      assert forall j | j in keys :: j == some || j in rest;
      assert k != some && (Before(some, k) || Before(k, some));
      assert IsLeast(if Before(some, k) then some else k, keys);
    }
  }

  ghost function Least(keys: set<PairKey>): PairKey
    requires keys != {}
  {
    LeastExists(keys);
    var k :| IsLeast(k, keys);
    k
  }

  ghost predicate Ascending(keys: seq<PairKey>) {
    forall i, j | 0 <= i < j < |keys| :: Before(keys[i], keys[j])
  }

  /** The keys in ascending order, as iterating the map visits them. */
  ghost function SortedKeys(keys: set<PairKey>): (r: seq<PairKey>)
    ensures forall k :: k in r <==> k in keys
    ensures Ascending(r)
  {
    if keys == {} then []
    else
      var k := Least(keys);
      [k] + SortedKeys(keys - {k})
  }

  /** The transfer that settles the net amount of a pair; none for a net of zero. */
  function Settlement(key: PairKey, net: I64): seq<Operation> {
    if net > 0 then [Transfer(key.first, key.second, key.token, net)]
    else if net < 0 then [Transfer(key.second, key.first, key.token, 0 - net as int)]
    else []
  }

  function Settlements(keys: seq<PairKey>, staged: Staged): seq<Operation>
    requires forall k | k in keys :: k in staged
  {
    if keys == [] then []
    else
      var k := keys[|keys| - 1];
      Settlements(keys[..|keys| - 1], staged) + Settlement(k, staged[k])
  }

  /** Adds a transfer to the net amount of its pair. */
  method StageTransfer(staged: Staged, from: AccountId, to: AccountId, token: TokenId, amount: Balance) returns (next: Staged)
    ensures var (key, delta) := CanonicalTransfer(from, to, token, amount);
      next == Stage(staged, key, delta)
  {
    hide CanonicalTransfer;
    var (key, delta) := CanonicalTransfer(from, to, token, amount);
    if key in staged {
      next := staged[key := Wrap(staged[key] + delta)];
    } else {
      next := staged[key := delta];
    }
  }

  lemma StageMore(transfers: seq<Operation>, t: Operation)
    requires t.Transfer? && forall o | o in transfers :: o.Transfer?
    ensures var (key, delta) := CanonicalTransfer(t.from, t.to, t.token, t.amount);
      StagedOf(transfers + [t]) == Stage(StagedOf(transfers), key, delta)
  {
    assert (transfers + [t])[..|transfers|] == transfers;
  }

  /** The keys from position n on are left. */
  ghost predicate Remaining(all: seq<PairKey>, n: nat, rest: set<PairKey>) {
    n <= |all| && forall j :: j in rest <==> j in all[n..]
  }

  lemma AllRemain(all: seq<PairKey>, rest: set<PairKey>)
    requires forall j :: j in all <==> j in rest
    ensures Remaining(all, 0, rest)
  {
    assert all[0..] == all;
  }

  lemma NothingRemains(all: seq<PairKey>, n: nat, rest: set<PairKey>)
    requires Remaining(all, n, rest)
    ensures rest == {} <==> n == |all|
  {
    if n < |all| {
      assert all[n] in all[n..];
    }
  }

  /** The least of the remaining keys is the next one in order. */
  lemma NextKey(all: seq<PairKey>, n: nat, rest: set<PairKey>, k: PairKey)
    requires Ascending(all)
    requires Remaining(all, n, rest) && IsLeast(k, rest)
    ensures n < |all| && k == all[n]
    ensures Remaining(all, n + 1, rest - {k})
  {
    var i :| n <= i < |all| && all[i] == k;
    assert all[n] in all[n..];
    assert all[n..] == [all[n]] + all[n + 1..];
    forall m | n + 1 <= m < |all| ensures all[m] != all[n] {
      assert Before(all[n], all[m]);
    }
  }

  /** Settling one more key. */
  lemma SettlementsNext(ops: seq<Operation>, keys: seq<PairKey>, staged: Staged, n: nat)
    requires n < |keys| && forall k | k in keys :: k in staged
    ensures (forall k | k in keys[..n] :: k in staged) && (forall k | k in keys[..n + 1] :: k in staged) && keys[n] in staged
    ensures ops + Settlements(keys[..n + 1], staged) == (ops + Settlements(keys[..n], staged)) + Settlement(keys[n], staged[keys[n]])
  {
    hide Settlement;
    assert keys[..n + 1][..n] == keys[..n];
  }

  // ---------------------------------------------------------------- batches

  function Mints(ops: seq<SignedOperation>): (r: seq<Operation>)
    ensures forall op | op in r :: op.Mint?
  {
    if ops == [] then []
    else
      var op := ops[|ops| - 1].operation;
      Mints(ops[..|ops| - 1]) + if op.Mint? then [op] else []
  }

  function Transfers(ops: seq<SignedOperation>): (r: seq<Operation>)
    ensures forall op | op in r :: op.Transfer?
    ensures forall op | op in r :: exists signed :: signed in ops && signed.operation == op
  {
    if ops == [] then []
    else
      var op := ops[|ops| - 1].operation;
      assert forall signed | signed in ops[..|ops| - 1] :: signed in ops;
      assert ops[|ops| - 1] in ops;
      Transfers(ops[..|ops| - 1]) + if op.Transfer? then [op] else []
  }

  /** The listed operations are those at the listed positions of the batch, in its order. */
  ghost predicate TakenInOrder(ops: seq<SignedOperation>, at: seq<nat>, taken: seq<Operation>) {
    && |at| == |taken|
    && (forall i, j | 0 <= i < j < |at| :: at[i] < at[j])
    && (forall i | 0 <= i < |at| :: at[i] < |ops| && taken[i] == ops[at[i]].operation)
  }

  lemma NothingTaken(ops: seq<SignedOperation>)
    ensures TakenInOrder(ops, [], [])
  {
  }

  lemma TakeNext(ops: seq<SignedOperation>, at: seq<nat>, taken: seq<Operation>)
    requires ops != [] && TakenInOrder(ops[..|ops| - 1], at, taken)
    ensures TakenInOrder(ops, at, taken) && |ops| - 1 !in at
    ensures TakenInOrder(ops, at + [|ops| - 1], taken + [ops[|ops| - 1].operation])
  {
  }

  /** The mints of a batch are all its mints, in its order. */
  lemma {:induction false} MintsInOrder(ops: seq<SignedOperation>) returns (at: seq<nat>)
    ensures TakenInOrder(ops, at, Mints(ops)) && forall i: nat | i < |ops| :: i in at <==> ops[i].operation.Mint?
  {
    hide TakenInOrder;
    at := [];
    if ops == [] {
      NothingTaken(ops);
    } else {
      var n := |ops| - 1;
      at := MintsInOrder(ops[..n]);
      TakeNext(ops, at, Mints(ops[..n]));
      assert Mints(ops[..n]) + [] == Mints(ops[..n]);
      if ops[n].operation.Mint? {
        at := at + [n];
      }
    }
  }

  /** The transfers of a batch are all its transfers, in its order. */
  lemma {:induction false} TransfersInOrder(ops: seq<SignedOperation>) returns (at: seq<nat>)
    ensures TakenInOrder(ops, at, Transfers(ops)) && forall i: nat | i < |ops| :: i in at <==> ops[i].operation.Transfer?
  {
    hide TakenInOrder;
    at := [];
    if ops == [] {
      NothingTaken(ops);
    } else {
      var n := |ops| - 1;
      at := TransfersInOrder(ops[..n]);
      TakeNext(ops, at, Transfers(ops[..n]));
      assert Transfers(ops[..n]) + [] == Transfers(ops[..n]);
      if ops[n].operation.Transfer? {
        at := at + [n];
      }
    }
  }

  ghost function NetTransfers(transfers: seq<Operation>): seq<Operation>
    requires forall t | t in transfers :: t.Transfer?
  {
    var staged := StagedOf(transfers);
    Settlements(SortedKeys(staged.Keys), staged)
  }

  /** A batch: all mints at once, then one transfer for each pair of accounts with a net amount. */
  ghost function Exec(l: Ledger, ops: seq<SignedOperation>): Run {
    ApplyAll(l, Mints(ops) + NetTransfers(Transfers(ops)))
  }

  /** The reference: the same mints, then every transfer of the batch by itself. */
  ghost function ExecOneByOne(l: Ledger, ops: seq<SignedOperation>): Run {
    ApplyAll(l, Mints(ops) + Transfers(ops))
  }

  /** A history: batch after batch. */
  ghost function ExecHistory(l: Ledger, batches: seq<seq<SignedOperation>>): Ledger {
    if batches == [] then l
    else Exec(ExecHistory(l, batches[..|batches| - 1]), batches[|batches| - 1]).ledger
  }
}
