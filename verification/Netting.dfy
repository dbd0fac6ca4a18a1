/** What netting the transfers of a batch keeps, and where it departs from running them one by one. */
module Netting {
  import opened Hashing
  import opened Keys
  import opened Ledgers
  import opened Supply

  // ---------------------------------------------------------------- the net amount of a pair

  function PairOf(t: Operation): PairKey
    requires t.Transfer?
  {
    if t.from < t.to then PairKey(t.token, t.from, t.to) else PairKey(t.token, t.to, t.from)
  }

  /** What the transfer moves from the first to the second account of its pair. */
  function Signed(t: Operation): int
    requires t.Transfer?
  {
    if t.from < t.to then t.amount else 0 - t.amount as int
  }

  /** The exact net amount of a pair, as an integer. */
  function Net(transfers: seq<Operation>, key: PairKey): int
    requires forall t | t in transfers :: t.Transfer?
  {
    if transfers == [] then 0
    else
      var t := transfers[|transfers| - 1];
      Net(transfers[..|transfers| - 1], key) + if PairOf(t) == key then Signed(t) else 0
  }

  predicate FitsI64(x: int) {
    -0x8000_0000_0000_0000 <= x < 0x8000_0000_0000_0000
  }

  lemma WrapFits(x: int)
    ensures Wrap(x) == x <==> FitsI64(x)
  {
  }

  lemma WrapShift(x: int, y: int, k: int)
    requires x == y + k * 0x1_0000_0000_0000_0000
    ensures Wrap(x) == Wrap(y)
  {
  }

  lemma WrapDistance(x: int) returns (k: int)
    ensures Wrap(x) == x + k * 0x1_0000_0000_0000_0000
  {
    k := (Wrap(x) - x) / 0x1_0000_0000_0000_0000;
  }

  lemma WrapAdd(a: int, b: int)
    ensures Wrap(Wrap(a) + Wrap(b)) == Wrap(a + b)
    ensures Wrap(0 - Wrap(a)) == Wrap(0 - a)
  {
    hide Wrap;
    var i := WrapDistance(a);
    var j := WrapDistance(b);
    WrapShift(Wrap(a) + Wrap(b), a + b, i + j);
    WrapShift(0 - Wrap(a), 0 - a, 0 - i);
  }

  lemma CanonicalIsSigned(t: Operation)
    requires t.Transfer?
    ensures CanonicalTransfer(t.from, t.to, t.token, t.amount) == (PairOf(t), Wrap(Signed(t)))
  {
    WrapAdd(t.amount, 0);
  }

  /** The staged map holds, for exactly the pairs of the batch, their net amounts modulo 2^64. */
  lemma {:induction false} StagedIsNet(transfers: seq<Operation>)
    requires forall t | t in transfers :: t.Transfer?
    ensures forall k :: k in StagedOf(transfers) <==> exists t :: t in transfers && PairOf(t) == k
    ensures forall k | k in StagedOf(transfers) :: StagedOf(transfers)[k] == Wrap(Net(transfers, k))
    ensures forall k | k !in StagedOf(transfers) :: Net(transfers, k) == 0
  {
    hide Wrap;
    if transfers != [] {
      var init, t := transfers[..|transfers| - 1], transfers[|transfers| - 1];
      assert transfers == init + [t];
      StagedIsNet(init);
      CanonicalIsSigned(t);
      WrapAdd(Net(init, PairOf(t)), Signed(t));
    }
  }

  /** The net amounts of all pairs fit in an i64. */
  ghost predicate NetsFit(transfers: seq<Operation>)
    requires forall t | t in transfers :: t.Transfer?
  {
    forall t | t in transfers :: FitsI64(Net(transfers, PairOf(t)))
  }

  /** No staged amount has wrapped around. */
  ghost predicate StagedIsExact(transfers: seq<Operation>)
    requires forall t | t in transfers :: t.Transfer?
  {
    forall k | k in StagedOf(transfers) :: StagedOf(transfers)[k] == Net(transfers, k)
  }

  /** The staged amounts are the exact net amounts if and only if those fit in an i64, whatever the partial sums do. */
  lemma StagedExact(transfers: seq<Operation>)
    requires forall t | t in transfers :: t.Transfer?
    ensures StagedIsExact(transfers) <==> NetsFit(transfers)
  {
    hide Wrap;
    StagedIsNet(transfers);
    forall x: int ensures Wrap(x) == x <==> FitsI64(x) {
      WrapFits(x);
    }
    if StagedIsExact(transfers) {
      forall t | t in transfers ensures FitsI64(Net(transfers, PairOf(t))) {
        assert PairOf(t) in StagedOf(transfers);
      }
    }
    if NetsFit(transfers) {
      forall k | k in StagedOf(transfers) ensures StagedOf(transfers)[k] == Net(transfers, k) {
        var t :| t in transfers && PairOf(t) == k;
        assert FitsI64(Net(transfers, PairOf(t)));
      }
    }
  }

  /** Without the bound the direction can flip: one transfer of 2^63 is settled the other way round. */
  lemma HugeTransferFlips(a: AccountId, b: AccountId, token: TokenId)
    requires a < b
    ensures NetTransfers([Transfer(a, b, token, 0x8000_0000_0000_0000)]) == [Transfer(b, a, token, 0x8000_0000_0000_0000)]
  {
    var t := Transfer(a, b, token, 0x8000_0000_0000_0000);
    var key := PairKey(token, a, b);
    assert [t][..0] == [];
    assert StagedOf([t]) == map[key := Wrap(0x8000_0000_0000_0000)];
    SingleKey(key);
    assert Settlements([key][..0], StagedOf([t])) == [];
    assert NetTransfers([t]) == Settlement(key, Wrap(t.amount));
  }

  lemma SingleKey(key: PairKey)
    ensures SortedKeys({key}) == [key]
  {
    assert {key} - {key} == {};
  }

  // ---------------------------------------------------------------- the settlements and their order

  function Lower(t: Operation): AccountId
    requires t.Transfer?
  {
    if t.from < t.to then t.from else t.to
  }

  function Upper(t: Operation): AccountId
    requires t.Transfer?
  {
    if t.from < t.to then t.to else t.from
  }

  /** By token, then by the smaller of the two accounts, then by the larger one. */
  predicate SettledBefore(t: Operation, u: Operation)
    requires t.Transfer? && u.Transfer?
  {
    || t.token < u.token
    || (t.token == u.token && Lower(t) < Lower(u))
    || (t.token == u.token && Lower(t) == Lower(u) && Upper(t) < Upper(u))
  }

  /** Settled one after the other in that order, no two of them between the same accounts. */
  ghost predicate InSettlingOrder(transfers: seq<Operation>) {
    && (forall t | t in transfers :: t.Transfer?)
    && forall i, j | 0 <= i < j < |transfers| :: SettledBefore(transfers[i], transfers[j])
  }

  lemma {:induction false} StagedCanonical(transfers: seq<Operation>)
    requires forall t | t in transfers :: t.Transfer?
    ensures forall k | k in StagedOf(transfers) :: k.first <= k.second
  {
    if transfers != [] {
      var init := transfers[..|transfers| - 1];
      assert transfers[|transfers| - 1] in transfers && forall t | t in init :: t in transfers;
      StagedCanonical(init);
    }
  }

  lemma {:induction false} InSettlements(keys: seq<PairKey>, staged: Staged, t: Operation)
    requires forall k | k in keys :: k in staged
    ensures t in Settlements(keys, staged) <==> exists k :: k in keys && t in Settlement(k, staged[k])
  {
    hide Settlement;
    if keys != [] {
      var init, k := keys[..|keys| - 1], keys[|keys| - 1];
      assert k in keys && forall j :: j in keys <==> j in init || j == k;
      InSettlements(init, staged, t);
    }
  }

  lemma SettlementBetween(k: PairKey, net: I64, t: Operation)
    requires k.first <= k.second && t in Settlement(k, net)
    ensures t.Transfer? && t.token == k.token && Lower(t) == k.first && Upper(t) == k.second
    ensures Settlement(k, net) == [t]
  {
  }

  lemma OrderMore(before: seq<Operation>, t: Operation)
    requires InSettlingOrder(before) && t.Transfer? && forall u | u in before :: SettledBefore(u, t)
    ensures InSettlingOrder(before + [t])
  {
    hide SettledBefore;
  }

  lemma {:induction false} SettlementsAscend(keys: seq<PairKey>, staged: Staged)
    requires Ascending(keys) && forall k | k in keys :: k in staged && k.first <= k.second
    ensures InSettlingOrder(Settlements(keys, staged))
  {
    hide Settlement, InSettlingOrder, Lower, Upper;
    if keys == [] {
      EmptyInOrder();
    } else {
      var init, k := keys[..|keys| - 1], keys[|keys| - 1];
      assert k in keys && forall j | j in init :: j in keys && Before(j, k);
      SettlementsAscend(init, staged);
      var before := Settlements(init, staged);
      if Settlement(k, staged[k]) == [] {
        assert before + [] == before;
      } else {
        var t := Settlement(k, staged[k])[0];
        SettlementBetween(k, staged[k], t);
        AllTransfers(before);
        forall u | u in before ensures SettledBefore(u, t) {
          InSettlements(init, staged, u);
          var j :| j in init && u in Settlement(j, staged[j]);
          SettlementBetween(j, staged[j], u);
        }
        OrderMore(before, t);
      }
    }
  }

  lemma EmptyInOrder()
    ensures InSettlingOrder([])
  {
  }

  lemma AllTransfers(transfers: seq<Operation>)
    requires InSettlingOrder(transfers)
    ensures forall t | t in transfers :: t.Transfer?
  {
  }

  /** Net transfers come by token, then by the smaller account, then by the larger one, and one for each pair at most. */
  lemma NetTransfersAscend(transfers: seq<Operation>)
    requires forall t | t in transfers :: t.Transfer?
    ensures forall t | t in NetTransfers(transfers) :: t.Transfer?
    ensures forall i, j | 0 <= i < j < |NetTransfers(transfers)| ::
      var t, u := NetTransfers(transfers)[i], NetTransfers(transfers)[j];
      || t.token < u.token
      || (t.token == u.token && Lower(t) < Lower(u))
      || (t.token == u.token && Lower(t) == Lower(u) && Upper(t) < Upper(u))
  {
    hide StagedOf, Settlements, Ascending, Lower, Upper;
    StagedCanonical(transfers);
    var staged := StagedOf(transfers);
    SettlementsAscend(SortedKeys(staged.Keys), staged);
    assert InSettlingOrder(NetTransfers(transfers));
  }

  lemma SettlementIs(key: PairKey, net: I64, t: Operation)
    requires key.first < key.second
    ensures t in Settlement(key, net) <==>
      t.Transfer? && t.from != t.to && 0 < t.amount && PairOf(t) == key && Signed(t) == net
  {
  }

  /** The net transfers are those that move a positive amount and exactly the net amount of their pair, as an i64. */
  lemma NetTransfersAre(transfers: seq<Operation>, t: Operation)
    requires forall u | u in transfers :: u.Transfer? && u.from != u.to
    ensures t in NetTransfers(transfers) <==>
      t.Transfer? && t.from != t.to && 0 < t.amount && Signed(t) == Wrap(Net(transfers, PairOf(t)))
  {
    hide StagedOf, Settlements, Settlement, Net, Signed, PairOf;
    var staged := StagedOf(transfers);
    var keys := SortedKeys(staged.Keys);
    StagedIsNet(transfers);
    StagedCanonical(transfers);
    StagedBetweenDistinct(transfers);
    InSettlements(keys, staged, t);
    forall k | k in staged ensures t in Settlement(k, staged[k]) <==>
      t.Transfer? && t.from != t.to && 0 < t.amount && PairOf(t) == k && Signed(t) == staged[k]
    {
      SettlementIs(k, staged[k], t);
    }
    if t.Transfer? && t.from != t.to && 0 < t.amount && Signed(t) == Wrap(Net(transfers, PairOf(t))) {
      SignedNotZero(t);
    }
  }

  lemma SignedNotZero(t: Operation)
    requires t.Transfer? && 0 < t.amount
    ensures Signed(t) != 0
  {
  }

  lemma {:induction false} SameOrderSame(a: seq<Operation>, b: seq<Operation>)
    requires InSettlingOrder(a) && InSettlingOrder(b) && forall t :: t in a <==> t in b
    ensures a == b
    decreases |a|
  {
    hide Lower, Upper, SettledBefore;
    assert a == [] <==> b == [] by {
      assert a != [] ==> a[0] in a;
      assert b != [] ==> b[0] in b;
    }
    if a != [] {
      var m := |a| - 1;
      assert a[m] in b;
      var n := |b| - 1;
      var i :| 0 <= i < |b| && b[i] == a[m];
      assert b[n] in a;
      var j :| 0 <= j < |a| && a[j] == b[n];
      if i < n {
        assert SettledBefore(b[i], b[n]);
        if j < m {
          assert SettledBefore(a[j], a[m]);
        }
        NotBothBefore(b[i], b[n]);
      }
      assert a[m] == b[n];
      forall t ensures t in a[..m] <==> t in b[..n] {
        LastIsNew(a, t);
        LastIsNew(b, t);
      }
      SameOrderSame(a[..m], b[..n]);
      assert a == a[..m] + [a[m]] && b == b[..n] + [b[n]];
    }
  }

  lemma NotBothBefore(t: Operation, u: Operation)
    requires t.Transfer? && u.Transfer?
    ensures !(SettledBefore(t, u) && SettledBefore(u, t))
  {
  }

  lemma LastIsNew(a: seq<Operation>, t: Operation)
    requires InSettlingOrder(a) && a != []
    ensures t in a[..|a| - 1] <==> t in a && t != a[|a| - 1]
  {
    hide Lower, Upper, SettledBefore;
    var m := |a| - 1;
    if t in a[..m] {
      var i :| 0 <= i < m && a[i] == t;
      assert SettledBefore(a[i], a[m]);
      NotBothBefore(a[i], a[m]);
    }
  }

  lemma {:induction false} NetOfSole(transfers: seq<Operation>, i: nat)
    requires (forall t | t in transfers :: t.Transfer?) && i < |transfers|
    requires forall j | 0 <= j < |transfers| && j != i :: PairOf(transfers[j]) != PairOf(transfers[i])
    ensures Net(transfers, PairOf(transfers[i])) == Signed(transfers[i])
  {
    var n := |transfers| - 1;
    var init := transfers[..n];
    assert forall t | t in init :: t in transfers;
    if i < n {
      assert init[i] == transfers[i];
      NetOfSole(init, i);
    } else {
      NetOfNone(init, PairOf(transfers[i]));
    }
  }

  lemma {:induction false} NetOfNone(transfers: seq<Operation>, key: PairKey)
    requires forall t | t in transfers :: t.Transfer?
    requires forall t | t in transfers :: PairOf(t) != key
    ensures Net(transfers, key) == 0
  {
    if transfers != [] {
      var init := transfers[..|transfers| - 1];
      assert transfers[|transfers| - 1] in transfers && forall t | t in init :: t in transfers;
      NetOfNone(init, key);
    }
  }

  /** Transfers that are in settling order already, each between two accounts and below 2^63, are their own net transfers. */
  lemma OrderedIsNet(transfers: seq<Operation>)
    requires InSettlingOrder(transfers)
    requires forall t | t in transfers :: t.from != t.to && 0 < t.amount < 0x8000_0000_0000_0000
    ensures NetTransfers(transfers) == transfers
  {
    hide Net, Wrap, NetTransfers, Lower, Upper, SettledBefore;
    NetTransfersAscend(transfers);
    forall t ensures t in NetTransfers(transfers) <==> t in transfers {
      NetTransfersAre(transfers, t);
      OrderedMember(transfers, t);
    }
    assert InSettlingOrder(NetTransfers(transfers)) by {
      NetInSettlingOrder(transfers);
    }
    SameOrderSame(NetTransfers(transfers), transfers);
  }

  lemma NetInSettlingOrder(transfers: seq<Operation>)
    requires forall t | t in transfers :: t.Transfer?
    ensures InSettlingOrder(NetTransfers(transfers))
  {
    hide NetTransfers, Lower, Upper;
    NetTransfersAscend(transfers);
  }

  lemma OrderedMember(transfers: seq<Operation>, t: Operation)
    requires InSettlingOrder(transfers)
    requires forall u | u in transfers :: u.from != u.to && 0 < u.amount < 0x8000_0000_0000_0000
    ensures t in transfers <==>
      t.Transfer? && t.from != t.to && 0 < t.amount && Signed(t) == Wrap(Net(transfers, PairOf(t)))
  {
    hide Net, Wrap, SettledBefore, Lower, Upper;
    forall i, j | 0 <= i < |transfers| && 0 <= j < |transfers| && i != j ensures PairOf(transfers[i]) != PairOf(transfers[j]) {
      if i < j {
        assert SettledBefore(transfers[i], transfers[j]);
      } else {
        assert SettledBefore(transfers[j], transfers[i]);
      }
      PairsApart(transfers[i], transfers[j]);
    }
    if t in transfers {
      var i :| 0 <= i < |transfers| && transfers[i] == t;
      NetOfSole(transfers, i);
      WrapFits(Signed(t));
    } else if t.Transfer? && t.from != t.to && 0 < t.amount && Signed(t) == Wrap(Net(transfers, PairOf(t))) {
      if exists i :: 0 <= i < |transfers| && PairOf(transfers[i]) == PairOf(t) {
        var i :| 0 <= i < |transfers| && PairOf(transfers[i]) == PairOf(t);
        NetOfSole(transfers, i);
        WrapFits(Signed(transfers[i]));
        SamePairSame(transfers[i], t);
      } else {
        NetOfNone(transfers, PairOf(t));
        WrapFits(0);
        SignedNotZero(t);
      }
    }
  }

  lemma SamePairSame(t: Operation, u: Operation)
    ensures t.Transfer? && u.Transfer? && t.from != t.to && u.from != u.to && 0 < t.amount && 0 < u.amount ==>
      (PairOf(t) == PairOf(u) && Signed(t) == Signed(u) <==> t == u)
  {
  }

  lemma PairsApart(t: Operation, u: Operation)
    requires t.Transfer? && u.Transfer? && (SettledBefore(t, u) || SettledBefore(u, t))
    ensures PairOf(t) != PairOf(u)
  {
  }

  /**
    Netting has no effect at all on a batch whose transfers are in settling order: a chain of payments
    through ascending accounts is one, whatever its length and whether it is funded or not.
  */
  lemma NettingKeepsOrderedBatch(l: Ledger, ops: seq<SignedOperation>)
    requires InSettlingOrder(Transfers(ops))
    requires forall t | t in Transfers(ops) :: t.from != t.to && 0 < t.amount < 0x8000_0000_0000_0000
    ensures Exec(l, ops) == ExecOneByOne(l, ops)
  {
    OrderedIsNet(Transfers(ops));
  }

  /** Payments that each go on from the account that received the one before, to a larger one. */
  ghost predicate AscendingChain(transfers: seq<Operation>) {
    && (forall t | t in transfers :: t.Transfer? && t.from < t.to)
    && forall i | 0 <= i < |transfers| - 1 :: transfers[i].token == transfers[i + 1].token && transfers[i].to == transfers[i + 1].from
  }

  lemma {:induction false} ChainClimbs(transfers: seq<Operation>, i: nat, j: nat)
    requires AscendingChain(transfers) && i < j < |transfers|
    ensures transfers[i].token == transfers[j].token && transfers[i].from < transfers[j].from
    decreases j - i
  {
    if i + 1 < j {
      ChainClimbs(transfers, i + 1, j);
    }
    assert transfers[i] in transfers;
  }

  lemma ChainIsOrdered(transfers: seq<Operation>)
    requires AscendingChain(transfers)
    ensures InSettlingOrder(transfers)
  {
    forall i, j | 0 <= i < j < |transfers| ensures SettledBefore(transfers[i], transfers[j]) {
      ChainClimbs(transfers, i, j);
      assert transfers[i] in transfers && transfers[j] in transfers;
    }
  }

  /** Passing a payment on through ascending accounts works in one batch as it does one by one. */
  lemma NettingKeepsAscendingChain(l: Ledger, ops: seq<SignedOperation>)
    requires AscendingChain(Transfers(ops)) && forall t | t in Transfers(ops) :: 0 < t.amount < 0x8000_0000_0000_0000
    ensures Exec(l, ops) == ExecOneByOne(l, ops)
  {
    ChainIsOrdered(Transfers(ops));
    NettingKeepsOrderedBatch(l, ops);
  }

  // ---------------------------------------------------------------- order independence

  lemma {:induction false} NetWithout(transfers: seq<Operation>, i: nat, key: PairKey)
    requires forall t | t in transfers :: t.Transfer?
    requires i < |transfers|
    ensures forall t | t in transfers[..i] + transfers[i + 1..] :: t.Transfer?
    ensures Net(transfers, key) == Net(transfers[..i] + transfers[i + 1..], key)
                                + if PairOf(transfers[i]) == key then Signed(transfers[i]) else 0
    decreases |transfers|
  {
    var n := |transfers| - 1;
    var rest := transfers[..i] + transfers[i + 1..];
    assert forall t | t in rest :: t in transfers;
    if i == n {
      assert rest == transfers[..n];
    } else {
      var init := transfers[..n];
      assert init[i] == transfers[i];
      NetWithout(init, i, key);
      assert rest[..|rest| - 1] == init[..i] + init[i + 1..];
      assert rest[|rest| - 1] == transfers[n];
    }
  }

  lemma {:induction false} NetPermutes(a: seq<Operation>, b: seq<Operation>, key: PairKey)
    requires forall t | t in a :: t.Transfer?
    requires multiset(a) == multiset(b)
    ensures forall t | t in b :: t.Transfer?
    ensures Net(a, key) == Net(b, key)
    decreases |a|
  {
    SameElements(a, b);
    if a == [] {
      assert |b| == |multiset(b)| == 0;
    } else {
      var n := |a| - 1;
      var t := a[n];
      assert t in b;
      var i :| 0 <= i < |b| && b[i] == t;
      RemoveOne(a, n);
      RemoveOne(b, i);
      assert a[..n] + a[n + 1..] == a[..n];
      NetWithout(b, i, key);
      NetPermutes(a[..n], b[..i] + b[i + 1..], key);
    }
  }

  lemma RemoveOne(a: seq<Operation>, i: nat)
    requires i < |a|
    ensures multiset(a[..i] + a[i + 1..]) == multiset(a) - multiset{a[i]}
  {
    assert a == a[..i] + [a[i]] + a[i + 1..];
  }

  lemma SameElements(a: seq<Operation>, b: seq<Operation>)
    requires multiset(a) == multiset(b)
    ensures forall t :: t in a <==> t in b
  {
    assert forall t :: t in a <==> t in multiset(a);
    assert forall t :: t in b <==> t in multiset(b);
  }

  lemma NetTransfersPermute(a: seq<Operation>, b: seq<Operation>)
    requires forall t | t in a :: t.Transfer?
    requires multiset(a) == multiset(b)
    ensures forall t | t in b :: t.Transfer?
    ensures NetTransfers(a) == NetTransfers(b)
  {
    hide Net, StagedOf, Settlements;
    SameElements(a, b);
    StagedIsNet(a);
    StagedIsNet(b);
    assert forall k :: k in StagedOf(a) <==> k in StagedOf(b);
    forall k | k in StagedOf(a) ensures StagedOf(a)[k] == StagedOf(b)[k] {
      NetPermutes(a, b, k);
    }
    assert StagedOf(a) == StagedOf(b);
  }

  /** A batch run depends only on the sequence of its mints and the multiset of its transfers. */
  lemma OrderIndependent(l: Ledger, a: seq<SignedOperation>, b: seq<SignedOperation>)
    requires Mints(a) == Mints(b) && multiset(Transfers(a)) == multiset(Transfers(b))
    ensures Exec(l, a) == Exec(l, b)
  {
    NetTransfersPermute(Transfers(a), Transfers(b));
  }

  // ---------------------------------------------------------------- meaning

  /** What one operation, carried out, changes in one balance. */
  function Change(t: Operation, id: BalanceId): int
    requires t.Transfer?
  {
    (if BalanceId(t.token, t.to) == id then t.amount else 0) - (if BalanceId(t.token, t.from) == id then t.amount else 0)
  }

  function Changes(transfers: seq<Operation>, id: BalanceId): int
    requires forall t | t in transfers :: t.Transfer?
  {
    if transfers == [] then 0
    else Changes(transfers[..|transfers| - 1], id) + Change(transfers[|transfers| - 1], id)
  }

  /** The transfers of known tokens that meet an insufficient balance when their turn comes, and are dropped. */
  ghost function Dropped(l: Ledger, transfers: seq<Operation>): (r: seq<Operation>)
    requires forall t | t in transfers :: t.Transfer?
    ensures forall t | t in r :: t.Transfer? && t.token in l.tokens
  {
    if transfers == [] then []
    else
      var init, t := transfers[..|transfers| - 1], transfers[|transfers| - 1];
      Dropped(l, init)
      + if t.token in l.tokens && BalanceOf(ApplyAll(l, init).ledger, BalanceId(t.token, t.from)) < t.amount then [t] else []
  }

  /** No transfer is dropped. */
  ghost predicate Funded(l: Ledger, transfers: seq<Operation>)
    requires forall t | t in transfers :: t.Transfer?
  {
    Dropped(l, transfers) == []
  }

  /** What an operation does to a balance of a sound ledger, in exact arithmetic. */
  ghost function Effect(l: Ledger, op: Operation, id: BalanceId): int {
    match op
    case Mint(to, token, amount) => if token !in l.tokens && id == BalanceId(token, to) then amount else 0
    case Transfer(from, _, token, amount) =>
      if token in l.tokens && amount <= BalanceOf(l, BalanceId(token, from)) then Change(op, id) else 0
  }

  /**
    A first mint credits its receiver, a funded transfer of a known token debits and credits its two
    accounts, anything else and every other balance stays as it is.
  */
  lemma ApplyEffect(l: Ledger, op: Operation)
    requires Sound(l) && BetweenDistinct(op)
    ensures forall id :: BalanceOf(Apply(l, op).ledger, id) == BalanceOf(l, id) + Effect(l, op, id)
    ensures Apply(l, op).ledger.tokens == if op.Mint? && op.token !in l.tokens then l.tokens + [op.token] else l.tokens
  {
    hide Sound;
    NeverSaturates(l, op);
  }

  lemma ChangesMore(transfers: seq<Operation>, t: Operation, id: BalanceId)
    requires t.Transfer? && forall o | o in transfers :: o.Transfer?
    ensures Changes(transfers + [t], id) == Changes(transfers, id) + Change(t, id)
  {
    assert (transfers + [t])[..|transfers|] == transfers;
  }

  /** Transfers add up: every balance of a known token ends at its start plus all changes, less those of dropped transfers. */
  lemma {:induction false} TransfersAddUp(l: Ledger, transfers: seq<Operation>)
    requires Sound(l) && forall t | t in transfers :: t.Transfer? && t.from != t.to
    ensures var after := ApplyAll(l, transfers).ledger;
      && Sound(after) && after.tokens == l.tokens
      && forall id :: BalanceOf(after, id) == BalanceOf(l, id) + (if id.token in l.tokens then Changes(transfers, id) else 0)
                                            - Changes(Dropped(l, transfers), id)
  {
    hide Sound, Apply, Change;
    if transfers != [] {
      var init, t := transfers[..|transfers| - 1], transfers[|transfers| - 1];
      assert t in transfers && forall o | o in init :: o in transfers;
      TransfersAddUp(l, init);
      var before := ApplyAll(l, init).ledger;
      ApplyConserves(before, t);
      ApplyEffect(before, t);
      forall id
        ensures Changes(Dropped(l, init) + [t], id) == Changes(Dropped(l, init), id) + Change(t, id)
        ensures id.token != t.token ==> Change(t, id) == 0
      {
        ChangesMore(Dropped(l, init), t, id);
        ChangeOfOther(t, id);
      }
      assert Dropped(l, init) + [] == Dropped(l, init);
    }
  }

  lemma ChangeOfOther(t: Operation, id: BalanceId)
    requires t.Transfer?
    ensures id.token != t.token ==> Change(t, id) == 0
  {
  }

  /** The changes that the net amounts of the listed pairs make to a balance. */
  function NetChange(key: PairKey, net: int, id: BalanceId): int {
    (if BalanceId(key.token, key.second) == id then net else 0) - (if BalanceId(key.token, key.first) == id then net else 0)
  }

  function NetChanges(keys: seq<PairKey>, transfers: seq<Operation>, id: BalanceId): int
    requires forall t | t in transfers :: t.Transfer?
  {
    if keys == [] then 0
    else
      var k := keys[|keys| - 1];
      NetChanges(keys[..|keys| - 1], transfers, id) + NetChange(k, Net(transfers, k), id)
  }

  ghost predicate NoRepeat(keys: seq<PairKey>) {
    forall i, j | 0 <= i < j < |keys| :: keys[i] != keys[j]
  }

  lemma {:induction false} NetChangesAdd(keys: seq<PairKey>, transfers: seq<Operation>, t: Operation, id: BalanceId)
    requires NoRepeat(keys) && t.Transfer? && forall o | o in transfers :: o.Transfer?
    ensures NetChanges(keys, transfers + [t], id)
         == NetChanges(keys, transfers, id) + if PairOf(t) in keys then Change(t, id) else 0
  {
    if keys != [] {
      var init, k := keys[..|keys| - 1], keys[|keys| - 1];
      assert (transfers + [t])[..|transfers|] == transfers;
      NetChangesAdd(init, transfers, t, id);
      assert keys == init + [k];
      assert k !in init;
    }
  }

  lemma {:induction false} NoNetChanges(keys: seq<PairKey>, id: BalanceId)
    ensures NetChanges(keys, [], id) == 0
  {
    if keys != [] {
      NoNetChanges(keys[..|keys| - 1], id);
    }
  }

  /** Netting neither adds nor loses anything: over all pairs, the net amounts make the same changes as the transfers. */
  lemma {:induction false} NetsKeepChanges(keys: seq<PairKey>, transfers: seq<Operation>, id: BalanceId)
    requires NoRepeat(keys) && forall t | t in transfers :: t.Transfer? && PairOf(t) in keys
    ensures NetChanges(keys, transfers, id) == Changes(transfers, id)
    decreases |transfers|
  {
    if transfers == [] {
      NoNetChanges(keys, id);
    } else {
      var init, t := transfers[..|transfers| - 1], transfers[|transfers| - 1];
      assert transfers == init + [t];
      NetsKeepChanges(keys, init, id);
      NetChangesAdd(keys, init, t, id);
    }
  }

  lemma {:induction false} ChangesConcat(a: seq<Operation>, b: seq<Operation>, id: BalanceId)
    requires forall t | t in a + b :: t.Transfer?
    ensures (forall t | t in a :: t.Transfer?) && (forall t | t in b :: t.Transfer?)
    ensures Changes(a + b, id) == Changes(a, id) + Changes(b, id)
    decreases |b|
  {
    assert forall t | t in a :: t in a + b;
    assert forall t | t in b :: t in a + b;
    if b == [] {
      assert a + b == a;
    } else {
      var n := |b| - 1;
      assert (a + b)[..|a + b| - 1] == a + b[..n];
      ChangesConcat(a, b[..n], id);
    }
  }

  lemma SettlementChange(key: PairKey, net: I64, id: BalanceId)
    ensures forall t | t in Settlement(key, net) :: t.Transfer?
    ensures Changes(Settlement(key, net), id) == NetChange(key, net, id)
  {
    assert forall t: Operation :: [t][..0] == [];
  }

  lemma {:induction false} SettlementsChange(keys: seq<PairKey>, transfers: seq<Operation>, id: BalanceId)
    requires forall t | t in transfers :: t.Transfer?
    requires NetsFit(transfers) && forall k | k in keys :: k in StagedOf(transfers)
    ensures forall t | t in Settlements(keys, StagedOf(transfers)) :: t.Transfer?
    ensures Changes(Settlements(keys, StagedOf(transfers)), id) == NetChanges(keys, transfers, id)
    decreases |keys|
  {
    hide StagedOf, Net, NetsFit, Settlement, NetChange;
    if keys != [] {
      var init, k := keys[..|keys| - 1], keys[|keys| - 1];
      assert k in keys && forall j | j in init :: j in keys;
      SettlementsChange(init, transfers, id);
      StagedExact(transfers);
      SettlementChange(k, StagedOf(transfers)[k], id);
      ChangesConcat(Settlements(init, StagedOf(transfers)), Settlement(k, StagedOf(transfers)[k]), id);
    }
  }

  lemma NetTransfersChange(transfers: seq<Operation>, id: BalanceId)
    requires forall t | t in transfers :: t.Transfer?
    requires NetsFit(transfers)
    ensures forall t | t in NetTransfers(transfers) :: t.Transfer?
    ensures Changes(NetTransfers(transfers), id) == Changes(transfers, id)
  {
    hide StagedOf, Settlements, NetChanges, Changes, NetsFit;
    var keys := SortedKeys(StagedOf(transfers).Keys);
    StagedIsNet(transfers);
    SettlementsChange(keys, transfers, id);
    NetsKeepChanges(keys, transfers, id);
  }

  lemma {:induction false} MintsFirst(l: Ledger, ops: seq<SignedOperation>)
    requires Sound(l)
    ensures Sound(ApplyAll(l, Mints(ops)).ledger)
  {
    ApplyAllConserves(l, Mints(ops));
  }

  /**
    What netting does to a batch, exactly: batch and reference end with the same tokens, and their balances
    differ by what each of the two dropped.
  */
  lemma NettingExact(l: Ledger, ops: seq<SignedOperation>)
    requires Sound(l) && Verified(ops) && NetsFit(Transfers(ops))
    ensures Exec(l, ops).ledger.tokens == ExecOneByOne(l, ops).ledger.tokens
    ensures forall t | t in NetTransfers(Transfers(ops)) :: t.Transfer?
    ensures var minted := ApplyAll(l, Mints(ops)).ledger;
      forall id :: BalanceOf(Exec(l, ops).ledger, id) + Changes(Dropped(minted, NetTransfers(Transfers(ops))), id)
                == BalanceOf(ExecOneByOne(l, ops).ledger, id) + Changes(Dropped(minted, Transfers(ops)), id)
  {
    hide Sound, ApplyAll, NetTransfers, Dropped, Changes, NetsFit, BalanceOf;
    var minted := ApplyAll(l, Mints(ops)).ledger;
    var transfers := Transfers(ops);
    MintsFirst(l, ops);
    VerifiedTransfers(ops);
    NetBetweenDistinct(transfers);
    ApplyConcat(l, Mints(ops), transfers);
    ApplyConcat(l, Mints(ops), NetTransfers(transfers));
    TransfersAddUp(minted, transfers);
    TransfersAddUp(minted, NetTransfers(transfers));
    forall id ensures Changes(NetTransfers(transfers), id) == Changes(transfers, id) {
      NetTransfersChange(transfers, id);
    }
  }

  /** Every balance is the same. */
  ghost predicate SameBalances(l1: Ledger, l2: Ledger) {
    forall id :: BalanceOf(l1, id) == BalanceOf(l2, id)
  }

  /** Carried out together, the transfers would change no balance. */
  ghost predicate CancelOut(transfers: seq<Operation>)
    requires forall t | t in transfers :: t.Transfer?
  {
    forall id :: Changes(transfers, id) == 0
  }

  lemma NothingCancelsOut()
    ensures CancelOut([])
  {
  }

  /**
    Netting keeps a batch that is funded one by one if and only if the settlements that it drops cancel
    out; it does when it drops none.
  */
  lemma NettingKeepsIff(l: Ledger, ops: seq<SignedOperation>)
    requires Sound(l) && Verified(ops) && NetsFit(Transfers(ops))
    requires Funded(ApplyAll(l, Mints(ops)).ledger, Transfers(ops))
    ensures forall t | t in NetTransfers(Transfers(ops)) :: t.Transfer?
    ensures var dropped := Dropped(ApplyAll(l, Mints(ops)).ledger, NetTransfers(Transfers(ops)));
      && (SameBalances(Exec(l, ops).ledger, ExecOneByOne(l, ops).ledger) <==> CancelOut(dropped))
      && (dropped == [] ==> CancelOut(dropped))
  {
    hide Sound, ApplyAll, Exec, ExecOneByOne, NetTransfers, Dropped, NetsFit, BalanceOf, Changes;
    NettingExact(l, ops);
    NothingCancelsOut();
    var batch, reference := Exec(l, ops).ledger, ExecOneByOne(l, ops).ledger;
    var dropped := Dropped(ApplyAll(l, Mints(ops)).ledger, NetTransfers(Transfers(ops)));
    forall id ensures BalanceOf(batch, id) == BalanceOf(reference, id) <==> Changes(dropped, id) == 0 {
      assert Changes([], id) == 0;
    }
  }

  // ---------------------------------------------------------------- isolated pairs

  predicate Touches(key: PairKey, id: BalanceId) {
    id.token == key.token && (id.account == key.first || id.account == key.second)
  }

  /** Every account exchanges a token with at most one counterpart. */
  ghost predicate Isolated(transfers: seq<Operation>)
    requires forall t | t in transfers :: t.Transfer?
  {
    forall t, u, id | t in transfers && u in transfers && Touches(PairOf(t), id) && Touches(PairOf(u), id) ::
      PairOf(t) == PairOf(u)
  }

  lemma {:induction false} SolePair(transfers: seq<Operation>, key: PairKey, id: BalanceId)
    requires forall t | t in transfers :: t.Transfer? && t.from != t.to
    requires Touches(key, id) && forall t | t in transfers && Touches(PairOf(t), id) :: PairOf(t) == key
    ensures Changes(transfers, id) == NetChange(key, Net(transfers, key), id)
  {
    if transfers != [] {
      var init, t := transfers[..|transfers| - 1], transfers[|transfers| - 1];
      assert t in transfers && forall o | o in init :: o in transfers;
      SolePair(init, key, id);
    }
  }

  lemma {:induction false} Untouched(keys: seq<PairKey>, transfers: seq<Operation>, id: BalanceId)
    requires forall t | t in transfers :: t.Transfer?
    requires forall k | k in keys :: !Touches(k, id)
    ensures NetChanges(keys, transfers, id) == 0
  {
    if keys != [] {
      assert keys[|keys| - 1] in keys && forall k | k in keys[..|keys| - 1] :: k in keys;
      Untouched(keys[..|keys| - 1], transfers, id);
    }
  }

  lemma FundedMore(l: Ledger, before: seq<Operation>, t: Operation)
    requires t.Transfer? && forall o | o in before :: o.Transfer?
    ensures Funded(l, before + [t]) <==>
      Funded(l, before) && (t.token in l.tokens ==> t.amount <= BalanceOf(ApplyAll(l, before).ledger, BalanceId(t.token, t.from)))
  {
    hide ApplyAll, BalanceOf;
    assert (before + [t])[..|before|] == before;
  }

  /** Settling one more pair is funded, too. */
  lemma NextFunded(l: Ledger, init: seq<PairKey>, k: PairKey, transfers: seq<Operation>)
    requires Sound(l) && (forall t | t in transfers :: t.Transfer? && t.from != t.to)
    requires NetsFit(transfers) && Isolated(transfers) && Funded(l, transfers)
    requires NoRepeat(init + [k]) && forall j | j in init + [k] :: j in StagedOf(transfers)
    requires (forall j | j in init :: j in StagedOf(transfers)) && k in StagedOf(transfers)
    requires forall t | t in Settlements(init, StagedOf(transfers)) :: t.Transfer? && t.from != t.to
    requires Funded(l, Settlements(init, StagedOf(transfers)))
    ensures forall t | t in Settlements(init, StagedOf(transfers)) + Settlement(k, StagedOf(transfers)[k]) :: t.Transfer?
    ensures Funded(l, Settlements(init, StagedOf(transfers)) + Settlement(k, StagedOf(transfers)[k]))
  {
    hide Sound, ApplyAll, NetsFit, Net, BalanceOf, Funded, Isolated, NoRepeat;
    var staged := StagedOf(transfers);
    var before := Settlements(init, staged);
    StagedExact(transfers);
    if staged[k] == 0 {
      assert before + Settlement(k, staged[k]) == before;
    } else {
      StagedBetweenDistinct(transfers);
      var t := Settlement(k, staged[k])[0];
      assert before + Settlement(k, staged[k]) == before + [t];
      if t.token in l.tokens {
        SourceFunded(l, init, k, transfers);
      }
      FundedMore(l, before, t);
    }
  }

  lemma {:induction false} SettlementsFunded(l: Ledger, keys: seq<PairKey>, transfers: seq<Operation>)
    requires Sound(l) && (forall t | t in transfers :: t.Transfer? && t.from != t.to)
    requires NetsFit(transfers) && Isolated(transfers) && Funded(l, transfers)
    requires NoRepeat(keys) && forall k | k in keys :: k in StagedOf(transfers)
    ensures forall t | t in Settlements(keys, StagedOf(transfers)) :: t.Transfer? && t.from != t.to
    ensures Funded(l, Settlements(keys, StagedOf(transfers)))
    decreases |keys|
  {
    hide Sound, ApplyAll, NetsFit, Net, BalanceOf, Isolated, Settlement;
    StagedBetweenDistinct(transfers);
    SettlementsBetweenDistinct(keys, StagedOf(transfers));
    if keys != [] {
      var init, k := keys[..|keys| - 1], keys[|keys| - 1];
      assert keys == init + [k];
      assert k in keys && forall j | j in init :: j in keys;
      SettlementsFunded(l, init, transfers);
      NextFunded(l, init, k, transfers);
    }
  }

  /** Of the pairs settled before, none touches an account of the next one. */
  lemma EarlierPairsApart(init: seq<PairKey>, k: PairKey, transfers: seq<Operation>, id: BalanceId)
    requires (forall t | t in transfers :: t.Transfer?) && Isolated(transfers)
    requires NoRepeat(init + [k]) && forall j | j in init + [k] :: j in StagedOf(transfers)
    requires Touches(k, id)
    ensures forall j | j in init :: !Touches(j, id)
    ensures forall t | t in transfers && Touches(PairOf(t), id) :: PairOf(t) == k
  {
    hide Touches;
    StagedIsNet(transfers);
    assert (init + [k])[|init|] == k && k in init + [k] && k in StagedOf(transfers);
    var w :| w in transfers && PairOf(w) == k;
    forall i | 0 <= i < |init| ensures !Touches(init[i], id) {
      assert (init + [k])[i] == init[i] && init[i] in init + [k] && init[i] in StagedOf(transfers);
      var u :| u in transfers && PairOf(u) == init[i];
      assert init[i] != k;
    }
  }

  /** The payer of an isolated pair still has its starting balance, which covers the net amount. */
  lemma SourceFunded(l: Ledger, init: seq<PairKey>, k: PairKey, transfers: seq<Operation>)
    requires Sound(l) && (forall t | t in transfers :: t.Transfer? && t.from != t.to)
    requires NetsFit(transfers) && Isolated(transfers) && Funded(l, transfers)
    requires NoRepeat(init + [k]) && forall j | j in init + [k] :: j in StagedOf(transfers)
    requires forall j | j in init :: j in StagedOf(transfers)
    requires forall t | t in Settlements(init, StagedOf(transfers)) :: t.Transfer? && t.from != t.to
    requires Funded(l, Settlements(init, StagedOf(transfers)))
    requires k in StagedOf(transfers) && StagedOf(transfers)[k] == Net(transfers, k) != 0
    requires k.first != k.second && k.token in l.tokens
    ensures var t := Settlement(k, StagedOf(transfers)[k])[0];
      t.amount <= BalanceOf(ApplyAll(l, Settlements(init, StagedOf(transfers))).ledger, BalanceId(t.token, t.from))
  {
    hide Sound, NetsFit, BalanceOf, Isolated;
    var t := Settlement(k, StagedOf(transfers)[k])[0];
    var id := BalanceId(t.token, t.from);
    EarlierPairsApart(init, k, transfers, id);
    Untouched(init, transfers, id);
    SolePair(transfers, k, id);
    SettlementsChange(init, transfers, id);
    TransfersAddUp(l, Settlements(init, StagedOf(transfers)));
    TransfersAddUp(l, transfers);
    assert Changes(transfers, id) == 0 - t.amount as int;
    assert BalanceOf(ApplyAll(l, transfers).ledger, id) == BalanceOf(l, id) - t.amount;
  }

  /** Netting never loses a funded batch in which every account has one counterpart per token. */
  lemma NettingKeepsIsolatedBatch(l: Ledger, ops: seq<SignedOperation>)
    requires Sound(l) && Verified(ops) && NetsFit(Transfers(ops)) && Isolated(Transfers(ops))
    requires Funded(ApplyAll(l, Mints(ops)).ledger, Transfers(ops))
    ensures Exec(l, ops).ledger.tokens == ExecOneByOne(l, ops).ledger.tokens
    ensures SameBalances(Exec(l, ops).ledger, ExecOneByOne(l, ops).ledger)
  {
    hide Sound, ApplyAll, Dropped, NetsFit, Isolated, Settlements, SameBalances, CancelOut, Exec, ExecOneByOne, StagedOf, Mints,
      Transfers, Changes, BalanceOf;
    MintsFirst(l, ops);
    VerifiedTransfers(ops);
    SettlementsFunded(ApplyAll(l, Mints(ops)).ledger, SortedKeys(StagedOf(Transfers(ops)).Keys), Transfers(ops));
    NettingKeepsIff(l, ops);
    NettingExact(l, ops);
  }

  lemma TwoKeys(j: PairKey, k: PairKey)
    requires Before(j, k)
    ensures SortedKeys({j, k}) == [j, k]
  {
    var r := SortedKeys({j, k});
    assert j in r && k in r;
    assert IsLeast(j, {j, k});
    assert Least({j, k}) == j;
    assert {j, k} - {j} == {k};
    SingleKey(k);
  }

  lemma TwoSettlements(j: PairKey, k: PairKey, staged: Staged)
    requires j in staged && k in staged
    ensures Settlements([j, k], staged) == Settlement(j, staged[j]) + Settlement(k, staged[k])
  {
    assert [j, k][..1] == [j] && [j][..0] == [];
    assert Settlements([j], staged) == Settlement(j, staged[j]);
  }

  lemma ForwardedNet(a: AccountId, b: AccountId, c: AccountId, token: TokenId, v: Balance)
    requires a < b < c && 0 < v < 0x8000_0000_0000_0000
    ensures NetTransfers([Transfer(c, a, token, v), Transfer(a, b, token, v)]) == [Transfer(a, b, token, v), Transfer(c, a, token, v)]
  {
    var t1, t2 := Transfer(c, a, token, v), Transfer(a, b, token, v);
    var j, k := PairKey(token, a, b), PairKey(token, a, c);
    assert [t1, t2][..1] == [t1] && [t1][..0] == [];
    assert StagedOf([t1]) == map[k := 0 - v as int];
    var staged := StagedOf([t1, t2]);
    assert staged == map[k := 0 - v as int, j := v];
    assert staged.Keys == {j, k};
    TwoKeys(j, k);
    TwoSettlements(j, k, staged);
  }

  /**
    A batch that netting does not keep: when a passes on to b what it receives from c, running the
    transfers one by one pays b, but the net transfer from a comes first in key order and is dropped.
  */
  lemma NettingDropsForwardedTransfer(a: AccountId, b: AccountId, c: AccountId, token: TokenId, v: Balance)
    requires a < b < c && 0 < v < 0x8000_0000_0000_0000
    ensures var l := Ledger(map[BalanceId(token, c) := v], [token]);
      var transfers := [Transfer(c, a, token, v), Transfer(a, b, token, v)];
      && Funded(l, transfers)
      && BalanceOf(ApplyAll(l, transfers).ledger, BalanceId(token, b)) == v
      && BalanceOf(ApplyAll(l, NetTransfers(transfers)).ledger, BalanceId(token, b)) == 0
  {
    hide Apply, ApplyAll, BalanceOf, NetTransfers, Dropped, Funded;
    var l := Ledger(map[BalanceId(token, c) := v], [token]);
    var t1, t2 := Transfer(c, a, token, v), Transfer(a, b, token, v);
    TwoSteps(l, t1, t2);
    TwoSteps(l, t2, t1);
    ForwardedNet(a, b, c, token, v);
    ForwardedSteps(l, a, b, c, token, v);
  }

  /** Through ascending accounts it is not: what a passes on to b and b to c arrives at c. */
  lemma NettingKeepsForwardedTransfer(a: AccountId, b: AccountId, c: AccountId, token: TokenId, v: Balance)
    requires a < b < c && 0 < v < 0x8000_0000_0000_0000
    ensures var l := Ledger(map[BalanceId(token, a) := v], [token]);
      BalanceOf(ApplyAll(l, NetTransfers([Transfer(a, b, token, v), Transfer(b, c, token, v)])).ledger, BalanceId(token, c)) == v
  {
    hide Apply, ApplyAll, BalanceOf, NetTransfers, Dropped, Funded;
    var l := Ledger(map[BalanceId(token, a) := v], [token]);
    var t1, t2 := Transfer(a, b, token, v), Transfer(b, c, token, v);
    ChainIsOrdered([t1, t2]);
    OrderedIsNet([t1, t2]);
    TwoSteps(l, t1, t2);
    PassedOn(l, a, b, c, token, v);
  }

  lemma PassedOn(l: Ledger, a: AccountId, b: AccountId, c: AccountId, token: TokenId, v: Balance)
    requires a < b < c && 0 < v && l == Ledger(map[BalanceId(token, a) := v], [token])
    ensures BalanceOf(Apply(Apply(l, Transfer(a, b, token, v)).ledger, Transfer(b, c, token, v)).ledger, BalanceId(token, c)) == v
  {
  }

  lemma ForwardedSteps(l: Ledger, a: AccountId, b: AccountId, c: AccountId, token: TokenId, v: Balance)
    requires a < b < c && 0 < v && l == Ledger(map[BalanceId(token, c) := v], [token])
    ensures var t1, t2 := Transfer(c, a, token, v), Transfer(a, b, token, v);
      && v <= BalanceOf(l, BalanceId(token, c)) && v <= BalanceOf(Apply(l, t1).ledger, BalanceId(token, a))
      && BalanceOf(Apply(Apply(l, t1).ledger, t2).ledger, BalanceId(token, b)) == v
      && BalanceOf(Apply(Apply(l, t2).ledger, t1).ledger, BalanceId(token, b)) == 0
  {
  }

  lemma TwoSteps(l: Ledger, t: Operation, u: Operation)
    requires t.Transfer? && u.Transfer?
    ensures ApplyAll(l, [t, u]).ledger == Apply(Apply(l, t).ledger, u).ledger
    ensures Funded(l, [t, u]) <==>
      && (t.token in l.tokens ==> t.amount <= BalanceOf(l, BalanceId(t.token, t.from)))
      && (u.token in l.tokens ==> u.amount <= BalanceOf(Apply(l, t).ledger, BalanceId(u.token, u.from)))
  {
    hide Apply, BalanceOf;
    assert [t, u][..1] == [t] && [t][..0] == [] && [] + [t] == [t] && [t] + [u] == [t, u];
    assert ApplyAll(l, []).ledger == l && Funded(l, []);
    assert ApplyAll(l, [t]).ledger == Apply(l, t).ledger;
    FundedMore(l, [], t);
    FundedMore(l, [t], u);
  }
}
