/** Accumulation: the on-chain root advances only along an unbroken chain of root changes. */
module Accumulation {
  import opened Wrappers
  import opened Hashing

  /** The decoded output of a work item: the root it starts from and the root it leads to. */
  datatype RootChange = RootChange(previousRoot: Hash, newRoot: Hash)

  /** What accumulation receives: a transfer, a failed work item, an output that does not decode, or a root change. */
  datatype Item =
    | TransferItem
    | Failed
    | Undecodable
    | Output(change: RootChange)

  /** The state between items: no change seen, a root to continue from, or a mismatch. */
  datatype Pending = Nothing | At(root: Hash) | Mismatch

  function RootChanges(items: seq<Item>): seq<RootChange> {
    if items == [] then []
    else
      var item := items[|items| - 1];
      RootChanges(items[..|items| - 1]) + if item.Output? then [item.change] else []
  }

  /** The root before change i, if all changes before it apply. */
  function RootBefore(root: Hash, changes: seq<RootChange>, i: nat): Hash
    requires i <= |changes|
  {
    if i == 0 then root else changes[i - 1].newRoot
  }

  /** Each change starts where the one before it ends, the first one at the given root. */
  ghost predicate Chain(root: Hash, changes: seq<RootChange>) {
    forall i | 0 <= i < |changes| :: changes[i].previousRoot == RootBefore(root, changes, i)
  }

  ghost function RootAfter(root: Hash, changes: seq<RootChange>): Hash {
    if Chain(root, changes) then RootBefore(root, changes, |changes|) else root
  }

  /** The key/value storage of the service, reduced to the "client_root" entry. */
  class Storage {
    var clientRoot: Option<Hash>

    constructor ()
      ensures clientRoot == None && Root() == EMPTY_HASH
    {
      clientRoot := None;
    }

    function Root(): Hash
      reads this
    {
      clientRoot.GetOr(EMPTY_HASH)
    }
  }

  /** The pending state stands for the changes seen so far, starting from the stored root. */
  ghost predicate Represents(acc: Pending, root: Hash, changes: seq<RootChange>) {
    && (acc.Nothing? <==> changes == [])
    && (acc.Mismatch? <==> !Chain(root, changes))
    && (acc.At? ==> acc.root == RootAfter(root, changes))
  }

  /** Takes one more change into account. */
  method OnWorkItemRecordSingleStep(storage: Storage, change: RootChange, acc: Pending, ghost changes: seq<RootChange>)
      returns (r: Pending)
    requires Represents(acc, storage.Root(), changes)
    ensures Represents(r, storage.Root(), changes + [change])
  {
    ChainMore(storage.Root(), changes, change);
    if acc.Mismatch? {
      return acc;
    }
    var currentRoot := if acc.At? then acc.root else storage.Root();
    if change.previousRoot == currentRoot {
      return At(change.newRoot);
    } else {
      return Mismatch;
    }
  }

  /**
    All or nothing: the root moves to the end of the chain when the decoded outputs are one
    unbroken chain from the stored root, and stays otherwise.
  */
  method OnAccumulateItems(storage: Storage, items: seq<Item>)
    modifies storage
    ensures storage.Root() == RootAfter(old(storage.Root()), RootChanges(items))
    ensures storage.Root() == old(storage.Root()) ==> storage.clientRoot == old(storage.clientRoot)
  {
    var acc := Nothing;
    for i := 0 to |items|
      invariant storage.clientRoot == old(storage.clientRoot)
      invariant Represents(acc, storage.Root(), RootChanges(items[..i]))
    {
      assert items[..i + 1][..i] == items[..i];
      ghost var before := RootChanges(items[..i]);
      assert RootChanges(items[..i + 1]) == before + if items[i].Output? then [items[i].change] else [];
      assert before + [] == before;
      match items[i]
      case TransferItem =>
      case Failed =>
      case Undecodable =>
      case Output(change) =>
        acc := OnWorkItemRecordSingleStep(storage, change, acc, before);
    }
    assert items[..|items|] == items;
    if acc.At? {
      if storage.Root() != acc.root {
        storage.clientRoot := Some(acc.root);
      }
    }
  }

  /** A chain grows by a change that starts at its end. */
  lemma ChainMore(root: Hash, changes: seq<RootChange>, change: RootChange)
    ensures Chain(root, changes + [change]) <==> Chain(root, changes) && change.previousRoot == RootAfter(root, changes)
    ensures Chain(root, changes + [change]) ==> RootAfter(root, changes + [change]) == change.newRoot
  {
    var more := changes + [change];
    if Chain(root, more) {
      forall i | 0 <= i < |changes| ensures changes[i].previousRoot == RootBefore(root, changes, i) {
        assert more[i] == changes[i] && RootBefore(root, more, i) == RootBefore(root, changes, i);
      }
      assert more[|changes|] == change;
    }
  }

  /** Accumulating two chains one after the other is accumulating them in one go, when both are accepted. */
  lemma ChainConcat(root: Hash, a: seq<RootChange>, b: seq<RootChange>)
    requires Chain(root, a)
    ensures Chain(root, a + b) <==> Chain(RootAfter(root, a), b)
    ensures Chain(root, a + b) ==> RootAfter(root, a + b) == RootAfter(RootAfter(root, a), b)
    decreases |b|
  {
    if b == [] {
      assert a + b == a;
    } else {
      var init, last := b[..|b| - 1], b[|b| - 1];
      assert b == init + [last] && a + b == (a + init) + [last];
      ChainConcat(root, a, init);
      ChainMore(root, a + init, last);
      ChainMore(RootAfter(root, a), init, last);
    }
  }
}
