# A verified model of the token ledger

The repository's second ledger keeps balances outside the chain, in a sparse Merkle tree with 2^15
leaves. A builder runs a batch of operations on its full state and records a witness of every access.
Refinement rebuilds a partial state from the witness, replays the batch and reports the roots before
and after. Accumulation moves one on-chain root along reports that fit it. This project models these
parts in Dafny and proves how they fit together. `dafny verify dfyconfig.toml` checks everything.

The main results, in the order in which they build on each other:

1. The leaf-to-root loop over the flat index space maintains the recursive Merkle hash of every node
   (`Merkle.InsertRefines`), and the root determines entries, hashes and token list
   (`Transitions.RootDeterminesState`). Writing a balance at an index beyond the leaves, which the
   program's mask allows, gives a tree of no leaf map at all (`Merkle.InsertIsTreeIff`).
2. Replaying a batch from its recorded witness is exact: for every batch on a valid state the witness is
   accepted exactly when the batch reads back no leaf it created, and then replay ends in the root of the
   full state (`Transitions.StatelessReplay`). A recording made on any other state either does not have
   the root of a valid one, or replays as on that one (`Transitions.AnyRecordingReplays`). What witnesses
   that nobody recorded can answer is characterised exactly (`Membership.AnsweredIff`): for balances, the
   entries and nothing else.
3. The chain's root is always the root of one linear accepted history, with any number of builders on
   any states, stale ones included, and any interleaving of steps (`Protocol.LinearHistory`), and that history
   conserves every token's supply (`Protocol.CommittedSupply`), as long as accepted batches start from
   states with their entries at leaves. A complete run shows that the condition is needed
   (`Divergence.RootDeparts`).
4. Which transfers netting runs and in which order (`Netting.NetTransfersAre`,
   `Netting.NetTransfersAscend`), and what that does to the meaning of a batch, exactly
   (`Netting.NettingExact`, `Netting.NettingKeepsIff`); it does not depend on their order (`Transitions.OrderIndependentState`) and
   agrees with the first version of the service (`ServiceV1.RefineAndAccumulate`).

## Reading guide

| file | content |
|---|---|
| Hashing, Keys, Numbering | symbolic hashes, storage keys and leaf indices, the flat numbering |
| Merkle, StateTrees | the hash map and the keyed store: specification, objects, theorems |
| Ledgers, Supply, Netting | batches on an abstract ledger, conservation, netting |
| Recording, Witnesses, Replay, Transitions | accesses on a store, what is recorded, loading, stateless replay |
| Membership | which values a loaded witness can answer with |
| States, Batches | the mutable state objects, the loops of a batch, builder session, refinement |
| Accumulation, Refinement, Protocol | root changes, outcomes, the whole service as a state machine |
| Divergence | a run in which an index beyond the leaves separates root and history |
| ServiceV1 | filter, netting and storage of the first version |

How the model reads the program:

- A digest is the term that was hashed; no collisions of the hash function are modelled. The program
  hashes pairs of nodes, values with keys, and lists of tokens alike, so the model gives one digest to
  inputs of the same 64 bytes: a pair, a value with a 32-byte key, a list of two words. A key is
  therefore `Raw`, or a `Block` when it is 32 bytes long; balance keys are 40 bytes long and raw.
- The digest of a key selects its leaf. The first two digest bytes are an arbitrary function of the key,
  a parameter of every theorem.
- Two keys may select the same leaf. A read then answers "absent", as in the program; a write aborts the
  program, which the model returns as `None` or `false`. Refinement and replay theorems cover both, and
  `Transitions.TransitionSucceeds` says exactly when a batch aborts.
- Signed 64-bit arithmetic wraps around, as in a release build. A build with overflow checks aborts
  where `Netting.NetsFit`, or a partial sum, fails.
- An account is its 32 bytes read as a big-endian number, so numeric order is the order of the arrays.
- The program's two state types, with and without a recorder, are one class whose recorder may be absent.
  The batch code is generic over them in the program and is written once here.
- Maps handed out as lists carry no promise about their order; theorems hold for every order.
- A signed operation carries the outcome of its signature checks as two booleans.
- A builder's state is any state that some batches make from genesis, accepted or not, and its batches
  may name any balance.

Where the program departs from what it says or promises, the model follows the program:

- The mask on the digest is described as giving a 15-bit index, but clears bit 8 instead of bit 15, so
  indices beyond the leaves occur (`Keys.IndexIsLeaf`). `Merkle.InsertIsTreeIff`, `StateTrees.SetValid`
  and `Transitions.ExecuteValid` say exactly when a write, a set and a run leave a Merkle tree.
  `StateTrees.RootForgetsEntry`, `StateTrees.RootDependsOnOrder` and `StateTrees.RootHidesEntry` are
  failures of the store, `Divergence.RootDeparts` is one of the chain. Replay and the membership of
  balances do not need the range.
- Nothing that is hashed says whether it is a leaf or an inner node. A witness can therefore bring the
  value 0 under a 32-byte key that is the hash of a node: `Membership.EntryHashPasses` is a case,
  `Membership.NodeHoldsIff` gives the condition. No balance has such a key.
- A key created and then read in the same batch is recorded with the value it has when read, which makes
  its witness unacceptable; `Transitions.StatelessReplay` says exactly when, and by
  `Transitions.MintAndSpendIsRejected` minting and spending a token in one batch is such a case.
  `Transitions.BatchIsReplayable` is a condition under which it does not happen.
- Amounts from 2^63 on change sign when staged: `Netting.StagedExact`, `Netting.HugeTransferFlips`.
- Netting can drop a payment that one-by-one execution makes (`Netting.NettingDropsForwardedTransfer`);
  `Netting.NettingKeepsIff` says exactly when it keeps a batch.
- The tutorial text says refinement skips signature checks; version 2 rejects a batch on a bad signature.
- Version 1 matches an operation that the shared enum does not have; that arm is not part of this model.

## Model

| member | source | states |
|---|---|---|
| Hashing.HashPairInjective | services_tutorial/v2/token-ledger-state-v2/src/lib.rs:44-49 | equal pair hashes have equal halves, the empty pair included |
| Hashing.TokensHashInjective | services_tutorial/v2/token-ledger-state-v2/src/merkle.rs:238-246 | the hash of the known-token list determines the list, for lists of every length, the empty one included |
| Hashing.LeafHashInjective | services_tutorial/v2/token-ledger-state-v2/src/merkle.rs:284-288 | the hash of a stored value determines value and key; it is never a bare word, and it is never the hash of a pair of nodes unless the key is 32 bytes long |
| Numbering.RunningOffset | services_tutorial/v2/token-ledger-state-v2/src/merkle.rs:58-67 | the running offset of the climb is the start of each level: it grows by the size of the level and ends at the root index |
| Numbering.ParentSlot | services_tutorial/v2/token-ledger-state-v2/src/merkle.rs:59-68 | the flat index alone decides where a climb goes: from an index that is node q of level e it reads that node's sibling and goes to that node's parent, also when the climb counts another level |
| Numbering.SlotInjective | services_tutorial/v2/token-ledger-state-v2/src/merkle.rs:55-71 | two nodes share an index if and only if they are the same node of the same level: level ranges are disjoint |
| Numbering.Locate | services_tutorial/v2/token-ledger-state-v2/src/merkle.rs:24-25 | every index below TREE_HASHES is the index of a node |
| Numbering.ClimbEnd | services_tutorial/v2/token-ledger-state-v2/src/merkle.rs:70 | a climb ends at the root index if and only if the leaf index is below TREE_SIZE; from any other index it ends at TREE_HASHES, which is no node |
| Merkle.MerkleTree.Insert | services_tutorial/v2/token-ledger-state-v2/src/merkle.rs:55-71 | the in-place loop computes the recursive climb and turns a node-consistent tree into one that is node-consistent with the leaves updated at the index |
| Merkle.InsertRefines | services_tutorial/v2/token-ledger-state-v2/src/merkle.rs:55-71 | after an insert below TREE_SIZE every node reads as the recursive Merkle hash over the updated leaf map, and so does the root |
| Merkle.InsertWrites | services_tutorial/v2/token-ledger-state-v2/src/merkle.rs:55-71 | an insert leaves every node off its path as it was, stores every node on it and removes nothing |
| Merkle.InsertSparse | services_tutorial/v2/token-ledger-state-v2/src/merkle.rs:55-71 | the stored indices stay nodes with non-empty hashes if and only if the leaf index is below TREE_SIZE |
| Merkle.InsertConsistent | services_tutorial/v2/token-ledger-state-v2/src/merkle.rs:55-71 | an insert below TREE_SIZE keeps the tree consistent with the updated leaves; after an insert at any other index the hashes are consistent with no leaf map at all |
| Merkle.InsertIsTreeIff | services_tutorial/v2/token-ledger-state-v2/src/merkle.rs:55-71 | writing a value with a raw key at any index that the mask can give yields a tree whose node hashes, or just whose root, are those of some leaf map if and only if the index is below TREE_SIZE |
| Merkle.InsertKeepsRootIff | services_tutorial/v2/token-ledger-state-v2/src/merkle.rs:55-71 | in a tree of leaves, writing any hash at any node keeps the root if and only if it is the hash that the node has; then it keeps every node |
| Merkle.RootForgetsLeaf | services_tutorial/v2/token-ledger-state-v2/src/lib.rs:51-56 | a concrete failure beyond the range: after a write at index TREE_SIZE the root is the same whatever leaf 0 holds |
| Merkle.LeafZeroHeals | services_tutorial/v2/token-ledger-state-v2/src/merkle.rs:55-71 | over any hashes, a write at leaf 0 covers an earlier write at TREE_SIZE: every node and the root read as if that had not happened |
| Merkle.LeavesDetermineHashes | services_tutorial/v2/token-ledger-state-v2/src/merkle.rs:36-38 | two consistent trees over the same leaves have the same hash map, node by node, whatever inserts made them |
| Merkle.RootDeterminesLeaves | services_tutorial/v2/token-ledger-state-v2/src/merkle.rs:51-53 | two leaf maps have the same recursive root if and only if they are equal |
| Merkle.InsertProvesNode | services_tutorial/v2/token-ledger-state-v2/src/merkle.rs:55-71 | if writing a hash at any node over arbitrary stored hashes yields the root of a leaf map, it is that map's Merkle hash of the node |
| Merkle.InsertProvesLeaf | services_tutorial/v2/token-ledger-state-v2/src/merkle.rs:55-71 | if that is the hash of a value with a raw key, the node is a leaf and the map holds this value there |
| Merkle.RootDeterminesNodes | services_tutorial/v2/token-ledger-state-v2/src/merkle.rs:55-71 | hashes that values with raw keys have left, written at any indices in any order, have the root of a leaf map if and only if every node has that map's hash |
| Merkle.InsertAgrees | services_tutorial/v2/token-ledger-state-v2/src/merkle.rs:59-68 | trees that agree at the nodes beside a path agree, after the same insert there, at every node of the path and at every node where they agreed before |
| Merkle.InsertAgain | services_tutorial/v2/token-ledger-state-v2/src/merkle.rs:55-71 | inserting the leaf that a consistent tree already holds leaves the hash map as it is |
| Keys.BalanceKeyInjective | services_tutorial/token-ledger-common/src/lib.rs:230-244 | two balances have the same 40-byte storage key if and only if token and account are equal |
| Keys.BalanceKeyLayout | services_tutorial/token-ledger-common/src/lib.rs:230-244 | where each byte of the key comes from: the prefix, the token low byte first, the account high byte first |
| Keys.IndexIsLeaf | services_tutorial/v2/token-ledger-state-v2/src/lib.rs:51-56 | the masked digest is a leaf index if and only if its second byte is below 128; bytes 0 and 128 select TREE_SIZE |
| Keys.IndexSeparates | services_tutorial/v2/token-ledger-state-v2/src/lib.rs:51-56 | two digests select the same index if and only if they agree in the first byte and in all but the lowest bit of the second; the index is these bits in little-endian order, and an empty key has that of two zero bytes |
| StateTrees.SetLookup | services_tutorial/v2/token-ledger-state-v2/src/merkle.rs:169-205 | on any store, a successful set changes the answer for its key to the new value and for no other key, keys at the same leaf included |
| StateTrees.SetValid | services_tutorial/v2/token-ledger-state-v2/src/merkle.rs:190-205 | a successful set of a valid store gives a valid store if and only if the key selects an index below TREE_SIZE, and for other raw keys not even the root is that of any leaf map; for every key the root stays if and only if the node has the hash of the value already |
| StateTrees.EntriesDetermineTree | services_tutorial/v2/token-ledger-state-v2/src/merkle.rs:152-158 | valid stores are equal, hashes included, if and only if their entries are |
| StateTrees.RootDeterminesTree | services_tutorial/v2/token-ledger-state-v2/src/merkle.rs:207-209 | valid stores have the same root if and only if they hold the same entries and the same hashes |
| StateTrees.RootForgetsEntry | services_tutorial/v2/token-ledger-state-v2/src/merkle.rs:190-205 | a concrete failure: with a key at index TREE_SIZE, stores with different entries have the same root |
| StateTrees.RootDependsOnOrder | services_tutorial/v2/token-ledger-state-v2/src/merkle.rs:190-205 | a concrete failure: setting keys at leaf 0 and at TREE_SIZE in either order gives equal entries and different roots |
| StateTrees.RootHidesEntry | services_tutorial/v2/token-ledger-state-v2/src/merkle.rs:190-205 | a concrete failure: a store with an entry at TREE_SIZE has the root of a valid store without it |
| StateTrees.RestoreRoundTrip | services_tutorial/v2/token-ledger-builder-v2/src/state.rs:263-282 | loading the saved entries of any store, in whatever order they were listed, gives back the same entries, and for a valid store the same hashes and root |
| StateTrees.CollidingEntrySkipped | services_tutorial/v2/token-ledger-builder-v2/src/state.rs:263-274 | a saved entry whose leaf another key has taken is passed over and the rest restored |
| Membership.WitnessValuesAreMembers | services_tutorial/v2/token-ledger-state-v2/src/merkle.rs:211-230 | whatever a witness lists, if it loads and has the root of a full store, then each value it answers with is that key's value in the full store or passes for an inner node |
| Membership.NodeHoldsIff | services_tutorial/v2/token-ledger-state-v2/src/merkle.rs:284-288 | the node that a key selects has the hash of a value if and only if this is the key's entry, or the value is 0, the node's left child is empty and the key is the hash of its right child |
| Membership.AnsweredIff | services_tutorial/v2/token-ledger-state-v2/src/merkle.rs:211-230 | exact membership, for every key: some witness with the root of a full store answers the key with the value if and only if this is the key's entry or passes for an inner node |
| Membership.RawValuesAreMembers | services_tutorial/v2/token-ledger-state-v2/src/merkle.rs:211-230 | for keys that are not 32 bytes long, all balances included, the answers of witnesses with that root are exactly the entries |
| Membership.EntryHashPasses | services_tutorial/v2/token-ledger-state-v2/src/merkle.rs:284-288 | a concrete failure: next to one entry at leaf 1, its 32-byte hash taken as a key that selects TREE_SIZE is answered with 0 and is no entry |
| StateTrees.StateTree.GetValue | services_tutorial/v2/token-ledger-state-v2/src/merkle.rs:169-187 | the lookup compares the stored key: a key whose leaf is empty or taken by another key has no value |
| StateTrees.StateTree.Set | services_tutorial/v2/token-ledger-state-v2/src/merkle.rs:189-205 | fails exactly when another key sits at the leaf, and then changes neither entries nor hashes; otherwise updates both |
| StateTrees.StateTree.InitFromWitness | services_tutorial/v2/token-ledger-state-v2/src/merkle.rs:211-230 | loads the listed hashes, then sets the values one by one and gives up at the first one that changes the root |
| StateTrees.LastListedHash | services_tutorial/v2/token-ledger-state-v2/src/merkle.rs:216-219 | an index that a witness lists more than once reads as it was listed last |
| StateTrees.CollidingValueIgnored | services_tutorial/v2/token-ledger-state-v2/src/merkle.rs:221-227 | a listed value whose leaf an earlier listed key has taken is passed over: the witness loads, or not, exactly as without it |
| Ledgers.VerifyOperations | services_tutorial/v2/token-ledger-state-v2/src/transition.rs:51-107 | true if and only if every operation has a valid signature and a non-zero amount, and every transfer also a valid signer and two different accounts |
| Ledgers.OperationAccesses | services_tutorial/v2/token-ledger-state-v2/src/transition.rs:154-215 | what each operation reads and writes, in order: nothing for a known token to mint or an unknown one to transfer, the source alone when it holds too little, otherwise all its balances, read first and then written with what they hold afterwards |
| Ledgers.MintsInOrder | services_tutorial/v2/token-ledger-state-v2/src/transition.rs:117-132 | the mints of a batch are the operations at exactly the positions of its mints, in its order |
| Ledgers.TransfersInOrder | services_tutorial/v2/token-ledger-state-v2/src/transition.rs:133-140 | the staged transfers are the operations at exactly the positions of its transfers, in its order |
| Supply.NeverSaturates | services_tutorial/v2/token-ledger-state-v2/src/transition.rs:162-164 | on a sound ledger the saturating additions of mints and transfers are exact |
| Netting.ApplyEffect | services_tutorial/v2/token-ledger-state-v2/src/transition.rs:154-215 | on a sound ledger a first mint credits its receiver, a funded transfer of a known token debits and credits its two accounts, and nothing else changes, in exact arithmetic |
| Supply.RunListsTokensOnce | services_tutorial/v2/token-ledger-state-v2/src/merkle.rs:248-253 | a run lists every known token once and never drops one |
| Supply.ApplyConserves | services_tutorial/v2/token-ledger-state-v2/src/transition.rs:154-215 | an operation between distinct accounts changes no supply, except that the first mint of a token creates its amount; soundness is kept |
| Supply.TransferConservesIff | services_tutorial/v2/token-ledger-state-v2/src/transition.rs:99-102 | a transfer that goes through keeps the supply if and only if its accounts differ or the balance is at the 64-bit limit |
| Supply.ExecConserves | services_tutorial/v2/token-ledger-state-v2/src/transition.rs:112-152 | a batch without self-transfers keeps the supply of known tokens and gives each new token its first mint, also when net amounts wrap around |
| Supply.HistoryConserves | services_tutorial/v2/token-ledger-state-v2/src/transition.rs:112-215 | over every history of verified batches from the empty ledger, each token's balances add up to its first mint and the known tokens are the minted ones |
| Netting.StagedIsNet | services_tutorial/v2/token-ledger-state-v2/src/transition.rs:134-140 | the staged map has an entry for exactly the pairs of the batch, equal to the exact net amount modulo 2^64 |
| Netting.StagedExact | services_tutorial/token-ledger-common/src/lib.rs:121-139 | the staged amounts are the exact net amounts if and only if all of these fit in an i64, whatever the partial sums do |
| Netting.HugeTransferFlips | services_tutorial/token-ledger-common/src/lib.rs:125-139 | a concrete failure beyond that bound: one transfer of 2^63 is settled in the opposite direction |
| Netting.NetTransfersAscend | services_tutorial/v2/token-ledger-state-v2/src/transition.rs:144-151 | net transfers run by token, then by the smaller of their two accounts, then by the larger one, and never two for one pair |
| Netting.NetTransfersAre | services_tutorial/v2/token-ledger-state-v2/src/transition.rs:144-151 | the net transfers of a batch are exactly those that move a positive amount and just the net amount of their pair as an i64, so none for a net of zero |
| Netting.OrderIndependent | services_tutorial/v2/token-ledger-state-v2/src/transition.rs:112-152 | a batch run, with all its reads and writes, depends only on the sequence of mints and the multiset of transfers |
| Netting.NetTransfersChange | services_tutorial/v2/token-ledger-state-v2/src/transition.rs:134-151 | net transfers make the same change to every balance as the transfers they replace, when the net amounts fit |
| Netting.NettingExact | services_tutorial/v2/token-ledger-state-v2/src/transition.rs:112-152 | for every verified batch whose net amounts fit, batch and one-by-one reference end with the same tokens, and each balance differs by exactly what the two runs dropped for lack of funds |
| Netting.NettingKeepsIff | services_tutorial/v2/token-ledger-state-v2/src/transition.rs:144-151 | a batch that is funded one by one ends with the same balances when netted if and only if the settlements that netting drops cancel out for every balance; so it does when none is dropped |
| Netting.NettingKeepsIsolatedBatch | services_tutorial/v2/token-ledger-state-v2/src/transition.rs:144-151 | a batch that is funded one by one and in which every account has one counterpart per token ends with the same balances when netted |
| Netting.NettingKeepsOrderedBatch | services_tutorial/v2/token-ledger-state-v2/src/transition.rs:144-151 | netting has no effect at all, on accesses, balances or drops, on a batch whose transfers are in settling order already, funded or not |
| Netting.NettingKeepsAscendingChain | services_tutorial/v2/token-ledger-state-v2/src/transition.rs:144-151 | a chain of payments that is passed on through ascending accounts, of any length, is such a batch |
| Netting.NettingDropsForwardedTransfer | services_tutorial/v2/token-ledger-state-v2/src/transition.rs:144-151 | a concrete batch, funded one by one, in which a forwarded payment is dropped when netted |
| Netting.NettingKeepsForwardedTransfer | services_tutorial/v2/token-ledger-state-v2/src/transition.rs:144-151 | its counterpart: what a passes on to b and b to c, with a, b, c ascending, arrives at c |
| Recording.RecorderIsPassive | services_tutorial/v2/token-ledger-builder-v2/src/state.rs:284-319 | runs with and without a recorder abort alike and end in the same store |
| Recording.ContentsOfSet | services_tutorial/v2/token-ledger-state-v2/src/merkle.rs:132-137 | setting a balance updates the map of balances that the store answers for at that balance only |
| Recording.ExecuteContents | services_tutorial/v2/token-ledger-state-v2/src/merkle.rs:122-137 | the Merkle-backed store implements a map of balances over every run of reads and writes |
| Witnesses.RunRecordsHashes | services_tutorial/v2/token-ledger-builder-v2/src/state.rs:209-241 | over any run, every recorded hash is the initial hash of its index and non-empty, for every balance accessed all initially non-empty siblings of its path are recorded, and apart from the root nothing else is |
| Witnesses.RunRecords | services_tutorial/v2/token-ledger-builder-v2/src/state.rs:284-303 | over any run that reads before it writes, recorded values of initial entries are the initial ones, and a value without an initial entry is recorded if and only if a leaf is read after the run created it |
| Replay.LoadMember | services_tutorial/v2/token-ledger-state-v2/src/merkle.rs:221-227 | setting an entry of the full store in a part of it recomputes only hashes of the full store and keeps the root |
| Replay.LoadStranger | services_tutorial/v2/token-ledger-state-v2/src/merkle.rs:221-227 | setting a value where the full store has no entry, beyond the leaves included, changes the root if the key is raw; for any key, where the siblings are known, it keeps the root if and only if the node has the hash of the value |
| Replay.LoadRecording | services_tutorial/v2/token-ledger-state-v2/src/merkle.rs:211-230 | a witness recorded on any store whose nodes have the hashes of its entries at leaves loads if and only if the run read back no leaf it created and read no entry beyond the leaves; the loaded store is a part of the full one |
| Replay.ExecuteAlike | services_tutorial/v2/token-ledger-state-v2/src/merkle.rs:127-137 | stores that look alike at the leaves and beside the paths of a run abort alike and stay alike, roots included |
| Transitions.RootParts | services_tutorial/v2/token-ledger-state-v2/src/merkle.rs:105-107 | the state root is the digest of the tree root and the token-list hash, in this order, and empty exactly for the empty state |
| Transitions.RootDeterminesState | services_tutorial/v2/token-ledger-state-v2/src/merkle.rs:105-107 | valid states have the same root if and only if they have the same entries, hashes and token list |
| Transitions.TransitionIsExec | services_tutorial/v2/token-ledger-state-v2/src/transition.rs:112-152 | a batch that does not abort on the Merkle-backed state has exactly the abstract ledger's result |
| Transitions.AccessesNamed | services_tutorial/v2/token-ledger-state-v2/src/transition.rs:117-151 | a batch, netting included, reads and writes no balance that none of its operations names |
| Transitions.TransitionSucceeds | services_tutorial/v2/token-ledger-state-v2/src/merkle.rs:132-137 | a batch aborts the program, with or without a recorder, if and only if a leaf that it writes holds another key or two balances that it writes share a leaf |
| Transitions.BatchSucceeds | services_tutorial/v2/token-ledger-state-v2/src/merkle.rs:132-137 | decided before the run: if the balances that a batch names select pairwise distinct leaves, each empty or held by its balance, the batch does not abort |
| Transitions.ExecuteValid | services_tutorial/v2/token-ledger-state-v2/src/merkle.rs:190-205 | a run on a valid store ends in a valid one if and only if all its writes are to leaves; any other write shows in an entry beyond the leaves and in a hash at index TREE_HASHES, whatever is written later |
| Transitions.TransitionValid | services_tutorial/v2/token-ledger-state-v2/src/transition.rs:112-152 | a batch keeps a valid state valid, and all its entries at leaves, if and only if it writes to leaves only |
| Transitions.BatchStaysWithinLeaves | services_tutorial/v2/token-ledger-state-v2/src/transition.rs:112-152 | decided before the run: a batch all of whose balances select leaves keeps entries at leaves |
| Transitions.OrderIndependentState | services_tutorial/v2/token-ledger-state-v2/src/transition.rs:112-152 | reordering transfers and moving them across mints changes neither state, root, abort nor what is recorded |
| Transitions.HistoryIndependent | services_tutorial/v2/token-ledger-builder-v2/src/state.rs:313-319 | runs of writes that end in the same balances end in the same entries, and if these are at leaves in the same hash map and root |
| Transitions.WitnessExact | services_tutorial/v2/token-ledger-builder-v2/src/state.rs:84-91 | a witness holds exactly the initially non-empty hashes of the root and of the nodes beside the paths of the balances accessed, and, unless something is read back, exactly the entries that were read |
| Transitions.StatelessReplay | services_tutorial/v2/token-ledger-builder-v2/src/state.rs:284-353 | for every batch on a valid state, the recorded witness is accepted if and only if the batch reads back no leaf it created; then the partial state has the initial root, the batch does not abort on it, and the final roots are equal |
| Transitions.MintAndSpendIsRejected | services_tutorial/v2/token-ledger-builder-v2/src/state.rs:290-296 | on any valid state, a batch that mints an unknown token to an account with an empty leaf and, after netting, transfers that token from that account has a witness that is always rejected |
| Transitions.SkippedOperation | services_tutorial/v2/token-ledger-state-v2/src/transition.rs:154-182 | in any run, an operation that mints a token known by then or transfers one unknown by then changes and accesses nothing |
| Transitions.BatchIsReplayable | services_tutorial/v2/token-ledger-builder-v2/src/state.rs:284-353 | decided before the run: if the balances of a batch are apart, and no balance without an entry is named by more than one mint or settlement that is not skipped for its token, the batch goes through and its witness is accepted |
| Transitions.RootDeterminesLeafPart | services_tutorial/v2/token-ledger-state-v2/src/merkle.rs:190-205 | a store that sets of balances made, at any indices, and that has the root of a valid store agrees with it at every node and in every entry at a leaf |
| Transitions.AnyRecordingReplays | services_tutorial/v2/token-ledger-builder-v2/src/state.rs:284-353 | a witness recorded on any state that sets made, valid or not, which loads with the root of a valid state replays the batch as on that valid state: neither aborts, and the final roots are equal |
| States.TreeRecorder.RecordWitnessHash | services_tutorial/v2/token-ledger-builder-v2/src/state.rs:209-221 | records the initial hash when neither it nor the present hash is empty, and returns the present hash |
| States.TreeRecorder.RecordWitnessAccess | services_tutorial/v2/token-ledger-builder-v2/src/state.rs:227-241 | the path loop records the sibling of every level below the root |
| States.State.FromWitness | services_tutorial/v2/token-ledger-state-v2/src/merkle.rs:90-103 | a partial state from a witness, or nothing when the values do not load |
| States.State.Get | services_tutorial/v2/token-ledger-builder-v2/src/state.rs:284-311 | answers like the plain store and records path and entry found, also when the entry is another key's |
| States.State.SetBalance | services_tutorial/v2/token-ledger-builder-v2/src/state.rs:185-190 | one write of the machine; false, which aborts the program, exactly when another key sits at the leaf |
| States.State.TakeWitness | services_tutorial/v2/token-ledger-builder-v2/src/state.rs:84-91 | hands out all recorded hashes and values and the tokens as they were, and starts a fresh recording |
| States.State.FromStream | services_tutorial/v2/token-ledger-builder-v2/src/state.rs:263-274 | restores the entries into a state whose recorder starts from the restored hashes |
| States.State.Serialize | services_tutorial/v2/token-ledger-builder-v2/src/state.rs:276-282 | lists the value of every entry exactly once |
| Batches.ProcessMint | services_tutorial/v2/token-ledger-state-v2/src/transition.rs:154-165 | performs the accesses of a mint on the state object and has its ledger result, or aborts when they abort |
| Batches.ProcessTransfer | services_tutorial/v2/token-ledger-state-v2/src/transition.rs:176-206 | performs the accesses of a transfer on the state object and has its ledger result, or aborts when they abort |
| Batches.StateTransition | services_tutorial/v2/token-ledger-state-v2/src/transition.rs:112-152 | the two loops over a state object compute the transition of its value, with or without a recorder, and abort exactly when it aborts |
| Batches.ComputeTransitionWitness | services_tutorial/v2/token-ledger-builder-v2/src/main.rs:618-640 | root, batch, witness, root: what the builder hands out is the witness of the batch on its previous state, and it is ready for the next batch, with the new root hash recorded |
| Batches.RefineTransition | services_tutorial/v2/token-ledger-service-v2/src/refinement.rs:57-226 | every branch of the three execution modes and two delivery modes, on state objects, has the specified outcome |
| Accumulation.OnWorkItemRecordSingleStep | services_tutorial/v2/token-ledger-service-v2/src/accumulation.rs:110-133 | when the pending state stands for the changes seen so far (none, an unbroken chain and its end, or a broken one), the new one stands for these and the next change |
| Accumulation.OnAccumulateItems | services_tutorial/v2/token-ledger-service-v2/src/accumulation.rs:26-78 | the stored root becomes the end of the chain if the decoded outputs form one unbroken chain from it, and stays otherwise |
| Accumulation.ChainConcat | services_tutorial/v2/token-ledger-service-v2/src/accumulation.rs:32-51 | a chain split in two, accumulated one after the other, is accepted and ends as in one go |
| Refinement.RefinesIff | services_tutorial/v2/token-ledger-service-v2/src/refinement.rs:57-226 | a refinement reports a root change and exports if and only if they are those of its mode: replay of the delivered witness on verified operations, an export of both with an unchanged root, or replay of the imported segment |
| Refinement.PanicsIff | services_tutorial/v2/token-ledger-service-v2/src/refinement.rs:80-113 | a refinement aborts if and only if a witness is attached to an extrinsic item or missing from a direct one, or the batch aborts on the state of its witness |
| Refinement.DeliveryIrrelevant | services_tutorial/v2/token-ledger-service-v2/src/refinement.rs:80-113 | in every mode, a witness delivered as extrinsic has the outcome of the same witness attached |
| Refinement.DeferredReadsSegment | services_tutorial/v2/token-ledger-service-v2/src/refinement.rs:176-225 | the outcome of a deferred item depends on its imported segment alone |
| Refinement.DeferringKeepsRoot | services_tutorial/v2/token-ledger-service-v2/src/refinement.rs:137-167 | a deferring item by itself never changes the root |
| Refinement.DeferredIsImmediate | services_tutorial/v2/token-ledger-service-v2/src/refinement.rs:78-226 | deferring then deferred leaves the root that the immediate item leaves, from every root, accumulated together or in sequence; abort and rejection included |
| Protocol.HonestReplay | services_tutorial/v2/token-ledger-service-v2/src/refinement.rs:114-136 | refining a witness that a builder recorded on any state reports a change that is true of every valid state with that root, and does report when there is one |
| Protocol.ReportApplies | services_tutorial/v2/token-ledger-service-v2/src/accumulation.rs:119-132 | a true report that starts at the stored root says what its batch does to the accepted state, even if a stale builder made it |
| Protocol.NextKeepsInvariant | services_tutorial/v2/token-ledger-service-v2/src/accumulation.rs:26-133 | every refinement and every accumulation keeps: the stored root is the root of the accepted history as long as that stays at leaves, accepted batches are verified, reports and segments are true |
| Protocol.LinearHistory | services_tutorial/v2/token-ledger-service-v2/src/accumulation.rs:26-133 | in every run, whatever states the builders hold, every operation of every accepted batch is signed, moves something and pays from a valid signer to another account, and the stored root is the root of the state that the accepted batches make from genesis in acceptance order, if each was accepted on a state with its entries at leaves |
| Protocol.RangeMakesLeafHistory | services_tutorial/v2/token-ledger-state-v2/src/lib.rs:51-56 | that condition holds for every history of batches whose balances select leaves |
| Divergence.RootDeparts | services_tutorial/v2/token-ledger-state-v2/src/lib.rs:51-56 | without the condition it fails: a complete run of builders with entries at leaves and verified batches whose stored root is not the root of the accepted history |
| Divergence.ScenarioExists | services_tutorial/v2/token-ledger-state-v2/src/lib.rs:51-56 | there are digests for which that run exists |
| Protocol.CommittedSupply | services_tutorial/v2/token-ledger-state-v2/src/transition.rs:112-215 | in every run with such an accepted history the stored root commits to a ledger in which each token's balances add up to its first accepted mint |
| Protocol.HistoryGrows | services_tutorial/v2/token-ledger-service-v2/src/accumulation.rs:26-78 | between any two points of a run the accepted history is only extended, and if no batch is accepted the stored root is the same |
| Protocol.CurrentBuilderAdvances | services_tutorial/v2/token-ledger-service-v2/src/refinement.rs:80-136 | from every world and in both ways of delivery, the submitted witness of a verified batch on a state within the leaves that has the stored root, which does not abort and reads back nothing it created, is refined and accepted in two steps, and moves the root to its result |
| ServiceV1.Refine | services_tutorial/v1/token-ledger-service-v1/src/refinement.rs:37-125 | the validated operations are the mints with an amount, in order and signed or not, followed by the net transfers of the transfers with a valid signer, an amount and two accounts; each of them moves something |
| ServiceV1.KeyValueStorage.OnWorkItem | services_tutorial/v1/token-ledger-service-v1/src/accumulation.rs:31-68 | applying validated operations to storage that holds a ledger leaves it holding the ledger's result |
| ServiceV1.RefineAndAccumulate | services_tutorial/v1/token-ledger-service-v1/src/refinement.rs:39-124 | refining and accumulating a batch on storage that holds the ledger of a version 2 state leaves it holding the ledger's result for the kept operations, and version 2's next ledger when version 2 accepts the batch and does not abort |
| ServiceV1.FilteredConserves | services_tutorial/v1/token-ledger-service-v1/src/refinement.rs:61-94 | version 1 conserves every supply for every batch, verified or not |

## Left out

- BLAKE2b and Ed25519: hashes are symbolic, signature checks are two booleans of an operation.
- Codecs (SCALE, JAM, JSON, hex), segment padding and size limits: payloads, witnesses and segments are values; undecodable data is a case of its own.
- Files, command line, RPC, package building: I/O; saved states are lists of entries and tokens.
- Host calls, gas, `checkpoint`, logging, failed storage writes: storage is an infallible map, export success is a parameter.
- The delivery mode, package hash and exported hashes in a work item's output: accumulation does not use them.
- Builds with overflow checks: an overflow aborts there instead of wrapping around.
- Witnesses that omit entries of the full state: the program does not check absence, so replay theorems are about recorded witnesses and Membership.WitnessValuesAreMembers about all others.
- Solicit operations, preimages, the minimal service and the signing tool: disabled or plumbing.
- Transitions.StatelessReplay: is about witnesses recorded on a valid state; Transitions.AnyRecordingReplays is about all other states, whose witnesses matter only when their root is that of a valid one.
- Protocol.LinearHistory: takes witnesses from builders that recorded them for the submitted batch, and speaks of accepted histories that stay at leaves; Divergence.RootDeparts shows that it fails for others.
- Refinement.DeferredIsImmediate: requires that the export succeeds; a failed export rejects the deferring item.
