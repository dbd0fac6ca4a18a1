/**
  The hash values of the state tree, modelled symbolically: a digest is the term that was hashed.

  A 32-byte block is a digest or `Word(n)`, the number n in little-endian order; `merkle_value` writes
  token ids and balances that way, and the empty hash is the all-zero block. Nothing that is hashed says
  what it is: a list of two words and a value with a 32-byte key feed the hasher the same 64 bytes as a
  pair of hashes does, and all three are `Pair`. The hash of a list of another length can coincide with
  that of a value, too; the two are never compared.
*/
module Hashing {

  type Byte = b: int | 0 <= b < 0x100
  type Bytes = seq<Byte>

  /** A 32-bit token identifier. */
  type TokenId = t: int | 0 <= t < 0x1_0000_0000

  /** An unsigned 64-bit balance. */
  type Balance = b: int | 0 <= b <= U64_MAX

  const U64_MAX: int := 0xFFFF_FFFF_FFFF_FFFF

  datatype Hash =
    | Word(n: nat)
    | Pair(left: Hash, right: Hash)
    | Leaf(value: Balance, key: Bytes)
    | Sequence(words: seq<TokenId>)

  const EMPTY_HASH: Hash := Word(0)

  /** Hashing two empty subtrees gives the empty hash; every other pair is digested. */
  function HashPair(h1: Hash, h2: Hash): (h: Hash)
    ensures h == EMPTY_HASH <==> h1 == EMPTY_HASH && h2 == EMPTY_HASH
  {
    if h1 == EMPTY_HASH && h2 == EMPTY_HASH then EMPTY_HASH else Pair(h1, h2)
  }

  datatype KeyBytes = Raw(bytes: Bytes) | Block(hash: Hash)

  /** A storage key: a key of 32 bytes is a block, like any hash; all others are raw bytes. */
  type Key = k: KeyBytes | k.Raw? ==> |k.bytes| != 32 witness Raw([])

  /** The hash of a stored balance covers its value, as a block, and its key. */
  function LeafHash(value: Balance, key: Key): (h: Hash)
    ensures h != EMPTY_HASH
  {
    match key
    case Raw(bytes) => Leaf(value, bytes)
    case Block(hash) => Pair(Word(value), hash)
  }

  /** The leaf hash determines value and key, and it is no word; for a raw key it is no pair hash either. */
  lemma LeafHashInjective(v: Balance, j: Key, w: Balance, k: Key)
    ensures LeafHash(v, j) == LeafHash(w, k) <==> v == w && j == k
    ensures !LeafHash(v, j).Word?
    ensures j.Raw? ==> forall l, r :: LeafHash(v, j) != HashPair(l, r)
  {
  }

  /** The hash of the known-token list; the empty list has the empty hash. */
  function TokensHash(tokens: seq<TokenId>): (h: Hash)
    ensures h == EMPTY_HASH <==> tokens == []
  {
    if tokens == [] then EMPTY_HASH
    else if |tokens| == 2 then Pair(Word(tokens[0]), Word(tokens[1]))
    else Sequence(tokens)
  }

  /** A pair hash determines both of its halves, also when it is the empty hash. */
  lemma HashPairInjective(a1: Hash, b1: Hash, a2: Hash, b2: Hash)
    requires HashPair(a1, b1) == HashPair(a2, b2)
    ensures a1 == a2 && b1 == b2
  {
  }

  /** The token-list hash determines the list. */
  lemma TokensHashInjective(s: seq<TokenId>, t: seq<TokenId>)
    requires TokensHash(s) == TokensHash(t)
    ensures s == t
  {
    if |s| == 2 {
      assert s == [s[0], s[1]] && t == [t[0], t[1]];
    }
  }
}
