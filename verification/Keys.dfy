/** Storage keys of balances, and the leaf index that the digest of a key selects. */
module Keys {
  import opened Hashing
  import opened Numbering

  const ACCOUNT_LIMIT: nat := 0x1_0000_0000_0000_0000_0000_0000_0000_0000_0000_0000_0000_0000_0000_0000_0000_0000

  /**
    A 32-byte account identifier, read as a big-endian number: the order of the byte arrays is the
    order of the numbers.
  */
  type AccountId = a: int | 0 <= a < ACCOUNT_LIMIT

  /** One balance of the ledger. */
  datatype BalanceId = BalanceId(token: TokenId, account: AccountId)

  const BALANCE_PREFIX: Bytes := [98, 97, 108, 58]

  function LittleEndian(n: nat, len: nat): (bs: Bytes)
    ensures |bs| == len
  {
    if len == 0 then [] else [n % 256] + LittleEndian(n / 256, len - 1)
  }

  function BigEndian(n: nat, len: nat): (bs: Bytes)
    ensures |bs| == len
  {
    if len == 0 then [] else BigEndian(n / 256, len - 1) + [n % 256]
  }

  /** "bal:", the token in little-endian order, the account. */
  function BalanceBytes(id: BalanceId): (bytes: Bytes)
    ensures |bytes| == 40
  {
    BALANCE_PREFIX + LittleEndian(id.token, 4) + BigEndian(id.account, 32)
  }

  /** The storage key of a balance, which is never a block. */
  function BalanceKey(id: BalanceId): (key: Key)
    ensures key.Raw?
  {
    Raw(BalanceBytes(id))
  }

  /** n divided by 256 to the power of i. */
  function Shifted(n: nat, i: nat): nat {
    if i == 0 then n else Shifted(n / 256, i - 1)
  }

  lemma {:induction false} LittleEndianAt(n: nat, len: nat, i: nat)
    requires i < len
    ensures LittleEndian(n, len)[i] == Shifted(n, i) % 256
    decreases i
  {
    if i > 0 {
      LittleEndianAt(n / 256, len - 1, i - 1);
    }
  }

  lemma {:induction false} BigEndianAt(n: nat, len: nat, i: nat)
    requires i < len
    ensures BigEndian(n, len)[len - 1 - i] == Shifted(n, i) % 256
    decreases i
  {
    if i > 0 {
      BigEndianAt(n / 256, len - 1, i - 1);
    }
  }

  /** Where the bytes of a balance key come from: the prefix, the token low byte first, the account high byte first. */
  lemma BalanceKeyLayout(id: BalanceId, i: nat)
    ensures BalanceBytes(id)[..4] == [98, 97, 108, 58]
    ensures i < 4 ==> BalanceBytes(id)[4 + i] == Shifted(id.token, i) % 256
    ensures i < 32 ==> BalanceBytes(id)[39 - i] == Shifted(id.account, i) % 256
  {
    hide LittleEndian, BigEndian, Shifted;
    if i < 4 {
      LittleEndianAt(id.token, 4, i);
    }
    if i < 32 {
      BigEndianAt(id.account, 32, i);
    }
  }

  function Power256(n: nat): nat {
    if n == 0 then 1 else 256 * Power256(n - 1)
  }

  lemma {:induction false} LittleEndianInjective(m: nat, n: nat, len: nat)
    requires m < Power256(len) && n < Power256(len)
    requires LittleEndian(m, len) == LittleEndian(n, len)
    ensures m == n
  {
    if len > 0 {
      var a, b := LittleEndian(m, len), LittleEndian(n, len);
      assert a[0] == m % 256 && b[0] == n % 256;
      assert a[1..] == LittleEndian(m / 256, len - 1) && b[1..] == LittleEndian(n / 256, len - 1);
      LittleEndianInjective(m / 256, n / 256, len - 1);
    }
  }

  lemma {:induction false} BigEndianInjective(m: nat, n: nat, len: nat)
    requires m < Power256(len) && n < Power256(len)
    requires BigEndian(m, len) == BigEndian(n, len)
    ensures m == n
  {
    if len > 0 {
      var a, b := BigEndian(m, len), BigEndian(n, len);
      assert a[len - 1] == m % 256 && b[len - 1] == n % 256;
      assert a[..len - 1] == BigEndian(m / 256, len - 1) && b[..len - 1] == BigEndian(n / 256, len - 1);
      BigEndianInjective(m / 256, n / 256, len - 1);
    }
  }

  lemma FieldWidths()
    ensures Power256(4) == 0x1_0000_0000
    ensures Power256(32) == ACCOUNT_LIMIT
  {
    assert Power256(4) == 0x1_0000_0000;
    assert Power256(8) == 0x1_0000_0000_0000_0000;
    assert Power256(16) == 0x1_0000_0000_0000_0000_0000_0000_0000_0000;
    assert Power256(24) == 0x1_0000_0000_0000_0000_0000_0000_0000_0000_0000_0000_0000_0000;
  }

  /** Distinct balances have distinct keys. */
  lemma BalanceKeyInjective(x: BalanceId, y: BalanceId)
    ensures BalanceKey(x) == BalanceKey(y) <==> x == y
  {
    if BalanceKey(x) == BalanceKey(y) {
      FieldWidths();
      var a, b := BalanceBytes(x), BalanceBytes(y);
      assert a[4..8] == LittleEndian(x.token, 4) && b[4..8] == LittleEndian(y.token, 4);
      assert a[8..] == BigEndian(x.account, 32) && b[8..] == BigEndian(y.account, 32);
      LittleEndianInjective(x.token, y.token, 4);
      BigEndianInjective(x.account, y.account, 32);
    }
  }

  /** The first two bytes of the digest of a non-empty key. */
  type Digest = Key -> (Byte, Byte)

  /** Masking with 255 << 1 clears the lowest bit of the second byte: every index is the index of a node. */
  function IndexOfDigest(bytes: (Byte, Byte)): (ix: TreeIndex)
    ensures ix < TREE_HASHES
  {
    bytes.0 + 0x100 * (bytes.1 - bytes.1 % 2)
  }

  /** Hashing an empty key gives the empty hash, hence index 0. */
  function TreeIndexFromKey(digest: Digest, key: Key): (ix: TreeIndex)
    ensures ix < TREE_HASHES
  {
    if key == Raw([]) then 0 else IndexOfDigest(digest(key))
  }

  /** The mask forgets one bit: digests select one index exactly when they agree in all other bits of the two bytes. */
  lemma IndexSeparates(x: (Byte, Byte), y: (Byte, Byte))
    ensures IndexOfDigest(x) == IndexOfDigest(y) <==> x.0 == y.0 && x.1 / 2 == y.1 / 2
    ensures forall digest: Digest :: TreeIndexFromKey(digest, Raw([])) == IndexOfDigest((0, 0))
    ensures IndexOfDigest(x) % 0x100 == x.0 && IndexOfDigest(x) / 0x100 == 2 * (x.1 / 2)
  {
  }

  /** The index is a leaf index exactly when the second digest byte is below 128: the mask does not provide it. */
  lemma IndexIsLeaf(bytes: (Byte, Byte))
    ensures IndexOfDigest(bytes) < TREE_SIZE <==> bytes.1 < 0x80
    ensures IndexOfDigest((0, 0x80)) == TREE_SIZE
  {
  }
}
