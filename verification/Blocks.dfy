/** Block headers and blocks: their binary format, and what the Merkle root in the header binds. */
module Blocks {
  import opened Bytes
  import opened Wrappers
  import opened BlockHashing
  import opened Serializer
  import opened Transactions
  import opened Merkle
  import opened Powers

  datatype Header = Header(
    nVersion: int32,
    hashPrevBlock: Hash256,
    hashMerkleRoot: Hash256,
    nTime: uint32,
    nBits: uint32,
    nNonce: uint32
  )

  datatype Block = Block(header: Header, vtx: seq<Transaction>)

  function SerializeHeader(b: Header): (r: bytes)
    ensures |r| == 80
  {
    LittleEndianBytes(ToUint32(b.nVersion), 4) + b.hashPrevBlock + b.hashMerkleRoot
    + LittleEndianBytes(b.nTime, 4) + LittleEndianBytes(b.nBits, 4) + LittleEndianBytes(b.nNonce, 4)
  }

  function HeaderHash(h: Hasher, b: Header): Hash256 {
    h(SerializeHeader(b))
  }

  /** Where the six fields of a header stand in its 80 bytes, and what is hashed. */
  lemma HeaderLayout(h: Hasher, b: Header)
    ensures var s := SerializeHeader(b);
      && |s| == 80
      && s[..4] == LittleEndianBytes(b.nVersion % 0x1_0000_0000, 4)
      && s[4..36] == b.hashPrevBlock
      && s[36..68] == b.hashMerkleRoot
      && s[68..72] == LittleEndianBytes(b.nTime, 4)
      && s[72..76] == LittleEndianBytes(b.nBits, 4)
      && s[76..] == LittleEndianBytes(b.nNonce, 4)
      && HeaderHash(h, b) == h(s)
  {
    hide LittleEndianBytes;
    TwosComplement(b.nVersion, 0);
  }

  function ReadHeader(data: bytes, at: nat): Result<Read<Header>> {
    match ReadUint32(data, at)
    case Error => Error
    case Ok(version) =>
      match ReadBytes32(data, version.next)
      case Error => Error
      case Ok(prev) =>
        match ReadBytes32(data, prev.next)
        case Error => Error
        case Ok(root) =>
          match ReadUint32(data, root.next)
          case Error => Error
          case Ok(time) =>
            match ReadUint32(data, time.next)
            case Error => Error
            case Ok(bits) =>
              match ReadUint32(data, bits.next)
              case Error => Error
              case Ok(nonce) =>
                var v := ToInt32(version.value);
                Ok(Read(Header(v, prev.value, root.value, time.value, bits.value, nonce.value), nonce.next))
  }

  /** A header is read exactly where its 80 bytes are held. */
  lemma HeaderExact(data: bytes, at: nat, b: Header, next: nat)
    ensures ReadHeader(data, at) == Ok(Read(b, next)) <==> Holds(data, at, SerializeHeader(b)) && next == at + 80
  {
    hide LittleEndianBytes, Holds, ReadUint32, ReadBytes32;
    var version := LittleEndianBytes(ToUint32(b.nVersion), 4);
    var time, bits := LittleEndianBytes(b.nTime, 4), LittleEndianBytes(b.nBits, 4);
    var nonce := LittleEndianBytes(b.nNonce, 4);
    HoldsBoth(data, at, version + b.hashPrevBlock + b.hashMerkleRoot + time + bits, nonce);
    HoldsBoth(data, at, version + b.hashPrevBlock + b.hashMerkleRoot + time, bits);
    HoldsBoth(data, at, version + b.hashPrevBlock + b.hashMerkleRoot, time);
    HoldsBoth(data, at, version + b.hashPrevBlock, b.hashMerkleRoot);
    HoldsBoth(data, at, version, b.hashPrevBlock);
    Uint32At(data, at, ToUint32(b.nVersion));
    Bytes32At(data, at + 4, b.hashPrevBlock);
    Bytes32At(data, at + 36, b.hashMerkleRoot);
    Uint32At(data, at + 68, b.nTime);
    Uint32At(data, at + 72, b.nBits);
    Uint32At(data, at + 76, b.nNonce);
  }

  lemma Uint32At(data: bytes, at: nat, n: uint32)
    ensures Holds(data, at, LittleEndianBytes(n, 4)) <==> ReadUint32(data, at) == Ok(Read(n, at + 4))
    ensures ReadUint32(data, at).Ok? ==> ReadUint32(data, at).value.next == at + 4
  {
    hide Holds, LittleEndianBytes;
    Uint32Exact(data, at, n, at + 4);
  }

  lemma Bytes32At(data: bytes, at: nat, s: Hash256)
    ensures Holds(data, at, s) <==> ReadBytes32(data, at) == Ok(Read(s, at + 32))
    ensures ReadBytes32(data, at).Ok? ==> ReadBytes32(data, at).value.next == at + 32
  {
  }

  function SerializeBlock(b: Block): bytes {
    SerializeHeader(b.header) + SerializeList(SerializeTransaction, b.vtx)
  }

  /** Where the parts of a block stand: the header, the number of transactions, and each of them in turn. */
  lemma BlockLayout(b: Block)
    ensures var s := SerializeBlock(b);
      && |s| == 84 + |WriteMany(SerializeTransaction, b.vtx)|
      && s[..80] == SerializeHeader(b.header)
      && s[80..84] == LittleEndianBytes(|b.vtx| % 0x1_0000_0000, 4)
      && s[84..] == WriteMany(SerializeTransaction, b.vtx)
  {
    hide LittleEndianBytes, WriteMany, SerializeHeader, SerializeTransaction;
  }

  function TransactionReader(h: Hasher): (bytes, nat) -> Result<Read<Transaction>> {
    (data: bytes, at: nat) => ReadTransaction(h, data, at)
  }

  /** A transaction that a reader can return: its lengths fit and its hash is its own. */
  predicate Genuine(h: Hasher, tx: Transaction) {
    Fits(tx) && tx.txHash == GetHash(h, tx)
  }

  function IsGenuine(h: Hasher): Transaction -> bool {
    tx => Genuine(h, tx)
  }

  lemma GenuineExactly(h: Hasher, tx: Transaction, b: Block)
    ensures Genuine(h, tx) <==> Fits(tx) && tx.txHash == h(SerializeTransaction(tx))
    ensures BlockFits(b) <==> |b.vtx| < 0x1_0000_0000 && forall t :: t in b.vtx ==> Fits(t)
  {
    hide Fits;
  }

  function ReadBlock(h: Hasher, data: bytes, at: nat): Result<Read<Block>> {
    match ReadHeader(data, at)
    case Error => Error
    case Ok(header) =>
      match ReadList(TransactionReader(h), data, header.next)
      case Error => Error
      case Ok(vtx) => Ok(Read(Block(header.value, vtx.value), vtx.next))
  }

  lemma ReaderExact(h: Hasher)
    ensures Sound(TransactionReader(h), SerializeTransaction, IsGenuine(h))
    ensures Complete(TransactionReader(h), SerializeTransaction, IsGenuine(h))
  {
    hide ReadTransaction, SerializeTransaction, Holds, Genuine;
    var read, good := TransactionReader(h), IsGenuine(h);
    forall d, k: nat | read(d, k).Ok?
      ensures var r := read(d, k).value;
        good(r.value) && Holds(d, k, SerializeTransaction(r.value)) && r.next == k + |SerializeTransaction(r.value)|
    {
      GenuineExact(h, d, k, read(d, k).value.value, read(d, k).value.next);
    }
    forall d, k: nat, x | good(x) && Holds(d, k, SerializeTransaction(x))
      ensures read(d, k) == Ok(Read(x, k + |SerializeTransaction(x)|))
    {
      GenuineExact(h, d, k, x, k + |SerializeTransaction(x)|);
    }
  }

  lemma GenuineExact(h: Hasher, data: bytes, at: nat, tx: Transaction, next: nat)
    ensures ReadTransaction(h, data, at) == Ok(Read(tx, next))
       <==> Genuine(h, tx) && Holds(data, at, SerializeTransaction(tx)) && next == at + |SerializeTransaction(tx)|
  {
    hide ReadTransaction, SerializeTransaction, Holds, Fits;
    TransactionExact(h, data, at, tx, next);
  }

  predicate BlockFits(b: Block) {
    |b.vtx| < LIMIT && forall tx :: tx in b.vtx ==> Fits(tx)
  }

  /** The block format is canonical in both directions. */
  lemma BlockExact(h: Hasher, data: bytes, at: nat, b: Block, next: nat)
    ensures ReadBlock(h, data, at) == Ok(Read(b, next))
       <==> && |b.vtx| < LIMIT && (forall tx :: tx in b.vtx ==> Genuine(h, tx))
            && Holds(data, at, SerializeBlock(b)) && next == at + |SerializeBlock(b)|
  {
    hide ReadHeader, ReadList, SerializeHeader, SerializeList, Holds, Genuine, TransactionReader;
    var header, vtx := SerializeHeader(b.header), SerializeList(SerializeTransaction, b.vtx);
    HoldsBoth(data, at, header, vtx);
    HeaderExact(data, at, b.header, at + 80);
    if ReadHeader(data, at).Ok? {
      HeaderExact(data, at, ReadHeader(data, at).value.value, ReadHeader(data, at).value.next);
    }
    TransactionListExact(h, data, at + 80, b.vtx, next);
  }

  lemma TransactionListExact(h: Hasher, data: bytes, at: nat, values: seq<Transaction>, next: nat)
    ensures ReadList(TransactionReader(h), data, at) == Ok(Read(values, next))
       <==> && |values| < LIMIT && (forall tx :: tx in values ==> Genuine(h, tx))
            && Holds(data, at, SerializeList(SerializeTransaction, values))
            && next == at + |SerializeList(SerializeTransaction, values)|
  {
    hide ReadList, SerializeList, Holds, Genuine, TransactionReader, Sound, Complete;
    ReaderExact(h);
    ListExact(TransactionReader(h), SerializeTransaction, IsGenuine(h), data, at, values, next);
  }

  /** The block that a reader makes of a written one: all transaction hashes are recomputed. */
  function Rehashed(h: Hasher, b: Block): Block {
    b.(vtx := seq(|b.vtx|, i requires 0 <= i < |b.vtx| => b.vtx[i].(txHash := GetHash(h, b.vtx[i]))))
  }

  lemma RehashedFields(h: Hasher, b: Block)
    ensures var r := Rehashed(h, b);
      && r.header == b.header && |r.vtx| == |b.vtx|
      && forall i :: 0 <= i < |r.vtx| ==> r.vtx[i] == b.vtx[i].(txHash := h(SerializeTransaction(b.vtx[i])))
  {
    hide SerializeTransaction;
  }

  lemma RehashedTransactions(h: Hasher, b: Block)
    requires BlockFits(b)
    ensures forall tx :: tx in Rehashed(h, b).vtx ==> Genuine(h, tx)
    ensures WriteMany(SerializeTransaction, Rehashed(h, b).vtx) == WriteMany(SerializeTransaction, b.vtx)
  {
    hide SerializeTransaction, Fits;
    var r := Rehashed(h, b);
    forall i | 0 <= i < |r.vtx|
      ensures Genuine(h, r.vtx[i]) && SerializeTransaction(r.vtx[i]) == SerializeTransaction(b.vtx[i])
    {
      HashNotStored(b.vtx[i], GetHash(h, b.vtx[i]));
    }
    SameWriting(r.vtx, b.vtx);
  }

  lemma {:induction false} SameWriting(xs: seq<Transaction>, ys: seq<Transaction>)
    requires |xs| == |ys| && forall i :: 0 <= i < |xs| ==> SerializeTransaction(xs[i]) == SerializeTransaction(ys[i])
    ensures WriteMany(SerializeTransaction, xs) == WriteMany(SerializeTransaction, ys)
  {
    if xs != [] {
      SameWriting(xs[..|xs| - 1], ys[..|ys| - 1]);
    }
  }

  /** A serialized block is read back, wherever it stands, with all transaction hashes recomputed. */
  lemma BlockRoundTrip(h: Hasher, prefix: bytes, b: Block, suffix: bytes)
    requires BlockFits(b)
    ensures ReadBlock(h, prefix + SerializeBlock(b) + suffix, |prefix|) ==
      Ok(Read(Rehashed(h, b), |prefix| + |SerializeBlock(b)|))
  {
    hide ReadBlock, Holds, SerializeHeader, WriteMany, Genuine;
    RehashedTransactions(h, b);
    assert SerializeBlock(Rehashed(h, b)) == SerializeBlock(b);
    HoldsPart(prefix, SerializeBlock(b), suffix);
    BlockExact(h, prefix + SerializeBlock(b) + suffix, |prefix|, Rehashed(h, b), |prefix| + |SerializeBlock(b)|);
  }

  /** No strict prefix of a block's encoding is an encoding. */
  lemma NoPrefixOfBlock(h: Hasher, b: Block, k: nat)
    requires BlockFits(b) && k < |SerializeBlock(b)|
    ensures ReadBlock(h, SerializeBlock(b)[..k], 0).Error?
  {
    hide ReadBlock, BlockFits, SerializeBlock;
    var s := SerializeBlock(b);
    assert [] + s + [] == s;
    if ReadBlock(h, s[..k], 0).Ok? {
      var r := ReadBlock(h, s[..k], 0).value;
      BlockExact(h, s[..k], 0, r.value, r.next);
      BlockExact(h, s, 0, r.value, r.next);
      BlockRoundTrip(h, [], b, []);
      assert false;
    }
  }

  function Hashes(vtx: seq<Transaction>): (r: seq<Hash256>)
    ensures |r| == |vtx| && forall i :: 0 <= i < |vtx| ==> r[i] == vtx[i].txHash
  {
    seq(|vtx|, i requires 0 <= i < |vtx| => vtx[i].txHash)
  }

  predicate IsMerkleRootValid(h: Hasher, b: Block) {
    Root(h, Hashes(b.vtx)) == b.header.hashMerkleRoot
  }

  /** The check as the code makes it. */
  method CheckMerkleRoot(h: Hasher, b: Block) returns (valid: bool)
    ensures valid == IsMerkleRootValid(h, b)
    ensures valid <==> Root(h, Hashes(b.vtx)) == b.header.hashMerkleRoot
  {
    var root := BuildRoot(h, Hashes(b.vtx));
    valid := root == b.header.hashMerkleRoot;
  }

  /** Two transactions at the same place of two lists are different and have the same hash. */
  ghost predicate TransactionsCollide(h: Hasher, xs: seq<Transaction>, ys: seq<Transaction>)
    requires |xs| == |ys|
  {
    exists i :: 0 <= i < |xs| && Collision(h, SerializeTransaction(xs[i]), SerializeTransaction(ys[i]))
  }

  /** The collision that is meant: two different serializations with the same hash, at one place. */
  lemma CollidingTransactions(h: Hasher, xs: seq<Transaction>, ys: seq<Transaction>) returns (i: nat)
    requires |xs| == |ys| && TransactionsCollide(h, xs, ys)
    ensures i < |xs| && SerializeTransaction(xs[i]) != SerializeTransaction(ys[i])
    ensures h(SerializeTransaction(xs[i])) == h(SerializeTransaction(ys[i]))
  {
    hide SerializeTransaction;
    i :| 0 <= i < |xs| && Collision(h, SerializeTransaction(xs[i]), SerializeTransaction(ys[i]));
  }

  lemma CollisionIs(h: Hasher, a: bytes, b: bytes)
    ensures Collision(h, a, b) <==> a != b && h(a) == h(b)
  {
  }

  /** The header commits to the transactions: two blocks that were read, with the same header, the
      same number of transactions and valid roots, are the same block, or the hash collides within
      them: at one place of their Merkle trees, or for two transactions at one place. */
  lemma HeaderBindsBlock(h: Hasher, d1: bytes, at1: nat, d2: bytes, at2: nat, b1: Block, b2: Block, n1: nat, n2: nat)
    requires ReadBlock(h, d1, at1) == Ok(Read(b1, n1)) && ReadBlock(h, d2, at2) == Ok(Read(b2, n2))
    requires b1.header == b2.header && |b1.vtx| == |b2.vtx|
    requires IsMerkleRootValid(h, b1) && IsMerkleRootValid(h, b2)
    ensures b1 == b2 || CollidesInTrees(h, Hashes(b1.vtx), Hashes(b2.vtx)) || TransactionsCollide(h, b1.vtx, b2.vtx)
  {
    hide ReadBlock, Root, SerializeTransaction, SerializeBlock, Fits, CollidesInTrees;
    BlockExact(h, d1, at1, b1, n1);
    BlockExact(h, d2, at2, b2, n2);
    Binding(h, Hashes(b1.vtx), Hashes(b2.vtx));
    if b1 != b2 && Hashes(b1.vtx) == Hashes(b2.vtx) {
      var i :| 0 <= i < |b1.vtx| && b1.vtx[i] != b2.vtx[i];
      var x, y := b1.vtx[i], b2.vtx[i];
      assert Hashes(b1.vtx)[i] == Hashes(b2.vtx)[i];
      assert x in b1.vtx && y in b2.vtx;
      if SerializeTransaction(x) == SerializeTransaction(y) {
        SameBytesSameTransaction(h, x, y);
      }
      assert Collision(h, SerializeTransaction(x), SerializeTransaction(y));
    }
  }

  /** A header hash commits to the header: equal hashes come from equal headers, or from a collision
      of the two 80-byte serializations. */
  lemma HashBindsHeader(h: Hasher, x: Header, y: Header)
    requires HeaderHash(h, x) == HeaderHash(h, y)
    ensures x == y || Collision(h, SerializeHeader(x), SerializeHeader(y))
  {
    hide SerializeHeader, ReadHeader;
    var s := SerializeHeader(x);
    if SerializeHeader(y) == s {
      HeaderExact(s, 0, x, 80);
      HeaderExact(s, 0, y, 80);
    }
  }

  /** A block hash commits to the whole block: two blocks that were read, with the same header hash,
      equally many transactions and valid roots, are the same block, or the hash collides for their
      headers, in their trees or for their transactions. */
  lemma HashBindsBlock(h: Hasher, d1: bytes, at1: nat, d2: bytes, at2: nat, b1: Block, b2: Block, n1: nat, n2: nat)
    requires ReadBlock(h, d1, at1) == Ok(Read(b1, n1)) && ReadBlock(h, d2, at2) == Ok(Read(b2, n2))
    requires HeaderHash(h, b1.header) == HeaderHash(h, b2.header) && |b1.vtx| == |b2.vtx|
    requires IsMerkleRootValid(h, b1) && IsMerkleRootValid(h, b2)
    ensures
      || b1 == b2
      || Collision(h, SerializeHeader(b1.header), SerializeHeader(b2.header))
      || CollidesInTrees(h, Hashes(b1.vtx), Hashes(b2.vtx))
      || TransactionsCollide(h, b1.vtx, b2.vtx)
  {
    hide ReadBlock, Root, SerializeHeader, CollidesInTrees, TransactionsCollide, HeaderHash, Collision;
    hide IsMerkleRootValid;
    HashBindsHeader(h, b1.header, b2.header);
    if b1.header == b2.header {
      HeaderBindsBlock(h, d1, at1, d2, at2, b1, b2, n1, n2);
    }
  }

  /** The same transaction stands at every leaf of the completed trees over two blocks. */
  ghost predicate SameLeaves(xs: seq<Transaction>, ys: seq<Transaction>)
    requires xs != [] && ys != []
  {
    forall j: nat :: j < Pow2(Height(|xs|)) ==> xs[Leaf(|xs|, j)] == ys[Leaf(|ys|, j)]
  }

  ghost predicate LeavesCollide(h: Hasher, xs: seq<Transaction>, ys: seq<Transaction>)
    requires xs != [] && ys != []
  {
    exists j: nat :: Collision(h, SerializeTransaction(xs[Leaf(|xs|, j)]), SerializeTransaction(ys[Leaf(|ys|, j)]))
  }

  lemma CollidingLeaves(h: Hasher, xs: seq<Transaction>, ys: seq<Transaction>) returns (x: Transaction, y: Transaction)
    requires xs != [] && ys != [] && LeavesCollide(h, xs, ys)
    ensures x in xs && y in ys && SerializeTransaction(x) != SerializeTransaction(y)
    ensures h(SerializeTransaction(x)) == h(SerializeTransaction(y))
  {
    hide SerializeTransaction, Leaf;
    var j: nat :| Collision(h, SerializeTransaction(xs[Leaf(|xs|, j)]), SerializeTransaction(ys[Leaf(|ys|, j)]));
    x, y := xs[Leaf(|xs|, j)], ys[Leaf(|ys|, j)];
  }

  lemma SameTransactionAt(xs: seq<Transaction>, ys: seq<Transaction>, j: nat)
    requires xs != [] && ys != [] && SameLeaves(xs, ys) && j < Pow2(Height(|xs|))
    ensures xs[Leaf(|xs|, j)] == ys[Leaf(|ys|, j)]
  {
  }

  /** What a block hash binds when the numbers of transactions are not known, but the heights of the
      trees are equal: the header and the transaction at every leaf of the completed tree. */
  lemma HashBindsLeaves(h: Hasher, d1: bytes, at1: nat, d2: bytes, at2: nat, b1: Block, b2: Block, n1: nat, n2: nat)
    requires ReadBlock(h, d1, at1) == Ok(Read(b1, n1)) && ReadBlock(h, d2, at2) == Ok(Read(b2, n2))
    requires HeaderHash(h, b1.header) == HeaderHash(h, b2.header)
    requires b1.vtx != [] && b2.vtx != [] && Height(|b1.vtx|) == Height(|b2.vtx|)
    requires IsMerkleRootValid(h, b1) && IsMerkleRootValid(h, b2)
    ensures
      || (b1.header == b2.header && SameLeaves(b1.vtx, b2.vtx))
      || Collision(h, SerializeHeader(b1.header), SerializeHeader(b2.header))
      || CollidesInTrees(h, Completed(Hashes(b1.vtx)), Completed(Hashes(b2.vtx)))
      || LeavesCollide(h, b1.vtx, b2.vtx)
  {
    hide ReadBlock, Root, SerializeHeader, SerializeTransaction, SerializeBlock, CollidesInTrees, HeaderHash, Pow2;
    HashBindsHeader(h, b1.header, b2.header);
    BlockExact(h, d1, at1, b1, n1);
    BlockExact(h, d2, at2, b2, n2);
    var xs, ys := b1.vtx, b2.vtx;
    if b1.header == b2.header {
      SameHeightExactly(h, Hashes(xs), Hashes(ys));
      if Completed(Hashes(xs)) == Completed(Hashes(ys)) && !LeavesCollide(h, xs, ys) {
        forall j: nat | j < Pow2(Height(|xs|))
          ensures xs[Leaf(|xs|, j)] == ys[Leaf(|ys|, j)]
        {
          SameLeaf(h, xs, ys, j);
        }
      }
    }
  }

  lemma SameLeaf(h: Hasher, xs: seq<Transaction>, ys: seq<Transaction>, j: nat)
    requires xs != [] && ys != [] && Height(|xs|) == Height(|ys|) && j < Pow2(Height(|xs|))
    requires Completed(Hashes(xs)) == Completed(Hashes(ys)) && !LeavesCollide(h, xs, ys)
    requires (forall tx :: tx in xs ==> Genuine(h, tx)) && (forall tx :: tx in ys ==> Genuine(h, tx))
    ensures xs[Leaf(|xs|, j)] == ys[Leaf(|ys|, j)]
  {
    hide SerializeTransaction, Pow2, Fits;
    var x, y := xs[Leaf(|xs|, j)], ys[Leaf(|ys|, j)];
    assert x.txHash == Completed(Hashes(xs))[j] == Completed(Hashes(ys))[j] == y.txHash;
    assert Genuine(h, x) && Genuine(h, y);
    assert !Collision(h, SerializeTransaction(x), SerializeTransaction(y));
    SameBytesSameTransaction(h, x, y);
  }

  /** The number of transactions is not bound: in a valid block whose count is an odd multiple of 2^t, and
      more, the last 2^t transactions can be repeated. The block is another one, but its header and so
      its hash are the same, its root is valid, and it is read back from its own bytes. */
  lemma RepeatedTransactions(h: Hasher, b: Block, q: nat, t: nat) returns (c: Block)
    requires q % 2 == 1 && q > 1 && |b.vtx| == q * Pow2(t)
    requires |b.vtx| + Pow2(t) < LIMIT && (forall tx :: tx in b.vtx ==> Genuine(h, tx))
    requires IsMerkleRootValid(h, b)
    ensures Pow2(t) <= |b.vtx| && c == b.(vtx := b.vtx + b.vtx[|b.vtx| - Pow2(t)..])
    ensures c != b && HeaderHash(h, c.header) == HeaderHash(h, b.header)
    ensures IsMerkleRootValid(h, c)
    ensures ReadBlock(h, SerializeBlock(c), 0) == Ok(Read(c, |SerializeBlock(c)|))
  {
    hide Root, ReadBlock, SerializeBlock, Genuine, HeaderHash, Holds;
    RepeatedTail(h, Hashes(b.vtx), q, t);
    var tail := b.vtx[|b.vtx| - Pow2(t)..];
    c := b.(vtx := b.vtx + tail);
    assert Hashes(c.vtx) == Hashes(b.vtx) + Hashes(b.vtx)[|b.vtx| - Pow2(t)..];
    var s := SerializeBlock(c);
    HoldsPart([], s, []);
    assert [] + s + [] == s;
    BlockExact(h, s, 0, c, |s|);
  }

  lemma SameBytesSameTransaction(h: Hasher, x: Transaction, y: Transaction)
    requires Genuine(h, x) && Genuine(h, y) && SerializeTransaction(x) == SerializeTransaction(y)
    ensures x == y
  {
    hide SerializeTransaction, Genuine, ReadTransaction;
    var s := SerializeTransaction(x);
    GenuineExact(h, s, 0, x, |s|);
    GenuineExact(h, s, 0, y, |s|);
  }

  method Serialize(b: Block) returns (buffer: bytes)
    ensures buffer == SerializeBlock(b)
  {
    hide SerializeTransaction, SerializeHeader, LittleEndianBytes;
    buffer := WriteUint32LE(SerializeHeader(b.header), |b.vtx| % LIMIT);
    ghost var start := buffer;
    for i := 0 to |b.vtx|
      invariant buffer == start + WriteMany(SerializeTransaction, b.vtx[..i])
    {
      assert b.vtx[..i + 1][..i] == b.vtx[..i];
      var serialized := Transactions.Serialize(b.vtx[i]);
      buffer := buffer + serialized;
    }
    assert b.vtx[..|b.vtx|] == b.vtx;
  }

  method Deserialize(h: Hasher, data: bytes, offset: nat) returns (r: Result<Read<Block>>)
    ensures r == ReadBlock(h, data, offset)
  {
    hide ReadHeader, ReadTransaction, ReadUint32;
    var header := ReadHeader(data, offset);
    if header.Error? {
      return Error;
    }
    var count := ReadUint32LE(data, header.value.next);
    if count.Error? {
      return Error;
    }
    var vtx, at := [], count.value.next;
    for i := 0 to count.value.value
      invariant ReadMany(TransactionReader(h), data, count.value.next, i) == Ok(Read(vtx, at))
    {
      var tx := Transactions.Deserialize(h, data, at);
      if tx.Error? {
        ReadManyStops(TransactionReader(h), data, count.value.next, i + 1, count.value.value);
        return Error;
      }
      vtx, at := vtx + [tx.value.value], tx.value.next;
    }
    r := Ok(Read(Block(header.value.value, vtx), at));
  }
}
