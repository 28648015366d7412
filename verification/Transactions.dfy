/** Transactions and their binary format: every valid encoding is read back, and nothing else is. */
module Transactions {
  import opened Bytes
  import opened Wrappers
  import opened BlockHashing
  import opened Serializer

  datatype OutPoint = OutPoint(txid: Hash256, n: uint32)

  datatype TxIn = TxIn(prevout: OutPoint, scriptSig: bytes, nSequence: uint32)

  datatype TxOut = TxOut(nValue: int64, scriptPubKey: bytes)

  datatype Transaction = Transaction(
    nVersion: int32,
    vin: seq<TxIn>,
    vout: seq<TxOut>,
    nLockTime: uint32,
    txHash: Hash256
  )

  const LIMIT: nat := 0x1_0000_0000

  /** A length as the writers store it: cut to 32 bits. */
  function Length(n: nat): bytes {
    LittleEndianBytes(n % LIMIT, 4)
  }

  function SerializeOutPoint(o: OutPoint): bytes {
    o.txid + LittleEndianBytes(o.n, 4)
  }

  function ReadOutPoint(data: bytes, at: nat): Result<Read<OutPoint>> {
    match ReadBytes32(data, at)
    case Error => Error
    case Ok(txid) =>
      match ReadUint32(data, txid.next)
      case Error => Error
      case Ok(n) => Ok(Read(OutPoint(txid.value, n.value), n.next))
  }

  lemma OutPointExact(data: bytes, at: nat, o: OutPoint, next: nat)
    ensures ReadOutPoint(data, at) == Ok(Read(o, next))
       <==> Holds(data, at, SerializeOutPoint(o)) && next == at + |SerializeOutPoint(o)|
  {
    hide ReadUint32, LittleEndianBytes, Holds;
    HoldsBoth(data, at, o.txid, LittleEndianBytes(o.n, 4));
    Bytes32Exact(data, at, o.txid, at + 32);
    Uint32Exact(data, at + 32, o.n, next);
  }

  lemma Bytes32Exact(data: bytes, at: nat, h: Hash256, next: nat)
    ensures ReadBytes32(data, at) == Ok(Read(h, next)) <==> Holds(data, at, h) && next == at + 32
  {
  }

  function SerializeTxIn(i: TxIn): bytes {
    SerializeOutPoint(i.prevout) + Length(|i.scriptSig|) + i.scriptSig + LittleEndianBytes(i.nSequence, 4)
  }

  predicate TxInFits(i: TxIn) {
    |i.scriptSig| < LIMIT
  }

  /** A script: its length and its bytes. */
  function ReadScript(data: bytes, at: nat): Result<Read<bytes>> {
    match ReadUint32(data, at)
    case Error => Error
    case Ok(n) => ReadBytes(data, n.next, n.value)
  }

  lemma ScriptExact(data: bytes, at: nat, script: bytes, next: nat)
    ensures ReadScript(data, at) == Ok(Read(script, next))
       <==> |script| < LIMIT && Holds(data, at, Length(|script|) + script) && next == at + 4 + |script|
  {
    hide ReadUint32, LittleEndianBytes, Holds;
    HoldsBoth(data, at, Length(|script|), script);
    if |script| < LIMIT {
      Uint32Exact(data, at, |script|, at + 4);
      BytesExact(data, at + 4, script, next);
    }
    if ReadUint32(data, at).Ok? {
      Uint32Exact(data, at, ReadUint32(data, at).value.value, ReadUint32(data, at).value.next);
    }
  }

  function ReadTxIn(data: bytes, at: nat): Result<Read<TxIn>> {
    match ReadOutPoint(data, at)
    case Error => Error
    case Ok(prevout) =>
      match ReadScript(data, prevout.next)
      case Error => Error
      case Ok(script) =>
        match ReadUint32(data, script.next)
        case Error => Error
        case Ok(sequence) => Ok(Read(TxIn(prevout.value, script.value, sequence.value), sequence.next))
  }

  lemma TxInExact(data: bytes, at: nat, i: TxIn, next: nat)
    ensures ReadTxIn(data, at) == Ok(Read(i, next))
       <==> TxInFits(i) && Holds(data, at, SerializeTxIn(i)) && next == at + |SerializeTxIn(i)|
  {
    hide ReadUint32, ReadOutPoint, ReadScript, LittleEndianBytes, Holds, SerializeOutPoint;
    var prevout, script := SerializeOutPoint(i.prevout), Length(|i.scriptSig|) + i.scriptSig;
    var sequence := LittleEndianBytes(i.nSequence, 4);
    assert SerializeTxIn(i) == prevout + (script + sequence);
    HoldsBoth(data, at, prevout, script + sequence);
    HoldsBoth(data, at + |prevout|, script, sequence);
    OutPointExact(data, at, i.prevout, at + |prevout|);
    ScriptExact(data, at + |prevout|, i.scriptSig, at + |prevout| + |script|);
    Uint32Exact(data, at + |prevout| + |script|, i.nSequence, next);
    if ReadTxIn(data, at) == Ok(Read(i, next)) {
      OutPointExact(data, at, i.prevout, ReadOutPoint(data, at).value.next);
      ScriptExact(data, at + |prevout|, i.scriptSig, ReadScript(data, at + |prevout|).value.next);
    }
  }

  function SerializeTxOut(o: TxOut): bytes {
    LittleEndianBytes(ToUint64(o.nValue), 8) + Length(|o.scriptPubKey|) + o.scriptPubKey
  }

  predicate TxOutFits(o: TxOut) {
    |o.scriptPubKey| < LIMIT
  }

  function ReadTxOut(data: bytes, at: nat): Result<Read<TxOut>> {
    match ReadUint64(data, at)
    case Error => Error
    case Ok(value) =>
      match ReadScript(data, value.next)
      case Error => Error
      case Ok(script) => Ok(Read(TxOut(ToInt64(value.value), script.value), script.next))
  }

  lemma TxOutExact(data: bytes, at: nat, o: TxOut, next: nat)
    ensures ReadTxOut(data, at) == Ok(Read(o, next))
       <==> TxOutFits(o) && Holds(data, at, SerializeTxOut(o)) && next == at + |SerializeTxOut(o)|
  {
    hide ReadUint64, ReadScript, LittleEndianBytes, Holds;
    var value, script := LittleEndianBytes(ToUint64(o.nValue), 8), Length(|o.scriptPubKey|) + o.scriptPubKey;
    assert SerializeTxOut(o) == value + script;
    HoldsBoth(data, at, value, script);
    Uint64Exact(data, at, ToUint64(o.nValue), at + 8);
    ScriptExact(data, at + 8, o.scriptPubKey, next);
    if ReadTxOut(data, at) == Ok(Read(o, next)) {
      Uint64Exact(data, at, ToUint64(o.nValue), ReadUint64(data, at).value.next);
    }
  }

  function SerializeTransaction(tx: Transaction): bytes {
    LittleEndianBytes(ToUint32(tx.nVersion), 4)
    + Length(|tx.vin|) + WriteMany(SerializeTxIn, tx.vin)
    + Length(|tx.vout|) + WriteMany(SerializeTxOut, tx.vout)
    + LittleEndianBytes(tx.nLockTime, 4)
  }

  /** Where the fields of an input stand: the hash, the index, the script with its length, the sequence number. */
  lemma TxInLayout(i: TxIn)
    ensures var s, n := SerializeTxIn(i), |i.scriptSig|;
      && |s| == n + 44
      && s[..32] == i.prevout.txid
      && s[32..36] == LittleEndianBytes(i.prevout.n, 4)
      && s[36..40] == LittleEndianBytes(n % 0x1_0000_0000, 4)
      && s[40..40 + n] == i.scriptSig
      && s[40 + n..] == LittleEndianBytes(i.nSequence, 4)
    ensures SerializeOutPoint(i.prevout) == SerializeTxIn(i)[..36]
  {
    hide LittleEndianBytes;
  }

  /** Where the fields of an output stand: the amount in two's complement, and the script with its length. */
  lemma TxOutLayout(o: TxOut)
    ensures var s, n := SerializeTxOut(o), |o.scriptPubKey|;
      && |s| == n + 12
      && s[..8] == LittleEndianBytes(o.nValue % 0x1_0000_0000_0000_0000, 8)
      && s[8..12] == LittleEndianBytes(n % 0x1_0000_0000, 4)
      && s[12..] == o.scriptPubKey
  {
    hide LittleEndianBytes;
    LongTwosComplement(o.nValue, 0);
  }

  /** Where the fields of a transaction stand: version, inputs and outputs with their counts, lock time. */
  lemma TransactionLayout(tx: Transaction)
    ensures var s, n := SerializeTransaction(tx), |WriteMany(SerializeTxIn, tx.vin)|;
      && |s| == 16 + n + |WriteMany(SerializeTxOut, tx.vout)|
      && s[..4] == LittleEndianBytes(tx.nVersion % 0x1_0000_0000, 4)
      && s[4..8] == LittleEndianBytes(|tx.vin| % 0x1_0000_0000, 4)
      && s[8..8 + n] == WriteMany(SerializeTxIn, tx.vin)
      && s[8 + n..12 + n] == LittleEndianBytes(|tx.vout| % 0x1_0000_0000, 4)
      && s[12 + n..|s| - 4] == WriteMany(SerializeTxOut, tx.vout)
      && s[|s| - 4..] == LittleEndianBytes(tx.nLockTime, 4)
  {
    hide LittleEndianBytes, WriteMany;
    TwosComplement(tx.nVersion, 0);
    ListParts(LittleEndianBytes(ToUint32(tx.nVersion), 4), Length(|tx.vin|), WriteMany(SerializeTxIn, tx.vin),
              Length(|tx.vout|), WriteMany(SerializeTxOut, tx.vout), LittleEndianBytes(tx.nLockTime, 4));
  }

  lemma ListParts(a: bytes, b: bytes, c: bytes, d: bytes, e: bytes, f: bytes)
    requires |a| == |b| == |d| == |f| == 4
    ensures var s, n := a + b + c + d + e + f, |c|;
      && |s| == 16 + n + |e| && s[..4] == a && s[4..8] == b && s[8..8 + n] == c && s[8 + n..12 + n] == d
      && s[12 + n..|s| - 4] == e && s[|s| - 4..] == f
  {
  }

  function GetHash(h: Hasher, tx: Transaction): Hash256 {
    h(SerializeTransaction(tx))
  }

  /** All lengths fit the 32 bits that the format has for them. */
  predicate Fits(tx: Transaction) {
    && |tx.vin| < LIMIT && (forall i :: i in tx.vin ==> TxInFits(i))
    && |tx.vout| < LIMIT && (forall o :: o in tx.vout ==> TxOutFits(o))
  }

  lemma FitsExactly(tx: Transaction)
    ensures Fits(tx) <==>
      && |tx.vin| < 0x1_0000_0000 && (forall i :: i in tx.vin ==> |i.scriptSig| < 0x1_0000_0000)
      && |tx.vout| < 0x1_0000_0000 && (forall o :: o in tx.vout ==> |o.scriptPubKey| < 0x1_0000_0000)
  {
  }

  lemma HashOfTransaction(h: Hasher, tx: Transaction)
    ensures GetHash(h, tx) == h(SerializeTransaction(tx))
  {
  }

  /** A count and that many values. */
  function ReadList<T>(read: (bytes, nat) -> Result<Read<T>>, data: bytes, at: nat): Result<Read<seq<T>>> {
    match ReadUint32(data, at)
    case Error => Error
    case Ok(count) => ReadMany(read, data, count.next, count.value)
  }

  function SerializeList<T>(write: T -> bytes, values: seq<T>): bytes {
    Length(|values|) + WriteMany(write, values)
  }

  lemma ListExact<T(!new)>(read: (bytes, nat) -> Result<Read<T>>, write: T -> bytes, good: T -> bool,
                           data: bytes, at: nat, values: seq<T>, next: nat)
    requires Sound(read, write, good) && Complete(read, write, good)
    ensures ReadList(read, data, at) == Ok(Read(values, next))
       <==> && |values| < LIMIT && (forall x :: x in values ==> good(x))
            && Holds(data, at, SerializeList(write, values)) && next == at + |SerializeList(write, values)|
  {
    hide ReadUint32, LittleEndianBytes, Holds, ReadMany, WriteMany, Sound, Complete;
    HoldsBoth(data, at, Length(|values|), WriteMany(write, values));
    if ReadUint32(data, at).Ok? {
      var count := ReadUint32(data, at).value;
      Uint32Exact(data, at, count.value, count.next);
      CountHeld(data, at, count.value);
      ReadManySound(read, write, good, data, count.next, count.value);
    }
    if |values| < LIMIT {
      Uint32Exact(data, at, |values|, at + 4);
      if (forall x :: x in values ==> good(x)) && Holds(data, at + 4, WriteMany(write, values)) {
        ReadManyComplete(read, write, good, data, at + 4, values);
      }
    }
  }

  lemma CountHeld(data: bytes, at: nat, n: uint32)
    ensures Holds(data, at, LittleEndianBytes(n, 4)) ==> at + 4 <= |data| && Length(n) == LittleEndianBytes(n, 4)
  {
    hide LittleEndianBytes;
  }

  lemma TxInListExact(data: bytes, at: nat, values: seq<TxIn>, next: nat)
    ensures ReadList(ReadTxIn, data, at) == Ok(Read(values, next))
       <==> && |values| < LIMIT && (forall x :: x in values ==> TxInFits(x))
            && Holds(data, at, SerializeList(SerializeTxIn, values))
            && next == at + |SerializeList(SerializeTxIn, values)|
  {
    hide ReadTxIn, TxInFits, SerializeTxIn, Holds, ReadList, SerializeList;
    forall d, k: nat | ReadTxIn(d, k).Ok?
      ensures var r := ReadTxIn(d, k).value;
        TxInFits(r.value) && Holds(d, k, SerializeTxIn(r.value)) && r.next == k + |SerializeTxIn(r.value)|
    {
      TxInExact(d, k, ReadTxIn(d, k).value.value, ReadTxIn(d, k).value.next);
    }
    forall d, k: nat, x | TxInFits(x) && Holds(d, k, SerializeTxIn(x))
      ensures ReadTxIn(d, k) == Ok(Read(x, k + |SerializeTxIn(x)|))
    {
      TxInExact(d, k, x, k + |SerializeTxIn(x)|);
    }
    ListExact(ReadTxIn, SerializeTxIn, TxInFits, data, at, values, next);
  }

  lemma TxOutListExact(data: bytes, at: nat, values: seq<TxOut>, next: nat)
    ensures ReadList(ReadTxOut, data, at) == Ok(Read(values, next))
       <==> && |values| < LIMIT && (forall x :: x in values ==> TxOutFits(x))
            && Holds(data, at, SerializeList(SerializeTxOut, values))
            && next == at + |SerializeList(SerializeTxOut, values)|
  {
    hide ReadTxOut, TxOutFits, SerializeTxOut, Holds, ReadList, SerializeList;
    forall d, k: nat | ReadTxOut(d, k).Ok?
      ensures var r := ReadTxOut(d, k).value;
        TxOutFits(r.value) && Holds(d, k, SerializeTxOut(r.value)) && r.next == k + |SerializeTxOut(r.value)|
    {
      TxOutExact(d, k, ReadTxOut(d, k).value.value, ReadTxOut(d, k).value.next);
    }
    forall d, k: nat, x | TxOutFits(x) && Holds(d, k, SerializeTxOut(x))
      ensures ReadTxOut(d, k) == Ok(Read(x, k + |SerializeTxOut(x)|))
    {
      TxOutExact(d, k, x, k + |SerializeTxOut(x)|);
    }
    ListExact(ReadTxOut, SerializeTxOut, TxOutFits, data, at, values, next);
  }

  /** The stored fields, without the hash. */
  function ReadFields(data: bytes, at: nat, txHash: Hash256): Result<Read<Transaction>> {
    match ReadUint32(data, at)
    case Error => Error
    case Ok(version) =>
      match ReadList(ReadTxIn, data, version.next)
      case Error => Error
      case Ok(vin) =>
        match ReadList(ReadTxOut, data, vin.next)
        case Error => Error
        case Ok(vout) =>
          match ReadUint32(data, vout.next)
          case Error => Error
          case Ok(lockTime) =>
            var v := ToInt32(version.value);
            Ok(Read(Transaction(v, vin.value, vout.value, lockTime.value, txHash), lockTime.next))
  }

  function ReadTransaction(h: Hasher, data: bytes, at: nat): Result<Read<Transaction>> {
    match ReadFields(data, at, Zeros(32))
    case Error => Error
    case Ok(tx) => Ok(Read(tx.value.(txHash := GetHash(h, tx.value)), tx.next))
  }

  lemma FieldsExact(data: bytes, at: nat, tx: Transaction, next: nat)
    ensures ReadFields(data, at, tx.txHash) == Ok(Read(tx, next))
       <==> Fits(tx) && Holds(data, at, SerializeTransaction(tx)) && next == at + |SerializeTransaction(tx)|
  {
    hide ReadUint32, ReadList, SerializeList, LittleEndianBytes, Holds, TxInFits, TxOutFits;
    var version, lockTime := LittleEndianBytes(ToUint32(tx.nVersion), 4), LittleEndianBytes(tx.nLockTime, 4);
    var vin, vout := SerializeList(SerializeTxIn, tx.vin), SerializeList(SerializeTxOut, tx.vout);
    InParts(tx);
    HoldsBoth(data, at, version, vin + (vout + lockTime));
    HoldsBoth(data, at + 4, vin, vout + lockTime);
    HoldsBoth(data, at + 4 + |vin|, vout, lockTime);
    Uint32Exact(data, at, ToUint32(tx.nVersion), at + 4);
    TxInListExact(data, at + 4, tx.vin, at + 4 + |vin|);
    TxOutListExact(data, at + 4 + |vin|, tx.vout, at + 4 + |vin| + |vout|);
    Uint32Exact(data, at + 4 + |vin| + |vout|, tx.nLockTime, next);
    if ReadFields(data, at, tx.txHash) == Ok(Read(tx, next)) {
      Uint32Exact(data, at, ToUint32(tx.nVersion), ReadUint32(data, at).value.next);
      TxInListExact(data, at + 4, tx.vin, ReadList(ReadTxIn, data, at + 4).value.next);
      TxOutListExact(data, at + 4 + |vin|, tx.vout, ReadList(ReadTxOut, data, at + 4 + |vin|).value.next);
    }
  }

  lemma InParts(tx: Transaction)
    ensures SerializeTransaction(tx)
         == LittleEndianBytes(ToUint32(tx.nVersion), 4) + (SerializeList(SerializeTxIn, tx.vin)
            + (SerializeList(SerializeTxOut, tx.vout) + LittleEndianBytes(tx.nLockTime, 4)))
  {
    hide WriteMany, LittleEndianBytes;
  }

  /** The format is canonical in both directions: a transaction is read at `at` exactly when its
      lengths fit, its hash is its own, and its serialization is what the data holds there. */
  lemma TransactionExact(h: Hasher, data: bytes, at: nat, tx: Transaction, next: nat)
    ensures ReadTransaction(h, data, at) == Ok(Read(tx, next))
       <==> && Fits(tx) && tx.txHash == GetHash(h, tx)
            && Holds(data, at, SerializeTransaction(tx)) && next == at + |SerializeTransaction(tx)|
  {
    hide ReadFields, Holds, SerializeTransaction, Fits;
    var stored := tx.(txHash := Zeros(32));
    HashNotStored(tx, Zeros(32));
    FieldsExact(data, at, stored, next);
    if ReadFields(data, at, Zeros(32)).Ok? {
      var r := ReadFields(data, at, Zeros(32)).value;
      KeepsHash(data, at, Zeros(32));
      HashNotStored(r.value, GetHash(h, r.value));
    }
  }

  lemma KeepsHash(data: bytes, at: nat, txHash: Hash256)
    ensures ReadFields(data, at, txHash).Ok? ==> ReadFields(data, at, txHash).value.value.txHash == txHash
  {
    hide ReadList, ReadUint32;
  }

  lemma HashNotStored(tx: Transaction, txHash: Hash256)
    ensures SerializeTransaction(tx.(txHash := txHash)) == SerializeTransaction(tx)
    ensures Fits(tx.(txHash := txHash)) == Fits(tx)
  {
  }

  /** A serialized transaction is read back, wherever it stands, with its hash recomputed. */
  lemma TransactionRoundTrip(h: Hasher, prefix: bytes, tx: Transaction, suffix: bytes)
    requires Fits(tx)
    ensures ReadTransaction(h, prefix + SerializeTransaction(tx) + suffix, |prefix|)
         == Ok(Read(tx.(txHash := GetHash(h, tx)), |prefix| + |SerializeTransaction(tx)|))
  {
    hide ReadTransaction, Holds, SerializeTransaction, Fits;
    HoldsPart(prefix, SerializeTransaction(tx), suffix);
    HashNotStored(tx, GetHash(h, tx));
    TransactionExact(h, prefix + SerializeTransaction(tx) + suffix, |prefix|, tx.(txHash := GetHash(h, tx)),
                     |prefix| + |SerializeTransaction(tx)|);
  }

  /** Without the condition on lengths the round trip fails: it gives the transaction back if and only if they fit. */
  lemma RoundTripNeedsLengths(h: Hasher, tx: Transaction)
    requires tx.txHash == GetHash(h, tx)
    ensures ReadTransaction(h, SerializeTransaction(tx), 0) == Ok(Read(tx, |SerializeTransaction(tx)|)) <==> Fits(tx)
  {
    hide ReadTransaction, Fits, SerializeTransaction;
    TransactionExact(h, SerializeTransaction(tx), 0, tx, |SerializeTransaction(tx)|);
  }

  /** No strict prefix of an encoding is an encoding. */
  lemma NoPrefixOfTransaction(h: Hasher, tx: Transaction, k: nat)
    requires Fits(tx) && k < |SerializeTransaction(tx)|
    ensures ReadTransaction(h, SerializeTransaction(tx)[..k], 0).Error?
  {
    hide ReadTransaction, Fits, SerializeTransaction;
    var s := SerializeTransaction(tx);
    assert [] + s + [] == s;
    if ReadTransaction(h, s[..k], 0).Ok? {
      var r := ReadTransaction(h, s[..k], 0).value;
      TransactionExact(h, s[..k], 0, r.value, r.next);
      TransactionExact(h, s, 0, r.value, r.next);
      TransactionRoundTrip(h, [], tx, []);
      assert false;
    }
  }

  /** Serialization as the code does it, appending field by field. */
  method Serialize(tx: Transaction) returns (buffer: bytes)
    ensures buffer == SerializeTransaction(tx)
  {
    hide LittleEndianBytes, WriteMany;
    buffer := WriteUint32LE([], ToUint32(tx.nVersion));
    buffer := WriteUint32LE(buffer, |tx.vin| % LIMIT);
    buffer := AppendInputs(buffer, tx.vin);
    buffer := WriteUint32LE(buffer, |tx.vout| % LIMIT);
    buffer := AppendOutputs(buffer, tx.vout);
    buffer := WriteUint32LE(buffer, tx.nLockTime);
  }

  method AppendInputs(out: bytes, vin: seq<TxIn>) returns (buffer: bytes)
    ensures buffer == out + WriteMany(SerializeTxIn, vin)
  {
    hide SerializeTxIn;
    buffer := out;
    for i := 0 to |vin|
      invariant buffer == out + WriteMany(SerializeTxIn, vin[..i])
    {
      assert vin[..i + 1][..i] == vin[..i];
      buffer := buffer + SerializeTxIn(vin[i]);
    }
    assert vin[..|vin|] == vin;
  }

  method AppendOutputs(out: bytes, vout: seq<TxOut>) returns (buffer: bytes)
    ensures buffer == out + WriteMany(SerializeTxOut, vout)
  {
    hide SerializeTxOut;
    buffer := out;
    for i := 0 to |vout|
      invariant buffer == out + WriteMany(SerializeTxOut, vout[..i])
    {
      assert vout[..i + 1][..i] == vout[..i];
      buffer := buffer + SerializeTxOut(vout[i]);
    }
    assert vout[..|vout|] == vout;
  }

  method DeserializeInputs(data: bytes, offset: nat) returns (r: Result<Read<seq<TxIn>>>)
    ensures r == ReadList(ReadTxIn, data, offset)
  {
    hide ReadUint32, ReadTxIn;
    var count := ReadUint32LE(data, offset);
    if count.Error? {
      return Error;
    }
    var vin, at := [], count.value.next;
    for i := 0 to count.value.value
      invariant ReadMany(ReadTxIn, data, count.value.next, i) == Ok(Read(vin, at))
    {
      var txin := ReadTxIn(data, at);
      if txin.Error? {
        ReadManyStops(ReadTxIn, data, count.value.next, i + 1, count.value.value);
        return Error;
      }
      vin, at := vin + [txin.value.value], txin.value.next;
    }
    r := Ok(Read(vin, at));
  }

  method DeserializeOutputs(data: bytes, offset: nat) returns (r: Result<Read<seq<TxOut>>>)
    ensures r == ReadList(ReadTxOut, data, offset)
  {
    hide ReadUint32, ReadTxOut;
    var count := ReadUint32LE(data, offset);
    if count.Error? {
      return Error;
    }
    var vout, at := [], count.value.next;
    for i := 0 to count.value.value
      invariant ReadMany(ReadTxOut, data, count.value.next, i) == Ok(Read(vout, at))
    {
      var txout := ReadTxOut(data, at);
      if txout.Error? {
        ReadManyStops(ReadTxOut, data, count.value.next, i + 1, count.value.value);
        return Error;
      }
      vout, at := vout + [txout.value.value], txout.value.next;
    }
    r := Ok(Read(vout, at));
  }

  method Deserialize(h: Hasher, data: bytes, offset: nat) returns (r: Result<Read<Transaction>>)
    ensures r == ReadTransaction(h, data, offset)
  {
    hide ReadUint32, ReadList, SerializeTransaction;
    var version := ReadUint32LE(data, offset);
    if version.Error? {
      return Error;
    }
    var vin := DeserializeInputs(data, version.value.next);
    if vin.Error? {
      return Error;
    }
    var vout := DeserializeOutputs(data, vin.value.next);
    if vout.Error? {
      return Error;
    }
    var lockTime := ReadUint32LE(data, vout.value.next);
    if lockTime.Error? {
      return Error;
    }
    var v := ToInt32(version.value.value);
    var tx := Transaction(v, vin.value.value, vout.value.value, lockTime.value.value, Zeros(32));
    var serialized := Serialize(tx);
    r := Ok(Read(tx.(txHash := h(serialized)), lockTime.value.next));
  }
}
