/** The forward-transaction message that carries a micro-block's
    transaction bodies from the shard that agreed it to the nodes of other
    committees, and on from there:
      [32-byte block number] [32-byte micro-block transaction root]
      [transaction] [transaction] ...
    after the two message-type bytes. Transactions have one serialised
    size; the reader takes as many whole transactions as the message holds.

    The serialised form of a transaction belongs to the transaction type,
    whose code is not part of this model: here a transaction is written as
    its 32-byte id followed by the rest of its serialised form, of a fixed
    length `bodySize`. */
module ForwardTxn {
  import opened Wire
  import opened Types

  /** A transaction as written into the message. */
  function EncodeTxn(tx: Transaction): seq<byte>
  {
    tx.id + tx.body
  }

  /** Transactions written one after the other. */
  function EncodeTxns(txns: seq<Transaction>): seq<byte>
    decreases |txns|
  {
    if |txns| == 0 then [] else EncodeTxn(txns[0]) + EncodeTxns(txns[1..])
  }

  /** The message body the sending side builds. */
  function EncodeForward(blockNum: nat, rootHash: TxnHash, txns: seq<Transaction>): seq<byte>
  {
    ToBigEndian(blockNum, UINT256_SIZE) + rootHash + EncodeTxns(txns)
  }

  /** The transaction of serialised size `TRAN_HASH_SIZE + bodySize` that
      starts at `off`. */
  function TxnAt(msg: seq<byte>, off: nat, bodySize: nat): Transaction
    requires off + TRAN_HASH_SIZE + bodySize <= |msg|
  {
    Transaction(msg[off..off + TRAN_HASH_SIZE], msg[off + TRAN_HASH_SIZE..off + TRAN_HASH_SIZE + bodySize])
  }

  /** Every whole transaction from `off` to the end of the message. */
  function TxnsFrom(msg: seq<byte>, off: nat, bodySize: nat): seq<Transaction>
    decreases |msg| - off
  {
    if off + TRAN_HASH_SIZE + bodySize > |msg| then []
    else [TxnAt(msg, off, bodySize)] + TxnsFrom(msg, off + TRAN_HASH_SIZE + bodySize, bodySize)
  }

  datatype Forwarded = Forwarded(blockNum: nat, rootHash: TxnHash, txns: seq<Transaction>)

  /** The block number, root and transactions of a forward message body at
      `off`; `None` when the message is too short for the two leading
      fields. */
  function DecodeForward(msg: seq<byte>, off: nat, bodySize: nat): Option<Forwarded>
  {
    if off + UINT256_SIZE + TRAN_HASH_SIZE > |msg| then None
    else
      var h := off + UINT256_SIZE;
      Some(Forwarded(BigEndianAt(msg, off, UINT256_SIZE), msg[h..h + TRAN_HASH_SIZE],
                     TxnsFrom(msg, h + TRAN_HASH_SIZE, bodySize)))
  }

  /** A transaction of the right shape for the wire. */
  predicate TxnFits(tx: Transaction, bodySize: nat)
  {
    |tx.id| == TRAN_HASH_SIZE && |tx.body| == bodySize
  }

  predicate TxnsFit(txns: seq<Transaction>, bodySize: nat)
  {
    forall i :: 0 <= i < |txns| ==> TxnFits(txns[i], bodySize)
  }

  /** Appending one transaction appends its encoding. */
  lemma {:induction false} EncodeTxnsAppend(txns: seq<Transaction>, tx: Transaction)
    ensures EncodeTxns(txns + [tx]) == EncodeTxns(txns) + EncodeTxn(tx)
    decreases |txns|
  {
    if |txns| > 0 {
      assert (txns + [tx])[1..] == txns[1..] + [tx];
      EncodeTxnsAppend(txns[1..], tx);
    }
  }

  /** Fitting transactions take one serialised size each. */
  lemma {:induction false} EncodeTxnsLength(txns: seq<Transaction>, bodySize: nat)
    requires TxnsFit(txns, bodySize)
    ensures |EncodeTxns(txns)| == |txns| * (TRAN_HASH_SIZE + bodySize)
    decreases |txns|
  {
    if |txns| > 0 {
      assert TxnFits(txns[0], bodySize);
      EncodeTxnsLength(txns[1..], bodySize);
    }
  }

  /** The slice of `msg` that `BytesAt` places is the encoding itself. */
  lemma SliceAt(msg: seq<byte>, off: nat, enc: seq<byte>)
    requires BytesAt(msg, off, enc)
    ensures msg[off..off + |enc|] == enc
  {
  }

  /** The slice of `msg` at `off` sits there. */
  lemma AtSlice(msg: seq<byte>, off: nat, end: nat)
    requires off <= end <= |msg|
    ensures BytesAt(msg, off, msg[off..end])
  {
  }

  /** Transactions written right up to the end of the message read back. */
  lemma {:induction false} TxnsFromRoundTrip(msg: seq<byte>, off: nat, txns: seq<Transaction>, bodySize: nat)
    requires TxnsFit(txns, bodySize)
    requires BytesAt(msg, off, EncodeTxns(txns)) && off + |EncodeTxns(txns)| == |msg|
    ensures TxnsFrom(msg, off, bodySize) == txns
    decreases |txns|
  {
    if |txns| > 0 {
      var tx := txns[0];
      var size := TRAN_HASH_SIZE + bodySize;
      assert TxnFits(tx, bodySize);
      BytesAtSplit(msg, off, EncodeTxns(txns), EncodeTxn(tx), EncodeTxns(txns[1..]));
      BytesAtSplit(msg, off, EncodeTxn(tx), tx.id, tx.body);
      SliceAt(msg, off, tx.id);
      SliceAt(msg, off + TRAN_HASH_SIZE, tx.body);
      assert TxnAt(msg, off, bodySize) == tx;
      assert TxnsFit(txns[1..], bodySize) by {
        forall i | 0 <= i < |txns[1..]| ensures TxnFits(txns[1..][i], bodySize) {
          assert txns[1..][i] == txns[i + 1];
        }
      }
      TxnsFromRoundTrip(msg, off + size, txns[1..], bodySize);
    } else {
      assert off + TRAN_HASH_SIZE + bodySize > |msg|;
    }
  }

  /** Whatever the reader takes are fitting transactions whose encodings
      fill the message from `off`, up to a tail shorter than one
      transaction, which is ignored. */
  lemma {:induction false} TxnsFromSound(msg: seq<byte>, off: nat, bodySize: nat)
    requires off <= |msg|
    ensures var txns := TxnsFrom(msg, off, bodySize);
      && TxnsFit(txns, bodySize)
      && BytesAt(msg, off, EncodeTxns(txns))
      && |msg| - (off + |EncodeTxns(txns)|) < TRAN_HASH_SIZE + bodySize
    decreases |msg| - off
  {
    var size := TRAN_HASH_SIZE + bodySize;
    if off + size <= |msg| {
      var tx := TxnAt(msg, off, bodySize);
      TxnsFromSound(msg, off + size, bodySize);
      var rest := TxnsFrom(msg, off + size, bodySize);
      AtSlice(msg, off, off + TRAN_HASH_SIZE);
      AtSlice(msg, off + TRAN_HASH_SIZE, off + size);
      BytesAtJoin(msg, off, tx.id, tx.body);
      BytesAtJoin(msg, off, EncodeTxn(tx), EncodeTxns(rest));
      assert ([tx] + rest)[1..] == rest;
      assert TxnsFit([tx] + rest, bodySize) by {
        forall i | 0 <= i < |[tx] + rest| ensures TxnFits(([tx] + rest)[i], bodySize) {
          if i > 0 { assert ([tx] + rest)[i] == rest[i - 1]; }
        }
      }
    }
  }

  /** Reading a whole forward message body back gives the block number,
      the root and the transactions that were written. */
  lemma ForwardRoundTrip(msg: seq<byte>, off: nat, blockNum: nat, rootHash: TxnHash,
                         txns: seq<Transaction>, bodySize: nat)
    requires blockNum < Pow256(UINT256_SIZE) && |rootHash| == TRAN_HASH_SIZE && TxnsFit(txns, bodySize)
    requires BytesAt(msg, off, EncodeForward(blockNum, rootHash, txns))
    requires off + |EncodeForward(blockNum, rootHash, txns)| == |msg|
    ensures DecodeForward(msg, off, bodySize) == Some(Forwarded(blockNum, rootHash, txns))
  {
    var n := ToBigEndian(blockNum, UINT256_SIZE);
    var h := off + UINT256_SIZE;
    BytesAtSplit(msg, off, EncodeForward(blockNum, rootHash, txns), n + rootHash, EncodeTxns(txns));
    BytesAtSplit(msg, off, n + rootHash, n, rootHash);
    ReadWritten(msg, off, blockNum, UINT256_SIZE);
    SliceAt(msg, h, rootHash);
    TxnsFromRoundTrip(msg, h + TRAN_HASH_SIZE, txns, bodySize);
  }

  /** The forward message body is the 32-byte block number, the 32-byte
      root and one fixed-size record per transaction. */
  lemma ForwardLength(blockNum: nat, rootHash: TxnHash, txns: seq<Transaction>, bodySize: nat)
    requires |rootHash| == TRAN_HASH_SIZE && TxnsFit(txns, bodySize)
    ensures |EncodeForward(blockNum, rootHash, txns)| ==
            UINT256_SIZE + TRAN_HASH_SIZE + |txns| * (TRAN_HASH_SIZE + bodySize)
  {
    EncodeTxnsLength(txns, bodySize);
  }

  /** The message the sending side broadcasts, for the receiving side
      which is handed the offset just past the message-type prefix, is
      read back in full. */
  lemma BroadcastRoundTrip(prefix: seq<byte>, blockNum: nat, rootHash: TxnHash,
                           txns: seq<Transaction>, bodySize: nat)
    requires blockNum < Pow256(UINT256_SIZE) && |rootHash| == TRAN_HASH_SIZE && TxnsFit(txns, bodySize)
    ensures DecodeForward(prefix + EncodeForward(blockNum, rootHash, txns), |prefix|, bodySize)
            == Some(Forwarded(blockNum, rootHash, txns))
  {
    var msg := prefix + EncodeForward(blockNum, rootHash, txns);
    assert BytesAt(msg, |prefix|, EncodeForward(blockNum, rootHash, txns)) by {
      forall i | 0 <= i < |EncodeForward(blockNum, rootHash, txns)|
        ensures msg[|prefix| + i] == EncodeForward(blockNum, rootHash, txns)[i]
      {
      }
    }
    ForwardRoundTrip(msg, |prefix|, blockNum, rootHash, txns, bodySize);
  }
}
