/** The values a shard node handles while it processes a final block: peers,
    transactions, the final block and the node's own micro-block, the round
    state and the transaction-sharing modes. */
module Types {
  import opened Wire

  /** A digest: a transaction id or a micro-block transaction-root hash
      (32 bytes on the wire). */
  type TxnHash = seq<byte>

  /** A network participant: IP address and listening port. Two peers are
      the same peer when both fields agree. */
  datatype Peer = Peer(ip: nat, port: nat)

  /** A transaction. Its body is kept as the opaque bytes it serialises to;
      only the id is inspected by this core. */
  datatype Transaction = Transaction(id: TxnHash, body: seq<byte>)

  /** The part of a final (transaction) block that this core reads: its
      block number, the transaction root its header declares, and the
      per-shard micro-block transaction-root hashes it lists. */
  datatype TxBlock = TxBlock(blockNum: nat, txRootHash: TxnHash, microBlockHashes: seq<TxnHash>)

  /** This shard's agreed micro-block: its transaction root and the ordered
      ids of the transactions it contains. */
  datatype MicroBlock = MicroBlock(txRootHash: TxnHash, tranHashes: seq<TxnHash>)

  /** The node's round state. */
  datatype NodeState =
    | Pow1Submission
    | TxSubmission
    | TxSubmissionBuffer
    | MicroblockConsensus
    | WaitingFinalblock
    | ProcessFinalblock

  /** The node's duty in disseminating transaction bodies for one block. */
  datatype TxSharingMode =
    | Idle
    | SendOnly
    | DsForwardOnly
    | NodeForwardOnly
    | SendAndForward

  /** Whether a mode makes the node send its own shard's transaction bodies
      to other committees. */
  predicate SendsBodies(mode: TxSharingMode)
  {
    mode == SendOnly || mode == SendAndForward
  }

  /** A message handed to the network layer for broadcast to `to`,
      recorded instead of sent. */
  datatype Outgoing = Broadcast(to: seq<Peer>, message: seq<byte>)

  /** The digests that occur in `hashes`. */
  function Ids(hashes: seq<TxnHash>): set<TxnHash>
  {
    set i | 0 <= i < |hashes| :: hashes[i]
  }

  /** The ids of `txns`, in order. */
  function TranIds(txns: seq<Transaction>): (r: seq<TxnHash>)
    ensures |r| == |txns| && forall i :: 0 <= i < |txns| ==> r[i] == txns[i].id
  {
    seq(|txns|, i requires 0 <= i < |txns| => txns[i].id)
  }

  /** Optional value (the source's null reference or absent entry). */
  datatype Option<T> = None | Some(value: T)
}
