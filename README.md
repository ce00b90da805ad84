# Final-block processing of a Zilliqa shard node, in Dafny

This project models `src/libNode/FinalBlockProcessing.cpp`: what a shard
node does when the DS committee's final block arrives, and what it does with
the forwarded-transaction messages that follow.

**Final block.** The message holds a 37-byte header: the DS block number,
the consensus id and the node's shard id. Then come the Tx block and the
transaction-body sharing setup.

The node processes the message in these steps:

1. It takes the message only while waiting for the final block, or after its
   micro-block consensus.
2. It refuses a header for another DS block or another consensus round.
3. It records the block's micro-block roots as outstanding and stores the
   block.
4. It moves the epoch on and prunes the committed transactions of the epoch
   two back.
5. It starts the next round: a proof of work every `NUM_FINAL_BLOCK_PER_POW`
   blocks, the next consensus round otherwise.
6. It decodes the sharing setup. The setup gives the DS forwarders, then each
   shard's receiver list and sender list.
7. The node's own shard's lists make it a forwarder, a sender, both or
   neither.
8. For that role it plans the block's forward list.
9. It reconciles its own shard's micro-block against the submitted and
   received pools, moving each transaction onto the committed list.
10. It broadcasts the bodies to the sending assignment.

**Forwarded transactions.** A forwarded-transaction message holds a block
number, a micro-block root and whole transactions. The node takes the
message when the transaction ids have that root and the root is still
outstanding. It then commits the transactions, completes the block's
tracker entry and relays the message to the block's forward list.

## Structure

- `wire.dfy` (`Wire`): field widths and the big-endian number codec, with
  its round-trip lemmas.
- `types.dfy` (`Types`): peers, transactions, blocks, node states, sharing
  modes and outgoing messages.
- `header.dfy` (`Header`): the 37-byte header and when it is accepted.
- `tracker.dfy` (`Tracker`): the table of outstanding micro-block roots per
  block.
- `pools.dfy` (`Pools`): the reconciliation of one block's micro-block, on
  values. `CommitAll` is the left fold the loop computes. `Lookup` is an
  independent reference definition.
- `forwarding.dfy` (`Forwarding`): building a forward list, including the
  swap-and-pop removal of fellow forwarders.
- `sharing.dfy` (`Sharing`): the sharing-setup format as a decoder and an
  encoder, proved inverse in both directions. It also has the layout of the
  decoded `nodes` lists, the sender-target list, and the two decoding loops.
- `forwardtxn.dfy` (`ForwardTxn`): the forwarded-transaction message format,
  with its round trips.
- `node.dfy` (`FinalBlockProcessing`): class `Node`, with the source's fields
  and member functions as methods. Each method is proved against the value
  functions above:
  - `ShareStep` is the node's own micro-block step.
  - `ForwardStep` is the effect of a forwarded message.
  - `FinalBlockStep` is the whole of an accepted final block.

## Model

| member | source | states |
|---|---|---|
| Header.DecodeAux | src/libNode/FinalBlockProcessing.cpp:49-81 | on success the decoder stops exactly 37 bytes (32 + 4 + 1) past the offset, within the message |
| Header.AuxRoundTrip | src/libNode/FinalBlockProcessing.cpp:49-81 | a header whose numbers fit their widths, written anywhere in a message, decodes to itself and ends 37 bytes on |
| Header.AuxSound | src/libNode/FinalBlockProcessing.cpp:49-81 | whatever the header decoder returns fits the field widths and is exactly what the 37 bytes it consumed encode |
| FinalBlockProcessing.Node.ReadAuxilliaryInfoFromFinalBlockMsg | src/libNode/FinalBlockProcessing.cpp:49-81 | accepted iff the header decodes, its DS block number is the last DS block and its consensus id is the node's; then the offset has moved past the header and the shard id is the one read; on refusal the shard id is unchanged; a wrong DS block number leaves the offset just past that number (32 bytes on), a wrong consensus id leaves it just past the id (36 bytes on); on a message too short to hold a field the offset is otherwise unspecified |
| FinalBlockProcessing.PruneKey | src/libNode/FinalBlockProcessing.cpp:86-88 | the pruned key is `epoch - 2` for epoch >= 2 and wraps to 2^64 - 2 + epoch below that (64-bit unsigned subtraction) |
| FinalBlockProcessing.Node.StoreFinalBlock | src/libNode/FinalBlockProcessing.cpp:83-121 | the block is appended to the chain, the epoch becomes the chain length as a 64-bit number, and the committed list of `PruneKey(epoch)` is dropped and nothing else |
| Tracker.TakeEffect | src/libNode/FinalBlockProcessing.cpp:123-128 | taking a root out leaves the block's outstanding set without it, the root no longer found, and every other block's set as it was |
| FinalBlockProcessing.Node.IsMicroBlockTxRootHashInFinalBlock | src/libNode/FinalBlockProcessing.cpp:123-128 | reports whether the root was outstanding for the block and takes it out of the block's set (creating the entry) |
| Tracker.LoadContents | src/libNode/FinalBlockProcessing.cpp:130-159 | loading a block's micro-block hashes makes its outstanding set the old set plus exactly those hashes; the entry exists iff it did or there was a hash; other blocks are untouched |
| Tracker.TakeLoaded | src/libNode/FinalBlockProcessing.cpp:130-159 | every hash just loaded for a block is found there, and is not found once taken |
| FinalBlockProcessing.Node.LoadUnavailableMicroBlockTxRootHashes | src/libNode/FinalBlockProcessing.cpp:130-159 | the loop leaves the tracker equal to loading every micro-block hash of the block, in order |
| Pools.CommitAllAppends | src/libNode/FinalBlockProcessing.cpp:286-321 | for any ids, reconciliation only appends to the committed list, at most one transaction per id, each taken from one of the two pools; the send list gets the same transactions exactly when the mode sends bodies; the pools only lose entries |
| Pools.CommitAllIsLookup | src/libNode/FinalBlockProcessing.cpp:286-321 | for distinct ids, the committed list grows by exactly `Lookup`: the named transactions in micro-block order, submitted pool before received pool; the send list grows by the same when the mode sends; the pools lose exactly the moved entries |
| Pools.CommitAllNext | src/libNode/FinalBlockProcessing.cpp:293-307 | reconciling one more id is one more `MoveOne` step after the others |
| FinalBlockProcessing.Node.FindTxnInSubmittedTxnsList | src/libNode/FinalBlockProcessing.cpp:162-222 | found iff the block's submitted pool holds the id; then it leaves the pool, goes onto the committed list and onto the send list for sending modes; both per-block entries exist afterwards |
| FinalBlockProcessing.Node.FindTxnInReceivedTxnsList | src/libNode/FinalBlockProcessing.cpp:224-284 | the same move from the received pool |
| FinalBlockProcessing.Node.CommitMyShardsMicroBlock | src/libNode/FinalBlockProcessing.cpp:286-321 | the loop over the micro-block's ids computes `Pools.CommitAll` (committed list created only if there is an id); both pools of the block are dropped; the returned bodies are the reconciliation's send list |
| FinalBlockProcessing.Node.BroadcastTransactionsToSendingAssignment | src/libNode/FinalBlockProcessing.cpp:323-370 | when there are bodies, exactly one message is broadcast to the assignment: the forward prefix, the 32-byte block number, the root and each transaction in order; nothing otherwise |
| ForwardTxn.BroadcastRoundTrip | src/libNode/FinalBlockProcessing.cpp:323-370 | the message a sender builds decodes, behind its prefix, to the same block number, root and transactions |
| ForwardTxn.ForwardLength | src/libNode/FinalBlockProcessing.cpp:333-358 | the message body is 32 bytes of block number, 32 bytes of root and one fixed-size record (id and body) per transaction |
| Forwarding.OthersThanIsSplice | src/libNode/FinalBlockProcessing.cpp:383-400 | the shard members other than the node are the members list with the node's own index cut out |
| Forwarding.OthersThanContents | src/libNode/FinalBlockProcessing.cpp:383-400 | those members are, as a multiset, all members minus the node's entry; one shorter exactly when the index is in range |
| Forwarding.SwapPopContents | src/libNode/FinalBlockProcessing.cpp:402-415 | removing a fellow by overwriting its first occurrence with the last entry and popping removes exactly one occurrence (as a multiset), or nothing when absent |
| Forwarding.RemoveFellowsContents | src/libNode/FinalBlockProcessing.cpp:402-415 | removing each fellow in turn leaves the multiset difference of the list and the fellows |
| Forwarding.RemoveFellowsLength | src/libNode/FinalBlockProcessing.cpp:402-415 | the list shrinks by exactly the size of the multiset intersection with the fellows |
| Forwarding.BuildForwardList | src/libNode/FinalBlockProcessing.cpp:372-422 | the loops append every other shard member to the existing list and then remove each fellow forwarder by swap-and-pop, as `RemoveFellows` defines |
| FinalBlockProcessing.Node.LoadForwardingAssignmentFromFinalBlock | src/libNode/FinalBlockProcessing.cpp:372-422 | the block's forward list becomes the built list and no other block's list changes |
| FinalBlockProcessing.Node.IsMyShardsMicroBlockTxRootHashInFinalBlock | src/libNode/FinalBlockProcessing.cpp:424-428 | true iff the node has a micro-block whose root was outstanding for the block, which is then taken out; the tracker is untouched without a micro-block |
| FinalBlockProcessing.InsertNew | src/libNode/FinalBlockProcessing.cpp:451-456 | a DS forwarder's insertion keeps an existing list for the block and adds the given one otherwise; other blocks are unchanged |
| FinalBlockProcessing.ShareStepCommits | src/libNode/FinalBlockProcessing.cpp:475-490 | with an outstanding root and distinct ids: the root is no longer outstanding, the block's committed list grows by `Pools.Lookup` of the ids, other blocks' lists are unchanged, both pools of the block are gone, and exactly one broadcast of those bodies happens iff the mode sends bodies and there are targets and bodies |
| FinalBlockProcessing.ShareStepSkips | src/libNode/FinalBlockProcessing.cpp:475-490 | with a root that was not outstanding, only the tracker changes, and the root stays absent |
| FinalBlockProcessing.ShareStepLeavesEmptyEntry | src/libNode/FinalBlockProcessing.cpp:123-128 | as written: when the node's own root was the block's last outstanding one, the own micro-block step leaves the block an empty tracker entry, which this path never deletes |
| FinalBlockProcessing.Node.ShareMicroBlock | src/libNode/FinalBlockProcessing.cpp:475-490 | the node's fields move exactly as `ShareStep` prescribes |
| FinalBlockProcessing.Node.ActOnFinalBlock | src/libNode/FinalBlockProcessing.cpp:430-494 | always true; a DS forwarder inserts the list for the last block, a shard forwarder builds its forward list, others leave the table; then the micro-block step with the given list as sending assignment for a sender and none otherwise |
| FinalBlockProcessing.Node.ActOnFinalBlockSendAndForward | src/libNode/FinalBlockProcessing.cpp:496-538 | true iff the mode is send-and-forward, and then the forward list is built from the fellows and the micro-block step sends to the given assignment; any other mode changes nothing |
| FinalBlockProcessing.Node.InitiatePoW1 | src/libNode/FinalBlockProcessing.cpp:540-559 | consensus id and leader id go back to 0 and the state is proof-of-work submission |
| FinalBlockProcessing.Node.UpdateStateForNextConsensusRound | src/libNode/FinalBlockProcessing.cpp:561-592 | leader id and consensus id advance by one, the node is primary iff it is the new leader, and the state is transaction submission |
| FinalBlockProcessing.Node.StartNextRound | src/libNode/FinalBlockProcessing.cpp:947-956 | a new proof of work when the epoch is a multiple of the period, the next consensus round otherwise |
| Sharing.SetupRoundTrip | src/libNode/FinalBlockProcessing.cpp:639-781 | a well-formed sharing setup written anywhere in a message decodes to itself and stops right after its encoding |
| Sharing.DecodeSetupSound | src/libNode/FinalBlockProcessing.cpp:639-781 | whatever a successful decode returns is well formed and is exactly what the consumed bytes encode (the other direction of the round trip) |
| Sharing.DecodeShardsRoundTrip | src/libNode/FinalBlockProcessing.cpp:688-780 | any fitting sequence of shard rosters written at an offset decodes back to itself |
| Sharing.DecodeShardsSound | src/libNode/FinalBlockProcessing.cpp:688-780 | decoded shard rosters are exactly what the bytes they consumed encode |
| Sharing.PeersFromRoundTrip | src/libNode/FinalBlockProcessing.cpp:672-680 | fitting peers written one after another read back as the same peers |
| Sharing.ReadPeerList | src/libNode/FinalBlockProcessing.cpp:663-680 | the loop succeeds iff the count-prefixed list decodes, returns exactly the decoded peers and end offset, and notes the node iff it is among them |
| FinalBlockProcessing.Node.ReadShardRosters | src/libNode/FinalBlockProcessing.cpp:688-780 | the loop succeeds iff all n rosters decode, returns their lists in order, and sets the forwarder (sender) flag iff the node's own shard exists and the node is among its receivers (senders) |
| FinalBlockProcessing.Node.LoadTxnSharingInfo | src/libNode/FinalBlockProcessing.cpp:627-781 | succeeds iff the sharing setup decodes, and then `nodes` is the DS forwarders followed by each shard's receivers and senders, and the two flags are exactly the node's membership of its own shard's lists |
| Sharing.NodesLayout | src/libNode/FinalBlockProcessing.cpp:670-780 | the decoded `nodes` has 1 + 2S lists: DS forwarders at 0, shard k's receivers at 2k+1 and its senders at 2k+2 |
| Sharing.ForwarderListAsWritten | src/libNode/FinalBlockProcessing.cpp:787-792 | the list a forwarder takes, at index shard_id + 1, is shard shard_id/2's receivers for an even id and its senders for an odd id; it is the node's own receivers only for shard 0 |
| Sharing.SendTargetsMembers | src/libNode/FinalBlockProcessing.cpp:795-815 | a peer is gathered iff it is in the first list or in the odd-index list of some shard other than the node's |
| Sharing.SendTargetsOfSetup | src/libNode/FinalBlockProcessing.cpp:795-815 | on a decoded setup, the sender targets are exactly the DS forwarders and the receivers of every other shard |
| Sharing.CollectSendTargets | src/libNode/FinalBlockProcessing.cpp:795-815 | the two loops build exactly `SendTargets`, the first list followed by the other shards' receiver lists in index order |
| FinalBlockProcessing.Role | src/libNode/FinalBlockProcessing.cpp:783-852 | idle iff neither flag; the mode sends bodies iff the node is a sender; it forwards iff it is a forwarder; never DS-forward-only |
| FinalBlockProcessing.Node.CallActOnFinalBlockBasedOnSenderForwarderAssgn | src/libNode/FinalBlockProcessing.cpp:783-852 | the forward table becomes `Planned` for the role and the micro-block step sends to `SendingAssignment` for the role |
| FinalBlockProcessing.Node.ActOnSharingSetup | src/libNode/FinalBlockProcessing.cpp:957-963 | true iff the setup decodes; if not, nothing changes; if so, the node acted on its role in the decoded setup; round state and chain are untouched |
| FinalBlockProcessing.Node.RecordFinalBlock | src/libNode/FinalBlockProcessing.cpp:921-956 | the roots are recorded as outstanding, the block is stored, the epoch and pruning follow, and the next round starts as `StartNextRound` says; pools, forward table and messages are unchanged |
| FinalBlockProcessing.Node.ProcessAcceptedFinalBlock | src/libNode/FinalBlockProcessing.cpp:921-977 | past an accepted header, the node's fields move as `FinalBlockStep` says |
| FinalBlockProcessing.Node.ProcessFinalBlock | src/libNode/FinalBlockProcessing.cpp:880-978 | in any state but waiting-for-final-block or micro-block-consensus the message is refused and nothing changes; a refused header changes nothing except the state, which stays waiting-for-final-block when it was that and is processing-final-block when the node came from micro-block consensus; otherwise the block is recorded, the round moves on, and the result is whether the sharing setup decodes, in which case the node acted on its role; in every case the node's micro-block and DS block count are unchanged |
| ForwardTxn.TxnsFromSound | src/libNode/FinalBlockProcessing.cpp:992-1005 | the transactions read to the end of a message fit the body size and are exactly the bytes they consumed; the leftover is shorter than one transaction |
| ForwardTxn.TxnsFromRoundTrip | src/libNode/FinalBlockProcessing.cpp:992-1005 | fitting transactions written up to the end of a message read back as the same transactions |
| ForwardTxn.ForwardRoundTrip | src/libNode/FinalBlockProcessing.cpp:1093-1108 | an encoded forwarded-transaction body decodes to its block number, root and transactions |
| FinalBlockProcessing.Node.LoadForwardedTxnsAndCheckRoot | src/libNode/FinalBlockProcessing.cpp:980-1008 | the root is the 32 bytes at the offset, the loop reads exactly `TxnsFrom` to the end of the message, and the result is whether those ids, in order, have that root |
| FinalBlockProcessing.Node.CommitForwardedTransactions | src/libNode/FinalBlockProcessing.cpp:1010-1049 | the transactions are appended, in order, to the block's committed list |
| FinalBlockProcessing.Node.LoadFwdingAssgnForThisBlockNum | src/libNode/FinalBlockProcessing.cpp:1052-1062 | the block's stored forward list, or the empty list when there is none |
| Tracker.CompleteEffect | src/libNode/FinalBlockProcessing.cpp:1065-1088 | an entry is dropped, with the block's forward list, iff no root is outstanding for it; otherwise both tables are unchanged |
| Tracker.LastTakeCompletes | src/libNode/FinalBlockProcessing.cpp:1113-1125 | taking the last outstanding root of a block completes it: the entry and the forward list of the block are gone |
| FinalBlockProcessing.Node.DeleteEntryFromFwdingAssgnAndMissingBodyCountMap | src/libNode/FinalBlockProcessing.cpp:1065-1088 | the tracker and the forward table move as `CompleteTracker` and `CompleteAssignment` say |
| FinalBlockProcessing.Node.ProcessForwardTransaction | src/libNode/FinalBlockProcessing.cpp:1090-1136 | the result is whether the message is accepted against the old tracker, and the tracker, committed lists, forward table and messages move exactly as `ForwardStep` says |
| FinalBlockProcessing.Node.ForwardReplayRefused | src/libNode/FinalBlockProcessing.cpp:1090-1136 | a forwarded message that was taken is refused when it arrives again, and the second arrival commits nothing, relays nothing and leaves the forward table alone |
| FinalBlockProcessing.Node.ForwardRecreatesEntry | src/libNode/FinalBlockProcessing.cpp:1113-1116 | as written: a message with matching bodies for a block without a tracker entry is refused, yet leaves an empty entry for the block; nothing else changes |
| FinalBlockProcessing.Node.ForwardReplayLeavesEmptyEntry | src/libNode/FinalBlockProcessing.cpp:1090-1136 | as written: the first arrival of the message carrying a block's last root completes the block (entry and forward list gone); a replay revives the entry, empty, and the forward list stays gone |
| FinalBlockProcessing.Node.ForwardOfSentBodies | src/libNode/FinalBlockProcessing.cpp:1090-1136 | the message a sender broadcasts is accepted by a receiving node iff the transactions have the root and the root is outstanding there; then exactly those transactions are appended to the block's committed list and no other block's list changes |
| FinalBlockProcessing.Node.OwnBodiesReachReceiver | src/libNode/FinalBlockProcessing.cpp:475-490 | end to end: the one broadcast of the node's own micro-block step carries its looked-up bodies, and a receiving node takes it iff their ids have the root and the root is outstanding there, then appends exactly those bodies to the block's committed list |

## Left out

- Network, storage and accounts: sending a message is recorded in a
  ghost log `sent` of broadcasts. Storing blocks and bodies to disk,
  updating accounts and logging are left out; they do not feed back into
  this code.
- Transaction and block serialisation, and the transaction-root
  computation, are foreign code here. They are parameters of the node:
  `readTxBlock` gives the block and its size, and `txnRoot` gives the root of
  an id list. A transaction is modelled as a 32-byte id followed by a body of
  fixed size `txnBodySize`.
- Concurrency and locks: each method runs as one atomic step.
- The busy wait in the micro-block consensus state is modelled as the
  transition it waits for (to processing the final block), after which
  processing goes on.
- `BeginNextConsensusRound` runs detached in the source. The model performs
  its state update synchronously. `ScheduleTxnSubmission`,
  `ScheduleMicroBlockConsensus`, the proof-of-work computation
  (`StartPoW1`) and the timers are left out.
- `UpdateDSBlockRand` and `UpdateTxBlockRand` are left out: they touch
  state this code does not read.
- The lookup-node build (`IS_LOOKUP_NODE`) is left out. The model is the
  shard-node build.
- `LogReceivedFinalBlockDetails` is left out: it only logs.
- Integers are unbounded: the consensus and leader counters and the 256-bit
  block numbers are not wrapped. The 64-bit epoch is wrapped where it
  matters (`PruneKey`).
- The source reads past the end of a short message (undefined behaviour).
  The model treats every such read as a failed decode:
  - a short header refuses the final block;
  - a short sharing setup makes `ProcessFinalBlock` return false after the
    block has been stored and the round has moved on;
  - a short forwarded message is refused.
- The `from` parameter of both message handlers is unused by the source
  and is dropped.
- FinalBlockProcessing.Node.LoadUnavailableMicroBlockTxRootHashes: the
  comparison of the block's declared root with the root of its micro-block
  hashes only logs in the source, so it is not modelled.
- The check `CheckState(PROCESS_FINALBLOCK)` lives in another file. It is
  modelled as "the state is waiting for the final block", as the source's
  own comment at that check says. This is narrower than a reading that
  also admits the processing state.
- `CheckWhetherDSBlockNumIsLatest` lives in another file. It is modelled as
  "the DS block number plus one is the DS chain's size".
- FinalBlockProcessing.Node.DeleteEntryFromFwdingAssgnAndMissingBodyCountMap
  requires the block's tracker entry to exist. The source dereferences
  `find` without checking, and its only caller has just created the entry.
- Hashes are sequences of bytes of any length; the source's are fixed at
  32 bytes. FinalBlockProcessing.Node.ForwardOfSentBodies and
  FinalBlockProcessing.Node.OwnBodiesReachReceiver therefore require the
  root to be 32 bytes long and the transactions to have the wire shape.
- FinalBlockProcessing.ShareStepCommits: requires the micro-block's ids to
  be distinct (they are digests of distinct transactions), as does
  `Pools.CommitAllIsLookup`. `Pools.CommitAllAppends` covers arbitrary ids.

## Notes on the code as written

- A node that is only a forwarder takes `nodes[shard_id + 1]` as its fellow
  forwarders. `Sharing.ForwarderListAsWritten` states which list that is.
  It is its own shard's receiver list only for shard 0. The model keeps the
  index as written.
- A node that is both sender and forwarder sends its bodies to
  `nodes[shard_id + 1]` and takes the sender targets as its fellow
  forwarders. That is the order in which the source passes the two lists.
  The model keeps it; see `SendingAssignment` and `Planned`.
- A block's tracker entry, and its forward list, are deleted only on the
  forwarded-transaction path, by `DeleteEntryFromFwdingAssgnAndMissingBodyCountMap`.
  Two consequences of the code as written:
  - `FinalBlockProcessing.ShareStepLeavesEmptyEntry`: the node's own
    micro-block step takes its root out but never completes the block. If
    that root was the block's last outstanding one, an empty entry stays;
    the step does not touch the forward list either.
  - `FinalBlockProcessing.Node.ForwardRecreatesEntry` and
    `FinalBlockProcessing.Node.ForwardReplayLeavesEmptyEntry`: a message
    for a block without an entry, such as a replay after completion,
    recreates an empty entry that nothing deletes.
  The model keeps this behaviour.
