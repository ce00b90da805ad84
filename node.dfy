/** A shard node's handling of a final block and of the forwarded
    transaction bodies that follow it.

    On a final block the node checks the message header, records the block,
    notes the micro-block roots whose bodies it still waits for, starts the
    next round (a new proof of work every `numFinalBlockPerPow` blocks),
    reads the transaction-sharing setup and, according to its own role in
    it, plans where to forward bodies, commits its own shard's micro-block
    and sends the bodies on. A forwarded-transaction message commits the
    bodies of one micro-block, clears its root from the tracker and relays
    the message to the node's forward list. */
module FinalBlockProcessing {
  import opened Wire
  import opened Types
  import Pools
  import Forwarding
  import Sharing
  import Header
  import Tracker
  import ForwardTxn

  type pos = n: nat | n > 0 witness 1

  /** The epoch counter is a 64-bit unsigned integer. */
  const UINT64_MOD: nat := 0x1_0000_0000_0000_0000

  /** The committed-transactions key the node prunes on storing a block:
      the epoch two back, computed in 64-bit unsigned arithmetic, so that
      for epochs 0 and 1 it wraps to a key near 2^64 instead. */
  function PruneKey(epoch: nat): (k: nat)
    requires epoch < UINT64_MOD
    ensures k < UINT64_MOD
    ensures epoch >= 2 ==> k == epoch - 2
    ensures epoch < 2 ==> k == UINT64_MOD - 2 + epoch
  {
    (epoch + UINT64_MOD - 2) % UINT64_MOD
  }

  /** The duty the two flags of the sharing setup give the node. */
  function Role(iAmSender: bool, iAmForwarder: bool): (m: TxSharingMode)
    ensures m == Idle <==> !iAmSender && !iAmForwarder
    ensures SendsBodies(m) <==> iAmSender
    ensures (m == NodeForwardOnly || m == SendAndForward) <==> iAmForwarder
    ensures m != DsForwardOnly
  {
    if !iAmSender && iAmForwarder then NodeForwardOnly
    else if iAmSender && !iAmForwarder then SendOnly
    else if iAmSender && iAmForwarder then SendAndForward
    else Idle
  }

  /** The forward list stored for block `b`, empty when there is none. */
  function ListAt(fa: map<nat, seq<Peer>>, b: nat): seq<Peer>
  {
    if b in fa then fa[b] else []
  }

  /** A map insertion that keeps an existing entry. */
  function InsertNew(fa: map<nat, seq<Peer>>, b: nat, peers: seq<Peer>): (r: map<nat, seq<Peer>>)
    ensures b in r && r[b] == ListAt(fa, b) + (if b in fa then [] else peers)
    ensures forall c :: c != b ==> (c in r <==> c in fa) && (c in fa ==> r[c] == fa[c])
  {
    if b in fa then fa else fa[b := peers]
  }

  /** The tracker, the two pools, the committed lists and the message log
      of a node: what its own micro-block step reads and writes. */
  datatype Shared = Shared(unavailable: Tracker.Table, submitted: map<nat, Pools.TxnPool>,
                           received: map<nat, Pools.TxnPool>, committed: map<nat, seq<Transaction>>,
                           sent: seq<Outgoing>)

  /** The node's own micro-block step for block `b`: when the node has a
      micro-block its root is taken out of the tracker, and when it was
      outstanding the micro-block is committed as `Pools.CommitAll`
      reconciles it, the block's pools are dropped and the collected
      bodies are broadcast to `to` behind `prefix` (when there are bodies
      and targets). Otherwise nothing else changes. */
  function ShareStep(mb: Option<MicroBlock>, prefix: seq<byte>, before: Shared, b: nat, mode: TxSharingMode,
                     to: seq<Peer>): Shared
  {
    if mb.None? then before
    else
      var root := mb.value.txRootHash;
      var un := Tracker.Take(before.unavailable, b, root);
      if !Tracker.Found(before.unavailable, b, root) then before.(unavailable := un)
      else
        var hashes := mb.value.tranHashes;
        var r := Pools.CommitAll(hashes, Pools.Start(before.submitted, before.received, before.committed, b),
                                 SendsBodies(mode));
        Shared(un, before.submitted - {b}, before.received - {b}, Pools.CommittedAfter(before.committed, b, hashes, r),
               before.sent + (if |to| > 0 && |r.toSend| > 0
                              then [Broadcast(to, prefix + ForwardTxn.EncodeForward(b, root, r.toSend))]
                              else []))
  }

  /** What the micro-block step does for a micro-block with distinct ids
      whose root was outstanding: the root is no longer outstanding; the
      block's committed list grows by the transactions the ids name, in
      micro-block order, each taken from the submitted pool before the
      received pool, and no other block's list changes; both pools of the
      block are gone; and when the mode sends bodies and there are targets
      and bodies, exactly those bodies are broadcast. */
  lemma ShareStepCommits(mb: Option<MicroBlock>, prefix: seq<byte>, before: Shared, b: nat, mode: TxSharingMode,
                         to: seq<Peer>)
    requires mb.Some? && Pools.Distinct(mb.value.tranHashes)
    requires Tracker.Found(before.unavailable, b, mb.value.txRootHash)
    ensures var after := ShareStep(mb, prefix, before, b, mode, to);
      var root := mb.value.txRootHash;
      var found := Pools.Lookup(mb.value.tranHashes, Pools.PoolAt(before.submitted, b),
                                Pools.PoolAt(before.received, b));
      && !Tracker.Found(after.unavailable, b, root)
      && Pools.EntryAt(after.committed, b) == Pools.EntryAt(before.committed, b) + found
      && (forall c :: c != b ==> Pools.EntryAt(after.committed, c) == Pools.EntryAt(before.committed, c))
      && b !in after.submitted && b !in after.received
      && after.sent == before.sent +
           (if |to| > 0 && SendsBodies(mode) && |found| > 0
            then [Broadcast(to, prefix + ForwardTxn.EncodeForward(b, root, found))] else [])
  {
    var hashes, root := mb.value.tranHashes, mb.value.txRootHash;
    var sub, rec := Pools.PoolAt(before.submitted, b), Pools.PoolAt(before.received, b);
    var entry := Pools.EntryAt(before.committed, b);
    var r := Pools.CommitAll(hashes, Pools.Start(before.submitted, before.received, before.committed, b),
                             SendsBodies(mode));
    Pools.CommitAllIsLookup(hashes, sub, rec, entry, [], SendsBodies(mode));
    var found := Pools.Lookup(hashes, sub, rec);
    assert r.committed == entry + found;
    assert r.toSend == if SendsBodies(mode) then found else [] by {
      assert [] + found == found;
    }
    var after := ShareStep(mb, prefix, before, b, mode, to);
    assert after.committed == Pools.CommittedAfter(before.committed, b, hashes, r);
    if |hashes| == 0 {
      assert found == [] && entry + [] == entry;
    }
    Tracker.TakeEffect(before.unavailable, b, root);
  }

  /** A micro-block whose root was not outstanding changes nothing but the
      tracker, where the root stays absent. */
  lemma ShareStepSkips(mb: Option<MicroBlock>, prefix: seq<byte>, before: Shared, b: nat, mode: TxSharingMode,
                       to: seq<Peer>)
    requires mb.Some? && !Tracker.Found(before.unavailable, b, mb.value.txRootHash)
    ensures var after := ShareStep(mb, prefix, before, b, mode, to);
      && after == before.(unavailable := Tracker.Take(before.unavailable, b, mb.value.txRootHash))
      && !Tracker.Found(after.unavailable, b, mb.value.txRootHash)
  {
  }

  /** As written, the node's own micro-block step takes its root out of
      the tracker but never completes the block: when that root was the
      block's last outstanding one, the block keeps an empty entry (the
      source completes entries only on the forwarded-transaction path). */
  lemma ShareStepLeavesEmptyEntry(mb: Option<MicroBlock>, prefix: seq<byte>, before: Shared, b: nat,
                                  mode: TxSharingMode, to: seq<Peer>)
    requires mb.Some? && Tracker.Outstanding(before.unavailable, b) == {mb.value.txRootHash}
    ensures var after := ShareStep(mb, prefix, before, b, mode, to);
      b in after.unavailable && after.unavailable[b] == {}
  {
    Tracker.TakeEffect(before.unavailable, b, mb.value.txRootHash);
  }

  /** The tracker, the committed lists, the forward-assignment table and
      the message log of a node: what a forwarded-transaction message
      reads and writes. */
  datatype Relay = Relay(unavailable: Tracker.Table, committed: map<nat, seq<Transaction>>,
                         assignment: map<nat, seq<Peer>>, sent: seq<Outgoing>)

  /** The fields of a node that processing a final block reads or
      writes, apart from its state and its micro-block. */
  datatype Snapshot = Snapshot(chain: seq<TxBlock>, epoch: nat, consensusID: nat, leaderID: nat, isPrimary: bool,
                               shared: Shared, assignment: map<nat, seq<Peer>>)

  class Node {
    /** The node's own network address. */
    const selfPeer: Peer
    /** The node's index in its shard. */
    const consensusMyID: nat
    /** The network addresses of the node's shard, by index. */
    const myShardMembers: seq<Peer>
    /** How many final blocks separate two proofs of work. */
    const numFinalBlockPerPow: pos
    /** Serialised size of a transaction beyond its 32-byte id. */
    const txnBodySize: nat
    /** The message-type bytes that precede a forward-transaction body:
        the node message type and the forward-transaction instruction,
        up to the offset where message bodies start. */
    const forwardPrefix: seq<byte>
    /** The transaction root of an ordered list of ids. */
    const txnRoot: seq<TxnHash> -> TxnHash
    /** The final-block deserialiser: the block at an offset of a message
        and the number of bytes it occupies. */
    const readTxBlock: (seq<byte>, nat) -> (TxBlock, nat)

    var state: NodeState
    var consensusID: nat
    var consensusLeaderID: nat
    var isPrimary: bool
    /** Number of blocks in the DS block chain. */
    var dsBlockCount: nat
    var txBlockChain: seq<TxBlock>
    var currentEpochNum: nat
    /** This shard's micro-block of the current round, if there is one. */
    var microblock: Option<MicroBlock>
    var submitted: map<nat, Pools.TxnPool>
    var received: map<nat, Pools.TxnPool>
    var committed: map<nat, seq<Transaction>>
    /** Micro-block roots whose bodies have not yet arrived, per block. */
    var unavailable: Tracker.Table
    /** Where to forward bodies arriving for a block. */
    var forwardingAssignment: map<nat, seq<Peer>>
    /** Every message handed to the network, in order. */
    ghost var sent: seq<Outgoing>

    constructor (selfPeer: Peer, consensusMyID: nat, myShardMembers: seq<Peer>, numFinalBlockPerPow: pos,
                 txnBodySize: nat, forwardPrefix: seq<byte>, txnRoot: seq<TxnHash> -> TxnHash,
                 readTxBlock: (seq<byte>, nat) -> (TxBlock, nat))
      ensures this.selfPeer == selfPeer && this.consensusMyID == consensusMyID
      ensures this.myShardMembers == myShardMembers && this.numFinalBlockPerPow == numFinalBlockPerPow
      ensures this.txnBodySize == txnBodySize && this.forwardPrefix == forwardPrefix
      ensures this.txnRoot == txnRoot && this.readTxBlock == readTxBlock
      ensures state == Pow1Submission && consensusID == 0 && consensusLeaderID == 0 && !isPrimary
      ensures dsBlockCount == 0 && txBlockChain == [] && currentEpochNum == 0 && microblock == None
      ensures submitted == map[] && received == map[] && committed == map[]
      ensures unavailable == map[] && forwardingAssignment == map[] && sent == []
    {
      this.selfPeer := selfPeer;
      this.consensusMyID := consensusMyID;
      this.myShardMembers := myShardMembers;
      this.numFinalBlockPerPow := numFinalBlockPerPow;
      this.txnBodySize := txnBodySize;
      this.forwardPrefix := forwardPrefix;
      this.txnRoot := txnRoot;
      this.readTxBlock := readTxBlock;
      state := Pow1Submission;
      consensusID, consensusLeaderID, isPrimary := 0, 0, false;
      dsBlockCount, txBlockChain, currentEpochNum := 0, [], 0;
      microblock := None;
      submitted, received, committed := map[], map[], map[];
      unavailable, forwardingAssignment := map[], map[];
      sent := [];
    }

    /** The block number of the last block of the chain. */
    function LastBlockNum(): nat
      reads this
      requires |txBlockChain| > 0
    {
      txBlockChain[|txBlockChain| - 1].blockNum
    }

    /** The forward-assignment table once block `b`'s list is built from
        the shard members other than the node itself, appended to what is
        stored already, with `fellows` removed by swap-and-pop. */
    function ForwardListed(fa: map<nat, seq<Peer>>, b: nat, fellows: seq<Peer>): map<nat, seq<Peer>>
    {
      fa[b := Forwarding.RemoveFellows(ListAt(fa, b) + Forwarding.OthersThan(myShardMembers, consensusMyID), fellows)]
    }

    /** The micro-block step for block `b` took the node from the fields it
        had when the method started to the ones it has now. */
    twostate predicate SharedMicroBlock(b: nat, mode: TxSharingMode, to: seq<Peer>)
      reads this
    {
      Shared(unavailable, submitted, received, committed, sent) ==
      ShareStep(microblock, forwardPrefix,
                Shared(old(unavailable), old(submitted), old(received), old(committed), old(sent)), b, mode, to)
    }

    /** The forward-assignment table once the node has planned block `b`
        for the role the two flags give it: a shard forwarder takes the
        list at index `shardId + 1` as its fellow forwarders, a node with
        both roles the sender targets. */
    function Planned(fa: map<nat, seq<Peer>>, b: nat, iAmSender: bool, iAmForwarder: bool,
                     nodes: seq<seq<Peer>>, shardId: nat): map<nat, seq<Peer>>
      requires |nodes| > 0 && (iAmForwarder ==> shardId + 1 < |nodes|)
    {
      match Role(iAmSender, iAmForwarder)
      case NodeForwardOnly => ForwardListed(fa, b, nodes[shardId + 1])
      case SendAndForward => ForwardListed(fa, b, Sharing.SendTargets(nodes, shardId))
      case _ => fa
    }

    /** Where the node sends its own bodies in that role: a sender only to
        the sender targets, a node with both roles to the list at index
        `shardId + 1`, anyone else nowhere. */
    function SendingAssignment(iAmSender: bool, iAmForwarder: bool, nodes: seq<seq<Peer>>, shardId: nat): seq<Peer>
      requires |nodes| > 0 && (iAmForwarder ==> shardId + 1 < |nodes|)
    {
      match Role(iAmSender, iAmForwarder)
      case SendOnly => Sharing.SendTargets(nodes, shardId)
      case SendAndForward => nodes[shardId + 1]
      case _ => []
    }

    // -------------------------------------------------------------------
    // Header.

    /** Reads the 32-byte DS block number, the 4-byte consensus id and the
        1-byte shard id. The message is accepted when the DS block number
        names the latest DS block and the consensus id is the node's; then
        the offset has moved past all three fields and the shard id is
        read. A rejected header leaves the shard id as it was. */
    method ReadAuxilliaryInfoFromFinalBlockMsg(msg: seq<byte>, off: nat, shardId0: nat)
      returns (ok: bool, next: nat, shardId: nat)
      ensures ok <==> Header.DecodeAux(msg, off).Ok? &&
                      Header.Accepts(Header.DecodeAux(msg, off).value, dsBlockCount, consensusID)
      ensures ok ==> next == off + Header.HEADER_SIZE && shardId == Header.DecodeAux(msg, off).value.shardId
      ensures !ok ==> shardId == shardId0
      ensures off + UINT256_SIZE <= |msg| && BigEndianAt(msg, off, UINT256_SIZE) + 1 != dsBlockCount ==>
                !ok && next == off + UINT256_SIZE
      ensures off + UINT256_SIZE + UINT32_SIZE <= |msg| && BigEndianAt(msg, off, UINT256_SIZE) + 1 == dsBlockCount &&
              BigEndianAt(msg, off + UINT256_SIZE, UINT32_SIZE) != consensusID ==>
                !ok && next == off + UINT256_SIZE + UINT32_SIZE
    {
      shardId, next := shardId0, off;
      if next + UINT256_SIZE > |msg| {
        return false, next, shardId;
      }
      var dsBlockNum := BigEndianAt(msg, next, UINT256_SIZE);
      next := next + UINT256_SIZE;
      if dsBlockNum + 1 != dsBlockCount {
        return false, next, shardId;
      }
      if next + UINT32_SIZE > |msg| {
        return false, next, shardId;
      }
      var id := BigEndianAt(msg, next, UINT32_SIZE);
      next := next + UINT32_SIZE;
      if id != consensusID {
        return false, next, shardId;
      }
      if next + UINT8_SIZE > |msg| {
        return false, next, shardId;
      }
      shardId := msg[next];
      next := next + UINT8_SIZE;
      ok := true;
    }

    // -------------------------------------------------------------------
    // Block storage and round state.

    /** Appends the block to the chain, sets the epoch to the chain's
        length as a 64-bit number and drops the committed transactions of
        the epoch two back. */
    method StoreFinalBlock(block: TxBlock)
      modifies this`txBlockChain, this`currentEpochNum, this`committed
      ensures txBlockChain == old(txBlockChain) + [block]
      ensures currentEpochNum == |txBlockChain| % UINT64_MOD
      ensures committed == old(committed) - {PruneKey(currentEpochNum)}
    {
      txBlockChain := txBlockChain + [block];
      currentEpochNum := |txBlockChain| % UINT64_MOD;
      committed := committed - {PruneKey(currentEpochNum)};
    }

    /** Starts a proof-of-work round: the consensus id and the leader id go
        back to 0. */
    method InitiatePoW1()
      modifies this`consensusID, this`consensusLeaderID, this`state
      ensures consensusID == 0 && consensusLeaderID == 0 && state == Pow1Submission
    {
      consensusID := 0;
      consensusLeaderID := 0;
      state := Pow1Submission;
    }

    /** Moves to the next consensus round within the same proof-of-work
        period: the leader rotates to the next index, the consensus id
        advances, and the node is the primary exactly when the new leader
        is itself. */
    method UpdateStateForNextConsensusRound()
      modifies this`isPrimary, this`consensusLeaderID, this`consensusID, this`state
      ensures consensusLeaderID == old(consensusLeaderID) + 1 && consensusID == old(consensusID) + 1
      ensures isPrimary <==> consensusMyID == consensusLeaderID
      ensures state == TxSubmission
    {
      if isPrimary {
        isPrimary := false;
      }
      consensusLeaderID := consensusLeaderID + 1;
      consensusID := consensusID + 1;
      if consensusMyID == consensusLeaderID {
        isPrimary := true;
      }
      state := TxSubmission;
    }

    // -------------------------------------------------------------------
    // The availability tracker.

    /** Takes the root out of the block's outstanding set and reports
        whether it was there. */
    method IsMicroBlockTxRootHashInFinalBlock(h: TxnHash, b: nat) returns (found: bool)
      modifies this`unavailable
      ensures found == Tracker.Found(old(unavailable), b, h)
      ensures unavailable == Tracker.Take(old(unavailable), b, h)
    {
      var outstanding := Tracker.Outstanding(unavailable, b);
      found := h in outstanding;
      unavailable := unavailable[b := outstanding - {h}];
    }

    /** Records every micro-block root the final block lists as
        outstanding for the block. (The comparison of the block's declared
        root with the root of these hashes only logs a mismatch.) */
    method LoadUnavailableMicroBlockTxRootHashes(block: TxBlock, b: nat)
      modifies this`unavailable
      ensures unavailable == Tracker.Load(old(unavailable), b, block.microBlockHashes)
    {
      var hashes := block.microBlockHashes;
      for i := 0 to |hashes|
        invariant unavailable == Tracker.Load(old(unavailable), b, hashes[..i])
      {
        assert hashes[..i + 1][..i] == hashes[..i];
        unavailable := unavailable[b := Tracker.Outstanding(unavailable, b) + {hashes[i]}];
      }
      assert hashes[..|hashes|] == hashes;
    }

    /** Whether the node has a micro-block whose root is outstanding for
        the block (taking it out of the tracker when there is one). */
    method IsMyShardsMicroBlockTxRootHashInFinalBlock(b: nat) returns (r: bool)
      modifies this`unavailable
      ensures r == (microblock.Some? && Tracker.Found(old(unavailable), b, microblock.value.txRootHash))
      ensures unavailable == if microblock.Some? then Tracker.Take(old(unavailable), b, microblock.value.txRootHash)
                             else old(unavailable)
    {
      if microblock.None? {
        return false;
      }
      r := IsMicroBlockTxRootHashInFinalBlock(microblock.value.txRootHash, b);
    }

    /** Drops the block's tracker entry, and its forwarding assignment,
        once no root is outstanding for it. The entry must exist. */
    method DeleteEntryFromFwdingAssgnAndMissingBodyCountMap(b: nat)
      requires b in unavailable
      modifies this`unavailable, this`forwardingAssignment
      ensures unavailable == Tracker.CompleteTracker(old(unavailable), b)
      ensures forwardingAssignment == Tracker.CompleteAssignment(old(unavailable), old(forwardingAssignment), b)
    {
      if unavailable[b] == {} {
        unavailable := unavailable - {b};
        forwardingAssignment := forwardingAssignment - {b};
      }
    }

    // -------------------------------------------------------------------
    // The node's own micro-block.

    /** Moves transaction `h` of block `b` from the submitted pool onto the
        committed list (and onto the send list when the mode sends bodies),
        reporting whether the pool held it. Both per-block entries exist
        afterwards. */
    method FindTxnInSubmittedTxnsList(b: nat, mode: TxSharingMode, toSend: seq<Transaction>, h: TxnHash)
      returns (found: bool, toSend': seq<Transaction>)
      modifies this`submitted, this`committed
      ensures found <==> h in Pools.PoolAt(old(submitted), b)
      ensures submitted == Pools.TakeFrom(old(submitted), b, h)
      ensures committed == Pools.CommitTo(old(committed), b, h, Pools.PoolAt(old(submitted), b))
      ensures toSend' == Pools.SendTo(toSend, h, Pools.PoolAt(old(submitted), b), SendsBodies(mode))
    {
      var pool := Pools.PoolAt(submitted, b);
      var list := Pools.EntryAt(committed, b);
      toSend' := toSend;
      if h in pool {
        var tx := pool[h];
        if mode == SendOnly || mode == SendAndForward {
          toSend' := toSend' + [tx];
        }
        list := list + [tx];
        pool := pool - {h};
        found := true;
      } else {
        assert pool - {h} == pool && list + [] == list;
        found := false;
      }
      submitted := submitted[b := pool];
      committed := committed[b := list];
    }

    /** The same move from the received pool. */
    method FindTxnInReceivedTxnsList(b: nat, mode: TxSharingMode, toSend: seq<Transaction>, h: TxnHash)
      returns (found: bool, toSend': seq<Transaction>)
      modifies this`received, this`committed
      ensures found <==> h in Pools.PoolAt(old(received), b)
      ensures received == Pools.TakeFrom(old(received), b, h)
      ensures committed == Pools.CommitTo(old(committed), b, h, Pools.PoolAt(old(received), b))
      ensures toSend' == Pools.SendTo(toSend, h, Pools.PoolAt(old(received), b), SendsBodies(mode))
    {
      var pool := Pools.PoolAt(received, b);
      var list := Pools.EntryAt(committed, b);
      toSend' := toSend;
      if h in pool {
        var tx := pool[h];
        if mode == SendOnly || mode == SendAndForward {
          toSend' := toSend' + [tx];
        }
        list := list + [tx];
        pool := pool - {h};
        found := true;
      } else {
        assert pool - {h} == pool && list + [] == list;
        found := false;
      }
      received := received[b := pool];
      committed := committed[b := list];
    }

    /** Commits the node's micro-block for block `b`: each of its ids, in
        order, is looked up in the submitted pool and then in the received
        pool, as `Pools.CommitAll` reconciles them; then both pools of the
        block are dropped. Returns the bodies to send. */
    method CommitMyShardsMicroBlock(b: nat, mode: TxSharingMode) returns (toSend: seq<Transaction>)
      requires microblock.Some?
      modifies this`submitted, this`received, this`committed
      ensures
        var hashes := microblock.value.tranHashes;
        var r := Pools.CommitAll(hashes, Pools.Start(old(submitted), old(received), old(committed), b),
                                 SendsBodies(mode));
        && submitted == old(submitted) - {b}
        && received == old(received) - {b}
        && committed == Pools.CommittedAfter(old(committed), b, hashes, r)
        && toSend == r.toSend
    {
      var hashes := microblock.value.tranHashes;
      ghost var sends := SendsBodies(mode);
      ghost var sub0, rec0, com0 := submitted, received, committed;
      ghost var st0 := Pools.Start(sub0, rec0, com0, b);
      ghost var r := st0;
      toSend := [];
      for i := 0 to |hashes|
        invariant r == Pools.CommitAll(hashes[..i], st0, sends)
        invariant Pools.Tracks(submitted, received, committed, toSend, sub0, rec0, com0, b, i > 0, r)
      {
        var h := hashes[i];
        ghost var sub, rec, com, sending := submitted, received, committed, toSend;
        var found;
        found, toSend := FindTxnInSubmittedTxnsList(b, mode, toSend, h);
        if !found {
          found, toSend := FindTxnInReceivedTxnsList(b, mode, toSend, h);
        }
        if h in Pools.PoolAt(sub, b) {
          Pools.TracksFromSubmitted(sub, rec, com, sending, sub0, rec0, com0, b, i > 0, r, h, sends);
        } else {
          Pools.TracksFromReceived(sub, rec, com, sending, sub0, rec0, com0, b, i > 0, r, h, sends);
        }
        assert hashes[..i + 1] == hashes[..i] + [h];
        Pools.CommitAllNext(hashes[..i], h, st0, sends);
        r := Pools.MoveOne(r, h, sends);
      }
      assert hashes[..|hashes|] == hashes;
      Pools.TracksCommitted(submitted, received, committed, toSend, sub0, rec0, com0, b, hashes, sends);
      received := received - {b};
      submitted := submitted - {b};
    }

    /** Sends the bodies, when there are any, to the sending assignment in
        one forward-transaction message: the block number, the micro-block
        root, then each transaction. */
    method BroadcastTransactionsToSendingAssignment(b: nat, to: seq<Peer>, rootHash: TxnHash, txns: seq<Transaction>)
      modifies this`sent
      ensures sent == old(sent) +
        (if |txns| > 0 then [Broadcast(to, forwardPrefix + ForwardTxn.EncodeForward(b, rootHash, txns))] else [])
    {
      if |txns| > 0 {
        var msg := forwardPrefix + ToBigEndian(b, UINT256_SIZE) + rootHash;
        ghost var head := msg;
        for i := 0 to |txns|
          invariant msg == head + ForwardTxn.EncodeTxns(txns[..i]) && sent == old(sent)
        {
          ForwardTxn.EncodeTxnsAppend(txns[..i], txns[i]);
          assert txns[..i + 1] == txns[..i] + [txns[i]];
          msg := msg + txns[i].id + txns[i].body;
        }
        assert txns[..|txns|] == txns;
        ghost var body := ForwardTxn.EncodeTxns(txns);
        assert msg == forwardPrefix + (ToBigEndian(b, UINT256_SIZE) + rootHash + body);
        sent := sent + [Broadcast(to, msg)];
      }
    }

    // -------------------------------------------------------------------
    // Forwarding plan and the node's role.

    /** Builds the block's forward list: every member of the shard except
        the node itself, appended to the list already stored for the block
        (a new, empty one when there is none), and then each fellow
        forwarder removed by swap-and-pop. */
    method LoadForwardingAssignmentFromFinalBlock(fellows: seq<Peer>, b: nat)
      modifies this`forwardingAssignment
      ensures forwardingAssignment == ForwardListed(old(forwardingAssignment), b, fellows)
    {
      forwardingAssignment := InsertNew(forwardingAssignment, b, []);
      var peers := Forwarding.BuildForwardList(forwardingAssignment[b], myShardMembers, consensusMyID, fellows);
      forwardingAssignment := forwardingAssignment[b := peers];
    }

    /** Acts on the last block for a single role. A sender sends to
        `nodes`; a DS forwarder stores `nodes` as the block's forward list
        unless one is stored; a shard forwarder builds its forward list with
        `nodes` as the fellow forwarders; an idle node plans nothing. Then
        the node's own micro-block is committed and its bodies sent (only a
        sender has targets). */
    method ActOnFinalBlock(mode: TxSharingMode, nodes: seq<Peer>) returns (ok: bool)
      requires |txBlockChain| > 0
      modifies this`forwardingAssignment, this`unavailable, this`submitted, this`received, this`committed, this`sent
      ensures ok
      ensures forwardingAssignment ==
        match mode
        case DsForwardOnly => InsertNew(old(forwardingAssignment), LastBlockNum(), nodes)
        case NodeForwardOnly => ForwardListed(old(forwardingAssignment), LastBlockNum(), nodes)
        case _ => old(forwardingAssignment)
      ensures SharedMicroBlock(LastBlockNum(), mode, if mode == SendOnly then nodes else [])
    {
      var b := LastBlockNum();
      var sendingAssignment := [];
      match mode {
        case SendOnly =>
          sendingAssignment := nodes;
        case DsForwardOnly =>
          forwardingAssignment := InsertNew(forwardingAssignment, b, nodes);
        case NodeForwardOnly =>
          LoadForwardingAssignmentFromFinalBlock(nodes, b);
        case _ =>
      }
      ShareMicroBlock(b, mode, sendingAssignment);
      ok := true;
    }

    /** Acts on the last block for both roles at once: builds the forward
        list with `fellows` as the fellow forwarders, then commits the
        node's micro-block and sends its bodies to `sendingAssignment`.
        Refuses any other mode. */
    method ActOnFinalBlockSendAndForward(mode: TxSharingMode, sendingAssignment: seq<Peer>, fellows: seq<Peer>)
      returns (ok: bool)
      requires mode == SendAndForward ==> |txBlockChain| > 0
      modifies this`forwardingAssignment, this`unavailable, this`submitted, this`received, this`committed, this`sent
      ensures ok <==> mode == SendAndForward
      ensures !ok ==> forwardingAssignment == old(forwardingAssignment) && unavailable == old(unavailable)
      ensures !ok ==> submitted == old(submitted) && received == old(received) && committed == old(committed)
      ensures !ok ==> sent == old(sent)
      ensures ok ==> forwardingAssignment == ForwardListed(old(forwardingAssignment), LastBlockNum(), fellows)
      ensures ok ==> SharedMicroBlock(LastBlockNum(), mode, sendingAssignment)
    {
      if mode != SendAndForward {
        return false;
      }
      var b := LastBlockNum();
      LoadForwardingAssignmentFromFinalBlock(fellows, b);
      ShareMicroBlock(b, mode, sendingAssignment);
      ok := true;
    }

    /** The part both `ActOnFinalBlock` variants share: when the node's
        micro-block root is outstanding for the block, commit the
        micro-block and, when there are targets, broadcast the bodies. */
    method ShareMicroBlock(b: nat, mode: TxSharingMode, sendingAssignment: seq<Peer>)
      modifies this`unavailable, this`submitted, this`received, this`committed, this`sent
      ensures SharedMicroBlock(b, mode, sendingAssignment)
    {
      var mine := IsMyShardsMicroBlockTxRootHashInFinalBlock(b);
      if mine {
        var toSend := CommitMyShardsMicroBlock(b, mode);
        if |sendingAssignment| > 0 {
          BroadcastTransactionsToSendingAssignment(b, sendingAssignment, microblock.value.txRootHash, toSend);
        }
      }
    }

    /** Reads the sharing setup: the DS forwarders, then for each shard its
        receivers and its senders, into the list of peer lists `nodes`.
        While reading its own shard's lists the node notes whether it is
        among the receivers (a forwarder) or the senders (a sender); the
        flags are never set for another shard's lists. */
    method LoadTxnSharingInfo(msg: seq<byte>, off: nat, shardId: nat)
      returns (ok: bool, next: nat, iAmSender: bool, iAmForwarder: bool, nodes: seq<seq<Peer>>)
      ensures ok <==> Sharing.DecodeSetup(msg, off).Ok?
      ensures ok ==>
        var s := Sharing.DecodeSetup(msg, off).value;
        && next == Sharing.DecodeSetup(msg, off).next
        && nodes == Sharing.Nodes(s)
        && (iAmForwarder <==> shardId < |s.shards| && selfPeer in s.shards[shardId].receivers)
        && (iAmSender <==> shardId < |s.shards| && selfPeer in s.shards[shardId].senders)
    {
      iAmSender, iAmForwarder, nodes := false, false, [];
      var ds, seen;
      ok, ds, next, seen := Sharing.ReadPeerList(msg, off, selfPeer);
      if !ok {
        return;
      }
      if next + UINT32_SIZE > |msg| {
        return false, next, false, false, [];
      }
      ghost var o1 := next;
      var numShards := BigEndianAt(msg, next, UINT32_SIZE);
      var lists;
      ok, next, iAmSender, iAmForwarder, lists := ReadShardRosters(msg, next + UINT32_SIZE, numShards, shardId);
      nodes := [ds] + lists;
      if ok {
        var d := Sharing.DecodeShards(msg, o1 + UINT32_SIZE, numShards);
        Sharing.DecodeSetupStep(msg, off, Sharing.SharingSetup(ds, d.value), o1, next);
      }
    }

    /** The loop over the `n` shard rosters of the sharing setup: each
        shard's receiver list and sender list, with the node's own
        membership noted for shard `shardId` only. */
    method ReadShardRosters(msg: seq<byte>, off: nat, n: nat, shardId: nat)
      returns (ok: bool, next: nat, iAmSender: bool, iAmForwarder: bool, lists: seq<seq<Peer>>)
      ensures ok <==> Sharing.DecodeShards(msg, off, n).Ok?
      ensures ok ==>
        var ss := Sharing.DecodeShards(msg, off, n).value;
        && next == Sharing.DecodeShards(msg, off, n).next
        && lists == Sharing.ShardLists(ss)
        && (iAmForwarder <==> shardId < n && selfPeer in ss[shardId].receivers)
        && (iAmSender <==> shardId < n && selfPeer in ss[shardId].senders)
    {
      iAmSender, iAmForwarder, lists, next := false, false, [], off;
      ghost var rosters: seq<Sharing.ShardRoster> := [];
      var i := 0;
      while i < n
        invariant i <= n && |rosters| == i
        invariant Sharing.DecodeShards(msg, off, i) == Ok(rosters, next)
        invariant lists == Sharing.ShardLists(rosters)
        invariant iAmForwarder <==> shardId < i && selfPeer in rosters[shardId].receivers
        invariant iAmSender <==> shardId < i && selfPeer in rosters[shardId].senders
      {
        var okR, recv, o2, seenR := Sharing.ReadPeerList(msg, next, selfPeer);
        if !okR {
          Sharing.DecodeShardsFailAt(msg, off, i + 1, rosters, next);
          Sharing.DecodeShardsFailFrom(msg, off, i + 1, n);
          return false, next, false, false, [];
        }
        var okS, send, o3, seenS := Sharing.ReadPeerList(msg, o2, selfPeer);
        if !okS {
          Sharing.DecodeShardsFailAt(msg, off, i + 1, rosters, next);
          Sharing.DecodeShardsFailFrom(msg, off, i + 1, n);
          return false, next, false, false, [];
        }
        if i == shardId {
          iAmForwarder := seenR;
          iAmSender := seenS;
        }
        var sh := Sharing.ShardRoster(recv, send);
        Sharing.DecodeShardStep(msg, next, sh, o2, o3);
        Sharing.DecodeShardsSnoc(msg, off, rosters, sh, next, o3);
        lists := lists + [recv, send];
        rosters := rosters + [sh];
        next := o3;
        i := i + 1;
      }
      ok := true;
    }

    // -------------------------------------------------------------------
    // Acting on the role and processing the final block.

    /** Acts on the last block for the role the two flags give the node: a
        shard forwarder takes the list at index `shardId + 1` as its fellow
        forwarders; a sender gathers the DS forwarders and the receivers of
        every other shard and sends to them; a node with both roles sends
        to the list at index `shardId + 1` and takes the gathered list as
        its fellow forwarders; any other node is idle. */
    method CallActOnFinalBlockBasedOnSenderForwarderAssgn(iAmSender: bool, iAmForwarder: bool,
                                                          nodes: seq<seq<Peer>>, shardId: nat)
      requires |txBlockChain| > 0
      requires |nodes| > 0 && (iAmForwarder ==> shardId + 1 < |nodes|)
      modifies this`forwardingAssignment, this`unavailable, this`submitted, this`received, this`committed, this`sent
      ensures forwardingAssignment ==
              Planned(old(forwardingAssignment), LastBlockNum(), iAmSender, iAmForwarder, nodes, shardId)
      ensures SharedMicroBlock(LastBlockNum(), Role(iAmSender, iAmForwarder),
                               SendingAssignment(iAmSender, iAmForwarder, nodes, shardId))
    {
      var ok;
      if !iAmSender && iAmForwarder {
        ok := ActOnFinalBlock(NodeForwardOnly, nodes[shardId + 1]);
      } else if iAmSender && !iAmForwarder {
        var nodesToSend := Sharing.CollectSendTargets(nodes, shardId);
        ok := ActOnFinalBlock(SendOnly, nodesToSend);
      } else if iAmSender && iAmForwarder {
        var myShardReceivers := nodes[shardId + 1];
        var fellowForwarderNodes := Sharing.CollectSendTargets(nodes, shardId);
        ok := ActOnFinalBlockSendAndForward(SendAndForward, myShardReceivers, fellowForwarderNodes);
      } else {
        ok := ActOnFinalBlock(Idle, []);
      }
    }

    /** Processes a final-block message at `off`: the header, the block,
        the sharing setup. The node takes the message while waiting for the
        final block, or after its micro-block consensus (then it first
        moves on to processing the final block); in any other state it
        refuses the message and nothing changes. A header for another DS
        block or consensus round is refused too. Otherwise the block's
        micro-block roots are recorded as outstanding, the block is stored,
        the next round starts (a new proof of work when the epoch is a
        multiple of `numFinalBlockPerPow`), and, once the sharing setup
        reads, the node acts on its role in it. */
    method ProcessFinalBlock(msg: seq<byte>, off: nat) returns (ok: bool)
      modifies this
      ensures !(old(state) == MicroblockConsensus || old(state) == WaitingFinalblock) ==> !ok && unchanged(this)
      ensures old(state) == MicroblockConsensus || old(state) == WaitingFinalblock ==>
        var hdr := Header.DecodeAux(msg, off);
        var accepted := hdr.Ok? && Header.Accepts(hdr.value, old(dsBlockCount), old(consensusID));
        && (!accepted ==> state == (if old(state) == MicroblockConsensus then ProcessFinalblock else old(state)))
        && (!accepted ==> !ok && unchanged(this`txBlockChain, this`currentEpochNum, this`consensusID,
                                           this`consensusLeaderID, this`isPrimary, this`unavailable,
                                           this`submitted, this`received, this`committed,
                                           this`forwardingAssignment, this`sent))
        && (accepted ==> FinalBlockStep(old(Snap()), Snap(), state, microblock,
                                        msg, off + Header.HEADER_SIZE, hdr.value.shardId, ok))
      ensures microblock == old(microblock) && dsBlockCount == old(dsBlockCount)
    {
      if state == MicroblockConsensus {
        state := ProcessFinalblock;
      } else if state != WaitingFinalblock {
        return false;
      }
      var accepted, next, shardId := ReadAuxilliaryInfoFromFinalBlockMsg(msg, off, 255);
      if !accepted {
        return false;
      }
      ok := ProcessAcceptedFinalBlock(msg, next, shardId);
    }

    /** What `ProcessFinalBlock` does past an accepted header, with the
        block at `blockOff` and the node's shard id read from the header. */
    method ProcessAcceptedFinalBlock(msg: seq<byte>, blockOff: nat, shardId: nat) returns (ok: bool)
      modifies this
      ensures FinalBlockStep(old(Snap()), Snap(), state, microblock, msg, blockOff, shardId, ok)
      ensures microblock == old(microblock) && dsBlockCount == old(dsBlockCount)
    {
      var (block, size) := readTxBlock(msg, blockOff);
      var next := blockOff + size;
      RecordFinalBlock(block);
      ok := ActOnSharingSetup(msg, next, shardId);
    }

    /** The bookkeeping of an accepted final block: its micro-block roots
        are recorded as outstanding, the block is stored and the next round
        starts. */
    method RecordFinalBlock(block: TxBlock)
      modifies this`unavailable, this`txBlockChain, this`currentEpochNum, this`committed,
               this`isPrimary, this`consensusLeaderID, this`consensusID, this`state
      ensures txBlockChain == old(txBlockChain) + [block] && LastBlockNum() == block.blockNum
      ensures currentEpochNum == (|old(txBlockChain)| + 1) % UINT64_MOD
      ensures unavailable == Tracker.Load(old(unavailable), block.blockNum, block.microBlockHashes)
      ensures committed == old(committed) - {PruneKey(currentEpochNum)}
      ensures PowDue(currentEpochNum) ==>
        consensusID == 0 && consensusLeaderID == 0 && isPrimary == old(isPrimary) && state == Pow1Submission
      ensures !PowDue(currentEpochNum) ==>
        && consensusID == old(consensusID) + 1 && consensusLeaderID == old(consensusLeaderID) + 1
        && (isPrimary <==> consensusMyID == consensusLeaderID) && state == TxSubmission
      ensures unchanged(this`submitted, this`received, this`forwardingAssignment, this`sent, this`microblock,
                        this`dsBlockCount)
    {
      LoadUnavailableMicroBlockTxRootHashes(block, block.blockNum);
      StoreFinalBlock(block);
      StartNextRound();
    }

    /** A new proof of work is due at this epoch: every
        `numFinalBlockPerPow` blocks. */
    predicate PowDue(epoch: nat)
    {
      epoch % numFinalBlockPerPow == 0
    }

    /** Starts the next round: a new proof of work when the epoch is a
        multiple of `numFinalBlockPerPow`, the next consensus round of the
        same period otherwise. */
    method StartNextRound()
      modifies this`isPrimary, this`consensusLeaderID, this`consensusID, this`state
      ensures PowDue(currentEpochNum) ==>
        consensusID == 0 && consensusLeaderID == 0 && isPrimary == old(isPrimary) && state == Pow1Submission
      ensures !PowDue(currentEpochNum) ==>
        && consensusID == old(consensusID) + 1 && consensusLeaderID == old(consensusLeaderID) + 1
        && (isPrimary <==> consensusMyID == consensusLeaderID) && state == TxSubmission
    {
      if PowDue(currentEpochNum) {
        InitiatePoW1();
      } else {
        UpdateStateForNextConsensusRound();
      }
    }

    /** Reads the sharing setup at `off` and, when it reads, acts on the
        last block for the node's role in it. */
    method ActOnSharingSetup(msg: seq<byte>, off: nat, shardId: nat) returns (ok: bool)
      requires |txBlockChain| > 0
      modifies this`forwardingAssignment, this`unavailable, this`submitted, this`received, this`committed, this`sent
      ensures unchanged(this`txBlockChain, this`currentEpochNum, this`consensusID, this`consensusLeaderID,
                        this`isPrimary, this`state, this`microblock, this`dsBlockCount)
      ensures ok <==> Sharing.DecodeSetup(msg, off).Ok?
      ensures !ok ==> unchanged(this`forwardingAssignment, this`unavailable, this`submitted, this`received,
                                this`committed, this`sent)
      ensures ok ==> ActedOn(Shared(old(unavailable), old(submitted), old(received), old(committed), old(sent)),
                             old(forwardingAssignment), microblock,
                             Shared(unavailable, submitted, received, committed, sent), forwardingAssignment,
                             msg, off, shardId, LastBlockNum())
    {
      var setupEnd, iAmSender, iAmForwarder, nodes;
      ok, setupEnd, iAmSender, iAmForwarder, nodes := LoadTxnSharingInfo(msg, off, shardId);
      if !ok {
        return;
      }
      Sharing.NodesLayout(Sharing.DecodeSetup(msg, off).value);
      CallActOnFinalBlockBasedOnSenderForwarderAssgn(iAmSender, iAmForwarder, nodes, shardId);
    }

    /** The node's fields as a value. */
    ghost function Snap(): Snapshot
      reads this`txBlockChain, this`currentEpochNum, this`consensusID, this`consensusLeaderID, this`isPrimary,
            this`unavailable, this`submitted, this`received, this`committed, this`sent, this`forwardingAssignment
    {
      Snapshot(txBlockChain, currentEpochNum, consensusID, consensusLeaderID, isPrimary,
               Shared(unavailable, submitted, received, committed, sent), forwardingAssignment)
    }

    /** What `ProcessFinalBlock` does once it accepted the header, taking
        the fields from `s0` to `s` and leaving state `st`, for a node with
        micro-block `mb`: the block read at `blockOff` is stored, its roots
        are recorded as outstanding, the epoch and the round have moved on,
        and either the sharing setup after the block did not read (nothing
        else changed) or the node acted on its role in it. */
    ghost predicate FinalBlockStep(s0: Snapshot, s: Snapshot, st: NodeState, mb: Option<MicroBlock>,
                                   msg: seq<byte>, blockOff: nat, shardId: nat, ok: bool)
    {
      var (block, size) := readTxBlock(msg, blockOff);
      var b := block.blockNum;
      var epoch := (|s0.chain| + 1) % UINT64_MOD;
      var loaded := Tracker.Load(s0.shared.unavailable, b, block.microBlockHashes);
      var pruned := s0.shared.committed - {PruneKey(epoch)};
      var stored := s0.shared.(unavailable := loaded, committed := pruned);
      var setup := Sharing.DecodeSetup(msg, blockOff + size);
      && s.chain == s0.chain + [block]
      && s.epoch == epoch
      && (PowDue(epoch) ==>
            s.consensusID == 0 && s.leaderID == 0 && s.isPrimary == s0.isPrimary && st == Pow1Submission)
      && (!PowDue(epoch) ==>
            && s.consensusID == s0.consensusID + 1 && s.leaderID == s0.leaderID + 1
            && (s.isPrimary <==> consensusMyID == s.leaderID) && st == TxSubmission)
      && (ok <==> setup.Ok?)
      && (!ok ==> s.shared == stored && s.assignment == s0.assignment)
      && (ok ==> ActedOn(stored, s0.assignment, mb, s.shared, s.assignment, msg, blockOff + size, shardId, b))
    }

    /** The node with micro-block `mb` acted on block `b` for its role in
        the sharing setup at `off`, taking the shared fields from `before`
        to `after` and the forward-assignment table from `fa0` to `fa`: the
        node is a forwarder when it is among its own shard's receivers and
        a sender when it is among its own shard's senders; the table is
        planned and the micro-block step taken for that role. */
    ghost predicate ActedOn(before: Shared, fa0: map<nat, seq<Peer>>, mb: Option<MicroBlock>,
                            after: Shared, fa: map<nat, seq<Peer>>, msg: seq<byte>, off: nat, shardId: nat, b: nat)
    {
      && Sharing.DecodeSetup(msg, off).Ok?
      && var s := Sharing.DecodeSetup(msg, off).value;
         var iAmForwarder := shardId < |s.shards| && selfPeer in s.shards[shardId].receivers;
         var iAmSender := shardId < |s.shards| && selfPeer in s.shards[shardId].senders;
         var nodes := Sharing.Nodes(s);
         && fa == Planned(fa0, b, iAmSender, iAmForwarder, nodes, shardId)
         && after == ShareStep(mb, forwardPrefix, before, b, Role(iAmSender, iAmForwarder),
                               SendingAssignment(iAmSender, iAmForwarder, nodes, shardId))
    }

    // -------------------------------------------------------------------
    // Forwarded transaction bodies.

    /** Whether a forward message body at `off` is taken against tracker
        `t`: it holds the block number and the root, the ids of the whole
        transactions after them have that root, and the root is
        outstanding for that block. */
    predicate ForwardAccepted(msg: seq<byte>, off: nat, t: Tracker.Table)
    {
      match ForwardTxn.DecodeForward(msg, off, txnBodySize)
      case None => false
      case Some(f) => txnRoot(TranIds(f.txns)) == f.rootHash && Tracker.Found(t, f.blockNum, f.rootHash)
    }

    /** The effect of a forward message body at `off` (within the whole
        message `msg`): nothing unless the transactions match the root;
        the root is taken out of the tracker; and when it was outstanding
        the transactions are appended to the block's committed list, the
        block's entries are completed and the whole message is relayed to
        the block's forward list, when there is one. */
    function ForwardStep(msg: seq<byte>, off: nat, before: Relay): Relay
    {
      match ForwardTxn.DecodeForward(msg, off, txnBodySize)
      case None => before
      case Some(f) =>
        if txnRoot(TranIds(f.txns)) != f.rootHash then before
        else
          var b := f.blockNum;
          var un := Tracker.Take(before.unavailable, b, f.rootHash);
          if !Tracker.Found(before.unavailable, b, f.rootHash) then before.(unavailable := un)
          else
            var list := ListAt(before.assignment, b);
            Relay(Tracker.CompleteTracker(un, b), Pools.AppendAt(before.committed, b, f.txns),
                  Tracker.CompleteAssignment(un, before.assignment, b),
                  before.sent + (if |list| > 0 then [Broadcast(list, msg)] else []))
    }

    /** Reads the micro-block root at `off` and every whole transaction
        after it to the end of the message, and reports whether the ids of
        those transactions, in order, have that root. */
    method LoadForwardedTxnsAndCheckRoot(msg: seq<byte>, off: nat)
      returns (ok: bool, rootHash: TxnHash, txns: seq<Transaction>)
      requires off + TRAN_HASH_SIZE <= |msg|
      ensures rootHash == msg[off..off + TRAN_HASH_SIZE]
      ensures txns == ForwardTxn.TxnsFrom(msg, off + TRAN_HASH_SIZE, txnBodySize)
      ensures ok <==> txnRoot(TranIds(txns)) == rootHash
    {
      rootHash := msg[off..off + TRAN_HASH_SIZE];
      var cur := off + TRAN_HASH_SIZE;
      var ids: seq<TxnHash> := [];
      txns := [];
      while cur + TRAN_HASH_SIZE + txnBodySize <= |msg|
        invariant cur <= |msg|
        invariant txns + ForwardTxn.TxnsFrom(msg, cur, txnBodySize) ==
                  ForwardTxn.TxnsFrom(msg, off + TRAN_HASH_SIZE, txnBodySize)
        invariant ids == TranIds(txns)
        decreases |msg| - cur
      {
        var tx := ForwardTxn.TxnAt(msg, cur, txnBodySize);
        assert txns + ForwardTxn.TxnsFrom(msg, cur, txnBodySize) ==
               (txns + [tx]) + ForwardTxn.TxnsFrom(msg, cur + TRAN_HASH_SIZE + txnBodySize, txnBodySize);
        cur := cur + TRAN_HASH_SIZE + txnBodySize;
        txns := txns + [tx];
        ids := ids + [tx.id];
      }
      assert txns + [] == txns;
      ok := txnRoot(ids) == rootHash;
    }

    /** Appends the transactions, in order, to block `b`'s committed list. */
    method CommitForwardedTransactions(txns: seq<Transaction>, b: nat)
      modifies this`committed
      ensures committed == Pools.AppendAt(old(committed), b, txns)
    {
      for i := 0 to |txns|
        invariant committed == Pools.AppendAt(old(committed), b, txns[..i])
      {
        assert Pools.EntryAt(committed, b) + [txns[i]] == Pools.EntryAt(old(committed), b) + txns[..i + 1];
        committed := committed[b := Pools.EntryAt(committed, b) + [txns[i]]];
      }
      assert txns[..|txns|] == txns;
    }

    /** The forward list stored for block `b`, empty when there is none. */
    method LoadFwdingAssgnForThisBlockNum(b: nat) returns (list: seq<Peer>)
      ensures b in forwardingAssignment ==> list == forwardingAssignment[b]
      ensures b !in forwardingAssignment ==> list == []
    {
      list := [];
      if b in forwardingAssignment {
        list := forwardingAssignment[b];
      }
    }

    /** Processes a forwarded-transaction message whose body starts at
        `off`: the block number, the micro-block root and the transactions.
        The message is refused when it is too short for the two leading
        fields, when the transactions do not have the root, or when the
        root is not outstanding for the block; otherwise the transactions
        are committed, the block's tracker entry is completed and the whole
        message is relayed to the block's forward list. */
    method ProcessForwardTransaction(msg: seq<byte>, off: nat) returns (ok: bool)
      modifies this`unavailable, this`committed, this`forwardingAssignment, this`sent
      ensures ok == ForwardAccepted(msg, off, old(unavailable))
      ensures Relay(unavailable, committed, forwardingAssignment, sent) ==
              ForwardStep(msg, off, Relay(old(unavailable), old(committed), old(forwardingAssignment), old(sent)))
    {
      if off + UINT256_SIZE + TRAN_HASH_SIZE > |msg| {
        return false;
      }
      var b := BigEndianAt(msg, off, UINT256_SIZE);
      var rootOk, rootHash, txns := LoadForwardedTxnsAndCheckRoot(msg, off + UINT256_SIZE);
      if !rootOk {
        return false;
      }
      var found := IsMicroBlockTxRootHashInFinalBlock(rootHash, b);
      if !found {
        return false;
      }
      CommitForwardedTransactions(txns, b);
      var list := LoadFwdingAssgnForThisBlockNum(b);
      DeleteEntryFromFwdingAssgnAndMissingBodyCountMap(b);
      if |list| > 0 {
        sent := sent + [Broadcast(list, msg)];
      }
      ok := true;
    }

    /** A forward message that was taken is refused when it arrives again:
        its root is no longer outstanding, so the replay commits nothing,
        relays nothing and leaves the forward-assignment table alone. */
    lemma ForwardReplayRefused(msg: seq<byte>, off: nat, before: Relay)
      requires ForwardAccepted(msg, off, before.unavailable)
      ensures var after := ForwardStep(msg, off, before);
        && !ForwardAccepted(msg, off, after.unavailable)
        && ForwardStep(msg, off, after).committed == after.committed
        && ForwardStep(msg, off, after).assignment == after.assignment
        && ForwardStep(msg, off, after).sent == after.sent
    {
      var f := ForwardTxn.DecodeForward(msg, off, txnBodySize).value;
      var un := Tracker.Take(before.unavailable, f.blockNum, f.rootHash);
      Tracker.TakeEffect(before.unavailable, f.blockNum, f.rootHash);
      Tracker.CompleteEffect(un, before.assignment, f.blockNum);
      assert !Tracker.Found(Tracker.CompleteTracker(un, f.blockNum), f.blockNum, f.rootHash);
    }

    /** As written, a forward message whose bodies match their root but
        whose block has no tracker entry (never loaded, or already
        completed) is refused and yet leaves an empty entry for the block
        behind; nothing else changes. */
    lemma ForwardRecreatesEntry(msg: seq<byte>, off: nat, before: Relay)
      requires ForwardTxn.DecodeForward(msg, off, txnBodySize).Some?
      requires var f := ForwardTxn.DecodeForward(msg, off, txnBodySize).value;
        txnRoot(TranIds(f.txns)) == f.rootHash && f.blockNum !in before.unavailable
      ensures var f := ForwardTxn.DecodeForward(msg, off, txnBodySize).value;
        && !ForwardAccepted(msg, off, before.unavailable)
        && ForwardStep(msg, off, before) == before.(unavailable := before.unavailable[f.blockNum := {}])
    {
      var f := ForwardTxn.DecodeForward(msg, off, txnBodySize).value;
      var none: set<TxnHash> := Tracker.Outstanding(before.unavailable, f.blockNum) - {f.rootHash};
      assert none == {} by {
        assert Tracker.Outstanding(before.unavailable, f.blockNum) == {};
      }
      assert Tracker.Take(before.unavailable, f.blockNum, f.rootHash) == before.unavailable[f.blockNum := {}];
    }

    /** As written, replaying the message that took a block's last
        outstanding root revives the block's tracker entry, empty, after
        the first arrival completed it; the forward list stays gone, and
        no later step deletes the entry. */
    lemma ForwardReplayLeavesEmptyEntry(msg: seq<byte>, off: nat, before: Relay)
      requires ForwardAccepted(msg, off, before.unavailable)
      requires var f := ForwardTxn.DecodeForward(msg, off, txnBodySize).value;
        Tracker.Outstanding(before.unavailable, f.blockNum) == {f.rootHash}
      ensures var b := ForwardTxn.DecodeForward(msg, off, txnBodySize).value.blockNum;
        var after := ForwardStep(msg, off, before);
        var again := ForwardStep(msg, off, after);
        && b !in after.unavailable && b !in after.assignment
        && b in again.unavailable && again.unavailable[b] == {} && b !in again.assignment
    {
      var f := ForwardTxn.DecodeForward(msg, off, txnBodySize).value;
      Tracker.LastTakeCompletes(before.unavailable, before.assignment, f.blockNum, f.rootHash);
      ForwardRecreatesEntry(msg, off, ForwardStep(msg, off, before));
    }

    /** The message a sending node broadcasts for block `b` (the forward
        prefix, then the block number, the micro-block root and the
        bodies) is taken by this node exactly when the bodies' ids have
        that root and the root is outstanding here; then the bodies are
        appended, in order, to this node's committed list for `b` and no
        other block's list changes. */
    lemma ForwardOfSentBodies(b: nat, rootHash: TxnHash, txns: seq<Transaction>, before: Relay)
      requires b < Pow256(UINT256_SIZE) && |rootHash| == TRAN_HASH_SIZE && ForwardTxn.TxnsFit(txns, txnBodySize)
      ensures var msg := forwardPrefix + ForwardTxn.EncodeForward(b, rootHash, txns);
        && (ForwardAccepted(msg, |forwardPrefix|, before.unavailable) <==>
              txnRoot(TranIds(txns)) == rootHash && Tracker.Found(before.unavailable, b, rootHash))
        && (ForwardAccepted(msg, |forwardPrefix|, before.unavailable) ==>
              var after := ForwardStep(msg, |forwardPrefix|, before);
              && Pools.EntryAt(after.committed, b) == Pools.EntryAt(before.committed, b) + txns
              && forall c :: c != b ==> Pools.EntryAt(after.committed, c) == Pools.EntryAt(before.committed, c))
    {
      ForwardTxn.BroadcastRoundTrip(forwardPrefix, b, rootHash, txns, txnBodySize);
    }

    /** End to end: the bodies this node's micro-block step broadcasts
        for an outstanding root are taken by a receiving node (with the
        same message prefix and transaction size) exactly when their ids
        have that root and the root is outstanding there, and then they
        are appended to its committed list for the block. */
    lemma OwnBodiesReachReceiver(mb: Option<MicroBlock>, before: Shared, b: nat, mode: TxSharingMode,
                                 to: seq<Peer>, there: Relay)
      requires mb.Some? && Pools.Distinct(mb.value.tranHashes)
      requires Tracker.Found(before.unavailable, b, mb.value.txRootHash)
      requires b < Pow256(UINT256_SIZE) && |mb.value.txRootHash| == TRAN_HASH_SIZE
      requires var found := Pools.Lookup(mb.value.tranHashes, Pools.PoolAt(before.submitted, b),
                                         Pools.PoolAt(before.received, b));
        |to| > 0 && SendsBodies(mode) && |found| > 0 && ForwardTxn.TxnsFit(found, txnBodySize)
      ensures var root := mb.value.txRootHash;
        var found := Pools.Lookup(mb.value.tranHashes, Pools.PoolAt(before.submitted, b),
                                  Pools.PoolAt(before.received, b));
        var msg := forwardPrefix + ForwardTxn.EncodeForward(b, root, found);
        && ShareStep(mb, forwardPrefix, before, b, mode, to).sent == before.sent + [Broadcast(to, msg)]
        && (ForwardAccepted(msg, |forwardPrefix|, there.unavailable) <==>
              txnRoot(TranIds(found)) == root && Tracker.Found(there.unavailable, b, root))
        && (ForwardAccepted(msg, |forwardPrefix|, there.unavailable) ==>
              Pools.EntryAt(ForwardStep(msg, |forwardPrefix|, there).committed, b) ==
              Pools.EntryAt(there.committed, b) + found)
    {
      var found := Pools.Lookup(mb.value.tranHashes, Pools.PoolAt(before.submitted, b),
                                Pools.PoolAt(before.received, b));
      ShareStepCommits(mb, forwardPrefix, before, b, mode, to);
      ForwardOfSentBodies(b, mb.value.txRootHash, found, there);
    }
  }
}
