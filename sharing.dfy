/** The transaction-sharing setup that trails a final-block message, and the
    sender target list derived from it.

    Layout (all counts and numbers big-endian):
      [4] D, then D peers of [16-byte IP][4-byte port]   -- DS-committee forwarders
      [4] S, then for each of the S shards:
        [4] R, then R peers                             -- the shard's receivers
        [4] T, then T peers                             -- the shard's senders

    Decoding yields the list of peer lists `Nodes(setup)`: index 0 holds the
    DS forwarders, indices 2k+1 and 2k+2 hold shard k's receivers and
    senders. */
module Sharing {
  import opened Wire
  import opened Types

  /** Bytes one peer entry occupies (written as the literal 20 where it
      multiplies a count, so that the arithmetic stays linear). */
  const PEER_SIZE: nat := IP_SIZE + PORT_SIZE

  /** The peer whose entry starts at `off`. */
  function PeerAt(msg: seq<byte>, off: nat): Peer
    requires off + PEER_SIZE <= |msg|
  {
    Peer(BigEndianAt(msg, off, IP_SIZE), BigEndianAt(msg, off + IP_SIZE, PORT_SIZE))
  }

  /** The `n` consecutive peer entries that start at `off`. */
  function PeersFrom(msg: seq<byte>, off: nat, n: nat): (ps: seq<Peer>)
    requires off + 20 * n <= |msg|
    ensures |ps| == n
    decreases n
  {
    if n == 0 then []
    else PeersFrom(msg, off, n - 1) + [PeerAt(msg, off + 20 * (n - 1))]
  }

  /** A count-prefixed peer list at `off`, with the offset just past it;
      `Fail` when the message is too short for the count or the entries. */
  function DecodePeerList(msg: seq<byte>, off: nat): (r: Decoded<seq<Peer>>)
    ensures r.Ok? ==> off + UINT32_SIZE <= r.next <= |msg|
  {
    if off + UINT32_SIZE > |msg| then Fail
    else
      var n := BigEndianAt(msg, off, UINT32_SIZE);
      if off + UINT32_SIZE + 20 * n > |msg| then Fail
      else Ok(PeersFrom(msg, off + UINT32_SIZE, n), off + UINT32_SIZE + 20 * n)
  }

  /** One shard's sharing roster. */
  datatype ShardRoster = ShardRoster(receivers: seq<Peer>, senders: seq<Peer>)

  /** The whole sharing setup. */
  datatype SharingSetup = SharingSetup(dsForwarders: seq<Peer>, shards: seq<ShardRoster>)

  /** One shard's receiver list followed by its sender list. */
  function DecodeShard(msg: seq<byte>, off: nat): (r: Decoded<ShardRoster>)
    ensures r.Ok? ==> off <= r.next <= |msg|
  {
    match DecodePeerList(msg, off)
    case Fail => Fail
    case Ok(recv, o1) =>
      match DecodePeerList(msg, o1)
      case Fail => Fail
      case Ok(send, o2) => Ok(ShardRoster(recv, send), o2)
  }

  /** `n` consecutive shard rosters. */
  function DecodeShards(msg: seq<byte>, off: nat, n: nat): (r: Decoded<seq<ShardRoster>>)
    ensures r.Ok? ==> |r.value| == n && off <= r.next <= |msg| + off
    decreases n
  {
    if n == 0 then Ok([], off)
    else
      match DecodeShards(msg, off, n - 1)
      case Fail => Fail
      case Ok(ss, o) =>
        match DecodeShard(msg, o)
        case Fail => Fail
        case Ok(sh, o1) => Ok(ss + [sh], o1)
  }

  /** A count-prefixed sequence of shard rosters. */
  function DecodeRosters(msg: seq<byte>, off: nat): Decoded<seq<ShardRoster>>
  {
    if off + UINT32_SIZE > |msg| then Fail
    else DecodeShards(msg, off + UINT32_SIZE, BigEndianAt(msg, off, UINT32_SIZE))
  }

  /** The sharing setup at `off`, with the offset just past it. */
  function DecodeSetup(msg: seq<byte>, off: nat): Decoded<SharingSetup>
  {
    match DecodePeerList(msg, off)
    case Fail => Fail
    case Ok(ds, o1) =>
      match DecodeRosters(msg, o1)
      case Fail => Fail
      case Ok(ss, o2) => Ok(SharingSetup(ds, ss), o2)
  }

  /** The receiver and sender lists of the shards, in shard order. */
  function ShardLists(ss: seq<ShardRoster>): (r: seq<seq<Peer>>)
    ensures |r| == 2 * |ss|
    decreases |ss|
  {
    if |ss| == 0 then []
    else ShardLists(ss[..|ss| - 1]) + [ss[|ss| - 1].receivers, ss[|ss| - 1].senders]
  }

  /** The peer lists in the order the decoder pushes them. */
  function Nodes(s: SharingSetup): seq<seq<Peer>>
  {
    [s.dsForwarders] + ShardLists(s.shards)
  }

  // ---------------------------------------------------------------------
  // The encoder (the directory-service side), the partner of the decoder.

  function EncodePeer(p: Peer): (r: seq<byte>)
    ensures |r| == PEER_SIZE
  {
    ToBigEndian(p.ip, IP_SIZE) + ToBigEndian(p.port, PORT_SIZE)
  }

  function EncodePeers(ps: seq<Peer>): (r: seq<byte>)
    ensures |r| == 20 * |ps|
    decreases |ps|
  {
    if |ps| == 0 then [] else EncodePeers(ps[..|ps| - 1]) + EncodePeer(ps[|ps| - 1])
  }

  function EncodePeerList(ps: seq<Peer>): (r: seq<byte>)
    ensures |r| == PeerListSize(ps)
  {
    ToBigEndian(|ps|, UINT32_SIZE) + EncodePeers(ps)
  }

  function EncodeShard(sh: ShardRoster): (r: seq<byte>)
    ensures |r| == ShardSize(sh)
  {
    EncodePeerList(sh.receivers) + EncodePeerList(sh.senders)
  }

  function EncodeShards(ss: seq<ShardRoster>): (r: seq<byte>)
    ensures |r| == ShardsSize(ss)
    decreases |ss|
  {
    if |ss| == 0 then [] else EncodeShards(ss[..|ss| - 1]) + EncodeShard(ss[|ss| - 1])
  }

  function EncodeRosters(ss: seq<ShardRoster>): (r: seq<byte>)
    ensures |r| == RostersSize(ss)
  {
    ToBigEndian(|ss|, UINT32_SIZE) + EncodeShards(ss)
  }

  function EncodeSetup(s: SharingSetup): (r: seq<byte>)
    ensures |r| == SetupSize(s)
  {
    EncodePeerList(s.dsForwarders) + EncodeRosters(s.shards)
  }

  /** Sizes on the wire: a count-prefixed peer list takes 4 + 20·n bytes,
      a shard roster two such lists, the setup the forwarder list, the
      shard count and the rosters. */
  function PeerListSize(ps: seq<Peer>): nat
  {
    UINT32_SIZE + 20 * |ps|
  }

  function ShardSize(sh: ShardRoster): nat
  {
    PeerListSize(sh.receivers) + PeerListSize(sh.senders)
  }

  function ShardsSize(ss: seq<ShardRoster>): nat
    decreases |ss|
  {
    if |ss| == 0 then 0 else ShardsSize(ss[..|ss| - 1]) + ShardSize(ss[|ss| - 1])
  }

  function RostersSize(ss: seq<ShardRoster>): nat
  {
    UINT32_SIZE + ShardsSize(ss)
  }

  function SetupSize(s: SharingSetup): nat
  {
    PeerListSize(s.dsForwarders) + RostersSize(s.shards)
  }

  /** Every field fits its width on the wire. */
  predicate PeerFits(p: Peer)
  {
    p.ip < Pow256(IP_SIZE) && p.port < Pow256(PORT_SIZE)
  }

  predicate ListFits(ps: seq<Peer>)
  {
    |ps| < Pow256(UINT32_SIZE) && forall i :: 0 <= i < |ps| ==> PeerFits(ps[i])
  }

  predicate WellFormed(s: SharingSetup)
  {
    && ListFits(s.dsForwarders)
    && |s.shards| < Pow256(UINT32_SIZE)
    && RostersFit(s.shards)
  }

  /** Every roster of a sequence fits the count fields. */
  predicate RostersFit(ss: seq<ShardRoster>)
  {
    forall k :: 0 <= k < |ss| ==> ListFits(ss[k].receivers) && ListFits(ss[k].senders)
  }

  // ---------------------------------------------------------------------
  // Layout of the decoded lists.

  /** `Nodes` has 1 + 2·S lists: the DS forwarders first, then shard k's
      receivers at 2k+1 and its senders at 2k+2. */
  lemma {:induction false} NodesLayout(s: SharingSetup)
    ensures |Nodes(s)| == 1 + 2 * |s.shards|
    ensures Nodes(s)[0] == s.dsForwarders
    ensures forall k :: 0 <= k < |s.shards| ==>
              Nodes(s)[2 * k + 1] == s.shards[k].receivers && Nodes(s)[2 * k + 2] == s.shards[k].senders
  {
    ShardListsLayout(s.shards);
  }

  lemma {:induction false} ShardListsLayout(ss: seq<ShardRoster>)
    ensures forall k :: 0 <= k < |ss| ==>
              ShardLists(ss)[2 * k] == ss[k].receivers && ShardLists(ss)[2 * k + 1] == ss[k].senders
  {
    if |ss| > 0 {
      var init := ss[..|ss| - 1];
      ShardListsLayout(init);
      forall k | 0 <= k < |ss|
        ensures ShardLists(ss)[2 * k] == ss[k].receivers && ShardLists(ss)[2 * k + 1] == ss[k].senders
      {
        if k < |init| {
          assert ss[k] == init[k];
          assert ShardLists(ss)[2 * k] == ShardLists(init)[2 * k];
          assert ShardLists(ss)[2 * k + 1] == ShardLists(init)[2 * k + 1];
        }
      }
    }
  }

  /** The list the forwarder case takes, at index shard_id + 1, is this
      shard's receiver list only for shard 0. For an even shard id it is
      the receiver list of shard shard_id/2, for an odd one the sender list
      of shard (shard_id - 1)/2. */
  lemma ForwarderListAsWritten(s: SharingSetup, shardId: nat)
    requires shardId < |s.shards|
    ensures shardId + 1 < |Nodes(s)|
    ensures Nodes(s)[shardId + 1] ==
            if shardId % 2 == 0 then s.shards[shardId / 2].receivers else s.shards[shardId / 2].senders
    ensures shardId == 0 ==> Nodes(s)[shardId + 1] == s.shards[shardId].receivers
  {
    NodesLayout(s);
    var m := shardId / 2;
    if shardId % 2 == 0 {
      assert shardId + 1 == 2 * m + 1;
    } else {
      assert shardId + 1 == 2 * m + 2;
    }
  }

  // ---------------------------------------------------------------------
  // Sizes and round trips.

  lemma PeerAtRoundTrip(msg: seq<byte>, at: nat, p: Peer)
    requires PeerFits(p) && BytesAt(msg, at, EncodePeer(p))
    ensures at + PEER_SIZE <= |msg| && PeerAt(msg, at) == p
  {
    BytesAtSplit(msg, at, EncodePeer(p), ToBigEndian(p.ip, IP_SIZE), ToBigEndian(p.port, PORT_SIZE));
    ReadWritten(msg, at, p.ip, IP_SIZE);
    ReadWritten(msg, at + IP_SIZE, p.port, PORT_SIZE);
  }

  /** A non-empty sequence of peers is its first peers and its last. */
  lemma PeersSnoc(ps: seq<Peer>)
    requires |ps| > 0
    ensures ps == ps[..|ps| - 1] + [ps[|ps| - 1]]
  {
  }

  /** Peers with one more appended begin with the original peers. */
  lemma PeersInit(init: seq<Peer>, last: Peer)
    ensures (init + [last])[..|init|] == init
  {
  }

  lemma {:induction false} PeersFromRoundTrip(msg: seq<byte>, off: nat, ps: seq<Peer>)
    requires forall i :: 0 <= i < |ps| ==> PeerFits(ps[i])
    requires BytesAt(msg, off, EncodePeers(ps))
    ensures off + 20 * |ps| <= |msg| && PeersFrom(msg, off, |ps|) == ps
  {
    if |ps| > 0 {
      var init, last := ps[..|ps| - 1], ps[|ps| - 1];
      PeersSnoc(ps);
      BytesAtSplit(msg, off, EncodePeers(ps), EncodePeers(init), EncodePeer(last));
      PeersFromRoundTrip(msg, off, init);
      PeerAtRoundTrip(msg, off + 20 * |init|, last);
    }
  }

  lemma DecodePeerListRoundTrip(msg: seq<byte>, off: nat, ps: seq<Peer>)
    requires ListFits(ps) && BytesAt(msg, off, EncodePeerList(ps))
    ensures DecodePeerList(msg, off) == Ok(ps, off + PeerListSize(ps))
  {
    BytesAtSplit(msg, off, EncodePeerList(ps), ToBigEndian(|ps|, UINT32_SIZE), EncodePeers(ps));
    ReadWritten(msg, off, |ps|, UINT32_SIZE);
    PeersFromRoundTrip(msg, off + UINT32_SIZE, ps);
  }

  /** `DecodeShard` reads two peer lists back to back. */
  lemma DecodeShardStep(msg: seq<byte>, off: nat, sh: ShardRoster, o1: nat, o2: nat)
    requires DecodePeerList(msg, off) == Ok(sh.receivers, o1)
    requires DecodePeerList(msg, o1) == Ok(sh.senders, o2)
    ensures DecodeShard(msg, off) == Ok(sh, o2)
  {
  }

  lemma DecodeShardRoundTrip(msg: seq<byte>, off: nat, sh: ShardRoster)
    requires ListFits(sh.receivers) && ListFits(sh.senders)
    requires BytesAt(msg, off, EncodeShard(sh))
    ensures DecodeShard(msg, off) == Ok(sh, off + ShardSize(sh))
  {
    var o1 := off + PeerListSize(sh.receivers);
    BytesAtSplit(msg, off, EncodeShard(sh), EncodePeerList(sh.receivers), EncodePeerList(sh.senders));
    DecodePeerListRoundTrip(msg, off, sh.receivers);
    DecodePeerListRoundTrip(msg, o1, sh.senders);
    DecodeShardStep(msg, off, sh, o1, o1 + PeerListSize(sh.senders));
  }

  /** `DecodeShards` reads one more roster after the first ones. */
  lemma DecodeShardsSnoc(msg: seq<byte>, off: nat, init: seq<ShardRoster>, last: ShardRoster, o: nat, o1: nat)
    requires DecodeShards(msg, off, |init|) == Ok(init, o)
    requires DecodeShard(msg, o) == Ok(last, o1)
    ensures DecodeShards(msg, off, |init| + 1) == Ok(init + [last], o1)
  {
  }

  /** A sequence of rosters whose first n - 1 cannot be read cannot be
      read either. */
  lemma DecodeShardsFailStep(msg: seq<byte>, off: nat, n: nat)
    requires n > 0 && DecodeShards(msg, off, n - 1).Fail?
    ensures DecodeShards(msg, off, n).Fail?
  {
  }

  /** A sequence of rosters whose last one cannot be read cannot be read. */
  lemma DecodeShardsFailAt(msg: seq<byte>, off: nat, n: nat, ss: seq<ShardRoster>, o: nat)
    requires n > 0 && DecodeShards(msg, off, n - 1) == Ok(ss, o) && DecodeShard(msg, o).Fail?
    ensures DecodeShards(msg, off, n).Fail?
  {
  }

  /** Once the first i rosters cannot be read, no longer sequence can be
      read either. */
  lemma {:induction false} DecodeShardsFailFrom(msg: seq<byte>, off: nat, i: nat, n: nat)
    requires DecodeShards(msg, off, i).Fail? && i <= n
    ensures DecodeShards(msg, off, n).Fail?
    decreases n
  {
    if n > i {
      DecodeShardsFailFrom(msg, off, i, n - 1);
      DecodeShardsFailStep(msg, off, n);
    }
  }

  /** The first rosters of fitting rosters fit, and so does the last. */
  lemma RostersFitInit(ss: seq<ShardRoster>)
    requires |ss| > 0 && RostersFit(ss)
    ensures RostersFit(ss[..|ss| - 1])
    ensures ListFits(ss[|ss| - 1].receivers) && ListFits(ss[|ss| - 1].senders)
  {
    var init := ss[..|ss| - 1];
    forall k | 0 <= k < |init| ensures ListFits(init[k].receivers) && ListFits(init[k].senders) {
      assert init[k] == ss[k];
    }
  }

  /** Fitting rosters written at `off` are read back. */
  lemma {:induction false} DecodeShardsRoundTrip(msg: seq<byte>, off: nat, ss: seq<ShardRoster>)
    requires RostersFit(ss) && BytesAt(msg, off, EncodeShards(ss))
    ensures DecodeShards(msg, off, |ss|) == Ok(ss, off + ShardsSize(ss))
  {
    if |ss| > 0 {
      var init, last := ss[..|ss| - 1], ss[|ss| - 1];
      var o := off + ShardsSize(init);
      EncodeShardsSplit(msg, off, ss);
      DecodeShardsRoundTrip(msg, off, init);
      DecodeShardRoundTrip(msg, o, last);
      DecodeShardsSnoc(msg, off, init, last, o, o + ShardSize(last));
    }
  }

  /** Fitting rosters written at `off` are their first rosters written at
      `off`, followed by their last roster. */
  lemma EncodeShardsSplit(msg: seq<byte>, off: nat, ss: seq<ShardRoster>)
    requires |ss| > 0 && RostersFit(ss) && BytesAt(msg, off, EncodeShards(ss))
    ensures var init, last := ss[..|ss| - 1], ss[|ss| - 1];
      && ss == init + [last] && ShardsSize(ss) == ShardsSize(init) + ShardSize(last)
      && RostersFit(init) && BytesAt(msg, off, EncodeShards(init))
      && ListFits(last.receivers) && ListFits(last.senders)
      && BytesAt(msg, off + ShardsSize(init), EncodeShard(last))
  {
    var init, last := ss[..|ss| - 1], ss[|ss| - 1];
    BytesAtSplit(msg, off, EncodeShards(ss), EncodeShards(init), EncodeShard(last));
    RostersFitInit(ss);
    RostersSnoc(ss);
  }

  /** A non-empty sequence of rosters is its first rosters and its last. */
  lemma RostersSnoc(ss: seq<ShardRoster>)
    requires |ss| > 0
    ensures ss == ss[..|ss| - 1] + [ss[|ss| - 1]]
  {
  }

  /** Rosters with one more appended begin with the original rosters. */
  lemma RostersInit(init: seq<ShardRoster>, last: ShardRoster)
    ensures (init + [last])[..|init|] == init
  {
  }

  /** A count of fitting rosters, written at `off` with the rosters after
      it, is read back. */
  lemma DecodeRostersRoundTrip(msg: seq<byte>, off: nat, ss: seq<ShardRoster>)
    requires |ss| < Pow256(UINT32_SIZE)
    requires RostersFit(ss)
    requires BytesAt(msg, off, EncodeRosters(ss))
    ensures DecodeRosters(msg, off) == Ok(ss, off + RostersSize(ss))
  {
    BytesAtSplit(msg, off, EncodeRosters(ss), ToBigEndian(|ss|, UINT32_SIZE), EncodeShards(ss));
    ReadWritten(msg, off, |ss|, UINT32_SIZE);
    DecodeShardsRoundTrip(msg, off + UINT32_SIZE, ss);
  }

  /** `DecodeSetup` reads the forwarder list and then the rosters. */
  lemma DecodeSetupStep(msg: seq<byte>, off: nat, s: SharingSetup, o1: nat, o2: nat)
    requires DecodePeerList(msg, off) == Ok(s.dsForwarders, o1)
    requires DecodeRosters(msg, o1) == Ok(s.shards, o2)
    ensures DecodeSetup(msg, off) == Ok(s, o2)
  {
  }

  /** Decoding an encoded setup, wherever it sits in a message, gives back
      the same lists and counts and stops right after it. */
  lemma SetupRoundTrip(msg: seq<byte>, off: nat, s: SharingSetup)
    requires WellFormed(s) && BytesAt(msg, off, EncodeSetup(s))
    ensures DecodeSetup(msg, off) == Ok(s, off + SetupSize(s))
  {
    var o1 := off + PeerListSize(s.dsForwarders);
    BytesAtSplit(msg, off, EncodeSetup(s), EncodePeerList(s.dsForwarders), EncodeRosters(s.shards));
    DecodePeerListRoundTrip(msg, off, s.dsForwarders);
    DecodeRostersRoundTrip(msg, o1, s.shards);
    DecodeSetupStep(msg, off, s, o1, o1 + RostersSize(s.shards));
  }

  lemma PeerAtSound(msg: seq<byte>, at: nat)
    requires at + PEER_SIZE <= |msg|
    ensures PeerFits(PeerAt(msg, at)) && BytesAt(msg, at, EncodePeer(PeerAt(msg, at)))
  {
    WrittenRead(msg, at, IP_SIZE);
    WrittenRead(msg, at + IP_SIZE, PORT_SIZE);
    var p := PeerAt(msg, at);
    BytesAtJoin(msg, at, ToBigEndian(p.ip, IP_SIZE), ToBigEndian(p.port, PORT_SIZE));
  }

  lemma {:induction false} PeersFromSound(msg: seq<byte>, off: nat, n: nat)
    requires off + 20 * n <= |msg|
    ensures BytesAt(msg, off, EncodePeers(PeersFrom(msg, off, n)))
    ensures forall i :: 0 <= i < n ==> PeerFits(PeersFrom(msg, off, n)[i])
  {
    if n > 0 {
      var ps := PeersFrom(msg, off, n);
      var init := PeersFrom(msg, off, n - 1);
      PeersInit(init, PeerAt(msg, off + 20 * (n - 1)));
      PeersFromSound(msg, off, n - 1);
      PeerAtSound(msg, off + 20 * (n - 1));
      BytesAtJoin(msg, off, EncodePeers(init), EncodePeer(ps[n - 1]));
    }
  }

  lemma DecodePeerListSound(msg: seq<byte>, off: nat, ps: seq<Peer>, o: nat)
    requires DecodePeerList(msg, off) == Ok(ps, o)
    ensures ListFits(ps) && o == off + PeerListSize(ps) && BytesAt(msg, off, EncodePeerList(ps))
  {
    var n := BigEndianAt(msg, off, UINT32_SIZE);
    WrittenRead(msg, off, UINT32_SIZE);
    PeersFromSound(msg, off + UINT32_SIZE, n);
    BytesAtJoin(msg, off, ToBigEndian(n, UINT32_SIZE), EncodePeers(ps));
  }

  lemma DecodeShardSound(msg: seq<byte>, off: nat, sh: ShardRoster, o: nat)
    requires DecodeShard(msg, off) == Ok(sh, o)
    ensures ListFits(sh.receivers) && ListFits(sh.senders)
    ensures o == off + ShardSize(sh) && BytesAt(msg, off, EncodeShard(sh))
  {
    var o1 := DecodePeerList(msg, off).next;
    DecodePeerListSound(msg, off, sh.receivers, o1);
    DecodePeerListSound(msg, o1, sh.senders, o);
    BytesAtJoin(msg, off, EncodePeerList(sh.receivers), EncodePeerList(sh.senders));
  }

  /** A successful decode of n > 0 rosters is a successful decode of the
      first n - 1 followed by one more. */
  lemma DecodeShardsLast(msg: seq<byte>, off: nat, n: nat, ss: seq<ShardRoster>, o: nat)
    requires n > 0 && DecodeShards(msg, off, n) == Ok(ss, o)
    ensures var prev := DecodeShards(msg, off, n - 1);
            && prev == Ok(ss[..|ss| - 1], prev.next)
            && DecodeShard(msg, prev.next) == Ok(ss[|ss| - 1], o)
  {
    var prev := DecodeShards(msg, off, n - 1);
    RostersInit(prev.value, DecodeShard(msg, prev.next).value);
  }

  lemma {:induction false} DecodeShardsFit(msg: seq<byte>, off: nat, n: nat, ss: seq<ShardRoster>, o: nat)
    requires DecodeShards(msg, off, n) == Ok(ss, o)
    ensures RostersFit(ss)
  {
    if n > 0 {
      DecodeShardsLast(msg, off, n, ss, o);
      var o1 := DecodeShards(msg, off, n - 1).next;
      DecodeShardsFit(msg, off, n - 1, ss[..|ss| - 1], o1);
      DecodeShardSound(msg, o1, ss[|ss| - 1], o);
      forall k | 0 <= k < |ss| ensures ListFits(ss[k].receivers) && ListFits(ss[k].senders) {
        if k < |ss| - 1 {
          assert ss[k] == ss[..|ss| - 1][k];
        }
      }
    }
  }

  /** Rosters `init` written at `off`, followed by roster `last`, are
      rosters `init + [last]` written at `off`. */
  lemma EncodeShardsJoin(msg: seq<byte>, off: nat, init: seq<ShardRoster>, last: ShardRoster, o1: nat, o: nat)
    requires o1 == off + ShardsSize(init) && BytesAt(msg, off, EncodeShards(init))
    requires o == o1 + ShardSize(last) && BytesAt(msg, o1, EncodeShard(last))
    ensures o == off + ShardsSize(init + [last]) && BytesAt(msg, off, EncodeShards(init + [last]))
  {
    RostersInit(init, last);
    BytesAtJoin(msg, off, EncodeShards(init), EncodeShard(last));
  }

  lemma {:induction false} DecodeShardsSound(msg: seq<byte>, off: nat, n: nat, ss: seq<ShardRoster>, o: nat)
    requires off <= |msg| && DecodeShards(msg, off, n) == Ok(ss, o)
    ensures o == off + ShardsSize(ss) && BytesAt(msg, off, EncodeShards(ss))
  {
    if n > 0 {
      DecodeShardsLast(msg, off, n, ss, o);
      var init, last, o1 := ss[..|ss| - 1], ss[|ss| - 1], DecodeShards(msg, off, n - 1).next;
      DecodeShardsSound(msg, off, n - 1, init, o1);
      DecodeShardSound(msg, o1, last, o);
      RostersSnoc(ss);
      EncodeShardsJoin(msg, off, init, last, o1, o);
    }
  }

  lemma DecodeRostersSound(msg: seq<byte>, off: nat, ss: seq<ShardRoster>, o: nat)
    requires DecodeRosters(msg, off) == Ok(ss, o)
    ensures |ss| < Pow256(UINT32_SIZE)
    ensures RostersFit(ss)
    ensures o == off + RostersSize(ss) && BytesAt(msg, off, EncodeRosters(ss))
  {
    var n := BigEndianAt(msg, off, UINT32_SIZE);
    WrittenRead(msg, off, UINT32_SIZE);
    DecodeShardsFit(msg, off + UINT32_SIZE, n, ss, o);
    DecodeShardsSound(msg, off + UINT32_SIZE, n, ss, o);
    EncodeRostersJoin(msg, off, ss, o);
  }

  /** A count written at `off`, followed by that many rosters, is the
      rosters written at `off`. */
  lemma EncodeRostersJoin(msg: seq<byte>, off: nat, ss: seq<ShardRoster>, o: nat)
    requires BytesAt(msg, off, ToBigEndian(|ss|, UINT32_SIZE))
    requires o == off + UINT32_SIZE + ShardsSize(ss) && BytesAt(msg, off + UINT32_SIZE, EncodeShards(ss))
    ensures o == off + RostersSize(ss) && BytesAt(msg, off, EncodeRosters(ss))
  {
    BytesAtJoin(msg, off, ToBigEndian(|ss|, UINT32_SIZE), EncodeShards(ss));
  }

  /** Whatever a successful decode returns is well formed and is exactly
      what the bytes it consumed encode: with `SetupRoundTrip`, decoding is
      the inverse of encoding in both directions. */
  lemma DecodeSetupSound(msg: seq<byte>, off: nat, s: SharingSetup, o: nat)
    requires DecodeSetup(msg, off) == Ok(s, o)
    ensures WellFormed(s) && o == off + SetupSize(s) && BytesAt(msg, off, EncodeSetup(s))
  {
    var o1 := DecodePeerList(msg, off).next;
    DecodePeerListSound(msg, off, s.dsForwarders, o1);
    DecodeRostersSound(msg, o1, s.shards, o);
    EncodeSetupJoin(msg, off, s, o1, o);
  }

  /** A forwarder list written at `off`, followed by rosters, is the setup
      written at `off`. */
  lemma EncodeSetupJoin(msg: seq<byte>, off: nat, s: SharingSetup, o1: nat, o: nat)
    requires o1 == off + PeerListSize(s.dsForwarders) && BytesAt(msg, off, EncodePeerList(s.dsForwarders))
    requires o == o1 + RostersSize(s.shards) && BytesAt(msg, o1, EncodeRosters(s.shards))
    ensures o == off + SetupSize(s) && BytesAt(msg, off, EncodeSetup(s))
  {
    BytesAtJoin(msg, off, EncodePeerList(s.dsForwarders), EncodeRosters(s.shards));
  }

  // ---------------------------------------------------------------------
  // The sender target list.

  /** The receiver lists at odd indices from `i` onwards, skipping the one
      of shard `shardId`, concatenated in index order. */
  function OtherReceivers(nodes: seq<seq<Peer>>, i: nat, shardId: nat): seq<Peer>
    requires i % 2 == 1
    decreases |nodes| - i
  {
    if i >= |nodes| then []
    else (if (i - 1) / 2 == shardId then [] else nodes[i]) + OtherReceivers(nodes, i + 2, shardId)
  }

  /** The DS forwarders followed by every other shard's receivers. */
  function SendTargets(nodes: seq<seq<Peer>>, shardId: nat): seq<Peer>
    requires |nodes| > 0
  {
    nodes[0] + OtherReceivers(nodes, 1, shardId)
  }

  /** From the receiver list of shard `j` on, a peer is gathered exactly
      when it sits in the receiver list of some shard `m >= j` other than
      shard `shardId` (shard m's receivers being at index 2m + 1). */
  lemma {:induction false} OtherReceiversMembers(nodes: seq<seq<Peer>>, j: nat, shardId: nat, p: Peer)
    ensures p in OtherReceivers(nodes, 2 * j + 1, shardId) <==>
            exists m :: j <= m && 2 * m + 1 < |nodes| && m != shardId && p in nodes[2 * m + 1]
    decreases |nodes| - 2 * j
  {
    var i := 2 * j + 1;
    assert (i - 1) / 2 == j;
    if i < |nodes| {
      OtherReceiversMembers(nodes, j + 1, shardId, p);
      assert OtherReceivers(nodes, i, shardId) ==
             (if j == shardId then [] else nodes[i]) + OtherReceivers(nodes, 2 * (j + 1) + 1, shardId);
      if exists m :: j <= m && 2 * m + 1 < |nodes| && m != shardId && p in nodes[2 * m + 1] {
        var m :| j <= m && 2 * m + 1 < |nodes| && m != shardId && p in nodes[2 * m + 1];
        if m != j {
          assert j + 1 <= m;
        }
      }
    }
  }

  /** A peer is a sender target exactly when it is a DS forwarder or sits
      in the receiver list of some shard other than this one. */
  lemma SendTargetsMembers(nodes: seq<seq<Peer>>, shardId: nat, p: Peer)
    requires |nodes| > 0
    ensures p in SendTargets(nodes, shardId) <==>
            p in nodes[0] ||
            exists m :: 0 <= m && 2 * m + 1 < |nodes| && m != shardId && p in nodes[2 * m + 1]
  {
    OtherReceiversMembers(nodes, 0, shardId, p);
  }

  /** On a decoded setup, the sender targets are the DS forwarders and the
      receivers of every shard but this one. */
  lemma SendTargetsOfSetup(s: SharingSetup, shardId: nat, p: Peer)
    ensures p in SendTargets(Nodes(s), shardId) <==>
            p in s.dsForwarders ||
            exists k :: 0 <= k < |s.shards| && k != shardId && p in s.shards[k].receivers
  {
    NodesLayout(s);
    var nodes := Nodes(s);
    SendTargetsMembers(nodes, shardId, p);
    if exists m :: 0 <= m && 2 * m + 1 < |nodes| && m != shardId && p in nodes[2 * m + 1] {
      var m :| 0 <= m && 2 * m + 1 < |nodes| && m != shardId && p in nodes[2 * m + 1];
      assert p in s.shards[m].receivers;
    }
    if exists k :: 0 <= k < |s.shards| && k != shardId && p in s.shards[k].receivers {
      var k :| 0 <= k < |s.shards| && k != shardId && p in s.shards[k].receivers;
      assert p in nodes[2 * k + 1];
    }
  }

  // ---------------------------------------------------------------------
  // The decoding loops.

  /** Reads a count-prefixed peer list entry by entry, noting whether peer
      `me` is among the entries. */
  method ReadPeerList(msg: seq<byte>, off: nat, me: Peer) returns (ok: bool, peers: seq<Peer>, next: nat, seen: bool)
    ensures ok <==> DecodePeerList(msg, off).Ok?
    ensures ok ==> DecodePeerList(msg, off) == Ok(peers, next) && (seen <==> me in peers)
  {
    peers, next, seen := [], off, false;
    if off + UINT32_SIZE > |msg| {
      return false, [], off, false;
    }
    var count := BigEndianAt(msg, off, UINT32_SIZE);
    next := off + UINT32_SIZE;
    var j := 0;
    while j < count
      invariant j <= count
      invariant next == off + UINT32_SIZE + 20 * j <= |msg|
      invariant peers == PeersFrom(msg, off + UINT32_SIZE, j)
      invariant seen <==> me in peers
    {
      if next + PEER_SIZE > |msg| {
        return false, [], off, false;
      }
      var p := PeerAt(msg, next);
      peers := peers + [p];
      if p == me {
        seen := true;
      }
      next := next + PEER_SIZE;
      j := j + 1;
    }
    ok := true;
  }

  /** The list of all receiving nodes in all other committees including the
      DS committee, built by appending entry by entry. */
  method CollectSendTargets(nodes: seq<seq<Peer>>, shardId: nat) returns (targets: seq<Peer>)
    requires |nodes| > 0
    ensures targets == SendTargets(nodes, shardId)
  {
    targets := [];
    for j := 0 to |nodes[0]|
      invariant targets == nodes[0][..j]
    {
      targets := targets + [nodes[0][j]];
    }
    assert nodes[0][..|nodes[0]|] == nodes[0];
    var i := 1;
    while i < |nodes|
      invariant i % 2 == 1
      invariant targets + OtherReceivers(nodes, i, shardId) == SendTargets(nodes, shardId)
      decreases |nodes| - i
    {
      if (i - 1) / 2 != shardId {
        var shard := nodes[i];
        ghost var before := targets;
        for j := 0 to |shard|
          invariant targets == before + shard[..j]
        {
          targets := targets + [shard[j]];
        }
        assert shard[..|shard|] == shard;
      }
      i := i + 2;
    }
  }
}
