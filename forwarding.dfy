/** The forward list a forwarder builds for one block: every member of its
    own shard except itself, then each fellow forwarder removed once by
    swap-and-pop (the matching entry is overwritten by the last entry and
    the last entry dropped). */
module Forwarding {
  import opened Types

  /** The shard members at every index except `myId`, in index order. */
  function OthersThan(members: seq<Peer>, myId: nat): seq<Peer>
    decreases |members|
  {
    if |members| == 0 then []
    else
      OthersThan(members[..|members| - 1], myId)
        + (if |members| - 1 == myId then [] else [members[|members| - 1]])
  }

  /** The first index at which `f` occurs in `ps`. */
  function FirstIndex(ps: seq<Peer>, f: Peer): (j: nat)
    requires f in ps
    ensures j < |ps| && ps[j] == f
    ensures forall k :: 0 <= k < j ==> ps[k] != f
  {
    if ps[0] == f then 0 else 1 + FirstIndex(ps[1..], f)
  }

  /** Removes the first occurrence of `f`, if any, by moving the last entry
      into its place and shortening the list by one. */
  function SwapPop(ps: seq<Peer>, f: Peer): seq<Peer>
  {
    if f in ps then
      var j := FirstIndex(ps, f);
      ps[j := ps[|ps| - 1]][..|ps| - 1]
    else ps
  }

  /** `SwapPop` applied for each of `fellows`, in order. */
  function RemoveFellows(ps: seq<Peer>, fellows: seq<Peer>): seq<Peer>
    decreases |fellows|
  {
    if |fellows| == 0 then ps
    else SwapPop(RemoveFellows(ps, fellows[..|fellows| - 1]), fellows[|fellows| - 1])
  }

  /** Leaving out index `myId` is the list with that one position cut out
      (or the whole list, when there is no such index). */
  lemma {:induction false} OthersThanIsSplice(members: seq<Peer>, myId: nat)
    ensures OthersThan(members, myId) ==
            if myId < |members| then members[..myId] + members[myId + 1..] else members
  {
    if |members| > 0 {
      var n := |members| - 1;
      var init := members[..n];
      OthersThanIsSplice(init, myId);
      if myId < n {
        assert init[..myId] == members[..myId];
        assert init[myId + 1..] + [members[n]] == members[myId + 1..];
      } else if myId == n {
        assert init == members[..myId];
        assert members[myId + 1..] == [];
      } else {
        assert init + [members[n]] == members;
      }
    }
  }

  /** Cutting position `i` out of a list removes one occurrence of the
      element there. */
  lemma CutContents(ps: seq<Peer>, i: nat)
    requires i < |ps|
    ensures multiset(ps) == multiset(ps[..i] + ps[i + 1..]) + multiset{ps[i]}
  {
    assert ps == ps[..i] + [ps[i]] + ps[i + 1..];
  }

  /** Leaving out index `myId` drops exactly that member, when it exists. */
  lemma OthersThanContents(members: seq<Peer>, myId: nat)
    ensures multiset(members) ==
            multiset(OthersThan(members, myId)) + (if myId < |members| then multiset{members[myId]} else multiset{})
    ensures |OthersThan(members, myId)| == if myId < |members| then |members| - 1 else |members|
  {
    OthersThanIsSplice(members, myId);
    if myId < |members| {
      CutContents(members, myId);
    }
  }

  /** Overwriting position `j` with the last entry and dropping the last
      entry trades one occurrence of `ps[j]` for nothing. */
  lemma OverwriteWithLastContents(ps: seq<Peer>, j: nat)
    requires j < |ps|
    ensures multiset(ps[j := ps[|ps| - 1]][..|ps| - 1]) == multiset(ps) - multiset{ps[j]}
  {
    var n := |ps| - 1;
    var r := ps[j := ps[n]][..n];
    if j == n {
      assert ps == r + [ps[j]];
    } else {
      var a, b := ps[..j], ps[j + 1..n];
      assert ps == a + [ps[j]] + b + [ps[n]];
      assert r == a + [ps[n]] + b;
    }
  }

  /** Swap-and-pop removes exactly one occurrence of `f` when there is one,
      and nothing otherwise. */
  lemma SwapPopContents(ps: seq<Peer>, f: Peer)
    ensures multiset(SwapPop(ps, f)) == multiset(ps) - multiset{f}
    ensures |SwapPop(ps, f)| == if f in ps then |ps| - 1 else |ps|
  {
    if f in ps {
      OverwriteWithLastContents(ps, FirstIndex(ps, f));
    } else {
      assert multiset(ps)[f] == 0;
    }
  }

  /** Removing a list of fellow forwarders one by one takes away, for each
      peer, as many occurrences as the fellow list names (and no more than
      the list holds): the result is the multiset difference, so in
      particular a sub-multiset of the input. */
  lemma {:induction false} RemoveFellowsContents(ps: seq<Peer>, fellows: seq<Peer>)
    ensures multiset(RemoveFellows(ps, fellows)) == multiset(ps) - multiset(fellows)
  {
    if |fellows| > 0 {
      var init := fellows[..|fellows| - 1];
      var f := fellows[|fellows| - 1];
      RemoveFellowsContents(ps, init);
      SwapPopContents(RemoveFellows(ps, init), f);
      assert fellows == init + [f];
      assert multiset(fellows) == multiset(init) + multiset{f};
    }
  }

  /** The list shrinks by exactly the number of matches removed: the size
      of the common part of the input and the fellow list. */
  lemma RemoveFellowsLength(ps: seq<Peer>, fellows: seq<Peer>)
    ensures |RemoveFellows(ps, fellows)| == |ps| - |multiset(ps) * multiset(fellows)|
  {
    RemoveFellowsContents(ps, fellows);
    var a, b := multiset(ps), multiset(fellows);
    assert (a - b) + (a * b) == a;
  }

  /** The forward list of one block: the list already stored for the block
      (`existing`, empty when none), then every shard member except the
      node's own index, then fellow forwarders removed by swap-and-pop. */
  method BuildForwardList(existing: seq<Peer>, members: seq<Peer>, myId: nat, fellows: seq<Peer>)
    returns (peers: seq<Peer>)
    ensures peers == RemoveFellows(existing + OthersThan(members, myId), fellows)
  {
    peers := existing;
    for i := 0 to |members|
      invariant peers == existing + OthersThan(members[..i], myId)
    {
      assert members[..i + 1][..i] == members[..i];
      if i != myId {
        peers := peers + [members[i]];
      }
    }
    assert members[..|members|] == members;
    ghost var base := peers;
    for i := 0 to |fellows|
      invariant peers == RemoveFellows(base, fellows[..i])
    {
      var f := fellows[i];
      assert fellows[..i + 1][..i] == fellows[..i];
      ghost var before := peers;
      var j := 0;
      while j < |peers|
        invariant j <= |peers| && peers == before
        invariant forall k :: 0 <= k < j ==> peers[k] != f
      {
        if peers[j] == f {
          assert FirstIndex(peers, f) == j;
          peers := peers[j := peers[|peers| - 1]][..|peers| - 1];
          break;
        }
        j := j + 1;
      }
      assert peers == SwapPop(before, f);
    }
    assert fellows[..|fellows|] == fellows;
  }
}
