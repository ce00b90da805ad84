/** The availability tracker: for each block number, the set of micro-block
    transaction roots listed by the final block whose transaction bodies
    have not yet arrived. A root is taken out of the set when its bodies
    are committed; once the set is empty the block's entry, and the
    forwarding assignment of the block, are dropped. */
module Tracker {
  import opened Types

  type Table = map<nat, set<TxnHash>>

  /** The roots outstanding for block `b`; an absent entry reads as empty,
      as the source's `operator[]` creates it on first use. */
  function Outstanding(t: Table, b: nat): set<TxnHash>
  {
    if b in t then t[b] else {}
  }

  /** Records root `h` as outstanding for block `b`. */
  function Insert(t: Table, b: nat, h: TxnHash): Table
  {
    t[b := Outstanding(t, b) + {h}]
  }

  /** Records each of `hashes`, in order (no entry is created when there
      are none). */
  function Load(t: Table, b: nat, hashes: seq<TxnHash>): Table
    decreases |hashes|
  {
    if |hashes| == 0 then t
    else Insert(Load(t, b, hashes[..|hashes| - 1]), b, hashes[|hashes| - 1])
  }

  /** Whether `h` is outstanding for block `b`. */
  predicate Found(t: Table, b: nat, h: TxnHash)
  {
    h in Outstanding(t, b)
  }

  /** Takes root `h` out of block `b`'s set, creating the entry (empty)
      when there was none. */
  function Take(t: Table, b: nat, h: TxnHash): Table
  {
    t[b := Outstanding(t, b) - {h}]
  }

  /** The completion step: when block `b`'s set is empty, its entry goes,
      and so does the block's forwarding assignment; otherwise both stay. */
  function CompleteTracker(t: Table, b: nat): Table
    requires b in t
  {
    if t[b] == {} then t - {b} else t
  }

  function CompleteAssignment<A>(t: Table, fa: map<nat, A>, b: nat): map<nat, A>
    requires b in t
  {
    if t[b] == {} then fa - {b} else fa
  }

  /** Loading adds exactly the listed roots to block `b`'s set and touches
      no other block; the entry exists afterwards when it did before or a
      root was listed. */
  lemma {:induction false} LoadContents(t: Table, b: nat, hashes: seq<TxnHash>)
    ensures Outstanding(Load(t, b, hashes), b) == Outstanding(t, b) + Ids(hashes)
    ensures b in Load(t, b, hashes) <==> b in t || |hashes| > 0
    ensures forall c :: c != b ==> (c in Load(t, b, hashes) <==> c in t)
    ensures forall c :: c != b && c in t ==> Load(t, b, hashes)[c] == t[c]
  {
    if |hashes| > 0 {
      var init := hashes[..|hashes| - 1];
      LoadContents(t, b, init);
      assert Ids(hashes) == Ids(init) + {hashes[|hashes| - 1]} by {
        forall x | x in Ids(hashes) ensures x in Ids(init) + {hashes[|hashes| - 1]} {
          var i :| 0 <= i < |hashes| && hashes[i] == x;
          if i < |init| { assert init[i] == x; }
        }
        forall x | x in Ids(init) ensures x in Ids(hashes) {
          var i :| 0 <= i < |init| && init[i] == x;
          assert hashes[i] == x;
        }
      }
    }
  }

  /** A root listed by the final block is found once, and not again: the
      second query of the same root for the same block reports absence. */
  lemma TakeLoaded(t: Table, b: nat, hashes: seq<TxnHash>, i: nat)
    requires i < |hashes|
    ensures Found(Load(t, b, hashes), b, hashes[i])
    ensures !Found(Take(Load(t, b, hashes), b, hashes[i]), b, hashes[i])
  {
    LoadContents(t, b, hashes);
    assert hashes[i] in Ids(hashes);
  }

  /** Taking a root removes exactly that root from exactly that block. */
  lemma TakeEffect(t: Table, b: nat, h: TxnHash)
    ensures Outstanding(Take(t, b, h), b) == Outstanding(t, b) - {h}
    ensures !Found(Take(t, b, h), b, h)
    ensures forall c :: c != b ==> Outstanding(Take(t, b, h), c) == Outstanding(t, c)
  {
  }

  /** The completion step drops both entries when nothing is outstanding
      for the block, and leaves both tables as they are otherwise. */
  lemma CompleteEffect<A>(t: Table, fa: map<nat, A>, b: nat)
    requires b in t
    ensures t[b] == {} <==> b !in CompleteTracker(t, b)
    ensures t[b] == {} ==> CompleteAssignment(t, fa, b) == fa - {b}
    ensures t[b] != {} ==> CompleteTracker(t, b) == t && CompleteAssignment(t, fa, b) == fa
    ensures forall c :: c != b ==> (c in CompleteTracker(t, b) <==> c in t)
  {
  }

  /** Once the last outstanding root of a block is taken, the completion
      step drops the block's entry and its forwarding assignment. */
  lemma LastTakeCompletes<A>(t: Table, fa: map<nat, A>, b: nat, h: TxnHash)
    requires Outstanding(t, b) == {h}
    ensures b in Take(t, b, h) && Take(t, b, h)[b] == {}
    ensures b !in CompleteTracker(Take(t, b, h), b)
    ensures CompleteAssignment(Take(t, b, h), fa, b) == fa - {b}
  {
    assert Outstanding(t, b) - {h} == {};
  }
}
