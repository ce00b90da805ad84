/** The transaction-pool reconciliation of one block number, on values.

    A node keeps, per block number, the transactions it submitted itself
    and those it received from peers (both keyed by transaction id), and
    the ordered list of committed transactions. When its shard's
    micro-block is confirmed by a final block, every transaction id of the
    micro-block is moved, in order, from the submitted pool or, failing
    that, from the received pool onto the end of the committed list; an id
    found in neither pool is skipped. `CommitAll` is that fold;
    `FinalBlockProcessing.Node.CommitMyShardsMicroBlock` is proved to
    compute it, and the lemmas here say what it means. */
module Pools {
  import opened Types

  type TxnPool = map<TxnHash, Transaction>

  /** The pools of one block number while the micro-block is reconciled,
      with the list of bodies collected for sending to other committees. */
  datatype Reconciliation = Reconciliation(
    submitted: TxnPool,
    received: TxnPool,
    committed: seq<Transaction>,
    toSend: seq<Transaction>)

  /** Moves the transaction with id `h` from the submitted pool or, failing
      that, from the received pool onto the committed list, and onto the
      send list when `sends`; leaves everything as it is when neither pool
      holds `h`. */
  function MoveOne(st: Reconciliation, h: TxnHash, sends: bool): Reconciliation
  {
    if h in st.submitted then
      var tx := st.submitted[h];
      Reconciliation(st.submitted - {h}, st.received, st.committed + [tx],
                     if sends then st.toSend + [tx] else st.toSend)
    else if h in st.received then
      var tx := st.received[h];
      Reconciliation(st.submitted, st.received - {h}, st.committed + [tx],
                     if sends then st.toSend + [tx] else st.toSend)
    else
      st
  }

  /** The reconciliation of the ids `hashes`, taken in order. */
  function CommitAll(hashes: seq<TxnHash>, st: Reconciliation, sends: bool): Reconciliation
    decreases |hashes|
  {
    if |hashes| == 0 then st
    else MoveOne(CommitAll(hashes[..|hashes| - 1], st, sends), hashes[|hashes| - 1], sends)
  }

  /** Reference definition: the transactions that `hashes` name, in the
      order of `hashes`, each looked up in `sub` first and in `rec`
      second; ids in neither are dropped. */
  function Lookup(hashes: seq<TxnHash>, sub: TxnPool, rec: TxnPool): seq<Transaction>
    decreases |hashes|
  {
    if |hashes| == 0 then []
    else
      var h := hashes[|hashes| - 1];
      Lookup(hashes[..|hashes| - 1], sub, rec)
        + (if h in sub then [sub[h]] else if h in rec then [rec[h]] else [])
  }

  /** No id occurs twice. */
  predicate Distinct(hashes: seq<TxnHash>)
  {
    forall i, j :: 0 <= i < j < |hashes| ==> hashes[i] != hashes[j]
  }

  /** Whatever the ids, reconciliation only appends to the committed list,
      appends the same transactions to the send list exactly when the mode
      sends bodies, appends at most one transaction per id, and every
      transaction it appends came out of one of the two pools. The pools
      only lose entries. */
  lemma {:induction false} CommitAllAppends(hashes: seq<TxnHash>, st: Reconciliation, sends: bool)
    ensures var r := CommitAll(hashes, st, sends);
      && |st.committed| <= |r.committed| <= |st.committed| + |hashes|
      && r.committed[..|st.committed|] == st.committed
      && r.toSend == st.toSend + (if sends then r.committed[|st.committed|..] else [])
      && (forall k :: k in r.submitted ==> k in st.submitted && r.submitted[k] == st.submitted[k])
      && (forall k :: k in r.received ==> k in st.received && r.received[k] == st.received[k])
      && (forall t :: t in r.committed[|st.committed|..] ==>
            t in st.submitted.Values || t in st.received.Values)
  {
    if |hashes| > 0 {
      var p := hashes[..|hashes| - 1];
      var h := hashes[|hashes| - 1];
      CommitAllAppends(p, st, sends);
      var q := CommitAll(p, st, sends);
      var r := MoveOne(q, h, sends);
      var n := |st.committed|;
      if h in q.submitted || h in q.received {
        var tx := if h in q.submitted then q.submitted[h] else q.received[h];
        assert r.committed == q.committed + [tx];
        assert r.committed[n..] == q.committed[n..] + [tx];
        assert r.committed[..n] == q.committed[..n];
        assert tx in st.submitted.Values || tx in st.received.Values;
        forall t | t in r.committed[n..]
          ensures t in st.submitted.Values || t in st.received.Values
        {
          if t != tx {
            assert t in q.committed[n..];
          }
        }
      }
    }
  }

  /** For a micro-block whose ids are distinct (which it is, ids being
      digests of distinct transactions), the committed list grows by
      exactly the transactions the ids name, in micro-block order, found in
      the submitted pool before the received pool; the send list grows by
      the same transactions when the mode sends bodies; and the pools lose
      exactly the entries that were moved. */
  lemma {:induction false} CommitAllIsLookup(
    hashes: seq<TxnHash>, sub: TxnPool, rec: TxnPool,
    committed: seq<Transaction>, toSend: seq<Transaction>, sends: bool)
    requires Distinct(hashes)
    ensures var r := CommitAll(hashes, Reconciliation(sub, rec, committed, toSend), sends);
      && r.committed == committed + Lookup(hashes, sub, rec)
      && r.toSend == toSend + (if sends then Lookup(hashes, sub, rec) else [])
      && r.submitted == sub - Ids(hashes)
      && r.received == rec - (Ids(hashes) - sub.Keys)
  {
    if |hashes| > 0 {
      var p := hashes[..|hashes| - 1];
      DistinctInit(hashes);
      CommitAllIsLookup(p, sub, rec, committed, toSend, sends);
      LookupStep(hashes, sub, rec, committed, toSend, sends,
                 CommitAll(p, Reconciliation(sub, rec, committed, toSend), sends));
    }
  }

  /** Dropping the last id of a distinct list leaves a distinct list
      without that id, whose ids are the others. */
  lemma DistinctInit(hashes: seq<TxnHash>)
    requires Distinct(hashes) && |hashes| > 0
    ensures var p, h := hashes[..|hashes| - 1], hashes[|hashes| - 1];
      Distinct(p) && h !in Ids(p) && Ids(hashes) == Ids(p) + {h}
  {
    var p, h := hashes[..|hashes| - 1], hashes[|hashes| - 1];
    forall i, j | 0 <= i < j < |p| ensures p[i] != p[j] {
      assert p[i] == hashes[i] && p[j] == hashes[j];
    }
    forall i | 0 <= i < |p| ensures p[i] != h {
      assert p[i] == hashes[i];
    }
    forall x | x in Ids(hashes) ensures x in Ids(p) + {h} {
      var i :| 0 <= i < |hashes| && hashes[i] == x;
      if i < |p| { assert p[i] == x; }
    }
    forall x | x in Ids(p) + {h} ensures x in Ids(hashes) {
      if x != h {
        var i :| 0 <= i < |p| && p[i] == x;
        assert hashes[i] == x;
      } else {
        assert hashes[|hashes| - 1] == x;
      }
    }
  }

  /** One step of `CommitAllIsLookup`: when the reconciliation `q` of all
      ids but the last is described by `Lookup`, so is the one that also
      moves the last id, provided that id was not among the others. */
  lemma LookupStep(hashes: seq<TxnHash>, sub: TxnPool, rec: TxnPool,
                   committed: seq<Transaction>, toSend: seq<Transaction>, sends: bool, q: Reconciliation)
    requires |hashes| > 0
    requires var p, h := hashes[..|hashes| - 1], hashes[|hashes| - 1];
      && h !in Ids(p) && Ids(hashes) == Ids(p) + {h}
      && q.committed == committed + Lookup(p, sub, rec)
      && q.toSend == toSend + (if sends then Lookup(p, sub, rec) else [])
      && q.submitted == sub - Ids(p)
      && q.received == rec - (Ids(p) - sub.Keys)
    ensures var r := MoveOne(q, hashes[|hashes| - 1], sends);
      && r.committed == committed + Lookup(hashes, sub, rec)
      && r.toSend == toSend + (if sends then Lookup(hashes, sub, rec) else [])
      && r.submitted == sub - Ids(hashes)
      && r.received == rec - (Ids(hashes) - sub.Keys)
  {
    var p, h := hashes[..|hashes| - 1], hashes[|hashes| - 1];
    assert h in q.submitted <==> h in sub;
    assert h in q.submitted ==> q.submitted[h] == sub[h];
    assert h !in sub ==> (h in q.received <==> h in rec);
    assert h !in sub && h in rec ==> q.received[h] == rec[h];
  }

  // ---------------------------------------------------------------------
  // The per-block maps the node keeps.

  /** The pool kept for block `b`; an absent entry reads as empty, as the
      source's `operator[]` creates it on first use. */
  function PoolAt(m: map<nat, TxnPool>, b: nat): TxnPool
  {
    if b in m then m[b] else map[]
  }

  /** The committed list kept for block `b`, empty when there is none. */
  function EntryAt(m: map<nat, seq<Transaction>>, b: nat): seq<Transaction>
  {
    if b in m then m[b] else []
  }

  /** The reconciliation of block `b` before its first id is looked at. */
  function Start(sub: map<nat, TxnPool>, rec: map<nat, TxnPool>, com: map<nat, seq<Transaction>>, b: nat)
    : Reconciliation
  {
    Reconciliation(PoolAt(sub, b), PoolAt(rec, b), EntryAt(com, b), [])
  }

  /** The committed map once block `b`'s ids are reconciled into `r`: the
      entry is only created when there was at least one id to look up. */
  function CommittedAfter(com: map<nat, seq<Transaction>>, b: nat, hashes: seq<TxnHash>, r: Reconciliation)
    : map<nat, seq<Transaction>>
  {
    if |hashes| == 0 then com else com[b := r.committed]
  }

  /** The committed map once `txns` are appended to block `b`'s list, one
      by one (the entry is only created when there is something to append). */
  function AppendAt(com: map<nat, seq<Transaction>>, b: nat, txns: seq<Transaction>): map<nat, seq<Transaction>>
  {
    if |txns| == 0 then com else com[b := EntryAt(com, b) + txns]
  }

  /** Block `b`'s pool in `m` with `h` taken out (the entry is created
      when absent). */
  function TakeFrom(m: map<nat, TxnPool>, b: nat, h: TxnHash): map<nat, TxnPool>
  {
    m[b := PoolAt(m, b) - {h}]
  }

  /** Block `b`'s committed list with `pool`'s transaction `h` appended
      when the pool holds it (the entry is created when absent). */
  function CommitTo(com: map<nat, seq<Transaction>>, b: nat, h: TxnHash, pool: TxnPool): map<nat, seq<Transaction>>
  {
    com[b := EntryAt(com, b) + (if h in pool then [pool[h]] else [])]
  }

  /** The send list with `pool`'s transaction `h` appended when the pool
      holds it and the mode sends bodies. */
  function SendTo(toSend: seq<Transaction>, h: TxnHash, pool: TxnPool, sends: bool): seq<Transaction>
  {
    toSend + (if sends && h in pool then [pool[h]] else [])
  }

  /** The node's maps `sub`, `rec`, `com` and send list `toSend` hold the
      reconciliation `r` of block `b`, started from `sub0`, `rec0`, `com0`:
      the block's pools and list are those of `r`, the committed entry
      exists once an id has been looked up (`touched`), and no other block
      is touched. */
  ghost predicate Tracks(sub: map<nat, TxnPool>, rec: map<nat, TxnPool>, com: map<nat, seq<Transaction>>,
                         toSend: seq<Transaction>, sub0: map<nat, TxnPool>, rec0: map<nat, TxnPool>,
                         com0: map<nat, seq<Transaction>>, b: nat, touched: bool, r: Reconciliation)
  {
    && PoolAt(sub, b) == r.submitted && sub - {b} == sub0 - {b}
    && PoolAt(rec, b) == r.received && rec - {b} == rec0 - {b}
    && EntryAt(com, b) == r.committed && com - {b} == com0 - {b}
    && (b in com <==> b in com0 || touched)
    && toSend == r.toSend
  }

  lemma MinusUpdate<V>(m: map<nat, V>, b: nat, v: V)
    ensures m[b := v] - {b} == m - {b}
  {
  }

  /** The reconciliation after `hashes + [h]` is `MoveOne` of the one
      after `hashes`. */
  lemma CommitAllNext(hashes: seq<TxnHash>, h: TxnHash, st0: Reconciliation, sends: bool)
    ensures CommitAll(hashes + [h], st0, sends) == MoveOne(CommitAll(hashes, st0, sends), h, sends)
  {
    assert (hashes + [h])[..|hashes|] == hashes;
  }

  /** Finding `h` in the submitted pool is the `MoveOne` step. */
  lemma TracksFromSubmitted(sub: map<nat, TxnPool>, rec: map<nat, TxnPool>, com: map<nat, seq<Transaction>>,
                            toSend: seq<Transaction>, sub0: map<nat, TxnPool>, rec0: map<nat, TxnPool>,
                            com0: map<nat, seq<Transaction>>, b: nat, touched: bool, r: Reconciliation,
                            h: TxnHash, sends: bool)
    requires Tracks(sub, rec, com, toSend, sub0, rec0, com0, b, touched, r)
    requires h in PoolAt(sub, b)
    ensures Tracks(TakeFrom(sub, b, h), rec, CommitTo(com, b, h, PoolAt(sub, b)),
                   SendTo(toSend, h, PoolAt(sub, b), sends), sub0, rec0, com0, b, true, MoveOne(r, h, sends))
  {
    MinusUpdate(sub, b, PoolAt(sub, b) - {h});
    MinusUpdate(com, b, EntryAt(com, b) + [PoolAt(sub, b)[h]]);
  }

  /** Not finding `h` in the submitted pool and then looking it up in the
      received pool is the `MoveOne` step. */
  lemma TracksFromReceived(sub: map<nat, TxnPool>, rec: map<nat, TxnPool>, com: map<nat, seq<Transaction>>,
                           toSend: seq<Transaction>, sub0: map<nat, TxnPool>, rec0: map<nat, TxnPool>,
                           com0: map<nat, seq<Transaction>>, b: nat, touched: bool, r: Reconciliation,
                           h: TxnHash, sends: bool)
    requires Tracks(sub, rec, com, toSend, sub0, rec0, com0, b, touched, r)
    requires h !in PoolAt(sub, b)
    ensures var com1 := CommitTo(com, b, h, PoolAt(sub, b));
      Tracks(TakeFrom(sub, b, h), TakeFrom(rec, b, h), CommitTo(com1, b, h, PoolAt(rec, b)),
             SendTo(toSend, h, PoolAt(rec, b), sends), sub0, rec0, com0, b, true, MoveOne(r, h, sends))
  {
    var com1 := CommitTo(com, b, h, PoolAt(sub, b));
    var rpool := PoolAt(rec, b);
    assert EntryAt(com1, b) == EntryAt(com, b);
    assert PoolAt(sub, b) - {h} == PoolAt(sub, b);
    MinusUpdate(sub, b, PoolAt(sub, b));
    MinusUpdate(rec, b, rpool - {h});
    MinusUpdate(com, b, EntryAt(com, b) + []);
    MinusUpdate(com1, b, EntryAt(com1, b) + (if h in rpool then [rpool[h]] else []));
    if h !in rpool {
      assert rpool - {h} == rpool;
    }
  }

  /** The committed map of a finished reconciliation. */
  lemma TracksCommitted(sub: map<nat, TxnPool>, rec: map<nat, TxnPool>, com: map<nat, seq<Transaction>>,
                        toSend: seq<Transaction>, sub0: map<nat, TxnPool>, rec0: map<nat, TxnPool>,
                        com0: map<nat, seq<Transaction>>, b: nat, hashes: seq<TxnHash>, sends: bool)
    requires Tracks(sub, rec, com, toSend, sub0, rec0, com0, b, |hashes| > 0,
                    CommitAll(hashes, Start(sub0, rec0, com0, b), sends))
    ensures com == CommittedAfter(com0, b, hashes, CommitAll(hashes, Start(sub0, rec0, com0, b), sends))
  {
    var want := CommittedAfter(com0, b, hashes, CommitAll(hashes, Start(sub0, rec0, com0, b), sends));
    forall k ensures (k in com <==> k in want) && (k in com ==> com[k] == want[k]) {
      if k != b {
        assert (k in com <==> k in com - {b}) && (k in com0 <==> k in com0 - {b});
        if k in com { assert com[k] == (com - {b})[k] == (com0 - {b})[k]; }
      }
    }
  }
}
