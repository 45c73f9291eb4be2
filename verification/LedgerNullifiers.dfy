/** No withdrawal from a ceased sidechain is made twice: nullifiers over whole runs of blocks. */
module LedgerNullifiers {
  import opened Outcomes
  import opened SidechainTypes
  import opened M = SidechainMachine
  import opened EventIndex
  import L = Ledger
  import B = Blocks
  import opened T = BlockUndo
  import R = LedgerRuns

  /** A sidechain and a nullifier, as the ledger keeps them. */
  type Key = (ScId, nat)

  // ---------- The nullifiers of the blocks, in order ----------

  function KeysOf(csws: seq<Csw>): seq<Key> {
    seq(|csws|, i requires 0 <= i < |csws| => (csws[i].id, csws[i].nullifier))
  }

  function KeysIn(txs: seq<Tx>): seq<Key> {
    if txs == [] then [] else KeysIn(txs[..|txs| - 1]) + KeysOf(txs[|txs| - 1].csws)
  }

  function Keys(blocks: seq<Block>): seq<Key> {
    if blocks == [] then [] else Keys(blocks[..|blocks| - 1]) + KeysIn(blocks[|blocks| - 1].txs)
  }

  /** No value occurs at two places. */
  ghost predicate Different<A(!new)>(s: seq<A>) {
    forall i, j :: 0 <= i < j < |s| ==> s[i] != s[j]
  }

  /** The ledger holds what it held and the keys, none of them twice. */
  ghost predicate Taken(before: set<Key>, keys: seq<Key>, after: set<Key>) {
    && Different(keys) && (forall k :: k in keys ==> k !in before)
    && forall k :: k in after <==> k in before || k in keys
  }

  lemma {:induction false} TakenMore(a: set<Key>, s: seq<Key>, b: set<Key>, t: seq<Key>, c: set<Key>)
    requires Taken(a, s, b) && Taken(b, t, c)
    ensures Taken(a, s + t, c)
  {
    var all := s + t;
    forall i, j | 0 <= i < j < |all|
      ensures all[i] != all[j]
    {
      assert i < |s| ==> all[i] in s;
      assert j >= |s| ==> all[j] in t && all[j] == t[j - |s|];
      assert i >= |s| ==> all[i] == t[i - |s|];
    }
    assert forall k :: k in all <==> k in s || k in t;
  }

  // ---------- What the operations of a transaction use ----------

  function KeysUsed(ops: seq<L.TxOp>): seq<Key> {
    if ops == [] then []
    else
      var last := ops[|ops| - 1];
      KeysUsed(ops[..|ops| - 1]) + if last.op.UseNullifier? then [(last.id, last.op.nullifier)] else []
  }

  lemma {:induction false} UsedConcat(a: seq<L.TxOp>, b: seq<L.TxOp>)
    ensures KeysUsed(a + b) == KeysUsed(a) + KeysUsed(b)
  {
    if b == [] {
      assert a + b == a;
    } else {
      assert (a + b)[..|a + b| - 1] == a + b[..|b| - 1];
      UsedConcat(a, b[..|b| - 1]);
    }
  }

  lemma {:induction false} NoneUsed(ops: seq<L.TxOp>)
    requires forall i :: 0 <= i < |ops| ==> !ops[i].op.UseNullifier?
    ensures KeysUsed(ops) == []
  {
    if ops != [] {
      NoneUsed(ops[..|ops| - 1]);
    }
  }

  lemma {:induction false} CswsUsed(csws: seq<Csw>)
    ensures KeysUsed(Nullifiers(csws)) == KeysOf(csws)
  {
    if csws != [] {
      var init := csws[..|csws| - 1];
      CswsUsed(init);
      assert Nullifiers(csws)[..|csws| - 1] == Nullifiers(init);
      assert KeysOf(csws) == KeysOf(init) + [(csws[|csws| - 1].id, csws[|csws| - 1].nullifier)];
    }
  }

  lemma {:induction false} TxUsed(tx: Tx)
    ensures KeysUsed(Ops(tx)) == KeysOf(tx.csws)
  {
    var w, c, t, r, n := Withdrawals(tx.csws), Creations(tx.creations, tx.hash), Transfers(tx.transfers),
      Transfers(tx.requests), Nullifiers(tx.csws);
    var others := w + c + t + r;
    NoneUsed(others);
    CswsUsed(tx.csws);
    UsedConcat(others, n);
  }

  lemma {:induction false} TxsUsed(txs: seq<Tx>)
    ensures KeysUsed(AllOps(txs)) == KeysIn(txs)
  {
    if txs != [] {
      var init, last := txs[..|txs| - 1], txs[|txs| - 1];
      TxsUsed(init);
      TxUsed(last);
      UsedConcat(AllOps(init), Ops(last));
    }
  }

  // ---------- What the ledger admits ----------

  lemma {:induction false} OpTaken(l: L.Ledger, op: L.TxOp, height: int, net: Net)
    requires L.ApplyOp(l, op.id, op.op, height, net).Done?
    ensures var keys := if op.op.UseNullifier? then [(op.id, op.op.nullifier)] else [];
      Taken(l.nullifiers, keys, L.ApplyOp(l, op.id, op.op, height, net).value.nullifiers)
  {
  }

  lemma {:induction false} OpsTaken(l: L.Ledger, ops: seq<L.TxOp>, height: int, net: Net)
    requires L.ApplyOps(l, ops, height, net).Done?
    ensures Taken(l.nullifiers, KeysUsed(ops), L.ApplyOps(l, ops, height, net).value.nullifiers)
  {
    hide Taken;
    if ops == [] {
      NothingTaken(l.nullifiers);
    } else {
      var init, last := ops[..|ops| - 1], ops[|ops| - 1];
      OpsTaken(l, init, height, net);
      var l1 := L.ApplyOps(l, init, height, net).value;
      OpTaken(l1, last, height, net);
      var keys := if last.op.UseNullifier? then [(last.id, last.op.nullifier)] else [];
      hide L.ApplyOp;
      TakenMore(l.nullifiers, KeysUsed(init), l1.nullifiers, keys, L.ApplyOps(l, ops, height, net).value.nullifiers);
    }
  }

  lemma {:induction false} NothingTaken(before: set<Key>)
    ensures Taken(before, [], before)
  {
  }

  lemma {:induction false} CertsTakeNone(l: L.Ledger, certs: seq<B.ScCert>, net: Net)
    requires B.ApplyCerts(l, certs, net).Done?
    ensures B.ApplyCerts(l, certs, net).value.0.nullifiers == l.nullifiers
  {
    if certs != [] {
      CertsTakeNone(l, certs[..|certs| - 1], net);
    }
  }

  lemma {:induction false} BlockTaken(l: L.Ledger, b: Block, height: int, net: Net)
    requires T.Connect(l, b, height, net).Done?
    ensures Taken(l.nullifiers, KeysIn(b.txs), T.Connect(l, b, height, net).value.0.nullifiers)
  {
    hide Taken, KeysUsed, AllOps, L.ApplyOps, B.ApplyCerts;
    OpsTaken(l, AllOps(b.txs), height, net);
    TxsUsed(b.txs);
    CertsTakeNone(L.ApplyOps(l, AllOps(b.txs), height, net).value, B.Top(b.certs), net);
  }

  lemma {:induction false} RunTaken(blocks: seq<Block>, net: Net)
    requires R.Replay(blocks, net).Done?
    ensures Taken({}, Keys(blocks), R.Replay(blocks, net).value.nullifiers)
  {
    hide Taken, T.Connect, KeysIn;
    if blocks == [] {
      NothingTaken({});
    } else {
      var n := |blocks| - 1;
      RunTaken(blocks[..n], net);
      var l := R.Replay(blocks[..n], net).value;
      BlockTaken(l, blocks[n], n, net);
      TakenMore({}, Keys(blocks[..n]), l.nullifiers, KeysIn(blocks[n].txs),
        R.Replay(blocks, net).value.nullifiers);
    }
  }

  /**
   * Over any run of blocks no two withdrawals from a sidechain have the same nullifier, and the
   * ledger holds exactly the nullifiers of the withdrawals made.
   */
  lemma {:induction false} WithdrawnOnce(blocks: seq<Block>, net: Net)
    requires R.Replay(blocks, net).Done?
    ensures Different(Keys(blocks))
    ensures forall k :: k in R.Replay(blocks, net).value.nullifiers <==> k in Keys(blocks)
  {
    RunTaken(blocks, net);
  }
}
