/** Whole runs of the ledger: reachable states, reorganisations, conservation, and asserts that never fire. */
module LedgerRuns {
  import opened Outcomes
  import opened SidechainTypes
  import opened EventIndex
  import opened M = SidechainMachine
  import opened U = SidechainUndo
  import C = SidechainConservation
  import opened L = Ledger
  import opened B = Blocks
  import opened BU = BlockUndo
  import opened BlockSheets

  // ---------- Every block keeps the invariant and is seen by each sidechain as its own ----------

  /** The part of a block that concerns one sidechain. */
  function BlockFor(b: Block, id: ScId): C.ScBlock {
    C.ScBlock(Filter(AllOps(b.txs), id), CertFor(Top(b.certs), id))
  }

  lemma BlockForValid(b: Block, id: ScId)
    requires BU.ValidBlock(b)
    ensures C.ValidBlock(BlockFor(b, id))
  {
    AllOpsValid(b.txs);
    FilterValid(AllOps(b.txs), id);
    TopDistinct(b.certs);
    CertForIn(Top(b.certs), id);
  }

  lemma {:induction false} CertForIn(certs: seq<ScCert>, id: ScId)
    ensures CertFor(certs, id).Some? ==> ScCert(id, CertFor(certs, id).value) in certs
  {
    if certs != [] {
      CertForIn(certs[..|certs| - 1], id);
    }
  }

  /** A block connected to the ledger is connected to each sidechain, and the event index stays in agreement. */
  lemma ConnectProjects(l: Ledger, b: Block, height: int, net: Net)
    requires M.ValidNet(net) && height >= 0 && LedgerInv(l, height - 1, net) && BU.ValidBlock(b)
    requires BU.Connect(l, b, height, net).Done?
    ensures var l' := BU.Connect(l, b, height, net).value.0;
      && LedgerInv(l', height, net)
      && forall id :: M.Connect(Of(l, id), BlockFor(b, id).ops, BlockFor(b, id).cert, height, net).Done?
                      && M.Connect(Of(l, id), BlockFor(b, id).ops, BlockFor(b, id).cert, height, net).value.0 ==
                        Of(l', id)
  {
    var l1 := L.ApplyOps(l, AllOps(b.txs), height, net).value;
    OpsKeepMidBlock(l, b.txs, height, net);
    TopDistinct(b.certs);
    ApplyCertsProject(l1, Top(b.certs), height, net);
    var (l2, certs) := ApplyCerts(l1, Top(b.certs), net).value;
    HandleEventsProject(l2, height, net);
    var (l3, events) := B.HandleEvents(l2, height).value;
    forall id
      ensures
        && M.Connect(Of(l, id), BlockFor(b, id).ops, BlockFor(b, id).cert, height, net).Done?
        && M.Connect(Of(l, id), BlockFor(b, id).ops, BlockFor(b, id).cert, height, net).value.0 == Of(l3, id)
        && M.Inv(Of(l3, id), height, net)
    {
      ApplyOpsProject(l, AllOps(b.txs), id, height, net);
      assert Certified(l1, l2, certs, CertFor(Top(b.certs), id), id, net);
      assert M.HandleEvents(Of(l2, id), height) == Done((Of(l3, id), EventUndoFor(events, id)));
      assert M.Inv(Of(l, id), height - 1, net);
      BlockForValid(b, id);
      M.ConnectKeepsInv(Of(l, id), BlockFor(b, id).ops, BlockFor(b, id).cert, height, net);
    }
  }

  /** The ledger after the blocks at heights 0, 1, 2, ... */
  function Replay(blocks: seq<Block>, net: Net): Outcome<Ledger> {
    if blocks == [] then Done(GENESIS)
    else
      var n := |blocks| - 1;
      var l :- Replay(blocks[..n], net);
      var (l', _) :- BU.Connect(l, blocks[n], n, net);
      Done(l')
  }

  ghost predicate ValidBlocks(blocks: seq<Block>) {
    forall b :: b in blocks ==> BU.ValidBlock(b)
  }

  function BlocksFor(blocks: seq<Block>, id: ScId): seq<C.ScBlock> {
    seq(|blocks|, i requires 0 <= i < |blocks| => BlockFor(blocks[i], id))
  }

  lemma GenesisOf(id: ScId, net: Net)
    ensures Of(GENESIS, id) == EMPTY
  {
  }

  /** In every reachable state the event index agrees with the ledger, sidechain by sidechain. */
  lemma {:induction false} Reachable(blocks: seq<Block>, net: Net)
    requires M.ValidNet(net) && ValidBlocks(blocks) && Replay(blocks, net).Done?
    ensures var l := Replay(blocks, net).value;
      LedgerInv(l, |blocks| - 1, net) && forall id :: C.Replay(BlocksFor(blocks, id), net) == Done(Of(l, id))
  {
    hide BU.Connect, BlockFor;
    if blocks == [] {
      forall id
        ensures Of(GENESIS, id) == EMPTY && C.Replay(BlocksFor(blocks, id), net) == Done(EMPTY)
      {
        GenesisOf(id, net);
      }
    } else {
      var n := |blocks| - 1;
      assert blocks[n] in blocks && forall b :: b in blocks[..n] ==> b in blocks;
      Reachable(blocks[..n], net);
      var l := Replay(blocks[..n], net).value;
      ConnectProjects(l, blocks[n], n, net);
      forall id
        ensures C.Replay(BlocksFor(blocks, id), net) == Done(Of(Replay(blocks, net).value, id))
      {
        assert BlocksFor(blocks, id)[..n] == BlocksFor(blocks[..n], id);
        assert C.Replay(BlocksFor(blocks[..n], id), net) == Done(Of(l, id));
      }
    }
  }

  /** What every sidechain holds after a run, in terms of the tallies of its operations. */
  lemma HoldingsTallied(blocks: seq<Block>, net: Net, id: ScId)
    requires M.ValidNet(net) && ValidBlocks(blocks) && Replay(blocks, net).Done?
    ensures var s := Of(Replay(blocks, net).value, id); var history := BlocksFor(blocks, id);
      && C.Holdings(s) == C.PaidIn(history) - C.Withdrawn(history) - C.FinalAmounts(C.Certs(history))
      && C.Holdings(s) >= 0 && (s.rec.Some? ==> s.rec.value.balance >= 0)
  {
    Reachable(blocks, net);
    forall b | b in BlocksFor(blocks, id)
      ensures C.ValidBlock(b)
    {
      var i :| 0 <= i < |blocks| && b == BlockFor(blocks[i], id);
      assert blocks[i] in blocks;
      BlockForValid(blocks[i], id);
    }
    C.Conservation(BlocksFor(blocks, id), net);
  }

  // ---------- Reorganisations ----------

  datatype Node = Node(ledger: Ledger, chain: seq<Block>, undos: seq<UndoData>)

  datatype Move = ConnectTip(block: Block) | DisconnectTip

  function Step(n: Node, m: Move, net: Net): Outcome<Node> {
    match m
    case ConnectTip(b) =>
      var (l, undo) :- BU.Connect(n.ledger, b, |n.chain|, net);
      Done(Node(l, n.chain + [b], n.undos + [undo]))
    case DisconnectTip =>
      if |n.chain| == 0 || |n.undos| != |n.chain| then Rejected
      else
        var top := |n.chain| - 1;
        var l :- BU.Disconnect(n.ledger, n.chain[top], n.undos[top], top, net);
        Done(Node(l, n.chain[..top], n.undos[..top]))
  }

  function Run(moves: seq<Move>, net: Net): Outcome<Node> {
    if moves == [] then Done(Node(GENESIS, [], []))
    else
      var n :- Run(moves[..|moves| - 1], net);
      Step(n, moves[|moves| - 1], net)
  }

  /** Every block connected along the way was valid and safe to undo when it was connected. */
  ghost predicate Disciplined(moves: seq<Move>, net: Net) {
    forall i :: 0 <= i < |moves| && moves[i].ConnectTip? ==>
      BU.ValidBlock(moves[i].block) &&
      (Run(moves[..i], net).Done? ==>
        UndoSafe(Run(moves[..i], net).value.ledger, moves[i].block, |Run(moves[..i], net).value.chain|))
  }

  /** The undo data at position `i` is what connecting the block there recorded, and the block was safe to undo. */
  ghost predicate Linked(chain: seq<Block>, undos: seq<UndoData>, i: nat, net: Net)
    requires i < |chain| && i < |undos|
  {
    var before := Replay(chain[..i], net);
    && before.Done? && UndoSafe(before.value, chain[i], i)
    && BU.Connect(before.value, chain[i], i, net).Done?
    && BU.Connect(before.value, chain[i], i, net).value.1 == undos[i]
  }

  lemma LinkedPrefix(chain: seq<Block>, undos: seq<UndoData>, k: nat, i: nat, net: Net)
    requires i < k <= |chain| && k <= |undos|
    ensures Linked(chain[..k], undos[..k], i, net) <==> Linked(chain, undos, i, net)
  {
    assert chain[..k][..i] == chain[..i];
  }

  /** A node whose ledger, and undo data, are those of its current chain. */
  ghost predicate Consistent(n: Node, net: Net) {
    && |n.undos| == |n.chain| && ValidBlocks(n.chain)
    && Replay(n.chain, net) == Done(n.ledger)
    && forall i :: 0 <= i < |n.chain| ==> Linked(n.chain, n.undos, i, net)
  }

  lemma ConnectConsistent(n: Node, b: Block, net: Net)
    requires M.ValidNet(net) && Consistent(n, net) && BU.ValidBlock(b) && UndoSafe(n.ledger, b, |n.chain|)
    requires Step(n, ConnectTip(b), net).Done?
    ensures Consistent(Step(n, ConnectTip(b), net).value, net)
  {
    var n' := Step(n, ConnectTip(b), net).value;
    var k := |n.chain|;
    assert n'.chain[..k] == n.chain && n'.undos[..k] == n.undos;
    forall i | 0 <= i < k
      ensures Linked(n'.chain, n'.undos, i, net)
    {
      LinkedPrefix(n'.chain, n'.undos, k, i, net);
    }
    assert Linked(n'.chain, n'.undos, k, net);
  }

  lemma DisconnectRestores(n: Node, net: Net)
    requires M.ValidNet(net) && Consistent(n, net) && |n.chain| > 0
    ensures var top := |n.chain| - 1;
      && Replay(n.chain[..top], net).Done?
      && Step(n, DisconnectTip, net) == Done(Node(Replay(n.chain[..top], net).value, n.chain[..top], n.undos[..top]))
  {
    var top := |n.chain| - 1;
    assert n.chain[top] in n.chain && forall b :: b in n.chain[..top] ==> b in n.chain;
    assert Linked(n.chain, n.undos, top, net);
    Reachable(n.chain[..top], net);
    hide BU.Connect, BU.Disconnect, L.ApplyOps, B.HandleEvents;
    BlockUndone(Replay(n.chain[..top], net).value, n.chain[top], top, net);
  }

  lemma DisconnectConsistent(n: Node, net: Net)
    requires M.ValidNet(net) && Consistent(n, net) && |n.chain| > 0
    ensures Step(n, DisconnectTip, net).Done? && Consistent(Step(n, DisconnectTip, net).value, net)
  {
    var top := |n.chain| - 1;
    DisconnectRestores(n, net);
    assert forall b :: b in n.chain[..top] ==> b in n.chain;
    forall i | 0 <= i < top
      ensures Linked(n.chain[..top], n.undos[..top], i, net)
    {
      LinkedPrefix(n.chain, n.undos, top, i, net);
    }
  }

  /**
   * After any sequence of connected and disconnected blocks, the ledger is the one obtained by
   * connecting the surviving chain from genesis, and disconnecting the tip is never refused.
   */
  lemma {:induction false} ReorganisationSafe(moves: seq<Move>, net: Net)
    requires M.ValidNet(net) && Disciplined(moves, net) && Run(moves, net).Done?
    ensures var n := Run(moves, net).value;
      && Consistent(n, net)
      && Replay(n.chain, net) == Done(n.ledger)
      && (|n.chain| > 0 ==> Step(n, DisconnectTip, net).Done?)
  {
    var n := Run(moves, net).value;
    if moves != [] {
      var k := |moves| - 1;
      DisciplinedPrefix(moves, net);
      ReorganisationSafe(moves[..k], net);
      var before := Run(moves[..k], net).value;
      if moves[k].ConnectTip? {
        ConnectConsistent(before, moves[k].block, net);
      } else {
        DisconnectConsistent(before, net);
      }
    }
    if |n.chain| > 0 {
      DisconnectConsistent(n, net);
    }
  }

  lemma DisciplinedPrefix(moves: seq<Move>, net: Net)
    requires moves != [] && Disciplined(moves, net)
    ensures Disciplined(moves[..|moves| - 1], net)
  {
    var init := moves[..|moves| - 1];
    forall i | 0 <= i < |init| && init[i].ConnectTip?
      ensures BU.ValidBlock(init[i].block) &&
        (Run(init[..i], net).Done? ==>
          UndoSafe(Run(init[..i], net).value.ledger, init[i].block, |Run(init[..i], net).value.chain|))
    {
      assert init[..i] == moves[..i] && init[i] == moves[i];
    }
  }

  // ---------- Where undo fails ----------

  function ZeroRequest(id: ScId, hash: Hash): Tx {
    Tx(hash, [], [], [], [Payment(id, 0)])
  }

  lemma ZeroRequestOps(id: ScId, hash: Hash)
    ensures Ops(ZeroRequest(id, hash)) == UndoOps(ZeroRequest(id, hash)) == [TxOp(id, Transfer(0))]
    ensures ValidTx(ZeroRequest(id, hash))
  {
  }

  /** Two fee-less backward transfer requests to the same sidechain: the block connects and cannot be disconnected. */
  lemma ZeroRequestsBreakUndo(l: Ledger, id: ScId, h1: Hash, h2: Hash, height: int, net: Net)
    requires M.ValidNet(net) && height >= 0 && LedgerInv(l, height - 1, net) && id in l.scs
    ensures var b := Block([ZeroRequest(id, h1), ZeroRequest(id, h2)], []);
      && BU.Connect(l, b, height, net).Done?
      && BU.Disconnect(BU.Connect(l, b, height, net).value.0, b, BU.Connect(l, b, height, net).value.1, height,
        net) != Done(l)
  {
    var b := Block([ZeroRequest(id, h1), ZeroRequest(id, h2)], []);
    var x := TxOp(id, Transfer(0));
    ZeroRequestsOps(id, h1, h2);
    assert [x, x][..1] == [x] && [x][..0] == [];
    assert L.ApplyOps(l, [x], height, net).Done?;
    assert L.ApplyOps(l, [x, x], height, net).Done?;
    OpsKeepMidBlock(l, b.txs, height, net);
    HandleEventsProject(L.ApplyOps(l, [x, x], height, net).value, height, net);
    BlockUndone(l, b, height, net);
  }

  lemma ZeroRequestsOps(id: ScId, h1: Hash, h2: Hash)
    ensures var txs := [ZeroRequest(id, h1), ZeroRequest(id, h2)]; var x := TxOp(id, Transfer(0));
      && AllOps(txs) == [x, x] && !LastPaymentsCount(txs)
      && forall tx :: tx in txs ==> ValidTx(tx)
  {
    var t1, t2 := ZeroRequest(id, h1), ZeroRequest(id, h2);
    var x := TxOp(id, Transfer(0));
    ZeroRequestOps(id, h1);
    ZeroRequestOps(id, h2);
    assert [t1, t2][..1] == [t1] && [t1][..0] == [];
    hide Ops, UndoOps;
    assert AllOps([]) + Ops(t1) == [x] && UndoOps(t1) + AllUndoOps([]) == [x];
    assert AllOps([t1]) == [x] && AllUndoOps([t1]) == [x];
    assert AllOps([t1, t2]) == [x, x] && AllUndoOps([t1, t2]) == [x, x];
    TwoZeroPayments(id);
  }

  lemma TwoZeroPayments(id: ScId)
    ensures var x := TxOp(id, Transfer(0)); !LastPaymentCounts(Filter([x, x], id))
  {
    var pay := Transfer(0);
    var x := TxOp(id, pay);
    assert [x, x][..1] == [x] && [x][..0] == [];
    assert Filter([x], id) == [pay] && Filter([x, x], id) == [pay, pay];
    assert [pay, pay][..1] == [pay] && [pay][..0] == [];
    assert Payments([pay]) == [0] && Payments([pay, pay]) == [0, 0];
  }

  // ---------- No assert fires ----------

  /** The balance check of CCoinsViewCache::IsScTxApplicableToState on ceased withdrawals. */
  ghost predicate CswsCovered(l: Ledger, csws: seq<Csw>) {
    forall i :: 0 <= i < |csws| ==>
      csws[i].id in l.scs && Taken(csws[..i], csws[i].id) + csws[i].value <= l.scs[csws[i].id].balance
  }

  /** Every transaction passes that check in the state it is applied to. */
  ghost predicate TxsAdmitted(l: Ledger, txs: seq<Tx>, height: int, net: Net) {
    forall i :: 0 <= i < |txs| && L.ApplyOps(l, AllOps(txs[..i]), height, net).Done? ==>
      CswsCovered(L.ApplyOps(l, AllOps(txs[..i]), height, net).value, txs[i].csws)
  }

  lemma {:induction false} CoveredWithdrawals(l: Ledger, csws: seq<Csw>, height: int, net: Net)
    requires CswsCovered(l, csws)
    ensures L.ApplyOps(l, Withdrawals(csws), height, net).Done?
    ensures TakenFrom(l, L.ApplyOps(l, Withdrawals(csws), height, net).value, csws)
  {
    if csws != [] {
      var n := |csws| - 1;
      CoveredInit(l, csws);
      CoveredWithdrawals(l, csws[..n], height, net);
      assert Withdrawals(csws)[..n] == Withdrawals(csws[..n]);
      var before := L.ApplyOps(l, Withdrawals(csws[..n]), height, net).value;
      assert csws[n].id in l.scs && Taken(csws[..n], csws[n].id) + csws[n].value <= l.scs[csws[n].id].balance;
      assert before.scs[csws[n].id].balance >= csws[n].value;
      var after := L.ApplyOp(before, csws[n].id, Withdraw(csws[n].value), height, net);
      assert after.Done? && TakenFrom(l, after.value, csws);
    }
  }

  ghost predicate TakenFrom(l: Ledger, l': Ledger, csws: seq<Csw>) {
    l'.scs.Keys == l.scs.Keys && forall id :: id in l.scs ==> l'.scs[id].balance == l.scs[id].balance - Taken(csws, id)
  }

  lemma CoveredInit(l: Ledger, csws: seq<Csw>)
    requires CswsCovered(l, csws) && csws != []
    ensures CswsCovered(l, csws[..|csws| - 1])
  {
    assert forall i :: 0 <= i < |csws| - 1 ==> csws[..|csws| - 1][..i] == csws[..i];
  }

  lemma {:induction false} OtherOpsNeverAssert(l: Ledger, a: seq<TxOp>, b: seq<TxOp>, height: int, net: Net)
    requires L.ApplyOps(l, a, height, net) != AssertFailed
    requires forall i :: 0 <= i < |b| ==> !b[i].op.Withdraw?
    ensures L.ApplyOps(l, a + b, height, net) != AssertFailed
  {
    if b == [] {
      assert a + b == a;
    } else {
      assert (a + b)[..|a + b| - 1] == a + b[..|b| - 1];
      OtherOpsNeverAssert(l, a, b[..|b| - 1], height, net);
    }
  }

  lemma TxNeverAsserts(l: Ledger, tx: Tx, height: int, net: Net)
    requires CswsCovered(l, tx.csws)
    ensures L.ApplyOps(l, Ops(tx), height, net) != AssertFailed
  {
    var rest := Creations(tx.creations, tx.hash) + Transfers(tx.transfers) + Transfers(tx.requests)
      + Nullifiers(tx.csws);
    assert Ops(tx) == Withdrawals(tx.csws) + rest;
    assert forall i :: 0 <= i < |rest| ==> !rest[i].op.Withdraw?;
    hide L.ApplyOps, Ops, Withdrawals, Creations, Transfers, Nullifiers;
    CoveredWithdrawals(l, tx.csws, height, net);
    OtherOpsNeverAssert(l, Withdrawals(tx.csws), rest, height, net);
  }

  lemma {:induction false} TxsNeverAssert(l: Ledger, txs: seq<Tx>, height: int, net: Net)
    requires TxsAdmitted(l, txs, height, net)
    ensures L.ApplyOps(l, AllOps(txs), height, net) != AssertFailed
  {
    if txs != [] {
      var n := |txs| - 1;
      AdmittedInit(l, txs, height, net);
      var before := AllOps(txs[..n]);
      assert AllOps(txs) == before + Ops(txs[n]);
      var r := L.ApplyOps(l, before, height, net);
      assert r.Done? ==> CswsCovered(r.value, txs[n].csws);
      hide L.ApplyOps, AllOps, Ops, CswsCovered;
      TxsNeverAssert(l, txs[..n], height, net);
      ApplyOpsSplit(l, before, Ops(txs[n]), height, net);
      if r.Done? {
        TxNeverAsserts(r.value, txs[n], height, net);
      }
    }
  }

  lemma AdmittedInit(l: Ledger, txs: seq<Tx>, height: int, net: Net)
    requires TxsAdmitted(l, txs, height, net) && txs != []
    ensures TxsAdmitted(l, txs[..|txs| - 1], height, net)
  {
    assert forall i :: 0 <= i < |txs| - 1 ==> txs[..|txs| - 1][..i] == txs[..i];
  }

  lemma CertNeverAsserts(l: Ledger, id: ScId, cert: Cert, height: int, net: Net)
    requires MidBlock(l, height, net)
    ensures B.ApplyCert(l, id, cert, net) != AssertFailed
  {
    assert M.MidInv(Of(l, id), height, net);
  }

  lemma {:induction false} CertsNeverAssert(l: Ledger, certs: seq<ScCert>, height: int, net: Net)
    requires M.ValidNet(net) && MidBlock(l, height, net) && Distinct(certs) && ValidCerts(certs)
    ensures ApplyCerts(l, certs, net) != AssertFailed
  {
    if certs != [] {
      var init, last := certs[..|certs| - 1], certs[|certs| - 1];
      assert certs == init + [last] && forall c :: c in init ==> c in certs;
      CertsNeverAssert(l, init, height, net);
      var r := ApplyCerts(l, init, net);
      hide B.ApplyCert, CertFor;
      if r.Done? {
        ApplyCertsProject(l, init, height, net);
        CertForAbsent(init, last.id);
        assert Certified(l, r.value.0, r.value.1, CertFor(init, last.id), last.id, net);
        CertNeverAsserts(r.value.0, last.id, last.cert, height, net);
      }
    }
  }

  /** A block of admitted transactions is connected or refused; no assert fires on the way. */
  lemma ConnectNeverAsserts(l: Ledger, b: Block, height: int, net: Net)
    requires M.ValidNet(net) && height >= 0 && LedgerInv(l, height - 1, net) && BU.ValidBlock(b)
    requires TxsAdmitted(l, b.txs, height, net)
    ensures BU.Connect(l, b, height, net) != AssertFailed
  {
    TxsNeverAssert(l, b.txs, height, net);
    var r := L.ApplyOps(l, AllOps(b.txs), height, net);
    if r.Done? {
      OpsKeepMidBlock(l, b.txs, height, net);
      TopDistinct(b.certs);
      CertsNeverAssert(r.value, Top(b.certs), height, net);
      var r' := ApplyCerts(r.value, Top(b.certs), net);
      if r'.Done? {
        ApplyCertsProject(r.value, Top(b.certs), height, net);
        HandleEventsProject(r'.value.0, height, net);
      }
    }
  }

  /**
   * A certificate that passes applicability on the view after the block's transactions, and is not
   * already recorded, is applied.
   */
  lemma ApplicableCertApplied(l: Ledger, c: ScCert, height: int, net: Net)
    requires M.ValidNet(net) && MidBlock(l, height, net) && ValidCert(c.cert)
    requires C.CertApplicable(Of(l, c.id), c.cert, height - 1) && l.scs[c.id].lastHash != c.cert.hash
    ensures B.ApplyCert(l, c.id, c.cert, net).Done?
  {
    assert M.MidInv(Of(l, c.id), height, net);
    C.ApplicableCertApplied(Of(l, c.id), c.cert, height, net);
  }
}
