/**
 * Disconnecting a block is the inverse of connecting it, exactly under a condition that can be
 * read off the block and the ledger before connecting.
 */
module BlockUndo {
  import opened Outcomes
  import opened SidechainTypes
  import opened EventIndex
  import opened M = SidechainMachine
  import opened U = SidechainUndo
  import opened L = Ledger
  import opened B = Blocks

  // ---------- Transactions as lists of operations ----------

  datatype Csw = Csw(id: ScId, value: int, nullifier: nat)
  datatype Creation = Creation(id: ScId, value: int, fixed: FixedParams, ftFee: int, mbtrFee: int)
  datatype Payment = Payment(id: ScId, value: int)

  datatype Tx = Tx(
    hash: Hash, csws: seq<Csw>, creations: seq<Creation>, transfers: seq<Payment>, requests: seq<Payment>)

  datatype Block = Block(txs: seq<Tx>, certs: seq<ScCert>)

  function Withdrawals(csws: seq<Csw>): seq<TxOp> {
    seq(|csws|, i requires 0 <= i < |csws| => TxOp(csws[i].id, Withdraw(csws[i].value)))
  }

  function Nullifiers(csws: seq<Csw>): seq<TxOp> {
    seq(|csws|, i requires 0 <= i < |csws| => TxOp(csws[i].id, UseNullifier(csws[i].nullifier)))
  }

  function Creations(creations: seq<Creation>, tx: Hash): seq<TxOp> {
    seq(|creations|, i requires 0 <= i < |creations| =>
      var c := creations[i]; TxOp(c.id, Create(c.value, tx, c.fixed, c.ftFee, c.mbtrFee)))
  }

  function Transfers(payments: seq<Payment>): seq<TxOp> {
    seq(|payments|, i requires 0 <= i < |payments| => TxOp(payments[i].id, Transfer(payments[i].value)))
  }

  /** UpdateSidechain(tx), followed by the nullifiers of its withdrawals. */
  function Ops(tx: Tx): seq<TxOp> {
    Withdrawals(tx.csws) + Creations(tx.creations, tx.hash) + Transfers(tx.transfers) + Transfers(tx.requests)
      + Nullifiers(tx.csws)
  }

  /** The same steps in the order DisconnectBlock and RevertTxOutputs take them. */
  function UndoOps(tx: Tx): seq<TxOp> {
    Nullifiers(tx.csws) + Transfers(tx.requests) + Transfers(tx.transfers) + Creations(tx.creations, tx.hash)
      + Withdrawals(tx.csws)
  }

  function AllOps(txs: seq<Tx>): seq<TxOp> {
    if txs == [] then [] else AllOps(txs[..|txs| - 1]) + Ops(txs[|txs| - 1])
  }

  /** Transactions are undone last first. */
  function AllUndoOps(txs: seq<Tx>): seq<TxOp> {
    if txs == [] then [] else UndoOps(txs[|txs| - 1]) + AllUndoOps(txs[..|txs| - 1])
  }

  ghost predicate ValidTxOps(ops: seq<TxOp>) {
    forall x :: x in ops ==> ValidOp(x.op)
  }

  /** Amount ranges of Sidechain::checkTxSemanticValidity; only backward transfer requests may pay nothing. */
  ghost predicate ValidTx(tx: Tx) {
    && (forall c :: c in tx.csws ==> c.value >= 0)
    && (forall c :: c in tx.creations ==> c.value > 0 && c.fixed.epochLength > 0)
    && (forall p :: p in tx.transfers ==> p.value > 0)
    && (forall p :: p in tx.requests ==> p.value >= 0)
  }

  ghost predicate ValidBlock(b: Block) {
    (forall tx :: tx in b.txs ==> ValidTx(tx)) && ValidCerts(b.certs)
  }

  lemma OpsValid(tx: Tx)
    requires ValidTx(tx)
    ensures ValidTxOps(Ops(tx)) && ValidTxOps(UndoOps(tx))
  {
    assert ValidTxOps(Withdrawals(tx.csws)) && ValidTxOps(Nullifiers(tx.csws));
    assert ValidTxOps(Creations(tx.creations, tx.hash)) && ValidTxOps(Transfers(tx.transfers))
      && ValidTxOps(Transfers(tx.requests));
  }

  lemma {:induction false} AllOpsValid(txs: seq<Tx>)
    requires forall tx :: tx in txs ==> ValidTx(tx)
    ensures ValidTxOps(AllOps(txs)) && ValidTxOps(AllUndoOps(txs))
  {
    if txs != [] {
      var init, last := txs[..|txs| - 1], txs[|txs| - 1];
      assert last in txs && forall tx :: tx in init ==> tx in txs;
      AllOpsValid(init);
      OpsValid(last);
    }
  }

  lemma {:induction false} FilterValid(ops: seq<TxOp>, id: ScId)
    requires ValidTxOps(ops)
    ensures ValidOps(Filter(ops, id))
  {
    if ops != [] {
      var init, last := ops[..|ops| - 1], ops[|ops| - 1];
      assert last in ops && forall x :: x in init ==> x in ops;
      FilterValid(init, id);
    }
  }

  // ---------- One transaction seen by one sidechain ----------

  /** The five lists of a transaction, restricted to one sidechain. */
  datatype Parts = Parts(w: seq<ScOp>, c: seq<ScOp>, t: seq<ScOp>, r: seq<ScOp>, n: seq<ScOp>)

  function PartsOf(tx: Tx, id: ScId): Parts {
    Parts(Filter(Withdrawals(tx.csws), id), Filter(Creations(tx.creations, tx.hash), id),
          Filter(Transfers(tx.transfers), id), Filter(Transfers(tx.requests), id), Filter(Nullifiers(tx.csws), id))
  }

  lemma FilterParts(tx: Tx, id: ScId)
    ensures var p := PartsOf(tx, id);
      Filter(Ops(tx), id) == p.w + p.c + p.t + p.r + p.n && Filter(UndoOps(tx), id) == p.n + p.r + p.t + p.c + p.w
  {
    var w, c, t, r, n := Withdrawals(tx.csws), Creations(tx.creations, tx.hash), Transfers(tx.transfers),
      Transfers(tx.requests), Nullifiers(tx.csws);
    FilterConcat(w, c, id);
    FilterConcat(w + c, t, id);
    FilterConcat(w + c + t, r, id);
    FilterConcat(w + c + t + r, n, id);
    FilterConcat(n, r, id);
    FilterConcat(n + r, t, id);
    FilterConcat(n + r + t, c, id);
    FilterConcat(n + r + t + c, w, id);
  }

  datatype Kind = Creating | Paying | Withdrawing | Nullifying

  function KindOf(op: ScOp): Kind {
    match op
    case Create(_, _, _, _, _) => Creating
    case Transfer(_) => Paying
    case Withdraw(_) => Withdrawing
    case UseNullifier(_) => Nullifying
  }

  ghost predicate AllAre(ops: seq<ScOp>, kind: Kind) {
    forall i :: 0 <= i < |ops| ==> KindOf(ops[i]) == kind
  }

  ghost predicate IsParts(p: Parts) {
    && AllAre(p.w, Withdrawing) && AllAre(p.c, Creating) && AllAre(p.t, Paying) && AllAre(p.r, Paying)
    && AllAre(p.n, Nullifying)
    && |p.w| == |p.n|
  }

  lemma {:induction false} FilterKeeps(ops: seq<TxOp>, id: ScId, kind: Kind)
    requires forall i :: 0 <= i < |ops| ==> KindOf(ops[i].op) == kind
    ensures AllAre(Filter(ops, id), kind)
  {
    if ops != [] {
      FilterKeeps(ops[..|ops| - 1], id, kind);
      FilterLast(ops, id);
      assert KindOf(ops[|ops| - 1].op) == kind;
    }
  }

  lemma {:induction false} FilterLengths(csws: seq<Csw>, id: ScId)
    ensures |Filter(Withdrawals(csws), id)| == |Filter(Nullifiers(csws), id)|
  {
    if csws != [] {
      var init := csws[..|csws| - 1];
      assert Withdrawals(csws)[..|csws| - 1] == Withdrawals(init);
      assert Nullifiers(csws)[..|csws| - 1] == Nullifiers(init);
      FilterLengths(init, id);
    }
  }

  lemma PartsAre(tx: Tx, id: ScId)
    ensures IsParts(PartsOf(tx, id))
  {
    FilterKeeps(Withdrawals(tx.csws), id, Withdrawing);
    FilterKeeps(Creations(tx.creations, tx.hash), id, Creating);
    FilterKeeps(Transfers(tx.transfers), id, Paying);
    FilterKeeps(Transfers(tx.requests), id, Paying);
    FilterKeeps(Nullifiers(tx.csws), id, Nullifying);
    FilterLengths(tx.csws, id);
  }

  ghost predicate CreatesNothing(ops: seq<ScOp>) {
    forall i :: 0 <= i < |ops| ==> !ops[i].Create?
  }

  lemma {:induction false} NoCreations(ops: seq<ScOp>)
    requires CreatesNothing(ops)
    ensures TallyOf(ops).created == []
  {
    if ops != [] {
      NoCreations(ops[..|ops| - 1]);
    }
  }

  lemma TallyFive(a: seq<ScOp>, b: seq<ScOp>, c: seq<ScOp>, d: seq<ScOp>, e: seq<ScOp>)
    ensures TallyOf(a + b + c + d + e) ==
      Plus(Plus(Plus(Plus(TallyOf(a), TallyOf(b)), TallyOf(c)), TallyOf(d)), TallyOf(e))
  {
    TallyConcat(a, b);
    TallyConcat(a + b, c);
    TallyConcat(a + b + c, d);
    TallyConcat(a + b + c + d, e);
  }

  lemma FiveReversed(w: Tally, c: Tally, t: Tally, r: Tally, n: Tally)
    requires w.created == t.created == r.created == n.created == []
    ensures Plus(Plus(Plus(Plus(n, r), t), c), w) == Plus(Plus(Plus(Plus(w, c), t), r), n)
  {
    assert w.nullifiers + c.nullifiers + t.nullifiers + r.nullifiers + n.nullifiers ==
      n.nullifiers + r.nullifiers + t.nullifiers + c.nullifiers + w.nullifiers;
    assert [] + c.created + [] + [] + [] == [] + [] + [] + c.created + [];
  }

  lemma SameParts(p: Parts)
    requires IsParts(p)
    ensures TallyOf(p.n + p.r + p.t + p.c + p.w) == TallyOf(p.w + p.c + p.t + p.r + p.n)
  {
    TallyFive(p.w, p.c, p.t, p.r, p.n);
    TallyFive(p.n, p.r, p.t, p.c, p.w);
    NoCreations(p.w);
    NoCreations(p.t);
    NoCreations(p.r);
    NoCreations(p.n);
    FiveReversed(TallyOf(p.w), TallyOf(p.c), TallyOf(p.t), TallyOf(p.r), TallyOf(p.n));
  }

  // ---------- All transactions of a block ----------

  /** Accepted operations start with the creation if there is one, and leave a record behind. */
  lemma {:induction false} CreateOnlyFirst(s: ScState, ops: seq<ScOp>, height: int, net: Net)
    requires M.ApplyOps(s, ops, height, net).Done? && ops != [] && !ops[0].UseNullifier?
    ensures M.ApplyOps(s, ops, height, net).value.rec.Some?
    ensures forall i :: 0 < i < |ops| ==> !ops[i].Create?
  {
    if |ops| > 1 {
      CreateOnlyFirst(s, ops[..|ops| - 1], height, net);
    }
  }

  lemma {:induction false} NoLeadingNullifier(txs: seq<Tx>, id: ScId)
    ensures var f := Filter(AllOps(txs), id); f != [] ==> !f[0].UseNullifier?
  {
    if txs != [] {
      var init, last := txs[..|txs| - 1], txs[|txs| - 1];
      NoLeadingNullifier(init, id);
      FilterConcat(AllOps(init), Ops(last), id);
      FilterParts(last, id);
      PartsAre(last, id);
      LeadingPart(Filter(AllOps(init), id), PartsOf(last, id));
    }
  }

  lemma LeadingPart(f: seq<ScOp>, p: Parts)
    requires IsParts(p) && (f != [] ==> !f[0].UseNullifier?)
    ensures var all := f + (p.w + p.c + p.t + p.r + p.n); all != [] ==> !all[0].UseNullifier?
  {
    var ops := p.w + p.c + p.t + p.r;
    if ops == [] {
      assert p.w == [] && p.n == [];
    } else {
      assert (ops + p.n)[0] == ops[0];
    }
  }

  /** Undo covers the same operations, and undoes a creation last. */
  lemma {:induction false} UndoCovers(s: ScState, txs: seq<Tx>, id: ScId, height: int, net: Net)
    requires M.ApplyOps(s, Filter(AllOps(txs), id), height, net).Done?
    ensures var f, u := Filter(AllOps(txs), id), Filter(AllUndoOps(txs), id);
      TallyOf(u) == TallyOf(f) && CreationLast(u) && |u| == |f|
  {
    if txs != [] {
      var init, last := txs[..|txs| - 1], txs[|txs| - 1];
      var p := PartsOf(last, id);
      var f, u := Filter(AllOps(init), id), Filter(AllUndoOps(init), id);
      FilterConcat(AllOps(init), Ops(last), id);
      FilterConcat(UndoOps(last), AllUndoOps(init), id);
      FilterParts(last, id);
      PartsAre(last, id);
      ApplyPrefix(s, f, p.w + p.c + p.t + p.r + p.n, height, net);
      UndoCovers(s, init, id, height, net);
      NoLeadingNullifier(txs, id);
      UndoCoversStep(s, f, u, p, height, net);
    }
  }

  lemma {:induction false} ApplyPrefix(s: ScState, a: seq<ScOp>, b: seq<ScOp>, height: int, net: Net)
    requires M.ApplyOps(s, a + b, height, net).Done?
    ensures M.ApplyOps(s, a, height, net).Done?
  {
    if b == [] {
      assert a + b == a;
    } else {
      assert (a + b)[..|a + b| - 1] == a + b[..|b| - 1];
      ApplyPrefix(s, a, b[..|b| - 1], height, net);
    }
  }

  lemma PlusCommutes(a: Tally, b: Tally)
    requires a.created == [] || b.created == []
    ensures Plus(a, b) == Plus(b, a)
  {
    assert a.nullifiers + b.nullifiers == b.nullifiers + a.nullifiers;
  }

  /** A creation in an accepted list comes before everything else of its sidechain. */
  lemma CreationPosition(s: ScState, f: seq<ScOp>, p: Parts, height: int, net: Net)
    requires var all := f + (p.w + p.c + p.t + p.r + p.n);
      && M.ApplyOps(s, all, height, net).Done? && IsParts(p)
      && (all != [] ==> !all[0].UseNullifier?)
    ensures p.c != [] ==> f == [] && p.w == [] && p.n == [] && |p.c| == 1
  {
    if p.c != [] {
      var all := f + (p.w + p.c + p.t + p.r + p.n);
      assert all[|f| + |p.w|] == p.c[0];
      assert |p.c| > 1 ==> all[|f| + |p.w| + 1] == p.c[1];
      CreateOnlyFirst(s, all, height, net);
    }
  }

  lemma UndoCoversStep(s: ScState, f: seq<ScOp>, u: seq<ScOp>, p: Parts, height: int, net: Net)
    requires var all := f + (p.w + p.c + p.t + p.r + p.n);
      && M.ApplyOps(s, all, height, net).Done? && IsParts(p)
      && (all != [] ==> !all[0].UseNullifier?)
    requires TallyOf(u) == TallyOf(f) && CreationLast(u) && |u| == |f|
    ensures var all, undo := f + (p.w + p.c + p.t + p.r + p.n), (p.n + p.r + p.t + p.c + p.w) + u;
      TallyOf(undo) == TallyOf(all) && CreationLast(undo) && |undo| == |all|
  {
    var ops, undo := p.w + p.c + p.t + p.r + p.n, p.n + p.r + p.t + p.c + p.w;
    CreationPosition(s, f, p, height, net);
    SameParts(p);
    if p.c == [] {
      PartsWithoutCreation(p);
      UndoAppends(f, u, ops, undo);
    } else {
      assert f == [] && u == [];
      PartsWithCreation(p);
      assert undo + u == undo && f + ops == ops;
    }
  }

  /** Undoing a transaction that creates nothing first, and then the ones before it. */
  lemma UndoAppends(f: seq<ScOp>, u: seq<ScOp>, ops: seq<ScOp>, undo: seq<ScOp>)
    requires TallyOf(u) == TallyOf(f) && CreationLast(u) && TallyOf(undo) == TallyOf(ops)
    requires CreatesNothing(ops) && CreatesNothing(undo)
    ensures TallyOf(undo + u) == TallyOf(f + ops) && CreationLast(undo + u)
  {
    TallyConcat(f, ops);
    TallyConcat(undo, u);
    NoCreations(ops);
    PlusCommutes(TallyOf(f), TallyOf(ops));
  }

  lemma PartsWithoutCreation(p: Parts)
    requires IsParts(p) && p.c == []
    ensures CreatesNothing(p.w + p.c + p.t + p.r + p.n) && CreatesNothing(p.n + p.r + p.t + p.c + p.w)
  {
  }

  lemma PartsWithCreation(p: Parts)
    requires IsParts(p) && p.w == [] && p.n == [] && |p.c| == 1
    ensures CreationLast(p.n + p.r + p.t + p.c + p.w)
  {
  }

  // ---------- Blocks ----------

  datatype UndoData = UndoData(certs: map<ScId, CertUndo>, events: map<ScId, EventUndo>)

  /** The ledger part of ConnectBlock: transactions, certificates, then the events of the height. */
  function Connect(l: Ledger, b: Block, height: int, net: Net): Outcome<(Ledger, UndoData)> {
    var l1 :- L.ApplyOps(l, AllOps(b.txs), height, net);
    var (l2, certs) :- ApplyCerts(l1, Top(b.certs), net);
    var (l3, events) :- B.HandleEvents(l2, height);
    Done((l3, UndoData(certs, events)))
  }

  /** The ledger part of DisconnectBlock: events, certificates, then transactions, all in reverse. */
  function Disconnect(l: Ledger, b: Block, undo: UndoData, height: int, net: Net): Outcome<Ledger> {
    var l2 :- B.RevertEvents(l, undo.events, height);
    var l1 :- RevertCerts(l2, Top(b.certs), undo.certs);
    L.RevertOps(l1, AllUndoOps(b.txs), height, net)
  }

  /** Between blocks every sidechain's events agree with its record. */
  ghost predicate LedgerInv(l: Ledger, tip: int, net: Net) {
    Normal(l.events) && forall id :: M.Inv(Of(l, id), tip, net)
  }

  /**
   * What a caller can check before connecting `b`: no sidechain matures a zero amount at this
   * height, and of several payments to one sidechain the one undone last is positive.
   */
  ghost predicate UndoSafe(l: Ledger, b: Block, height: int) {
    MaturesPositive(l, height) && LastPaymentsCount(b.txs)
  }

  ghost predicate LastPaymentsCount(txs: seq<Tx>) {
    forall id :: LastPaymentCounts(Filter(AllUndoOps(txs), id))
  }

  ghost predicate MaturesPositive(l: Ledger, height: int) {
    forall id :: id in At(l.events, height).maturing && id in l.scs && height in l.scs[id].immature
                 ==> l.scs[id].immature[height] > 0
  }

  lemma OpsKeepMidBlock(l: Ledger, txs: seq<Tx>, height: int, net: Net)
    requires M.ValidNet(net) && height >= 0 && LedgerInv(l, height - 1, net) && (forall tx :: tx in txs ==> ValidTx(tx))
    requires L.ApplyOps(l, AllOps(txs), height, net).Done?
    ensures MidBlock(L.ApplyOps(l, AllOps(txs), height, net).value, height, net)
  {
    var l1 := L.ApplyOps(l, AllOps(txs), height, net).value;
    AllOpsValid(txs);
    ApplyOpsProject(l, AllOps(txs), 0, height, net);
    forall id
      ensures M.MidInv(Of(l1, id), height, net)
    {
      ApplyOpsProject(l, AllOps(txs), id, height, net);
      FilterValid(AllOps(txs), id);
      assert M.Inv(Of(l, id), height - 1, net);
      ApplyOpsKeepsMidInv(Of(l, id), Filter(AllOps(txs), id), height, net);
    }
  }

  /** Undoing the transactions restores the ledger exactly if the payment undone last counts, for every sidechain. */
  lemma TxsUndone(l: Ledger, txs: seq<Tx>, height: int, net: Net)
    requires M.ValidNet(net) && LedgerInv(l, height - 1, net) && (forall tx :: tx in txs ==> ValidTx(tx))
    requires L.ApplyOps(l, AllOps(txs), height, net).Done?
    ensures var l1 := L.ApplyOps(l, AllOps(txs), height, net).value;
      L.RevertOps(l1, AllUndoOps(txs), height, net) == Done(l) <==> LastPaymentsCount(txs)
  {
    var ops, undoOps := AllOps(txs), AllUndoOps(txs);
    var l1 := L.ApplyOps(l, ops, height, net).value;
    AllOpsValid(txs);
    forall id
      ensures M.RevertOps(Of(l1, id), Filter(undoOps, id), height, net) ==
              (if LastPaymentCounts(Filter(undoOps, id)) then Done(Of(l, id)) else Rejected)
    {
      ApplyOpsProject(l, ops, id, height, net);
      FilterValid(ops, id);
      FilterValid(undoOps, id);
      UndoCovers(Of(l, id), txs, id, height, net);
      assert M.Inv(Of(l, id), height - 1, net);
      OpsUndone(Of(l, id), Filter(ops, id), Filter(undoOps, id), height, net);
    }
    ApplyOpsProject(l, ops, 0, height, net);
    RevertOpsProject(l1, undoOps, height, net);
    var r := L.RevertOps(l1, undoOps, height, net);
    if LastPaymentsCount(txs) {
      PartsDetermine(r.value, l);
    }
  }

  // ---------- Amounts maturing at the height of the block ----------

  /** The amount a sidechain matures at `height`, if it is listed there. */
  ghost function Due(s: ScState, height: int): Option<int> {
    if height in s.maturing && s.rec.Some? && height in s.rec.value.immature
      then Some(s.rec.value.immature[height])
      else None
  }

  lemma OpsKeepDue(s: ScState, ops: seq<ScOp>, height: int, net: Net)
    requires M.ValidNet(net) && M.Inv(s, height - 1, net) && ValidOps(ops)
    requires M.ApplyOps(s, ops, height, net).Done?
    ensures Due(M.ApplyOps(s, ops, height, net).value, height) == Due(s, height)
  {
    ApplyOpsTally(s, ops, height, net);
  }

  lemma TxsKeepDue(l: Ledger, txs: seq<Tx>, height: int, net: Net, id: ScId)
    requires M.ValidNet(net) && LedgerInv(l, height - 1, net) && (forall tx :: tx in txs ==> ValidTx(tx))
    requires L.ApplyOps(l, AllOps(txs), height, net).Done?
    ensures Due(Of(L.ApplyOps(l, AllOps(txs), height, net).value, id), height) == Due(Of(l, id), height)
  {
    AllOpsValid(txs);
    ApplyOpsProject(l, AllOps(txs), id, height, net);
    FilterValid(AllOps(txs), id);
    assert M.Inv(Of(l, id), height - 1, net);
    OpsKeepDue(Of(l, id), Filter(AllOps(txs), id), height, net);
  }

  lemma CertKeepsDue(s: ScState, cert: Cert, height: int, net: Net)
    requires M.ApplyCert(s, cert, net).Done?
    ensures Due(M.ApplyCert(s, cert, net).value.0, height) == Due(s, height)
  {
  }

  /** Transactions and certificates of a block leave the amounts maturing in it alone. */
  lemma BlockKeepsDue(l: Ledger, b: Block, height: int, net: Net)
    requires M.ValidNet(net) && height >= 0 && LedgerInv(l, height - 1, net) && ValidBlock(b)
    requires L.ApplyOps(l, AllOps(b.txs), height, net).Done?
    requires ApplyCerts(L.ApplyOps(l, AllOps(b.txs), height, net).value, Top(b.certs), net).Done?
    ensures var l1 := L.ApplyOps(l, AllOps(b.txs), height, net).value;
      var l2 := ApplyCerts(l1, Top(b.certs), net).value.0;
      && MidBlock(l1, height, net) && MidBlock(l2, height, net) && Distinct(Top(b.certs)) && ValidCerts(Top(b.certs))
      && forall id :: Due(Of(l2, id), height) == Due(Of(l, id), height)
  {
    var l1 := L.ApplyOps(l, AllOps(b.txs), height, net).value;
    OpsKeepMidBlock(l, b.txs, height, net);
    TopDistinct(b.certs);
    ApplyCertsProject(l1, Top(b.certs), height, net);
    var (l2, undos) := ApplyCerts(l1, Top(b.certs), net).value;
    forall id
      ensures Due(Of(l2, id), height) == Due(Of(l, id), height)
    {
      TxsKeepDue(l, b.txs, height, net, id);
      var cert := CertFor(Top(b.certs), id);
      assert Certified(l1, l2, undos, cert, id, net);
      if cert.Some? {
        CertKeepsDue(Of(l1, id), cert.value, height, net);
      }
    }
  }

  /** The ledger says nothing about an amount due at `h` for `id`. */
  ghost predicate Absent(l: Ledger, id: ScId, h: int) {
    id in l.scs ==> h !in l.scs[id].immature
  }

  lemma {:induction false} RevertOpsKeepAbsent(l: Ledger, ops: seq<TxOp>, id: ScId, h: int, height: int, net: Net)
    requires h != height + net.maturity && Absent(l, id, h) && L.RevertOps(l, ops, height, net).Done?
    ensures Absent(L.RevertOps(l, ops, height, net).value, id, h)
  {
    if ops != [] {
      RevertOpsKeepAbsent(l, ops[..|ops| - 1], id, h, height, net);
    }
  }

  lemma {:induction false} RevertCertsKeepAbsent(
    l: Ledger, certs: seq<ScCert>, undos: map<ScId, CertUndo>, id: ScId, h: int)
    requires Absent(l, id, h) && RevertCerts(l, certs, undos).Done?
    ensures Absent(RevertCerts(l, certs, undos).value, id, h)
    decreases |certs|
  {
    if certs != [] {
      var last := certs[|certs| - 1];
      RevertCertsKeepAbsent(B.RevertCert(l, last.id, last.cert, undos[last.id]).value, certs[..|certs| - 1], undos, id,
        h);
    }
  }

  /** What undoing the events of a block leaves: a zero amount that matured in it is lost. */
  lemma EventsReverted(l2: Ledger, height: int, net: Net)
    requires M.ValidNet(net) && MidBlock(l2, height, net)
    ensures B.HandleEvents(l2, height).Done?
    ensures var (l3, undos) := B.HandleEvents(l2, height).value;
      && B.RevertEvents(l3, undos, height).Done?
      && (forall id :: Due(Of(l2, id), height) == Some(0) ==>
        Absent(B.RevertEvents(l3, undos, height).value, id, height))
      && ((forall id :: Due(Of(l2, id), height) != Some(0)) ==> B.RevertEvents(l3, undos, height).value == l2)
  {
    HandleEventsProject(l2, height, net);
    var (l3, undos) := B.HandleEvents(l2, height).value;
    forall id
      ensures M.RevertEvents(Of(l3, id), EventUndoFor(undos, id), height).Done?
      ensures Due(Of(l2, id), height) == Some(0) ==>
        height !in M.RevertEvents(Of(l3, id), EventUndoFor(undos, id), height).value.rec.value.immature
      ensures Due(Of(l2, id), height) != Some(0) ==>
        M.RevertEvents(Of(l3, id), EventUndoFor(undos, id), height).value == Of(l2, id)
    {
      assert M.HandleEvents(Of(l2, id), height) == Done((Of(l3, id), EventUndoFor(undos, id)));
      assert M.MidInv(Of(l2, id), height, net);
      EventsUndone(Of(l2, id), height, net);
    }
    RevertEventsProject(l3, undos, height);
    var r := B.RevertEvents(l3, undos, height).value;
    forall id | Due(Of(l2, id), height) == Some(0)
      ensures Absent(r, id, height)
    {
      assert M.RevertEvents(Of(l3, id), EventUndoFor(undos, id), height) == Done(Of(r, id));
    }
    if forall id :: Due(Of(l2, id), height) != Some(0) {
      PartsDetermine(r, l2);
    }
  }

  /** `UndoSafe`, by what each sidechain matures. */
  lemma SafeMaturing(l: Ledger, height: int, net: Net)
    requires M.ValidNet(net) && LedgerInv(l, height - 1, net)
    ensures MaturesPositive(l, height) <==> forall id :: Due(Of(l, id), height) != Some(0)
  {
    forall id
      ensures Due(Of(l, id), height) == Some(0) <==>
              id in At(l.events, height).maturing && id in l.scs && height in l.scs[id].immature
                && l.scs[id].immature[height] <= 0
    {
      AtTransposed(l.events, height, id);
      assert M.Inv(Of(l, id), height - 1, net);
    }
  }

  /**
   * Disconnecting the block just connected, with the undo data recorded, gives back every
   * sidechain record, every event set and every nullifier if and only if the block was safe
   * to undo.
   */
  lemma BlockUndone(l: Ledger, b: Block, height: int, net: Net)
    requires M.ValidNet(net) && height >= 0 && LedgerInv(l, height - 1, net) && ValidBlock(b)
    requires Connect(l, b, height, net).Done?
    ensures var (l', undo) := Connect(l, b, height, net).value;
      Disconnect(l', b, undo, height, net) == Done(l) <==> UndoSafe(l, b, height)
  {
    var (l3, undo) := Connect(l, b, height, net).value;
    var l1 := L.ApplyOps(l, AllOps(b.txs), height, net).value;
    BlockKeepsDue(l, b, height, net);
    var l2 := ApplyCerts(l1, Top(b.certs), net).value.0;
    EventsReverted(l2, height, net);
    SafeMaturing(l, height, net);
    if id :| Due(Of(l, id), height) == Some(0) {
      ZeroLost(l, l3, b, undo, id, height, net);
    } else {
      CertsCovered(l1, Top(b.certs), height, net);
      CertsUndone(l1, Top(b.certs), undo.certs, height, net);
      TxsUndone(l, b.txs, height, net);
    }
  }

  lemma CertsCovered(l: Ledger, certs: seq<ScCert>, height: int, net: Net)
    requires M.ValidNet(net) && MidBlock(l, height, net) && Distinct(certs) && ValidCerts(certs)
    requires ApplyCerts(l, certs, net).Done?
    ensures forall c :: c in certs ==> c.id in ApplyCerts(l, certs, net).value.1
  {
    ApplyCertsProject(l, certs, height, net);
    var (l', undos) := ApplyCerts(l, certs, net).value;
    forall c | c in certs
      ensures c.id in undos
    {
      CertForAbsent(certs, c.id);
      assert Certified(l, l', undos, CertFor(certs, c.id), c.id, net);
    }
  }

  lemma ZeroLost(l: Ledger, l3: Ledger, b: Block, undo: UndoData, id: ScId, height: int, net: Net)
    requires M.ValidNet(net) && Due(Of(l, id), height).Some?
    requires B.RevertEvents(l3, undo.events, height).Done?
    requires Absent(B.RevertEvents(l3, undo.events, height).value, id, height)
    ensures Disconnect(l3, b, undo, height, net) != Done(l)
  {
    var r := B.RevertEvents(l3, undo.events, height).value;
    var r' := RevertCerts(r, Top(b.certs), undo.certs);
    if r'.Done? {
      RevertCertsKeepAbsent(r, Top(b.certs), undo.certs, id, height);
      if L.RevertOps(r'.value, AllUndoOps(b.txs), height, net).Done? {
        RevertOpsKeepAbsent(r'.value, AllUndoOps(b.txs), id, height, height, net);
      }
    }
  }
}
