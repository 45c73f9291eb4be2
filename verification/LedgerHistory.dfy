/**
 * What the ledger says about a sidechain, read off the blocks alone: sums of the amounts in their
 * outputs, the list of their certificates, and the heights they stand at. No statement about the
 * result goes through the operations, tallies or steps that the ledger is made of.
 */
module LedgerHistory {
  import opened Outcomes
  import opened SidechainTypes
  import opened EventIndex
  import opened M = SidechainMachine
  import opened U = SidechainUndo
  import C = SidechainConservation
  import L = Ledger
  import B = Blocks
  import opened T = BlockUndo
  import opened S = BlockSheets
  import R = LedgerRuns

  // ---------- Histories ----------

  /** What one block holds for a sidechain: its transactions, and its last certificate in the block. */
  datatype Entry = Entry(sheet: Sheet, cert: Option<Cert>)

  function EntryOf(b: Block, id: ScId): Entry {
    Entry(SheetIn(b.txs, id), B.CertFor(b.certs, id))
  }

  /** The blocks at heights 0, 1, 2, ... as one sidechain sees them. */
  function History(blocks: seq<Block>, id: ScId): seq<Entry> {
    seq(|blocks|, i requires 0 <= i < |blocks| => EntryOf(blocks[i], id))
  }

  function SentIn(hist: seq<Entry>): int {
    if hist == [] then 0 else SentIn(hist[..|hist| - 1]) + hist[|hist| - 1].sheet.sent
  }

  function TookIn(hist: seq<Entry>): int {
    if hist == [] then 0 else TookIn(hist[..|hist| - 1]) + hist[|hist| - 1].sheet.took
  }

  function UsedIn(hist: seq<Entry>): set<nat> {
    if hist == [] then {} else UsedIn(hist[..|hist| - 1]) + hist[|hist| - 1].sheet.used
  }

  function MadeIn(hist: seq<Entry>): seq<Made> {
    if hist == [] then [] else MadeIn(hist[..|hist| - 1]) + hist[|hist| - 1].sheet.made
  }

  function CertsIn(hist: seq<Entry>): seq<Cert> {
    if hist == [] then []
    else
      var last := hist[|hist| - 1].cert;
      CertsIn(hist[..|hist| - 1]) + if last.Some? then [last.value] else []
  }

  /** The last certificate of each epoch. */
  function Finals(certs: seq<Cert>): seq<Cert> {
    if certs == [] then []
    else
      var before, c := Finals(certs[..|certs| - 1]), certs[|certs| - 1];
      if before != [] && before[|before| - 1].epoch == c.epoch then before[..|before| - 1] + [c] else before + [c]
  }

  /** The view that the creation sets, and the view of the last certificate of each epoch. */
  function Views(start: CertView, certs: seq<Cert>): (r: seq<CertView>)
    ensures |r| > 0
  {
    [start] + seq(|Finals(certs)|, i requires 0 <= i < |Finals(certs)| => Finals(certs)[i].view)
  }

  function FeesOf(views: seq<CertView>): seq<FeeData> {
    seq(|views|, i requires 0 <= i < |views| => FeeData(views[i].ftFee, views[i].mbtrFee))
  }

  // ---------- What the ledger says ----------

  /** There is a record if and only if there was one creation; it is the creation's. */
  ghost predicate Origin(rec: Option<Sidechain>, hist: seq<Entry>) {
    var made := MadeIn(hist);
    match rec
    case None => made == []
    case Some(sc) =>
      && |made| == 1 && 0 <= sc.creationHeight < |hist| && hist[sc.creationHeight].sheet.made == made
      && sc.creationTx == made[0].tx && sc.fixed == made[0].creation.fixed
  }

  /** The amounts still maturing are those of the last blocks that paid, each due a fixed number of blocks later. */
  ghost predicate Immature(amounts: map<int, int>, hist: seq<Entry>, net: Net) {
    && (forall h :: h in amounts <==>
         |hist| <= h < |hist| + net.maturity && 0 <= h - net.maturity && hist[h - net.maturity].sheet.pays)
    && (forall h :: h in amounts && 0 <= h - net.maturity < |hist| ==> amounts[h] == hist[h - net.maturity].sheet.sent)
  }

  /** How many of `n` blocks are old enough for their amounts to have matured. */
  function Ripe(n: nat, net: Net): nat {
    if net.maturity < 0 then n else if n > net.maturity then n - net.maturity else 0
  }

  ghost predicate Balanced(balance: int, hist: seq<Entry>, net: Net) {
    balance == SentIn(hist[..Ripe(|hist|, net)]) - TookIn(hist) - C.FinalAmounts(CertsIn(hist))
  }

  /** The record holds the last certificate. */
  ghost predicate HoldsLast(sc: Sidechain, certs: seq<Cert>) {
    if certs == [] then sc.lastHash == 0 && sc.lastEpoch == -1 && sc.lastQuality == -1 && sc.lastBwtAmount == 0
    else
      var c := certs[|certs| - 1];
      sc.lastHash == c.hash && sc.lastEpoch == c.epoch && sc.lastQuality == c.quality && sc.lastBwtAmount == c.amount
  }

  /** And the views of the last two epochs. */
  ghost predicate HoldsViews(sc: Sidechain, views: seq<CertView>) {
    && views != [] && sc.lastView == views[|views| - 1]
    && sc.pastView == if |views| > 1 then views[|views| - 2] else CertView(-1, -1, 0)
  }

  /** And the fees of the epochs before the last one, after those of the creation, as far as there is room. */
  ghost predicate HoldsFees(sc: Sidechain, start: CertView, views: seq<CertView>, net: Net) {
    && views != [] && sc.fixed.epochLength > 0
    && Latest(FeesOf([start] + views[..|views| - 1]), MaxFees(net.feeBlocks, sc.fixed.epochLength), sc.fees)
  }

  ghost predicate Certified(sc: Sidechain, start: CertView, certs: seq<Cert>, net: Net) {
    HoldsLast(sc, certs) && HoldsViews(sc, Views(start, certs)) && HoldsFees(sc, start, Views(start, certs), net)
  }

  /** `r` is what a buffer of `limit` places still has of `all`. */
  ghost predicate Latest<A>(all: seq<A>, limit: int, r: seq<A>) {
    if |all| <= limit then r == all else 0 <= limit && r == all[|all| - limit..]
  }

  /** Certificates start with epoch zero; then each one has a better quality in its epoch, or the next epoch. */
  ghost predicate Rising(certs: seq<Cert>) {
    && (certs != [] ==> certs[0].epoch == 0)
    && forall i :: 0 < i < |certs| ==>
         || (certs[i].epoch == certs[i - 1].epoch && certs[i].quality > certs[i - 1].quality)
         || certs[i].epoch == certs[i - 1].epoch + 1
  }

  /** The record is the creation's and holds the certificates. */
  ghost predicate Stands(rec: Option<Sidechain>, hist: seq<Entry>, net: Net) {
    && Origin(rec, hist) && Rising(CertsIn(hist))
    && (if rec.Some? then Certified(rec.value, FirstView(MadeIn(hist)[0]), CertsIn(hist), net) else CertsIn(hist) == [])
  }

  ghost predicate Explained(s: ScState, hist: seq<Entry>, net: Net) {
    && Stands(s.rec, hist, net) && s.nullifiers == UsedIn(hist)
    && Immature(Amounts(s.rec), hist, net) && Balanced(Funds(s.rec), hist, net)
  }

  /** What matures and what is there, nothing without a record. */
  ghost function Amounts(rec: Option<Sidechain>): map<int, int> {
    if rec.Some? then rec.value.immature else map[]
  }

  ghost function Funds(rec: Option<Sidechain>): int {
    if rec.Some? then rec.value.balance else 0
  }

  function FirstView(m: Made): CertView {
    CertView(m.creation.ftFee, m.creation.mbtrFee, 0)
  }

  // ---------- One more block ----------

  /** A block that pays nothing sends nothing. */
  ghost predicate Quiet(hist: seq<Entry>) {
    forall i :: 0 <= i < |hist| && !hist[i].sheet.pays ==> hist[i].sheet.sent == 0
  }

  lemma {:induction false} SumsNext(hist: seq<Entry>, e: Entry)
    ensures SentIn(hist + [e]) == SentIn(hist) + e.sheet.sent && TookIn(hist + [e]) == TookIn(hist) + e.sheet.took
    ensures UsedIn(hist + [e]) == UsedIn(hist) + e.sheet.used && MadeIn(hist + [e]) == MadeIn(hist) + e.sheet.made
    ensures CertsIn(hist + [e]) == CertsIn(hist) + if e.cert.Some? then [e.cert.value] else []
  {
    assert (hist + [e])[..|hist|] == hist;
  }

  /** The record that a creation sets up, before anything is sent. */
  ghost function Start(m: Made, height: int): Sidechain {
    FreshRecord(CreateOf(m), height)
  }

  /** The record once the transactions of a block are applied. */
  ghost predicate Moved(rec: Option<Sidechain>, sheet: Sheet, height: int, net: Net, rec': Option<Sidechain>) {
    var due := height + net.maturity;
    if rec.Some? then
      && sheet.made == []
      && rec' == Some(rec.value.(balance := rec.value.balance - sheet.took,
                                 immature := if sheet.pays
                                   then rec.value.immature[due := sheet.sent]
                                   else rec.value.immature))
    else if sheet.made == [] then !sheet.pays && sheet.took == 0 && rec' == None
    else
      && |sheet.made| == 1 && sheet.pays
      && rec' == Some(Start(sheet.made[0], height).(balance := -sheet.took, immature := map[due := sheet.sent]))
  }

  lemma {:induction false} CreationsPay(ops: seq<ScOp>)
    ensures TallyOf(ops).created != [] ==> TallyOf(ops).payments > 0
  {
    if ops != [] {
      CreationsPay(ops[..|ops| - 1]);
    }
  }

  lemma {:induction false} TallyMoves(s: ScState, t: Tally, sheet: Sheet, height: int, net: Net)
    requires U.Sound(t) && Possible(s, t) && AddsUp(t, sheet) && (t.created != [] ==> t.payments > 0)
    ensures Moved(s.rec, sheet, height, net, RecordAfter(s.rec, t, t.payments > 0, height, net))
    ensures !sheet.pays ==> sheet.sent == 0
  {
    if s.rec.None? && sheet.made != [] {
      assert t.created[0] == CreateOf(sheet.made[0]);
    }
  }

  lemma {:induction false} OpsMove(s: ScState, ops: seq<ScOp>, sheet: Sheet, height: int, net: Net)
    requires ValidOps(ops) && NothingDue(s.rec, height + net.maturity) && AddsUp(TallyOf(ops), sheet)
    requires M.ApplyOps(s, ops, height, net).Done?
    ensures var s' := M.ApplyOps(s, ops, height, net).value;
      Moved(s.rec, sheet, height, net, s'.rec) && s'.nullifiers == s.nullifiers + sheet.used
    ensures !sheet.pays ==> sheet.sent == 0
  {
    ApplyOpsTally(s, ops, height, net);
    CreationsPay(ops);
    hide M.ApplyOps, TallyOf, RecordAfter, Moved;
    TallyMoves(s, TallyOf(ops), sheet, height, net);
  }

  /** The record once the events of a height are handled. */
  ghost function Ripened(sc: Sidechain, height: int): Sidechain {
    if height in sc.immature then Mature(sc, height) else sc
  }

  /** The three parts of a block, one after the other. */
  lemma {:induction false} BlockMoves(s: ScState, ops: seq<ScOp>, e: Entry, height: int, net: Net)
    requires ValidNet(net) && height >= 0 && M.Inv(s, height - 1, net) && ValidOps(ops) && AddsUp(TallyOf(ops), e.sheet)
    requires e.cert.Some? ==> ValidCert(e.cert.value)
    requires M.Connect(s, ops, e.cert, height, net).Done?
    ensures var s1, s3 := M.ApplyOps(s, ops, height, net).value, M.Connect(s, ops, e.cert, height, net).value.0;
      && M.ApplyOps(s, ops, height, net).Done? && Moved(s.rec, e.sheet, height, net, s1.rec)
      && s3.nullifiers == s.nullifiers + e.sheet.used && (!e.sheet.pays ==> e.sheet.sent == 0)
      && (s1.rec.Some? ==> s1.rec.value.fixed.epochLength > 0)
      && (s1.rec.None? ==> e.cert.None? && s3.rec.None?)
      && (s1.rec.Some? && e.cert.None? ==> s3.rec == Some(Ripened(s1.rec.value, height)))
      && (s1.rec.Some? && e.cert.Some? ==>
           && Certify(s1.rec.value, e.cert.value, net).Done?
           && s3.rec == Some(Ripened(Certify(s1.rec.value, e.cert.value, net).value.0, height)))
  {
    OpsMove(s, ops, e.sheet, height, net);
    ApplyOpsKeepsMidInv(s, ops, height, net);
    var s1 := M.ApplyOps(s, ops, height, net).value;
    hide Moved, TallyOf, M.ApplyOps, AddsUp, Certify, HandleEvents, Ripened;
    if e.cert.Some? {
      ApplyCertKeepsMidInv(s1, e.cert.value, height, net);
      EventsMove(M.ApplyCert(s1, e.cert.value, net).value.0, height, net);
    } else {
      EventsMove(s1, height, net);
    }
  }

  lemma {:induction false} EventsMove(s: ScState, height: int, net: Net)
    requires MidInv(s, height, net) && HandleEvents(s, height).Done?
    ensures var s' := HandleEvents(s, height).value.0;
      && s'.nullifiers == s.nullifiers
      && s'.rec == if s.rec.Some? then Some(Ripened(s.rec.value, height)) else None
  {
  }

  /** A certificate leaves the creation and the amounts alone. */
  lemma {:induction false} CertifyKeeps(sc: Sidechain, c: Cert, hist: seq<Entry>, net: Net)
    requires Certify(sc, c, net).Done?
    ensures var (sc', _) := Certify(sc, c, net).value;
      sc'.immature == sc.immature && (Origin(Some(sc), hist) ==> Origin(Some(sc'), hist))
  {
  }

  lemma {:induction false} OriginNext(
    rec: Option<Sidechain>, hist: seq<Entry>, e: Entry, net: Net, rec': Option<Sidechain>)
    requires Origin(rec, hist) && Moved(rec, e.sheet, |hist|, net, rec')
    ensures Origin(rec', hist + [e])
  {
    SumsNext(hist, e);
    var all := hist + [e];
    assert all[|hist|] == e && forall i :: 0 <= i < |hist| ==> all[i] == hist[i];
    assert MadeIn(hist) + [] == MadeIn(hist) && [] + e.sheet.made == e.sheet.made;
  }

  /** What is due at the next height is what the block that many blocks before sent. */
  lemma {:induction false} ImmatureNext(amounts: map<int, int>, hist: seq<Entry>, e: Entry, net: Net)
    requires ValidNet(net) && Immature(amounts, hist, net)
    ensures var n, due := |hist|, |hist| + net.maturity;
      var now := if e.sheet.pays then amounts[due := e.sheet.sent] else amounts;
      && Immature(now - {n}, hist + [e], net)
      && (n in now <==> n >= net.maturity && hist[n - net.maturity].sheet.pays)
      && (n in now ==> now[n] == hist[n - net.maturity].sheet.sent)
  {
    var n, due, all := |hist|, |hist| + net.maturity, hist + [e];
    var now := if e.sheet.pays then amounts[due := e.sheet.sent] else amounts;
    assert all[n] == e && forall i :: 0 <= i < n ==> all[i] == hist[i];
    forall h
      ensures h in now - {n} <==>
        |all| <= h < |all| + net.maturity && 0 <= h - net.maturity && all[h - net.maturity].sheet.pays
      ensures h in now - {n} && 0 <= h - net.maturity < |all| ==> (now - {n})[h] == all[h - net.maturity].sheet.sent
    {
      assert h == due || (h in now <==> h in amounts);
    }
  }

  lemma {:induction false} RipeNext(hist: seq<Entry>, e: Entry, net: Net)
    requires ValidNet(net)
    ensures var n := |hist|;
      SentIn((hist + [e])[..Ripe(n + 1, net)]) ==
        SentIn(hist[..Ripe(n, net)]) + if n >= net.maturity then hist[n - net.maturity].sheet.sent else 0
  {
    var n := |hist|;
    if n >= net.maturity {
      var k := n - net.maturity;
      assert (hist + [e])[..k + 1] == hist[..k] + [hist[k]];
      SumsNext(hist[..k], hist[k]);
      assert hist[..Ripe(n, net)] == hist[..k];
    } else {
      assert (hist + [e])[..0] == hist[..0] == [];
    }
  }

  // ---------- Certificates ----------

  lemma {:induction false} FinalsEnd(certs: seq<Cert>)
    requires certs != []
    ensures var f := Finals(certs); f != [] && f[|f| - 1] == certs[|certs| - 1]
  {
  }

  lemma {:induction false} FinalsNext(certs: seq<Cert>, c: Cert)
    ensures var f, g := Finals(certs), Finals(certs + [c]);
      if certs != [] && certs[|certs| - 1].epoch == c.epoch then f != [] && g == f[..|f| - 1] + [c] else g == f + [c]
  {
    assert (certs + [c])[..|certs|] == certs;
    if certs != [] {
      FinalsEnd(certs);
    }
  }

  lemma {:induction false} ViewsNext(start: CertView, certs: seq<Cert>, c: Cert)
    ensures var v, w := Views(start, certs), Views(start, certs + [c]);
      if certs != [] && certs[|certs| - 1].epoch == c.epoch then |v| > 1 && w == v[..|v| - 1] + [c.view]
      else w == v + [c.view]
  {
    FinalsNext(certs, c);
    hide Finals;
  }

  lemma {:induction false} FeesNext(views: seq<CertView>, v: CertView)
    ensures FeesOf(views + [v]) == FeesOf(views) + [FeeData(v.ftFee, v.mbtrFee)]
  {
  }

  /** The fee buffer takes one more record. */
  lemma {:induction false} LatestNext(all: seq<FeeData>, limit: int, r: seq<FeeData>, fee: FeeData)
    requires limit > 0 && Latest(all, limit, r)
    ensures Latest(all + [fee], limit, PushFee(r, fee, limit))
  {
    var next := all + [fee];
    if |all| > limit {
      assert r + [fee] == next[|all| - limit..];
      assert next[|all| - limit..][1..] == next[|next| - limit..];
    }
  }

  lemma {:induction false} RisingNext(sc: Sidechain, start: CertView, certs: seq<Cert>, c: Cert, net: Net)
    requires Certified(sc, start, certs, net) && Rising(certs) && ValidCert(c) && Certify(sc, c, net).Done?
    ensures Rising(certs + [c])
    ensures (certs != [] && certs[|certs| - 1].epoch == c.epoch) <==> c.epoch == sc.lastEpoch
  {
    var all := certs + [c];
    assert forall i :: 0 <= i < |certs| ==> all[i] == certs[i];
  }

  lemma {:induction false} HoldsFeesNext(
    sc: Sidechain, sc': Sidechain, start: CertView, v: seq<CertView>, w: seq<CertView>, net: Net)
    requires HoldsFees(sc, start, v, net) && sc'.fixed == sc.fixed && |w| == |v| + 1 && w[..|v|] == v
    requires var last, limit := v[|v| - 1], MaxFees(net.feeBlocks, sc.fixed.epochLength);
      sc'.fees == PushFee(sc.fees, FeeData(last.ftFee, last.mbtrFee), limit)
    ensures HoldsFees(sc', start, w, net)
  {
    hide PushFee, MaxFees, FeesOf, Latest;
    var last := v[|v| - 1];
    assert [start] + v == [start] + v[..|v| - 1] + [last];
    FeesNext([start] + v[..|v| - 1], last);
    LimitPositive(net, sc.fixed.epochLength);
    LatestNext(FeesOf([start] + v[..|v| - 1]), MaxFees(net.feeBlocks, sc.fixed.epochLength), sc.fees,
               FeeData(last.ftFee, last.mbtrFee));
  }

  /** A further view takes the place of the last one, or comes after it. */
  lemma {:induction false} HoldsViewsNext(
    sc: Sidechain, sc': Sidechain, v: seq<CertView>, w: seq<CertView>, view: CertView, same: bool)
    requires HoldsViews(sc, v) && sc'.lastView == view && sc'.pastView == if same then sc.pastView else sc.lastView
    requires if same then |v| > 1 && w == v[..|v| - 1] + [view] else w == v + [view]
    ensures HoldsViews(sc', w)
    ensures if same then w[..|w| - 1] == v[..|v| - 1] else |w| == |v| + 1 && w[..|v|] == v
  {
  }

  lemma {:induction false} CertifiedNext(sc: Sidechain, start: CertView, certs: seq<Cert>, c: Cert, net: Net)
    requires Certified(sc, start, certs, net) && Rising(certs) && ValidCert(c) && Certify(sc, c, net).Done?
    ensures Certified(Certify(sc, c, net).value.0, start, certs + [c], net)
  {
    var sc' := Certify(sc, c, net).value.0;
    var v, w, same := Views(start, certs), Views(start, certs + [c]), c.epoch == sc.lastEpoch;
    assert HoldsViews(sc, v) && HoldsFees(sc, start, v, net);
    RisingNext(sc, start, certs, c, net);
    ViewsNext(start, certs, c);
    assert sc'.lastView == c.view && sc'.pastView == if same then sc.pastView else sc.lastView;
    var last := v[|v| - 1];
    assert sc.lastView == last;
    assert sc'.fees == if same then sc.fees
      else PushFee(sc.fees, FeeData(last.ftFee, last.mbtrFee), MaxFees(net.feeBlocks, sc.fixed.epochLength));
    assert HoldsLast(sc', certs + [c]);
    hide Views, HoldsViews, HoldsFees, HoldsLast, Certify, Rising, PushFee, MaxFees;
    HoldsViewsNext(sc, sc', v, w, c.view, same);
    if same {
      SameFees(sc, sc', start, v, w, net);
    } else {
      HoldsFeesNext(sc, sc', start, v, w, net);
    }
  }

  lemma {:induction false} SameFees(
    sc: Sidechain, sc': Sidechain, start: CertView, v: seq<CertView>, w: seq<CertView>, net: Net)
    requires HoldsFees(sc, start, v, net) && sc'.fixed == sc.fixed && sc'.fees == sc.fees
    requires w != [] && w[..|w| - 1] == v[..|v| - 1]
    ensures HoldsFees(sc', start, w, net)
  {
  }

  lemma {:induction false} LimitPositive(net: Net, epochLength: int)
    requires epochLength > 0
    ensures MaxFees(net.feeBlocks, epochLength) > 0
  {
  }

  lemma {:induction false} CertPaid(sc: Sidechain, start: CertView, certs: seq<Cert>, c: Cert, net: Net)
    requires Certified(sc, start, certs, net) && Rising(certs) && ValidCert(c) && Certify(sc, c, net).Done?
    ensures Certify(sc, c, net).value.0.balance ==
      sc.balance + C.FinalAmounts(certs) - C.FinalAmounts(certs + [c])
  {
    RisingNext(sc, start, certs, c, net);
    C.FinalAmountsAppend(certs, c);
  }

  // ---------- Whole runs ----------

  /** A fresh record holds no certificate yet. */
  lemma {:induction false} StartCertified(m: Made, height: int, balance: int, amounts: map<int, int>, net: Net)
    requires m.creation.fixed.epochLength > 0
    ensures Certified(Start(m, height).(balance := balance, immature := amounts), FirstView(m), [], net)
  {
    var first := FirstView(m);
    assert Views(first, []) == [first];
    assert [first] + Views(first, [])[..0] == [first];
    LimitPositive(net, m.creation.fixed.epochLength);
  }

  lemma {:induction false} SameCertified(
    sc: Sidechain, balance: int, amounts: map<int, int>, first: CertView, certs: seq<Cert>, net: Net)
    requires Certified(sc, first, certs, net)
    ensures Certified(sc.(balance := balance, immature := amounts), first, certs, net)
  {
  }

  /** The record after the transactions of a block still holds the certificates of before. */
  lemma {:induction false} MovedCertified(
    rec: Option<Sidechain>, hist: seq<Entry>, e: Entry, net: Net, rec': Option<Sidechain>)
    requires Origin(rec, hist) && Moved(rec, e.sheet, |hist|, net, rec') && rec'.Some?
    requires rec'.value.fixed.epochLength > 0
    requires if rec.Some?
      then Certified(rec.value, FirstView(MadeIn(hist)[0]), CertsIn(hist), net)
      else CertsIn(hist) == []
    ensures MadeIn(hist + [e]) != [] && Certified(rec'.value, FirstView(MadeIn(hist + [e])[0]), CertsIn(hist), net)
  {
    SumsNext(hist, e);
    assert MadeIn(hist) + e.sheet.made == MadeIn(hist + [e]);
    hide Certified, MadeIn, CertsIn;
    if rec.Some? {
      SameCertified(rec.value, rec'.value.balance, rec'.value.immature, FirstView(MadeIn(hist)[0]), CertsIn(hist), net);
    } else {
      StartCertified(e.sheet.made[0], |hist|, rec'.value.balance, rec'.value.immature, net);
    }
  }

  /** The balance after a block: what it takes out, what its certificate changes, what has come to maturity. */
  lemma {:induction false} BalancedNext(balance: int, hist: seq<Entry>, e: Entry, net: Net, ripe: int, balance': int)
    requires ValidNet(net) && Balanced(balance, hist, net)
    requires ripe == if |hist| >= net.maturity then hist[|hist| - net.maturity].sheet.sent else 0
    requires balance' == balance - e.sheet.took + ripe +
      C.FinalAmounts(CertsIn(hist)) - C.FinalAmounts(CertsIn(hist + [e]))
    ensures Balanced(balance', hist + [e], net)
  {
    SumsNext(hist, e);
    RipeNext(hist, e, net);
  }

  /** Maturing leaves everything but balance and amounts alone. */
  lemma {:induction false} RipenedStands(sc: Sidechain, height: int, hist: seq<Entry>, net: Net)
    requires Stands(Some(sc), hist, net)
    ensures var r := Ripened(sc, height);
      && Stands(Some(r), hist, net) && r.immature == sc.immature - {height}
      && r.balance == sc.balance + if height in sc.immature then sc.immature[height] else 0
  {
    hide Views, FeesOf, Latest, MaxFees, Rising, MadeIn, CertsIn;
    assert height !in sc.immature ==> sc.immature - {height} == sc.immature;
  }

  /** What matures at the height of the next block. */
  lemma {:induction false} RipeAmount(
    rec: Option<Sidechain>, hist: seq<Entry>, e: Entry, net: Net, rec': Option<Sidechain>)
    requires ValidNet(net) && Quiet(hist) && Immature(Amounts(rec), hist, net) && Moved(rec, e.sheet, |hist|, net, rec')
    ensures var n, now := |hist|, Amounts(rec');
      && Immature(now - {n}, hist + [e], net)
      && (if n in now then now[n] else 0) == if n >= net.maturity then hist[n - net.maturity].sheet.sent else 0
  {
    ImmatureNext(Amounts(rec), hist, e, net);
    assert map[][|hist| + net.maturity := e.sheet.sent] == map[|hist| + net.maturity := e.sheet.sent];
  }

  lemma {:induction false} StandsUncertified(
    rec: Option<Sidechain>, hist: seq<Entry>, e: Entry, net: Net, rec': Option<Sidechain>)
    requires Stands(rec, hist, net) && Moved(rec, e.sheet, |hist|, net, rec') && e.cert.None?
    requires rec'.Some? ==> rec'.value.fixed.epochLength > 0
    ensures Stands(rec', hist + [e], net) && CertsIn(hist + [e]) == CertsIn(hist)
  {
    SumsNext(hist, e);
    assert CertsIn(hist) + [] == CertsIn(hist);
    OriginNext(rec, hist, e, net, rec');
    hide Certified, Rising;
    if rec'.Some? {
      MovedCertified(rec, hist, e, net, rec');
    }
  }

  lemma {:induction false} StandsCertified(
    rec: Option<Sidechain>, hist: seq<Entry>, e: Entry, net: Net, rec': Option<Sidechain>)
    requires Stands(rec, hist, net) && Moved(rec, e.sheet, |hist|, net, rec') && rec'.Some?
    requires rec'.value.fixed.epochLength > 0
    requires e.cert.Some? && ValidCert(e.cert.value) && Certify(rec'.value, e.cert.value, net).Done?
    ensures var sc := Certify(rec'.value, e.cert.value, net).value.0;
      && Stands(Some(sc), hist + [e], net) && sc.immature == rec'.value.immature
      && sc.balance == rec'.value.balance + C.FinalAmounts(CertsIn(hist)) - C.FinalAmounts(CertsIn(hist + [e]))
  {
    hide Certified, Rising, CertsIn, Certify, C.FinalAmounts;
    SumsNext(hist, e);
    var c, certs := e.cert.value, CertsIn(hist);
    OriginNext(rec, hist, e, net, rec');
    MovedCertified(rec, hist, e, net, rec');
    var first := FirstView(MadeIn(hist + [e])[0]);
    CertifyKeeps(rec'.value, c, hist + [e], net);
    hide Origin, Moved;
    RisingNext(rec'.value, first, certs, c, net);
    CertifiedNext(rec'.value, first, certs, c, net);
    CertPaid(rec'.value, first, certs, c, net);
  }

  /** Everything together, once the amounts due at the height have matured. */
  lemma {:induction false} Assembled(
    s: ScState, rec1: Option<Sidechain>, rec2: Option<Sidechain>, hist: seq<Entry>, e: Entry, net: Net, s': ScState)
    requires ValidNet(net) && Quiet(hist) && Explained(s, hist, net) && Moved(s.rec, e.sheet, |hist|, net, rec1)
    requires Stands(rec2, hist + [e], net) && Amounts(rec2) == Amounts(rec1)
    requires Funds(rec2) == Funds(rec1) + C.FinalAmounts(CertsIn(hist)) - C.FinalAmounts(CertsIn(hist + [e]))
    requires s'.nullifiers == s.nullifiers + e.sheet.used
    requires s'.rec == if rec2.Some? then Some(Ripened(rec2.value, |hist|)) else None
    ensures Explained(s', hist + [e], net)
  {
    hide SentIn, TookIn, CertsIn, UsedIn, C.FinalAmounts, Stands, Immature, Balanced, Ripened;
    var n, all := |hist|, hist + [e];
    SumsNext(hist, e);
    assert Funds(rec1) == Funds(s.rec) - e.sheet.took;
    RipeAmount(s.rec, hist, e, net, rec1);
    hide Moved, Quiet;
    if rec2.Some? {
      RipenedStands(rec2.value, n, all, net);
    } else {
      assert map[] - {n} == Amounts(None);
    }
    var ripe := if n >= net.maturity then hist[n - net.maturity].sheet.sent else 0;
    BalancedNext(Funds(s.rec), hist, e, net, ripe, Funds(s'.rec));
  }

  /** One more block. */
  lemma {:induction false} ExplainedNext(s: ScState, ops: seq<ScOp>, hist: seq<Entry>, e: Entry, net: Net)
    requires ValidNet(net) && M.Inv(s, |hist| - 1, net) && ValidOps(ops) && AddsUp(TallyOf(ops), e.sheet)
    requires e.cert.Some? ==> ValidCert(e.cert.value)
    requires Quiet(hist) && Explained(s, hist, net) && M.Connect(s, ops, e.cert, |hist|, net).Done?
    ensures Explained(M.Connect(s, ops, e.cert, |hist|, net).value.0, hist + [e], net) && Quiet(hist + [e])
  {
    hide Stands;
    assert Stands(s.rec, hist, net);
    hide M.Connect, M.ApplyOps, TallyOf, Explained, Stands, Moved, Certify, Ripened, M.Inv, AddsUp, C.FinalAmounts;
    var n := |hist|;
    BlockMoves(s, ops, e, n, net);
    var s1, s3 := M.ApplyOps(s, ops, n, net).value, M.Connect(s, ops, e.cert, n, net).value.0;
    if e.cert.None? {
      StandsUncertified(s.rec, hist, e, net, s1.rec);
      Assembled(s, s1.rec, s1.rec, hist, e, net, s3);
    } else {
      StandsCertified(s.rec, hist, e, net, s1.rec);
      CertifyKeeps(s1.rec.value, e.cert.value, hist, net);
      Assembled(s, s1.rec, Some(Certify(s1.rec.value, e.cert.value, net).value.0), hist, e, net, s3);
    }
  }

  /** Of the certificates of a block the last one of each sidechain counts. */
  lemma {:induction false} WithoutFor(certs: seq<B.ScCert>, x: ScId, id: ScId)
    ensures B.CertFor(B.Without(certs, x), id) == if id == x then None else B.CertFor(certs, id)
  {
    if certs != [] {
      var init, last := certs[..|certs| - 1], certs[|certs| - 1];
      WithoutFor(init, x, id);
      assert last.id != x ==> B.Without(certs, x)[..|B.Without(init, x)|] == B.Without(init, x);
      assert last.id == x ==> B.Without(certs, x) == B.Without(init, x);
    }
  }

  lemma {:induction false} TopFor(certs: seq<B.ScCert>, id: ScId)
    ensures B.CertFor(B.Top(certs), id) == B.CertFor(certs, id)
  {
    if certs != [] {
      var init, last := certs[..|certs| - 1], certs[|certs| - 1];
      TopFor(init, id);
      WithoutFor(B.Top(init), last.id, id);
      assert B.Top(certs)[..|B.Top(certs)| - 1] == B.Without(B.Top(init), last.id);
    }
  }

  lemma {:induction false} GenesisExplained(net: Net)
    requires ValidNet(net)
    ensures Explained(M.EMPTY, [], net) && Quiet([])
  {
    assert forall h :: h !in Amounts(None);
  }

  lemma {:induction false} BlockExplained(l: L.Ledger, b: Block, hist: seq<Entry>, net: Net, id: ScId)
    requires ValidNet(net) && LedgerInv(l, |hist| - 1, net) && T.ValidBlock(b) && T.Connect(l, b, |hist|, net).Done?
    requires Quiet(hist) && Explained(L.Of(l, id), hist, net)
    ensures var l' := T.Connect(l, b, |hist|, net).value.0; var all := hist + [EntryOf(b, id)];
      Explained(L.Of(l', id), all, net) && Quiet(all)
  {
    R.ConnectProjects(l, b, |hist|, net);
    var e, ops := EntryOf(b, id), R.BlockFor(b, id).ops;
    TxsAddUp(b.txs, id);
    TopFor(b.certs, id);
    R.BlockForValid(b, id);
    assert M.Inv(L.Of(l, id), |hist| - 1, net);
    assert M.Connect(L.Of(l, id), ops, e.cert, |hist|, net).Done?;
    hide Explained, Quiet, M.Connect, M.Inv, T.Connect, LedgerInv;
    ExplainedNext(L.Of(l, id), ops, hist, e, net);
  }

  /**
   * After any run of blocks the ledger says about every sidechain exactly what the blocks say: its
   * record is that of its one creation, each amount sent in is due at its height or has matured into
   * the balance, which withdrawals and the last certificate of each epoch have been taken from, and
   * the record holds the last certificate, the views and fees of the epochs, and the nullifiers used.
   */
  lemma {:induction false} RunExplained(blocks: seq<Block>, net: Net, id: ScId)
    requires ValidNet(net) && R.ValidBlocks(blocks) && R.Replay(blocks, net).Done?
    ensures Explained(L.Of(R.Replay(blocks, net).value, id), History(blocks, id), net) && Quiet(History(blocks, id))
  {
    hide Explained, Quiet, T.Connect, LedgerInv, EntryOf, L.Of;
    if blocks == [] {
      R.GenesisOf(id, net);
      GenesisExplained(net);
      assert History(blocks, id) == [];
    } else {
      var n := |blocks| - 1;
      assert blocks[n] in blocks && forall b :: b in blocks[..n] ==> b in blocks;
      RunExplained(blocks[..n], net, id);
      R.Reachable(blocks[..n], net);
      var l := R.Replay(blocks[..n], net).value;
      BlockExplained(l, blocks[n], History(blocks[..n], id), net, id);
      assert History(blocks, id) == History(blocks[..n], id) + [EntryOf(blocks[n], id)];
    }
  }

  lemma {:induction false} PartsNext(parts: seq<C.ScBlock>, p: C.ScBlock)
    ensures C.PaidIn(parts + [p]) == C.PaidIn(parts) + TallyOf(p.ops).paid
    ensures C.Withdrawn(parts + [p]) == C.Withdrawn(parts) + TallyOf(p.ops).withdrawn
    ensures C.Certs(parts + [p]) == C.Certs(parts) + if p.cert.Some? then [p.cert.value] else []
  {
    assert (parts + [p])[..|parts|] == parts;
  }

  lemma {:induction false} NoSums()
    ensures SentIn([]) == TookIn([]) == C.PaidIn([]) == C.Withdrawn([]) == 0 && CertsIn([]) == C.Certs([]) == []
  {
  }

  lemma {:induction false} HistorySums(blocks: seq<Block>, id: ScId)
    ensures var hist, parts := History(blocks, id), R.BlocksFor(blocks, id);
      && C.PaidIn(parts) == SentIn(hist) && C.Withdrawn(parts) == TookIn(hist) && C.Certs(parts) == CertsIn(hist)
  {
    hide SentIn, TookIn, CertsIn, C.PaidIn, C.Withdrawn, C.Certs, TallyOf, SheetIn, B.Top, B.CertFor;
    if blocks == [] {
      NoSums();
      assert History(blocks, id) == [] && R.BlocksFor(blocks, id) == [];
    } else {
      var n := |blocks| - 1;
      HistorySums(blocks[..n], id);
      var e, p := EntryOf(blocks[n], id), R.BlockFor(blocks[n], id);
      assert History(blocks, id) == History(blocks[..n], id) + [e];
      assert R.BlocksFor(blocks, id) == R.BlocksFor(blocks[..n], id) + [p];
      TxsAddUp(blocks[n].txs, id);
      TopFor(blocks[n].certs, id);
      SumsNext(History(blocks[..n], id), e);
      PartsNext(R.BlocksFor(blocks[..n], id), p);
    }
  }

  /**
   * Value is conserved for every sidechain over every run of blocks: what it holds is all that the
   * outputs of the blocks send to it, minus what their withdrawals take, minus the amount of the last
   * certificate of each epoch. Neither that nor its balance is ever negative.
   */
  lemma {:induction false} LedgerConservation(blocks: seq<Block>, net: Net, id: ScId)
    requires ValidNet(net) && R.ValidBlocks(blocks) && R.Replay(blocks, net).Done?
    ensures var s, hist := L.Of(R.Replay(blocks, net).value, id), History(blocks, id);
      && C.Holdings(s) == SentIn(hist) - TookIn(hist) - C.FinalAmounts(CertsIn(hist))
      && C.Holdings(s) >= 0 && (s.rec.Some? ==> s.rec.value.balance >= 0)
  {
    R.HoldingsTallied(blocks, net, id);
    HistorySums(blocks, id);
  }

  /** The height at which a sidechain ceases, in numbers. */
  function LastCall(sc: Sidechain): int {
    var length := sc.fixed.epochLength;
    sc.creationHeight + (sc.lastEpoch + 2) * length + (if length >= 10 then length / 5 else 2) - 1
  }

  lemma {:induction false} ListedExactly(s: ScState, n: nat, net: Net)
    requires M.Inv(s, n - 1, net)
    ensures s.maturing == Amounts(s.rec).Keys
    ensures s.rec.None? ==> s.ceasing == {}
    ensures s.rec.Some? ==> s.ceasing == if LastCall(s.rec.value) >= n then {LastCall(s.rec.value)} else {}
  {
    if s.rec.Some? {
      var sc := s.rec.value;
      assert CeasingHeight(sc) == LastCall(sc);
    }
  }

  /** The events listed are the amounts still maturing, and the ceasing height as long as it is ahead. */
  lemma {:induction false} RunScheduled(blocks: seq<Block>, net: Net, id: ScId)
    requires ValidNet(net) && R.ValidBlocks(blocks) && R.Replay(blocks, net).Done?
    ensures var l := R.Replay(blocks, net).value; var s := L.Of(l, id);
      && Maturing(l.events, id) == Amounts(s.rec).Keys
      && (s.rec.None? ==> Ceasing(l.events, id) == {})
      && (s.rec.Some? ==>
           Ceasing(l.events, id) == if LastCall(s.rec.value) >= |blocks| then {LastCall(s.rec.value)} else {})
  {
    R.Reachable(blocks, net);
    hide M.Inv, LastCall, R.Replay;
    ListedExactly(L.Of(R.Replay(blocks, net).value, id), |blocks|, net);
  }
}
