/** Records of the sidechain ledger (src/sc/sidechain.h, src/undo.h) and its epoch arithmetic. */
module SidechainTypes {
  import opened Outcomes

  /** A 256-bit hash as a number; the null hash is zero. */
  type Hash = nat

  const NULL_HASH: Hash := 0
  const EPOCH_NULL := -1
  const QUALITY_NULL := -1

  datatype CertView = CertView(ftFee: int, mbtrFee: int, dataHash: nat)

  const NULL_VIEW := CertView(-1, -1, 0)

  datatype FeeData = FeeData(ftFee: int, mbtrFee: int)

  /** Fixed creation parameters; everything but the epoch length is carried as an opaque payload. */
  datatype FixedParams = FixedParams(epochLength: int, payload: nat)

  datatype Sidechain = Sidechain(
    creationHeight: int,
    creationTx: Hash,
    pastView: CertView,
    lastView: CertView,
    lastHash: Hash,
    lastEpoch: int,
    lastQuality: int,
    lastBwtAmount: int,
    balance: int,
    fixed: FixedParams,
    immature: map<int, int>,
    fees: seq<FeeData>)

  /** Length of the certificate submission window. */
  function WindowLength(fixed: FixedParams): int {
    if fixed.epochLength / 5 > 2 then fixed.epochLength / 5 else 2
  }

  function StartHeight(sc: Sidechain, epoch: int): int {
    if sc.creationHeight == -1 then -1 else sc.creationHeight + epoch * sc.fixed.epochLength
  }

  function WindowStart(sc: Sidechain, epoch: int): int {
    if sc.creationHeight == -1 then -1 else StartHeight(sc, epoch + 1)
  }

  function WindowEnd(sc: Sidechain, epoch: int): int {
    if sc.creationHeight == -1 then -1 else WindowStart(sc, epoch) + WindowLength(sc.fixed) - 1
  }

  /** The height at which the sidechain ceases unless a certificate for the next epoch arrives. */
  function CeasingHeight(sc: Sidechain): int {
    WindowEnd(sc, sc.lastEpoch + 1)
  }

  /** Moving the last certified epoch by one moves the ceasing height by one epoch length. */
  lemma NextEpochCeasesLater(sc: Sidechain, next: Sidechain)
    requires sc.creationHeight >= 0
    requires next.creationHeight == sc.creationHeight && next.fixed == sc.fixed
    requires next.lastEpoch == sc.lastEpoch + 1
    ensures CeasingHeight(next) == CeasingHeight(sc) + sc.fixed.epochLength
  {
    assert (next.lastEpoch + 2) * sc.fixed.epochLength ==
      (sc.lastEpoch + 2) * sc.fixed.epochLength + sc.fixed.epochLength;
  }

  /** How many fee records are kept, given the number of blocks the fee check looks back over. */
  function MaxFees(feeBlocks: nat, epochLength: int): int
    requires epochLength > 0
  {
    var n := feeBlocks / epochLength;
    if n == 0 || feeBlocks % epochLength != 0 then n + 1 else n
  }

  /** The records kept cover the blocks looked back over, with none to spare. */
  lemma MaxFeesLeast(feeBlocks: nat, epochLength: int)
    requires epochLength > 0
    ensures var n := MaxFees(feeBlocks, epochLength);
      && n >= 1 && n * epochLength >= feeBlocks && (n > 1 ==> (n - 1) * epochLength < feeBlocks)
  {
    var q := feeBlocks / epochLength;
    assert q * epochLength + feeBlocks % epochLength == feeBlocks;
    assert (q + 1) * epochLength == q * epochLength + epochLength;
    assert (q - 1) * epochLength == q * epochLength - epochLength;
  }

  /** Appends to the circular fee buffer, dropping the oldest records once it is full. */
  function PushFee(fees: seq<FeeData>, fee: FeeData, limit: int): (r: seq<FeeData>)
    requires limit > 0
    ensures 0 < |r| && r[|r| - 1] == fee
    ensures |fees| <= limit ==> |r| <= limit
  {
    var all := fees + [fee];
    if |all| > limit then all[|all| - limit..] else all
  }

  function Amount(immature: map<int, int>, height: int): int {
    if height in immature then immature[height] else 0
  }

  /** Sum of all amounts of a height-indexed table. */
  ghost function Total(m: map<int, int>): int
    decreases |m|
  {
    if m.Keys == {} then 0
    else
      var k := Pick(m.Keys);
      m[k] + Total(m - {k})
  }

  /** Any key may be split off the total. */
  lemma {:induction false} TotalSplit(m: map<int, int>, k: int)
    requires k in m
    ensures Total(m) == m[k] + Total(m - {k})
    decreases |m|
  {
    var j := Pick(m.Keys);
    if j != k {
      TotalSplit(m - {j}, k);
      TotalSplit(m - {k}, j);
      assert m - {j} - {k} == m - {k} - {j};
    }
  }

  lemma TotalUpdate(m: map<int, int>, k: int, v: int)
    ensures Total(m[k := v]) == Total(m) - Amount(m, k) + v
  {
    TotalSplit(m[k := v], k);
    assert m[k := v] - {k} == m - {k};
    if k in m {
      TotalSplit(m, k);
    } else {
      assert m - {k} == m;
    }
  }
}
