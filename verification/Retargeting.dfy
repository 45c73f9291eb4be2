/** Proof-of-work targets (src/pow.cpp): block proofs and the next target over an averaging window. */
module Retargeting {
  import opened Powers
  import opened LimbValues
  import opened BaseUint
  import opened CompactTargets
  import opened BlockIndexes

  method Number(v: nat) returns (x: BaseUint)
    requires v < BASE * BASE
    ensures fresh(x) && fresh(x.pn) && x.pn.Length == 8 && x.Val() == v
  {
    x := new BaseUint(8);
    x.Set(v);
  }

  /** The expected number of hashes for a block: 2^256 / (target + 1), or zero for a target out of range. */
  method GetBlockProof(nBits: Uint32) returns (proof: BaseUint)
    ensures fresh(proof) && fresh(proof.pn) && proof.pn.Length == 8
    ensures var t := Decoded(nBits);
      proof.Val() == if t == 0 || Sign(nBits) || t >= PowB(8) then 0 else PowB(8) / (t + 1)
  {
    hide Pow2, PowB, Value, Decoded;
    var target := new BaseUint(8);
    var negative, overflow := SetCompact(target, nBits);
    var zero := Number(0);
    var isZero := target.CompareTo(zero);
    if negative || overflow || isZero == 0 {
      TargetFits(nBits);
      return zero;
    }
    var one := Number(1);
    ghost var t := target.Val();
    TargetFits(nBits);
    ProofFits(t, PowB(8));
    proof := target.Complement();
    target.Add(one);
    var ok := proof.Div(target);
    proof.Add(one);
  }

  /** A target that fits is never 2^256 - 1, so its successor does not wrap. */
  lemma TargetFits(nBits: Uint32)
    ensures Decoded(nBits) < PowB(8) ==> Decoded(nBits) % PowB(8) == Decoded(nBits) < PowB(8) - 1
  {
    hide Pow2, PowB;
    var s, m := Size(nBits), Mantissa(nBits);
    var d := Decoded(nBits);
    if d < PowB(8) {
      DivUnique(d, 0, d, PowB(8));
      if s <= 3 {
        SmallMeaning(s, m);
        BigWidth();
      } else {
        Pow2Half(8 * (s - 3));
        Pow2Half(256);
        Width256();
        var h := Pow2(8 * (s - 3) - 1);
        assert m * (2 * h) == 2 * (m * h);
      }
    }
  }

  lemma BigWidth()
    ensures PowB(8) > 0x100_0000
  {
    Width256();
    PowersOfByte();
    Pow2Strict(24, 256);
  }

  lemma Pow2Half(k: nat)
    requires k > 0
    ensures Pow2(k) == 2 * Pow2(k - 1)
  {
  }

  /** ~t / (t + 1) + 1 is the quotient of the whole range, without wrapping. */
  lemma ProofFits(t: nat, n: nat)
    requires 0 < t < n - 1
    ensures (t + 1) % n == t + 1 && (n - 1 - t) / (t + 1) + 1 == n / (t + 1)
    ensures ((n - 1 - t) / (t + 1) + 1) % n == n / (t + 1)
  {
    DivUnique(t + 1, 0, t + 1, n);
    AddMultiple(n - 1 - t, 1, t + 1);
    var q := n / (t + 1);
    DivMod(n, t + 1);
    DivNonNegative(n, t + 1);
    assert q * (t + 1) == q * t + q;
    MulMono(1, t, q);
    assert t * q == q * t;
    DivUnique(q, 0, q, n);
  }

  // ---------- Consensus parameters ----------

  datatype PowParams = PowParams(limit: nat, window: nat, down: nat, up: nat, spacing: nat) {
    function Timespan(): nat {
      window * spacing
    }

    function MinTimespan(): int {
      (Timespan() * (100 - up)) / 100
    }

    function MaxTimespan(): int {
      (Timespan() * (100 + down)) / 100
    }

    /** What src/chainparams.cpp asserts of the limit, and ranges that keep the timespans in 32 bits. */
    ghost predicate Valid() {
      && window >= 1
      && spacing >= 1
      && up <= 100
      && 0 < limit < PowB(8)
      && (PowB(8) - 1) / limit >= window
      && 100 + down <= 100 * window
      && Timespan() * (100 + down) < BASE
    }
  }

  const MAIN := PowParams(0x0007_ffff_ffff_ffff_ffff_ffff_ffff_ffff_ffff_ffff_ffff_ffff_ffff_ffff_ffff_ffff, 17, 32,
    16, 150)
  const TESTNET := PowParams(0x07ff_ffff_ffff_ffff_ffff_ffff_ffff_ffff_ffff_ffff_ffff_ffff_ffff_ffff_ffff_ffff, 17, 32,
    16, 150)
  const REGTEST := PowParams(0x0f0f_0f0f_0f0f_0f0f_0f0f_0f0f_0f0f_0f0f_0f0f_0f0f_0f0f_0f0f_0f0f_0f0f_0f0f_0f0f, 17, 0,
    0, 150)

  lemma NetworksValid()
    ensures MAIN.Valid() && TESTNET.Valid() && REGTEST.Valid()
  {
    assert PowB(8) == 0x1_0000_0000_0000_0000_0000_0000_0000_0000_0000_0000_0000_0000_0000_0000_0000_0000;
  }

  // ---------- One retarget ----------

  /** C++ division: toward zero. */
  function TruncDiv(x: int, n: nat): int
    requires n > 0
  {
    if x >= 0 then x / n else -((-x) / n)
  }

  /** The timespan after dampening and clamping. */
  function Clamped(span: int, p: PowParams): int {
    var damped := p.Timespan() + TruncDiv(span - p.Timespan(), 4);
    if damped < p.MinTimespan() then p.MinTimespan() else if damped > p.MaxTimespan() then p.MaxTimespan() else damped
  }

  /** The next target in plain arithmetic. */
  ghost function Retargeted(avg: nat, span: int, p: PowParams): int
    requires p.Timespan() > 0
  {
    var t := (avg / p.Timespan()) * Clamped(span, p);
    if t > p.limit then p.limit else t
  }

  lemma ClampBounds(span: int, p: PowParams)
    requires p.Valid()
    ensures 0 <= p.MinTimespan() <= p.Timespan() <= p.MaxTimespan() < BASE && p.Timespan() >= 1
    ensures p.MinTimespan() <= Clamped(span, p) <= p.MaxTimespan()
  {
    hide PowB;
    var t := p.Timespan();
    MulAtLeast(p.window, p.spacing);
    MulMono(0, 100 - p.up, t);
    MulMono(100 - p.up, 100, t);
    MulMono(100, 100 + p.down, t);
    assert t * (100 - p.up) == (100 - p.up) * t && t * (100 + p.down) == (100 + p.down) * t;
  }

  /**
   * Before the clamps a quarter of the deviation is taken, rounded toward the plain timespan; a
   * later end never gives a shorter one.
   */
  lemma DampedMeaning(span: int, later: int, p: PowParams)
    requires p.Valid() && span <= later
    ensures var t, c := p.Timespan(), Clamped(span, p);
      && (span >= t && c < p.MaxTimespan() ==> 4 * (c - t) <= span - t < 4 * (c - t) + 4)
      && (span <= t && c > p.MinTimespan() ==> 4 * (t - c) <= t - span < 4 * (t - c) + 4)
    ensures Clamped(span, p) <= Clamped(later, p)
  {
    hide PowB;
    ClampBounds(span, p);
    ClampBounds(later, p);
  }

  /** A quarter of the deviation from the planned span, rounded toward it. */
  ghost predicate Quartered(planned: int, span: int, damped: int) {
    if span >= planned then 4 * (damped - planned) <= span - planned < 4 * (damped - planned) + 4
    else 4 * (planned - damped) <= planned - span < 4 * (planned - damped) + 4
  }

  /** Whole seconds of so many percent. */
  ghost predicate Percent(planned: int, percent: int, r: int) {
    100 * r <= planned * percent < 100 * r + 100
  }

  ghost predicate Between(least: int, most: int, damped: int, c: int) {
    c == if damped < least then least else if damped > most then most else damped
  }

  /**
   * The span that counts for a window of `window` blocks planned `spacing` seconds apart: the damped
   * one, but no less than `up` percent below the planned one and no more than `down` percent above.
   */
  ghost predicate Counts(p: PowParams, span: int, c: int) {
    var planned, low, high := p.window * p.spacing, 100 - p.up, 100 + p.down;
    exists damped, least, most :: Quartered(planned, span, damped) && Percent(planned, low, least)
      && Percent(planned, high, most) && Between(least, most, damped, c)
  }

  /** There is exactly one, and it is the one used. */
  lemma CountsExactly(p: PowParams, span: int, c: int)
    ensures Counts(p, span, c) <==> c == Clamped(span, p)
  {
    var planned, low, high := p.window * p.spacing, 100 - p.up, 100 + p.down;
    var damped, least, most := planned + TruncDiv(span - planned, 4), p.MinTimespan(), p.MaxTimespan();
    assert Quartered(planned, span, damped) && Percent(planned, low, least) && Percent(planned, high, most);
    assert Between(least, most, damped, Clamped(span, p));
    if Counts(p, span, c) {
      var d, l, m :| Quartered(planned, span, d) && Percent(planned, low, l) && Percent(planned, high, m)
        && Between(l, m, d, c);
      assert d == damped && l == least && m == most;
    }
  }

  /** With an average within the limit the product never reaches 2^256. */
  lemma NoWrap(avg: nat, span: int, p: PowParams)
    requires p.Valid() && avg <= p.limit
    ensures p.Timespan() >= 1 && 0 <= (avg / p.Timespan()) * Clamped(span, p) < PowB(8)
    ensures 100 * ((avg / p.Timespan()) * Clamped(span, p)) <= avg * (100 + p.down)
  {
    hide PowB, Clamped;
    ClampBounds(span, p);
    var t, c, d := p.Timespan(), Clamped(span, p), 100 + p.down;
    var q := avg / t;
    DivMod(avg, t);
    DivNonNegative(avg, t);
    MulMono(0, q, c);
    ScaledMost(q, c, t, d, avg);
    WindowFits(p);
    ScaledFits(avg, d, p.limit, p.window);
  }

  lemma ScaledFits(avg: nat, d: nat, limit: nat, w: nat)
    requires avg <= limit && d <= 100 * w
    ensures avg * d <= 100 * (limit * w)
  {
    MulMono(d, 100 * w, avg);
    MulMono(avg, limit, w);
    assert avg * d == d * avg && (100 * w) * avg == 100 * (avg * w);
  }

  lemma ScaledMost(q: nat, c: nat, t: nat, d: nat, avg: nat)
    requires 100 * c <= t * d && q * t <= avg
    ensures 100 * (q * c) <= avg * d
  {
    MulMono(100 * c, t * d, q);
    assert (100 * c) * q == 100 * (q * c);
    assert (t * d) * q == (q * t) * d by {
      MulAssoc(q, t, d);
    }
    MulMono(q * t, avg, d);
  }

  /** The assertion in src/chainparams.cpp leaves room for the whole window. */
  lemma WindowFits(p: PowParams)
    requires p.Valid()
    ensures p.limit * p.window < PowB(8)
  {
    hide PowB;
    DivMod(PowB(8) - 1, p.limit);
    MulMono(p.window, (PowB(8) - 1) / p.limit, p.limit);
    assert p.window * p.limit == p.limit * p.window;
  }

  /** The next target stays within the clamps and the limit. */
  lemma RetargetBounds(avg: nat, span: int, p: PowParams)
    requires p.Valid() && avg <= p.limit
    ensures p.Timespan() >= 1
    ensures 0 <= Retargeted(avg, span, p) <= p.limit && 100 * Retargeted(avg, span, p) <= avg * (100 + p.down)
    ensures Retargeted(avg, span, p) == p.limit || Retargeted(avg, span, p) >= (avg / p.Timespan()) * p.MinTimespan()
  {
    hide PowB, Clamped;
    NoWrap(avg, span, p);
    ClampBounds(span, p);
    var q, c, m := avg / p.Timespan(), Clamped(span, p), p.MinTimespan();
    DivNonNegative(avg, p.Timespan());
    MulMono(m, c, q);
    assert c * q == q * c && m * q == q * m;
  }

  /** The next target as 256-bit words compute it. */
  ghost function MachineTarget(avg: nat, span: int, p: PowParams): (r: nat)
    requires p.Timespan() > 0
  {
    var t := ((avg / p.Timespan()) * Clamped(span, p)) % PowB(8);
    if t > p.limit then p.limit else t
  }

  lemma TargetExact(avg: nat, span: int, p: PowParams)
    requires p.Valid() && avg <= p.limit
    ensures p.Timespan() >= 1 && MachineTarget(avg, span, p) == Retargeted(avg, span, p)
  {
    hide PowB, Clamped;
    NoWrap(avg, span, p);
    var t := (avg / p.Timespan()) * Clamped(span, p);
    DivUnique(t, 0, t, PowB(8));
  }

  function Least(a: nat, b: nat): nat {
    if a <= b then a else b
  }

  /** The next target, from the average target and the span that counts. */
  ghost predicate IsNext(p: PowParams, avg: nat, span: int, target: nat) {
    var planned := p.window * p.spacing;
    planned > 0 && exists c: nat :: Counts(p, span, c) && target == Scaled(avg, planned, c, p.limit)
  }

  ghost function Scaled(avg: nat, planned: nat, c: nat, limit: nat): nat
    requires planned > 0
  {
    DivNonNegative(avg, planned);
    MulMono(0, avg / planned, c);
    Least(limit, avg / planned * c)
  }

  lemma NextIs(avg: nat, span: int, p: PowParams)
    requires p.Valid() && avg <= p.limit
    ensures p.Timespan() >= 1 && IsNext(p, avg, span, MachineTarget(avg, span, p))
  {
    hide PowB, Clamped, Counts;
    ClampBounds(span, p);
    CountsExactly(p, span, Clamped(span, p));
    TargetExact(avg, span, p);
    assert Scaled(avg, p.Timespan(), Clamped(span, p), p.limit) == Retargeted(avg, span, p);
  }

  method Damped(last: int, first: int, p: PowParams) returns (span: int)
    ensures span == Clamped(last - first, p)
  {
    span := last - first;
    span := p.Timespan() + TruncDiv(span - p.Timespan(), 4);
    if span < p.MinTimespan() {
      span := p.MinTimespan();
    }
    if span > p.MaxTimespan() {
      span := p.MaxTimespan();
    }
  }

  method CalculateNextWorkRequired(avg: BaseUint, last: int, first: int, p: PowParams, limit: BaseUint)
    returns (n: Uint32)
    requires avg.pn.Length == 8 == limit.pn.Length && p.Valid() && limit.Val() == p.limit
    ensures p.Timespan() >= 1 && n == Encoded(MachineTarget(avg.Val(), last - first, p))
    ensures avg.Val() <= p.limit ==>
      exists target: nat :: IsNext(p, avg.Val(), last - first, target) && n == Encoded(target)
  {
    hide PowB, Pow2, Value, Encoded, Decoded, Sign, Clamped, IsNext;
    ClampBounds(last - first, p);
    if avg.Val() <= p.limit {
      NextIs(avg.Val(), last - first, p);
    }
    var span := Damped(last, first, p);
    var next := new BaseUint.Copy(avg);
    var t := Number(p.Timespan());
    var ok := next.Div(t);
    assert span * next.Val() == next.Val() * span;
    next.MulLimb(span);
    var c := next.CompareTo(limit);
    if c > 0 {
      n := GetCompact(limit, false);
    } else {
      n := GetCompact(next, false);
    }
  }

  // ---------- The averaging window ----------

  /** The block n parents back. */
  ghost function Back(b: BlockIndex?, n: nat): BlockIndex? {
    if n == 0 || b == null then b else Back(b.pprev, n - 1)
  }

  /** The sum of the targets of a block and its parents, n blocks in all. */
  ghost function WindowSum(b: BlockIndex?, n: nat): nat {
    if n == 0 || b == null then 0 else Decoded(b.nBits) % PowB(8) + WindowSum(b.pprev, n - 1)
  }

  lemma {:induction false} OneFurther(b: BlockIndex?, n: nat)
    ensures var e := Back(b, n);
      && Back(b, n + 1) == (if e == null then null else e.pprev)
      && WindowSum(b, n + 1) == WindowSum(b, n) + if e == null then 0 else Decoded(e.nBits) % PowB(8)
  {
    if n > 0 && b != null {
      OneFurther(b.pprev, n - 1);
    }
  }

  lemma SumStep(a: int, b: int, m: nat)
    requires m >= 1
    ensures (a % m + b) % m == (a + b) % m
  {
    DivMod(a, m);
    AddMultiple(a % m + b, a / m, m);
  }

  /** The next target over a window, in plain arithmetic; the limit while the chain is shorter. */
  ghost function NextTarget(last: BlockIndex?, medianTime: BlockIndex -> int, p: PowParams): int
    requires p.window >= 1 && p.Timespan() > 0
  {
    var first := Back(last, p.window);
    if last == null || first == null then p.limit
    else Retargeted(WindowSum(last, p.window) / p.window, medianTime(last) - medianTime(first), p)
  }

  /** The same as 256-bit words compute it. */
  ghost function MachineNext(last: BlockIndex?, medianTime: BlockIndex -> int, p: PowParams): (r: nat)
    requires p.window >= 1 && p.Timespan() > 0
  {
    var first := Back(last, p.window);
    if last == null || first == null then p.limit
    else
      DivMod(WindowSum(last, p.window), PowB(8));
      DivNonNegative(WindowSum(last, p.window) % PowB(8), p.window);
      MachineTarget(WindowSum(last, p.window) % PowB(8) / p.window, medianTime(last) - medianTime(first), p)
  }

  /** Every target of the window is within the limit, and did not wrap. */
  ghost predicate WithinLimit(b: BlockIndex?, n: nat, limit: nat) {
    n == 0 || b == null || (Decoded(b.nBits) <= limit && WithinLimit(b.pprev, n - 1, limit))
  }

  lemma {:induction false} SumBound(b: BlockIndex?, n: nat, limit: nat)
    requires WithinLimit(b, n, limit) && limit < PowB(8)
    ensures 0 <= WindowSum(b, n) <= limit * n
  {
    hide PowB, Decoded;
    if n > 0 && b != null {
      SumBound(b.pprev, n - 1, limit);
      DivUnique(Decoded(b.nBits), 0, Decoded(b.nBits), PowB(8));
      assert limit * n == limit * (n - 1) + limit;
    } else {
      MulMono(0, limit, n);
    }
  }

  lemma AverageBound(sum: nat, n: nat, limit: nat)
    requires n >= 1 && sum <= limit * n
    ensures 0 <= sum / n <= limit
  {
    DivMono(sum, limit * n, n);
    DivUnique(limit * n, limit, 0, n);
    DivNonNegative(sum, n);
  }

  method GetNextWorkRequired(last: BlockIndex?, medianTime: BlockIndex -> int, p: PowParams, limit: BaseUint)
    returns (n: Uint32)
    requires p.Valid() && limit.pn.Length == 8 && limit.Val() == p.limit
    ensures p.Timespan() >= 1 && n == Encoded(MachineNext(last, medianTime, p))
  {
    hide PowB, Pow2, Value, Encoded, MachineTarget, Decoded, Sign;
    ClampBounds(0, p);
    var nLimit := GetCompact(limit, false);
    if last == null {
      return nLimit;
    }
    var first: BlockIndex? := last;
    var tot := new BaseUint(8);
    var i := 0;
    DivUnique(0, 0, 0, PowB(8));
    while first != null && i < p.window
      invariant 0 <= i <= p.window && first == Back(last, i)
      invariant fresh(tot) && fresh(tot.pn) && tot.pn.Length == 8
      invariant tot.Val() == WindowSum(last, i) % PowB(8)
    {
      var tmp := new BaseUint(8);
      var _, _ := SetCompact(tmp, first.nBits);
      OneFurther(last, i);
      SumStep(WindowSum(last, i), Decoded(first.nBits) % PowB(8), PowB(8));
      tot.Add(tmp);
      first := first.pprev;
      i := i + 1;
    }
    if first == null {
      Ended(last, i, p.window);
      return nLimit;
    }
    var w := Number(p.window);
    var ok := tot.Div(w);
    n := CalculateNextWorkRequired(tot, medianTime(last), medianTime(first), p, limit);
  }

  lemma {:induction false} Ended(b: BlockIndex?, i: nat, n: nat)
    requires i <= n && Back(b, i) == null
    ensures Back(b, n) == null
    decreases n - i
  {
    if i < n {
      OneFurther(b, i);
      Ended(b, i + 1, n);
    }
  }

  /** The window's sum does not wrap, and its average is within the limit. */
  lemma WindowAverage(last: BlockIndex?, p: PowParams)
    requires p.Valid() && WithinLimit(last, p.window, p.limit)
    ensures 0 <= WindowSum(last, p.window) % PowB(8) == WindowSum(last, p.window) < PowB(8)
    ensures 0 <= WindowSum(last, p.window) / p.window <= p.limit
  {
    hide PowB, WindowSum, WithinLimit;
    SumBound(last, p.window, p.limit);
    WindowFits(p);
    DivUnique(WindowSum(last, p.window), 0, WindowSum(last, p.window), PowB(8));
    AverageBound(WindowSum(last, p.window), p.window, p.limit);
  }

  /** A window within the limit: nothing wraps, and the next target is within the limit too. */
  lemma NextExact(last: BlockIndex?, medianTime: BlockIndex -> int, p: PowParams)
    requires p.Valid() && p.Timespan() > 0 && WithinLimit(last, p.window, p.limit)
    ensures MachineNext(last, medianTime, p) == NextTarget(last, medianTime, p) <= p.limit
    ensures Compacted(MachineNext(last, medianTime, p)) <= p.limit
  {
    hide PowB, Compacted, Retargeted, MachineTarget, WithinLimit, WindowSum;
    var first := Back(last, p.window);
    if last != null && first != null {
      var avg, span := WindowSum(last, p.window) / p.window, medianTime(last) - medianTime(first);
      WindowAverage(last, p);
      RetargetBounds(avg, span, p);
      TargetExact(avg, span, p);
    }
    CompactedBelow(MachineNext(last, medianTime, p));
  }

  /** A block, its parent, the parent's parent and so on. */
  ghost predicate IsBranch(branch: seq<BlockIndex>) {
    forall i :: 0 <= i < |branch| - 1 ==> branch[i].pprev == branch[i + 1]
  }

  ghost function TargetSum(branch: seq<BlockIndex>): nat {
    if branch == [] then 0 else TargetSum(branch[..|branch| - 1]) + Decoded(branch[|branch| - 1].nBits)
  }

  ghost function Average(branch: seq<BlockIndex>): nat
    requires branch != []
  {
    DivNonNegative(TargetSum(branch), |branch|);
    TargetSum(branch) / |branch|
  }

  lemma {:induction false} BackIs(branch: seq<BlockIndex>, i: nat)
    requires IsBranch(branch) && i < |branch|
    ensures Back(branch[0], i) == branch[i]
  {
    if i > 0 {
      BackIs(branch, i - 1);
      OneFurther(branch[0], i - 1);
    }
  }

  lemma {:induction false} SumIs(branch: seq<BlockIndex>, n: nat, p: PowParams)
    requires IsBranch(branch) && 0 < |branch| && n <= |branch| && p.Valid() && WithinLimit(branch[0], n, p.limit)
    ensures WindowSum(branch[0], n) == TargetSum(branch[..n])
  {
    if n > 0 {
      WithinLess(branch[0], n - 1, p.limit);
      SumIs(branch, n - 1, p);
      BackIs(branch, n - 1);
      OneFurther(branch[0], n - 1);
      WithinAt(branch[0], n - 1, p.limit);
      DivUnique(Decoded(branch[n - 1].nBits), 0, Decoded(branch[n - 1].nBits), PowB(8));
      assert branch[..n][..n - 1] == branch[..n - 1];
    }
  }

  lemma {:induction false} WithinLess(b: BlockIndex?, n: nat, limit: nat)
    requires WithinLimit(b, n + 1, limit)
    ensures WithinLimit(b, n, limit)
  {
    if n > 0 && b != null {
      WithinLess(b.pprev, n - 1, limit);
    }
  }

  lemma {:induction false} WithinAt(b: BlockIndex?, n: nat, limit: nat)
    requires WithinLimit(b, n + 1, limit) && Back(b, n) != null
    ensures Decoded(Back(b, n).nBits) <= limit
  {
    if n > 0 && b != null {
      WithinAt(b.pprev, n - 1, limit);
    }
  }

  /**
   * The rule in full, on a branch whose blocks kept the limit: the average target of the last
   * `window` blocks, scaled by the span that counts between the last block and the one before them.
   */
  lemma NextInFull(branch: seq<BlockIndex>, medianTime: BlockIndex -> int, p: PowParams)
    requires p.Valid() && p.Timespan() > 0 && IsBranch(branch) && |branch| == p.window + 1
    requires WithinLimit(branch[0], p.window, p.limit)
    ensures IsNext(p, Average(branch[..p.window]), medianTime(branch[0]) - medianTime(branch[p.window]),
                   MachineNext(branch[0], medianTime, p))
  {
    hide PowB, IsNext, MachineTarget, Decoded, WindowSum, WithinLimit, TargetSum;
    BackIs(branch, p.window);
    SumIs(branch, p.window, p);
    WindowAverage(branch[0], p);
    NextIs(WindowSum(branch[0], p.window) / p.window, medianTime(branch[0]) - medianTime(branch[p.window]), p);
  }

  /** While there are not enough blocks the target is the limit. */
  lemma ShortBranch(branch: seq<BlockIndex>, medianTime: BlockIndex -> int, p: PowParams)
    requires p.Valid() && p.Timespan() > 0 && IsBranch(branch) && 0 < |branch| <= p.window
    requires branch[|branch| - 1].pprev == null
    ensures MachineNext(branch[0], medianTime, p) == MachineNext(null, medianTime, p) == p.limit
  {
    hide PowB, MachineTarget, WindowSum;
    BackIs(branch, |branch| - 1);
    OneFurther(branch[0], |branch| - 1);
    Ended(branch[0], |branch|, p.window);
  }

  // ---------- Whole chains ----------

  /** Every block of the branch carries the bits that the rule gives for its parents. */
  ghost predicate Follows(b: BlockIndex?, medianTime: BlockIndex -> int, p: PowParams)
    requires p.window >= 1 && p.Timespan() > 0
    decreases if b == null then 0 else b.nHeight + 1
  {
    b == null ||
    (b.Rooted() && b.nBits == Encoded(MachineNext(b.pprev, medianTime, p)) && Follows(b.pprev, medianTime, p))
  }

  /** On a branch that follows the rule no target ever exceeds the limit. */
  lemma {:induction false} LimitKept(b: BlockIndex?, medianTime: BlockIndex -> int, p: PowParams, n: nat)
    requires p.Valid() && p.Timespan() > 0 && Follows(b, medianTime, p)
    ensures WithinLimit(b, n, p.limit)
    decreases if b == null then 0 else b.nHeight + 1, n
  {
    hide PowB, Decoded, Encoded, MachineNext, NextTarget;
    if n > 0 && b != null {
      LimitKept(b.pprev, medianTime, p, n - 1);
      LimitKept(b.pprev, medianTime, p, p.window);
      NextExact(b.pprev, medianTime, p);
      CompactedMeans(MachineNext(b.pprev, medianTime, p));
    }
  }

  lemma CompactedMeans(v: nat)
    ensures Encoded(v) >= 0 && Compacted(v) == Decoded(Encoded(v))
  {
    MantissaBounds(v);
  }

  /** So along the whole branch the words compute the plain rule, with no wrap-around anywhere. */
  lemma RetargetsExactly(b: BlockIndex?, medianTime: BlockIndex -> int, p: PowParams)
    requires p.Valid() && p.Timespan() > 0 && Follows(b, medianTime, p)
    ensures MachineNext(b, medianTime, p) == NextTarget(b, medianTime, p) <= p.limit
  {
    LimitKept(b, medianTime, p, p.window);
    NextExact(b, medianTime, p);
  }
}
