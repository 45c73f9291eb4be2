/** The arithmetic behind shifts that move bits across limb boundaries. */
module LimbShifts {
  import opened Powers
  import opened LimbValues

  /** x << s in 32 bits. */
  function Shl(x: Limb, s: nat): (r: Limb) {
    ((x as int) * Pow2(s)) % BASE
  }

  /** x >> s. */
  function Shr(x: Limb, s: nat): (r: Limb) {
    DivNonNegative(x, Pow2(s));
    (x as int) / Pow2(s)
  }

  /** A 32-bit left shift drops exactly the bits that the matching right shift keeps. */
  lemma ShiftParts(x: Limb, s: nat)
    requires s <= 32
    ensures (x as int) * Pow2(s) == Shr(x, 32 - s) * BASE + Shl(x, s)
    ensures Shl(x, s) == ((x as int) % Pow2(32 - s)) * Pow2(s) && Shl(x, s) + Pow2(s) <= BASE
    ensures Shl(x, s) % Pow2(s) == 0 && Shr(x, 32 - s) < Pow2(s)
  {
    hide Pow2;
    var p, q := Pow2(s), Pow2(32 - s);
    BaseIsPow2();
    Pow2Add(s, 32 - s);
    DivMod(x, q);
    var h, l := (x as int) / q, (x as int) % q;
    MulAssoc(h, q, p);
    AddColumn(h * q, l, p);
    MulMono(l + 1, q, p);
    AddColumn(l, 1, p);
    MulMono(0, l, p);
    DivUnique((x as int) * p, h, l * p, BASE);
    DivUnique(l * p, l, 0, p);
    if h >= p {
      MulMono(p, h, q);
    }
  }

  /** The low limb of a shifted column meets only bits that the column below left free. */
  lemma OrColumn(c: nat, x: Limb, s: nat)
    requires s <= 32 && c < Pow2(s)
    ensures Or(c, Shl(x, s)) == c + Shl(x, s) < BASE && Or(Shl(x, s), c) == c + Shl(x, s)
  {
    ShiftParts(x, s);
    OrDisjoint(c, Shl(x, s), s);
  }

  /** One column of a left shift. */
  lemma LeftStep(v: int, c: int, x: Limb, s: nat, w: int, p: int, q: int)
    requires s <= 32 && v + c * (p * q) == Pow2(s) * w * q
    ensures v + (c + Shl(x, s)) * (p * q) + Shr(x, 32 - s) * (BASE * (p * q)) == Pow2(s) * (w + x * p) * q
  {
    hide Pow2;
    ShiftParts(x, s);
    var h, l, y: int, t := Shr(x, 32 - s), Shl(x, s), x, Pow2(s);
    AddColumn(c, l, p * q);
    MulAssoc(h, BASE, p * q);
    AddColumn(h * BASE, l, p * q);
    assert (y * t) * (p * q) == t * (y * p) * q by {
      MulAssoc(y * t, p, q);
      MulAssoc(y, t, p);
      MulAssoc(t, y, p);
      assert y * t == t * y;
    }
    assert t * (w + y * p) == t * w + t * (y * p);
    AddColumn(t * w, t * (y * p), q);
  }

  /** The limbs shifted out of the top are multiples of 2^256. */
  lemma LeftDone(v: nat, c: int, a: seq<Limb>, m: nat, k: nat, s: nat)
    requires m + k == |a| && v < PowB(|a|) && v + c * PowB(|a|) == Pow2(s) * Value(a[..m]) * PowB(k)
    ensures v == (Value(a) * Pow2(32 * k + s)) % PowB(|a|)
  {
    hide Value, PowB, Pow2;
    var low, top, t, q := Value(a[..m]), Value(a[m..]), Pow2(s), PowB(k);
    assert a == a[..m] + a[m..];
    ValueSplit(a[..m], a[m..]);
    PowBAdd(m, k);
    PowBIsPow2(k);
    Pow2Add(s, 32 * k);
    assert Value(a) * (t * q) == t * low * q + (t * top) * (PowB(m) * q) by {
      OverTop(low, top, PowB(m), t, q);
    }
    AddColumn(c, t * top, PowB(|a|));
    Wraps(v, c + t * top, Value(a) * Pow2(32 * k + s), |a|);
  }

  lemma OverTop(low: int, top: int, p: int, t: int, q: int)
    ensures (low + p * top) * (t * q) == t * low * q + (t * top) * (p * q)
  {
    AddColumn(low, p * top, t * q);
    MulAssoc(low, t, q);
    assert low * t == t * low;
    Regroup(t, top, p, q);
    Regroup(p, top, t, q);
    assert p * t == t * p;
  }

  /** Shifting by the whole width or more leaves nothing. */
  lemma LeftGone(a: nat, n: nat, k: nat, s: nat)
    requires k >= n
    ensures (a * Pow2(32 * k + s)) % PowB(n) == 0
  {
    hide PowB, Pow2;
    PowBIsPow2(n);
    var d := 32 * (k - n) + s;
    Pow2Add(32 * n, d);
    MulAssoc(a, Pow2(d), PowB(n));
    assert PowB(n) * Pow2(d) == Pow2(d) * PowB(n);
    AddMultiple(0, a * Pow2(d), PowB(n));
    DivUnique(0, 0, 0, PowB(n));
  }

  /** One column of a right shift: bits of x go to the limb below, the rest stay. */
  lemma RightStep(a: nat, x: Limb, s: nat, n: nat)
    requires s < 32 && n >= 1
    ensures (a + x * PowB(n)) / Pow2(s) == a / Pow2(s) + Shl(x, 32 - s) * PowB(n - 1) + Shr(x, s) * PowB(n)
  {
    hide PowB, Pow2;
    var p, q, r, y: int := Pow2(s), Pow2(32 - s), PowB(n - 1), x;
    ShiftParts(x, 32 - s);
    BaseIsPow2();
    Pow2Add(s, 32 - s);
    BaseTimes(n);
    var h, l := Shr(x, s), Shl(x, 32 - s);
    assert y * (BASE * r) == (h * (BASE * r) + l * r) * p by {
      MulAssoc(y, q, p * r);
      MulAssoc(q, p, r);
      assert q * p == p * q;
      AddColumn(h * BASE, l, p * r);
      MulAssoc(h * BASE, p, r);
      MulAssoc(h, BASE, r);
      AddColumn(h * (BASE * r), l * r, p);
      Swap(h * BASE, p, r);
      Swap(l, p, r);
    }
    AddMultiple(a, h * (BASE * r) + l * r, p);
  }

  lemma Swap(a: int, p: int, r: int)
    ensures a * (p * r) == a * r * p
  {
    assert p * r == r * p;
    MulAssoc(a, r, p);
  }

  lemma BaseTimes(n: nat)
    requires n >= 1
    ensures PowB(n) == BASE * PowB(n - 1)
  {
  }

  /** Dropping k limbs and then s bits is one division. */
  lemma RightDone(a: seq<Limb>, k: nat, s: nat)
    ensures Value(a) / Pow2(32 * k + s) == if k <= |a| then Value(a[k..]) / Pow2(s) else 0
  {
    hide Value, PowB, Pow2;
    PowBIsPow2(k);
    Pow2Add(32 * k, s);
    if k <= |a| {
      assert a == a[..k] + a[k..];
      ValueSplit(a[..k], a[k..]);
      ValueBound(a[..k]);
      assert PowB(k) * Value(a[k..]) == Value(a[k..]) * PowB(k);
      DivUnique(Value(a), Value(a[k..]), Value(a[..k]), PowB(k));
      DivDiv(Value(a), PowB(k), Pow2(s));
    } else {
      ValueBound(a);
      PowBIsPow2(|a|);
      Pow2Mono(32 * |a|, 32 * k + s);
      DivUnique(Value(a), 0, Value(a), Pow2(32 * k + s));
    }
  }
}
