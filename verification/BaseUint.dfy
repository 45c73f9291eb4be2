/** base_uint (src/arith_uint256.h, src/arith_uint256.cpp): limb arithmetic in place. */
module BaseUint {
  import opened Outcomes
  import opened Powers
  import opened LimbValues
  import opened LimbShifts

  /** One column of a schoolbook sum: the low limb stays, the rest is carried. */
  lemma CarryStep(v: int, carry: int, x: int, p: nat, total: int)
    requires v + carry * p == total
    ensures var n := carry + x; v + (n % BASE) * p + (n / BASE) * (BASE * p) == total + x * p
  {
    var n := carry + x;
    DivMod(n, BASE);
    MulAssoc(n / BASE, BASE, p);
    assert n * p == ((n / BASE) * BASE + n % BASE) * p == (n / BASE) * BASE * p + (n % BASE) * p;
    assert n * p == carry * p + x * p;
  }

  class BaseUint {
    const pn: array<Limb>

    ghost function Val(): nat
      reads pn
    {
      Value(pn[..])
    }

    constructor (width: nat)
      ensures fresh(pn) && pn.Length == width && Val() == 0
    {
      pn := new Limb[width](_ => 0);
      new;
      ValueZero(pn[..]);
    }

    constructor Copy(b: BaseUint)
      ensures fresh(pn) && pn.Length == b.pn.Length && pn[..] == b.pn[..]
    {
      var limbs := b.pn[..];
      pn := new Limb[|limbs|](i requires 0 <= i < |limbs| => limbs[i]);
    }

    /** operator=(uint64_t). */
    method Set(b: nat)
      requires pn.Length >= 2 && b < BASE * BASE
      modifies pn
      ensures Val() == b
    {
      DivMod(b, BASE);
      DivNonNegative(b, BASE);
      for i := 0 to pn.Length
        invariant forall k :: 0 <= k < i ==> pn[k] == if k == 0 then b % BASE else if k == 1 then b / BASE else 0
      {
        pn[i] := if i == 0 then b % BASE else if i == 1 then b / BASE else 0;
      }
      LowLimbs(pn[..], b % BASE, b / BASE);
    }

    method Add(b: BaseUint)
      requires pn.Length == b.pn.Length
      modifies pn
      ensures Val() == (old(Val()) + old(b.Val())) % PowB(pn.Length)
    {
      hide Value, PowB;
      ghost var a0, b0 := pn[..], b.pn[..];
      var carry := 0;
      NoLimbs(pn[..]);
      NoLimbs(a0);
      NoLimbs(b0);
      assert pn[..0] == a0[..0];
      for i := 0 to pn.Length
        invariant 0 <= carry <= 1
        invariant forall k :: i <= k < pn.Length ==> pn[k] == a0[k] && b.pn[k] == b0[k]
        invariant Value(pn[..i]) + carry * PowB(i) == Value(a0[..i]) + Value(b0[..i])
      {
        var x: int := pn[i] as int + b.pn[i] as int;
        var n := carry + x;
        assert n < BASE * BASE;
        CarryStep(Value(pn[..i]), carry, x, PowB(i), Value(a0[..i]) + Value(b0[..i]));
        ValueStep(a0, i);
        ValueStep(b0, i);
        AddColumn(a0[i], b0[i], PowB(i));
        PowBNext(i);
        SetLimb(i, n % BASE);
        carry := n / BASE;
      }
      assert pn[..pn.Length] == pn[..] && a0[..pn.Length] == a0 && b0[..pn.Length] == b0;
      ValueBound(pn[..]);
      Wraps(Val(), carry, Value(a0) + Value(b0), pn.Length);
    }

    /** Writes the limb after the ones already computed. */
    method SetLimb(i: nat, x: Limb)
      requires i < pn.Length
      modifies pn
      ensures forall k :: 0 <= k < pn.Length && k != i ==> pn[k] == old(pn[k])
      ensures pn[i] == x && Value(pn[..i + 1]) == old(Value(pn[..i])) + x * PowB(i)
    {
      ghost var low := pn[..i];
      pn[i] := x;
      assert pn[..i + 1] == low + [x];
      ValuePush(low, x);
    }

    /** operator*=(uint32_t). */
    method MulLimb(b: Limb)
      modifies pn
      ensures Val() == (b * old(Val())) % PowB(pn.Length)
    {
      hide Value, PowB;
      ghost var a0 := pn[..];
      var carry := 0;
      NoLimbs(a0);
      assert pn[..0] == a0[..0];
      for i := 0 to pn.Length
        invariant 0 <= carry < BASE
        invariant forall k :: i <= k < pn.Length ==> pn[k] == a0[k]
        invariant Value(pn[..i]) + carry * PowB(i) == b * Value(a0[..i])
      {
        var x: int := (b as int) * (pn[i] as int);
        var n := carry + x;
        ColumnFits(b, pn[i], carry, 0);
        CarryStep(Value(pn[..i]), carry, x, PowB(i), b * Value(a0[..i]));
        ValueStep(a0, i);
        ScaleColumn(b, Value(a0[..i]), a0[i], PowB(i));
        PowBNext(i);
        SetLimb(i, n % BASE);
        carry := n / BASE;
      }
      assert pn[..pn.Length] == pn[..] && a0[..pn.Length] == a0;
      ValueBound(pn[..]);
      Wraps(Val(), carry, b * Value(a0), pn.Length);
    }

    /** operator++. */
    method Increment()
      requires pn.Length >= 1
      modifies pn
      ensures Val() == (old(Val()) + 1) % PowB(pn.Length)
    {
      hide Value, PowB;
      ghost var a0 := pn[..];
      var i := 0;
      NoLimbs(a0);
      assert pn[..0] == a0[..0];
      SetLimb(0, NextLimb(pn[0]));
      while pn[i] == 0 && i < pn.Length - 1
        invariant 0 <= i < pn.Length && pn[i] == NextLimb(a0[i])
        invariant forall k :: i < k < pn.Length ==> pn[k] == a0[k]
        invariant Value(a0[..i]) + 1 == PowB(i) && Value(pn[..i + 1]) == pn[i] * PowB(i)
      {
        ValueStep(a0, i);
        PowBNext(i);
        CarryOn(Value(a0[..i]), a0[i], PowB(i));
        i := i + 1;
        SetLimb(i, NextLimb(pn[i]));
      }
      IncrementDone(a0, pn[..], i);
    }

    /** operator~. */
    method Complement() returns (r: BaseUint)
      ensures fresh(r) && fresh(r.pn) && r.pn.Length == pn.Length && r.Val() == PowB(pn.Length) - 1 - Val()
    {
      hide Value, PowB;
      r := new BaseUint(pn.Length);
      NoLimbs(pn[..]);
      NoLimbs(r.pn[..]);
      assert pn[..][..0] == pn[..0] && r.pn[..][..0] == r.pn[..0];
      for i := 0 to pn.Length
        invariant Value(r.pn[..i]) + Value(pn[..i]) == PowB(i) - 1
      {
        ValueStep(pn[..], i);
        assert pn[..][..i + 1] == pn[..i + 1] && pn[..][..i] == pn[..i];
        PowBNext(i);
        FlipColumn(pn[i], PowB(i));
        r.SetLimb(i, BASE - 1 - pn[i]);
      }
      assert pn[..pn.Length] == pn[..] && r.pn[..pn.Length] == r.pn[..];
    }

    /** operator-. */
    method Negated() returns (r: BaseUint)
      requires pn.Length >= 1
      ensures fresh(r) && fresh(r.pn) && r.pn.Length == pn.Length
      ensures r.Val() == (PowB(pn.Length) - Val()) % PowB(pn.Length)
    {
      hide Value, PowB;
      r := Complement();
      r.Increment();
    }

    /** operator-=. */
    method Sub(b: BaseUint)
      requires pn.Length == b.pn.Length >= 1
      modifies pn
      ensures Val() == (old(Val()) - old(b.Val())) % PowB(pn.Length)
    {
      hide Value, PowB;
      var minus := b.Negated();
      AddNegated(Val(), b.Val(), PowB(pn.Length));
      Add(minus);
    }

    method CompareTo(b: BaseUint) returns (c: int)
      requires pn.Length == b.pn.Length
      ensures c == if Val() < b.Val() then -1 else if Val() > b.Val() then 1 else 0
    {
      hide Value, PowB;
      var i := pn.Length;
      while i > 0
        invariant 0 <= i <= pn.Length && pn[i..] == b.pn[i..]
      {
        i := i - 1;
        if pn[i] < b.pn[i] {
          LessAt(pn[..], b.pn[..], i);
          return -1;
        }
        if pn[i] > b.pn[i] {
          LessAt(b.pn[..], pn[..], i);
          return 1;
        }
        assert pn[i..] == [pn[i]] + pn[i + 1..] && b.pn[i..] == [b.pn[i]] + b.pn[i + 1..];
      }
      assert pn[..] == pn[0..] == b.pn[0..] == b.pn[..];
      return 0;
    }

    /** The position of the highest bit set plus one, or zero. */
    method Bits() returns (r: nat)
      ensures if Val() == 0 then r == 0 else r >= 1 && Pow2(r - 1) <= Val() < Pow2(r)
      ensures r <= 32 * pn.Length
    {
      hide Value, PowB, Pow2;
      var pos := pn.Length;
      while pos > 0
        invariant 0 <= pos <= pn.Length && forall k :: pos <= k < pn.Length ==> pn[k] == 0
      {
        pos := pos - 1;
        if pn[pos] != 0 {
          var bit := 31;
          BaseIsPow2();
          while bit > 0
            invariant 0 <= bit <= 31 && pn[pos] < Pow2(bit + 1)
            decreases bit
          {
            BitSet(pn[pos], bit);
            if pn[pos] / Pow2(bit) % 2 == 1 {
              break;
            }
            bit := bit - 1;
          }
          LowestBit(pn[pos], bit);
          TopBit(pn[..], pos, bit);
          return 32 * pos + bit + 1;
        }
      }
      ValueZero(pn[..]);
      return 0;
    }

    method GetLow64() returns (r: nat)
      requires pn.Length >= 2
      ensures r == Val() % (BASE * BASE) && r < BASE * BASE
    {
      LowPair(pn[..]);
      r := Or(pn[0], (pn[1] as int) * BASE);
    }

    /** One row of a product: x times b is added from limb j on. A number that is its own factor is zero here. */
    method AddRow(j: nat, x: Limb, b: BaseUint)
      requires j < pn.Length == b.pn.Length && (b.pn == pn ==> AllZero(pn[..]))
      modifies pn
      ensures b.pn == pn ==> AllZero(pn[..])
      ensures b.pn != pn ==> Val() == (old(Val()) + x * b.Val() * PowB(j)) % PowB(pn.Length)
    {
      hide Value, PowB;
      ghost var p0, b0 := pn[..], b.pn[..];
      var carry := 0;
      var i := 0;
      RowStart(p0, b0, x, j);
      while i + j < pn.Length
        invariant 0 <= i && i + j <= pn.Length && 0 <= carry < BASE
        invariant b.pn == pn ==> carry == 0 && AllZero(pn[..])
        invariant b.pn != pn ==> RowDoneTo(pn[..], p0, b0, i, j, x, carry)
      {
        var n := (carry as int) + (pn[i + j] as int) + (x as int) * (b.pn[i] as int);
        ColumnFits(x, b.pn[i], carry, pn[i + j]);
        if b.pn != pn {
          RowCell(pn[..], p0, b0, i, j, x, carry);
        }
        pn[i + j] := n % BASE;
        carry := n / BASE;
        i := i + 1;
      }
      if b.pn != pn {
        RowEnd(pn[..], p0, b0, i, j, x, carry);
      }
    }

    /** operator*=(base_uint): the receiver is cleared first, so multiplying a number by itself in place gives zero. */
    method Mul(b: BaseUint)
      requires pn.Length == b.pn.Length
      modifies pn
      ensures Val() == if b.pn == pn then 0 else (old(Val()) * old(b.Val())) % PowB(pn.Length)
    {
      hide Value, PowB;
      ghost var a0, b0 := pn[..], b.pn[..];
      var a := new BaseUint.Copy(this);
      Clear();
      ValueZero(pn[..]);
      NoLimbs(a0);
      DivUnique(0, 0, 0, PowB(pn.Length));
      for j := 0 to pn.Length
        invariant a.pn[..] == a0 && (b.pn != pn ==> b.pn[..] == b0)
        invariant b.pn == pn ==> AllZero(pn[..])
        invariant b.pn != pn ==> Val() == (Value(a0[..j]) * Value(b0)) % PowB(pn.Length)
      {
        ValueStep(a0, j);
        RowAdded(Value(a0[..j]), a0[j], Value(b0), PowB(j), PowB(pn.Length));
        AddRow(j, a.pn[j], b);
      }
      assert a0[..pn.Length] == a0;
      if b.pn == pn {
        ValueZero(pn[..]);
      }
    }

    /** operator<<=. */
    method ShiftLeft(shift: nat)
      modifies pn
      ensures Val() == (old(Val()) * Pow2(shift)) % PowB(pn.Length)
    {
      hide Value, PowB, Pow2;
      ghost var a0 := pn[..];
      var a := new BaseUint.Copy(this);
      Clear();
      var k, s := shift / 32, shift % 32;
      ghost var m, c := 0, 0;
      StartLeft(pn[..], a0, k, s);
      for i := 0 to pn.Length
        invariant a.pn[..] == a0
        invariant k > pn.Length ==> AllZero(pn[..])
        invariant k <= pn.Length ==> m == (if i + k <= pn.Length then i else pn.Length - k)
        invariant k <= pn.Length ==> 0 <= c < Pow2(s) && LeftDoneTo(pn[..], a0, m, k, s, c)
      {
        if i + k < pn.Length {
          LeftColumn(pn[..], a0, i, k, s, c);
          if i + k + 1 < pn.Length && s != 0 {
            pn[i + k + 1] := Or(pn[i + k + 1], Shr(a.pn[i], 32 - s));
          }
          pn[i + k] := Or(pn[i + k], Shl(a.pn[i], s));
          m, c := i + 1, Shr(a.pn[i], 32 - s);
        }
      }
      if k <= pn.Length {
        EndLeft(pn[..], a0, m, k, s, c);
      } else {
        LeftGone(Value(a0), pn.Length, k, s);
        ValueZero(pn[..]);
      }
    }

    /** operator>>=. */
    method ShiftRight(shift: nat)
      modifies pn
      ensures Val() == old(Val()) / Pow2(shift)
    {
      hide Value, PowB, Pow2;
      ghost var a0 := pn[..];
      var a := new BaseUint.Copy(this);
      Clear();
      var k, s := shift / 32, shift % 32;
      for i := 0 to pn.Length
        invariant a.pn[..] == a0
        invariant RightDoneTo(pn[..], a0, i, k, s)
      {
        if i >= k {
          RightColumn(pn[..], a0, i, k, s);
        }
        if i - k - 1 >= 0 && s != 0 {
          pn[i - k - 1] := Or(pn[i - k - 1], Shl(a.pn[i], 32 - s));
        }
        if i - k >= 0 {
          pn[i - k] := Or(pn[i - k], Shr(a.pn[i], s));
        }
      }
      EndRight(pn[..], a0, k, s);
    }

    /** pn[shift / 32] |= (1 << (shift & 31)). */
    method SetBit(shift: nat)
      requires shift < 32 * pn.Length && LowBitsFree(pn[..], shift)
      modifies pn
      ensures Val() == old(Val()) + Pow2(shift)
      ensures shift > 0 ==> LowBitsFree(pn[..], shift - 1)
    {
      hide Value, PowB, Pow2;
      BitFits(pn[..], shift);
      pn[shift / 32] := Or(pn[shift / 32], Pow2(shift % 32));
    }

    /** One quotient bit: set, and the divisor taken off, exactly when the divisor fits. */
    method SubtractIfFits(num: BaseUint, div: BaseUint, shift: nat)
      requires pn.Length == num.pn.Length == div.pn.Length && pn != num.pn && pn != div.pn && num.pn != div.pn
      requires shift < 32 * pn.Length && LowBitsFree(pn[..], shift)
      modifies pn, num.pn
      ensures num.Val() == old(num.Val()) - if old(num.Val()) >= div.Val() then div.Val() else 0
      ensures Val() == old(Val()) + if old(num.Val()) >= div.Val() then Pow2(shift) else 0
      ensures shift > 0 ==> LowBitsFree(pn[..], shift - 1)
    {
      hide Value, PowB, Pow2, LowBitsFree;
      var c := num.CompareTo(div);
      if c >= 0 {
        ValueBound(num.pn[..]);
        DivUnique(num.Val() - div.Val(), 0, num.Val() - div.Val(), PowB(pn.Length));
        num.Sub(div);
        SetBit(shift);
      } else {
        SkipBit(pn[..], shift);
      }
    }

    /** operator/=: schoolbook division in base two. The quotient is cleared before a zero divisor is rejected. */
    method Div(b: BaseUint) returns (ok: bool)
      requires pn.Length == b.pn.Length >= 1
      modifies pn
      ensures ok <==> old(b.Val()) != 0
      ensures Val() == if ok then old(Val()) / old(b.Val()) else 0
    {
      hide Value, PowB, Pow2, LowBitsFree;
      ghost var x, y := Val(), b.Val();
      var div := new BaseUint.Copy(b);
      var num := new BaseUint.Copy(this);
      Clear();
      ValueZero(pn[..]);
      var numBits := num.Bits();
      var divBits := div.Bits();
      if divBits == 0 {
        return false;
      }
      if divBits > numBits {
        NotLarger(x, y, numBits, divBits);
        return true;
      }
      var shift := numBits - divBits;
      Aligned(x, y, numBits, divBits, pn.Length);
      AllFree(pn[..], shift);
      div.ShiftLeft(shift);
      while shift >= 0
        invariant -1 <= shift < 32 * pn.Length
        invariant x == Val() * y + num.Val() && num.Val() < y * Pow2(shift + 1)
        invariant shift >= 0 ==> div.Val() == y * Pow2(shift) && LowBitsFree(pn[..], shift)
      {
        DivisionStep(Val(), y, shift);
        SubtractIfFits(num, div, shift);
        div.ShiftRight(1);
        shift := shift - 1;
      }
      TwoTimes(0);
      DivUnique(x, Val(), num.Val(), y);
      return true;
    }

    method Clear()
      modifies pn
      ensures AllZero(pn[..])
    {
      for i := 0 to pn.Length
        invariant forall k :: 0 <= k < i ==> pn[k] == 0
      {
        pn[i] := 0;
      }
    }
  }

  /** The first m limbs of a are shifted into place, and c waits in the limb after them. */
  ghost predicate LeftDoneTo(r: seq<Limb>, a: seq<Limb>, m: nat, k: nat, s: nat, c: int) {
    && |r| == |a|
    && m + k <= |a|
    && Value(r[..m + k]) + c * PowB(m + k) == Pow2(s) * Value(a[..m]) * PowB(k)
    && (m + k < |a| ==> r[m + k] == c)
    && forall j :: m + k < j < |a| ==> r[j] == 0
  }

  lemma StartLeft(r: seq<Limb>, a: seq<Limb>, k: nat, s: nat)
    requires |r| == |a| && AllZero(r)
    ensures 0 < Pow2(s) && (k <= |a| ==> LeftDoneTo(r, a, 0, k, s, 0))
  {
    if k <= |a| {
      ValueZero(r[..k]);
      NoLimbs(a);
      assert Pow2(s) * 0 * PowB(k) == 0;
    }
  }

  /** The two limbs a column writes. */
  function LeftWritten(r: seq<Limb>, i: nat, x: Limb, s: nat): (w: seq<Limb>)
    requires i < |r| && s < 32 && r[i] < Pow2(s) && (i + 1 < |r| ==> r[i + 1] == 0)
    ensures |w| == |r|
  {
    OrColumn(r[i], x, s);
    var r' := if i + 1 < |r| && s != 0 then r[i + 1 := Or(r[i + 1], Shr(x, 32 - s))] else r;
    r'[i := Or(r[i], Shl(x, s))]
  }

  lemma LeftColumn(r: seq<Limb>, a: seq<Limb>, i: nat, k: nat, s: nat, c: int)
    requires s < 32 && i + k < |a| && 0 <= c < Pow2(s) && LeftDoneTo(r, a, i, k, s, c)
    ensures 0 <= Or(r[i + k], Shl(a[i], s)) < BASE && 0 <= Shr(a[i], 32 - s) < Pow2(s)
    ensures i + k + 1 < |a| ==> Or(r[i + k + 1], Shr(a[i], 32 - s)) == Shr(a[i], 32 - s)
    ensures LeftDoneTo(LeftWritten(r, i + k, a[i], s), a, i + 1, k, s, Shr(a[i], 32 - s))
  {
    hide Value, PowB, Pow2;
    var n, x := i + k, a[i];
    ShiftParts(x, s);
    OrColumn(c, x, s);
    var w := LeftWritten(r, n, x, s);
    if s == 0 {
      NoShift(x);
    }
    assert w[..n + 1] == r[..n] + [w[n]];
    ValuePush(r[..n], w[n]);
    ValueStep(a, i);
    PowBAdd(i, k);
    PowBNext(n);
    LeftStep(Value(r[..n]), c, x, s, Value(a[..i]), PowB(i), PowB(k));
  }

  lemma NoShift(x: Limb)
    ensures Shr(x, 32) == 0
  {
    BaseIsPow2();
    DivUnique(x, 0, x, BASE);
  }

  lemma EndLeft(r: seq<Limb>, a: seq<Limb>, m: nat, k: nat, s: nat, c: int)
    requires m + k == |a| && LeftDoneTo(r, a, m, k, s, c)
    ensures Value(r) == (Value(a) * Pow2(32 * k + s)) % PowB(|a|)
  {
    hide Value, PowB, Pow2;
    assert r[..|a|] == r;
    ValueBound(r);
    LeftDone(Value(r), c, a, m, k, s);
  }

  /** The limbs of a from k to i are shifted into place. */
  ghost predicate RightDoneTo(r: seq<Limb>, a: seq<Limb>, i: nat, k: nat, s: nat) {
    && |r| == |a|
    && i <= |a|
    && if i <= k then AllZero(r)
       else
         && Value(r[..i - k]) == Value(a[k..i]) / Pow2(s)
         && r[i - k - 1] == Shr(a[i - 1], s)
         && forall j :: i - k <= j < |r| ==> r[j] == 0
  }

  /** The two limbs a column writes. */
  function RightWritten(r: seq<Limb>, a: seq<Limb>, i: nat, k: nat, s: nat): (w: seq<Limb>)
    requires k <= i < |a| == |r| && s < 32 && r[i - k] == 0
    requires i - k - 1 >= 0 && s != 0 ==> Or(r[i - k - 1], Shl(a[i], 32 - s)) < BASE
    ensures |w| == |r|
  {
    var r' := if i - k - 1 >= 0 && s != 0 then r[i - k - 1 := Or(r[i - k - 1], Shl(a[i], 32 - s))] else r;
    r'[i - k := Or(r'[i - k], Shr(a[i], s))]
  }

  lemma RightColumn(r: seq<Limb>, a: seq<Limb>, i: nat, k: nat, s: nat)
    requires s < 32 && k <= i < |a| && RightDoneTo(r, a, i, k, s)
    ensures r[i - k] == 0 && Or(r[i - k], Shr(a[i], s)) == Shr(a[i], s)
    ensures i - k - 1 >= 0 && s != 0 ==> Or(r[i - k - 1], Shl(a[i], 32 - s)) < BASE
    ensures RightDoneTo(RightWritten(r, a, i, k, s), a, i + 1, k, s)
  {
    hide Value, PowB, Pow2;
    var n, x := i - k, a[i];
    assert a[k..i + 1] == a[k..i] + [x];
    ValuePush(a[k..i], x);
    NoLimbs(r);
    if n == 0 {
      var w := RightWritten(r, a, i, k, s);
      assert w[..1] == r[..0] + [w[0]] && a[k..i] == r[..0];
      ValuePush(r[..0], w[0]);
    } else {
      RightMeets(a[i - 1], x, s);
      var w := RightWritten(r, a, i, k, s);
      RightStep(Value(a[k..i]), x, s, n);
      ValueStep(r, n - 1);
      assert w[..n + 1] == (r[..n - 1] + [w[n - 1]]) + [w[n]];
      ValuePush(r[..n - 1], w[n - 1]);
      ValuePush(r[..n - 1] + [w[n - 1]], w[n]);
      assert w[n - 1] == Shr(a[i - 1], s) + Shl(x, 32 - s);
      AddColumn(Shr(a[i - 1], s), Shl(x, 32 - s), PowB(n - 1));
    }
  }

  /** The bits that come down from x land above those left of y. */
  lemma RightMeets(y: Limb, x: Limb, s: nat)
    requires s < 32
    ensures Or(Shr(y, s), Shl(x, 32 - s)) == Shr(y, s) + Shl(x, 32 - s) < BASE
    ensures s == 0 ==> Shl(x, 32 - s) == 0
  {
    hide Pow2;
    ShiftParts(y, 32 - s);
    OrColumn(Shr(y, s), x, 32 - s);
    if s == 0 {
      BaseIsPow2();
      AddMultiple(0, x, BASE);
    }
  }

  lemma EndRight(r: seq<Limb>, a: seq<Limb>, k: nat, s: nat)
    requires RightDoneTo(r, a, |a|, k, s)
    ensures Value(r) == Value(a) / Pow2(32 * k + s)
  {
    hide Value, PowB, Pow2;
    RightDone(a, k, s);
    if |a| <= k {
      ValueZero(r);
      if k == |a| {
        NoLimbs(a);
        assert a[k..] == a[..0];
        DivUnique(0, 0, 0, Pow2(s));
      }
    } else {
      var n := |a| - k;
      assert r == r[..n] + r[n..] && a[k..] == a[k..|a|];
      ValueSplit(r[..n], r[n..]);
      ValueZero(r[n..]);
    }
  }

  /** No bit up to this one is set. */
  ghost predicate LowBitsFree(r: seq<Limb>, shift: nat) {
    && shift / 32 < |r|
    && (forall j :: 0 <= j < shift / 32 ==> r[j] == 0)
    && r[shift / 32] % Pow2(shift % 32 + 1) == 0
  }

  lemma AllFree(r: seq<Limb>, shift: nat)
    requires shift < 32 * |r| && AllZero(r)
    ensures LowBitsFree(r, shift)
  {
    DivUnique(0, 0, 0, Pow2(shift % 32 + 1));
  }

  lemma BitFits(r: seq<Limb>, shift: nat)
    requires LowBitsFree(r, shift)
    ensures Or(r[shift / 32], Pow2(shift % 32)) == r[shift / 32] + Pow2(shift % 32) < BASE
    ensures Value(r[shift / 32 := Or(r[shift / 32], Pow2(shift % 32))]) == Value(r) + Pow2(shift)
    ensures shift > 0 ==> LowBitsFree(r[shift / 32 := Or(r[shift / 32], Pow2(shift % 32))], shift - 1)
  {
    hide Value, PowB, Pow2;
    var j, b := shift / 32, shift % 32;
    FreeLimb(r[j], b);
    OneLimb(r, j, Pow2(b));
    PowBIsPow2(j);
    Pow2Add(b, 32 * j);
    if shift > 0 && b == 0 {
      AllFreeBelow(31);
    }
  }

  lemma AllFreeBelow(b: nat)
    ensures 0 % Pow2(b + 1) == 0
  {
    DivUnique(0, 0, 0, Pow2(b + 1));
  }

  lemma FreeLimb(x: Limb, b: nat)
    requires b < 32 && x % Pow2(b + 1) == 0
    ensures Or(x, Pow2(b)) == x + Pow2(b) < BASE && (x + Pow2(b)) % Pow2(b) == 0 && x % Pow2(b) == 0
  {
    hide Pow2;
    var p, q, y: int := Pow2(b), Pow2(31 - b), x;
    TwoTimes(b);
    OrDisjoint(p, x, b + 1);
    BaseIsPow2();
    Pow2Add(b + 1, 31 - b);
    EvenMultiple(y, p, q);
  }

  lemma EvenMultiple(y: nat, p: nat, q: nat)
    requires p >= 1 && y % (2 * p) == 0 && y < 2 * p * q
    ensures (y + p) % p == 0 && y % p == 0 && y + p < 2 * p * q
  {
    var d, n := y / (2 * p), 2 * p;
    DivMod(y, n);
    assert d * n == (2 * d) * p;
    AddMultiple(0, 2 * d, p);
    AddMultiple(y, 1, p);
    DivUnique(0, 0, 0, p);
    assert n * q == q * n;
    if d >= q {
      MulMono(q, d, n);
    }
    MulMono(d + 1, q, n);
    AddColumn(d, 1, n);
  }

  /** Adding to one limb without a carry. */
  lemma OneLimb(r: seq<Limb>, j: nat, d: int)
    requires j < |r| && 0 <= r[j] + d < BASE
    ensures Value(r[j := r[j] + d]) == Value(r) + d * PowB(j)
  {
    hide Value, PowB;
    var w := r[j := r[j] + d];
    assert r == r[..j + 1] + r[j + 1..] && w == w[..j + 1] + w[j + 1..] && r[j + 1..] == w[j + 1..] && r[..j] == w[..j];
    ValueSplit(r[..j + 1], r[j + 1..]);
    ValueSplit(w[..j + 1], w[j + 1..]);
    ValueStep(r, j);
    ValueStep(w, j);
    AddColumn(r[j], d, PowB(j));
  }

  lemma SkipBit(r: seq<Limb>, shift: nat)
    requires LowBitsFree(r, shift)
    ensures shift > 0 ==> LowBitsFree(r, shift - 1)
  {
    hide Pow2;
    var j, b := shift / 32, shift % 32;
    FreeLimb(r[j], b);
    AllFreeBelow(31);
  }

  lemma NotLarger(x: nat, y: nat, n: nat, d: nat)
    requires n < d && y > 0 && y >= Pow2(d - 1) && (if x == 0 then n == 0 else x < Pow2(n))
    ensures x / y == 0
  {
    hide Pow2;
    if x > 0 {
      Pow2Mono(n, d - 1);
    }
    DivUnique(x, 0, x, y);
  }

  /** After aligning, the dividend is below twice the divisor, and the divisor has lost no bit. */
  lemma Aligned(x: nat, y: nat, n: nat, d: nat, w: nat)
    requires 1 <= d <= n <= 32 * w && Pow2(d - 1) <= y < Pow2(d) && x < Pow2(n)
    ensures x < y * Pow2(n - d + 1) && (y * Pow2(n - d)) % PowB(w) == y * Pow2(n - d)
  {
    hide Pow2, PowB;
    Pow2Add(d - 1, n - d + 1);
    MulMono(Pow2(d - 1), y, Pow2(n - d + 1));
    Pow2Add(d, n - d);
    MulStrict(y, Pow2(d), Pow2(n - d));
    PowBIsPow2(w);
    Pow2Mono(n, 32 * w);
    MulMono(0, y, Pow2(n - d));
    DivUnique(y * Pow2(n - d), 0, y * Pow2(n - d), PowB(w));
  }

  /** Subtracting y 2^shift puts 2^shift into the quotient, and one shift back halves the divisor. */
  lemma DivisionStep(q: int, y: nat, shift: nat)
    ensures (q + Pow2(shift)) * y == q * y + y * Pow2(shift)
    ensures y * Pow2(shift + 1) == 2 * (y * Pow2(shift))
    ensures shift > 0 ==> y * Pow2(shift) / Pow2(1) == y * Pow2(shift - 1)
  {
    hide Pow2;
    TwoTimes(shift);
    AddColumn(q, Pow2(shift), y);
    if shift > 0 {
      TwoTimes(shift - 1);
      DivUnique(y * Pow2(shift), y * Pow2(shift - 1), 0, 2);
    }
    Doubles(y, Pow2(shift));
    TwoTimes(0);
  }

  lemma Doubles(y: int, p: int)
    ensures y * (2 * p) == 2 * (y * p)
  {
  }

  lemma TwoTimes(k: nat)
    ensures Pow2(k + 1) == 2 * Pow2(k) && Pow2(0) == 1
  {
  }

  lemma {:induction false} LowLimbs(s: seq<Limb>, lo: int, hi: int)
    requires |s| >= 2 && s[0] == lo && s[1] == hi && forall k :: 2 <= k < |s| ==> s[k] == 0
    ensures Value(s) == hi * BASE + lo
  {
    if |s| == 2 {
      assert s == [s[0], s[1]] && s[..1] == [s[0]] && [s[0]][..0] == [];
      assert PowB(1) == BASE;
      assert Value(s[..1]) == s[0] * PowB(0);
    } else {
      LowLimbs(s[..|s| - 1], lo, hi);
    }
  }

  lemma LowPair(s: seq<Limb>)
    requires |s| >= 2
    ensures var r := Or(s[0], (s[1] as int) * BASE); r == Value(s) % (BASE * BASE) && r < BASE * BASE
  {
    hide Value, PowB, Pow2;
    var x: int, y: int := s[0], s[1];
    AddMultiple(0, y, BASE);
    BaseIsPow2();
    OrDisjoint(x, y * BASE, 32);
    assert s == s[..2] + s[2..] && s[..2][0] == x && s[..2][1] == y;
    ValueSplit(s[..2], s[2..]);
    LowLimbs(s[..2], x, y);
    PowBAdd(1, 1);
    NoLimbs(s);
    PowBNext(0);
    assert (BASE * BASE) * Value(s[2..]) == Value(s[2..]) * (BASE * BASE);
    DivUnique(Value(s), Value(s[2..]), y * BASE + x, BASE * BASE);
  }

  /** A column of a product never exceeds 64 bits. */
  lemma ColumnFits(a: int, b: int, carry: int, x: int)
    requires 0 <= a < BASE && 0 <= b < BASE && 0 <= carry < BASE && 0 <= x < BASE
    ensures 0 <= carry + x + a * b < BASE * BASE && 0 <= (carry + x + a * b) / BASE < BASE
  {
    MulMono(a, BASE - 1, b);
    MulMono(b, BASE - 1, BASE - 1);
    assert (BASE - 1) * b == b * (BASE - 1);
    MulMono(0, a, b);
    var n := carry + x + a * b;
    DivNonNegative(n, BASE);
    DivMod(n, BASE);
  }

  lemma NoLimbs(s: seq<Limb>)
    ensures Value(s[..0]) == 0 && PowB(0) == 1
  {
    assert s[..0] == [];
  }

  lemma PowBNext(i: nat)
    ensures PowB(i + 1) == BASE * PowB(i)
  {
  }

  lemma ScaleColumn(b: int, v: int, x: int, p: int)
    ensures b * v + b * x * p == b * (v + x * p)
  {
    MulAssoc(b, x, p);
  }

  function NextLimb(x: Limb): Limb {
    if x == BASE - 1 then 0 else x + 1
  }

  /** A limb of all ones passes the carry on. */
  lemma CarryOn(v: int, x: int, p: int)
    requires v + 1 == p && x == BASE - 1
    ensures v + x * p + 1 == BASE * p
  {
  }

  lemma IncrementDone(a: seq<Limb>, b: seq<Limb>, i: nat)
    requires |a| == |b| && i < |a| && b[i] == NextLimb(a[i]) && (b[i] != 0 || i == |a| - 1)
    requires forall k :: i < k < |a| ==> b[k] == a[k]
    requires Value(a[..i]) + 1 == PowB(i) && Value(b[..i + 1]) == b[i] * PowB(i)
    ensures Value(b) == (Value(a) + 1) % PowB(|a|)
  {
    hide Value, PowB;
    var p, x: int := PowB(i), a[i];
    ValueStep(a, i);
    ValueBound(b);
    ValueSplit(a[..i + 1], a[i + 1..]);
    ValueSplit(b[..i + 1], b[i + 1..]);
    assert a == a[..i + 1] + a[i + 1..] && b == b[..i + 1] + b[i + 1..] && a[i + 1..] == b[i + 1..];
    if b[i] != 0 {
      AddColumn(x, 1, p);
      Wraps(Value(b), 0, Value(a) + 1, |a|);
    } else {
      assert a[i + 1..] == [];
      PowBNext(i);
      CarryOn(Value(a[..i]), x, p);
      Wraps(Value(b), 1, Value(a) + 1, |a|);
    }
  }

  lemma FlipColumn(x: int, p: int)
    ensures (BASE - 1 - x) * p + x * p + p == BASE * p
  {
  }

  lemma AddNegated(a: int, b: int, n: nat)
    requires n >= 1
    ensures (a + (n - b) % n) % n == (a - b) % n
  {
    DivMod(n - b, n);
    var k := 1 - (n - b) / n;
    assert a + (n - b) % n == (a - b) + k * n;
    AddMultiple(a - b, k, n);
  }

  /** The highest limb that differs decides. */
  lemma LessAt(a: seq<Limb>, b: seq<Limb>, i: nat)
    requires |a| == |b| && i < |a| && a[i + 1..] == b[i + 1..] && a[i] < b[i]
    ensures Value(a) < Value(b)
  {
    hide Value, PowB;
    var x: int, y: int, p := a[i], b[i], PowB(i);
    assert a == a[..i + 1] + a[i + 1..] && b == b[..i + 1] + b[i + 1..];
    ValueSplit(a[..i + 1], a[i + 1..]);
    ValueSplit(b[..i + 1], b[i + 1..]);
    ValueStep(a, i);
    ValueStep(b, i);
    ValueBound(a[..i]);
    MulMono(x + 1, y, p);
    AddColumn(x, 1, p);
  }

  /** A number below 2^(k+1) has bit k exactly when it is at least 2^k. */
  lemma BitSet(x: nat, k: nat)
    requires x < Pow2(k + 1)
    ensures x / Pow2(k) % 2 == 1 <==> x >= Pow2(k)
  {
    var p := Pow2(k);
    assert Pow2(k + 1) == 2 * p;
    if x >= p {
      DivUnique(x, 1, x - p, p);
    } else {
      DivUnique(x, 0, x, p);
    }
  }

  lemma LowestBit(x: nat, k: nat)
    requires 0 < x < Pow2(k + 1) && (k == 0 || x / Pow2(k) % 2 == 1)
    ensures Pow2(k) <= x
  {
    if k > 0 {
      BitSet(x, k);
    }
  }

  lemma TopBit(s: seq<Limb>, pos: nat, k: nat)
    requires pos < |s| && (forall j :: pos < j < |s| ==> s[j] == 0) && Pow2(k) <= s[pos] < Pow2(k + 1)
    ensures Value(s) > 0 && Pow2(32 * pos + k) <= Value(s) < Pow2(32 * pos + k + 1)
  {
    hide Value, PowB, Pow2;
    var x: int, p := s[pos], PowB(pos);
    assert s == s[..pos + 1] + s[pos + 1..];
    ValueSplit(s[..pos + 1], s[pos + 1..]);
    ValueZero(s[pos + 1..]);
    ValueStep(s, pos);
    ValueBound(s[..pos]);
    PowBIsPow2(pos);
    Pow2Add(k, 32 * pos);
    Pow2Add(k + 1, 32 * pos);
    MulMono(Pow2(k), x, p);
    MulMono(x + 1, Pow2(k + 1), p);
    AddColumn(x, 1, p);
  }

  ghost predicate AllZero(s: seq<Limb>) {
    forall k :: 0 <= k < |s| ==> s[k] == 0
  }

  lemma RowColumn(y: int, x: int, z: int, v: int, p: int, q: int)
    ensures (y + x * z) * (p * q) == y * (p * q) + x * z * (p * q)
    ensures x * v * q + x * z * (p * q) == x * (v + z * p) * q
  {
    AddColumn(y, x * z, p * q);
    MulAssoc(x, z, p * q);
    MulAssoc(z, p, q);
    MulAssoc(x, z * p, q);
    assert x * (v + z * p) == x * v + x * (z * p);
    AddColumn(x * v, x * (z * p), q);
  }

  /** The columns of a row below i + j are added, and carry is left over. */
  ghost predicate RowDoneTo(r: seq<Limb>, p0: seq<Limb>, b: seq<Limb>, i: nat, j: nat, x: int, carry: int) {
    && |r| == |p0| == |b|
    && i + j <= |r|
    && r[i + j..] == p0[i + j..]
    && Value(r[..i + j]) + carry * PowB(i + j) == Value(p0[..i + j]) + x * Value(b[..i]) * PowB(j)
  }

  lemma RowStart(p0: seq<Limb>, b: seq<Limb>, x: int, j: nat)
    requires |p0| == |b| && j <= |b|
    ensures RowDoneTo(p0, p0, b, 0, j, x, 0)
  {
    NoLimbs(b);
    assert x * 0 * PowB(j) == 0;
  }

  lemma RowCell(r: seq<Limb>, p0: seq<Limb>, b: seq<Limb>, i: nat, j: nat, x: int, carry: int)
    requires i + j < |r| && RowDoneTo(r, p0, b, i, j, x, carry)
    ensures var n := carry + r[i + j] + x * b[i]; RowDoneTo(r[i + j := n % BASE], p0, b, i + 1, j, x, n / BASE)
  {
    hide Value, PowB;
    var k := i + j;
    assert r[k] == r[k..][0] == p0[k..][0] == p0[k];
    var n := carry + r[k] + x * b[i];
    var w := r[k := n % BASE];
    assert w[..k + 1] == r[..k] + [w[k]] && w[k + 1..] == r[k..][1..] == p0[k + 1..];
    ValuePush(r[..k], w[k]);
    ValueStep(p0, k);
    ValueStep(b, i);
    PowBAdd(i, j);
    PowBNext(k);
    RowStep(Value(r[..k]), carry, Value(p0[..k]), x, Value(b[..i]), p0[k], b[i], PowB(i), PowB(j));
  }

  lemma RowEnd(r: seq<Limb>, p0: seq<Limb>, b: seq<Limb>, i: nat, j: nat, x: int, carry: int)
    requires i + j == |r| && RowDoneTo(r, p0, b, i, j, x, carry)
    ensures Value(r) == (Value(p0) + x * Value(b) * PowB(j)) % PowB(|r|)
  {
    hide Value, PowB;
    assert r[..i + j] == r && p0[..i + j] == p0;
    ValueBound(r);
    RowDone(Value(r), carry, Value(p0), x, b, i, j);
  }

  lemma RowStep(v: int, carry: int, v0: int, x: int, w: int, y: int, z: int, p: nat, q: nat)
    requires v + carry * (p * q) == v0 + x * w * q
    ensures var n := carry + (y + x * z);
      v + (n % BASE) * (p * q) + (n / BASE) * (BASE * (p * q)) == v0 + y * (p * q) + x * (w + z * p) * q
  {
    MulMono(0, p, q);
    CarryStep(v, carry, y + x * z, p * q, v0 + x * w * q);
    RowColumn(y, x, z, w, p, q);
  }

  /** The limbs of b that do not fit change the sum by a multiple of 2^256. */
  lemma RowDone(v: nat, carry: int, v0: int, x: int, b: seq<Limb>, i: nat, j: nat)
    requires i + j == |b| && v + carry * PowB(i + j) == v0 + x * Value(b[..i]) * PowB(j) && v < PowB(i + j)
    ensures v == (v0 + x * Value(b) * PowB(j)) % PowB(|b|)
  {
    hide Value, PowB;
    var low, top := Value(b[..i]), Value(b[i..]);
    assert b == b[..i] + b[i..];
    ValueSplit(b[..i], b[i..]);
    PowBAdd(i, j);
    RowColumn(0, x, top, low, PowB(i), PowB(j));
    assert PowB(i) * top == top * PowB(i);
    Wraps(v, carry + x * top, v0 + x * Value(b) * PowB(j), |b|);
  }

  lemma RowAdded(a: nat, x: int, b: nat, p: nat, m: nat)
    requires m >= 1
    ensures ((a * b) % m + x * b * p) % m == ((a + x * p) * b) % m
  {
    DivMod(a * b, m);
    var k := a * b / m;
    assert (a + x * p) * b == a * b + x * p * b;
    MulAssoc(x, p, b);
    MulAssoc(x, b, p);
    assert p * b == b * p;
    assert (a + x * p) * b == (a * b) % m + x * b * p + k * m;
    AddMultiple((a * b) % m + x * b * p, k, m);
  }
}
