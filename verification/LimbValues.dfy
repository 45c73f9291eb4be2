/** Numbers as little-endian sequences of 32-bit limbs. */
module LimbValues {
  import opened Powers

  const BASE := 0x1_0000_0000

  type Limb = x: int | 0 <= x < BASE

  /** 2^(32 n), the number of values of n limbs. */
  function PowB(n: nat): (r: nat)
    ensures r >= 1
  {
    if n == 0 then 1 else BASE * PowB(n - 1)
  }

  lemma {:induction false} PowBAdd(x: nat, y: nat)
    ensures PowB(x + y) == PowB(x) * PowB(y)
  {
    if x > 0 {
      PowBAdd(x - 1, y);
      MulAssoc(BASE, PowB(x - 1), PowB(y));
    }
  }

  lemma BaseIsPow2()
    ensures Pow2(32) == BASE
  {
    assert Pow2(8) == 256;
    Pow2Add(8, 8);
    Pow2Add(16, 16);
  }

  lemma {:induction false} PowBIsPow2(n: nat)
    ensures PowB(n) == Pow2(32 * n)
  {
    if n > 0 {
      PowBIsPow2(n - 1);
      BaseIsPow2();
      Pow2Add(32, 32 * (n - 1));
      assert 32 * n == 32 + 32 * (n - 1);
    }
  }

  function Value(s: seq<Limb>): nat {
    if s == [] then 0 else Value(s[..|s| - 1]) + s[|s| - 1] * PowB(|s| - 1)
  }

  lemma {:induction false} ValueBound(s: seq<Limb>)
    ensures Value(s) < PowB(|s|)
  {
    if s != [] {
      var n := |s| - 1;
      var x: int := s[n];
      ValueBound(s[..n]);
      MulMono(x + 1, BASE, PowB(n));
      assert (x + 1) * PowB(n) == x * PowB(n) + PowB(n);
    }
  }

  /** One more limb at the top. */
  lemma ValuePush(s: seq<Limb>, x: Limb)
    ensures Value(s + [x]) == Value(s) + x * PowB(|s|)
  {
    assert (s + [x])[..|s|] == s;
  }

  lemma ValueStep(s: seq<Limb>, i: nat)
    requires i < |s|
    ensures Value(s[..i + 1]) == Value(s[..i]) + s[i] * PowB(i)
  {
    assert s[..i + 1] == s[..i] + [s[i]];
    ValuePush(s[..i], s[i]);
  }

  lemma {:induction false} ValueSplit(a: seq<Limb>, b: seq<Limb>)
    ensures Value(a + b) == Value(a) + PowB(|a|) * Value(b)
  {
    if b == [] {
      assert a + b == a;
    } else {
      var n := |b| - 1;
      assert a + b == (a + b[..n]) + [b[n]];
      ValuePush(a + b[..n], b[n]);
      ValueSplit(a, b[..n]);
      ValuePush(b[..n], b[n]);
      assert b == b[..n] + [b[n]];
      PowBAdd(|a|, n);
      ScaleStep(PowB(|a|), Value(b[..n]), b[n], PowB(n));
    }
  }

  lemma ScaleStep(p: int, v: int, x: int, q: int)
    ensures p * (v + x * q) == p * v + x * (p * q)
  {
    MulAssoc(x, p, q);
    MulAssoc(p, x, q);
    assert p * x == x * p;
  }

  lemma {:induction false} ValueZero(s: seq<Limb>)
    requires forall i :: 0 <= i < |s| ==> s[i] == 0
    ensures Value(s) == 0
  {
    if s != [] {
      ValueZero(s[..|s| - 1]);
    }
  }

  /** Limbs are determined by their value. */
  lemma {:induction false} ValueInjective(a: seq<Limb>, b: seq<Limb>)
    requires |a| == |b| && Value(a) == Value(b)
    ensures a == b
  {
    if a != [] {
      var n := |a| - 1;
      ValueBound(a[..n]);
      ValueBound(b[..n]);
      DivUnique(Value(a), a[n], Value(a[..n]), PowB(n));
      DivUnique(Value(b), b[n], Value(b[..n]), PowB(n));
      ValueInjective(a[..n], b[..n]);
      assert a == a[..n] + [a[n]] && b == b[..n] + [b[n]];
    }
  }

  /** What a carry out of the top leaves. */
  lemma Wraps(v: nat, carry: int, total: int, n: nat)
    requires v < PowB(n) && v + carry * PowB(n) == total
    ensures v == total % PowB(n)
  {
    DivUnique(total, carry, v, PowB(n));
  }

  // ---------- Bits ----------

  /** Bitwise or. */
  function Or(x: nat, y: nat): nat
    decreases x + y
  {
    if x == 0 then y else if y == 0 then x
    else (if x % 2 == 1 || y % 2 == 1 then 1 else 0) + 2 * Or(x / 2, y / 2)
  }

  /** Disjoint bits are added. */
  lemma {:induction false} OrDisjoint(x: nat, y: nat, s: nat)
    requires x < Pow2(s) && y % Pow2(s) == 0
    ensures Or(x, y) == x + y && Or(y, x) == x + y
    decreases s
  {
    if s > 0 && x > 0 && y > 0 {
      var p := Pow2(s - 1);
      DivMod(y, 2 * p);
      var k := y / (2 * p);
      assert y == 2 * (k * p);
      DivUnique(y, k * p, 0, 2);
      AddMultiple(0, k, p);
      OrDisjoint(x / 2, y / 2, s - 1);
    }
  }

  lemma OrStep(x: nat, y: nat)
    ensures Or(x, y) == (if x % 2 == 1 || y % 2 == 1 then 1 else 0) + 2 * Or(x / 2, y / 2)
  {
  }

  /** Bits above all of y's stay as they are. */
  lemma {:induction false} OrHigh(a: nat, b: nat, y: nat, s: nat)
    requires b < Pow2(s) && y < Pow2(s)
    ensures Or(a * Pow2(s) + b, y) == a * Pow2(s) + Or(b, y)
  {
    hide Or;
    if s == 0 {
      OrZero(a);
      OrZero(0);
    } else {
      var p := Pow2(s - 1);
      var x := a * (2 * p) + b;
      assert a * (2 * p) == 2 * (a * p);
      OrHigh(a, b / 2, y / 2, s - 1);
      OrStep(x, y);
      OrStep(b, y);
    }
  }

  lemma OrZero(x: nat)
    ensures Or(x, 0) == x
  {
  }
}
