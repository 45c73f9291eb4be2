/** How many steps the walk over skip pointers takes (CBlockIndex::GetAncestor in src/chain.cpp). */
module SkipWalk {
  import opened Powers
  import opened BlockIndexes

  // ---------- Skips from even and odd heights ----------

  lemma EvenSkip(m: nat, k: nat)
    requires k >= 1
    ensures 2 <= Pow2(k) <= (2 * m + 1) * Pow2(k)
    ensures GetSkipHeight((2 * m + 1) * Pow2(k)) == (2 * m + 1) * Pow2(k) - Pow2(k)
  {
    hide InvertLowestOne;
    var h := Pow2(k - 1);
    Twice(2 * m + 1, h);
    MulAtLeast(2 * m + 1, Pow2(k));
    InvertsLowestOne(m, k);
    AddColumn(2 * m, 1, Pow2(k));
  }

  lemma OddSkip(e: nat)
    requires e >= 2 && e % 2 == 0
    ensures GetSkipHeight(e + 1) == InvertLowestOne(InvertLowestOne(e)) + 1
  {
  }

  /** Below a multiple of 2^k the bits under k are all ones; clearing one clears the next. */
  lemma ClearsNext(x: nat, k: nat, i: nat)
    requires x >= 1 && i < k
    ensures 0 < x * Pow2(k) - Pow2(i) && InvertLowestOne(x * Pow2(k) - Pow2(i)) == x * Pow2(k) - Pow2(i + 1) >= 0
  {
    hide InvertLowestOne;
    var m := OddPart(x, k, i);
    InvertsLowestOne(m, i);
    AddColumn(2 * m, 1, Pow2(i));
    MulMono(0, 2 * m, Pow2(i));
  }

  /** x 2^k - 2^i is an odd multiple of 2^i. */
  lemma OddPart(x: nat, k: nat, i: nat) returns (m: nat)
    requires x >= 1 && i < k
    ensures x * Pow2(k) - Pow2(i) == (2 * m + 1) * Pow2(i)
  {
    var p, q := Pow2(i), Pow2(k - i - 1);
    Pow2Add(k - i - 1, i + 1);
    assert Pow2(i + 1) == 2 * p;
    var y := x * q;
    MulAtLeast(x, q);
    m := y - 1;
    assert x * Pow2(k) == x * (q * (2 * p)) == (2 * y) * p by {
      MulAssoc(x, q, 2 * p);
      Twice(y, p);
      MulAssoc(2, y, p);
    }
    AddColumn(2 * m + 1, 1, p);
  }

  lemma EvenBelow(x: nat, k: nat, i: nat)
    requires x >= 1 && 1 <= i < k
    ensures 2 <= x * Pow2(k) - Pow2(i) && (x * Pow2(k) - Pow2(i)) % 2 == 0
  {
    var m := OddPart(x, k, i);
    var h := Pow2(i - 1);
    Twice(2 * m + 1, h);
    MulAtLeast(2 * m + 1, h);
    DivUnique((2 * m + 1) * Pow2(i), (2 * m + 1) * h, 0, 2);
  }

  /** Two bits at a time: from one over W - 2^i to one over W - 2^(i + 2). */
  lemma OddNext(x: nat, k: nat, i: nat)
    requires x >= 1 && 1 <= i && i + 2 <= k
    ensures x * Pow2(k) - Pow2(i) >= 0 && x * Pow2(k) - Pow2(i + 2) >= 0
    ensures GetSkipHeight(x * Pow2(k) - Pow2(i) + 1) == x * Pow2(k) - Pow2(i + 2) + 1
  {
    hide InvertLowestOne, GetSkipHeight;
    EvenBelow(x, k, i);
    OddSkip(x * Pow2(k) - Pow2(i));
    ClearsNext(x, k, i);
    ClearsNext(x, k, i + 1);
  }

  /** And the last skip of this kind leaves the interval. */
  lemma OddLast(x: nat, k: nat)
    requires x >= 1 && k >= 2
    ensures 0 <= x * Pow2(k) - Pow2(k)
    ensures GetSkipHeight(x * Pow2(k) - Pow2(k - 1) + 1) <= x * Pow2(k) - Pow2(k) + 1
  {
    hide InvertLowestOne, GetSkipHeight;
    EvenBelow(x, k, k - 1);
    OddSkip(x * Pow2(k) - Pow2(k - 1));
    ClearsNext(x, k, k - 1);
    InvertDrops(x * Pow2(k) - Pow2(k));
  }

  // ---------- The walk on heights ----------

  /** Where the skip goes below the target, the walk goes to the parent. */
  lemma ToParent(w: nat, t: nat)
    requires t < w && GetSkipHeight(w) < t
    ensures Steps(w, t) == 1 + Steps(w - 1, t)
  {
    hide GetSkipHeight;
  }

  /** Where the skip of the parent is not better, the walk skips. */
  lemma ToSkip(w: nat, t: nat)
    requires t < w && GetSkipHeight(w) >= t
    requires GetSkipHeight(w) == t || GetSkipHeight(w - 1) >= GetSkipHeight(w) - 2 || GetSkipHeight(w - 1) < t
    ensures Steps(w, t) == 1 + Steps(GetSkipHeight(w), t)
  {
    hide GetSkipHeight;
  }

  /** From an odd height the skip is taken whenever it can be. */
  lemma OddTakes(e: nat, t: nat)
    requires e >= 2 && e % 2 == 0 && t <= GetSkipHeight(e + 1) && t < e + 1
    ensures Steps(e + 1, t) == 1 + Steps(GetSkipHeight(e + 1), t)
  {
    hide InvertLowestOne;
    InvertDrops(InvertLowestOne(e));
    ToSkip(e + 1, t);
  }

  /** From an even height that an odd one above it could not skip past, too. */
  lemma EvenTakes(m: nat, k: nat, t: nat)
    requires k >= 1
    requires var e := (2 * m + 1) * Pow2(k); t <= e - Pow2(k) && (k >= 3 || GetSkipHeight(e + 1) < t)
    ensures var e := (2 * m + 1) * Pow2(k); Steps(e, t) == 1 + Steps(e - Pow2(k), t)
  {
    hide InvertLowestOne, Steps;
    var e := (2 * m + 1) * Pow2(k);
    var s := e - Pow2(k);
    EvenSkip(m, k);
    if s != t {
      if k >= 3 {
        SmallPowers();
        OddNext(2 * m + 1, k, 1);
        Pow2Mono(3, k);
      } else {
        NotBetter(m, k);
      }
    }
    ToSkip(e, t);
  }

  lemma SmallPowers()
    ensures Pow2(0) == 1 && Pow2(1) == 2 && Pow2(2) == 4 && Pow2(3) == 8
  {
  }

  /** The parent of a multiple of two or four skips no higher than its child. */
  lemma NotBetter(m: nat, k: nat)
    requires m >= 1 && 1 <= k <= 2
    ensures var e := (2 * m + 1) * Pow2(k); GetSkipHeight(e - 1) <= GetSkipHeight(e + 1)
  {
    hide InvertLowestOne;
    SmallPowers();
    var e := (2 * m + 1) * Pow2(k);
    InvertsLowestOne(m, k);
    var s := 2 * m * Pow2(k);
    OddSkip(e);
    OddSkip(e - 2);
    if k == 1 {
      InvertDrops(InvertLowestOne(s));
    } else {
      InvertsLowestOne(2 * m, 1);
      assert e - 2 == (2 * (2 * m) + 1) * 2;
    }
  }

  // ---------- Within an interval of 2^k ----------

  /** Steps from W = (2 m + 1) 2^k to a target above W - 2^k. */
  lemma {:induction false} Interval(m: nat, k: nat, t: nat)
    requires k >= 1
    requires var w := (2 * m + 1) * Pow2(k); w - Pow2(k) < t <= w
    ensures 4 * Steps((2 * m + 1) * Pow2(k), t) <= k * (k + 9)
    decreases k, 1, 0
  {
    hide Steps, GetSkipHeight;
    var w := (2 * m + 1) * Pow2(k);
    EvenSkip(m, k);
    MulMono(0, k, k + 9);
    if t < w {
      ToParent(w, t);
      SmallPowers();
      Descent(m, k, 0, t);
    } else {
      NoSteps(t, t);
    }
  }

  /** The same from one over W - 2^(2 j + 1), which j skips of two bits have reached. */
  lemma {:induction false} Descent(m: nat, k: nat, j: nat, t: nat)
    requires 2 * j + 1 <= k
    requires var w := (2 * m + 1) * Pow2(k); w - Pow2(k) < t <= w - Pow2(2 * j + 1) + 1
    ensures 4 * (Steps((2 * m + 1) * Pow2(k) - Pow2(2 * j + 1) + 1, t) + j + 1) <= k * (k + 9)
    decreases k, 0, k - 2 * j
  {
    hide Steps, GetSkipHeight, Pow2;
    var w, i := (2 * m + 1) * Pow2(k), 2 * j + 1;
    var u := w - Pow2(i) + 1;
    Grows(k);
    if u == t {
      NoSteps(t, t);
    } else {
      EvenBelow(2 * m + 1, k, i);
      if i + 2 <= k {
        OddNext(2 * m + 1, k, i);
        if w - Pow2(i + 2) + 1 >= t {
          OddTakes(u - 1, t);
          Descent(m, k, j + 1, t);
        } else {
          ToParent(u, t);
          Turn(m, k, j, t);
        }
      } else {
        OddLast(2 * m + 1, k);
        if GetSkipHeight(u) == t {
          OddTakes(u - 1, t);
          NoSteps(t, t);
        } else {
          ToParent(u, t);
          Turn(m, k, j, t);
        }
      }
    }
  }

  lemma Grows(k: nat)
    requires k >= 1
    ensures k * (k + 9) >= 2 * k + 8
  {
    if k == 1 {
    } else {
      MulMono(2, k, k + 9);
      assert k * (k + 9) >= 2 * (k + 9);
    }
  }

  /** The walk is at W - 2^(2 j + 1) and goes on in a smaller interval. */
  lemma {:induction false} Turn(m: nat, k: nat, j: nat, t: nat)
    requires 2 * j + 1 < k
    requires var w := (2 * m + 1) * Pow2(k);
      && w - Pow2(k) < t <= w - Pow2(2 * j + 1)
      && (2 * j + 3 <= k ==> w - Pow2(2 * j + 3) + 1 < t)
    ensures 4 * (Steps((2 * m + 1) * Pow2(k) - Pow2(2 * j + 1), t) + j + 2) <= k * (k + 9)
    decreases k, 0, 0
  {
    hide Steps, GetSkipHeight, Pow2;
    var x, w, i := 2 * m + 1, (2 * m + 1) * Pow2(k), 2 * j + 1;
    var a := OddPart(x, k, i);
    Doubles(i);
    Doubles(i + 1);
    if w - Pow2(i + 1) < t {
      Interval(a, i, t);
      Longer(i, k);
    } else {
      TurnSkips(m, k, j, t, a);
      var b := OddPart(x, k, i + 1);
      Interval(b, i + 1, t);
      Longer(i + 1, k);
    }
  }

  lemma Doubles(i: nat)
    ensures Pow2(i + 1) == 2 * Pow2(i)
  {
  }

  lemma Longer(i: nat, k: nat)
    requires i < k
    ensures k * (k + 9) >= i * (i + 9) + 2 * i + 10
  {
    MulMono(i + 1, k, i + 10);
    MulMono(i + 10, k + 9, k);
    assert (i + 10) * k == k * (i + 10) && (k + 9) * k == k * (k + 9);
    assert (i + 1) * (i + 10) == i * (i + 9) + 2 * i + 10;
  }

  lemma TurnSkips(m: nat, k: nat, j: nat, t: nat, a: nat)
    requires var w, i := (2 * m + 1) * Pow2(k), 2 * j + 1;
      && i + 2 <= k && w - Pow2(i) == (2 * a + 1) * Pow2(i)
      && w - Pow2(i + 2) + 1 < t <= w - Pow2(i + 1)
    ensures var w, i := (2 * m + 1) * Pow2(k), 2 * j + 1;
      Steps(w - Pow2(i), t) == 1 + Steps(w - Pow2(i + 1), t)
  {
    hide Steps, GetSkipHeight, Pow2;
    var w, i := (2 * m + 1) * Pow2(k), 2 * j + 1;
    Doubles(i);
    OddNext(2 * m + 1, k, i);
    EvenTakes(a, i, t);
  }

  // ---------- From any height ----------

  /** The exponent of a power of two within a bound. */
  lemma WithinBits(m: nat, k: nat, b: nat)
    requires (2 * m + 1) * Pow2(k) < Pow2(b)
    ensures k < b && k * (k + 9) <= b * (b + 9)
  {
    MulAtLeast(2 * m + 1, Pow2(k));
    if k >= b {
      Pow2Mono(b, k);
    } else {
      Longer(k, b);
    }
  }

  /** Clearing a bit leaves zero, or a number whose lowest bit is higher. */
  lemma Cleared(m: nat, k: nat) returns (a: nat, c: nat)
    requires m >= 1
    ensures (2 * m + 1) * Pow2(k) - Pow2(k) == (2 * a + 1) * Pow2(c) && c > k
  {
    var d;
    a, d := LowestOne(m);
    c := d + k + 1;
    Pow2Add(d, k + 1);
    AddColumn(2 * m, 1, Pow2(k));
    Twice(m, Pow2(k));
    MulAssoc(2, m, Pow2(k));
    MulAssoc(2 * a + 1, Pow2(d), 2 * Pow2(k));
  }

  /** From a multiple of eight: bits are cleared while that stays above the target. */
  lemma {:induction false} FromEight(m: nat, k: nat, t: nat, b: nat)
    requires k >= 3
    requires var w := (2 * m + 1) * Pow2(k); t <= w < Pow2(b)
    ensures k < b && 4 * Steps((2 * m + 1) * Pow2(k), t) <= 4 * (b - k) + b * (b + 9)
    decreases b - k
  {
    hide Steps, GetSkipHeight, Pow2;
    var w := (2 * m + 1) * Pow2(k);
    WithinBits(m, k, b);
    EvenSkip(m, k);
    if w - Pow2(k) < t {
      Interval(m, k, t);
    } else {
      EvenTakes(m, k, t);
      if m == 0 {
        NoSteps(t, t);
      } else {
        var a, c := Cleared(m, k);
        FromEight(a, c, t, b);
      }
    }
  }

  /** From an odd height: two bits at a time while that stays above the target. */
  lemma {:induction false} FromOdd(m: nat, k: nat, t: nat, b: nat)
    requires k >= 1
    requires var e := (2 * m + 1) * Pow2(k); t <= e + 1 && e < Pow2(b)
    ensures k < b && 4 * Steps((2 * m + 1) * Pow2(k) + 1, t) <= 4 * (b - k + 2) + b * (b + 9)
    decreases b - k
  {
    hide Steps, GetSkipHeight, Pow2, InvertLowestOne;
    var e := (2 * m + 1) * Pow2(k);
    WithinBits(m, k, b);
    EvenSkip(m, k);
    EvenMultiple(m, k);
    OddSkip(e);
    InvertsLowestOne(m, k);
    AddColumn(2 * m, 1, Pow2(k));
    if t == e + 1 {
      NoSteps(t, t);
    } else if GetSkipHeight(e + 1) >= t {
      OddTakes(e, t);
      TwoCleared(m, k, t, b);
    } else {
      ToParent(e + 1, t);
      AtEven(m, k, t, b);
    }
  }

  lemma EvenMultiple(m: nat, k: nat)
    requires k >= 1
    ensures (2 * m + 1) * Pow2(k) % 2 == 0
  {
    var h := Pow2(k - 1);
    Twice(2 * m + 1, h);
    DivUnique((2 * m + 1) * Pow2(k), (2 * m + 1) * h, 0, 2);
  }

  /** One over a number with two bits fewer. */
  lemma {:induction false} TwoCleared(m: nat, k: nat, t: nat, b: nat)
    requires k >= 1
    requires var e := (2 * m + 1) * Pow2(k); e < Pow2(b) && t <= InvertLowestOne(InvertLowestOne(e)) + 1
    ensures k < b
    ensures var u := InvertLowestOne(InvertLowestOne((2 * m + 1) * Pow2(k))) + 1;
      4 * (Steps(u, t) + 1) <= 4 * (b - k + 2) + b * (b + 9)
    decreases b - k, 0
  {
    hide Steps, GetSkipHeight, Pow2, InvertLowestOne;
    var e := (2 * m + 1) * Pow2(k);
    WithinBits(m, k, b);
    InvertsLowestOne(m, k);
    AddColumn(2 * m, 1, Pow2(k));
    MulMono(0, b, b + 9);
    if m == 0 {
      InvertZero();
      FromOne(t);
    } else {
      var a, c := Cleared(m, k);
      InvertsLowestOne(a, c);
      AddColumn(2 * a, 1, Pow2(c));
      if a == 0 {
        FromOne(t);
      } else {
        var d, f := Cleared(a, c);
        FromOdd(d, f, t, b);
      }
    }
  }

  lemma InvertZero()
    ensures InvertLowestOne(0) == 0
  {
  }

  lemma FromOne(t: nat)
    requires t <= 1
    ensures Steps(1, t) <= 1
  {
    NoSteps(1, 1);
    NoSteps(0, 0);
  }

  /** At an even height that the odd one above it could not skip past. */
  lemma {:induction false} AtEven(m: nat, k: nat, t: nat, b: nat)
    requires k >= 1
    requires var e := (2 * m + 1) * Pow2(k); t <= e < Pow2(b) && GetSkipHeight(e + 1) < t
    ensures k < b && 4 * (Steps((2 * m + 1) * Pow2(k), t) + 1) <= 4 * (b - k + 2) + b * (b + 9)
  {
    hide Steps, GetSkipHeight, Pow2, InvertLowestOne;
    var e := (2 * m + 1) * Pow2(k);
    WithinBits(m, k, b);
    EvenSkip(m, k);
    if e - Pow2(k) < t {
      Interval(m, k, t);
    } else {
      EvenTakes(m, k, t);
      if m == 0 {
        NoSteps(t, t);
      } else {
        var a, c := Cleared(m, k);
        EvenMultiple(m, k);
        OddSkip(e);
        InvertsLowestOne(m, k);
        AddColumn(2 * m, 1, Pow2(k));
        InvertsLowestOne(a, c);
        AddColumn(2 * a, 1, Pow2(c));
        WithinBits(a, c, b);
        Interval(a, c, t);
      }
    }
  }

  /** From any even height. */
  lemma {:induction false} FromEven(m: nat, k: nat, t: nat, b: nat)
    requires k >= 1
    requires var w := (2 * m + 1) * Pow2(k); t <= w < Pow2(b)
    ensures k < b && 4 * Steps((2 * m + 1) * Pow2(k), t) <= 4 * (b - k + 4) + b * (b + 9)
    decreases b - k
  {
    hide Steps, GetSkipHeight, Pow2, InvertLowestOne, NextHeight;
    var w := (2 * m + 1) * Pow2(k);
    WithinBits(m, k, b);
    EvenSkip(m, k);
    if t == w {
      NoSteps(t, t);
    } else if k >= 3 {
      FromEight(m, k, t, b);
    } else {
      OneStep(w, t);
      Detour(w, t);
      if NextHeight(w, t) == w - Pow2(k) {
        if m == 0 {
          NoSteps(t, t);
        } else {
          var a, c := Cleared(m, k);
          FromEven(a, c, t, b);
        }
      } else if w - Pow2(k) < t {
        Interval(m, k, t);
      } else {
        var a, c := BelowTwo(m, k);
        FromOdd(a, c, t, b);
      }
    }
  }

  lemma Detour(w: nat, t: nat)
    requires t < w
    ensures NextHeight(w, t) == GetSkipHeight(w) || NextHeight(w, t) == w - 1
    ensures NextHeight(w, t) != GetSkipHeight(w) ==> GetSkipHeight(w) < t || (GetSkipHeight(w) > 2 && t < w - 1)
  {
    hide GetSkipHeight;
    SkipsBack(w);
  }

  lemma BelowTwo(m: nat, k: nat) returns (a: nat, c: nat)
    requires m >= 1 && 1 <= k <= 2
    ensures (2 * m + 1) * Pow2(k) - 2 == (2 * a + 1) * Pow2(c) && c >= 1
  {
    SmallPowers();
    var w := (2 * m + 1) * Pow2(k);
    if k == 1 {
      a, c := LowestOne(m);
      c := c + 2;
    } else {
      a, c := 2 * m, 1;
    }
  }

  /** From any height: a quarter of the square of the number of bits, and a linear part. */
  lemma StepsBound(w: nat, t: nat, b: nat)
    requires t <= w < Pow2(b)
    ensures 4 * Steps(w, t) <= b * b + 13 * b + 12
  {
    hide Steps, GetSkipHeight, Pow2;
    assert b * (b + 9) == b * b + 9 * b;
    MulMono(0, b, b);
    if w <= 1 {
      FromZero(t);
      if w == 1 {
        FromOne(t);
      }
    } else if w % 2 == 0 {
      var m, k := LowestOne(w);
      OddPower(m, k, w);
      FromEven(m, k, t, b);
    } else {
      var m, k := LowestOne(w - 1);
      OddPower(m, k, w - 1);
      FromOdd(m, k, t, b);
    }
  }

  lemma FromZero(t: nat)
    ensures Steps(0, t) == 0
  {
  }

  lemma OddPower(m: nat, k: nat, w: nat)
    requires w == (2 * m + 1) * Pow2(k) && w % 2 == 0
    ensures k >= 1
  {
    assert Pow2(0) == 1;
  }

  // ---------- The square is needed ----------

  /** What the walk takes at least, four times. */
  function Slow(k: nat): int {
    k * k + 5 * k - 6
  }

  /** Down to two over the end of an interval of 2^k the walk takes a quarter of the square of k. */
  lemma {:induction false} SlowInterval(m: nat, k: nat)
    requires k >= 1
    ensures var w := (2 * m + 1) * Pow2(k);
      w - Pow2(k) + 2 >= 0 && 4 * Steps(w, w - Pow2(k) + 2) >= Slow(k)
    decreases k, 1, 0
  {
    hide Steps, GetSkipHeight;
    var w := (2 * m + 1) * Pow2(k);
    EvenSkip(m, k);
    SmallPowers();
    if k == 1 {
      NoSteps(w, w);
    } else {
      Pow2Strict(1, k);
      ToParent(w, w - Pow2(k) + 2);
      SlowDescent(m, k, 0);
    }
  }

  lemma {:induction false} SlowDescent(m: nat, k: nat, j: nat)
    requires 2 * j + 1 < k
    ensures var w := (2 * m + 1) * Pow2(k);
      && w - Pow2(k) + 2 >= 0 && w - Pow2(2 * j + 1) + 1 >= 0
      && 4 * (Steps(w - Pow2(2 * j + 1) + 1, w - Pow2(k) + 2) + j + 1) >= Slow(k)
    decreases k, 0, k - 2 * j
  {
    hide Steps, GetSkipHeight, Pow2, Slow;
    var x, w := 2 * m + 1, (2 * m + 1) * Pow2(k);
    EvenSkip(m, k);
    if 2 * j + 3 < k {
      SlowSkip(x, k, 2 * j + 1, w, w - Pow2(k) + 2);
      SlowDescent(m, k, j + 1);
    } else {
      SlowParent(x, k, 2 * j + 1, w, w - Pow2(k) + 2);
      SlowTurn(m, k, j);
    }
  }

  lemma SlowSkip(x: nat, k: nat, i: nat, w: nat, t: nat)
    requires x >= 1 && 1 <= i && i + 2 < k && w == x * Pow2(k) && t == w - Pow2(k) + 2
    ensures w - Pow2(i) + 1 >= 0 && w - Pow2(i + 2) + 1 >= 0
    ensures Steps(w - Pow2(i) + 1, t) == 1 + Steps(w - Pow2(i + 2) + 1, t)
  {
    hide Steps, GetSkipHeight, Pow2;
    EvenBelow(x, k, i);
    OddNext(x, k, i);
    Pow2Strict(i, i + 2);
    Pow2Strict(i + 2, k);
    OddTakes(w - Pow2(i), t);
  }

  lemma SlowParent(x: nat, k: nat, i: nat, w: nat, t: nat)
    requires x >= 1 && 1 <= i < k <= i + 2 && w == x * Pow2(k) && t == w - Pow2(k) + 2
    ensures w - Pow2(i) >= 0 && Steps(w - Pow2(i) + 1, t) == 1 + Steps(w - Pow2(i), t)
  {
    hide Steps, GetSkipHeight, Pow2;
    EvenBelow(x, k, i);
    SmallPowers();
    Pow2Mono(1, i);
    Doubles(i);
    Pow2Mono(i + 1, k);
    if i + 2 == k {
      OddNext(x, k, i);
    } else {
      OddLast(x, k);
    }
    ToParent(w - Pow2(i) + 1, t);
  }

  lemma {:induction false} SlowTurn(m: nat, k: nat, j: nat)
    requires 2 * j + 1 < k <= 2 * j + 3
    ensures var w := (2 * m + 1) * Pow2(k);
      && w - Pow2(k) + 2 >= 0 && w - Pow2(2 * j + 1) >= 0
      && 4 * (Steps(w - Pow2(2 * j + 1), w - Pow2(k) + 2) + j + 2) >= Slow(k)
    decreases k, 0, 0
  {
    hide Steps, GetSkipHeight, Pow2;
    var x, w, i := 2 * m + 1, (2 * m + 1) * Pow2(k), 2 * j + 1;
    var e := OddPart(x, k, i);
    EvenSkip(m, k);
    EvenBelow(x, k, i);
    Doubles(i);
    assert (k - 1) * (k - 1) == k * k - 2 * k + 1;
    if i + 2 == k {
      Doubles(i + 1);
      SmallPowers();
      Pow2Mono(1, i);
      TurnSkips(m, k, j, w - Pow2(k) + 2, e);
      var f := OddPart(x, k, i + 1);
      SlowInterval(f, i + 1);
    } else {
      SlowInterval(e, i);
    }
  }

  /** No multiple of the number of bits bounds the steps: from 2^k down to two they grow with its square. */
  lemma StepsGrow(k: nat)
    requires k >= 1
    ensures 4 * Steps(Pow2(k), 2) >= Slow(k)
  {
    hide Steps, Pow2;
    SlowInterval(0, k);
  }
}
