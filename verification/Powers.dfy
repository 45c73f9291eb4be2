/** Powers, and division with remainder. */
module Powers {

  function Pow(b: nat, e: nat): nat {
    if e == 0 then 1 else b * Pow(b, e - 1)
  }

  lemma {:induction false} PowPositive(b: nat, e: nat)
    requires b >= 1
    ensures Pow(b, e) >= 1
  {
    if e > 0 {
      PowPositive(b, e - 1);
      MulAtLeast(Pow(b, e - 1), b);
    }
  }

  lemma {:induction false} PowAdd(b: nat, x: nat, y: nat)
    ensures Pow(b, x + y) == Pow(b, x) * Pow(b, y)
  {
    if x > 0 {
      PowAdd(b, x - 1, y);
      assert b * (Pow(b, x - 1) * Pow(b, y)) == (b * Pow(b, x - 1)) * Pow(b, y);
    }
  }

  lemma {:induction false} PowMono(b: nat, x: nat, y: nat)
    requires b >= 1 && x <= y
    ensures Pow(b, x) <= Pow(b, y)
  {
    PowAdd(b, x, y - x);
    PowPositive(b, y - x);
    PowPositive(b, x);
    MulAtLeast(Pow(b, y - x), Pow(b, x));
  }

  lemma {:induction false} PowPow(b: nat, x: nat, y: nat)
    ensures Pow(Pow(b, x), y) == Pow(b, x * y)
  {
    if y > 0 {
      PowPow(b, x, y - 1);
      assert x * y == x + x * (y - 1);
      PowAdd(b, x, x * (y - 1));
    } else {
      assert x * 0 == 0;
    }
  }

  lemma MulAssoc(a: int, b: int, c: int)
    ensures (a * b) * c == a * (b * c)
  {
  }

  lemma MulCommutes(a: int, b: int)
    ensures a * b == b * a
  {
  }

  lemma AddColumn(a: int, b: int, p: int)
    ensures (a + b) * p == a * p + b * p
  {
  }

  lemma Regroup(a: int, b: int, c: int, d: int)
    ensures (a * b) * (c * d) == (a * c) * (b * d)
  {
    MulAssoc(a, b, c * d);
    MulAssoc(b, c, d);
    assert b * c == c * b;
    MulAssoc(c, b, d);
    MulAssoc(a, c, b * d);
  }

  lemma {:induction false} PowBaseMono(a: nat, b: nat, e: nat)
    requires a <= b
    ensures Pow(a, e) <= Pow(b, e)
  {
    if e > 0 {
      PowBaseMono(a, b, e - 1);
      MulMono(a, b, Pow(a, e - 1));
      MulMono(Pow(a, e - 1), Pow(b, e - 1), b);
      assert Pow(a, e - 1) * b == b * Pow(a, e - 1);
      assert Pow(b, e - 1) * b == b * Pow(b, e - 1);
    }
  }

  function Pow2(k: nat): (r: nat)
    ensures r >= 1
  {
    if k == 0 then 1 else 2 * Pow2(k - 1)
  }

  lemma {:induction false} Pow2Add(x: nat, y: nat)
    ensures Pow2(x + y) == Pow2(x) * Pow2(y)
  {
    if x > 0 {
      Pow2Add(x - 1, y);
      assert 2 * (Pow2(x - 1) * Pow2(y)) == (2 * Pow2(x - 1)) * Pow2(y);
    }
  }

  lemma {:induction false} Pow2Mono(x: nat, y: nat)
    requires x <= y
    ensures Pow2(x) <= Pow2(y)
  {
    Pow2Add(x, y - x);
    MulAtLeast(Pow2(y - x), Pow2(x));
  }

  lemma {:induction false} Pow2Strict(x: nat, y: nat)
    requires x < y
    ensures Pow2(x) < Pow2(y)
  {
    Pow2Mono(x, y - 1);
  }

  lemma {:induction false} Pow2Exceeds(k: nat)
    ensures k < Pow2(k)
  {
    if k > 0 {
      Pow2Exceeds(k - 1);
    }
  }

  lemma MulMono(a: int, b: int, n: nat)
    requires a <= b
    ensures a * n <= b * n
  {
  }

  lemma MulAtLeast(k: int, n: nat)
    requires k >= 1
    ensures k * n >= n
  {
    MulMono(1, k, n);
  }

  lemma MulStrict(a: int, b: int, n: nat)
    requires a < b && n >= 1
    ensures a * n < b * n
  {
    MulMono(a + 1, b, n);
    assert (a + 1) * n == a * n + n;
  }

  /** Quotient and remainder are determined. */
  lemma DivUnique(x: int, q: int, r: int, n: nat)
    requires x == q * n + r && 0 <= r < n
    ensures x / n == q && x % n == r
  {
    var d, m := x / n, x % n;
    assert x == d * n + m;
    assert (q - d) * n == m - r && (d - q) * n == r - m;
    if q > d {
      MulAtLeast(q - d, n);
    } else if q < d {
      MulAtLeast(d - q, n);
    }
  }

  lemma DivMod(x: int, n: nat)
    requires n >= 1
    ensures x == (x / n) * n + x % n && 0 <= x % n < n
  {
  }

  /** Adding a multiple of the divisor. */
  lemma AddMultiple(x: int, k: int, n: nat)
    requires n >= 1
    ensures (x + k * n) % n == x % n && (x + k * n) / n == x / n + k
  {
    DivMod(x, n);
    assert x + k * n == (x / n + k) * n + x % n;
    DivUnique(x + k * n, x / n + k, x % n, n);
  }

  /** Dividing twice is dividing by the product. */
  lemma DivDiv(x: nat, a: nat, b: nat)
    requires a >= 1 && b >= 1
    ensures a * b >= 1 && x / a / b == x / (a * b)
  {
    MulAtLeast(a, b);
    var q, r := x / a, x % a;
    var q', r' := q / b, q % b;
    DivMod(x, a);
    DivMod(q, b);
    AddColumn(q' * b, r', a);
    MulAssoc(q', b, a);
    MulCommutes(a, b);
    MulMono(r' + 1, b, a);
    AddColumn(r', 1, a);
    MulMono(0, r', a);
    DivUnique(x, q', r' * a + r, a * b);
  }

  lemma DivMono(x: int, y: int, n: nat)
    requires x <= y && n >= 1
    ensures x / n <= y / n
  {
    DivMod(x, n);
    DivMod(y, n);
    assert (y / n + 1) * n == y / n * n + n;
    if x / n > y / n {
      MulMono(y / n + 1, x / n, n);
    }
  }

  lemma DivNonNegative(x: nat, n: nat)
    requires n >= 1
    ensures 0 <= x / n <= x
  {
    DivMod(x, n);
    if x / n < 0 {
      MulMono(x / n, -1, n);
    } else {
      MulMono(1, n, x / n);
      assert n * (x / n) == (x / n) * n;
    }
  }
}
