/** Amount compression (CTxOutCompressor in src/compressor.cpp), on 64-bit words. */
module Amounts {
  import opened Powers

  const U64 := 0x1_0000_0000_0000_0000
  const COIN := 100_000_000
  const MAX_MONEY := 21_000_000 * COIN

  /** Up to nine factors of ten taken out. */
  ghost function Strip(n: nat, e: nat): (nat, nat)
    decreases n, 9 - e
  {
    if n > 0 && n % 10 == 0 && e < 9 then Strip(n / 10, e + 1) else (n, e)
  }

  /** 1 + 10 (9 n + d - 1) + e for (10 n + d) 10^e, and 1 + 10 (n - 1) + 9 for n 10^9. */
  ghost function Compressed(n: nat): (x: nat) {
    if n == 0 then 0 else
      var (m, e) := Strip(n, 0);
      StripRight(n, 0);
      if e < 9 then 1 + (m / 10 * 9 + m % 10 - 1) * 10 + e else 1 + (m - 1) * 10 + 9
  }

  ghost function Decompressed(x: nat): (n: nat) {
    if x == 0 then 0 else
      var e, y := (x - 1) % 10, (x - 1) / 10;
      (if e < 9 then y / 9 * 10 + (y % 9 + 1) else y + 1) * Pow(10, e)
  }

  lemma {:induction false} StripRight(n: nat, e: nat)
    requires n > 0 && e <= 9
    ensures var (m, f) := Strip(n, e);
      && m > 0 && e <= f <= 9 && n == m * Pow(10, f - e) && m <= n && (f < 9 ==> m % 10 != 0)
    decreases n
  {
    if n % 10 == 0 && e < 9 {
      StripRight(n / 10, e + 1);
      var (m, f) := Strip(n / 10, e + 1);
      assert Pow(10, f - e) == 10 * Pow(10, f - e - 1);
      assert m * (10 * Pow(10, f - e - 1)) == 10 * (m * Pow(10, f - e - 1));
    }
  }

  lemma StripStep(v: nat, e: nat)
    requires v > 0
    ensures e < 9 ==> Strip(10 * v, e) == Strip(v, e + 1)
    ensures e >= 9 || v % 10 != 0 ==> Strip(v, e) == (v, e)
  {
    assert 10 * v / 10 == v && 10 * v % 10 == 0;
  }

  /** Multiples of ten are stripped. */
  lemma {:induction false} StripPower(m: nat, k: nat, e: nat)
    requires m > 0 && e + k <= 9 && (e + k == 9 || m % 10 != 0)
    ensures m * Pow(10, k) > 0 && Strip(m * Pow(10, k), e) == (m, e + k)
    decreases k
  {
    hide Strip, Pow;
    TenPower(k);
    if k > 0 {
      StripPower(m, k - 1, e + 1);
      StripStep(m * Pow(10, k - 1), e);
      TenTimes(m, Pow(10, k - 1));
    } else {
      StripStep(m, e);
    }
  }

  lemma TenPower(k: nat)
    ensures Pow(10, 0) == 1 && (k > 0 ==> Pow(10, k) == 10 * Pow(10, k - 1))
  {
  }

  lemma TenTimes(m: int, p: int)
    ensures m * (10 * p) == 10 * (m * p)
  {
  }

  /** Decompression inverts compression. */
  lemma AmountBack(n: nat)
    ensures Decompressed(Compressed(n)) == n
  {
    if n > 0 {
      var (m, e) := Strip(n, 0);
      StripRight(n, 0);
      var y := (Compressed(n) - 1) / 10;
      if e < 9 {
        assert y == m / 10 * 9 + (m % 10 - 1);
        DivUnique(y, m / 10, m % 10 - 1, 9);
      } else {
        assert y == m - 1;
      }
    }
  }

  /** And every word is the compression of one amount. */
  lemma WordBack(x: nat)
    ensures Compressed(Decompressed(x)) == x
  {
    hide Strip, Pow;
    if x > 0 {
      var e, y := (x - 1) % 10, (x - 1) / 10;
      if e < 9 {
        SplitDigit(y);
        StripPower(y / 9 * 10 + (y % 9 + 1), e, 0);
      } else {
        StripPower(y + 1, 9, 0);
      }
    }
  }

  /** The last digit, which is not zero, taken modulo nine. */
  lemma SplitDigit(y: nat)
    ensures var m := y / 9 * 10 + (y % 9 + 1);
      m > 0 && m % 10 == y % 9 + 1 && m / 10 == y / 9 && m / 10 * 9 + m % 10 - 1 == y
  {
    DivUnique(y / 9 * 10 + (y % 9 + 1), y / 9, y % 9 + 1, 10);
  }

  /** The word of (10 n + d) 10^e, with a last digit d that is not zero, and that of (n + 1) 10^9. */
  lemma AmountMeans(n: nat, d: nat, e: nat)
    requires 1 <= d <= 9 && e < 9
    ensures Compressed(0) == 0
    ensures (10 * n + d) * Pow(10, e) >= 0 && Compressed((10 * n + d) * Pow(10, e)) == 1 + 10 * (9 * n + d - 1) + e
    ensures Compressed((n + 1) * 1_000_000_000) == 1 + 10 * n + 9
  {
    hide Strip, Pow;
    StripPower(10 * n + d, e, 0);
    StripPower(n + 1, 9, 0);
    Billion();
    DivUnique(10 * n + d, n, d, 10);
  }

  lemma Billion()
    ensures Pow(10, 9) == 1_000_000_000
  {
  }

  /** Nine times the amount, and ten more, bound the word. */
  lemma CompressedBound(n: nat)
    ensures Compressed(n) <= 9 * n + 10
  {
    if n > 0 {
      var (m, e) := Strip(n, 0);
      StripRight(n, 0);
      if e == 9 {
        assert Pow(10, 9) == 1_000_000_000;
      }
    }
  }

  method CompressAmount(n0: nat) returns (x: nat)
    requires n0 < U64
    ensures x == Compressed(n0) % U64
  {
    if n0 == 0 {
      return 0;
    }
    var n, e := n0, 0;
    while n % 10 == 0 && e < 9
      invariant n > 0 && 0 <= e <= 9 && Strip(n, e) == Strip(n0, 0)
      decreases 9 - e
    {
      n := n / 10;
      e := e + 1;
    }
    if e < 9 {
      var d := n % 10;
      assert 1 <= d <= 9;
      n := n / 10;
      return (1 + (n * 9 + d - 1) * 10 + e) % U64;
    } else {
      return (1 + (n - 1) * 10 + 9) % U64;
    }
  }

  lemma TimesTen(n: nat, p: nat)
    ensures ((n * 10) % U64 * p) % U64 == (n * (10 * p)) % U64
  {
    var q := n * 10 / U64;
    DivMod(n * 10, U64);
    MulAssoc(n, 10, p);
    AddColumn(q * U64, (n * 10) % U64, p);
    assert q * U64 * p == (q * p) * U64;
    AddMultiple((n * 10) % U64 * p, q * p, U64);
  }

  method DecompressAmount(x0: nat) returns (n: nat)
    requires x0 < U64
    ensures n == Decompressed(x0) % U64
  {
    if x0 == 0 {
      return 0;
    }
    var x := x0 - 1;
    var e := x % 10;
    x := x / 10;
    if e < 9 {
      var d := x % 9 + 1;
      x := x / 9;
      n := x * 10 + d;
    } else {
      n := x + 1;
    }
    assert n * Pow(10, e) == Decompressed(x0);
    while e > 0
      invariant 0 <= e <= 9 && 0 <= n < U64 && (n * Pow(10, e)) % U64 == Decompressed(x0) % U64
    {
      TimesTen(n, Pow(10, e - 1));
      assert Pow(10, e) == 10 * Pow(10, e - 1);
      n := (n * 10) % U64;
      e := e - 1;
    }
    assert n * Pow(10, 0) == n;
    DivUnique(n, 0, n, U64);
  }

  /** For every valid amount of money the words are exact, both ways. */
  lemma MoneyBack(n: nat)
    requires n <= MAX_MONEY
    ensures 0 <= Compressed(n) % U64 == Compressed(n) < U64 && Decompressed(Compressed(n) % U64) % U64 == n
  {
    hide Compressed, Decompressed;
    CompressedBound(n);
    AmountBack(n);
    DivUnique(Compressed(n), 0, Compressed(n), U64);
    DivUnique(n, 0, n, U64);
  }
}
