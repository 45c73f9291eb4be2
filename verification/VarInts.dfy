/** Variable-length integers (WriteVarInt, ReadVarInt and GetSizeOfVarInt in src/serialize.h). */
module VarInts {
  import opened Outcomes
  import opened Powers

  type Byte = x: int | 0 <= x < 256

  /** What reading takes from the front of a stream, if it does not run dry. */
  type Read<T> = Option<(T, seq<Byte>)>

  function Digit(n: int, more: bool): (b: Byte) {
    n % 128 + if more then 128 else 0
  }

  /** Base-128 digits, most significant first, each but the last marked and one too small. */
  ghost function Tail(n: int, more: bool): (r: seq<Byte>)
    decreases if n < 0 then 0 else n
  {
    (if n <= 0x7F then [] else Tail(n / 128 - 1, true)) + [Digit(n, more)]
  }

  /** The bytes of a number. A negative number leaves only its low seven bits. */
  ghost function Var(n: int): (r: seq<Byte>) {
    Tail(n, false)
  }

  /** The number that comes back. */
  function Stored(n: int): (r: nat) {
    if n < 0 then n % 128 else n
  }

  ghost function ReadFrom(s: seq<Byte>, n: nat): (r: Read<nat>) {
    if s == [] then None else
      var next := n * 128 + (s[0] as int) % 128;
      if s[0] >= 128 then ReadFrom(s[1..], next + 1) else Some((next, s[1..]))
  }

  /** Reading past the marked digits of m. */
  lemma {:induction false} ReadsTail(m: nat, t: seq<Byte>)
    ensures ReadFrom(Tail(m, true) + t, 0) == ReadFrom(t, m + 1)
  {
    var d := Digit(m, true);
    var u := [d] + t;
    assert u[1..] == t;
    if m <= 0x7F {
      assert Tail(m, true) + t == u;
    } else {
      ReadsTail(m / 128 - 1, u);
      assert Tail(m, true) + t == Tail(m / 128 - 1, true) + u;
    }
  }

  /** What is written is read back, and nothing after it is touched. */
  lemma {:induction false} VarRead(n: int, rest: seq<Byte>)
    ensures ReadFrom(Var(n) + rest, 0) == Some((Stored(n), rest))
  {
    var u := [Digit(n, false)] + rest;
    assert u[1..] == rest;
    if n <= 0x7F {
      assert Var(n) + rest == u;
    } else {
      ReadsTail(n / 128 - 1, u);
      assert Var(n) + rest == Tail(n / 128 - 1, true) + u;
    }
  }

  lemma TailStep(n: int, more: bool)
    ensures n <= 0x7F ==> Tail(n, more) == [Digit(n, more)]
    ensures n > 0x7F ==> Tail(n, more) == Tail(n / 128 - 1, true) + [Digit(n, more)]
  {
  }

  lemma {:induction false} OnlyTail(s: seq<Byte>, m: nat, n: nat, rest: seq<Byte>)
    requires ReadFrom(s, m + 1) == Some((n, rest))
    ensures Tail(m, true) + s == Tail(n, false) + rest
  {
    hide Tail;
    var b: int := s[0];
    var next := (m + 1) * 128 + b % 128;
    assert next / 128 - 1 == m && Digit(next, b >= 128) == b;
    TailStep(next, b >= 128);
    assert Tail(m, true) + s == Tail(next, b >= 128) + s[1..];
    if b >= 128 {
      OnlyTail(s[1..], next, n, rest);
    }
  }

  /** Every number has exactly one encoding: whatever reads as n is the encoding of n. */
  lemma {:induction false} VarUnique(s: seq<Byte>, n: nat, rest: seq<Byte>)
    requires ReadFrom(s, 0) == Some((n, rest))
    ensures s == Var(n) + rest
  {
    var b: int := s[0];
    assert s == [s[0]] + s[1..];
    if b >= 128 {
      OnlyTail(s[1..], b - 128, n, rest);
      assert Tail(b - 128, true) + s[1..] == s;
    } else {
      assert Var(n) + rest == s;
    }
  }

  /** Digits to base 128, the most significant first, each but the last standing for one more than it shows. */
  function PlaceValue(s: seq<Byte>): int {
    if s == [] then -1 else 128 * (PlaceValue(s[..|s| - 1]) + 1) + s[|s| - 1] as int % 128
  }

  lemma PlaceNext(s: seq<Byte>, d: Byte)
    ensures PlaceValue(s + [d]) == 128 * (PlaceValue(s) + 1) + d as int % 128 && PlaceValue([]) == -1
  {
    assert (s + [d])[..|s|] == s;
  }

  lemma {:induction false} TailMeans(n: nat, more: bool)
    ensures var s := Tail(n, more);
      && s != [] && PlaceValue(s) == n && (s[|s| - 1] >= 128 <==> more)
      && forall i :: 0 <= i < |s| - 1 ==> s[i] >= 128
  {
    TailStep(n, more);
    hide PlaceValue, Tail;
    if n > 0x7F {
      TailMeans(n / 128 - 1, true);
      PlaceNext(Tail(n / 128 - 1, true), Digit(n, more));
    } else {
      PlaceNext([], Digit(n, more));
      assert [] + [Digit(n, more)] == [Digit(n, more)];
    }
  }

  /** What is written, digit by digit: all but the last are marked, and their places give the number. */
  lemma VarMeans(n: nat)
    ensures var s := Var(n);
      s != [] && PlaceValue(s) == n && s[|s| - 1] < 128 && forall i :: 0 <= i < |s| - 1 ==> s[i] >= 128
  {
    TailMeans(n, false);
  }

  /** k base-128 digits are enough for numbers below 128^k. */
  lemma {:induction false} TailLength(n: int, more: bool, k: nat)
    requires k >= 1 && n < Pow(128, k)
    ensures 1 <= |Tail(n, more)| <= k
    decreases k
  {
    assert Pow(128, 0) == 1 && Pow(128, k) == 128 * Pow(128, k - 1);
    if n > 0x7F && k > 1 {
      TailLength(n / 128 - 1, true, k - 1);
    }
  }

  lemma {:induction false} SevenBits(k: nat)
    ensures Pow(128, k) == Pow2(7 * k)
  {
    if k > 0 {
      SevenBits(k - 1);
      assert Pow2(7) == 128;
      Pow2Add(7, 7 * (k - 1));
    }
  }

  lemma VarLength(n: int, bytes: nat)
    requires bytes >= 1 && n < Pow2(8 * bytes)
    ensures |Var(n)| <= (8 * bytes + 6) / 7
  {
    hide Pow2, Pow, Tail;
    var k := (8 * bytes + 6) / 7;
    SevenBits(k);
    Pow2Mono(8 * bytes, 7 * k);
    TailLength(n, false, k);
  }

  /** A sequence backwards. */
  ghost function Reversed(s: seq<Byte>): (r: seq<Byte>)
    ensures |r| == |s|
  {
    if s == [] then [] else [s[|s| - 1]] + Reversed(s[..|s| - 1])
  }

  method GetSizeOfVarInt(n0: int) returns (r: nat)
    ensures r == |Var(n0)|
  {
    var n := n0;
    var more := false;
    r := 0;
    while true
      invariant |Tail(n, more)| + r == |Var(n0)|
      decreases if n < 0 then 0 else n
    {
      r := r + 1;
      if n <= 0x7F {
        break;
      }
      n := n / 128 - 1;
      more := true;
    }
  }

  lemma ReversedPush(s: seq<Byte>, b: Byte)
    ensures Reversed(s + [b]) == [b] + Reversed(s)
  {
    assert (s + [b])[..|s|] == s;
  }

  /** Writes the first len + 1 digits of a buffer, last one first. */
  method WriteBackwards(tmp: array<Byte>, len: nat) returns (out: seq<Byte>)
    requires len < tmp.Length
    ensures out == Reversed(tmp[..len + 1])
  {
    out := [];
    var i := len;
    while true
      invariant 0 <= i <= len && Reversed(tmp[..len + 1]) == out + Reversed(tmp[..i + 1])
      decreases i
    {
      assert tmp[..i + 1] == tmp[..i] + [tmp[i]];
      ReversedPush(tmp[..i], tmp[i]);
      out := out + [tmp[i]];
      if i == 0 {
        break;
      }
      i := i - 1;
    }
    assert tmp[..0] == [];
  }

  /** The digits are collected in a buffer of fixed size and written in reverse. */
  method WriteVarInt(n0: int, bytes: nat) returns (out: seq<Byte>)
    requires bytes >= 1 && n0 < Pow2(8 * bytes)
    ensures out == Var(n0)
  {
    hide Pow2, Tail, Reversed;
    var tmp := new Byte[(8 * bytes + 6) / 7](_ => 0);
    VarLength(n0, bytes);
    var n, len := n0, 0;
    TailEnd(n0, tmp[..0]);
    while true
      invariant 0 <= len < tmp.Length && |Var(n0)| <= tmp.Length
      invariant Var(n0) == Tail(n, len > 0) + Reversed(tmp[..len])
      decreases if n < 0 then 0 else n
    {
      ghost var low := tmp[..len];
      tmp[len] := Digit(n, len > 0);
      assert tmp[..len + 1] == low + [tmp[len]];
      ReversedPush(low, tmp[len]);
      TailStep(n, len > 0);
      if n <= 0x7F {
        break;
      }
      LongTail(n / 128 - 1, true);
      assert Var(n0) == Tail(n / 128 - 1, true) + Reversed(tmp[..len + 1]);
      n := n / 128 - 1;
      len := len + 1;
    }
    out := WriteBackwards(tmp, len);
  }

  lemma LongTail(n: int, more: bool)
    ensures |Tail(n, more)| >= 1
  {
  }

  lemma TailEnd(n: int, s: seq<Byte>)
    requires s == []
    ensures |Var(n)| >= 1 && Var(n) == Tail(n, false) + Reversed(s)
  {
  }

  /** A number read into a word of so many bytes. */
  ghost function ReadWord(s: seq<Byte>, bytes: nat): (r: Read<nat>) {
    var r := ReadFrom(s, 0);
    if r.None? then None else
      DivMod(r.value.0, Pow2(8 * bytes));
      Some((r.value.0 % Pow2(8 * bytes), r.value.1))
  }

  /** A number that fits its word is read back. */
  lemma WordRead(n: int, bytes: nat, rest: seq<Byte>)
    requires Stored(n) < Pow2(8 * bytes)
    ensures ReadWord(Var(n) + rest, bytes) == Some((Stored(n), rest))
  {
    hide Pow2, Tail, ReadFrom;
    VarRead(n, rest);
    DivUnique(Stored(n), 0, Stored(n), Pow2(8 * bytes));
  }

  /** Wrapping at every digit is wrapping once. */
  lemma {:induction false} ReadWraps(s: seq<Byte>, n: nat, m: nat, d: nat)
    requires m >= 1 && n % m == d % m && ReadFrom(s, n).Some?
    ensures ReadFrom(s, d).Some? && ReadFrom(s, d).value.1 == ReadFrom(s, n).value.1
    ensures ReadFrom(s, d).value.0 % m == ReadFrom(s, n).value.0 % m
  {
    var b := (s[0] as int) % 128;
    SameRemainder(n, d, b, m);
    if s[0] >= 128 {
      SameRemainder(n, d, b + 1, m);
      ReadWraps(s[1..], n * 128 + b + 1, m, d * 128 + b + 1);
    }
  }

  lemma SameRemainder(n: nat, d: nat, c: nat, m: nat)
    requires m >= 1 && n % m == d % m
    ensures (n * 128 + c) % m == (d * 128 + c) % m
  {
    DivMod(n, m);
    DivMod(d, m);
    var k := n / m - d / m;
    assert n == d + k * m by {
      assert (n / m) * m - (d / m) * m == k * m;
    }
    assert n * 128 + c == d * 128 + c + (128 * k) * m;
    AddMultiple(d * 128 + c, 128 * k, m);
  }

  lemma {:induction false} ReadEnds(s: seq<Byte>, n: nat, d: nat)
    ensures ReadFrom(s, n).None? <==> ReadFrom(s, d).None?
  {
    if s != [] && s[0] >= 128 {
      ReadEnds(s[1..], n * 128 + (s[0] as int) % 128 + 1, d * 128 + (s[0] as int) % 128 + 1);
    }
  }

  /** The two accumulators agree modulo m all the way. */
  lemma Agree(s: seq<Byte>, n: nat, d: nat, m: nat)
    requires m >= 1 && n % m == d % m
    ensures ReadFrom(s, n).None? <==> ReadFrom(s, d).None?
    ensures ReadFrom(s, n).Some? ==>
      ReadFrom(s, n).value.1 == ReadFrom(s, d).value.1 && ReadFrom(s, n).value.0 % m == ReadFrom(s, d).value.0 % m
  {
    ReadEnds(s, n, d);
    if ReadFrom(s, n).Some? {
      ReadWraps(s, n, m, d);
    }
  }

  method ReadVarInt(s: seq<Byte>, bytes: nat) returns (r: Read<nat>)
    ensures r == ReadWord(s, bytes)
  {
    hide Pow2;
    var m := Pow2(8 * bytes);
    var n, i := 0, 0;
    while i < |s|
      invariant 0 <= i <= |s| && n >= 0 && SameRead(s, 0, s[i..], n, m)
    {
      var b: int := s[i];
      assert s[i..][1..] == s[i + 1..];
      ghost var full := n * 128 + b % 128;
      n := (n * 128 + b % 128) % m;
      DivMod(full, m);
      Reduced(full, m);
      i := i + 1;
      if b >= 128 {
        ghost var up := n + 1;
        n := (n + 1) % m;
        DivMod(up, m);
        UpOne(full, m);
        Agree(s[i..], full + 1, n, m);
      } else {
        return Some((n, s[i..]));
      }
    }
    return None;
  }

  ghost predicate SameRead(s: seq<Byte>, a: nat, t: seq<Byte>, b: nat, m: nat)
    requires m >= 1
  {
    && (ReadFrom(s, a).None? <==> ReadFrom(t, b).None?)
    && (ReadFrom(s, a).Some? ==>
          ReadFrom(s, a).value.1 == ReadFrom(t, b).value.1 && ReadFrom(s, a).value.0 % m == ReadFrom(t, b).value.0 % m)
  }

  lemma Reduced(x: nat, m: nat)
    requires m >= 1
    ensures 0 <= x % m && (x % m) % m == x % m
  {
    DivMod(x, m);
    DivUnique(x % m, 0, x % m, m);
  }

  lemma UpOne(x: nat, m: nat)
    requires m >= 1
    ensures 0 <= (x % m + 1) % m && ((x % m + 1) % m) % m == (x + 1) % m
  {
    DivMod(x, m);
    AddMultiple(x % m + 1, x / m, m);
    Reduced(x % m + 1, m);
  }
}
