/** Big-endian numerals in any base, and the change of base that keeps leading zeros. */
module Numerals {
  import opened Powers

  ghost predicate InBase(s: seq<nat>, b: nat) {
    forall i :: 0 <= i < |s| ==> s[i] < b
  }

  /** The number that a big-endian numeral stands for. */
  ghost function Reads(s: seq<nat>, b: nat): nat {
    if s == [] then 0 else Reads(s[..|s| - 1], b) * b + s[|s| - 1]
  }

  lemma ReadsPush(s: seq<nat>, d: nat, b: nat)
    ensures Reads(s + [d], b) == Reads(s, b) * b + d
  {
    assert (s + [d])[..|s|] == s;
  }

  lemma {:induction false} ReadsBound(s: seq<nat>, b: nat)
    requires InBase(s, b) && b >= 1
    ensures Reads(s, b) < Pow(b, |s|)
  {
    if s != [] {
      var n := |s| - 1;
      ReadsBound(s[..n], b);
      MulMono(Reads(s[..n], b) + 1, Pow(b, n), b);
      AddColumn(Reads(s[..n], b), 1, b);
      assert Pow(b, n) * b == b * Pow(b, n);
    }
  }

  /** A first digit counts for the most. */
  lemma {:induction false} ReadsFront(d: nat, s: seq<nat>, b: nat)
    ensures Reads([d] + s, b) == d * Pow(b, |s|) + Reads(s, b)
  {
    if s == [] {
      assert [d] + s == [] + [d];
      ReadsPush([], d, b);
    } else {
      var n := |s| - 1;
      ReadsFront(d, s[..n], b);
      assert [d] + s == ([d] + s[..n]) + [s[n]];
      ReadsPush([d] + s[..n], s[n], b);
      AddColumn(d * Pow(b, n), Reads(s[..n], b), b);
      MulAssoc(d, Pow(b, n), b);
      assert Pow(b, n) * b == b * Pow(b, n);
    }
  }

  /** The numeral of a number without leading zeros. */
  ghost function Digits(v: nat, b: nat): (r: seq<nat>)
    requires b >= 2
  {
    if v == 0 then [] else
      Shrinks(v, b);
      Digits(v / b, b) + [v % b]
  }

  lemma Shrinks(v: nat, b: nat)
    requires b >= 2 && v > 0
    ensures 0 <= v / b < v && 0 <= v % b < b
  {
    DivMod(v, b);
    DivNonNegative(v, b);
    MulMono(2, b, v / b);
    assert b * (v / b) == (v / b) * b;
  }

  ghost predicate NoLeadingZero(s: seq<nat>) {
    s != [] ==> s[0] != 0
  }

  lemma {:induction false} DigitsRight(v: nat, b: nat)
    requires b >= 2
    ensures Reads(Digits(v, b), b) == v && InBase(Digits(v, b), b) && NoLeadingZero(Digits(v, b))
    ensures v > 0 ==> Digits(v, b) != []
  {
    if v > 0 {
      Shrinks(v, b);
      DigitsRight(v / b, b);
      ReadsPush(Digits(v / b, b), v % b, b);
      DivMod(v, b);
      if v / b == 0 {
        assert Digits(v / b, b) == [];
        assert (v / b) * b == 0;
      }
    }
  }

  /** Without leading zeros the numeral is unique. */
  lemma {:induction false} DigitsUnique(s: seq<nat>, b: nat)
    requires b >= 2 && InBase(s, b) && NoLeadingZero(s)
    ensures Digits(Reads(s, b), b) == s
  {
    if s != [] {
      var n := |s| - 1;
      DigitsUnique(s[..n], b);
      DivUnique(Reads(s, b), Reads(s[..n], b), s[n], b);
      Positive(s, b);
      assert s == s[..n] + [s[n]];
    }
  }

  lemma {:induction false} Positive(s: seq<nat>, b: nat)
    requires b >= 1 && s != [] && NoLeadingZero(s)
    ensures Reads(s, b) > 0
  {
    var n := |s| - 1;
    if n > 0 {
      Positive(s[..n], b);
      MulMono(1, Reads(s[..n], b), b);
    } else {
      assert s[..0] == [];
    }
  }

  // ---------- Leading zeros ----------

  ghost function LeadingZeros(s: seq<nat>): (z: nat)
    ensures z <= |s|
  {
    if s == [] || s[0] != 0 then 0 else 1 + LeadingZeros(s[1..])
  }

  ghost function Zeros(n: nat): (r: seq<nat>)
    ensures |r| == n && forall i :: 0 <= i < n ==> r[i] == 0
  {
    seq(n, _ => 0)
  }

  lemma {:induction false} LeadingZerosAre(s: seq<nat>)
    ensures var z := LeadingZeros(s); s == Zeros(z) + s[z..] && NoLeadingZero(s[z..])
  {
    if s != [] && s[0] == 0 {
      var z := LeadingZeros(s[1..]);
      LeadingZerosAre(s[1..]);
      assert s[1..][z..] == s[z + 1..];
      assert s == [0] + s[1..] && Zeros(z + 1) == [0] + Zeros(z);
    }
  }

  lemma {:induction false} CountsZeros(n: nat, t: seq<nat>)
    requires NoLeadingZero(t)
    ensures LeadingZeros(Zeros(n) + t) == n && (Zeros(n) + t)[n..] == t
  {
    if n > 0 {
      CountsZeros(n - 1, t);
      assert (Zeros(n) + t)[1..] == Zeros(n - 1) + t;
    } else {
      assert Zeros(n) + t == t;
    }
  }

  /** Leading zeros do not count. */
  lemma {:induction false} ReadsZeros(n: nat, t: seq<nat>, b: nat)
    ensures Reads(Zeros(n) + t, b) == Reads(t, b)
  {
    if n > 0 {
      ReadsZeros(n - 1, t, b);
      assert Zeros(n) + t == [0] + (Zeros(n - 1) + t);
      ReadsFront(0, Zeros(n - 1) + t, b);
    } else {
      assert Zeros(n) + t == t;
    }
  }

  // ---------- Change of base ----------

  /** The same number in another base, with as many zeros in front. */
  ghost function Recode(s: seq<nat>, from: nat, to: nat): (r: seq<nat>)
    requires to >= 2
  {
    Zeros(LeadingZeros(s)) + Digits(Reads(s[LeadingZeros(s)..], from), to)
  }

  lemma RecodeInBase(s: seq<nat>, from: nat, to: nat)
    requires to >= 2
    ensures InBase(Recode(s, from, to), to)
  {
    DigitsRight(Reads(s[LeadingZeros(s)..], from), to);
  }

  /** The number stays the same, and so do the zeros in front. */
  lemma {:induction false} RecodeMeans(s: seq<nat>, from: nat, to: nat)
    requires from >= 2 && to >= 2
    ensures Reads(Recode(s, from, to), to) == Reads(s, from)
    ensures LeadingZeros(Recode(s, from, to)) == LeadingZeros(s)
  {
    hide Digits, Reads;
    var z := LeadingZeros(s);
    var v := Reads(s[z..], from);
    LeadingZerosAre(s);
    DigitsRight(v, to);
    CountsZeros(z, Digits(v, to));
    ReadsZeros(z, Digits(v, to), to);
    ReadsZeros(z, s[z..], from);
  }

  /** Changing the base and back is the identity. */
  lemma RecodeBack(s: seq<nat>, from: nat, to: nat)
    requires from >= 2 && to >= 2 && InBase(s, from)
    ensures Recode(Recode(s, from, to), to, from) == s
  {
    hide Digits, Reads;
    var z := LeadingZeros(s);
    var v := Reads(s[z..], from);
    LeadingZerosAre(s);
    DigitsRight(v, to);
    CountsZeros(z, Digits(v, to));
    DigitsUnique(s[z..], from);
  }
}
