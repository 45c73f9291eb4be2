/** The code word and the spentness bitmask of serialized coins (src/coins.h, CCoins::CalcMaskSize in src/coins.cpp). */
module SpentMask {
  import opened Outcomes
  import opened Powers
  import opened LimbValues
  import opened VarInts
  import opened Coins

  // ---------- Eight bits as a byte ----------

  ghost function FromBits(bits: seq<bool>): (r: nat) {
    if bits == [] then 0 else FromBits(bits[..|bits| - 1]) + if bits[|bits| - 1] then Pow2(|bits| - 1) else 0
  }

  lemma {:induction false} FromBitsBound(bits: seq<bool>)
    ensures FromBits(bits) < Pow2(|bits|)
  {
    if bits != [] {
      FromBitsBound(bits[..|bits| - 1]);
    }
  }

  predicate BitOf(ch: nat, p: nat) {
    ch / Pow2(p) % 2 == 1
  }

  lemma {:induction false} BitBack(bits: seq<bool>, p: nat)
    requires p < |bits|
    ensures BitOf(FromBits(bits), p) == bits[p]
  {
    hide Pow2;
    var n := |bits| - 1;
    var low, t := FromBits(bits[..n]), if bits[n] then 1 else 0;
    FromBitsBound(bits[..n]);
    if p == n {
      DivUnique(FromBits(bits), t, low, Pow2(n));
    } else {
      BitBack(bits[..n], p);
      Pow2Add(n - p - 1, p + 1);
      Doubles(p);
      var k := t * Pow2(n - p - 1);
      assert FromBits(bits) == low + (2 * k) * Pow2(p) by {
        assert 2 * k * Pow2(p) == k * (2 * Pow2(p));
        MulAssoc(t, Pow2(n - p - 1), Pow2(p + 1));
      }
      AddMultiple(low, 2 * k, Pow2(p));
      AddMultiple(low / Pow2(p), k, 2);
    }
  }

  lemma Doubles(p: nat)
    ensures Pow2(p + 1) == 2 * Pow2(p)
  {
  }

  lemma {:induction false} AllClear(bits: seq<bool>)
    ensures FromBits(bits) == 0 <==> forall i :: 0 <= i < |bits| ==> !bits[i]
  {
    if bits != [] {
      AllClear(bits[..|bits| - 1]);
    }
  }

  lemma ByteRange()
    ensures Pow2(8) == 256
  {
  }

  // ---------- The mask of an output list ----------

  predicate Avail(vout: seq<TxOut>, i: int) {
    0 <= i < |vout| && !vout[i].Null?
  }

  ghost function AvailBits(vout: seq<TxOut>, from: nat, n: nat): (r: seq<bool>)
    ensures |r| == n && forall i :: 0 <= i < n ==> r[i] == Avail(vout, from + i)
  {
    seq(n, i requires 0 <= i < n => Avail(vout, from + i))
  }

  ghost function MaskByte(vout: seq<TxOut>, b: nat): (r: Byte) {
    FromBitsBound(AvailBits(vout, 2 + 8 * b, 8));
    ByteRange();
    FromBits(AvailBits(vout, 2 + 8 * b, 8))
  }

  lemma UsedByte(vout: seq<TxOut>, b: nat)
    ensures MaskByte(vout, b) == 0 <==> forall i :: 2 + 8 * b <= i < 10 + 8 * b ==> !Avail(vout, i)
  {
    var bits := AvailBits(vout, 2 + 8 * b, 8);
    AllClear(bits);
    if MaskByte(vout, b) == 0 {
      forall i | 2 + 8 * b <= i < 10 + 8 * b
        ensures !Avail(vout, i)
      {
        assert bits[i - 2 - 8 * b] == Avail(vout, i);
      }
    }
  }

  /** Bytes that cover outputs from the third on. */
  function Total(vout: seq<TxOut>): nat {
    if |vout| <= 2 then 0 else (|vout| + 5) / 8
  }

  /** The number of bytes below b up to the last that is not zero, and how many of those below b are not zero. */
  ghost function LastUsed(vout: seq<TxOut>, b: nat): (r: nat)
    ensures r <= b
  {
    if b == 0 then 0 else if MaskByte(vout, b - 1) != 0 then b else LastUsed(vout, b - 1)
  }

  ghost function CountTo(vout: seq<TxOut>, b: nat): (r: nat)
    ensures r <= b
  {
    if b == 0 then 0 else CountTo(vout, b - 1) + if MaskByte(vout, b - 1) != 0 then 1 else 0
  }

  ghost function MaskSize(vout: seq<TxOut>): nat {
    LastUsed(vout, Total(vout))
  }

  ghost function NonZero(vout: seq<TxOut>): nat {
    CountTo(vout, MaskSize(vout))
  }

  lemma {:induction false} NoneAfterLast(vout: seq<TxOut>, b: nat, i: nat)
    requires 2 + 8 * LastUsed(vout, b) <= i < 2 + 8 * b
    ensures !Avail(vout, i)
  {
    hide MaskByte;
    if i >= 2 + 8 * (b - 1) {
      UsedByte(vout, b - 1);
    } else {
      NoneAfterLast(vout, b - 1, i);
    }
  }

  lemma {:induction false} CountAtLast(vout: seq<TxOut>, b: nat)
    ensures CountTo(vout, b) == CountTo(vout, LastUsed(vout, b))
  {
    if b > 0 && MaskByte(vout, b - 1) == 0 {
      CountAtLast(vout, b - 1);
    }
  }

  lemma {:induction false} LastIsUsed(vout: seq<TxOut>, b: nat)
    ensures LastUsed(vout, b) > 0 ==> MaskByte(vout, LastUsed(vout, b) - 1) != 0
  {
    if b > 0 && MaskByte(vout, b - 1) == 0 {
      LastIsUsed(vout, b - 1);
    }
  }

  /** Past the mask no output is available. */
  lemma MaskCovers(vout: seq<TxOut>, i: nat)
    requires i >= 2 + 8 * MaskSize(vout)
    ensures !Avail(vout, i)
  {
    if i < 2 + 8 * Total(vout) {
      NoneAfterLast(vout, Total(vout), i);
    }
  }

  /** The mask and the two flags are empty exactly for pruned coins. */
  lemma SomethingLeft(vout: seq<TxOut>)
    ensures Avail(vout, 0) || Avail(vout, 1) || NonZero(vout) > 0 <==> exists i :: Avail(vout, i)
  {
    hide MaskByte, LastUsed, CountTo;
    if NonZero(vout) > 0 {
      CountsSome(vout, MaskSize(vout));
    }
    if i :| Avail(vout, i) {
      if i >= 2 {
        var b := (i - 2) / 8;
        UsedByte(vout, b);
        if b >= MaskSize(vout) {
          MaskCovers(vout, i);
        }
        CountMono(vout, b + 1, MaskSize(vout));
        CountStep(vout, b);
      }
    }
  }

  lemma CountStep(vout: seq<TxOut>, b: nat)
    ensures CountTo(vout, b + 1) == CountTo(vout, b) + if MaskByte(vout, b) != 0 then 1 else 0
  {
  }

  lemma {:induction false} CountMono(vout: seq<TxOut>, a: nat, b: nat)
    requires a <= b
    ensures CountTo(vout, a) <= CountTo(vout, b)
  {
    if a < b {
      CountMono(vout, a, b - 1);
    }
  }

  lemma {:induction false} CountsSome(vout: seq<TxOut>, b: nat)
    requires CountTo(vout, b) > 0
    ensures exists i :: Avail(vout, i)
  {
    hide MaskByte;
    if MaskByte(vout, b - 1) != 0 {
      UsedByte(vout, b - 1);
    } else {
      CountsSome(vout, b - 1);
    }
  }

  method CalcMaskSize(vout: seq<TxOut>) returns (nBytes: nat, nNonzeroBytes: nat)
    ensures nBytes == MaskSize(vout) && nNonzeroBytes == NonZero(vout)
  {
    hide MaskByte;
    nBytes, nNonzeroBytes := 0, 0;
    var b := 0;
    while 2 + b * 8 < |vout|
      invariant 0 <= b <= Total(vout)
      invariant nBytes == LastUsed(vout, b) && nNonzeroBytes == CountTo(vout, b)
    {
      var fZero := true;
      var i := 0;
      while i < 8 && 2 + b * 8 + i < |vout|
        invariant 0 <= i <= 8
        invariant fZero <==> forall k :: 2 + 8 * b <= k < 2 + 8 * b + i ==> !Avail(vout, k)
      {
        if !vout[2 + b * 8 + i].Null? {
          assert Avail(vout, 2 + 8 * b + i);
          fZero := false;
        }
        i := i + 1;
      }
      UsedByte(vout, b);
      if !fZero {
        nBytes := b + 1;
        nNonzeroBytes := nNonzeroBytes + 1;
      }
      b := b + 1;
    }
    CountAtLast(vout, Total(vout));
  }

  ghost function Mask(vout: seq<TxOut>): (r: seq<Byte>) {
    seq(MaskSize(vout), b requires 0 <= b => MaskByte(vout, b))
  }

  method WriteMask(vout: seq<TxOut>, nBytes: nat) returns (out: seq<Byte>)
    requires nBytes == MaskSize(vout)
    ensures out == Mask(vout)
  {
    hide MaskSize, Pow2;
    out := [];
    for b := 0 to nBytes
      invariant |out| == b && forall k :: 0 <= k < b ==> out[k] == MaskByte(vout, k)
    {
      var ch: nat := 0;
      ghost var bits := AvailBits(vout, 2 + 8 * b, 8);
      var i := 0;
      while i < 8 && 2 + b * 8 + i < |vout|
        invariant 0 <= i <= 8 && ch == FromBits(bits[..i])
        invariant i < 8 ==> 2 + b * 8 + i <= |vout| || |vout| < 2 + b * 8
      {
        FromBitsBound(bits[..i]);
        NextBit(bits, i);
        if !vout[2 + b * 8 + i].Null? {
          ch := Or(ch, Pow2(i));
        }
        i := i + 1;
      }
      RestClear(bits, i);
      ByteRange();
      FromBitsBound(bits);
      out := out + [ch];
    }
  }

  lemma NextBit(bits: seq<bool>, i: nat)
    requires i < |bits|
    ensures FromBits(bits[..i + 1]) == FromBits(bits[..i]) + (if bits[i] then Pow2(i) else 0)
    ensures Or(FromBits(bits[..i]), Pow2(i)) == FromBits(bits[..i]) + Pow2(i)
  {
    assert bits[..i + 1][..i] == bits[..i];
    FromBitsBound(bits[..i]);
    DivUnique(Pow2(i), 1, 0, Pow2(i));
    OrDisjoint(FromBits(bits[..i]), Pow2(i), i);
  }

  lemma {:induction false} RestClear(bits: seq<bool>, i: nat)
    requires i <= |bits| && forall k :: i <= k < |bits| ==> !bits[k]
    ensures FromBits(bits[..i]) == FromBits(bits)
    decreases |bits| - i
  {
    if i < |bits| {
      NextBit(bits, i);
      RestClear(bits, i + 1);
    } else {
      assert bits[..i] == bits;
    }
  }

  // ---------- Reading the mask ----------

  ghost function ReadMask(s: seq<Byte>, count: nat, acc: seq<bool>): (r: Read<seq<bool>>) {
    if count == 0 then Some((acc, s))
    else if s == [] then None
    else ReadMask(s[1..], if s[0] != 0 then count - 1 else count, acc + BitsOf(s[0]))
  }

  ghost function BitsOf(ch: Byte): (r: seq<bool>)
    ensures |r| == 8
  {
    seq(8, p requires 0 <= p => BitOf(ch, p))
  }

  lemma BitsBack(vout: seq<TxOut>, b: nat)
    ensures BitsOf(MaskByte(vout, b)) == AvailBits(vout, 2 + 8 * b, 8)
  {
    hide BitOf;
    var bits := AvailBits(vout, 2 + 8 * b, 8);
    forall p | 0 <= p < 8
      ensures BitsOf(MaskByte(vout, b))[p] == bits[p]
    {
      BitBack(bits, p);
    }
  }

  /** Reading stops exactly after the mask, since its last byte is not zero. */
  lemma {:induction false} MaskRead(vout: seq<TxOut>, b: nat, rest: seq<Byte>)
    requires b <= MaskSize(vout)
    ensures CountTo(vout, b) <= NonZero(vout)
    ensures ReadMask(Mask(vout)[b..] + rest, NonZero(vout) - CountTo(vout, b), AvailBits(vout, 0, 2 + 8 * b))
         == Some((AvailBits(vout, 0, 2 + 8 * MaskSize(vout)), rest))
    decreases MaskSize(vout) - b
  {
    hide MaskByte, BitsOf, MaskSize;
    CountMono(vout, b, MaskSize(vout));
    var s := Mask(vout)[b..] + rest;
    if b < MaskSize(vout) {
      SomeRemain(vout, b);
      assert s[0] == MaskByte(vout, b) && s[1..] == Mask(vout)[b + 1..] + rest;
      BitsBack(vout, b);
      assert AvailBits(vout, 0, 2 + 8 * b) + AvailBits(vout, 2 + 8 * b, 8) == AvailBits(vout, 0, 2 + 8 * (b + 1));
      MaskRead(vout, b + 1, rest);
    } else {
      assert s == rest;
    }
  }

  lemma SomeRemain(vout: seq<TxOut>, b: nat)
    requires b < MaskSize(vout)
    ensures CountTo(vout, b) < NonZero(vout)
  {
    hide MaskByte;
    LastIsUsed(vout, Total(vout));
    CountMono(vout, b, MaskSize(vout) - 1);
  }

  // ---------- The code word ----------

  function CodeOf(coinbase: bool, first: bool, second: bool, nonZero: nat): (code: int) {
    8 * (nonZero - (if first || second then 0 else 1)) + (if coinbase then 1 else 0) + (if first then 2 else 0) +
      if second then 4 else 0
  }

  predicate Flag(code: nat, weight: nat)
    requires weight > 0
  {
    code / weight % 2 == 1
  }

  function MaskCount(code: nat): nat {
    code / 8 + if Flag(code, 2) || Flag(code, 4) then 0 else 1
  }

  lemma CodeBack(coinbase: bool, first: bool, second: bool, nonZero: nat)
    requires first || second || nonZero > 0
    ensures var code := CodeOf(coinbase, first, second, nonZero);
      code >= 0 && Flag(code, 1) == coinbase && Flag(code, 2) == first && Flag(code, 4) == second
        && MaskCount(code) == nonZero
  {
    hide Flag;
    var r := (if coinbase then 1 else 0) + (if first then 2 else 0) + if second then 4 else 0;
    LowFlags(nonZero - (if first || second then 0 else 1), r);
    SmallFlags(coinbase, first, second);
  }

  lemma LowFlags(q: nat, r: nat)
    requires r < 8
    ensures var code := 8 * q + r;
      code / 8 == q && Flag(code, 1) == Flag(r, 1) && Flag(code, 2) == Flag(r, 2) && Flag(code, 4) == Flag(r, 4)
  {
    AddMultiple(r, 8 * q, 1);
    AddMultiple(r, 4 * q, 2);
    AddMultiple(r, 2 * q, 4);
    AddMultiple(r / 1, 4 * q, 2);
    AddMultiple(r / 2, 2 * q, 2);
    AddMultiple(r / 4, q, 2);
  }

  lemma SmallFlags(coinbase: bool, first: bool, second: bool)
    ensures var r := (if coinbase then 1 else 0) + (if first then 2 else 0) + if second then 4 else 0;
      Flag(r, 1) == coinbase && Flag(r, 2) == first && Flag(r, 4) == second
  {
  }
}
