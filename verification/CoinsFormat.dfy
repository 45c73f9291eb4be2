/**
 * The format of serialized coins, stated outright: which records carry the fields of certificates,
 * and the two examples that the comment of CCoins in src/coins.h works out byte by byte.
 */
module CoinsFormat {
  import opened Outcomes
  import opened Powers
  import opened VarInts
  import opened Amounts
  import opened Coins
  import opened SpentMask
  import opened CoinsCodec

  // ---------- Which records carry the fields of certificates ----------

  const CERT_VERSION := -5

  /** What is left of that version once it has been written and read. */
  const STORED_CERT_VERSION := 123

  /** The versions of transactions: transparent, PHGR, Groth and sidechain ones. */
  const TX_VERSIONS := {1, 2, -3, -4}

  /** A record without the two fields. */
  ghost function Stem(c: Coins, k: ScriptCodec): seq<Byte> {
    Var(c.version) + (Var(CodeWord(c)) + (Mask(c.vout) + (OutsBytes(c.vout, k) + Var(c.height))))
  }

  /** A certificate's coins end with the two fields, four bytes each, lowest first. */
  lemma CertFieldsWritten(c: Coins, k: ScriptCodec)
    requires c.version == CERT_VERSION || c.version == STORED_CERT_VERSION
    ensures Bytes(c, k) == Stem(c, k) + Fixed(c.firstBwt) + Fixed(c.bwtMaturity)
  {
    hide Tail, Mask, OutsBytes, Fixed, CodeWord;
    var a, b, d, o, h := Var(c.version), Var(CodeWord(c)), Mask(c.vout), OutsBytes(c.vout, k), Var(c.height);
    var f, m := Fixed(c.firstBwt), Fixed(c.bwtMaturity);
    assert a + (b + (d + (o + (h + (f + m))))) == a + (b + (d + (o + h))) + f + m;
  }

  /** The coins of a transaction do not. */
  lemma NoFieldsWritten(c: Coins, k: ScriptCodec)
    requires c.version in TX_VERSIONS
    ensures Bytes(c, k) == Stem(c, k)
  {
    hide Tail, Mask, OutsBytes, CodeWord;
    assert Var(c.height) + [] == Var(c.height);
  }

  /** Lowest byte first, in two's complement. */
  lemma FixedMeans(x: int)
    requires IsInt32(x)
    ensures var b := Fixed(x);
      |b| == 4 &&
      b[0] as int + 256 * b[1] as int + 0x1_0000 * b[2] as int + 0x100_0000 * b[3] as int ==
        if x < 0 then x + 0x1_0000_0000 else x
  {
    FourBytes(x % 0x1_0000_0000);
  }

  /** Read back, a certificate's coins have both fields, whatever was in the record before. */
  lemma CertFieldsRead(c: Coins, into: Coins, k: ScriptCodec, rest: seq<Byte>)
    requires Faithful(k) && ValidOuts(c.vout) && InRange(c) && !Pruned(c)
    requires c.version == CERT_VERSION || c.version == STORED_CERT_VERSION
    ensures var r := Parsed(Bytes(c, k) + rest, into, k);
      && r.Some? && r.value.1 == rest && r.value.0.version == STORED_CERT_VERSION
      && r.value.0.firstBwt == c.firstBwt && r.value.0.bwtMaturity == c.bwtMaturity
  {
    hide Parsed, Bytes, Trim, Faithful, ValidOuts, InRange;
    CoinsRead(c, into, k, rest);
  }

  /** The coins of a transaction have none. */
  lemma NoFieldsRead(c: Coins, into: Coins, k: ScriptCodec, rest: seq<Byte>)
    requires Faithful(k) && ValidOuts(c.vout) && InRange(c) && !Pruned(c) && c.version in TX_VERSIONS
    ensures var r := Parsed(Bytes(c, k) + rest, into, k);
      r.Some? && r.value.1 == rest && r.value.0.firstBwt == -1 && r.value.0.bwtMaturity == into.bwtMaturity
  {
    hide Parsed, Bytes, Trim, Faithful, ValidOuts, InRange;
    CoinsRead(c, into, k, rest);
  }

  // ---------- The documented examples ----------

  lemma {:induction false} LeadingNulls(vout: seq<TxOut>, n: nat, k: ScriptCodec)
    requires n <= |vout| && forall i :: 0 <= i < n ==> vout[i].Null?
    ensures OutsBytes(vout, k) == OutsBytes(vout[n..], k)
  {
    if n == 0 {
      assert vout[0..] == vout;
    } else {
      LeadingNulls(vout[1..], n - 1, k);
      assert vout[1..][n - 1..] == vout[n..];
    }
  }

  lemma FirstOut(vout: seq<TxOut>, n: nat, k: ScriptCodec)
    requires n < |vout| && vout[n].Out? && forall i :: 0 <= i < n ==> vout[i].Null?
    ensures OutsBytes(vout, k) == OutBytes(vout[n], k) + OutsBytes(vout[n + 1..], k)
  {
    LeadingNulls(vout, n, k);
    assert vout[n..][1..] == vout[n + 1..];
  }

  lemma ExampleNumbers()
    ensures Var(1) == [0x01] && Var(4) == [0x04] && Var(9) == [0x09]
    ensures Var(600) == [0x83, 0x58] && Var(203998) == [0x8b, 0xb8, 0x5e] && Var(120891) == [0x86, 0xaf, 0x3b]
    ensures Var(993571) == [0xbb, 0xd1, 0x23]
    ensures Var(2114333561) == [0x86, 0xef, 0x97, 0xd5, 0x79]
  {
    hide Tail;
    TailStep(1, false);
    TailStep(4, false);
    TailStep(9, false);
    TailStep(600, false);
    TailStep(3, true);
    TailStep(203998, false);
    TailStep(1592, true);
    TailStep(11, true);
    TailStep(120891, false);
    TailStep(943, true);
    TailStep(6, true);
    TailStep(993571, false);
    TailStep(7761, true);
    TailStep(59, true);
    TailStep(2114333561, false);
    TailStep(16518229, true);
    TailStep(129047, true);
    TailStep(1007, true);
  }

  lemma ExampleAmounts()
    ensures Compressed(60_000_000_000) == 600 && Compressed(234_925_952) == 2114333561 && Compressed(110_397) == 993571
  {
    hide Compressed;
    AmountMeans(59, 1, 0);
    AmountMeans(23_492_595, 2, 0);
    AmountMeans(11_039, 7, 0);
  }

  lemma Joined(a: seq<Byte>, b: seq<Byte>, d: seq<Byte>, o: seq<Byte>, h: seq<Byte>)
    ensures a + (b + (d + (o + h))) == a + b + d + o + h
  {
  }

  lemma OutIs(value: nat, word: nat, k: ScriptCodec, script: nat)
    requires value < U64 && Compressed(value) == word < U64
    ensures OutBytes(Out(value, script), k) == Var(word) + k.write(script)
  {
    hide Tail, Compressed;
    DivUnique(value, 0, value, U64);
    DivUnique(word, 0, word, U64);
  }

  lemma FirstOuts(k: ScriptCodec, script: nat)
    ensures OutsBytes([Null, Out(60_000_000_000, script)], k) == [0x83, 0x58] + k.write(script)
  {
    var vout := [Null, Out(60_000_000_000, script)];
    FirstOut(vout, 1, k);
    assert vout[2..] == [] && OutsBytes([], k) == [];
    hide Tail, Compressed, OutBytes, OutsBytes;
    ExampleNumbers();
    ExampleAmounts();
    OutIs(60_000_000_000, 600, k, script);
    assert OutBytes(vout[1], k) + [] == OutBytes(vout[1], k);
  }

  /** The first example, around the bytes of its script: the second of two outputs is unspent. */
  lemma FirstExample(k: ScriptCodec, script: nat)
    ensures Bytes(Coins(false, [Null, Out(60_000_000_000, script)], 203998, 1, -1, 0), k) ==
      [0x01] + [0x04] + [] + ([0x83, 0x58] + k.write(script)) + [0x8b, 0xb8, 0x5e]
  {
    var vout := [Null, Out(60_000_000_000, script)];
    var c := Coins(false, vout, 203998, 1, -1, 0);
    assert Mask(vout) == [] && CodeWord(c) == 4;
    ExampleNumbers();
    FirstOuts(k, script);
    NoFieldsWritten(c, k);
    hide Tail, Mask, OutsBytes, CodeWord, Bytes;
    Joined([0x01], [0x04], [], OutsBytes(vout, k), [0x8b, 0xb8, 0x5e]);
  }

  lemma {:induction false} OneBit(bits: seq<bool>, p: nat)
    requires p < |bits| && forall i :: 0 <= i < |bits| ==> (bits[i] <==> i == p)
    ensures FromBits(bits) == Pow2(p)
  {
    var n := |bits| - 1;
    if p < n {
      OneBit(bits[..n], p);
    } else {
      AllClear(bits[..n]);
    }
  }

  /** Seventeen outputs of which the fifth and the last are unspent. */
  ghost function Seventeen(a: TxOut, b: TxOut): seq<TxOut> {
    [Null, Null, Null, Null, a, Null, Null, Null, Null, Null, Null, Null, Null, Null, Null, Null, b]
  }

  lemma SeventeenMask(a: TxOut, b: TxOut)
    requires a.Out? && b.Out?
    ensures var vout := Seventeen(a, b); Mask(vout) == [0x04, 0x40] && NonZero(vout) == 2
  {
    var vout := Seventeen(a, b);
    OneBit(AvailBits(vout, 2, 8), 2);
    OneBit(AvailBits(vout, 10, 8), 6);
    assert Pow2(2) == 4 && Pow2(6) == 64;
    assert MaskByte(vout, 0) == 4 && MaskByte(vout, 1) == 64;
    hide MaskByte, Pow2;
    assert LastUsed(vout, 2) == 2;
    assert CountTo(vout, 0) == 0 && CountTo(vout, 1) == 1 && CountTo(vout, 2) == 2;
  }

  lemma SeventeenOuts(a: TxOut, b: TxOut, k: ScriptCodec)
    requires a.Out? && b.Out?
    ensures OutsBytes(Seventeen(a, b), k) == OutBytes(a, k) + OutBytes(b, k)
  {
    hide OutBytes, OutsBytes;
    var vout := Seventeen(a, b);
    var tail := [Null, Null, Null, Null, Null, Null, Null, Null, Null, Null, Null, b];
    FirstOut(vout, 4, k);
    assert vout[5..] == tail;
    FirstOut(tail, 11, k);
    assert tail[12..] == [];
    NoOuts(k);
    assert OutBytes(b, k) + [] == OutBytes(b, k);
  }

  lemma NoOuts(k: ScriptCodec)
    ensures OutsBytes([], k) == []
  {
  }

  lemma SecondOuts(k: ScriptCodec, first: nat, second: nat)
    ensures OutsBytes(Seventeen(Out(234_925_952, first), Out(110_397, second)), k) ==
      ([0x86, 0xef, 0x97, 0xd5, 0x79] + k.write(first)) + ([0xbb, 0xd1, 0x23] + k.write(second))
  {
    hide OutsBytes, Seventeen, Tail, Compressed, OutBytes;
    SeventeenOuts(Out(234_925_952, first), Out(110_397, second), k);
    ExampleNumbers();
    ExampleAmounts();
    OutIs(234_925_952, 2114333561, k, first);
    OutIs(110_397, 993571, k, second);
  }

  /** The second example, around the bytes of its scripts: coinbase outputs of which two are left. */
  lemma SecondExample(k: ScriptCodec, first: nat, second: nat)
    ensures Bytes(Coins(true, Seventeen(Out(234_925_952, first), Out(110_397, second)), 120891, 1, -1, 0), k) ==
      [0x01] + [0x09] + [0x04, 0x40]
      + (([0x86, 0xef, 0x97, 0xd5, 0x79] + k.write(first)) + ([0xbb, 0xd1, 0x23] + k.write(second)))
      + [0x86, 0xaf, 0x3b]
  {
    var a, b := Out(234_925_952, first), Out(110_397, second);
    var vout := Seventeen(a, b);
    var c := Coins(true, vout, 120891, 1, -1, 0);
    SeventeenMask(a, b);
    assert CodeWord(c) == 9;
    ExampleNumbers();
    SecondOuts(k, first, second);
    NoFieldsWritten(c, k);
    hide Tail, Mask, OutsBytes, CodeWord, Bytes, Seventeen;
    Joined([0x01], [0x09], [0x04, 0x40], OutsBytes(vout, k), [0x86, 0xaf, 0x3b]);
  }
}
