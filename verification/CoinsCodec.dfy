/** Serialized coins (CCoins::Serialize, Unserialize and GetSerializeSize in src/coins.h). */
module CoinsCodec {
  import opened Outcomes
  import opened Powers
  import opened VarInts
  import opened Amounts
  import opened Coins
  import opened SpentMask

  /** Scripts have a serialization of their own, given as a parameter. */
  datatype ScriptCodec = ScriptCodec(write: nat -> seq<Byte>, read: seq<Byte> -> Read<nat>)

  ghost predicate Faithful(k: ScriptCodec) {
    forall script: nat, rest: seq<Byte> :: k.read(k.write(script) + rest) == Some((script, rest))
  }

  const BWT_POS_UNSET := -1

  /** IsFromCert: the low seven bits are those of the certificate version, -5. */
  predicate FromCert(version: int) {
    version % 128 == 123
  }

  // ---------- 32-bit integers ----------

  predicate IsInt32(x: int) {
    -0x8000_0000 <= x < 0x8000_0000
  }

  /** A 32-bit word as a signed integer. */
  function AsInt32(u: nat): int {
    if u >= 0x8000_0000 then u - 0x1_0000_0000 else u
  }

  function Fixed(x: int): (r: seq<Byte>)
    ensures |r| == 4
  {
    var u := x % 0x1_0000_0000;
    [u % 256, u / 256 % 256, u / 0x1_0000 % 256, u / 0x100_0000 % 256]
  }

  function ReadFixed(s: seq<Byte>): (r: Read<int>) {
    if |s| < 4 then None else
      var u := s[0] as int + 256 * s[1] as int + 0x1_0000 * s[2] as int + 0x100_0000 * s[3] as int;
      Some((AsInt32(u), s[4..]))
  }

  lemma FixedRead(x: int, rest: seq<Byte>)
    requires IsInt32(x)
    ensures ReadFixed(Fixed(x) + rest) == Some((x, rest))
  {
    FourBytes(x % 0x1_0000_0000);
    assert (Fixed(x) + rest)[4..] == rest;
  }

  lemma FourBytes(u: nat)
    requires u < 0x1_0000_0000
    ensures u == u % 256 + 256 * (u / 256 % 256) + 0x1_0000 * (u / 0x1_0000 % 256) + 0x100_0000 * (u / 0x100_0000 % 256)
  {
    DivDiv(u, 256, 256);
    DivDiv(u, 0x1_0000, 256);
  }

  // ---------- Outputs ----------

  ghost function OutBytes(o: TxOut, k: ScriptCodec): (r: seq<Byte>)
    requires o.Out?
  {
    Var(Compressed(o.value % U64) % U64) + k.write(o.script)
  }

  ghost function OutsBytes(vout: seq<TxOut>, k: ScriptCodec): (r: seq<Byte>) {
    if vout == [] then [] else (if vout[0].Null? then [] else OutBytes(vout[0], k)) + OutsBytes(vout[1..], k)
  }

  ghost function ReadOut(s: seq<Byte>, k: ScriptCodec): (r: Read<TxOut>) {
    var word := ReadWord(s, 8);
    if word.None? then None else
      var script := k.read(word.value.1);
      if script.None? then None else Some((Out(Decompressed(word.value.0) % U64, script.value.0), script.value.1))
  }

  ghost function ReadOuts(s: seq<Byte>, avail: seq<bool>, k: ScriptCodec): (r: Read<seq<TxOut>>)
    decreases |avail|
  {
    if avail == [] then Some(([], s)) else
      var o := if avail[0] then ReadOut(s, k) else Some((Null, s));
      if o.None? then None else
        var more := ReadOuts(o.value.1, avail[1..], k);
        if more.None? then None else Some(([o.value.0] + more.value.0, more.value.1))
  }

  ghost predicate ValidOuts(vout: seq<TxOut>) {
    forall i :: 0 <= i < |vout| && vout[i].Out? ==> 0 <= vout[i].value <= MAX_MONEY
  }

  lemma OutRead(o: TxOut, k: ScriptCodec, rest: seq<Byte>)
    requires Faithful(k) && o.Out? && 0 <= o.value <= MAX_MONEY
    ensures ReadOut(OutBytes(o, k) + rest, k) == Some((o, rest))
  {
    hide Compressed, Decompressed, Tail, ReadWord, Pow2;
    DivUnique(o.value, 0, o.value, U64);
    MoneyBack(o.value);
    WordRange();
    var w := k.write(o.script) + rest;
    WordRead(Compressed(o.value), 8, w);
    assert OutBytes(o, k) + rest == Var(Compressed(o.value)) + w;
  }

  ghost function Padded(vout: seq<TxOut>, n: nat): (r: seq<TxOut>)
    ensures |r| == n && forall i :: 0 <= i < n ==> r[i] == if i < |vout| then vout[i] else Null
  {
    seq(n, i requires 0 <= i => if i < |vout| then vout[i] else Null)
  }

  lemma {:induction false} OutsRead(vout: seq<TxOut>, n: nat, k: ScriptCodec, rest: seq<Byte>)
    requires Faithful(k) && ValidOuts(vout) && forall i :: n <= i ==> !Avail(vout, i)
    ensures ReadOuts(OutsBytes(vout, k) + rest, AvailBits(vout, 0, n), k) == Some((Padded(vout, n), rest))
    decreases n
  {
    hide OutBytes, ReadOut, Faithful;
    if n == 0 {
      NothingWritten(vout, k);
      assert OutsBytes(vout, k) + rest == rest;
    } else {
      var tail := if vout == [] then [] else vout[1..];
      ShiftedAvail(vout, tail, n);
      OutsRead(tail, n - 1, k, rest);
      var s := OutsBytes(tail, k) + rest;
      assert Padded(vout, n) == [Padded(vout, n)[0]] + Padded(tail, n - 1);
      if Avail(vout, 0) {
        OutRead(vout[0], k, s);
        assert OutsBytes(vout, k) + rest == OutBytes(vout[0], k) + s;
      } else {
        assert OutsBytes(vout, k) + rest == s;
      }
    }
  }

  lemma ShiftedAvail(vout: seq<TxOut>, tail: seq<TxOut>, n: nat)
    requires n > 0 && tail == (if vout == [] then [] else vout[1..])
    ensures AvailBits(vout, 0, n)[1..] == AvailBits(tail, 0, n - 1)
    ensures (forall i :: n <= i ==> !Avail(vout, i)) ==> forall i :: n - 1 <= i ==> !Avail(tail, i)
  {
    assert forall i :: Avail(tail, i) ==> Avail(vout, i + 1);
  }

  lemma {:induction false} NothingWritten(vout: seq<TxOut>, k: ScriptCodec)
    requires forall i :: 0 <= i ==> !Avail(vout, i)
    ensures OutsBytes(vout, k) == []
  {
    if vout != [] {
      assert !Avail(vout, 0);
      assert forall i :: 0 <= i ==> Avail(vout[1..], i) ==> Avail(vout, i + 1);
      NothingWritten(vout[1..], k);
    }
  }

  lemma PaddedTrims(vout: seq<TxOut>, n: nat)
    requires forall i :: n <= i ==> !Avail(vout, i)
    ensures Trim(Padded(vout, n)) == Trim(vout)
  {
    var m := |Trim(vout)|;
    assert m > 0 ==> Avail(vout, m - 1);
    assert Padded(vout, n)[..m] == vout[..m] == Trim(vout);
    TrimUnique(Padded(vout, n), m);
  }

  // ---------- A whole record ----------

  ghost function CodeWord(c: Coins): int {
    CodeOf(c.coinbase, Avail(c.vout, 0), Avail(c.vout, 1), NonZero(c.vout))
  }

  ghost function CertBytes(c: Coins): (r: seq<Byte>) {
    if FromCert(c.version) then Fixed(c.firstBwt) + Fixed(c.bwtMaturity) else []
  }

  ghost function Bytes(c: Coins, k: ScriptCodec): (r: seq<Byte>) {
    Var(c.version) + (Var(CodeWord(c)) + (Mask(c.vout) + (OutsBytes(c.vout, k) + (Var(c.height) + CertBytes(c)))))
  }

  /** The end of a record, after the outputs. */
  ghost function ParsedEnd(
    s: seq<Byte>, version: int, coinbase: bool, vout: seq<TxOut>, into: Coins): (r: Read<Coins>)
  {
    var height := ReadWord(s, 4);
    if height.None? then None
    else if !FromCert(version) then
      Some((Coins(coinbase, Trim(vout), AsInt32(height.value.0), version, BWT_POS_UNSET, into.bwtMaturity),
        height.value.1))
    else
      var first := ReadFixed(height.value.1);
      if first.None? then None else
        var maturity := ReadFixed(first.value.1);
        if maturity.None? then None else
          Some((Coins(coinbase, Trim(vout), AsInt32(height.value.0), version, first.value.0, maturity.value.0),
            maturity.value.1))
  }

  ghost function ParsedBody(s: seq<Byte>, version: int, code: nat, into: Coins, k: ScriptCodec): (r: Read<Coins>) {
    var avail := ReadMask(s, MaskCount(code), [Flag(code, 2), Flag(code, 4)]);
    if avail.None? then None else
      var outs := ReadOuts(avail.value.1, avail.value.0, k);
      if outs.None? then None else ParsedEnd(outs.value.1, version, Flag(code, 1), outs.value.0, into)
  }

  ghost function Parsed(s: seq<Byte>, into: Coins, k: ScriptCodec): (r: Read<Coins>) {
    var version := ReadWord(s, 4);
    if version.None? then None else
      var code := ReadWord(version.value.1, 4);
      if code.None? then None else ParsedBody(code.value.1, AsInt32(version.value.0), code.value.0, into, k)
  }

  /** What a record looks like after writing and reading it into another one. */
  ghost function Restored(c: Coins, into: Coins): (r: Coins) {
    Coins(c.coinbase, Trim(c.vout), Stored(c.height), Stored(c.version),
          if FromCert(c.version) then c.firstBwt else BWT_POS_UNSET,
          if FromCert(c.version) then c.bwtMaturity else into.bwtMaturity)
  }

  lemma EndRead(c: Coins, vout: seq<TxOut>, into: Coins, rest: seq<Byte>)
    requires IsInt32(c.firstBwt) && IsInt32(c.bwtMaturity) && c.height < 0x8000_0000 && Trim(vout) == Trim(c.vout)
    ensures ParsedEnd(Var(c.height) + CertBytes(c) + rest, Stored(c.version), c.coinbase, vout, into) ==
      Some((Restored(c, into), rest))
  {
    hide Tail, ReadWord, Trim, Fixed, ReadFixed, IsInt32, Pow2;
    WordRange();
    var end := CertBytes(c) + rest;
    assert Var(c.height) + CertBytes(c) + rest == Var(c.height) + end;
    WordRead(c.height, 4, end);
    assert FromCert(Stored(c.version)) == FromCert(c.version);
    if FromCert(c.version) {
      var last := Fixed(c.bwtMaturity) + rest;
      assert end == Fixed(c.firstBwt) + last;
      FixedRead(c.firstBwt, last);
      FixedRead(c.bwtMaturity, rest);
    } else {
      assert end == rest;
    }
  }

  lemma BodyRead(c: Coins, into: Coins, k: ScriptCodec, s: seq<Byte>, rest: seq<Byte>)
    requires Faithful(k) && ValidOuts(c.vout) && InRange(c)
    requires CodeWord(c) >= 0 && (exists i :: Avail(c.vout, i))
    requires s == Mask(c.vout) + (OutsBytes(c.vout, k) + (Var(c.height) + CertBytes(c) + rest))
    ensures ParsedBody(s, Stored(c.version), CodeWord(c), into, k) == Some((Restored(c, into), rest))
  {
    hide Tail, ReadWord, Trim, ReadMask, ReadOuts, ParsedEnd, Restored, MaskSize, NonZero, Mask, OutsBytes, CertBytes;
    hide MaskByte, ValidOuts, Faithful, Flag, MaskCount;
    var n := 2 + 8 * MaskSize(c.vout);
    var end := Var(c.height) + CertBytes(c) + rest;
    SomethingLeft(c.vout);
    CodeBack(c.coinbase, Avail(c.vout, 0), Avail(c.vout, 1), NonZero(c.vout));
    MaskReadAll(c.vout, OutsBytes(c.vout, k) + end);
    forall i | n <= i
      ensures !Avail(c.vout, i)
    {
      MaskCovers(c.vout, i);
    }
    OutsRead(c.vout, n, k, end);
    PaddedTrims(c.vout, n);
    EndRead(c, Padded(c.vout, n), into, rest);
  }

  lemma MaskReadAll(vout: seq<TxOut>, rest: seq<Byte>)
    ensures ReadMask(Mask(vout) + rest, NonZero(vout), [Avail(vout, 0), Avail(vout, 1)])
         == Some((AvailBits(vout, 0, 2 + 8 * MaskSize(vout)), rest))
  {
    hide MaskByte, ReadMask, MaskSize;
    MaskRead(vout, 0, rest);
    assert Mask(vout)[0..] == Mask(vout);
    assert AvailBits(vout, 0, 2) == [Avail(vout, 0), Avail(vout, 1)];
    assert CountTo(vout, 0) == 0;
  }

  /** Reading a written record gives it back, with its trailing spent outputs trimmed, and touches nothing after it. */
  lemma CoinsRead(c: Coins, into: Coins, k: ScriptCodec, rest: seq<Byte>)
    requires Faithful(k) && ValidOuts(c.vout) && InRange(c) && !Pruned(c)
    ensures Parsed(Bytes(c, k) + rest, into, k) == Some((Restored(c, into), rest))
  {
    hide Tail, ReadWord, ParsedBody, Restored, Mask, OutsBytes, CertBytes, ValidOuts, Faithful, NonZero, Pow2, CodeOf;
    var i :| 0 <= i < |c.vout| && !c.vout[i].Null?;
    assert Avail(c.vout, i);
    CodeFits(c);
    WordRange();
    var s := Mask(c.vout) + (OutsBytes(c.vout, k) + (Var(c.height) + CertBytes(c) + rest));
    assert Bytes(c, k) + rest == Var(c.version) + (Var(CodeWord(c)) + s);
    WordRead(c.version, 4, Var(CodeWord(c)) + s);
    WordRead(CodeWord(c), 4, s);
    BodyRead(c, into, k, s, rest);
  }

  /** Read into a fresh record, it is the same record exactly under these conditions. */
  lemma SameRecord(c: Coins)
    ensures Restored(c, BLANK) == c <==>
      && Trimmed(c.vout) && c.version >= 0 && c.height >= 0
      && (FromCert(c.version) || (c.firstBwt == BWT_POS_UNSET && c.bwtMaturity == 0))
  {
    if Trimmed(c.vout) {
      assert c.vout[..|c.vout|] == c.vout;
      TrimUnique(c.vout, |c.vout|);
    }
    assert c.version < 0 ==> Stored(c.version) != c.version;
  }

  // ---------- As the node writes and reads it ----------

  /** The ranges of the C++ fields. */
  ghost predicate InRange(c: Coins) {
    && IsInt32(c.version)
    && IsInt32(c.height)
    && IsInt32(c.firstBwt)
    && IsInt32(c.bwtMaturity)
    && |c.vout| < 0x8000_0000
  }

  lemma CodeFits(c: Coins)
    requires InRange(c) && !Pruned(c)
    ensures Avail(c.vout, 0) || Avail(c.vout, 1) || NonZero(c.vout) > 0
    ensures 0 <= CodeWord(c) < Pow2(32) && c.version < Pow2(32) && c.height < Pow2(32)
  {
    hide Pow2, LastUsed, CountTo;
    var i :| 0 <= i < |c.vout| && !c.vout[i].Null?;
    assert Avail(c.vout, i);
    SomethingLeft(c.vout);
    WordRange();
  }

  lemma WordRange()
    ensures Pow2(32) == 0x1_0000_0000 && Pow2(64) == U64
  {
    hide Pow2;
    Pow2Sixteen();
    Pow2Add(16, 16);
    Pow2Add(32, 32);
  }

  lemma Pow2Sixteen()
    ensures Pow2(16) == 0x1_0000
  {
    assert Pow2(8) == 0x100;
    Pow2Add(8, 8);
  }

  method WriteOut(o: TxOut, k: ScriptCodec) returns (out: seq<Byte>)
    requires o.Out?
    ensures out == OutBytes(o, k)
  {
    hide Pow2;
    WordRange();
    var word := CompressAmount(o.value % U64);
    out := WriteVarInt(word, 8);
    out := out + k.write(o.script);
  }

  method WriteOuts(vout: seq<TxOut>, k: ScriptCodec) returns (out: seq<Byte>)
    ensures out == OutsBytes(vout, k)
  {
    hide OutBytes;
    out := [];
    for i := 0 to |vout|
      invariant OutsBytes(vout, k) == out + OutsBytes(vout[i..], k)
    {
      assert vout[i..][1..] == vout[i + 1..];
      if !vout[i].Null? {
        var bytes := WriteOut(vout[i], k);
        out := out + bytes;
      }
    }
  }

  method Serialize(c: Coins, k: ScriptCodec) returns (out: seq<Byte>)
    requires InRange(c) && !Pruned(c)
    ensures out == Bytes(c, k)
  {
    hide Pow2, Tail, Mask, MaskSize, NonZero, OutsBytes, IsInt32, Fixed;
    var nMaskSize, nMaskCode := CalcMaskSize(c.vout);
    var fFirst, fSecond := Avail(c.vout, 0), Avail(c.vout, 1);
    CodeFits(c);
    assert fFirst || fSecond || nMaskCode != 0;
    var nCode := CodeOf(c.coinbase, fFirst, fSecond, nMaskCode);
    var version := WriteVarInt(c.version, 4);
    var code := WriteVarInt(nCode, 4);
    var mask := WriteMask(c.vout, nMaskSize);
    var outs := WriteOuts(c.vout, k);
    var height := WriteVarInt(c.height, 4);
    var cert := if FromCert(c.version) then Fixed(c.firstBwt) + Fixed(c.bwtMaturity) else [];
    out := version + code + mask + outs + height + cert;
    assert out == version + (code + (mask + (outs + (height + cert))));
  }

  /** The predicted size is the number of bytes written. */
  method GetSerializeSize(c: Coins, k: ScriptCodec) returns (nSize: nat)
    requires InRange(c) && !Pruned(c)
    ensures nSize == |Bytes(c, k)|
  {
    hide Pow2, Tail, MaskSize, NonZero, IsInt32, Fixed, OutBytes, Compressed;
    var nMaskSize, nMaskCode := CalcMaskSize(c.vout);
    var fFirst, fSecond := Avail(c.vout, 0), Avail(c.vout, 1);
    CodeFits(c);
    assert fFirst || fSecond || nMaskCode != 0;
    var nCode := CodeOf(c.coinbase, fFirst, fSecond, nMaskCode);
    nSize := GetSizeOfVarInt(c.version);
    var size := GetSizeOfVarInt(nCode);
    nSize := nSize + size + nMaskSize;
    ghost var before := nSize;
    for i := 0 to |c.vout|
      invariant nSize >= 0 && before + |OutsBytes(c.vout, k)| == nSize + |OutsBytes(c.vout[i..], k)|
    {
      assert c.vout[i..][1..] == c.vout[i + 1..];
      if !c.vout[i].Null? {
        var out := OutSize(c.vout[i], k);
        nSize := nSize + out;
      }
    }
    size := GetSizeOfVarInt(c.height);
    nSize := nSize + size;
    if FromCert(c.version) {
      nSize := nSize + 4 + 4;
    }
  }

  method OutSize(o: TxOut, k: ScriptCodec) returns (r: nat)
    requires o.Out?
    ensures r == |OutBytes(o, k)|
  {
    var word := CompressAmount(o.value % U64);
    r := GetSizeOfVarInt(word);
    r := r + |k.write(o.script)|;
  }

  method UnserializeMask(s0: seq<Byte>, count: nat, flags: seq<bool>) returns (r: Read<seq<bool>>)
    ensures r == ReadMask(s0, count, flags)
  {
    hide BitOf;
    var s, nMaskCode, vAvail := s0, count, flags;
    while nMaskCode > 0
      invariant ReadMask(s0, count, flags) == ReadMask(s, nMaskCode, vAvail)
      decreases |s|
    {
      if s == [] {
        return None;
      }
      var chAvail := s[0];
      ghost var before := vAvail;
      for p := 0 to 8
        invariant vAvail == before + BitsOf(chAvail)[..p]
      {
        vAvail := vAvail + [BitOf(chAvail, p)];
      }
      assert BitsOf(chAvail)[..8] == BitsOf(chAvail);
      s := s[1..];
      if chAvail != 0 {
        nMaskCode := nMaskCode - 1;
      }
    }
    return Some((vAvail, s));
  }

  method UnserializeOut(s: seq<Byte>, k: ScriptCodec) returns (r: Read<TxOut>)
    ensures r == ReadOut(s, k)
  {
    hide ReadFrom, Decompressed, Pow2;
    var word := ReadVarInt(s, 8);
    if word.None? {
      return None;
    }
    var script := k.read(word.value.1);
    if script.None? {
      return None;
    }
    WordRange();
    DivMod(ReadFrom(s, 0).value.0, Pow2(64));
    var value := DecompressAmount(word.value.0);
    return Some((Out(value, script.value.0), script.value.1));
  }

  ghost function Prepended(outs: seq<TxOut>, r: Read<seq<TxOut>>): Read<seq<TxOut>> {
    if r.None? then None else Some((outs + r.value.0, r.value.1))
  }

  method UnserializeOuts(s0: seq<Byte>, vAvail: seq<bool>, k: ScriptCodec) returns (r: Read<seq<TxOut>>)
    ensures r == ReadOuts(s0, vAvail, k)
  {
    hide ReadOut;
    var s := s0;
    var vout: seq<TxOut> := [];
    PrependedNothing(ReadOuts(s0, vAvail, k));
    assert vAvail[0..] == vAvail;
    for i := 0 to |vAvail|
      invariant ReadOuts(s0, vAvail, k) == Prepended(vout, ReadOuts(s, vAvail[i..], k))
    {
      assert vAvail[i..][1..] == vAvail[i + 1..];
      var o: Read<TxOut> := Some((Null, s));
      if vAvail[i] {
        o := UnserializeOut(s, k);
        if o.None? {
          return None;
        }
      }
      PrependedOne(vout, o.value.0, ReadOuts(o.value.1, vAvail[i + 1..], k));
      vout := vout + [o.value.0];
      s := o.value.1;
    }
    assert vAvail[|vAvail|..] == [] && vout + [] == vout;
    return Some((vout, s));
  }

  lemma PrependedNothing(r: Read<seq<TxOut>>)
    ensures Prepended([], r) == r
  {
    if r.Some? {
      assert [] + r.value.0 == r.value.0;
    }
  }

  lemma PrependedOne(outs: seq<TxOut>, o: TxOut, r: Read<seq<TxOut>>)
    ensures Prepended(outs, Prepended([o], r)) == Prepended(outs + [o], r)
  {
    if r.Some? {
      assert outs + ([o] + r.value.0) == outs + [o] + r.value.0;
    }
  }

  method Unserialize(s: seq<Byte>, into: Coins, k: ScriptCodec) returns (r: Read<Coins>)
    ensures r == Parsed(s, into, k)
  {
    hide ReadWord, Pow2, ReadMask, ReadOuts, ReadFixed, Trim, Flag, MaskCount;
    var version := ReadVarInt(s, 4);
    if version.None? {
      return None;
    }
    var nVersion := AsInt32(version.value.0);
    var code := ReadVarInt(version.value.1, 4);
    if code.None? {
      return None;
    }
    var nCode := code.value.0;
    var avail := UnserializeMask(code.value.1, MaskCount(nCode), [Flag(nCode, 2), Flag(nCode, 4)]);
    if avail.None? {
      return None;
    }
    var outs := UnserializeOuts(avail.value.1, avail.value.0, k);
    if outs.None? {
      return None;
    }
    var height := ReadVarInt(outs.value.1, 4);
    if height.None? {
      return None;
    }
    var rest := height.value.1;
    var first, maturity := BWT_POS_UNSET, into.bwtMaturity;
    if FromCert(nVersion) {
      var f := ReadFixed(rest);
      if f.None? {
        return None;
      }
      var m := ReadFixed(f.value.1);
      if m.None? {
        return None;
      }
      first, maturity, rest := f.value.0, m.value.0, m.value.1;
    }
    var vout := Cleanup(outs.value.0);
    return Some((Coins(Flag(nCode, 1), vout, AsInt32(height.value.0), nVersion, first, maturity), rest));
  }
}
