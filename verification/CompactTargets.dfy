/** Compact targets (arith_uint256::SetCompact and GetCompact, src/arith_uint256.cpp). */
module CompactTargets {
  import opened Powers
  import opened LimbValues
  import opened LimbShifts
  import opened BaseUint

  /** An eight-bit exponent, a sign and a 23-bit mantissa. */
  function Size(n: nat): nat {
    n / 0x100_0000
  }

  function Sign(n: nat): bool {
    n / 0x80_0000 % 2 == 1
  }

  function Mantissa(n: nat): nat {
    n % 0x80_0000
  }

  /** The unsigned number a compact target stands for, of any length: mantissa 256^(size - 3), rounded down. */
  ghost function Meaning(size: nat, mantissa: nat): nat {
    if size <= 3 then
      DivNonNegative(mantissa, Pow2(8 * (3 - size)));
      mantissa / Pow2(8 * (3 - size))
    else
      MulMono(0, mantissa, Pow2(8 * (size - 3)));
      mantissa * Pow2(8 * (size - 3))
  }

  ghost function Decoded(n: nat): nat {
    Meaning(Size(n), Mantissa(n))
  }

  lemma ShortMeaning(size: nat, m: nat)
    requires size <= 3
    ensures 0 <= m / Pow2(8 * (3 - size)) <= m
  {
    DivNonNegative(m, Pow2(8 * (3 - size)));
  }

  /** The overflow test is exact. */
  lemma OverflowExact(size: nat, m: nat)
    requires size > 3 && m < 0x80_0000
    ensures Meaning(size, m) >= Pow2(256) <==>
      m != 0 && (size > 34 || (m > 0xff && size > 33) || (m > 0xffff && size > 32))
  {
    hide Pow2;
    var e := 8 * (size - 3);
    PowersOfByte();
    if size > 34 {
      Pow2Mono(256, e);
      if m > 0 {
        MulAtLeast(m, Pow2(e));
      }
    } else {
      var p, q := Pow2(256 - e), Pow2(e);
      Pow2Add(256 - e, e);
      if size <= 32 {
        Pow2Mono(24, 256 - e);
      }
      if m >= p {
        MulMono(p, m, q);
      } else {
        MulStrict(m, p, q);
      }
    }
  }

  lemma PowersOfByte()
    ensures Pow2(0) == 1 && Pow2(8) == 0x100 && Pow2(15) == 0x8000 && Pow2(16) == 0x1_0000
    ensures Pow2(23) == 0x80_0000 && Pow2(24) == 0x100_0000
  {
    assert Pow2(8) == 0x100 && Pow2(7) == 0x80;
    Pow2Add(8, 8);
    Pow2Add(8, 7);
    Pow2Add(16, 7);
    Pow2Add(16, 8);
  }

  lemma Width256()
    ensures PowB(8) == Pow2(256)
  {
    PowBIsPow2(8);
  }

  lemma NonZeroMeaning(size: nat, m: nat)
    requires size > 3
    ensures Meaning(size, m) == 0 <==> m == 0
  {
    if m > 0 {
      MulAtLeast(m, Pow2(8 * (size - 3)));
    }
  }

  lemma SmallMeaning(size: nat, m: nat)
    requires size <= 3 && m < 0x80_0000
    ensures Meaning(size, m) % PowB(8) == Meaning(size, m) < 0x80_0000 && 0x80_0000 <= PowB(8)
  {
    hide Pow2, PowB;
    ShortMeaning(size, m);
    PowersOfByte();
    Width256();
    Pow2Mono(23, 256);
    DivUnique(Meaning(size, m), 0, Meaning(size, m), PowB(8));
  }

  /** The receiver takes the number modulo 2^256, and the flags tell its sign and whether it is larger. */
  method SetCompact(x: BaseUint, nCompact: nat) returns (negative: bool, overflow: bool)
    requires x.pn.Length == 8 && nCompact < BASE
    modifies x.pn
    ensures x.Val() == Decoded(nCompact) % PowB(8)
    ensures negative <==> Sign(nCompact) && Decoded(nCompact) != 0
    ensures overflow <==> Decoded(nCompact) >= PowB(8)
  {
    hide Pow2, PowB;
    var nSize := Size(nCompact);
    var nWord := Mantissa(nCompact);
    Width256();
    if nSize <= 3 {
      SmallMeaning(nSize, nWord);
      ShortMeaning(nSize, nWord);
      nWord := nWord / Pow2(8 * (3 - nSize));
      x.Set(nWord);
    } else {
      NonZeroMeaning(nSize, nWord);
      OverflowExact(nSize, nWord);
      x.Set(nWord);
      x.ShiftLeft(8 * (nSize - 3));
    }
    negative := nWord != 0 && Sign(nCompact);
    overflow := nWord != 0 && (nSize > 34 || (nWord > 0xff && nSize > 33) || (nWord > 0xffff && nSize > 32));
  }

  /** The number of binary digits. */
  function BitLen(v: nat): (r: nat) {
    if v == 0 then 0 else 1 + BitLen(v / 2)
  }

  lemma {:induction false} BitLenBounds(v: nat)
    ensures v < Pow2(BitLen(v)) && (v > 0 ==> BitLen(v) >= 1 && Pow2(BitLen(v) - 1) <= v)
  {
    if v > 0 {
      BitLenBounds(v / 2);
    }
  }

  lemma BitLenUnique(v: nat, r: nat)
    requires if v == 0 then r == 0 else r >= 1 && Pow2(r - 1) <= v < Pow2(r)
    ensures r == BitLen(v)
  {
    hide Pow2, BitLen;
    BitLenBounds(v);
    BitLenZero();
    if v > 0 {
      if r < BitLen(v) {
        Pow2Mono(r, BitLen(v) - 1);
      } else if r > BitLen(v) {
        Pow2Mono(BitLen(v), r - 1);
      }
    }
  }

  lemma BitLenZero()
    ensures BitLen(0) == 0
  {
  }

  /** The bytes a number takes with room for a sign bit. */
  function CompactSize(v: nat): nat {
    if v == 0 then 0 else BitLen(v) / 8 + 1
  }

  /** The top three of those bytes. */
  function TopBytes(v: nat, size: nat): int {
    if size <= 3 then v * Pow2(8 * (3 - size)) else v / Pow2(8 * (size - 3))
  }

  function Encoded(v: nat): int {
    CompactSize(v) * 0x100_0000 + TopBytes(v, CompactSize(v))
  }

  /** Top bytes of a number of at most k bits, and of one of more than k bits. */
  lemma TopBytesBound(v: nat, size: nat, k: nat)
    requires k + 24 >= 8 * size
    ensures v < Pow2(k) ==> TopBytes(v, size) < Pow2(k + 24 - 8 * size)
    ensures v >= Pow2(k) ==> TopBytes(v, size) >= Pow2(k + 24 - 8 * size)
    ensures TopBytes(v, size) >= 0
  {
    hide Pow2;
    var w, d := TopBytes(v, size), k + 24 - 8 * size;
    if size <= 3 {
      var p := Pow2(8 * (3 - size));
      Pow2Add(k, 8 * (3 - size));
      MulMono(0, v, p);
      if v < Pow2(k) {
        MulStrict(v, Pow2(k), p);
      } else {
        MulMono(Pow2(k), v, p);
      }
    } else {
      var p := Pow2(8 * (size - 3));
      Pow2Add(d, 8 * (size - 3));
      DivMod(v, p);
      DivNonNegative(v, p);
      if v < Pow2(k) {
        if w >= Pow2(d) {
          MulMono(Pow2(d), w, p);
        }
      } else {
        if w < Pow2(d) {
          MulMono(w + 1, Pow2(d), p);
          AddColumn(w, 1, p);
        }
      }
    }
  }

  /** The mantissa of a positive number has 16 to 23 bits. */
  lemma MantissaBounds(v: nat)
    ensures 0 <= TopBytes(v, CompactSize(v)) < 0x80_0000
    ensures v > 0 ==> TopBytes(v, CompactSize(v)) >= 0x8000
  {
    hide Pow2, BitLen, TopBytes;
    var s := CompactSize(v);
    PowersOfByte();
    if v == 0 {
      TopOfZero();
    } else {
      BitLenBounds(v);
      Pow2Mono(BitLen(v), 8 * s - 1);
      TopBytesBound(v, s, 8 * s - 1);
      if s == 1 {
        TopOfByte(v);
      } else {
        Pow2Mono(8 * s - 9, BitLen(v) - 1);
        TopBytesBound(v, s, 8 * s - 9);
      }
    }
  }

  lemma TopOfZero()
    ensures TopBytes(0, 0) == 0
  {
  }

  lemma TopOfByte(v: nat)
    ensures TopBytes(v, 1) == v * 0x1_0000
  {
    PowersOfByte();
  }

  /** One byte less of the top is one more of the size. */
  lemma TopBytesNext(v: nat, size: nat)
    ensures TopBytes(v, size) / 0x100 == TopBytes(v, size + 1)
  {
    hide Pow2;
    PowersOfByte();
    if size >= 3 {
      Pow2Add(8 * (size - 3), 8);
      DivDiv(v, Pow2(8 * (size - 3)), 0x100);
    } else {
      Pow2Add(8 * (2 - size), 8);
      MulAssoc(v, Pow2(8 * (2 - size)), 0x100);
      DivUnique(TopBytes(v, size), TopBytes(v, size + 1), 0, 0x100);
    }
  }

  /** What decoding makes of the top bytes: the number, less its digits below them. */
  lemma MeaningOfTop(v: nat, size: nat)
    ensures TopBytes(v, size) >= 0
    ensures Meaning(size, TopBytes(v, size)) ==
      if size <= 3 then v else (v / Pow2(8 * (size - 3))) * Pow2(8 * (size - 3))
  {
    hide Pow2;
    if size <= 3 {
      MulMono(0, v, Pow2(8 * (3 - size)));
      DivUnique(TopBytes(v, size), v, 0, Pow2(8 * (3 - size)));
    } else {
      DivNonNegative(v, Pow2(8 * (size - 3)));
    }
  }

  lemma SizeFits(v: nat)
    requires v < PowB(8)
    ensures BitLen(v) <= 256 && CompactSize(v) <= 33
  {
    hide Pow2, PowB;
    Width256();
    BitLenBounds(v);
    if BitLen(v) > 256 {
      Pow2Mono(256, BitLen(v) - 1);
    }
  }

  lemma Fields(size: nat, m: nat, sign: bool)
    requires m < 0x80_0000
    ensures var n := size * 0x100_0000 + (if sign then 0x80_0000 else 0) + m;
      Size(n) == size && Mantissa(n) == m && Sign(n) == sign
  {
    var n := size * 0x100_0000 + (if sign then 0x80_0000 else 0) + m;
    DivUnique(n, size, (if sign then 0x80_0000 else 0) + m, 0x100_0000);
    DivUnique(n, 2 * size + if sign then 1 else 0, m, 0x80_0000);
  }

  /** Decoding an encoded number never exceeds it, and loses less than one part in 2^15. */
  lemma RoundsDown(v: nat, sign: bool)
    ensures var n := Encoded(v) + if sign then 0x80_0000 else 0;
      && n >= 0 && Sign(n) == sign && Decoded(n) <= v
      && (v == 0 || (v - Decoded(n)) * 0x8000 < v)
      && (Decoded(n) == 0 <==> v == 0)
  {
    hide Pow2, BitLen, TopBytes, Meaning;
    var s, m := CompactSize(v), TopBytes(v, CompactSize(v));
    MantissaBounds(v);
    Fields(s, m, sign);
    MeaningOfTop(v, s);
    if s > 3 {
      Truncation(v, m, Pow2(8 * (s - 3)));
      LongTop(v, s);
    }
  }

  lemma LongTop(v: nat, size: nat)
    requires size > 3
    ensures TopBytes(v, size) == v / Pow2(8 * (size - 3))
  {
  }

  lemma Truncation(v: nat, m: int, p: nat)
    requires p >= 1
    ensures m == v / p && m >= 0x8000 ==> 0 < m * p <= v && (v - m * p) * 0x8000 < v
  {
    if m == v / p && m >= 0x8000 {
      DivMod(v, p);
      MulMono(0x8000, m, p);
    }
  }

  /** Three top bytes, shifted down by one when they would reach the sign bit. */
  lemma Normalised(v: nat)
    ensures var s := (BitLen(v) + 7) / 8; var w := TopBytes(v, s);
      && 0 <= w < 0x100_0000
      && CompactSize(v) == (if w >= 0x80_0000 then s + 1 else s)
      && TopBytes(v, CompactSize(v)) == (if w >= 0x80_0000 then w / 0x100 else w)
  {
    hide Pow2, BitLen, TopBytes;
    var s := (BitLen(v) + 7) / 8;
    BitLenBounds(v);
    BitLenZero();
    PowersOfByte();
    TopBytesNext(v, s);
    Pow2Mono(BitLen(v), 8 * s);
    TopBytesBound(v, s, 8 * s);
    if v == 0 {
      TopOfZero();
    } else {
      TopBytesBound(v, s, 8 * s - 1);
      if BitLen(v) < 8 * s {
        Pow2Mono(BitLen(v), 8 * s - 1);
      }
    }
  }

  /** The sign bit falls between the fields. */
  lemma OrFields(size: nat, m: nat)
    requires m < 0x80_0000
    ensures Or(m, size * 0x100_0000) == size * 0x100_0000 + m
    ensures Or(size * 0x100_0000 + m, 0x80_0000) == size * 0x100_0000 + 0x80_0000 + m
    ensures Or(size * 0x100_0000 + m, 0) == size * 0x100_0000 + m
  {
    hide Pow2;
    PowersOfByte();
    AddMultiple(0, size, 0x100_0000);
    OrDisjoint(m, size * 0x100_0000, 24);
    OrHigh(size, m, 0x80_0000, 24);
    OrDisjoint(m, 0x80_0000, 23);
  }

  /** The three top bytes as the low 32 bits of a shifted word. */
  method LowWord(x: BaseUint, nSize: nat) returns (w: nat)
    requires x.pn.Length == 8 && nSize == (BitLen(x.Val()) + 7) / 8
    ensures w == TopBytes(x.Val(), nSize)
  {
    hide Pow2, PowB, BitLen, TopBytes, Value, CompactSize;
    ghost var v := x.Val();
    Normalised(v);
    if nSize <= 3 {
      var low := x.GetLow64();
      ShortTop(v, nSize);
      DivUnique(v, 0, v, BASE * BASE);
      DivUnique(TopBytes(v, nSize), 0, TopBytes(v, nSize), BASE);
      w := (low * Pow2(8 * (3 - nSize))) % BASE;
    } else {
      var bn := new BaseUint.Copy(x);
      bn.ShiftRight(8 * (nSize - 3));
      LongTop(v, nSize);
      var low := bn.GetLow64();
      DivUnique(TopBytes(v, nSize), 0, TopBytes(v, nSize), BASE * BASE);
      DivUnique(TopBytes(v, nSize), 0, TopBytes(v, nSize), BASE);
      w := low % BASE;
    }
  }

  /** The exponent and then the sign are or-ed in. */
  function Packed(size: nat, m: nat, fNegative: bool): nat {
    var n := Or(m, size * 0x100_0000);
    Or(n, if fNegative && Mantissa(n) != 0 then 0x80_0000 else 0)
  }

  lemma PackedIs(size: nat, m: nat, fNegative: bool)
    requires m < 0x80_0000
    ensures Packed(size, m, fNegative) == size * 0x100_0000 + m + if fNegative && m != 0 then 0x80_0000 else 0
  {
    hide Or, Mantissa, Sign;
    OrFields(size, m);
    Fields(size, m, false);
  }

  lemma PackedRight(v: nat, fNegative: bool)
    requires v < PowB(8)
    ensures CompactSize(v) < 256 && 0 <= TopBytes(v, CompactSize(v)) < 0x80_0000
    ensures var n := Packed(CompactSize(v), TopBytes(v, CompactSize(v)), fNegative);
      && n == Encoded(v) + (if fNegative && v != 0 then 0x80_0000 else 0) && n < BASE
      && Sign(n) == (fNegative && v != 0) && Decoded(n) <= v && (v == 0 || (v - Decoded(n)) * 0x8000 < v)
  {
    hide Pow2, PowB, BitLen, TopBytes, CompactSize, Decoded, Packed, Sign;
    SizeFits(v);
    MantissaBounds(v);
    EmptySize();
    PackedIs(CompactSize(v), TopBytes(v, CompactSize(v)), fNegative);
    RoundsDown(v, fNegative && v != 0);
  }

  method GetCompact(x: BaseUint, fNegative: bool) returns (n: nat)
    requires x.pn.Length == 8
    ensures n == Encoded(x.Val()) + if fNegative && x.Val() != 0 then 0x80_0000 else 0
    ensures n < BASE && Sign(n) == (fNegative && x.Val() != 0)
    ensures Decoded(n) <= x.Val() && (x.Val() == 0 || (x.Val() - Decoded(n)) * 0x8000 < x.Val())
  {
    hide Pow2, PowB, BitLen, TopBytes, Value, CompactSize, Decoded, Or, Encoded;
    var bits := x.Bits();
    ghost var v := x.Val();
    BitLenUnique(v, bits);
    Normalised(v);
    ValueBound(x.pn[..]);
    var nSize := (bits + 7) / 8;
    var nCompact := LowWord(x, nSize);
    if nCompact / 0x80_0000 % 2 == 1 {
      nCompact := nCompact / 0x100;
      nSize := nSize + 1;
    }
    PackedRight(v, fNegative);
    assert nCompact < 0x80_0000;
    assert nSize < 256;
    n := Packed(nSize, nCompact, fNegative);
  }

  lemma EmptySize()
    ensures CompactSize(0) == 0 && TopBytes(0, 0) == 0
  {
  }

  lemma ShortTop(v: nat, size: nat)
    requires size <= 3 && TopBytes(v, size) < 0x100_0000
    ensures TopBytes(v, size) == v * Pow2(8 * (3 - size)) && v < 0x100_0000
  {
    MulMono(1, Pow2(8 * (3 - size)), v);
    assert Pow2(8 * (3 - size)) * v == v * Pow2(8 * (3 - size));
  }

  // ---------- The targets that have a compact form ----------

  /** A number cut to its compact form. */
  ghost function Compacted(v: nat): nat
  {
    MantissaBounds(v);
    Decoded(Encoded(v))
  }

  lemma CompactedIs(v: nat)
    ensures var s := CompactSize(v);
      Compacted(v) == if s <= 3 then v else (v / Pow2(8 * (s - 3))) * Pow2(8 * (s - 3))
  {
    hide Pow2, BitLen, TopBytes, Meaning;
    var s := CompactSize(v);
    MantissaBounds(v);
    Fields(s, TopBytes(v, s), false);
    MeaningOfTop(v, s);
  }

  /** The leading bit is kept. */
  lemma KeepsLength(v: nat)
    ensures BitLen(Compacted(v)) == BitLen(v)
    ensures v > 0 ==> Pow2(BitLen(v) - 1) <= Compacted(v)
  {
    hide Pow2, BitLen, TopBytes, Compacted, Decoded, Encoded;
    var s, b := CompactSize(v), BitLen(v);
    CompactedIs(v);
    BitLenBounds(v);
    if s > 3 {
      var g := 8 * (s - 3);
      var p := Pow2(g);
      DivMod(v, p);
      Pow2Add(b - 1 - g, g);
      if v / p < Pow2(b - 1 - g) {
        MulMono(v / p + 1, Pow2(b - 1 - g), p);
        AddColumn(v / p, 1, p);
      }
      MulMono(Pow2(b - 1 - g), v / p, p);
      BitLenUnique(Compacted(v), b);
    }
  }

  /** Encoding a decoded target again gives the same bits. */
  lemma Stable(v: nat)
    ensures Encoded(Compacted(v)) == Encoded(v)
  {
    hide Pow2, BitLen, Compacted, Decoded;
    var s := CompactSize(v);
    CompactedIs(v);
    KeepsLength(v);
    BitLenZero();
    if s > 3 {
      var p := Pow2(8 * (s - 3));
      BitLenBounds(v);
      DivUnique(Compacted(v), v / p, 0, p);
    }
  }

  /** Compact targets are ordered as the targets are. */
  lemma CompactedMono(v: nat, w: nat)
    requires v <= w
    ensures Compacted(v) <= Compacted(w)
  {
    hide Pow2, BitLen, Compacted, TopBytes;
    CompactedIs(v);
    CompactedIs(w);
    BitLenBounds(v);
    BitLenBounds(w);
    KeepsLength(w);
    RoundsDown(v, false);
    BitLenZero();
    if v > 0 {
      if BitLen(v) < BitLen(w) {
        Pow2Mono(BitLen(v), BitLen(w) - 1);
        CompactedBelow(v);
      } else {
        if BitLen(v) > BitLen(w) {
          Pow2Mono(BitLen(w), BitLen(v) - 1);
        }
        var s := CompactSize(v);
        if s > 3 {
          DivMono(v, w, Pow2(8 * (s - 3)));
          MulMono(v / Pow2(8 * (s - 3)), w / Pow2(8 * (s - 3)), Pow2(8 * (s - 3)));
        }
      }
    } else {
      CompactedBelow(v);
    }
  }

  lemma CompactedBelow(v: nat)
    ensures Compacted(v) <= v
  {
    RoundsDown(v, false);
  }

  lemma SizeAtMost(v: nat, size: nat)
    requires size >= 1 && v < Pow2(8 * size - 1)
    ensures CompactSize(v) <= size
  {
    hide Pow2, BitLen;
    BitLenBounds(v);
    if v > 0 && BitLen(v) > 8 * size - 1 {
      Pow2Mono(8 * size - 1, BitLen(v) - 1);
    }
  }

  /** What a compact target stands for takes no more bytes than its exponent says. */
  lemma MeaningSize(size: nat, m: nat)
    requires size >= 3 && m < 0x80_0000
    ensures Meaning(size, m) == m * Pow2(8 * (size - 3)) && CompactSize(Meaning(size, m)) <= size
  {
    PowersOfByte();
    hide Pow2, BitLen, CompactSize;
    var p := Pow2(8 * (size - 3));
    MulMono(m + 1, 0x80_0000, p);
    AddColumn(m, 1, p);
    Pow2Add(23, 8 * (size - 3));
    SizeAtMost(m * p, size);
  }

  lemma MultipleKept(v: nat, size: nat, m: nat)
    requires size > 3 && v == m * Pow2(8 * (size - 3)) && CompactSize(v) <= size
    ensures Compacted(v) == v
  {
    hide Pow2, BitLen, Compacted, CompactSize;
    var s := CompactSize(v);
    CompactedIs(v);
    if s > 3 {
      var p, q := Pow2(8 * (s - 3)), Pow2(8 * (size - s));
      Pow2Add(8 * (size - s), 8 * (s - 3));
      MulAssoc(m, q, p);
      MulMono(0, m, q);
      DivUnique(v, m * q, 0, p);
    }
  }

  lemma ShortKept(v: nat)
    requires v < 0x80_0000
    ensures Compacted(v) == v
  {
    PowersOfByte();
    hide Pow2, BitLen, Compacted, CompactSize;
    SizeAtMost(v, 3);
    CompactedIs(v);
  }

  /** Every compact target stands for a number that is not cut. */
  lemma DecodedKept(n: nat)
    ensures Compacted(Decoded(n)) == Decoded(n)
  {
    hide Pow2, BitLen, Compacted, CompactSize;
    if Size(n) <= 3 {
      ShortMeaning(Size(n), Mantissa(n));
      ShortKept(Decoded(n));
    } else {
      MeaningSize(Size(n), Mantissa(n));
      MultipleKept(Decoded(n), Size(n), Mantissa(n));
    }
  }

  /** No compact target lies between a number and its compact form. */
  lemma CompactedLargest(n: nat, v: nat)
    requires Decoded(n) <= v
    ensures Decoded(n) <= Compacted(v) <= v
  {
    hide Decoded, Compacted;
    DecodedKept(n);
    CompactedMono(Decoded(n), v);
    CompactedBelow(v);
  }

  /** Exponent, sign and mantissa read as a number. */
  lemma CompactMeans(size: nat, sign: bool, m: nat)
    requires m < 0x80_0000
    ensures var n := size * 0x100_0000 + (if sign then 0x80_0000 else 0) + m;
      && Sign(n) == sign
      && (size >= 3 ==> Decoded(n) == m * Pow2(8 * (size - 3)))
      && (size == 2 ==> Decoded(n) == m / 0x100)
      && (size == 1 ==> Decoded(n) == m / 0x1_0000)
      && (size == 0 ==> Decoded(n) == 0)
  {
    PowersOfByte();
    hide Pow2;
    Fields(size, m, sign);
  }
}
