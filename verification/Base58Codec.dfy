/** EncodeBase58 and DecodeBase58 (src/base58_codec.cpp): digit buffers updated in place. */
module Base58Codec {
  import opened Outcomes
  import opened Powers
  import opened Numerals
  import opened Base58

  // ---------- The buffers are large enough ----------

  lemma {:induction false} PowBaseStrict(a: nat, b: nat, e: nat)
    requires a < b && e >= 1
    ensures Pow(a, e) < Pow(b, e)
  {
    if e > 1 {
      PowBaseStrict(a, b, e - 1);
      MulMono(a, b, Pow(a, e - 1));
      MulStrict(Pow(a, e - 1), Pow(b, e - 1), b);
      assert Pow(a, e - 1) * b == b * Pow(a, e - 1) && Pow(b, e - 1) * b == b * Pow(b, e - 1);
    }
  }

  lemma PowRoot(a: nat, b: nat, e: nat)
    requires e >= 1 && Pow(a, e) <= Pow(b, e)
    ensures a <= b
  {
    if b < a {
      PowBaseStrict(b, a, e);
    }
  }

  lemma PowSwap(x: nat, n: nat, q: nat)
    ensures Pow(Pow(x, n), q) == Pow(Pow(x, q), n)
  {
    hide Pow;
    PowPow(x, n, q);
    PowPow(x, q, n);
    assert n * q == q * n;
  }

  lemma RaiseLeft(x: nat, y: nat, q: nat, p: nat, n: nat)
    requires Pow(x, q) <= Pow(y, p)
    ensures Pow(Pow(x, n), q) <= Pow(y, p * n)
  {
    hide Pow;
    PowSwap(x, n, q);
    PowBaseMono(Pow(x, q), Pow(y, p), n);
    PowPow(y, p, n);
  }

  lemma RaiseRight(y: nat, q: nat, m: nat)
    ensures Pow(Pow(y, m), q) == Pow(y, q * m)
  {
    hide Pow;
    PowSwap(y, m, q);
    PowPow(y, q, m);
  }

  /** If x^q <= y^p, then n digits in base x fit into m digits in base y as soon as p n <= q m. */
  lemma DigitsFit(x: nat, y: nat, q: nat, p: nat, n: nat, m: nat, u: nat, w: nat)
    requires x >= 1 && y >= 1 && q >= 1 && Pow(x, q) <= Pow(y, p) && u == p * n && w == q * m && u <= w
    ensures Pow(x, n) <= Pow(y, m)
  {
    hide Pow;
    RaiseLeft(x, y, q, p, n);
    RaiseRight(y, q, m);
    PowMono(y, u, w);
    PowRoot(Pow(x, n), Pow(y, m), q);
  }

  lemma ByteRatio()
    ensures Pow(256, 8) <= Pow(58, 11)
  {
  }

  lemma SmallPowers()
    ensures Pow(58, 7) == 2207984167552 && Pow(58, 8) == 128063081718016 && Pow(256, 4) == 4294967296
  {
  }

  lemma PowDouble(b: nat, n: nat, v: nat)
    requires Pow(b, n) == v
    ensures Pow(b, n + n) == v * v
  {
    PowAdd(b, n, n);
  }

  lemma CharRatio()
    ensures Pow(58, 71) <= Pow(256, 52)
  {
    hide Pow;
    SmallPowers();
    PowDouble(58, 8, 128063081718016);
    PowDouble(58, 16, 16400152899115243850138976256);
    PowDouble(58, 32, 268965015114358137726910587140455987105619365599731777536);
    PowAdd(58, 64, 7);
    assert Pow(58, 71) ==
      72342179355466901471258927612150153907721848234316445933056526044582001260898145151856420451025374266490194231296
      * 2207984167552;
    PowDouble(256, 4, 4294967296);
    PowDouble(256, 8, 18446744073709551616);
    PowDouble(256, 16, 340282366920938463463374607431768211456);
    PowAdd(256, 32, 16);
    PowAdd(256, 48, 4);
    assert Pow(256, 48) ==
      39402006196394479212279040100143613805079739270465446667948293404245721771497210611414266254884915640806627990306816;
    assert Pow(256, 52) ==
      39402006196394479212279040100143613805079739270465446667948293404245721771497210611414266254884915640806627990306816
      * 4294967296;
  }

  /** 138 / 100 of the bytes, and one more, hold them in base 58. */
  lemma EncodeFits(n: nat)
    ensures Pow(256, n) <= Pow(58, n * 138 / 100 + 1)
  {
    hide Pow;
    ByteRatio();
    DigitsFit(256, 58, 8, 11, n, n * 138 / 100 + 1, 11 * n, 8 * (n * 138 / 100 + 1));
  }

  /** 733 / 1000 of the characters, and one more, hold them in base 256. */
  lemma DecodeFits(n: nat)
    ensures Pow(58, n) <= Pow(256, n * 733 / 1000 + 1)
  {
    hide Pow;
    CharRatio();
    DigitsFit(58, 256, 71, 52, n, n * 733 / 1000 + 1, 52 * n, 71 * (n * 733 / 1000 + 1));
  }

  // ---------- buf = buf * mul + digit ----------

  /** The digits from i on are multiplied, and carry is left over. */
  ghost predicate Carried(s: seq<nat>, was: seq<nat>, i: nat, mul: nat, base: nat, digit: nat, carry: nat) {
    && |s| == |was|
    && i <= |s|
    && s[..i] == was[..i]
    && InBase(s, base)
    && carry < mul
    && carry * Pow(base, |s| - i) + Reads(s[i..], base) == mul * Reads(was[i..], base) + digit
  }

  lemma CarryUp(s: seq<nat>, was: seq<nat>, i: nat, mul: nat, base: nat, digit: nat, carry: nat)
    requires 0 < i && base >= 1 && Carried(s, was, i, mul, base, digit, carry)
    ensures var c := carry + mul * s[i - 1]; c >= 0 && c % base >= 0 && c / base >= 0
    ensures var c := carry + mul * s[i - 1];
      Carried(s[i - 1 := c % base], was, i - 1, mul, base, digit, c / base)
  {
    hide Reads, Pow;
    var x, n := s[i - 1], |s| - i;
    assert x == s[..i][i - 1] == was[i - 1];
    var c := carry + mul * x;
    MulMono(0, mul, x);
    DivMod(c, base);
    DivNonNegative(c, base);
    CarryStays(carry, mul, x, base);
    var t := s[i - 1 := c % base];
    assert t[i - 1..] == [c % base] + s[i..] && was[i - 1..] == [x] + was[i..];
    assert t[..i - 1] == s[..i][..i - 1] == was[..i - 1];
    ReadsFront(c % base, s[i..], base);
    ReadsFront(x, was[i..], base);
    PowNext(base, n);
    ColumnMoves(carry, mul, x, base, Pow(base, n), Reads(s[i..], base), Reads(was[i..], base), digit);
  }

  lemma PowNext(b: nat, n: nat)
    ensures Pow(b, n + 1) == b * Pow(b, n) && Pow(b, 0) == 1
  {
  }

  lemma CarryStays(carry: nat, mul: nat, x: nat, base: nat)
    requires carry < mul && x < base
    ensures (carry + mul * x) / base < mul
  {
    MulMono(x + 1, base, mul);
    assert (x + 1) * mul == mul * x + mul && base * mul == mul * base;
    DivMod(carry + mul * x, base);
    var q := (carry + mul * x) / base;
    if q >= mul {
      MulMono(mul, q, base);
    }
  }

  lemma ColumnMoves(carry: int, mul: int, x: int, base: nat, p: int, r: int, r0: int, digit: int)
    requires base >= 1 && carry * p + r == mul * r0 + digit
    ensures var c := carry + mul * x;
      (c / base) * (base * p) + ((c % base) * p + r) == mul * (x * p + r0) + digit
  {
    var c := carry + mul * x;
    DivMod(c, base);
    MulAssoc(c / base, base, p);
    AddColumn((c / base) * base, c % base, p);
    AddColumn(carry, mul * x, p);
    MulAssoc(mul, x, p);
    assert mul * (x * p + r0) == mul * (x * p) + mul * r0;
  }

  method MultiplyAdd(buf: array<nat>, mul: nat, base: nat, digit: nat) returns (carry: nat)
    requires base >= 1 && digit < mul && InBase(buf[..], base)
    modifies buf
    ensures InBase(buf[..], base)
    ensures mul * old(Reads(buf[..], base)) + digit < Pow(base, buf.Length) ==>
              carry == 0 && Reads(buf[..], base) == mul * old(Reads(buf[..], base)) + digit
  {
    hide Reads, Pow;
    ghost var was := buf[..];
    carry := digit;
    var i := buf.Length;
    CarryStart(was, mul, base, digit);
    while i > 0
      invariant 0 <= i <= buf.Length && Carried(buf[..], was, i, mul, base, digit, carry)
    {
      CarryUp(buf[..], was, i, mul, base, digit, carry);
      i := i - 1;
      carry := carry + mul * buf[i];
      buf[i] := carry % base;
      carry := carry / base;
    }
    CarryEnd(buf[..], was, mul, base, digit, carry);
  }

  lemma CarryStart(was: seq<nat>, mul: nat, base: nat, digit: nat)
    requires digit < mul && InBase(was, base)
    ensures Carried(was, was, |was|, mul, base, digit, digit)
  {
    assert was[|was|..] == [];
  }

  lemma CarryEnd(s: seq<nat>, was: seq<nat>, mul: nat, base: nat, digit: nat, carry: nat)
    requires base >= 1 && Carried(s, was, 0, mul, base, digit, carry)
    ensures mul * Reads(was, base) + digit < Pow(base, |s|) ==>
      carry == 0 && Reads(s, base) == mul * Reads(was, base) + digit
  {
    hide Reads, Pow;
    assert s[0..] == s && was[0..] == was;
    if carry > 0 {
      MulAtLeast(carry, Pow(base, |s|));
    }
  }

  // ---------- Encoding ----------

  /** The digits after the zeros in front of a buffer are the numeral. */
  lemma Stripped(buf: seq<nat>, it: nat, b: nat, v: nat)
    requires b >= 2 && it <= |buf| && InBase(buf, b) && Reads(buf, b) == v
    requires (forall i :: 0 <= i < it ==> buf[i] == 0) && (it < |buf| ==> buf[it] != 0)
    ensures buf[it..] == Digits(v, b)
  {
    hide Reads, Digits;
    assert buf == Zeros(it) + buf[it..];
    ReadsZeros(it, buf[it..], b);
    DigitsUnique(buf[it..], b);
  }

  lemma ZerosCounted(s: seq<nat>, z: nat)
    requires z <= |s| && (forall i :: 0 <= i < z ==> s[i] == 0) && (z < |s| ==> s[z] != 0)
    ensures LeadingZeros(s) == z
  {
    assert s == Zeros(z) + s[z..];
    CountsZeros(z, s[z..]);
  }

  /** One more digit of a numeral that fits keeps fitting. */
  lemma NextDigit(s: seq<nat>, k: nat, from: nat, to: nat, len: nat)
    requires from >= 1 && to >= 1 && k < |s| && InBase(s, from) && Pow(from, |s|) <= Pow(to, len)
    ensures Reads(s[..k + 1], from) == from * Reads(s[..k], from) + s[k] < Pow(to, len)
  {
    hide Pow;
    assert s[..k + 1] == s[..k] + [s[k]];
    ReadsPush(s[..k], s[k], from);
    ReadsBound(s[..k + 1], from);
    PowMono(from, k + 1, |s|);
    assert Reads(s[..k], from) * from == from * Reads(s[..k], from);
  }

  lemma ZeroBuffer(s: seq<nat>, b: nat)
    requires forall i :: 0 <= i < |s| ==> s[i] == 0
    ensures Reads(s, b) == 0
  {
    assert s == Zeros(|s|) + [];
    ReadsZeros(|s|, [], b);
  }

  method SkipZeros(buf: array<nat>) returns (it: nat)
    ensures it <= buf.Length && (forall i :: 0 <= i < it ==> buf[i] == 0) && (it < buf.Length ==> buf[it] != 0)
  {
    it := 0;
    while it < buf.Length && buf[it] == 0
      invariant 0 <= it <= buf.Length && forall i :: 0 <= i < it ==> buf[i] == 0
    {
      it := it + 1;
    }
  }

  method EncodeBase58(bytes: seq<nat>) returns (str: string)
    requires InBase(bytes, 256)
    ensures str == Encoded(bytes)
  {
    hide Reads, Pow, Digits, Recode;
    var zeroes := 0;
    while zeroes < |bytes| && bytes[zeroes] == 0
      invariant 0 <= zeroes <= |bytes| && forall i :: 0 <= i < zeroes ==> bytes[i] == 0
    {
      zeroes := zeroes + 1;
    }
    ghost var rest := bytes[zeroes..];
    var b58 := new nat[(|bytes| - zeroes) * 138 / 100 + 1](_ => 0);
    ZeroBuffer(b58[..], 58);
    ReadsNothing(rest, 256);
    EncodeFits(|rest|);
    var p := zeroes;
    while p < |bytes|
      invariant zeroes <= p <= |bytes| && InBase(b58[..], 58)
      invariant Reads(b58[..], 58) == Reads(rest[..p - zeroes], 256)
    {
      NextDigit(rest, p - zeroes, 256, 58, b58.Length);
      var carry := MultiplyAdd(b58, 256, 58, bytes[p]);
      assert carry == 0;
      p := p + 1;
    }
    assert rest[..p - zeroes] == rest;
    var it := SkipZeros(b58);
    Stripped(b58[..], it, 58, Reads(rest, 256));
    ZerosCounted(bytes, zeroes);
    RecodeIs(bytes, 256, 58);
    str := Spell(zeroes, b58[it..]);
  }

  lemma ReadsNothing(s: seq<nat>, b: nat)
    ensures Reads(s[..0], b) == 0
  {
  }

  lemma RecodeIs(s: seq<nat>, from: nat, to: nat)
    requires to >= 2
    ensures Recode(s, from, to) == Zeros(LeadingZeros(s)) + Digits(Reads(s[LeadingZeros(s)..], from), to)
    ensures InBase(Recode(s, from, to), to)
  {
    RecodeInBase(s, from, to);
  }

  method Spell(zeroes: nat, digits: seq<nat>) returns (str: string)
    requires InBase(digits, 58)
    ensures InBase(Zeros(zeroes) + digits, 58) && str == Spelled(Zeros(zeroes) + digits)
  {
    ghost var all := Zeros(zeroes) + digits;
    AlphabetDistinct(0, 0);
    str := seq(zeroes, _ => '1');
    for i := 0 to |digits|
      invariant |str| == zeroes + i && |ALPHABET| == 58
      invariant forall k :: 0 <= k < zeroes + i ==> str[k] == ALPHABET[all[k]]
    {
      str := str + [ALPHABET[digits[i]]];
    }
    assert str == Spelled(all);
  }

  // ---------- Decoding ----------

  lemma NoSpaces(s: string, w: string)
    requires w <= s && AllDigits(w)
    ensures forall k :: 0 <= k < |w| ==> !IsSpace(s[k])
  {
    hide IsDigit, IsSpace;
    forall k | 0 <= k < |w|
      ensures !IsSpace(s[k])
    {
      NotSpace(w[k]);
    }
  }

  /** Reading the word that starts at from: everything before i is of the alphabet. */
  lemma StrayCharacter(psz: string, from: nat, i: nat)
    requires from <= i < |psz| && from == LeadingSpaces(psz) && AllDigits(psz[from..i]) && !IsDigit(psz[i])
    requires !IsSpace(psz[i])
    ensures Word(psz) == None
  {
    hide IsDigit, IsSpace, LeadingSpaces;
    var s := psz[from..];
    var n := WordLength(s);
    NoSpaces(s, psz[from..i]);
    WordReaches(s, i - from + 1);
    assert s[..n][i - from] == psz[i];
  }

  lemma {:induction false} WordReaches(s: string, k: nat)
    requires k <= |s| && forall i :: 0 <= i < k ==> !IsSpace(s[i])
    ensures WordLength(s) >= k
  {
    if k > 0 {
      WordReaches(s[1..], k - 1);
    }
  }

  lemma WordEnds(psz: string, from: nat, i: nat, end: nat)
    requires from <= i <= end <= |psz| && from == LeadingSpaces(psz) && AllDigits(psz[from..i])
    requires i < |psz| ==> IsSpace(psz[i])
    requires AllSpaces(psz[i..end]) && (end < |psz| ==> !IsSpace(psz[end]))
    ensures Word(psz) == if end == |psz| then Some(psz[from..i]) else None
  {
    hide IsDigit, IsSpace, LeadingSpaces;
    var s := psz[from..];
    NoSpaces(s, psz[from..i]);
    WordLengthIs(s, i - from);
    assert s[..i - from] == psz[from..i] && s[i - from..] == psz[i..];
    if end == |psz| {
      assert psz[i..end] == psz[i..];
    } else {
      assert psz[i..][end - i] == psz[end];
    }
  }

  method SkipSpaces(psz: string, from: nat) returns (i: nat)
    requires from <= |psz|
    ensures from <= i <= |psz| && AllSpaces(psz[from..i]) && (i < |psz| ==> !IsSpace(psz[i]))
  {
    i := from;
    while i < |psz| && IsSpace(psz[i])
      invariant from <= i <= |psz| && AllSpaces(psz[from..i])
    {
      assert psz[from..i + 1] == psz[from..i] + [psz[i]];
      i := i + 1;
    }
  }

  /** The characters of a word that ends in a new one. */
  lemma OneMore(psz: string, from: nat, i: nat)
    requires from <= i < |psz| && AllDigits(psz[from..i]) && IsDigit(psz[i])
    ensures AllDigits(psz[from..i + 1]) && Values(psz[from..i + 1]) == Values(psz[from..i]) + [DigitOf(psz[i])]
  {
    hide IsDigit;
    assert psz[from..i + 1] == psz[from..i] + [psz[i]];
  }

  method DecodeBase58(psz: string) returns (r: Option<seq<nat>>)
    requires '\0' !in psz
    ensures r == Decoded(psz)
  {
    hide Reads, Pow, Digits, Recode, IsDigit, IsSpace, Word, LeadingSpaces;
    var from := SkipSpaces(psz, 0);
    assert psz[0..from] == psz[..from];
    LeadingSpacesAre(psz, from);
    var zeroes, start := CountOnes(psz, from);
    var b256 := new nat[(|psz| - start) * 733 / 1000 + 1](_ => 0);
    ZeroBuffer(b256[..], 256);
    DecodeFits(|psz| - start);
    var i := start;
    ghost var ds: seq<nat> := [];
    ReadsNothing(ds, 58);
    while i < |psz| && !IsSpace(psz[i])
      invariant start <= i <= |psz| && AllDigits(psz[from..i]) && InBase(b256[..], 256)
      invariant InBase(ds, 58) && |ds| == i - start && Values(psz[from..i]) == Zeros(zeroes) + ds
      invariant Reads(b256[..], 256) == Reads(ds, 58)
      invariant i > start ==> ds[0] != 0
      invariant i == start < |psz| ==> psz[i] != '1'
    {
      var d := Find(psz[i]);
      if d == -1 {
        StrayCharacter(psz, from, i);
        return None;
      }
      OneMore(psz, from, i);
      FirstDigit(psz[i]);
      MoreFits(ds, d, |psz| - start, b256.Length);
      var carry := MultiplyAdd(b256, 58, 256, d);
      assert carry == 0;
      ds := ds + [d];
      assert Values(psz[from..i + 1]) == Zeros(zeroes) + ds;
      i := i + 1;
    }
    var end := SkipSpaces(psz, i);
    WordEnds(psz, from, i, end);
    if end != |psz| {
      return None;
    }
    var it := SkipZeros(b256);
    Stripped(b256[..], it, 256, Reads(ds, 58));
    CountsZeros(zeroes, ds);
    RecodeIs(Values(psz[from..i]), 58, 256);
    r := Some(Nulls(zeroes) + b256[it..]);
  }

  function Nulls(n: nat): (r: seq<nat>)
    ensures r == Zeros(n)
  {
    seq(n, _ => 0)
  }

  lemma FirstDigit(c: char)
    requires IsDigit(c)
    ensures DigitOf(c) == 0 <==> c == '1'
  {
    AlphabetIs();
    AlphabetDistinct(DigitOf(c), DigitOf(c));
  }

  lemma MoreFits(ds: seq<nat>, d: nat, n: nat, len: nat)
    requires InBase(ds, 58) && d < 58 && |ds| < n && Pow(58, n) <= Pow(256, len)
    ensures Reads(ds + [d], 58) == 58 * Reads(ds, 58) + d < Pow(256, len)
  {
    hide Pow;
    ReadsPush(ds, d, 58);
    ReadsBound(ds + [d], 58);
    PowMono(58, |ds| + 1, n);
  }

  method CountOnes(psz: string, from: nat) returns (zeroes: nat, i: nat)
    requires from <= |psz|
    ensures i == from + zeroes <= |psz| && AllDigits(psz[from..i]) && Values(psz[from..i]) == Zeros(zeroes)
    ensures i < |psz| ==> psz[i] != '1'
  {
    hide IsDigit;
    i := from;
    zeroes := 0;
    while i < |psz| && psz[i] == '1'
      invariant i == from + zeroes <= |psz| && AllDigits(psz[from..i]) && Values(psz[from..i]) == Zeros(zeroes)
    {
      OneIsDigit();
      OneMore(psz, from, i);
      FirstDigit('1');
      zeroes := zeroes + 1;
      i := i + 1;
    }
  }

  lemma OneIsDigit()
    ensures IsDigit('1')
  {
    AlphabetDistinct(0, 0);
  }

  // ---------- With a checksum ----------

  /** The hash is a parameter: 32 bytes for any input. */
  ghost predicate IsHash(hash: seq<nat> -> seq<nat>) {
    forall s :: |hash(s)| == 32 && InBase(hash(s), 256)
  }

  function Checked(vch: seq<nat>, hash: seq<nat> -> seq<nat>): seq<nat> {
    var h := hash(vch);
    vch + if |h| >= 4 then h[..4] else h
  }

  ghost function DecodedCheck(psz: string, hash: seq<nat> -> seq<nat>): Option<seq<nat>> {
    var d := Decoded(psz);
    if d.Some? && |d.value| >= 4 && d.value == Checked(d.value[..|d.value| - 4], hash)
      then Some(d.value[..|d.value| - 4])
      else None
  }

  lemma CheckedInBase(vch: seq<nat>, hash: seq<nat> -> seq<nat>)
    requires InBase(vch, 256) && IsHash(hash)
    ensures InBase(Checked(vch, hash), 256) && Checked(vch, hash) == vch + hash(vch)[..4]
  {
  }

  /** What is encoded with a checksum is accepted and given back, with any spaces around. */
  lemma CheckAccepts(vch: seq<nat>, hash: seq<nat> -> seq<nat>, pre: string, post: string)
    requires InBase(vch, 256) && IsHash(hash) && AllSpaces(pre) && AllSpaces(post)
    ensures InBase(Checked(vch, hash), 256) && DecodedCheck(pre + Encoded(Checked(vch, hash)) + post, hash) == Some(vch)
  {
    hide Decoded, Encoded, AllSpaces;
    CheckedInBase(vch, hash);
    DecodeEncoded(Checked(vch, hash), pre, post);
    assert Checked(vch, hash)[..|vch|] == vch;
  }

  /** And no other word is accepted. */
  lemma CheckRejects(psz: string, hash: seq<nat> -> seq<nat>)
    requires IsHash(hash) && DecodedCheck(psz, hash).Some?
    ensures Word(psz).Some? && InBase(Checked(DecodedCheck(psz, hash).value, hash), 256)
    ensures Word(psz).value == Encoded(Checked(DecodedCheck(psz, hash).value, hash))
  {
    hide Encoded, Word, Recode, InBase;
    EncodeDecoded(Word(psz).value);
  }

  method EncodeBase58Check(vchIn: seq<nat>, hash: seq<nat> -> seq<nat>) returns (str: string)
    requires InBase(vchIn, 256) && IsHash(hash)
    ensures InBase(Checked(vchIn, hash), 256) && str == Encoded(Checked(vchIn, hash))
  {
    CheckedInBase(vchIn, hash);
    str := EncodeBase58(vchIn + hash(vchIn)[..4]);
  }

  method DecodeBase58Check(psz: string, hash: seq<nat> -> seq<nat>) returns (r: Option<seq<nat>>)
    requires '\0' !in psz && IsHash(hash)
    ensures r == DecodedCheck(psz, hash)
  {
    hide Decoded, InBase;
    var d := DecodeBase58(psz);
    if d.None? || |d.value| < 4 {
      return None;
    }
    var n := |d.value| - 4;
    assert d.value == d.value[..n] + d.value[n..];
    if hash(d.value[..n])[..4] != d.value[n..] {
      return None;
    }
    return Some(d.value[..n]);
  }
}
