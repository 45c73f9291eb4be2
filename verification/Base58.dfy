/** Base58 strings (src/base58_codec.cpp). */
module Base58 {
  import opened Outcomes
  import opened Powers
  import opened Numerals

  // ---------- The alphabet ----------

  /** The alphanumeric characters except 0, I, O and l. */
  const ALPHABET := "123456789" + "ABCDEFGH" + "JKLMN" + "PQRSTUVWXYZ" + "abcdefghijk" + "mnopqrstuvwxyz"

  /** Consecutive characters. */
  function Run(c: nat, n: nat): (r: string)
    requires c + n < 128
    ensures |r| == n && forall i :: 0 <= i < n ==> r[i] as int == c + i
  {
    seq(n, i requires 0 <= i < n => (c + i) as char)
  }

  function Letter(d: int): int {
    if d < 9 then 49 + d
    else if d < 17 then 65 + d - 9
    else if d < 22 then 74 + d - 17
    else if d < 33 then 80 + d - 22
    else if d < 44 then 97 + d - 33
    else 109 + d - 44
  }

  lemma AlphabetIs()
    ensures |ALPHABET| == 58 && forall d :: 0 <= d < 58 ==> ALPHABET[d] as int == Letter(d)
  {
    assert "123456789" == Run(49, 9);
    assert "ABCDEFGH" == Run(65, 8);
    assert "JKLMN" == Run(74, 5);
    assert "PQRSTUVWXYZ" == Run(80, 11);
    assert "abcdefghijk" == Run(97, 11);
    assert "mnopqrstuvwxyz" == Run(109, 14);
  }

  predicate Alphanumeric(c: char) {
    '0' <= c <= '9' || 'A' <= c <= 'Z' || 'a' <= c <= 'z'
  }

  /** All alphanumeric characters but four, in the order of their codes. */
  lemma AlphabetMeans()
    ensures forall c :: c in ALPHABET <==> Alphanumeric(c) && c != '0' && c != 'O' && c != 'I' && c != 'l'
    ensures forall i, j :: 0 <= i < j < |ALPHABET| ==> ALPHABET[i] < ALPHABET[j]
  {
    AlphabetIs();
    forall c | Alphanumeric(c) && c != '0' && c != 'O' && c != 'I' && c != 'l'
      ensures c in ALPHABET
    {
      var k := c as int;
      var d := if k < 58 then k - 49 else if k < 73 then k - 56 else if k < 79 then k - 57 else if k < 91 then k - 58
        else if k < 108 then k - 64 else k - 65;
      assert ALPHABET[d] as int == Letter(d) == k;
    }
  }

  /** No character occurs twice, and none is a space or ends a string. */
  lemma AlphabetDistinct(c: nat, d: nat)
    requires c < 58 && d < 58
    ensures |ALPHABET| == 58 && (ALPHABET[c] == ALPHABET[d] <==> c == d)
    ensures !IsSpace(ALPHABET[d]) && (ALPHABET[d] == '1' <==> d == 0)
  {
    AlphabetIs();
    assert ALPHABET[c] as int == Letter(c) && ALPHABET[d] as int == Letter(d);
    assert Letter(0) == 49;
  }

  /** isspace in the C locale. */
  predicate IsSpace(c: char) {
    c == ' ' || 9 <= c as int <= 13
  }

  predicate IsDigit(c: char) {
    c in ALPHABET
  }

  ghost function DigitOf(c: char): (d: nat)
    requires IsDigit(c)
    ensures d < |ALPHABET| && ALPHABET[d] == c
  {
    var d :| 0 <= d < |ALPHABET| && ALPHABET[d] == c;
    d
  }

  ghost predicate AllDigits(s: string) {
    forall i :: 0 <= i < |s| ==> IsDigit(s[i])
  }

  ghost predicate AllSpaces(s: string) {
    forall i :: 0 <= i < |s| ==> IsSpace(s[i])
  }

  /** A word of the alphabet as a base-58 numeral, and back. */
  ghost function Values(s: string): (r: seq<nat>)
    requires AllDigits(s)
    ensures |r| == |s| && forall i :: 0 <= i < |s| ==> r[i] == DigitOf(s[i])
  {
    seq(|s|, i requires 0 <= i < |s| => DigitOf(s[i]))
  }

  ghost function Spelled(s: seq<nat>): (r: string)
    requires InBase(s, 58)
    ensures |r| == |s| && |ALPHABET| == 58 && forall i :: 0 <= i < |s| ==> r[i] == ALPHABET[s[i]]
  {
    AlphabetIs();
    seq(|s|, i requires 0 <= i < |s| => ALPHABET[s[i]])
  }

  lemma SpelledValues(s: seq<nat>)
    requires InBase(s, 58)
    ensures AllDigits(Spelled(s)) && Values(Spelled(s)) == s
  {
    var t := Spelled(s);
    assert AllDigits(t);
    forall i | 0 <= i < |s|
      ensures Values(t)[i] == s[i]
    {
      AlphabetDistinct(DigitOf(t[i]), s[i]);
    }
  }

  lemma ValuesSpelled(s: string)
    requires AllDigits(s)
    ensures InBase(Values(s), 58) && Spelled(Values(s)) == s
  {
    AlphabetIs();
  }

  method StrChr(s: string, c: char) returns (d: int)
    ensures if c in s then 0 <= d < |s| && s[d] == c else d == -1
  {
    d := 0;
    while d < |s|
      invariant 0 <= d <= |s| && c !in s[..d]
    {
      if s[d] == c {
        return;
      }
      d := d + 1;
    }
    assert s[..d] == s;
    return -1;
  }

  method Find(c: char) returns (d: int)
    ensures if IsDigit(c) then 0 <= d < 58 && d == DigitOf(c) else d == -1
  {
    d := StrChr(ALPHABET, c);
    if d != -1 {
      AlphabetIs();
      AlphabetDistinct(d, DigitOf(c));
    }
  }

  // ---------- Encoded and decoded, in plain terms ----------

  ghost function Encoded(bytes: seq<nat>): (s: string)
    requires InBase(bytes, 256)
  {
    RecodeInBase(bytes, 256, 58);
    Spelled(Recode(bytes, 256, 58))
  }

  ghost function LeadingSpaces(s: string): (n: nat)
    ensures n <= |s|
  {
    if s == "" || !IsSpace(s[0]) then 0 else 1 + LeadingSpaces(s[1..])
  }

  ghost function WordLength(s: string): (n: nat)
    ensures n <= |s|
  {
    if s == "" || IsSpace(s[0]) then 0 else 1 + WordLength(s[1..])
  }

  /** The word between spaces, if it is all there is and all of the alphabet. */
  ghost function Word(psz: string): (w: Option<string>)
    ensures w.Some? ==> AllDigits(w.value)
  {
    var s := psz[LeadingSpaces(psz)..];
    var n := WordLength(s);
    if AllDigits(s[..n]) && AllSpaces(s[n..]) then Some(s[..n]) else None
  }

  ghost function Decoded(psz: string): (r: Option<seq<nat>>) {
    if Word(psz).Some? then Some(Recode(Values(Word(psz).value), 58, 256)) else None
  }

  lemma {:induction false} SpacesSkipped(s: string)
    ensures AllSpaces(s[..LeadingSpaces(s)])
    ensures LeadingSpaces(s) < |s| ==> !IsSpace(s[LeadingSpaces(s)])
  {
    if s != "" && IsSpace(s[0]) {
      SpacesSkipped(s[1..]);
      var n := LeadingSpaces(s[1..]);
      assert s[..n + 1] == [s[0]] + s[1..][..n];
    }
  }

  lemma {:induction false} LeadingSpacesAre(s: string, n: nat)
    requires n <= |s| && AllSpaces(s[..n]) && (n < |s| ==> !IsSpace(s[n]))
    ensures LeadingSpaces(s) == n
  {
    if n > 0 {
      assert s[0] == s[..n][0];
      assert s[1..][..n - 1] == s[..n][1..];
      LeadingSpacesAre(s[1..], n - 1);
    }
  }

  lemma {:induction false} WordLengthIs(s: string, n: nat)
    requires n <= |s| && (forall i :: 0 <= i < n ==> !IsSpace(s[i])) && (n < |s| ==> IsSpace(s[n]))
    ensures WordLength(s) == n
  {
    if n > 0 {
      WordLengthIs(s[1..], n - 1);
    }
  }

  /** A word of the alphabet, with any spaces around it, is read as that word. */
  lemma WordPadded(pre: string, w: string, post: string)
    requires AllSpaces(pre) && AllDigits(w) && AllSpaces(post)
    ensures Word(pre + w + post) == Some(w)
  {
    var psz := pre + w + post;
    if w == "" {
      assert psz[..|psz|] == psz && psz == pre + post;
      LeadingSpacesAre(psz, |psz|);
      return;
    }
    NotSpace(w[0]);
    assert psz[..|pre|] == pre && psz[|pre|] == w[0];
    LeadingSpacesAre(psz, |pre|);
    var s := psz[|pre|..];
    assert s == w + post && s[..|w|] == w && s[|w|..] == post;
    forall i | 0 <= i < |w|
      ensures !IsSpace(s[i])
    {
      NotSpace(w[i]);
    }
    WordLengthIs(s, |w|);
  }

  lemma NotSpace(c: char)
    requires IsDigit(c)
    ensures !IsSpace(c)
  {
    AlphabetIs();
    AlphabetDistinct(DigitOf(c), DigitOf(c));
  }

  /** And nothing else is read at all. */
  lemma WordIsPadded(psz: string) returns (pre: string, post: string)
    requires Word(psz).Some?
    ensures AllSpaces(pre) && AllSpaces(post) && psz == pre + Word(psz).value + post
  {
    hide LeadingSpaces, WordLength, AllDigits, AllSpaces;
    SpacesSkipped(psz);
    var s := psz[LeadingSpaces(psz)..];
    pre, post := psz[..LeadingSpaces(psz)], s[WordLength(s)..];
  }

  /** Decoding inverts encoding, for all byte strings, with any spaces around. */
  lemma DecodeEncoded(bytes: seq<nat>, pre: string, post: string)
    requires InBase(bytes, 256) && AllSpaces(pre) && AllSpaces(post)
    ensures Decoded(pre + Encoded(bytes) + post) == Some(bytes)
  {
    var r := Recode(bytes, 256, 58);
    RecodeInBase(bytes, 256, 58);
    SpelledValues(r);
    RecodeBack(bytes, 256, 58);
    WordPadded(pre, Encoded(bytes), post);
  }

  /** Bytes and digits stand for the same number, with as many zeros in front. */
  lemma {:induction false} EncodedMeans(bytes: seq<nat>)
    requires InBase(bytes, 256)
    ensures AllDigits(Encoded(bytes))
    ensures Reads(Values(Encoded(bytes)), 58) == Reads(bytes, 256)
    ensures LeadingZeros(Values(Encoded(bytes))) == LeadingZeros(bytes)
  {
    RecodeInBase(bytes, 256, 58);
    SpelledValues(Recode(bytes, 256, 58));
    RecodeMeans(bytes, 256, 58);
  }

  /** Encoding inverts decoding, for all words of the alphabet. */
  lemma EncodeDecoded(w: string)
    requires AllDigits(w)
    ensures InBase(Recode(Values(w), 58, 256), 256) && Encoded(Recode(Values(w), 58, 256)) == w
  {
    ValuesSpelled(w);
    RecodeInBase(Values(w), 58, 256);
    RecodeBack(Values(w), 58, 256);
  }
}
