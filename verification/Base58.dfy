/** Base58: byte strings as text without easily confused characters. */
module Base58 {
  import opened Wrappers
  import opened Powers
  import opened Positional

  // ----- the alphabet

  /** The characters for the digits: 1-9, A-Z without I and O, a-z without l. */
  function DigitChar(d: nat): char
    requires d < 58
  {
    if d < 9 then '1' + d as char
    else if d < 17 then 'A' + (d - 9) as char
    else if d < 22 then 'J' + (d - 17) as char
    else if d < 33 then 'P' + (d - 22) as char
    else if d < 44 then 'a' + (d - 33) as char
    else 'm' + (d - 44) as char
  }

  function CharDigit(c: char): (r: Option<nat>)
    ensures r.Some? ==> r.value < 58
  {
    if '1' <= c <= '9' then Some((c - '1') as nat)
    else if 'A' <= c <= 'H' then Some(9 + (c - 'A') as nat)
    else if 'J' <= c <= 'N' then Some(17 + (c - 'J') as nat)
    else if 'P' <= c <= 'Z' then Some(22 + (c - 'P') as nat)
    else if 'a' <= c <= 'k' then Some(33 + (c - 'a') as nat)
    else if 'm' <= c <= 'z' then Some(44 + (c - 'm') as nat)
    else None
  }

  predicate IsSpace(c: char) {
    c == ' ' || '\t' <= c <= '\r'
  }

  lemma AlphabetRoundTrip(d: nat, c: char)
    requires d < 58
    ensures CharDigit(DigitChar(d)) == Some(d) && !IsSpace(DigitChar(d)) && (DigitChar(d) == '1' <==> d == 0)
    ensures CharDigit(c).Some? ==> DigitChar(CharDigit(c).value) == c && !IsSpace(c)
  {
  }

  // ----- what the codec computes

  function Zeros(n: nat): (r: seq<nat>)
    ensures |r| == n && forall i :: 0 <= i < n ==> r[i] == 0
  {
    seq(n, i => 0)
  }

  /** The number of elements equal to x in front. */
  function Leading<T(==)>(s: seq<T>, x: T): (n: nat)
    ensures n <= |s| && (forall i :: 0 <= i < n ==> s[i] == x) && (n < |s| ==> s[n] != x)
  {
    if s == [] || s[0] != x then 0 else 1 + Leading(s[1..], x)
  }

  lemma {:induction false} LeadingIs<T>(s: seq<T>, x: T, n: nat)
    requires n <= |s| && (forall i :: 0 <= i < n ==> s[i] == x) && (n < |s| ==> s[n] != x)
    ensures Leading(s, x) == n
  {
    if n > 0 { LeadingIs(s[1..], x, n - 1); }
  }

  function Chars(d: seq<nat>): (s: string)
    requires DigitsOk(d, 58)
    ensures |s| == |d| && forall i :: 0 <= i < |d| ==> s[i] == DigitChar(d[i])
  {
    seq(|d|, i requires 0 <= i < |d| => DigitChar(d[i]))
  }

  predicate Decodable(w: string) {
    forall i :: 0 <= i < |w| ==> CharDigit(w[i]).Some?
  }

  function DigitsOf(w: string): (d: seq<nat>)
    requires Decodable(w)
    ensures |d| == |w| && DigitsOk(d, 58) && forall i :: 0 <= i < |w| ==> d[i] == CharDigit(w[i]).value
  {
    seq(|w|, i requires 0 <= i < |w| => CharDigit(w[i]).value)
  }

  /** A one for every leading zero byte, then the number in base 58. */
  function Encode(v: seq<nat>): string {
    var n := Value(v, 256);
    DigitsCanonical(n, 58);
    Chars(Zeros(Leading(v, 0)) + Digits(n, 58))
  }

  function SkipSpaces(s: string): string {
    if s != [] && IsSpace(s[0]) then SkipSpaces(s[1..]) else s
  }

  /** Everything ahead of the first space. */
  function Word(s: string): (w: string)
    ensures w <= s && forall i :: 0 <= i < |w| ==> !IsSpace(w[i])
  {
    if s == [] || IsSpace(s[0]) then [] else [s[0]] + Word(s[1..])
  }

  function DecodeWord(w: string): seq<nat>
    requires Decodable(w)
  {
    Zeros(Leading(w, '1')) + Digits(Value(DigitsOf(w), 58), 256)
  }

  /** One word of alphabet characters, with any spaces around it. */
  function DecodeText(s: string): Option<seq<nat>> {
    var t := SkipSpaces(s);
    var w := Word(t);
    if !Decodable(w) || SkipSpaces(t[|w|..]) != [] then None else Some(DecodeWord(w))
  }

  /** What a C string shows of a string: everything before the first zero character. */
  function CString(s: string): (r: string)
    ensures r <= s && '\0' !in r && (r == s || s[|r|] == '\0')
  {
    if s == [] || s[0] == '\0' then [] else [s[0]] + CString(s[1..])
  }

  function Decode(s: string): Option<seq<nat>> {
    DecodeText(CString(s))
  }

  // ----- round trips

  lemma NormalForm(z: nat, d: seq<nat>, base: nat)
    requires base > 1 && Canonical(d, base)
    ensures Leading(Zeros(z) + d, 0) == z && Digits(Value(Zeros(z) + d, base), base) == d
  {
    LeadingIs(Zeros(z) + d, 0, z);
    LeadingZeros(Zeros(z), d, base);
    DigitsOfValue(d, base);
  }

  lemma SplitZeros(v: seq<nat>, base: nat)
    requires DigitsOk(v, base)
    ensures Canonical(v[Leading(v, 0)..], base) && v == Zeros(Leading(v, 0)) + v[Leading(v, 0)..]
  {
    hide Leading;
    var z := Leading(v, 0);
    assert v[..z] == Zeros(z);
    assert v == v[..z] + v[z..];
  }

  lemma OnesAreZeros(w: string)
    requires Decodable(w)
    ensures Leading(w, '1') == Leading(DigitsOf(w), 0) && Chars(DigitsOf(w)) == w
  {
    var n := Leading(w, '1');
    forall i | 0 <= i < |w| ensures w[i] == '1' <==> DigitsOf(w)[i] == 0 { AlphabetRoundTrip(0, w[i]); }
    LeadingIs(DigitsOf(w), 0, n);
    forall i | 0 <= i < |w| ensures DigitChar(DigitsOf(w)[i]) == w[i] { AlphabetRoundTrip(0, w[i]); }
  }

  lemma CharsAreDigits(d: seq<nat>)
    requires DigitsOk(d, 58)
    ensures Decodable(Chars(d)) && DigitsOf(Chars(d)) == d && forall i :: 0 <= i < |d| ==> !IsSpace(Chars(d)[i])
  {
    forall i | 0 <= i < |d| ensures CharDigit(Chars(d)[i]) == Some(d[i]) && !IsSpace(Chars(d)[i]) {
      AlphabetRoundTrip(d[i], '1');
    }
  }

  lemma DecodeTextEncode(v: seq<nat>)
    requires DigitsOk(v, 256)
    ensures DecodeText(Encode(v)) == Some(v)
  {
    hide Value, Digits, DigitChar, CharDigit, Leading;
    var n, z := Value(v, 256), Leading(v, 0);
    var d := Digits(n, 58);
    var s := Encode(v);
    DigitsCanonical(n, 58);
    CharsAreDigits(Zeros(z) + d);
    WholeWord(s);
    OnesAreZeros(s);
    NormalForm(z, d, 58);
    LeadingZeros(Zeros(z), d, 58);
    ValueOfDigits(n, 58);
    SplitZeros(v, 256);
    NormalForm(z, v[z..], 256);
  }

  lemma {:induction false} WholeWord(s: string)
    requires forall i :: 0 <= i < |s| ==> !IsSpace(s[i])
    ensures SkipSpaces(s) == s && Word(s) == s
    decreases |s|
  {
    if s != [] { WholeWord(s[1..]); }
  }

  lemma EncodeDecodeText(s: string, v: seq<nat>)
    requires DecodeText(s) == Some(v)
    ensures DigitsOk(v, 256) && Encode(v) == Word(SkipSpaces(s))
  {
    var w := Word(SkipSpaces(s));
    var z, n := Leading(w, '1'), Value(DigitsOf(w), 58);
    OnesAreZeros(w);
    SplitZeros(DigitsOf(w), 58);
    NormalForm(z, DigitsOf(w)[z..], 58);
    DigitsCanonical(n, 256);
    NormalForm(z, Digits(n, 256), 256);
    LeadingZeros(Zeros(z), Digits(n, 256), 256);
    ValueOfDigits(n, 256);
  }

  /** One word with spaces around it. */
  ghost predicate Framed(s: string, front: string, w: string, back: string) {
    && s == front + w + back
    && (forall i :: 0 <= i < |front| ==> IsSpace(front[i]))
    && (forall i :: 0 <= i < |back| ==> IsSpace(back[i]))
    && (forall i :: 0 <= i < |w| ==> !IsSpace(w[i]))
  }

  /** One word of alphabet characters with spaces around it, which means these bytes. */
  ghost predicate MeansBytes(s: string, v: seq<nat>) {
    exists front, w, back :: Framed(s, front, w, back) && Decodable(w) && v == DecodeWord(w)
  }

  lemma DecodesTextIff(s: string, v: seq<nat>)
    ensures DecodeText(s) == Some(v) <==> MeansBytes(s, v)
  {
    hide Decodable, DecodeWord, SkipSpaces, Word, IsSpace;
    if DecodeText(s) == Some(v) {
      var t := SkipSpaces(s);
      var w := Word(t);
      var rest := t[|w|..];
      Skipped(s);
      Skipped(rest);
      assert s[..|s| - |t|] + w + rest == s;
      assert Framed(s, s[..|s| - |t|], w, rest);
    }
    forall front, w, back | Framed(s, front, w, back) && Decodable(w) && v == DecodeWord(w) ensures DecodeText(s) == Some(v) {
      DecodesWord(s, front, w, back);
    }
  }

  lemma {:induction false} Skipped(s: string)
    ensures var t := SkipSpaces(s);
            && |t| <= |s| && s == s[..|s| - |t|] + t && forall i :: 0 <= i < |s| - |t| ==> IsSpace(s[i])
    decreases |s|
  {
    if s != [] { Skipped(s[1..]); }
  }

  lemma DecodesWord(s: string, front: string, w: string, back: string)
    requires Framed(s, front, w, back)
    ensures DecodeText(s) == if Decodable(w) then Some(DecodeWord(w)) else None
  {
    if w == [] {
      AllSpaces(front + w + back, |front + back|);
    } else {
      AllSpaces(front + w + back, |front|);
      assert (front + w + back)[|front|..] == w + back;
    }
    FirstWord(w, back);
    AllSpaces(back, |back|);
  }

  lemma {:induction false} AllSpaces(s: string, n: nat)
    requires n <= |s| && (forall i :: 0 <= i < n ==> IsSpace(s[i])) && (n < |s| ==> !IsSpace(s[n]))
    ensures SkipSpaces(s) == s[n..]
    decreases n
  {
    if n > 0 { AllSpaces(s[1..], n - 1); }
  }

  lemma {:induction false} WordIs(s: string, n: nat)
    requires n <= |s| && (forall i :: 0 <= i < n ==> !IsSpace(s[i])) && (n < |s| ==> IsSpace(s[n]))
    ensures Word(s) == s[..n]
    decreases n
  {
    if n > 0 { WordIs(s[1..], n - 1); }
  }

  lemma FirstWord(w: string, back: string)
    requires (forall i :: 0 <= i < |w| ==> !IsSpace(w[i])) && (back != [] ==> IsSpace(back[0]))
    ensures Word(w + back) == w && (w + back)[|w|..] == back
  {
    WordIs(w + back, |w|);
  }

  lemma NoZeros(v: seq<nat>)
    requires DigitsOk(v, 256)
    ensures CString(Encode(v)) == Encode(v)
  {
    hide Value, Digits, Leading;
    DigitsCanonical(Value(v, 256), 58);
    CharsAreDigits(Zeros(Leading(v, 0)) + Digits(Value(v, 256), 58));
    assert CharDigit('\0').None?;
  }

  /** Decoding gives back every byte sequence that was encoded. */
  lemma DecodeEncode(v: seq<nat>)
    requires DigitsOk(v, 256)
    ensures Decode(Encode(v)) == Some(v)
  {
    hide DecodeText, Encode, CString;
    NoZeros(v);
    DecodeTextEncode(v);
  }

  /** Encoding gives back the word that was decoded, so no two words decode to the same bytes. */
  lemma EncodeDecode(s: string, v: seq<nat>)
    requires Decode(s) == Some(v)
    ensures DigitsOk(v, 256) && Encode(v) == Word(SkipSpaces(CString(s)))
  {
    hide DecodeText, Encode, CString;
    EncodeDecodeText(CString(s), v);
  }

  /** Every string: it decodes exactly if, up to the first zero character, it is one word of alphabet characters with
      spaces around it, and then to what that word means. A string with a second word does not decode. */
  lemma DecodesIff(s: string, v: seq<nat>)
    ensures Decode(s) == Some(v) <==> MeansBytes(CString(s), v)
  {
    hide DecodeText, CString, MeansBytes;
    DecodesTextIff(CString(s), v);
  }

  // ----- the conversions in place

  /** The estimate of the buffer size is large enough for the digits. */
  lemma EncodeRoom(n: nat)
    ensures Pow(58, n * 138 / 100 + 1) >= Pow(256, n)
  {
    assert Pow(58, 2) == 3364;
    PowAdd(58, 2, 2);
    PowAdd(58, 4, 4);
    PowAdd(58, 8, 3);
    assert Pow(58, 3) == 195112;
    PowAdd(256, 4, 4);
    assert Pow(256, 4) == 0x1_0000_0000;
    EnoughDigits(58, 11, 256, 8, n * 138 / 100 + 1, n);
  }

  lemma DecodeRoom(n: nat)
    ensures Pow(256, n * 733 / 1000 + 1) >= Pow(58, n)
  {
    LargeNumbers();
    EnoughDigits(256, 52, 58, 71, n * 733 / 1000 + 1, n);
  }

  lemma LargeNumbers()
    ensures Pow(256, 52) >= Pow(58, 71)
  {
    hide Pow;
    Power256();
    Power58();
  }

  lemma Power256()
    ensures Pow(256, 52) == 169230328010303641331690318856389386196071598838855992136870091590247882556495704531248437872567112920983350278405979725889536
  {
    assert Pow(256, 4) == 0x1_0000_0000;
    PowersOf(256);
    PowAdd(256, 16, 16);
    PowAdd(256, 32, 16);
    PowAdd(256, 48, 4);
  }

  lemma Power58()
    ensures Pow(58, 71) == 159730386663078066345306447337161584696769904898410078913243029577507397293846405390982563136983769384625594118558891106107392
  {
    assert Pow(58, 3) == 195112;
    assert Pow(58, 4) == 11316496;
    PowersOf(58);
    PowAdd(58, 16, 16);
    PowAdd(58, 32, 32);
    PowAdd(58, 4, 3);
    PowAdd(58, 64, 7);
  }

  lemma PowersOf(b: nat)
    ensures Pow(b, 8) == Pow(b, 4) * Pow(b, 4) && Pow(b, 16) == Pow(b, 8) * Pow(b, 8)
  {
    PowAdd(b, 4, 4);
    PowAdd(b, 8, 8);
  }

  lemma NextValue(d: seq<nat>, j: nat, base: nat)
    requires j < |d| && DigitsOk(d, base) && base > 0
    ensures Value(d[..j + 1], base) == Value(d[..j], base) * base + d[j]
    ensures Value(d[..j + 1], base) < Pow(base, |d|)
  {
    assert d[..j + 1][..j] == d[..j];
    ValueBound(d[..j + 1], base);
    PowUp(base, j + 1, |d|);
  }

  /** The digits in use without the zeros in front of them. */
  method Stripped(buf: array<nat>, base: nat, length: nat) returns (d: seq<nat>)
    requires base > 1 && length <= buf.Length && DigitsOk(buf[..], base)
    requires forall i :: 0 <= i < buf.Length - length ==> buf[i] == 0
    ensures d == Digits(Value(buf[..], base), base)
  {
    var k := buf.Length - length;
    while k < buf.Length && buf[k] == 0
      invariant 0 <= k <= buf.Length && forall i :: 0 <= i < k ==> buf[i] == 0
    {
      k := k + 1;
    }
    d := buf[k..];
    assert buf[..] == buf[..k] + d;
    LeadingZeros(buf[..k], d, base);
    DigitsOfValue(d, base);
  }

  method EncodeBase58(v: seq<nat>) returns (str: string)
    requires DigitsOk(v, 256)
    ensures str == Encode(v)
  {
    hide Pow, Value, Digits, Leading;
    var zeroes := 0;
    while zeroes < |v| && v[zeroes] == 0
      invariant 0 <= zeroes <= |v| && forall i :: 0 <= i < zeroes ==> v[i] == 0
    {
      zeroes := zeroes + 1;
    }
    LeadingIs(v, 0, zeroes);
    var w := v[zeroes..];
    var size := |w| * 138 / 100 + 1;
    var b58 := new nat[size](i => 0);
    EncodeRoom(|w|);
    ZerosValue(b58[..], 58);
    EmptyValue(256);
    var j, length: nat := 0, 0;
    while j < |w|
      invariant 0 <= j <= |w| && length <= size && DigitsOk(b58[..], 58)
      invariant forall i :: 0 <= i < size - length ==> b58[i] == 0
      invariant Value(b58[..], 58) == Value(w[..j], 256)
    {
      NextValue(w, j, 256);
      length := MultiplyAndAdd(b58, 58, 256, w[j], length);
      j := j + 1;
    }
    assert w[..j] == w;
    assert v == v[..zeroes] + w;
    LeadingZeros(v[..zeroes], w, 256);
    var d := Stripped(b58, 58, length);
    DigitsCanonical(Value(v, 256), 58);
    str := Chars(Zeros(zeroes) + d);
  }

  lemma {:induction false} WordReaches(s: string, p: nat)
    requires p < |s| && forall i :: 0 <= i <= p ==> !IsSpace(s[i])
    ensures p < |Word(s)|
    decreases p
  {
    if p > 0 { WordReaches(s[1..], p - 1); }
  }

  lemma {:induction false} WordEnds(s: string)
    ensures |Word(s)| < |s| ==> IsSpace(s[|Word(s)|])
    decreases |s|
  {
    if s != [] && !IsSpace(s[0]) { WordEnds(s[1..]); }
  }

  /** Turns the characters up to the first space into a number to the base 256. */
  method ConvertWord(s: string) returns (r: Option<seq<nat>>, used: nat)
    ensures r.Some? <==> Decodable(Word(s))
    ensures r.Some? ==> used == |Word(s)| && r.value == Digits(Value(DigitsOf(Word(s)), 58), 256)
  {
    hide Pow, Value, Digits, CharDigit, IsSpace;
    var size := |s| * 733 / 1000 + 1;
    var b256 := new nat[size](i => 0);
    DecodeRoom(|s|);
    ZerosValue(b256[..], 256);
    EmptyValue(58);
    var p, length: nat := 0, 0;
    while p < |s| && !IsSpace(s[p])
      invariant 0 <= p <= |s| && length <= size && DigitsOk(b256[..], 256)
      invariant forall i :: 0 <= i < size - length ==> b256[i] == 0
      invariant forall i :: 0 <= i < p ==> !IsSpace(s[i])
      invariant Decodable(s[..p]) && Value(b256[..], 256) == Value(DigitsOf(s[..p]), 58)
    {
      var digit := CharDigit(s[p]);
      if digit.None? {
        WordReaches(s, p);
        assert Word(s)[p] == s[p];
        return None, p;
      }
      NextDigit(s, p);
      length := MultiplyAndAdd(b256, 256, 58, digit.value, length);
      p := p + 1;
    }
    WordIs(s, p);
    var d := Stripped(b256, 256, length);
    return Some(d), p;
  }

  lemma NextDigit(s: string, p: nat)
    requires p < |s| && Decodable(s[..p]) && CharDigit(s[p]).Some?
    ensures Decodable(s[..p + 1])
    ensures Value(DigitsOf(s[..p + 1]), 58) == 58 * Value(DigitsOf(s[..p]), 58) + CharDigit(s[p]).value < Pow(58, |s|)
  {
    hide Pow, Value, CharDigit;
    DigitsNext(s, p);
    var longer := DigitsOf(s[..p + 1]);
    NextValue(longer, p, 58);
    assert longer[..p + 1] == longer;
    PowUp(58, p + 1, |s|);
  }

  lemma DigitsNext(s: string, p: nat)
    requires p < |s| && Decodable(s[..p]) && CharDigit(s[p]).Some?
    ensures Decodable(s[..p + 1])
    ensures var longer := DigitsOf(s[..p + 1]); longer[..p] == DigitsOf(s[..p]) && longer[p] == CharDigit(s[p]).value
  {
    hide CharDigit;
    var longer := s[..p + 1];
    forall i | 0 <= i < |longer| ensures CharDigit(longer[i]).Some? {
      if i < p { assert longer[i] == s[..p][i]; }
    }
  }

  /** The ones in front and the rest together are the word. */
  lemma OnesAndRest(t: string, zeroes: nat)
    requires zeroes <= |t| && (forall i :: 0 <= i < zeroes ==> t[i] == '1') && (zeroes < |t| ==> t[zeroes] != '1')
    ensures Word(t) == t[..zeroes] + Word(t[zeroes..]) && Leading(Word(t), '1') == zeroes
  {
    hide Word, Leading, IsSpace;
    var rest := t[zeroes..];
    var u := Word(rest);
    var n := zeroes + |u|;
    WordEnds(rest);
    AlphabetRoundTrip(0, '1');
    assert t[..n] == t[..zeroes] + u;
    forall i | 0 <= i < n ensures !IsSpace(t[i]) {
      assert t[i] == (t[..zeroes] + u)[i];
    }
    WordIs(t, n);
    LeadingIs(t[..n], '1', zeroes);
  }

  lemma OnesDecodable(ones: string, u: string)
    requires forall i :: 0 <= i < |ones| ==> ones[i] == '1'
    ensures Decodable(ones + u) <==> Decodable(u)
    ensures Decodable(u) ==> Value(DigitsOf(ones + u), 58) == Value(DigitsOf(u), 58)
  {
    hide Value;
    assert forall i :: 0 <= i < |u| ==> u[i] == (ones + u)[|ones| + i];
    if Decodable(u) {
      assert DigitsOf(ones + u) == Zeros(|ones|) + DigitsOf(u);
      LeadingZeros(Zeros(|ones|), DigitsOf(u), 58);
    }
  }

  /** The characters are read as a C string. */
  method DecodeBase58(str: string) returns (r: Option<seq<nat>>)
    ensures r == Decode(str)
  {
    hide CString, Value, Digits, Leading, IsSpace, Decodable, Word, SkipSpaces, DigitsOf;
    var s := CString(str);
    var start := 0;
    while start < |s| && IsSpace(s[start])
      invariant 0 <= start <= |s| && forall i :: 0 <= i < start ==> IsSpace(s[i])
    {
      start := start + 1;
    }
    AllSpaces(s, start);
    ghost var t := s[start..];
    var zeroes := 0;
    while start + zeroes < |s| && s[start + zeroes] == '1'
      invariant 0 <= zeroes <= |t| && forall i :: 0 <= i < zeroes ==> t[i] == '1'
    {
      zeroes := zeroes + 1;
    }
    OnesAndRest(t, zeroes);
    OnesDecodable(t[..zeroes], Word(t[zeroes..]));
    assert t[zeroes..] == s[start + zeroes..];
    var d, used := ConvertWord(s[start + zeroes..]);
    if d.None? { return None; }
    var p := start + zeroes + used;
    var q := p;
    while q < |s| && IsSpace(s[q])
      invariant p <= q <= |s| && forall i :: p <= i < q ==> IsSpace(s[i])
    {
      q := q + 1;
    }
    assert t[|Word(t)|..] == s[p..];
    AllSpaces(s[p..], q - p);
    if q < |s| { return None; }
    return Some(Zeros(zeroes) + d.value);
  }
}
