/** The compact form of targets: a byte count and a mantissa of 23 bits, like a floating-point number. */
module CompactTarget {
  import opened Powers
  import opened Positional
  import opened Limbs
  import opened LimbShifts
  import opened LimbDivision

  // ----- reading

  function SizeOf(nCompact: nat): nat {
    nCompact / 0x100_0000
  }

  function WordOf(nCompact: nat): nat {
    nCompact % 0x80_0000
  }

  predicate SignOf(nCompact: nat) {
    nCompact / 0x80_0000 % 2 == 1
  }

  /** The mantissa, shifted right for sizes below three. */
  function Mantissa(nCompact: nat): nat {
    var size, word := SizeOf(nCompact), WordOf(nCompact);
    if size == 0 then word / 0x100_0000 else if size == 1 then word / 0x1_0000 else if size == 2 then word / 0x100 else word
  }

  /** The number meant, without any limit on its size. */
  function Meaning(nCompact: nat): nat {
    var size := SizeOf(nCompact);
    if size <= 3 then Mantissa(nCompact) else WordOf(nCompact) * Pow(256, size - 3)
  }

  predicate Negative(nCompact: nat) {
    Mantissa(nCompact) != 0 && SignOf(nCompact)
  }

  predicate Overflow(nCompact: nat) {
    var size, word := SizeOf(nCompact), Mantissa(nCompact);
    word != 0 && (size > 34 || (word > 0xff && size > 33) || (word > 0xffff && size > 32))
  }

  lemma ModulusIs256()
    ensures Modulus() == Pow(256, 32) == Pow(2, 256)
  {
    hide Pow;
    TwoTo32();
    PowPow(2, 32, 8);
    PowPow(2, 8, 32);
    TwoTo8();
  }

  lemma TwoTo8()
    ensures Pow(2, 8) == 256
  {
  }

  /** The overflow flag is set exactly if the number does not fit into 256 bits. */
  lemma OverflowExact(nCompact: nat)
    ensures Overflow(nCompact) <==> Meaning(nCompact) >= Modulus()
  {
    hide Pow, WordOf, SizeOf;
    ModulusIs256();
    SmallWord(nCompact);
    var size, word := SizeOf(nCompact), WordOf(nCompact);
    if size > 34 { Beyond(word, size - 3); }
    else if size == 34 { PowUp(256, 0, 31); CompareScaled(word, Pow(256, 31), 0x100); PowAdd(256, 1, 31); SmallPowers(); }
    else if size == 33 { PowUp(256, 0, 30); CompareScaled(word, Pow(256, 30), 0x1_0000); PowAdd(256, 2, 30); SmallPowers(); }
    else if size > 3 { Within(word, size - 3); }
    else { PowUp(256, 3, 32); SmallPowers(); }
  }

  lemma SmallWord(nCompact: nat)
    ensures WordOf(nCompact) < 0x80_0000
  {
  }

  lemma CompareScaled(word: nat, p: nat, c: nat)
    requires p > 0
    ensures word * p >= c * p <==> word >= c
  {
    Times(p, c, word);
    Times(p, word + 1, c);
    assert p * (word + 1) == word * p + p;
  }

  lemma Beyond(word: nat, e: nat)
    requires e >= 32
    ensures word * Pow(256, e) >= Pow(256, 32) <==> word != 0
  {
    hide Pow;
    PowUp(256, 0, 32);
    PowUp(256, 32, e);
    Times(Pow(256, e), 1, word);
  }

  lemma Within(word: nat, e: nat)
    requires word < 0x80_0000 && e <= 29
    ensures word * Pow(256, e) < Pow(256, 32)
  {
    hide Pow;
    PowUp(256, e, 29);
    PowAdd(256, 3, 29);
    SmallPowers();
    PowUp(256, 0, 29);
    Times(word, Pow(256, e), Pow(256, 29));
    CompareScaled(word, Pow(256, 29), 0x100_0000);
  }

  lemma SmallPowers()
    ensures Pow(256, 0) == 1 && Pow(256, 1) == 0x100 && Pow(256, 2) == 0x1_0000 && Pow(256, 3) == 0x100_0000
  {
  }

  method SetCompact(pn: array<nat>, nCompact: nat) returns (negative: bool, overflow: bool)
    requires pn.Length == WIDTH && nCompact < BASE
    modifies pn
    ensures LimbsOk(pn[..]) && Val(pn[..]) == Meaning(nCompact) % Modulus()
    ensures negative == Negative(nCompact) && overflow == Overflow(nCompact)
  {
    hide Low, Pow;
    var size, word := SizeOf(nCompact), Mantissa(nCompact);
    CopyTo(pn, [word, 0, 0, 0, 0, 0, 0, 0]);
    WordValue(word);
    if size > 3 {
      ShiftLeftAssign(pn, 8 * (size - 3));
      PowPow(2, 8, size - 3);
      TwoTo8();
    } else {
      ModulusBig();
      SmallMod(word, Modulus());
    }
    negative := word != 0 && SignOf(nCompact);
    overflow := word != 0 && (size > 34 || (word > 0xff && size > 33) || (word > 0xffff && size > 32));
  }

  lemma WordValue(word: nat)
    ensures Val([word, 0, 0, 0, 0, 0, 0, 0]) == word
  {
    hide Low, Pow;
    var s := [word, 0, 0, 0, 0, 0, 0, 0];
    LowNone(s);
    LowNext(s, 0);
    OnlyLow(s, 1);
  }

  // ----- writing

  /** The number of bytes of v. */
  ghost predicate IsByteSize(v: nat, size: nat) {
    if size == 0 then v == 0 else Pow(256, size - 1) <= v < Pow(256, size)
  }

  lemma BytesOfBits(v: nat, bits: nat)
    requires IsBits(v, bits)
    ensures IsByteSize(v, (bits + 7) / 8)
  {
    hide Pow;
    var size := (bits + 7) / 8;
    if bits > 0 {
      PowPow(2, 8, size - 1);
      PowPow(2, 8, size);
      TwoTo8();
      PowUp(2, 8 * (size - 1), bits - 1);
      PowUp(2, bits, 8 * size);
    }
  }

  /** Size and mantissa before the sign bit is taken care of. */
  function RawWord(v: nat, size: nat): nat {
    PowUp(256, 0, if size <= 3 then 3 - size else size - 3);
    if size <= 3 then v * Pow(256, 3 - size) else v / Pow(256, size - 3)
  }

  /** Size and mantissa of the compact form: a mantissa that would look negative loses a byte. */
  function Parts(v: nat, size: nat): (nat, nat) {
    var raw := RawWord(v, size);
    if raw / 0x80_0000 % 2 == 1 then (size + 1, raw / 0x100) else (size, raw)
  }

  lemma RawBound(v: nat, size: nat)
    requires IsByteSize(v, size)
    ensures RawWord(v, size) < 0x100_0000 && (v > 0 ==> RawWord(v, size) >= 0x1_0000)
  {
    hide Pow;
    SmallPowers();
    if size == 0 {
      ZeroTimes(Pow(256, 3));
    } else if size <= 3 {
      var p := Pow(256, 3 - size);
      PowAdd(256, size, 3 - size);
      PowAdd(256, size - 1, 3 - size);
      SmallPowers();
      PowUp(256, 0, 3 - size);
      Strictly(v, Pow(256, size), p);
      Times(p, Pow(256, size - 1), v);
    } else {
      var p := Pow(256, size - 3);
      PowAdd(256, 3, size - 3);
      PowAdd(256, 2, size - 3);
      PowUp(256, 0, size - 3);
      DivBetween(v, p, 0x1_0000, 0x100_0000);
    }
  }

  lemma DivBetween(v: nat, p: nat, low: nat, high: nat)
    requires p > 0 && low * p <= v < high * p
    ensures low <= v / p < high
  {
    assert v == p * (v / p) + v % p;
    SmallQuotient(v / p, high, p, v % p);
    LowQuotient(v, p, low);
  }

  lemma LowQuotient(v: nat, p: nat, low: nat)
    requires p > 0 && low * p <= v
    ensures low <= v / p
  {
    assert v == p * (v / p) + v % p;
    Times(p, v / p + 1, low);
    assert p * (v / p + 1) == p * (v / p) + p;
  }

  /** The compact form with the given size and mantissa, for numbers that are not negative. */
  function Packed(size: nat, word: nat): nat {
    size * 0x100_0000 + word
  }

  lemma PackedFields(size: nat, word: nat)
    requires word < 0x80_0000
    ensures SizeOf(Packed(size, word)) == size && WordOf(Packed(size, word)) == word && !SignOf(Packed(size, word))
  {
  }

  /** What is left of a number of the given size in compact form. */
  function Rounded(v: nat, size: nat): nat {
    var (s, w) := Parts(v, size);
    Meaning(Packed(s, w))
  }

  /** Numbers of at most two bytes, and of three without the sign bit, are kept exactly. */
  lemma SmallExact(v: nat, size: nat)
    requires IsByteSize(v, size) && size <= 3 && v < 0x80_0000
    ensures var (s, w) := Parts(v, size); w < 0x80_0000 && s <= 3 && Meaning(Packed(s, w)) == v
  {
    hide Pow, SizeOf, WordOf, Packed;
    SmallPowers();
    var (s, w) := Parts(v, size);
    RawSmall(v, size);
    PartsSmall(v, size, RawWord(v, size));
    PackedFields(s, w);
  }

  lemma RawSmall(v: nat, size: nat)
    requires IsByteSize(v, size) && size <= 3
    ensures size == 0 ==> v == 0 && RawWord(v, size) == 0
    ensures size == 1 ==> v < 0x100 && RawWord(v, size) == v * 0x1_0000
    ensures size == 2 ==> v < 0x1_0000 && RawWord(v, size) == v * 0x100
    ensures size == 3 ==> RawWord(v, size) == v
  {
    hide Pow;
    SmallPowers();
    if size == 0 { ZeroTimes(Pow(256, 3)); }
  }

  /** A byte given up at the end was zero. */
  lemma PartsSmall(v: nat, size: nat, raw: nat)
    requires size == 0 ==> v == 0 && raw == 0
    requires size == 1 ==> v < 0x100 && raw == v * 0x1_0000
    requires size == 2 ==> v < 0x1_0000 && raw == v * 0x100
    requires size == 3 ==> raw == v && v < 0x80_0000
    requires size <= 3
    ensures var shifted := raw / 0x80_0000 % 2 == 1;
            var s, w := if shifted then size + 1 else size, if shifted then raw / 0x100 else raw;
            && w < 0x80_0000 && s <= 3
            && (s == 0 ==> v == w / 0x100_0000) && (s == 1 ==> v == w / 0x1_0000)
            && (s == 2 ==> v == w / 0x100) && (s == 3 ==> v == w)
  {
  }

  /** For larger numbers the mantissa is the number divided by a power of 256, and has at least 16 bits. */
  lemma LargeParts(v: nat, size: nat)
    requires IsByteSize(v, size) && v >= 0x80_0000
    ensures var (s, w) := Parts(v, size);
            && s > 3 && Pow(256, s - 3) > 0 && w == v / Pow(256, s - 3) && 0x8000 <= w < 0x80_0000
            && (s == size || (s == size + 1 && w < 0x1_0000)) && size >= 3 && (s == size ==> w >= 0x1_0000)
  {
    hide Pow;
    SmallPowers();
    RawBound(v, size);
    SizeAtLeast(v, size);
    var raw := RawWord(v, size);
    if size == 3 {
      assert raw == v * Pow(256, 0) == v;
    } else {
      PowUp(256, 0, size - 3);
      PowAdd(256, size - 3, 1);
      PowUp(256, 0, size - 2);
      DivTwice(v, Pow(256, size - 3), 0x100);
    }
  }

  lemma SizeAtLeast(v: nat, size: nat)
    requires IsByteSize(v, size) && v >= 0x80_0000
    ensures size >= 3
  {
    hide Pow;
    SmallPowers();
    if size <= 2 { PowUp(256, size, 2); }
  }

  lemma DivTwice(v: nat, p: nat, c: nat)
    requires p > 0 && c > 0 && p * c > 0
    ensures v / p / c == v / (p * c)
  {
    var q, r := v / p, v % p;
    var a, b := q / c, q % c;
    assert v == p * q + r && q == c * a + b;
    calc {
      v;
      p * (c * a + b) + r;
      p * (c * a) + p * b + r;
      { Assoc(p, c, a); }
      (p * c) * a + (p * b + r);
    }
    Times(p, b + 1, c);
    assert p * (b + 1) == p * b + p;
    Product(p, b);
    Quotient(v, p * c, a, p * b + r);
  }

  /** Rounding goes down, by less than one part in 2^15. */
  lemma RoundsDown(v: nat, size: nat)
    requires IsByteSize(v, size)
    ensures Rounded(v, size) <= v && (v - Rounded(v, size)) * 0x8000 <= v
  {
    hide Pow, Parts;
    var (s, w) := Parts(v, size);
    if v < 0x80_0000 {
      SizeAtMost(v, size);
      SmallExact(v, size);
    } else {
      LargeParts(v, size);
      PackedFields(s, w);
      RestSmall(v, Pow(256, s - 3), w);
    }
  }

  lemma SizeAtMost(v: nat, size: nat)
    requires IsByteSize(v, size) && v < 0x80_0000
    ensures size <= 3
  {
    hide Pow;
    SmallPowers();
    if size > 3 { PowUp(256, 3, size - 1); }
  }

  lemma RestSmall(v: nat, p: nat, w: nat)
    requires p > 0 && w == v / p && w >= 0x8000
    ensures 0 <= w * p <= v && (v - w * p) * 0x8000 <= v
  {
    assert v == p * w + v % p;
    Times(p, 0x8000, w);
  }

  /** Rounding again changes nothing: the compact form is the same. */
  lemma RoundingIsStable(v: nat, size: nat)
    requires IsByteSize(v, size)
    ensures IsByteSize(Rounded(v, size), size) && Parts(Rounded(v, size), size) == Parts(v, size)
  {
    hide Pow, Parts;
    var (s, w) := Parts(v, size);
    if v < 0x80_0000 {
      SizeAtMost(v, size);
      SmallExact(v, size);
    } else {
      LargeParts(v, size);
      PackedFields(s, w);
      RoundsDown(v, size);
      SameSize(v, size, s, w);
      SameParts(size, s, w);
    }
  }

  lemma SameSize(v: nat, size: nat, s: nat, w: nat)
    requires IsByteSize(v, size) && size >= 3 && 3 < s && 0x8000 <= w && w * Pow(256, s - 3) <= v
    requires (s == size && w >= 0x1_0000) || s == size + 1
    ensures IsByteSize(w * Pow(256, s - 3), size)
  {
    hide Pow;
    SmallPowers();
    PowUp(256, 0, s - 3);
    if s == size {
      PowAdd(256, 2, s - 3);
      Times(Pow(256, s - 3), 0x1_0000, w);
    } else {
      PowAdd(256, 1, s - 3);
      PowAdd(256, 2, size - 3);
      PowAdd(256, 1, size - 3);
      Times(Pow(256, s - 3), 0x8000, w);
    }
  }

  lemma SameParts(size: nat, s: nat, w: nat)
    requires size >= 3 && 3 < s && 0x8000 <= w < 0x80_0000 && (s == size || (s == size + 1 && w < 0x1_0000))
    ensures Parts(w * Pow(256, s - 3), size) == (s, w)
  {
    hide Pow;
    SmallPowers();
    PowUp(256, 0, s - 3);
    PowUp(256, 0, size - 3);
    var p := Pow(256, size - 3);
    if s == size {
      Quotient(w * p, p, w, 0);
    } else {
      PowAdd(256, 1, size - 3);
      Assoc(w, 0x100, p);
      Quotient(w * Pow(256, s - 3), p, w * 0x100, 0);
      if size == 3 { assert RawWord(w * Pow(256, s - 3), size) == w * 0x100; }
    }
  }

  function Low64(s: seq<nat>): nat
    requires |s| == WIDTH
  {
    s[0] + s[1] * BASE
  }

  lemma Low64Of(s: seq<nat>)
    requires LimbsOk(s) && Val(s) < BASE * BASE
    ensures Low64(s) == Val(s)
  {
    hide Low, Pow;
    var high := HighPart(s, 2);
    LowNone(s);
    LowNext(s, 0);
    LowNext(s, 1);
    PowStep(0);
    PowStep(1);
    Times(Pow(BASE, 2), 1, high);
  }

  function ByteSize(v: nat): nat {
    if v == 0 then 0 else 1 + ByteSize(v / 256)
  }

  lemma {:induction false} ByteSizeIs(v: nat)
    ensures IsByteSize(v, ByteSize(v))
  {
    if v > 0 {
      var w := v / 256;
      ByteSizeIs(w);
      PowStep256(ByteSize(w));
      if w > 0 { PowStep256(ByteSize(w) - 1); } else { SmallPowers(); }
    }
  }

  lemma ByteSizeUnique(v: nat, n: nat, m: nat)
    requires IsByteSize(v, n) && IsByteSize(v, m)
    ensures n == m
  {
    hide Pow;
    if n > 0 { PowUp(256, 0, n - 1); }
    if m > 0 { PowUp(256, 0, m - 1); }
    if 0 < n < m { PowUp(256, n, m - 1); }
    if 0 < m < n { PowUp(256, m, n - 1); }
  }

  /** The compact form of a number. */
  function CompactOf(v: nat): nat {
    var (s, w) := Parts(v, ByteSize(v));
    Packed(s, w)
  }

  /** The compact form; the sign bit is set for a negative number other than zero. */
  method GetCompact(a: seq<nat>, fNegative: bool) returns (nCompact: nat)
    requires LimbsOk(a)
    ensures nCompact == CompactOf(Val(a)) + if fNegative && WordOf(CompactOf(Val(a))) != 0 then 0x80_0000 else 0
    ensures nCompact < BASE
  {
    hide Low, Pow, IsBits, IsByteSize, ByteSize, Packed, WordOf, Val;
    var bits := Bits(a);
    BytesOfBits(Val(a), bits);
    var nSize := (bits + 7) / 8;
    ByteSizeIs(Val(a));
    ByteSizeUnique(Val(a), nSize, ByteSize(Val(a)));
    RawBound(Val(a), nSize);
    PartsBound(Val(a), nSize);
    var word;
    if nSize <= 3 {
      SmallNumber(Val(a), nSize);
      Low64Of(a);
      word := Low64(a) * Pow(256, 3 - nSize);
    } else {
      var bn := new nat[WIDTH];
      CopyTo(bn, a);
      ShiftRightAssign(bn, 8 * (nSize - 3));
      PowPow(2, 8, nSize - 3);
      TwoTo8();
      Low64Of(bn[..]);
      word := Low64(bn[..]);
    }
    if word / 0x80_0000 % 2 == 1 {
      word := word / 0x100;
      nSize := nSize + 1;
    }
    assert word < 0x80_0000 && nSize < 256;
    nCompact := Packed(nSize, word);
    PackedFields(nSize, word);
    PackedSmall(nSize, word);
    if fNegative && word != 0 { nCompact := nCompact + 0x80_0000; }
  }

  lemma PackedSmall(size: nat, word: nat)
    requires size < 256 && word < 0x80_0000
    ensures Packed(size, word) + 0x80_0000 < BASE
  {
  }

  lemma SmallNumber(v: nat, size: nat)
    requires IsByteSize(v, size) && size <= 3
    ensures v < 0x100_0000
  {
    hide Pow;
    SmallPowers();
    if size > 0 { PowUp(256, size, 3); }
  }

  lemma PartsBound(v: nat, size: nat)
    requires IsByteSize(v, size)
    ensures Parts(v, size).1 < 0x80_0000 && (v < Modulus() ==> Parts(v, size).0 < 256)
  {
    hide Pow, RawWord;
    RawBound(v, size);
    ModulusIs256();
    if size > 33 { PowUp(256, 32, size - 1); }
  }

  /** A number written in compact form and read again: it fits, is not negative, is rounded down by at most one part
      in 2^15, and has the same compact form. */
  lemma CompactRoundTrip(v: nat)
    requires v < Modulus()
    ensures var c := CompactOf(v);
            && !Negative(c) && !Overflow(c) && Meaning(c) <= v && (v - Meaning(c)) * 0x8000 <= v
            && CompactOf(Meaning(c)) == c && c < BASE
  {
    hide Pow, Parts, ByteSize;
    var size := ByteSize(v);
    ByteSizeIs(v);
    var (s, w) := Parts(v, size);
    PartsBound(v, size);
    PackedFields(s, w);
    PackedSmall(s, w);
    RoundsDown(v, size);
    RoundingIsStable(v, size);
    OverflowExact(Packed(s, w));
    ByteSizeIs(Rounded(v, size));
    ByteSizeUnique(Rounded(v, size), size, ByteSize(Rounded(v, size)));
  }

  // ----- work

  /** The work that a target stands for is 2^256 divided by the target plus one. */
  method GetBlockProof(nBits: nat) returns (r: seq<nat>)
    requires nBits < BASE
    ensures LimbsOk(r)
    ensures Val(r) == if Negative(nBits) || Overflow(nBits) || Meaning(nBits) == 0 then 0 else Modulus() / (Meaning(nBits) + 1)
  {
    hide Low, Pow, Meaning, Negative, Overflow;
    var target := new nat[WIDTH];
    var negative, overflow := SetCompact(target, nBits);
    ghost var t := Meaning(nBits);
    OverflowExact(nBits);
    ZeroValue();
    var zero := CompareTo(target[..], ZeroLimbs());
    if !overflow { SmallMod(t, Modulus()); }
    if negative || overflow || zero == 0 { return ZeroLimbs(); }
    NotTheLargest(nBits);
    var quotient, divisor := new nat[WIDTH], new nat[WIDTH];
    CopyTo(quotient, Complement(target[..]));
    ComplementLow(target[..], WIDTH);
    CopyTo(divisor, target[..]);
    Increment(divisor);
    SmallMod(t + 1, Modulus());
    var ok := DivideAssign(quotient, divisor[..]);
    OneMore(Modulus(), t + 1);
    Increment(quotient);
    SmallMod(Modulus() / (t + 1), Modulus());
    return quotient[..];
  }

  lemma OneMore(m: nat, d: nat)
    requires 1 < d <= m
    ensures (m - d) / d + 1 == m / d < m
  {
    var q, r := (m - d) / d, (m - d) % d;
    assert m - d == d * q + r;
    assert d * (q + 1) == d * q + d;
    Quotient(m, d, q + 1, r);
    Times(q + 1, 2, d);
    assert d * (q + 1) == (q + 1) * d;
  }

  /** No compact form means 2^256 - 1. */
  lemma NotTheLargest(nCompact: nat)
    ensures Meaning(nCompact) + 1 != Modulus()
  {
    hide Pow;
    ModulusIs256();
    SmallWord(nCompact);
    var size, word := SizeOf(nCompact), WordOf(nCompact);
    PowStep256(31);
    if size > 3 {
      PowStep256(size - 4);
      Assoc(word, 256, Pow(256, size - 4));
      assert word * Pow(256, size - 3) == 256 * (word * Pow(256, size - 4));
    } else {
      PowUp(256, 3, 32);
      SmallPowers();
    }
  }

  lemma PowStep256(k: nat)
    ensures Pow(256, k + 1) == 256 * Pow(256, k)
  {
  }
}
