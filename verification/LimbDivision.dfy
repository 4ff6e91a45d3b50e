/** Comparison, bit length and division of 256-bit numbers. */
module LimbDivision {
  import opened Powers
  import opened Positional
  import opened Limbs
  import opened LimbShifts

  // ----- comparison

  /** The highest limb that differs decides. */
  lemma LimbDecides(a: seq<nat>, b: seq<nat>, i: nat)
    requires LimbsOk(a) && LimbsOk(b) && i < WIDTH && a[i] < b[i] && forall t :: i < t < WIDTH ==> a[t] == b[t]
    ensures Val(a) < Val(b)
  {
    hide Low, Pow;
    RestSame(a, b, i + 1);
    LowNext(a, i);
    LowNext(b, i);
    LowBound(a, i);
    SmallRest(Low(a, i), a[i], Pow(BASE, i), b[i]);
  }

  method CompareTo(a: seq<nat>, b: seq<nat>) returns (r: int)
    requires LimbsOk(a) && LimbsOk(b)
    ensures (r < 0 <==> Val(a) < Val(b)) && (r == 0 <==> Val(a) == Val(b)) && (r > 0 <==> Val(a) > Val(b))
  {
    hide Low, Pow;
    var i := WIDTH - 1;
    while i >= 0
      invariant -1 <= i < WIDTH && forall t :: i < t < WIDTH ==> a[t] == b[t]
    {
      if a[i] < b[i] { LimbDecides(a, b, i); return -1; }
      if a[i] > b[i] { LimbDecides(b, a, i); return 1; }
      i := i - 1;
    }
    assert a == b;
    return 0;
  }

  // ----- bit length

  /** n is the position of the highest bit plus one. */
  ghost predicate IsBits(v: nat, n: nat) {
    if n == 0 then v == 0 else Pow(2, n - 1) <= v < Pow(2, n)
  }

  lemma TopLimb(a: seq<nat>, pos: nat, nbits: nat)
    requires LimbsOk(a) && pos < WIDTH && nbits < 32 && forall t :: pos < t < WIDTH ==> a[t] == 0
    requires Pow(2, nbits) <= a[pos] < Pow(2, nbits + 1)
    ensures IsBits(Val(a), 32 * pos + nbits + 1)
  {
    hide Low, Pow;
    var p := Pow(BASE, pos);
    LowBound(a, pos);
    LowNext(a, pos);
    OnlyLow(a, pos + 1);
    ShiftFactor(pos, nbits);
    ShiftFactor(pos, nbits + 1);
    SmallRest(Low(a, pos), a[pos], p, Pow(2, nbits + 1));
    Times(p, Pow(2, nbits), a[pos]);
  }

  lemma OnlyLow(a: seq<nat>, n: nat)
    requires |a| == WIDTH && n <= WIDTH && forall t :: n <= t < WIDTH ==> a[t] == 0
    ensures Val(a) == Low(a, n)
  {
    hide Low, Pow;
    var cut := a[..n] + seq(WIDTH - n, i => 0);
    assert cut == a;
    LowFrom(a, n, WIDTH);
  }

  lemma {:induction false} LowFrom(a: seq<nat>, n: nat, m: nat)
    requires n <= m <= |a| && forall t :: n <= t < m ==> a[t] == 0
    ensures Low(a, m) == Low(a, n)
    decreases m
  {
    if n < m { LowFrom(a, n, m - 1); }
  }

  method Bits(a: seq<nat>) returns (n: nat)
    requires LimbsOk(a)
    ensures IsBits(Val(a), n) && n <= 256
  {
    hide Low, Pow;
    TwoTo32();
    PowOne();
    var pos := WIDTH - 1;
    while pos >= 0
      invariant -1 <= pos < WIDTH && forall t :: pos < t < WIDTH ==> a[t] == 0
    {
      if a[pos] != 0 {
        var nbits := 31;
        while nbits > 0
          invariant 0 <= nbits <= 31 && a[pos] < Pow(2, nbits + 1)
        {
          PowUp(2, 0, nbits);
          HighestBit(a[pos], nbits);
          if a[pos] / Pow(2, nbits) % 2 == 1 {
            TopLimb(a, pos, nbits);
            return 32 * pos + nbits + 1;
          }
          nbits := nbits - 1;
        }
        TopLimb(a, pos, 0);
        return 32 * pos + 1;
      }
      pos := pos - 1;
    }
    LowZeros(a, WIDTH);
    return 0;
  }

  lemma PowOne()
    ensures Pow(2, 0) == 1 && Pow(2, 1) == 2
  {
  }

  /** If no higher bit is set, a bit is set exactly if the number reaches it. */
  lemma HighestBit(x: nat, n: nat)
    requires x < Pow(2, n + 1) && Pow(2, n) > 0
    ensures x / Pow(2, n) % 2 == 1 <==> x >= Pow(2, n)
  {
    var p := Pow(2, n);
    if x >= p {
      Quotient(x, p, 1, x - p);
    } else {
      Quotient(x, p, 0, x);
    }
  }

  // ----- setting bits of a quotient

  /** All bits below position e are zero. */
  ghost predicate ZeroBelow(s: seq<nat>, e: nat) {
    && LimbsOk(s)
    && (forall t :: 0 <= t < WIDTH && t < e / 32 ==> s[t] == 0)
    && (e / 32 < WIDTH ==> exists c: nat :: s[e / 32] == c * Pow(2, e % 32))
  }

  lemma ZeroBelowLess(s: seq<nat>, e: nat)
    requires ZeroBelow(s, e + 1) && e < 256
    ensures ZeroBelow(s, e)
  {
    hide Pow;
    var t, r := e / 32, e % 32;
    if r < 31 {
      assert (e + 1) / 32 == t && (e + 1) % 32 == r + 1;
      var c: nat :| s[t] == c * Pow(2, r + 1);
      PowDouble(r);
      Assoc(c, 2, Pow(2, r));
      assert s[t] == (c * 2) * Pow(2, r);
    } else {
      assert s[t] == 0;
      assert s[t] == 0 * Pow(2, r);
    }
  }

  lemma PowDouble(r: nat)
    ensures Pow(2, r + 1) == 2 * Pow(2, r)
  {
  }

  /** Setting the bit at position e adds 2^e. */
  lemma SetBit(s: seq<nat>, e: nat)
    requires ZeroBelow(s, e + 1) && e < 256
    ensures var after := s[e / 32 := BitOr(s[e / 32], Pow(2, e % 32))];
            ZeroBelow(after, e) && Val(after) == Val(s) + Pow(2, e)
  {
    hide Pow, Low, BitOr;
    var t, r := e / 32, e % 32;
    var x := s[t] + Pow(2, r);
    BitAdded(s, e);
    SetLimb(s, t, x);
    ShiftFactor(t, r);
    assert x * Pow(BASE, t) == s[t] * Pow(BASE, t) + Pow(2, r) * Pow(BASE, t);
  }

  lemma BitAdded(s: seq<nat>, e: nat)
    requires ZeroBelow(s, e + 1) && e < 256
    ensures var t, r := e / 32, e % 32;
            && BitOr(s[t], Pow(2, r)) == s[t] + Pow(2, r) < BASE
            && exists c: nat :: s[t] + Pow(2, r) == c * Pow(2, r)
  {
    hide Pow, BitOr;
    var t, r := e / 32, e % 32;
    LimbSplit(r);
    if r < 31 {
      assert (e + 1) / 32 == t && (e + 1) % 32 == r + 1;
      var c: nat :| s[t] == c * Pow(2, r + 1);
      PowDouble(r);
      OrIsSum(Pow(2, r), c, r + 1);
      Assoc(c, 2, Pow(2, r));
      assert s[t] + Pow(2, r) == (2 * c + 1) * Pow(2, r);
      LimbSplit(r + 1);
      BelowBase(c, Pow(2, r + 1), Pow(2, 31 - r));
    } else {
      assert s[t] == 0;
      NothingToOr(Pow(2, r));
      assert s[t] + Pow(2, r) == 1 * Pow(2, r);
    }
  }

  lemma BelowBase(c: nat, p: nat, q: nat)
    requires p * q == BASE && c * p < BASE && p > 0
    ensures c * p + p <= BASE
  {
    SmallQuotient(c, q, p, 0);
    Times(p, c + 1, q);
    assert p * (c + 1) == c * p + p;
  }

  // ----- division

  /** The quotient so far, the rest, and the divisor moved up by `shift` bits. */
  ghost predicate Dividing(N: nat, D: nat, q: nat, n: nat, dv: nat, shift: int) {
    && -1 <= shift < 256 && N == q * D + n && n < D * Pow(2, shift + 1)
    && (shift >= 0 ==> dv == D * Pow(2, shift))
  }

  lemma DividingTake(N: nat, D: nat, q: nat, n: nat, dv: nat, shift: int)
    requires Dividing(N, D, q, n, dv, shift) && shift >= 0 && n >= dv
    ensures Dividing(N, D, q + Pow(2, shift), n - dv, dv / 2, shift - 1)
  {
    hide Pow;
    var p := Pow(2, shift);
    PowDouble(shift);
    assert (q + p) * D == q * D + D * p;
    assert D * (2 * p) == 2 * (D * p);
    if shift > 0 { HalfShift(D, shift); }
  }

  lemma DividingSkip(N: nat, D: nat, q: nat, n: nat, dv: nat, shift: int)
    requires Dividing(N, D, q, n, dv, shift) && shift >= 0 && n < dv
    ensures Dividing(N, D, q, n, dv / 2, shift - 1)
  {
    hide Pow;
    if shift > 0 { HalfShift(D, shift); }
  }

  lemma DividingEnd(N: nat, D: nat, q: nat, n: nat, dv: nat)
    requires Dividing(N, D, q, n, dv, -1) && D > 0
    ensures q == N / D
  {
    PowOne();
    assert q * D == D * q;
    Quotient(N, D, q, n);
  }

  lemma HalfShift(D: nat, shift: nat)
    requires shift > 0
    ensures D * Pow(2, shift) / 2 == D * Pow(2, shift - 1)
  {
    PowDouble(shift - 1);
    assert D * Pow(2, shift) == 2 * (D * Pow(2, shift - 1));
  }

  /** The divisor fits when it is aligned with the number, and twice that exceeds the number. */
  lemma Aligned(N: nat, D: nat, nb: nat, db: nat)
    requires IsBits(N, nb) && IsBits(D, db) && 0 < db <= nb <= 256
    ensures 0 <= D * Pow(2, nb - db) < Modulus() && N < D * Pow(2, nb - db + 1)
  {
    hide Pow;
    var s := nb - db;
    PowAdd(2, db, s);
    PowAdd(2, db - 1, s + 1);
    PowUp(2, nb, 256);
    ShiftFactor(8, 0);
    PowOne();
    PowUp(2, 0, s);
    Strictly(D, Pow(2, db), Pow(2, s));
    Times(Pow(2, s + 1), Pow(2, db - 1), D);
  }

  lemma Strictly(a: nat, b: nat, c: nat)
    requires a < b && c > 0
    ensures 0 <= a * c < b * c
  {
    Times(c, a + 1, b);
    assert c * (a + 1) == a * c + c;
    Product(a, c);
  }

  /** Exact floor division; dividing by zero is an error and leaves zero behind. */
  method DivideAssign(pn: array<nat>, b: seq<nat>) returns (ok: bool)
    requires LimbsOk(pn[..]) && LimbsOk(b)
    modifies pn
    ensures LimbsOk(pn[..]) && (ok <==> Val(b) != 0)
    ensures ok ==> Val(pn[..]) == old(Val(pn[..])) / Val(b)
    ensures !ok ==> Val(pn[..]) == 0
  {
    hide Low, Pow, IsBits, ZeroBelow, BitOr, Dividing;
    var div, num := new nat[WIDTH], new nat[WIDTH];
    CopyTo(div, b);
    CopyTo(num, pn[..]);
    ghost var N, D := Val(pn[..]), Val(b);
    CopyTo(pn, ZeroLimbs());
    ZeroValue();
    var numBits := Bits(num[..]);
    var divBits := Bits(div[..]);
    BitsZero(D, divBits);
    if divBits == 0 { return false; }
    if divBits > numBits {
      BitsSmaller(N, D, numBits, divBits);
      return true;
    }
    var shift: int := numBits - divBits;
    ShiftLeftAssign(div, shift);
    DividingStart(N, D, numBits, divBits, Val(div[..]));
    ZeroBelowZero(shift + 1);
    while shift >= 0
      invariant -1 <= shift < 256 && pn.Length == div.Length == num.Length == WIDTH
      invariant ZeroBelow(pn[..], shift + 1) && LimbsOk(div[..]) && LimbsOk(num[..])
      invariant Dividing(N, D, Val(pn[..]), Val(num[..]), Val(div[..]), shift)
    {
      var c := CompareTo(num[..], div[..]);
      if c >= 0 {
        DividingTake(N, D, Val(pn[..]), Val(num[..]), Val(div[..]), shift);
        NoWrap(num[..], div[..]);
        SubtractAssign(num, div[..]);
        SetBit(pn[..], shift);
        ghost var before := pn[..];
        pn[shift / 32] := BitOr(pn[shift / 32], Pow(2, shift % 32));
        assert pn[..] == before[shift / 32 := pn[shift / 32]];
      } else {
        DividingSkip(N, D, Val(pn[..]), Val(num[..]), Val(div[..]), shift);
        ZeroBelowLess(pn[..], shift);
      }
      ShiftRightAssign(div, 1);
      PowOne();
      shift := shift - 1;
    }
    LimbsOfZeroBelow(pn[..], 0);
    DividingEnd(N, D, Val(pn[..]), Val(num[..]), Val(div[..]));
    return true;
  }

  lemma DividingStart(N: nat, D: nat, nb: nat, db: nat, dv: nat)
    requires IsBits(N, nb) && IsBits(D, db) && 0 < db <= nb <= 256 && dv == D * Pow(2, nb - db) % Modulus()
    ensures Dividing(N, D, 0, N, dv, nb - db)
  {
    hide Pow, IsBits;
    Aligned(N, D, nb, db);
    SmallMod(D * Pow(2, nb - db), Modulus());
    ZeroTimes(D);
  }

  lemma NoWrap(a: seq<nat>, b: seq<nat>)
    requires LimbsOk(a) && LimbsOk(b) && Val(a) >= Val(b)
    ensures (Val(a) - Val(b)) % Modulus() == Val(a) - Val(b)
  {
    hide Low, Pow;
    LowBound(a, WIDTH);
    SmallMod(Val(a) - Val(b), Modulus());
  }

  lemma BitsZero(v: nat, n: nat)
    requires IsBits(v, n)
    ensures n == 0 <==> v == 0
  {
    if n > 0 { PowUp(2, 0, n - 1); }
  }

  lemma BitsSmaller(a: nat, b: nat, n: nat, m: nat)
    requires IsBits(a, n) && IsBits(b, m) && n < m
    ensures b > 0 && a < b && a / b == 0
  {
    hide Pow;
    PowUp(2, 0, m - 1);
    PowUp(2, n, m - 1);
    Quotient(a, b, 0, a);
  }

  lemma ZeroBelowZero(e: nat)
    ensures ZeroBelow(ZeroLimbs(), e)
  {
    assert 0 == 0 * Pow(2, e % 32);
  }

  lemma LimbsOfZeroBelow(s: seq<nat>, e: nat)
    requires ZeroBelow(s, e)
    ensures LimbsOk(s)
  {
  }
}
