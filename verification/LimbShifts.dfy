/** Shifts of 256-bit numbers, limb by limb. */
module LimbShifts {
  import opened Powers
  import opened Positional
  import opened Limbs

  // ----- bits

  function BitOr(a: nat, b: nat): nat
    decreases a + b
  {
    if a == 0 then b else if b == 0 then a
    else 2 * BitOr(a / 2, b / 2) + (if a % 2 == 1 || b % 2 == 1 then 1 else 0)
  }

  /** Bits that do not overlap are added. */
  lemma {:induction false} OrIsSum(a: nat, c: nat, s: nat)
    requires a < Pow(2, s)
    ensures BitOr(a, c * Pow(2, s)) == a + c * Pow(2, s) == BitOr(c * Pow(2, s), a)
    decreases s
  {
    if s > 0 {
      OrIsSum(a / 2, c, s - 1);
      var half := c * Pow(2, s - 1);
      assert c * Pow(2, s) == 2 * half by { Assoc(c, 2, Pow(2, s - 1)); Assoc(2, c, Pow(2, s - 1)); }
    }
  }

  lemma TwoTo32()
    ensures Pow(2, 32) == BASE
  {
    assert Pow(2, 8) == 256;
    PowAdd(2, 8, 8);
    PowAdd(2, 16, 16);
  }

  /** 2^r and 2^(32-r) for the part of a shift within a limb. */
  lemma LimbSplit(r: nat)
    requires r < 32
    ensures Pow(2, r) * Pow(2, 32 - r) == BASE && 0 < Pow(2, r) < BASE && 1 < Pow(2, 32 - r) <= BASE
  {
    hide Pow;
    TwoTo32();
    PowAdd(2, r, 32 - r);
    PowUp(2, 0, r);
    PowUp(2, 1, 32 - r);
    PowUp(2, 32 - r, 32);
    PowUp(2, r, 31);
    TwoTo31();
  }

  lemma TwoTo31()
    ensures Pow(2, 31) < BASE && Pow(2, 1) == 2
  {
    TwoTo32();
  }

  lemma {:induction false} ShiftFactor(k: nat, r: nat)
    ensures Pow(2, 32 * k + r) == Pow(2, r) * Pow(BASE, k)
  {
    hide Pow;
    TwoTo32();
    PowPow(2, 32, k);
    PowAdd(2, 32 * k, r);
  }

  /** A limb shifted left: the part that stays and the part that moves into the next limb. */
  lemma ShiftedLimb(x: nat, r: nat, up: nat, down: nat)
    requires x < BASE && up > 0 && down > 1 && up * down == BASE
    ensures x * up == (x / down) * BASE + (x % down) * up
    ensures x * up % BASE == (x % down) * up && x / down < up && (x % down) * up + up <= BASE
  {
    var q, m := x / down, x % down;
    assert x == q * down + m;
    calc {
      x * up;
      (q * down + m) * up;
      q * down * up + m * up;
      { Assoc(q, down, up); }
      q * (down * up) + m * up;
      q * BASE + m * up;
    }
    Times(up, m + 1, down);
    DivMod(q, BASE, m * up);
    SmallQuotient(q, up, down, m);
  }

  lemma SmallQuotient(q: nat, up: nat, down: nat, m: nat)
    requires q * down + m < up * down
    ensures q < up
  {
    Times(down, up, q);
  }

  /** Changing one limb. */
  lemma SetLimb(s: seq<nat>, t: nat, x: nat)
    requires |s| == WIDTH && t < WIDTH
    ensures Val(s[t := x]) + s[t] * Pow(BASE, t) == Val(s) + x * Pow(BASE, t)
  {
    hide Low, Pow;
    var after := s[t := x];
    LowSame(s, after, t);
    LowNext(s, t);
    LowNext(after, t);
    RestSame(s, after, t + 1);
  }

  // ----- to the left

  /** The limbs below i have been moved by k limbs and r bits; c counts what has fallen off the end. */
  ghost predicate MovedUp(a: seq<nat>, pn: seq<nat>, k: nat, r: nat, i: nat, c: nat) {
    && LimbsOk(a) && LimbsOk(pn) && i <= WIDTH && r < 32
    && (forall t :: i + k < t < WIDTH ==> pn[t] == 0)
    && (i + k < WIDTH ==> pn[i + k] < Pow(2, r))
    && Val(pn) + c * Modulus() == Low(a, i) * (Pow(2, r) * Pow(BASE, k))
  }

  lemma MovedUpStart(a: seq<nat>, k: nat, r: nat)
    requires LimbsOk(a) && r < 32
    ensures MovedUp(a, ZeroLimbs(), k, r, 0, 0)
  {
    hide Pow, Low;
    ZeroValue();
    LowNone(a);
    LimbSplit(r);
    ZeroTimes(Modulus());
    ZeroTimes(Pow(2, r) * Pow(BASE, k));
  }

  /** The limbs after the turn for limb i. */
  function StepUp(a: seq<nat>, pn: seq<nat>, k: nat, r: nat, i: nat): (next: seq<nat>)
    requires |a| == |pn| == WIDTH && i < WIDTH && r < 32
    ensures |next| == WIDTH
  {
    var first := if i + k + 1 < WIDTH && r != 0 then pn[i + k + 1 := BitOr(pn[i + k + 1], HighBits(a[i], r))] else pn;
    if i + k < WIDTH then first[i + k := BitOr(first[i + k], LowBits(a[i], r))] else first
  }

  function ModBase(n: nat): nat {
    n % BASE
  }

  function HighBits(x: nat, r: nat): (h: nat)
    requires r < 32
  {
    PowUp(2, 0, 32 - r);
    x / Pow(2, 32 - r)
  }

  function LowBits(x: nat, r: nat): nat {
    ModBase(x * Pow(2, r))
  }

  lemma LimbParts(x: nat, r: nat)
    requires x < BASE && r < 32
    ensures x * Pow(2, r) == HighBits(x, r) * BASE + LowBits(x, r) && HighBits(x, r) < Pow(2, r) < BASE
    ensures LowBits(x, r) + Pow(2, r) <= BASE
    ensures forall y: nat :: y < Pow(2, r) ==> BitOr(y, LowBits(x, r)) == y + LowBits(x, r)
  {
    hide Pow, BitOr;
    LimbSplit(r);
    ShiftedLimb(x, r, Pow(2, r), Pow(2, 32 - r));
    forall y: nat | y < Pow(2, r) ensures BitOr(y, LowBits(x, r)) == y + LowBits(x, r) {
      OrIsSum(y, x % Pow(2, 32 - r), r);
    }
  }

  /** Inside the number both parts of the limb are stored. */
  lemma StepUpInside(a: seq<nat>, pn: seq<nat>, k: nat, r: nat, i: nat)
    requires LimbsOk(a) && LimbsOk(pn) && i < WIDTH && r < 32 && i + k + 1 < WIDTH
    requires pn[i + k + 1] == 0 && pn[i + k] < Pow(2, r)
    ensures StepUp(a, pn, k, r, i) == pn[i + k + 1 := HighBits(a[i], r)][i + k := pn[i + k] + LowBits(a[i], r)]
  {
    hide Pow, BitOr, LowBits;
    LimbParts(a[i], r);
    NothingToOr(HighBits(a[i], r));
    PowZero();
  }

  lemma InsideValue(pn: seq<nat>, t: nat, high: nat, low: nat)
    requires LimbsOk(pn) && t + 1 < WIDTH && pn[t + 1] == 0
    ensures Val(pn[t + 1 := high][t := pn[t] + low]) == Val(pn) + (high * BASE + low) * Pow(BASE, t)
  {
    hide Pow, Low;
    var first := pn[t + 1 := high];
    SetLimb(pn, t + 1, high);
    SetLimb(first, t, pn[t] + low);
    PowStep(t);
    var p := Pow(BASE, t);
    assert 0 * Pow(BASE, t + 1) == 0;
    assert (pn[t] + low) * p == pn[t] * p + low * p;
    Assoc(high, BASE, p);
    assert (high * BASE + low) * p == high * BASE * p + low * p;
  }

  lemma MovedUpNext(a: seq<nat>, pn: seq<nat>, k: nat, r: nat, i: nat, c: nat) returns (c': nat)
    requires MovedUp(a, pn, k, r, i, c) && i < WIDTH
    ensures MovedUp(a, StepUp(a, pn, k, r, i), k, r, i + 1, c')
  {
    hide Pow, Low, BitOr, StepUp, HighBits, LowBits;
    var t, high, low := i + k, HighBits(a[i], r), LowBits(a[i], r);
    LimbParts(a[i], r);
    if t + 1 < WIDTH {
      StepUpInside(a, pn, k, r, i);
      InsideValue(pn, t, high, low);
      c' := c;
    } else if t + 1 == WIDTH {
      StepUpLast(a, pn, k, r, i);
      LastValue(pn, high, low);
      c' := c + high;
    } else {
      StepUpBeyond(a, pn, k, r, i);
      var lost := Multiple(t, high, low);
      c' := c + lost;
    }
    NextTarget(a, k, r, i);
    MoreModulus(c, c', Modulus());
  }

  lemma MoreModulus(c: nat, d: nat, m: nat)
    ensures d * m == c * m + (d - c) * m
  {
  }

  lemma NextTarget(a: seq<nat>, k: nat, r: nat, i: nat)
    requires LimbsOk(a) && r < 32 && i < WIDTH
    ensures Low(a, i + 1) * (Pow(2, r) * Pow(BASE, k))
         == Low(a, i) * (Pow(2, r) * Pow(BASE, k)) + (HighBits(a[i], r) * BASE + LowBits(a[i], r)) * Pow(BASE, i + k)
  {
    hide Pow, Low, LowBits, HighBits;
    LimbParts(a[i], r);
    LowNext(a, i);
    PowAdd(BASE, i, k);
    Contribution(Low(a, i), a[i], Pow(BASE, i), Pow(2, r), Pow(BASE, k), HighBits(a[i], r), LowBits(a[i], r));
  }

  lemma StepUpLast(a: seq<nat>, pn: seq<nat>, k: nat, r: nat, i: nat)
    requires LimbsOk(a) && LimbsOk(pn) && i < WIDTH && r < 32 && i + k + 1 == WIDTH && pn[i + k] < Pow(2, r)
    ensures StepUp(a, pn, k, r, i) == pn[WIDTH - 1 := pn[WIDTH - 1] + LowBits(a[i], r)]
  {
    hide Pow, BitOr, LowBits;
    LimbParts(a[i], r);
  }

  lemma LastValue(pn: seq<nat>, high: nat, low: nat)
    requires LimbsOk(pn)
    ensures Val(pn[WIDTH - 1 := pn[WIDTH - 1] + low]) + high * Modulus() == Val(pn) + (high * BASE + low) * Pow(BASE, WIDTH - 1)
  {
    hide Pow, Low;
    var t := WIDTH - 1;
    var p := Pow(BASE, t);
    SetLimb(pn, t, pn[t] + low);
    PowStep(t);
    assert (pn[t] + low) * p == pn[t] * p + low * p;
    Assoc(high, BASE, p);
    assert (high * BASE + low) * p == high * BASE * p + low * p;
  }

  lemma StepUpBeyond(a: seq<nat>, pn: seq<nat>, k: nat, r: nat, i: nat)
    requires LimbsOk(a) && LimbsOk(pn) && i < WIDTH && r < 32 && i + k >= WIDTH
    ensures StepUp(a, pn, k, r, i) == pn
  {
  }

  lemma PowZero()
    ensures Pow(2, 0) == 1
  {
  }

  lemma NothingToOr(x: nat)
    ensures BitOr(0, x) == x
  {
  }

  /** What limb i adds to the shifted number. */
  lemma Contribution(done: nat, limb: nat, pi: nat, up: nat, pk: nat, high: nat, low: nat)
    requires limb * up == high * BASE + low
    ensures (done + limb * pi) * (up * pk) == done * (up * pk) + (high * BASE + low) * (pi * pk)
  {
    calc {
      (done + limb * pi) * (up * pk);
      done * (up * pk) + (limb * pi) * (up * pk);
      { assert (limb * pi) * (up * pk) == (limb * up) * (pi * pk); }
      done * (up * pk) + (limb * up) * (pi * pk);
    }
  }

  /** Beyond the last limb everything is a multiple of the modulus. */
  lemma Multiple(t: nat, high: nat, low: nat) returns (lost: nat)
    requires t >= WIDTH
    ensures (high * BASE + low) * Pow(BASE, t) == lost * Modulus()
  {
    hide Pow;
    PowAdd(BASE, t - WIDTH, WIDTH);
    Product(high * BASE + low, Pow(BASE, t - WIDTH));
    lost := (high * BASE + low) * Pow(BASE, t - WIDTH);
    Assoc(high * BASE + low, Pow(BASE, t - WIDTH), Modulus());
  }

  method ShiftLeftAssign(pn: array<nat>, shift: nat)
    requires LimbsOk(pn[..])
    modifies pn
    ensures LimbsOk(pn[..]) && Val(pn[..]) == old(Val(pn[..])) * Pow(2, shift) % Modulus()
  {
    hide MovedUp, Low, Pow, BitOr;
    var a := pn[..];
    CopyTo(pn, ZeroLimbs());
    var k, r := shift / 32, shift % 32;
    ghost var c: nat := 0;
    MovedUpStart(a, k, r);
    PowUp(2, 0, 32 - r);
    var i: nat := 0;
    while i < WIDTH
      invariant 0 <= i <= WIDTH && pn.Length == WIDTH && MovedUp(a, pn[..], k, r, i, c)
    {
      ghost var before := pn[..];
      c := MovedUpNext(a, pn[..], k, r, i, c);
      if i + k + 1 < WIDTH && r != 0 {
        pn[i + k + 1] := BitOr(pn[i + k + 1], HighBits(a[i], r));
      }
      if i + k < WIDTH {
        pn[i + k] := BitOr(pn[i + k], LowBits(a[i], r));
      }
      assert pn[..] == StepUp(a, before, k, r, i);
      i := i + 1;
    }
    MovedUpEnd(a, pn[..], k, r, c);
  }

  lemma MovedUpEnd(a: seq<nat>, pn: seq<nat>, k: nat, r: nat, c: nat)
    requires MovedUp(a, pn, k, r, WIDTH, c)
    ensures LimbsOk(pn) && Val(pn) == Val(a) * Pow(2, 32 * k + r) % Modulus()
  {
    hide Pow, Low;
    ShiftFactor(k, r);
    LowBound(pn, WIDTH);
    ModulusBig();
    Product(Val(a), Pow(2, r) * Pow(BASE, k));
    ModIs(Val(pn), c, Modulus(), Val(a) * (Pow(2, r) * Pow(BASE, k)));
  }

  // ----- to the right

  /** The part of a limb that moves into the limb below. */
  function UpBits(x: nat, r: nat): nat
    requires r < 32
  {
    ModBase(x * Pow(2, 32 - r))
  }

  function DownBits(x: nat, r: nat): (d: nat) {
    PowUp(2, 0, r);
    x / Pow(2, r)
  }

  function Fraction(x: nat, r: nat): (f: nat) {
    PowUp(2, 0, r);
    x % Pow(2, r)
  }

  lemma DownParts(x: nat, r: nat)
    requires x < BASE && r < 32
    ensures x == DownBits(x, r) * Pow(2, r) + Fraction(x, r) && Fraction(x, r) < Pow(2, r)
    ensures UpBits(x, r) == Fraction(x, r) * Pow(2, 32 - r) && DownBits(x, r) < Pow(2, 32 - r) <= BASE
    ensures UpBits(x, r) + Pow(2, 32 - r) <= BASE && (r == 0 ==> UpBits(x, r) == 0)
    ensures forall y: nat :: y < Pow(2, 32 - r) ==> BitOr(y, UpBits(x, r)) == y + UpBits(x, r)
  {
    hide Pow, BitOr;
    var down, up := Pow(2, r), Pow(2, 32 - r);
    LimbSplit(r);
    if r == 0 { PowZero(); }
    UpPart(x, up, down);
    forall y: nat | y < up ensures BitOr(y, UpBits(x, r)) == y + UpBits(x, r) {
      OrIsSum(y, x % down, 32 - r);
    }
  }

  lemma UpPart(x: nat, up: nat, down: nat)
    requires x < BASE && up > 0 && down > 0 && up * down == BASE
    ensures x * up % BASE == (x % down) * up && x / down < up && (x % down) * up + up <= BASE
  {
    if down > 1 {
      ShiftedLimb(x, 0, up, down);
    } else {
      DivMod(x, BASE, 0);
    }
  }

  ghost predicate MovedDown(a: seq<nat>, pn: seq<nat>, k: nat, r: nat, i: nat) {
    && LimbsOk(a) && LimbsOk(pn) && i <= WIDTH && r < 32
    && (forall t :: 0 <= t < WIDTH && i - k <= t ==> pn[t] == 0)
    && (i > k ==> pn[i - k - 1] < Pow(2, 32 - r))
    && (i > k ==> Low(a, i) == Low(a, k) + Fraction(a[k], r) * Pow(BASE, k) + (Pow(2, r) * Pow(BASE, k)) * Val(pn))
  }

  function StepDown(a: seq<nat>, pn: seq<nat>, k: nat, r: nat, i: nat): (next: seq<nat>)
    requires |a| == |pn| == WIDTH && i < WIDTH && r < 32
    ensures |next| == WIDTH
  {
    var first := if i - k - 1 >= 0 && r != 0 then pn[i - k - 1 := BitOr(pn[i - k - 1], UpBits(a[i], r))] else pn;
    if i - k >= 0 then first[i - k := BitOr(first[i - k], DownBits(a[i], r))] else first
  }

  lemma MovedDownFirst(a: seq<nat>, pn: seq<nat>, k: nat, r: nat)
    requires MovedDown(a, pn, k, r, k) && k < WIDTH
    ensures MovedDown(a, StepDown(a, pn, k, r, k), k, r, k + 1)
  {
    hide Pow, Low, BitOr, UpBits, DownBits, Fraction;
    var x := a[k];
    DownParts(x, r);
    NothingToOr(DownBits(x, r));
    var next := pn[0 := DownBits(x, r)];
    assert pn == ZeroLimbs();
    ZeroValue();
    SetLimb(pn, 0, DownBits(x, r));
    LowNone(pn);
    LowNext(a, k);
    Regrouped(DownBits(x, r), Pow(2, r), Fraction(x, r), Pow(BASE, k));
  }

  lemma Regrouped(d: nat, up: nat, f: nat, p: nat)
    ensures (d * up + f) * p == f * p + (up * p) * d
  {
    assert (d * up) * p == (up * p) * d;
  }

  lemma MovedDownNext(a: seq<nat>, pn: seq<nat>, k: nat, r: nat, i: nat)
    requires MovedDown(a, pn, k, r, i) && k < i < WIDTH
    ensures MovedDown(a, StepDown(a, pn, k, r, i), k, r, i + 1)
  {
    hide Pow, Low, BitOr, UpBits, DownBits, Fraction;
    var x, u := a[i], i - k - 1;
    DownParts(x, r);
    NothingToOr(DownBits(x, r));
    LimbSplit(r);
    var next := pn[u + 1 := DownBits(x, r)][u := pn[u] + UpBits(x, r)];
    assert StepDown(a, pn, k, r, i) == next;
    InsideValue(pn, u, DownBits(x, r), UpBits(x, r));
    LowNext(a, i);
    PowAdd(BASE, u, k + 1);
    PowStep(k);
    Weighted(DownBits(x, r), Pow(2, r), Fraction(x, r), Pow(2, 32 - r), Pow(BASE, k), Pow(BASE, u), Val(pn), Val(next));
  }

  lemma Weighted(d: nat, down: nat, f: nat, up: nat, pk: nat, pu: nat, v: nat, w: nat)
    requires down * up == BASE && w == v + (d * BASE + f * up) * pu
    ensures (down * pk) * w == (down * pk) * v + (d * down + f) * (pu * (BASE * pk))
  {
    var z := (d * BASE + f * up) * pu;
    assert (down * pk) * w == (down * pk) * v + (down * pk) * z;
    calc {
      (down * pk) * z;
      { Assoc(down * pk, d * BASE + f * up, pu); }
      (down * pk) * (d * BASE + f * up) * pu;
      { assert (down * pk) * (d * BASE + f * up) == (d * down + f) * (BASE * pk) by { Mixed(d, down, f, up, pk); } }
      (d * down + f) * (BASE * pk) * pu;
      { assert (d * down + f) * (BASE * pk) * pu == (d * down + f) * (pu * (BASE * pk)); }
      (d * down + f) * (pu * (BASE * pk));
    }
  }

  lemma Mixed(d: nat, down: nat, f: nat, up: nat, pk: nat)
    requires down * up == BASE
    ensures (down * pk) * (d * BASE + f * up) == (d * down + f) * (BASE * pk)
  {
    assert (down * pk) * (d * BASE) == (d * down) * (BASE * pk);
    calc {
      (down * pk) * (f * up);
      f * ((down * up) * pk);
      f * (BASE * pk);
    }
    assert (d * down + f) * (BASE * pk) == (d * down) * (BASE * pk) + f * (BASE * pk);
  }

  method ShiftRightAssign(pn: array<nat>, shift: nat)
    requires LimbsOk(pn[..])
    modifies pn
    ensures LimbsOk(pn[..]) && Pow(2, shift) > 0 && Val(pn[..]) == old(Val(pn[..])) / Pow(2, shift)
  {
    hide MovedDown, Low, Pow, BitOr, UpBits, DownBits;
    var a := pn[..];
    CopyTo(pn, ZeroLimbs());
    var k, r := shift / 32, shift % 32;
    MovedDownStart(a, k, r);
    var i: nat := 0;
    while i < WIDTH
      invariant 0 <= i <= WIDTH && pn.Length == WIDTH && MovedDown(a, pn[..], k, r, i)
    {
      ghost var before := pn[..];
      if i < k { MovedDownIdle(a, before, k, r, i); }
      else if i == k { MovedDownFirst(a, before, k, r); }
      else { MovedDownNext(a, before, k, r, i); }
      if i - k - 1 >= 0 && r != 0 {
        pn[i - k - 1] := BitOr(pn[i - k - 1], UpBits(a[i], r));
      }
      if i - k >= 0 {
        pn[i - k] := BitOr(pn[i - k], DownBits(a[i], r));
      }
      assert pn[..] == StepDown(a, before, k, r, i);
      i := i + 1;
    }
    MovedDownEnd(a, pn[..], k, r);
  }

  lemma MovedDownStart(a: seq<nat>, k: nat, r: nat)
    requires LimbsOk(a) && r < 32
    ensures MovedDown(a, ZeroLimbs(), k, r, 0)
  {
  }

  lemma MovedDownIdle(a: seq<nat>, pn: seq<nat>, k: nat, r: nat, i: nat)
    requires MovedDown(a, pn, k, r, i) && i < k && i < WIDTH
    ensures MovedDown(a, StepDown(a, pn, k, r, i), k, r, i + 1)
  {
    hide Pow, Low;
  }

  lemma MovedDownEnd(a: seq<nat>, pn: seq<nat>, k: nat, r: nat)
    requires MovedDown(a, pn, k, r, WIDTH)
    ensures LimbsOk(pn) && Pow(2, 32 * k + r) > 0 && Val(pn) == Val(a) / Pow(2, 32 * k + r)
  {
    hide Pow, Low, Fraction, Val;
    ShiftFactor(k, r);
    PowUp(2, 0, 32 * k + r);
    if k < WIDTH { PartLeft(a, pn, k, r); } else { NothingLeft(a, pn, k, r); }
  }

  lemma PartLeft(a: seq<nat>, pn: seq<nat>, k: nat, r: nat)
    requires MovedDown(a, pn, k, r, WIDTH) && k < WIDTH && Pow(2, r) * Pow(BASE, k) > 0
    ensures Val(pn) == Val(a) / (Pow(2, r) * Pow(BASE, k))
  {
    hide Pow, Low, Fraction;
    var f, p, up := Fraction(a[k], r), Pow(BASE, k), Pow(2, r);
    DownParts(a[k], r);
    LowBound(a, k);
    SmallRest(Low(a, k), f, p, up);
    Quotient(Val(a), up * p, Val(pn), Low(a, k) + f * p);
  }

  lemma SmallRest(low: nat, f: nat, p: nat, up: nat)
    requires low < p && f < up
    ensures low + f * p < up * p
  {
    Times(p, f + 1, up);
    assert p * (f + 1) == f * p + p;
  }

  lemma NothingLeft(a: seq<nat>, pn: seq<nat>, k: nat, r: nat)
    requires MovedDown(a, pn, k, r, WIDTH) && k >= WIDTH && Pow(2, r) * Pow(BASE, k) > 0
    ensures Val(pn) == Val(a) / (Pow(2, r) * Pow(BASE, k))
  {
    hide Pow, Low;
    assert pn == ZeroLimbs();
    ZeroValue();
    LowBound(a, WIDTH);
    PowUp(BASE, WIDTH, k);
    PowUp(2, 0, r);
    Times(Pow(BASE, k), 1, Pow(2, r));
    Quotient(Val(a), Pow(2, r) * Pow(BASE, k), 0, Val(a));
  }

  lemma Quotient(n: nat, d: nat, q: nat, rest: nat)
    requires d > 0 && rest < d && n == rest + d * q
    ensures n / d == q && n % d == rest
  {
    if d > 1 { DivMod(q, d, rest); }
  }
}
