/** 256-bit numbers as eight 32-bit limbs, least significant first. Every operation is proved against arithmetic
    on integers modulo 2^256. */
module Limbs {
  import opened Powers
  import opened Positional

  const BASE := 0x1_0000_0000
  const WIDTH := 8

  /** 2^256. */
  function Modulus(): nat {
    Pow(BASE, WIDTH)
  }

  predicate LimbsOk(s: seq<nat>) {
    |s| == WIDTH && forall i :: 0 <= i < WIDTH ==> s[i] < BASE
  }

  /** The number in the first n limbs. */
  function Low(s: seq<nat>, n: nat): nat
    requires n <= |s|
  {
    if n == 0 then 0 else Low(s, n - 1) + s[n - 1] * Pow(BASE, n - 1)
  }

  function Val(s: seq<nat>): nat
    requires |s| == WIDTH
  {
    Low(s, WIDTH)
  }

  // ----- general facts

  lemma {:induction false} LowSame(s: seq<nat>, t: seq<nat>, n: nat)
    requires n <= |s| && n <= |t| && forall i :: 0 <= i < n ==> s[i] == t[i]
    ensures Low(s, n) == Low(t, n)
    decreases n
  {
    if n > 0 { LowSame(s, t, n - 1); }
  }

  lemma LowNext(s: seq<nat>, n: nat)
    requires n < |s|
    ensures Low(s, n + 1) == Low(s, n) + s[n] * Pow(BASE, n)
  {
  }

  lemma LowNone(s: seq<nat>)
    ensures Low(s, 0) == 0 && Pow(BASE, 0) == 1
  {
  }

  lemma {:induction false} LowBound(s: seq<nat>, n: nat)
    requires n <= |s| && forall i :: 0 <= i < n ==> s[i] < BASE
    ensures Low(s, n) < Pow(BASE, n)
    decreases n
  {
    if n > 0 {
      LowBound(s, n - 1);
      LimbBound(Low(s, n - 1), s[n - 1], Pow(BASE, n - 1));
    }
  }

  lemma LimbBound(low: nat, limb: nat, p: nat)
    requires low < p && limb < BASE
    ensures low + limb * p < BASE * p
  {
    Times(p, limb, BASE - 1);
  }

  lemma {:induction false} LowZeros(s: seq<nat>, n: nat)
    requires n <= |s| && forall i :: 0 <= i < n ==> s[i] == 0
    ensures Low(s, n) == 0
    decreases n
  {
    if n > 0 { LowZeros(s, n - 1); }
  }

  /** Two numbers that agree up to a multiple of the modulus. */
  lemma ModIs(a: nat, k: nat, m: nat, b: nat)
    requires m > 1 && a < m && a + k * m == b
    ensures b % m == a
  {
    DivMod(k, m, a);
  }

  lemma ModulusBig()
    ensures Modulus() > BASE
  {
    PowUp(BASE, 2, 8);
    assert Pow(BASE, 2) == BASE * BASE;
  }

  // ----- carries

  /** One limb of a sum x + m * y: what is written and what is carried add up. */
  lemma RowStep(done: nat, carry: nat, p: nat, x: nat, m: nat, y: nat, xs: nat, ys: nat)
    requires done + carry * p == xs + m * ys
    ensures var n := carry + x + m * y;
            (done + n % BASE * p) + n / BASE * (BASE * p) == (xs + x * p) + m * (ys + y * p)
  {
    var n := carry + x + m * y;
    var q, r := n / BASE, n % BASE;
    assert n == q * BASE + r;
    calc {
      done + r * p + q * (BASE * p);
      { Assoc(q, BASE, p); }
      done + r * p + (q * BASE) * p;
      { assert (q * BASE + r) * p == (q * BASE) * p + r * p; }
      done + n * p;
      { assert n * p == carry * p + x * p + (m * y) * p; Assoc(m, y, p); }
      xs + m * ys + x * p + m * (y * p);
      { assert m * (ys + y * p) == m * ys + m * (y * p); }
      (xs + x * p) + m * (ys + y * p);
    }
  }

  lemma CarryBound(carry: nat, x: nat, m: nat, y: nat)
    requires carry < BASE && x < BASE && m < BASE && y < BASE
    ensures (carry + x + m * y) / BASE < BASE
  {
    Times(m, y, BASE - 1);
    Times(BASE - 1, m, BASE - 1);
    assert carry + x + m * y <= 2 * (BASE - 1) + (BASE - 1) * (BASE - 1);
  }

  /** The first i limbs of m * y have been added to x from limb j on. */
  ghost predicate Row(after: seq<nat>, x: seq<nat>, m: nat, y: seq<nat>, j: nat, i: nat, carry: nat) {
    && LimbsOk(after) && LimbsOk(x) && LimbsOk(y) && m < BASE && carry < BASE && j + i <= WIDTH
    && (forall t :: j + i <= t < WIDTH ==> after[t] == x[t])
    && Low(after, j + i) + carry * Pow(BASE, j + i) == Low(x, j + i) + m * (Low(y, i) * Pow(BASE, j))
  }

  lemma RowStart(x: seq<nat>, m: nat, y: seq<nat>, j: nat)
    requires LimbsOk(x) && LimbsOk(y) && m < BASE && j <= WIDTH
    ensures Row(x, x, m, y, j, 0, 0)
  {
    hide Pow;
    LowNone(y);
    ZeroTimes(Pow(BASE, j));
    ZeroTimes(m);
  }

  lemma ZeroTimes(a: int)
    ensures 0 * a == 0 && a * 0 == 0
  {
  }

  lemma RowNext(after: seq<nat>, x: seq<nat>, m: nat, y: seq<nat>, j: nat, i: nat, carry: nat)
    requires Row(after, x, m, y, j, i, carry) && j + i < WIDTH
    ensures var n := carry + after[j + i] + m * y[i];
            n >= 0 && n % BASE >= 0 && n / BASE >= 0 && Row(after[j + i := n % BASE], x, m, y, j, i + 1, n / BASE)
  {
    hide Pow, Low;
    var k := j + i;
    var p, q := Pow(BASE, k), Pow(BASE, j);
    var n := carry + after[k] + m * y[i];
    var next := after[k := n % BASE];
    Product(m, y[i]);
    CarryBound(carry, x[k], m, y[i]);
    RowStep(Low(after, k), carry, p, x[k], m, y[i], Low(x, k), Low(y, i) * q);
    LowSame(next, after, k);
    LowNext(next, k);
    LowNext(x, k);
    LowNext(y, i);
    PowStep(k);
    PowAdd(BASE, i, j);
    Distribute(Low(y, i), y[i], Pow(BASE, i), q);
  }

  lemma PowStep(k: nat)
    ensures Pow(BASE, k + 1) == BASE * Pow(BASE, k)
  {
  }

  lemma Distribute(a: nat, b: nat, p: nat, q: nat)
    ensures (a + b * p) * q == a * q + b * (p * q)
  {
    Assoc(b, p, q);
  }

  /** The carry out of the last limb is what the modulus takes away. */
  lemma RowEnd(after: seq<nat>, x: seq<nat>, m: nat, y: seq<nat>, j: nat, carry: nat)
    requires j <= WIDTH && Row(after, x, m, y, j, WIDTH - j, carry)
    ensures Val(after) + carry * Modulus() == Val(x) + m * (Low(y, WIDTH - j) * Pow(BASE, j))
    ensures Val(after) < Modulus() && 1 < Modulus()
  {
    hide Pow, Low;
    LowBound(after, WIDTH);
    ModulusBig();
  }

  // ----- addition, negation, subtraction

  method AddAssign(pn: array<nat>, b: seq<nat>)
    requires LimbsOk(pn[..]) && LimbsOk(b)
    modifies pn
    ensures LimbsOk(pn[..]) && Val(pn[..]) == (old(Val(pn[..])) + Val(b)) % Modulus()
  {
    hide Row, Low, Pow;
    ghost var x := pn[..];
    RowStart(x, 1, b, 0);
    var carry: nat, i: nat := 0, 0;
    while i < WIDTH
      invariant 0 <= i <= WIDTH && Row(pn[..], x, 1, b, 0, i, carry)
    {
      RowNext(pn[..], x, 1, b, 0, i, carry);
      ghost var before := pn[..];
      var n: nat := carry + pn[i] + b[i];
      pn[i] := n % BASE;
      assert pn[..] == before[i := pn[i]];
      carry := n / BASE;
      i := i + 1;
    }
    RowEnd(pn[..], x, 1, b, 0, carry);
    LowNone(b);
    RowOk(pn[..], x, 1, b, 0, i, carry);
    assert 1 * (Val(b) * 1) == Val(b);
    ModIs(Val(pn[..]), carry, Modulus(), Val(x) + Val(b));
  }

  lemma RowOk(after: seq<nat>, x: seq<nat>, m: nat, y: seq<nat>, j: nat, i: nat, carry: nat)
    requires Row(after, x, m, y, j, i, carry)
    ensures LimbsOk(after)
  {
  }

  function Complement(s: seq<nat>): (r: seq<nat>)
    requires LimbsOk(s)
    ensures LimbsOk(r)
  {
    seq(WIDTH, i requires 0 <= i < WIDTH => BASE - 1 - s[i])
  }

  lemma {:induction false} ComplementLow(s: seq<nat>, n: nat)
    requires LimbsOk(s) && n <= WIDTH
    ensures Low(Complement(s), n) + Low(s, n) + 1 == Pow(BASE, n)
    decreases n
  {
    if n > 0 {
      ComplementLow(s, n - 1);
      var p := Pow(BASE, n - 1);
      assert (BASE - 1 - s[n - 1]) * p + s[n - 1] * p == (BASE - 1) * p;
      assert (BASE - 1) * p + p == BASE * p;
    }
  }

  /** Adds one, carrying as long as limbs wrap around to zero. */
  method Increment(pn: array<nat>)
    requires LimbsOk(pn[..])
    modifies pn
    ensures LimbsOk(pn[..]) && Val(pn[..]) == (old(Val(pn[..])) + 1) % Modulus()
  {
    hide Low, Pow;
    ghost var x := pn[..];
    var i := 0;
    LowNone(x);
    while i < WIDTH
      invariant 0 <= i <= WIDTH && LimbsOk(pn[..])
      invariant forall t :: i <= t < WIDTH ==> pn[t] == x[t]
      invariant Low(pn[..], i) + Pow(BASE, i) == Low(x, i) + 1
    {
      ghost var before := pn[..];
      pn[i] := (pn[i] + 1) % BASE;
      LowSame(pn[..], before, i);
      LowNext(pn[..], i);
      LowNext(x, i);
      PowStep(i);
      WrapStep(x[i], Pow(BASE, i));
      if pn[i] != 0 { break; }
      i := i + 1;
    }
    LowBound(pn[..], WIDTH);
    ModulusBig();
    if i < WIDTH {
      RestSame(x, pn[..], i + 1);
      ModIs(Val(pn[..]), 0, Modulus(), Val(x) + 1);
    } else {
      ModIs(Val(pn[..]), 1, Modulus(), Val(x) + 1);
    }
  }

  lemma WrapStep(limb: nat, p: nat)
    requires limb < BASE
    ensures var next := (limb + 1) % BASE;
            next * p + (if next == 0 then BASE * p else 0) == limb * p + p
  {
  }

  /** Equal limbs above n add the same. */
  lemma {:induction false} RestSame(s: seq<nat>, t: seq<nat>, n: nat)
    requires |s| == |t| == WIDTH && n <= WIDTH && forall i :: n <= i < WIDTH ==> s[i] == t[i]
    ensures Val(s) - Low(s, n) == Val(t) - Low(t, n)
    decreases WIDTH - n
  {
    if n < WIDTH {
      RestSame(s, t, n + 1);
      LowNext(s, n);
      LowNext(t, n);
    }
  }

  method Negate(b: seq<nat>) returns (r: seq<nat>)
    requires LimbsOk(b)
    ensures LimbsOk(r) && Val(r) == (Modulus() - Val(b)) % Modulus()
  {
    hide Low, Pow;
    var ret := new nat[WIDTH];
    var i := 0;
    while i < WIDTH
      invariant 0 <= i <= WIDTH && forall t :: 0 <= t < i ==> ret[t] == BASE - 1 - b[t]
    {
      ret[i] := BASE - 1 - b[i];
      i := i + 1;
    }
    assert ret[..] == Complement(b);
    ComplementLow(b, WIDTH);
    Increment(ret);
    r := ret[..];
  }

  method SubtractAssign(pn: array<nat>, b: seq<nat>)
    requires LimbsOk(pn[..]) && LimbsOk(b)
    modifies pn
    ensures LimbsOk(pn[..]) && Val(pn[..]) == (old(Val(pn[..])) - Val(b)) % Modulus()
  {
    hide Low, Pow;
    var minus := Negate(b);
    ghost var x := Val(pn[..]);
    AddAssign(pn, minus);
    LowBound(b, WIDTH);
    ModulusBig();
    NegativeSum(x, Val(b), Modulus());
  }

  lemma NegativeSum(x: nat, b: nat, m: nat)
    requires m > 1 && b < m
    ensures (x + (m - b) % m) % m == (x - b) % m
  {
    if b > 0 {
      SmallMod(m - b, m);
      ModShift(x - b, m);
    } else {
      ModSelf(m);
    }
  }

  lemma SmallMod(a: nat, m: nat)
    requires a < m
    ensures a % m == a
  {
  }

  lemma ModSelf(m: nat)
    requires m > 0
    ensures m % m == 0
  {
  }

  lemma ModShift(a: int, m: nat)
    requires m > 1
    ensures (a + m) % m == a % m
  {
    var q, r := a / m, a % m;
    assert a + m == (q + 1) * m + r;
    UniqueMod(a + m, m, q + 1, r);
  }

  lemma UniqueMod(a: int, m: nat, q: int, r: nat)
    requires m > 1 && r < m && a == q * m + r
    ensures a % m == r
  {
    assert a == a / m * m + a % m;
    assert (q - a / m) * m == a % m - r;
    Bounded(q - a / m, m);
  }

  // ----- multiplication

  function ZeroLimbs(): (r: seq<nat>)
    ensures LimbsOk(r)
  {
    [0, 0, 0, 0, 0, 0, 0, 0]
  }

  lemma ZeroValue()
    ensures Val(ZeroLimbs()) == 0
  {
    LowZeros(ZeroLimbs(), WIDTH);
  }

  method MultiplySmall(pn: array<nat>, b32: nat)
    requires LimbsOk(pn[..]) && b32 < BASE
    modifies pn
    ensures LimbsOk(pn[..]) && Val(pn[..]) == old(Val(pn[..])) * b32 % Modulus()
  {
    hide Row, Low, Pow;
    ghost var y, acc := pn[..], ZeroLimbs();
    RowStart(acc, b32, y, 0);
    var carry: nat, i: nat := 0, 0;
    while i < WIDTH
      invariant 0 <= i <= WIDTH && |acc| == WIDTH && Row(acc, ZeroLimbs(), b32, y, 0, i, carry)
      invariant forall t :: 0 <= t < i ==> pn[t] == acc[t]
      invariant forall t :: i <= t < WIDTH ==> pn[t] == y[t] && acc[t] == 0
    {
      RowNext(acc, ZeroLimbs(), b32, y, 0, i, carry);
      Product(b32, pn[i]);
      var n: nat := carry + b32 * pn[i];
      pn[i] := n % BASE;
      acc := acc[i := pn[i]];
      carry := n / BASE;
      i := i + 1;
    }
    assert pn[..] == acc;
    RowEnd(acc, ZeroLimbs(), b32, y, 0, carry);
    RowOk(acc, ZeroLimbs(), b32, y, 0, i, carry);
    ZeroValue();
    LowNone(y);
    assert b32 * (Val(y) * 1) == Val(y) * b32;
    Product(Val(y), b32);
    ModIs(Val(pn[..]), carry, Modulus(), Val(y) * b32);
  }

  /** Schoolbook multiplication that leaves out everything beyond the last limb. */
  method MultiplyAssign(pn: array<nat>, b: seq<nat>)
    requires LimbsOk(pn[..]) && LimbsOk(b)
    modifies pn
    ensures LimbsOk(pn[..]) && Val(pn[..]) == old(Val(pn[..])) * Val(b) % Modulus()
  {
    hide Low, Pow;
    var a := new nat[WIDTH](i => 0);
    ghost var k: nat := 0;
    LowNone(pn[..]);
    assert a[..] == ZeroLimbs();
    ZeroValue();
    ZeroTimes(Modulus());
    ZeroTimes(Val(b));
    var j: nat := 0;
    while j < WIDTH
      invariant 0 <= j <= WIDTH && LimbsOk(a[..]) && LimbsOk(pn[..]) && pn[..] == old(pn[..])
      invariant Val(a[..]) + k * Modulus() == Low(pn[..], j) * Val(b)
    {
      ghost var x := a[..];
      var carry := AddRow(a, pn[j], b, j);
      k := RowAdds(Val(a[..]), Val(x), k, carry, pn[..], j, b);
      j := j + 1;
    }
    LowBound(a[..], WIDTH);
    ModulusBig();
    Product(Val(pn[..]), Val(b));
    ModIs(Val(a[..]), k, Modulus(), Val(pn[..]) * Val(b));
    CopyTo(pn, a[..]);
  }

  method CopyTo(pn: array<nat>, s: seq<nat>)
    requires pn.Length == |s| == WIDTH
    modifies pn
    ensures pn[..] == s
  {
    var i := 0;
    while i < WIDTH
      invariant 0 <= i <= WIDTH && forall t :: 0 <= t < i ==> pn[t] == s[t]
    {
      pn[i] := s[i];
      i := i + 1;
    }
  }

  /** Adds m * b, shifted by j limbs, to a. */
  method AddRow(a: array<nat>, m: nat, b: seq<nat>, j: nat) returns (carry: nat)
    requires LimbsOk(a[..]) && LimbsOk(b) && m < BASE && j < WIDTH
    modifies a
    ensures LimbsOk(a[..]) && carry < BASE
    ensures Val(a[..]) + carry * Modulus() == old(Val(a[..])) + m * (Low(b, WIDTH - j) * Pow(BASE, j))
  {
    hide Row, Low, Pow;
    ghost var x := a[..];
    RowStart(x, m, b, j);
    carry := 0;
    var i: nat := 0;
    while i + j < WIDTH
      invariant 0 <= i <= WIDTH - j && Row(a[..], x, m, b, j, i, carry)
    {
      RowNext(a[..], x, m, b, j, i, carry);
      ghost var before := a[..];
      Product(m, b[i]);
      var n: nat := carry + a[i + j] + m * b[i];
      a[i + j] := n % BASE;
      assert a[..] == before[j + i := a[i + j]];
      carry := n / BASE;
      i := i + 1;
    }
    RowEnd(a[..], x, m, b, j, carry);
    RowCarry(a[..], x, m, b, j, i, carry);
  }

  lemma RowCarry(after: seq<nat>, x: seq<nat>, m: nat, y: seq<nat>, j: nat, i: nat, carry: nat)
    requires Row(after, x, m, y, j, i, carry)
    ensures LimbsOk(after) && carry < BASE
  {
  }

  /** The part of b that a row leaves out is a multiple of the modulus. */
  lemma RowAdds(after: nat, before: nat, k: nat, carry: nat, pn: seq<nat>, j: nat, b: seq<nat>) returns (k': nat)
    requires LimbsOk(pn) && LimbsOk(b) && j < WIDTH
    requires before + k * Modulus() == Low(pn, j) * Val(b)
    requires after + carry * Modulus() == before + pn[j] * (Low(b, WIDTH - j) * Pow(BASE, j))
    ensures after + k' * Modulus() == Low(pn, j + 1) * Val(b)
  {
    hide Low, Pow;
    var high := HighPart(b, WIDTH - j);
    var m, p, q, low := Modulus(), Pow(BASE, j), Pow(BASE, WIDTH - j), Low(b, WIDTH - j);
    PowAdd(BASE, WIDTH - j, j);
    LowNext(pn, j);
    Product(pn[j], high);
    k' := k + carry + pn[j] * high;
    RowAlgebra(after, before, k, carry, pn[j], low, high, p, q, m, Low(pn, j), Val(b));
  }

  lemma RowAlgebra(after: nat, before: nat, k: nat, carry: nat, limb: nat, low: nat, high: nat, p: nat, q: nat,
        m: nat, done: nat, b: nat)
    requires q * p == m && b == low + high * q && before + k * m == done * b && after + carry * m == before + limb * (low * p)
    ensures after + (k + carry + limb * high) * m == (done + limb * p) * b
  {
    calc {
      after + (k + carry + limb * high) * m;
      after + k * m + carry * m + (limb * high) * m;
      before + k * m + limb * (low * p) + (limb * high) * m;
      done * b + limb * (low * p) + (limb * high) * m;
      { Assoc(limb, high, m); }
      done * b + limb * (low * p) + limb * (high * m);
      { assert limb * (low * p) + limb * (high * m) == limb * (low * p + high * m); }
      done * b + limb * (low * p + high * m);
      { Assoc(high, q, p); assert (low + high * q) * p == low * p + high * q * p; }
      done * b + limb * (b * p);
      { assert limb * (b * p) == (limb * p) * b; }
      (done + limb * p) * b;
    }
  }

  /** What the limbs from n on contribute. */
  lemma {:induction false} HighPart(s: seq<nat>, n: nat) returns (high: nat)
    requires |s| == WIDTH && n <= WIDTH
    ensures Val(s) == Low(s, n) + high * Pow(BASE, n)
    decreases WIDTH - n
  {
    if n == WIDTH {
      high := 0;
    } else {
      var rest := HighPart(s, n + 1);
      Product(rest, BASE);
      high := s[n] + rest * BASE;
      LowNext(s, n);
      PowStep(n);
      Assoc(rest, BASE, Pow(BASE, n));
      assert (s[n] + rest * BASE) * Pow(BASE, n) == s[n] * Pow(BASE, n) + rest * BASE * Pow(BASE, n);
    }
  }
}
