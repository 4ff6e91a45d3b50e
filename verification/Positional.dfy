/** Numbers written with digits to a base, most significant digit first. */
module Positional {
  import opened Powers

  function Value(d: seq<nat>, base: nat): nat {
    if d == [] then 0 else Value(d[..|d| - 1], base) * base + d[|d| - 1]
  }

  function Digits(n: nat, base: nat): (d: seq<nat>)
    requires base > 1
  {
    if n == 0 then [] else
      DivSmaller(n, base);
      Digits(n / base, base) + [n % base]
  }

  lemma DivSmaller(n: nat, base: nat)
    requires base > 1 && n > 0
    ensures 0 <= n / base < n
  {
    assert n == n / base * base + n % base;
    Times(n / base, 2, base);
  }

  predicate DigitsOk(d: seq<nat>, base: nat) {
    forall i :: 0 <= i < |d| ==> d[i] < base
  }

  predicate Canonical(d: seq<nat>, base: nat) {
    DigitsOk(d, base) && (d != [] ==> d[0] != 0)
  }

  lemma {:induction false} DigitsCanonical(n: nat, base: nat)
    requires base > 1
    ensures Canonical(Digits(n, base), base) && (n > 0 ==> Digits(n, base) != [])
    decreases n
  {
    if n > 0 {
      DivSmaller(n, base);
      DigitsCanonical(n / base, base);
      if n / base == 0 { assert n == n / base * base + n % base; }
    }
  }

  /** The digits of a number stand for it. */
  lemma {:induction false} ValueOfDigits(n: nat, base: nat)
    requires base > 1
    ensures Value(Digits(n, base), base) == n
    decreases n
  {
    if n > 0 {
      DivSmaller(n, base);
      ValueOfDigits(n / base, base);
      assert Digits(n, base)[..|Digits(n, base)| - 1] == Digits(n / base, base);
    }
  }

  /** A list of digits without leading zeros is the list of digits of its value. */
  lemma {:induction false} DigitsOfValue(d: seq<nat>, base: nat)
    requires base > 1 && Canonical(d, base)
    ensures Digits(Value(d, base), base) == d && (d != [] ==> Value(d, base) > 0)
    decreases |d|
  {
    if d != [] {
      var init, last := d[..|d| - 1], d[|d| - 1];
      DigitsOfValue(init, base);
      DivMod(Value(init, base), base, last);
      if init == [] { assert d == [last]; }
      else { Times(base, 1, Value(init, base)); }
    }
  }

  lemma DivMod(q: nat, base: nat, r: nat)
    requires base > 1 && r < base
    ensures (q * base + r) / base == q && (q * base + r) % base == r
  {
    var n := q * base + r;
    assert n == n / base * base + n % base;
    assert (q - n / base) * base == n % base - r;
    Bounded(q - n / base, base);
  }

  lemma Bounded(k: int, base: int)
    requires base > 1
    ensures -base < k * base < base ==> k == 0
  {
    if k > 0 { Times(base, 1, k); }
    if k < 0 { Times(base, 1, -k); assert k * base == -(base * -k); }
  }

  // ----- splitting

  lemma {:induction false} ValueSplit(a: seq<nat>, b: seq<nat>, base: nat)
    ensures Value(a + b, base) == Value(a, base) * Pow(base, |b|) + Value(b, base)
    decreases |b|
  {
    if b == [] {
      assert a + b == a;
    } else {
      var init, last := b[..|b| - 1], b[|b| - 1];
      ValueSplit(a, init, base);
      assert (a + b)[..|a + b| - 1] == a + init;
      var v, p, w := Value(a, base), Pow(base, |init|), Value(init, base);
      calc {
        (v * p + w) * base + last;
        v * p * base + w * base + last;
        { Assoc(v, p, base); }
        v * (p * base) + w * base + last;
      }
    }
  }

  lemma BelowProduct(v: nat, digit: nat, p: nat, base: nat)
    requires v < p && digit < base
    ensures v * base + digit < base * p
  {
    Times(base, v + 1, p);
  }

  lemma {:induction false} ValueBound(d: seq<nat>, base: nat)
    requires DigitsOk(d, base)
    ensures Value(d, base) < Pow(base, |d|)
    decreases |d|
  {
    if d != [] {
      var init := d[..|d| - 1];
      ValueBound(init, base);
      BelowProduct(Value(init, base), d[|d| - 1], Pow(base, |init|), base);
    }
  }

  lemma {:induction false} ZerosValue(d: seq<nat>, base: nat)
    requires forall i :: 0 <= i < |d| ==> d[i] == 0
    ensures Value(d, base) == 0
    decreases |d|
  {
    if d != [] { ZerosValue(d[..|d| - 1], base); }
  }

  /** Leading zeros do not count. */
  lemma LeadingZeros(zeros: seq<nat>, d: seq<nat>, base: nat)
    requires forall i :: 0 <= i < |zeros| ==> zeros[i] == 0
    ensures Value(zeros + d, base) == Value(d, base)
  {
    ValueSplit(zeros, d, base);
    ZerosValue(zeros, base);
  }

  // ----- comparing powers

  lemma {:induction false} BaseUp(a: nat, b: nat, k: nat)
    ensures a <= b ==> Pow(a, k) <= Pow(b, k)
    decreases k
  {
    if k > 0 && a <= b {
      BaseUp(a, b, k - 1);
      Times(a, Pow(a, k - 1), Pow(b, k - 1));
      Times(Pow(b, k - 1), a, b);
    }
  }

  lemma LessProduct(a: nat, b: nat, x: nat, y: nat)
    requires a < b && x < y
    ensures a * x < b * y
  {
    Times(a, x, y);
    Times(y, a + 1, b);
    assert y * (a + 1) == a * y + y;
  }

  lemma {:induction false} BaseStrictlyUp(a: nat, b: nat, k: nat)
    requires k > 0
    ensures a < b ==> Pow(a, k) < Pow(b, k)
    decreases k
  {
    if k > 1 && a < b {
      BaseStrictlyUp(a, b, k - 1);
      LessProduct(a, b, Pow(a, k - 1), Pow(b, k - 1));
    }
  }

  /** If p^x >= q^y, then s digits to the base p are enough for n digits to the base q, as long as s/n >= x/y. */
  lemma EnoughDigits(p: nat, x: nat, q: nat, y: nat, s: nat, n: nat)
    requires p > 0 && y > 0 && Pow(p, x) >= Pow(q, y) && s * y >= x * n
    ensures Pow(p, s) >= Pow(q, n)
  {
    hide Pow;
    PowPow(p, s, y);
    Product(s, y);
    Product(x, n);
    Product(n, y);
    var sy, xn, ny := s * y, x * n, n * y;
    LargePower(p, x, n, xn, sy);
    LargePower2(q, y, n, ny, Pow(p, x), Pow(p, sy));
    BaseStrictlyUp(Pow(p, s), Pow(q, n), y);
  }

  lemma Product(a: nat, b: nat)
    ensures a * b >= 0
  {
  }

  lemma LargePower(p: nat, x: nat, n: nat, xn: nat, sy: nat)
    requires p > 0 && xn == x * n && xn <= sy
    ensures Pow(Pow(p, x), n) <= Pow(p, sy)
  {
    hide Pow;
    PowPow(p, x, n);
    PowUp(p, xn, sy);
  }

  lemma LargePower2(q: nat, y: nat, n: nat, ny: nat, a: nat, large: nat)
    requires ny == n * y && a >= Pow(q, y) && Pow(a, n) <= large
    ensures Pow(Pow(q, n), y) <= large
  {
    hide Pow;
    BaseUp(Pow(q, y), a, n);
    PowPow(q, y, n);
    PowPow(q, n, y);
    assert y * n == ny;
  }

  // ----- one step of a conversion between bases

  /** What remains to be carried when a digit has been rewritten. */
  lemma CarryStep(base: nat, factor: nat, p: nat, carry: nat, digit: nat, low: nat, oldLow: nat, add: nat)
    requires base > 1 && carry * p + low == factor * oldLow + add
    ensures var x := carry + factor * digit;
            x / base * (p * base) + (x % base * p + low) == factor * (digit * p + oldLow) + add
  {
    var x := carry + factor * digit;
    var q, r := x / base, x % base;
    assert x == q * base + r;
    calc {
      q * (p * base) + (r * p + low);
      { assert q * (p * base) == (q * base) * p; }
      (q * base) * p + r * p + low;
      { assert (q * base) * p + r * p == (q * base + r) * p; }
      x * p + low;
      { assert x * p == carry * p + (factor * digit) * p; }
      (factor * digit) * p + factor * oldLow + add;
      { assert (factor * digit) * p == factor * (digit * p); }
      factor * (digit * p) + factor * oldLow + add;
      factor * (digit * p + oldLow) + add;
    }
  }

  lemma FrontDigit(d: seq<nat>, base: nat)
    requires d != []
    ensures Value(d, base) == d[0] * Pow(base, |d| - 1) + Value(d[1..], base)
  {
    assert d == [d[0]] + d[1..];
    ValueSplit([d[0]], d[1..], base);
    assert Value([d[0]], base) == d[0];
  }

  /** Multiplies the number in a buffer by a factor and adds to it, digit by digit from the end. Only the last
      `length` digits are in use; the buffer must have room for the result. */
  method MultiplyAndAdd(buf: array<nat>, base: nat, factor: nat, add: nat, length: nat) returns (used: nat)
    requires base > 1 && length <= buf.Length && DigitsOk(buf[..], base)
    requires forall i :: 0 <= i < buf.Length - length ==> buf[i] == 0
    requires factor * Value(buf[..], base) + add < Pow(base, buf.Length)
    modifies buf
    ensures used <= buf.Length && DigitsOk(buf[..], base)
    ensures forall i :: 0 <= i < buf.Length - used ==> buf[i] == 0
    ensures Value(buf[..], base) == factor * old(Value(buf[..], base)) + add
  {
    hide Halfway, Pow, Value;
    var carry: nat, i, size := add, 0, buf.Length;
    ghost var before := buf[..];
    HalfwayStart(base, factor, add, before);
    while (carry != 0 || i < length) && i < size
      invariant 0 <= i <= size && Halfway(base, factor, add, carry, i, before, buf[..])
      decreases size - i
    {
      var k := size - i - 1;
      HalfwayStep(base, factor, add, carry, i, before, buf[..]);
      carry := carry + factor * buf[k];
      buf[k] := carry % base;
      carry := carry / base;
      i := i + 1;
    }
    HalfwayEnd(base, factor, add, carry, i, length, before, buf[..]);
    assert carry == 0;
    return i;
  }

  /** The last i digits have been rewritten. */
  ghost predicate Halfway(base: nat, factor: nat, add: nat, carry: nat, i: nat, before: seq<nat>, after: seq<nat>) {
    && |before| == |after| && i <= |after| && DigitsOk(after, base)
    && (forall j :: 0 <= j < |after| - i ==> after[j] == before[j])
    && carry * Pow(base, i) + Value(after[|after| - i..], base) == Target(factor, Value(before[|after| - i..], base), add)
  }

  function Target(factor: nat, v: nat, add: nat): nat {
    factor * v + add
  }

  lemma HalfwayStart(base: nat, factor: nat, add: nat, before: seq<nat>)
    requires DigitsOk(before, base)
    ensures Halfway(base, factor, add, add, 0, before, before)
  {
    EmptyValue(base);
    assert before[|before|..] == [];
  }

  lemma HalfwayStep(base: nat, factor: nat, add: nat, carry: nat, i: nat, before: seq<nat>, after: seq<nat>)
    requires base > 1 && i < |after| && Halfway(base, factor, add, carry, i, before, after)
    ensures var k := |after| - i - 1;
            var x := carry + factor * after[k];
            x % base >= 0 && x / base >= 0 && Halfway(base, factor, add, x / base, i + 1, before, after[k := x % base])
  {
    hide Pow, Value;
    var k := |after| - i - 1;
    var x := carry + factor * after[k];
    var next := after[k := x % base];
    CarryStep(base, factor, Pow(base, i), carry, before[k], Value(after[k + 1..], base), Value(before[k + 1..], base), add);
    NextPower(base, i);
    FrontDigit(before[k..], base);
    FrontDigit(next[k..], base);
    assert next[k..][1..] == after[k + 1..] && before[k..][1..] == before[k + 1..];
  }

  lemma HalfwayEnd(base: nat, factor: nat, add: nat, carry: nat, i: nat, length: nat, before: seq<nat>, after: seq<nat>)
    requires base > 1 && Halfway(base, factor, add, carry, i, before, after) && length <= |before|
    requires !((carry != 0 || i < length) && i < |after|)
    requires forall j :: 0 <= j < |before| - length ==> before[j] == 0
    requires Target(factor, Value(before, base), add) < Pow(base, |before|)
    ensures carry == 0 && DigitsOk(after, base) && (forall j :: 0 <= j < |after| - i ==> after[j] == 0)
    ensures Value(after, base) == Target(factor, Value(before, base), add)
  {
    hide Pow, Value, Target, Halfway;
    CarryOut(base, factor, add, carry, i, length, before, after);
    RestIsZero(before, |after| - i, base, length);
    RestIsZero(after, |after| - i, base, i);
  }

  lemma EmptyValue(base: nat)
    ensures Value([], base) == 0 && Pow(base, 0) == 1
  {
  }

  lemma NextPower(base: nat, i: nat)
    ensures Pow(base, i + 1) == Pow(base, i) * base
  {
  }

  lemma RestIsZero(d: seq<nat>, k: nat, base: nat, length: nat)
    requires k <= |d| && forall i :: 0 <= i < |d| - length ==> d[i] == 0
    ensures |d| - k >= length ==> Value(d, base) == Value(d[k..], base)
  {
    if |d| - k >= length {
      LeadingZeros(d[..k], d[k..], base);
      assert d == d[..k] + d[k..];
    }
  }

  /** With room for the result nothing is left to carry. */
  lemma CarryOut(base: nat, factor: nat, add: nat, carry: nat, i: nat, length: nat, before: seq<nat>, after: seq<nat>)
    requires base > 1 && Halfway(base, factor, add, carry, i, before, after) && length <= |before|
    requires !((carry != 0 || i < length) && i < |after|)
    requires Target(factor, Value(before, base), add) < Pow(base, |before|)
    ensures carry == 0 && length <= i <= |after| == |before| && DigitsOk(after, base)
    ensures forall j :: 0 <= j < |after| - i ==> after[j] == before[j]
    ensures Value(after[|after| - i..], base) == Target(factor, Value(before[|after| - i..], base), add)
  {
    hide Pow, Value, Target;
    if i == |after| {
      assert before[0..] == before;
      Times(Pow(base, i), 1, carry);
    }
  }
}
