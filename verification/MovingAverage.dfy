/** The linearly weighted moving average: what it computes for all inputs, how far the new target can lie above the
    old ones, and exactly when it stays within the limit, which nothing in the rule enforces. */
module MovingAverage {
  import opened Arithmetic
  import opened Powers
  import opened Positional
  import opened Limbs
  import opened LimbShifts
  import opened LimbDivision
  import opened CompactTarget
  import opened Retarget

  /** The sum of the first m weights, 1 + ... + m. */
  function Triangle(m: nat): nat {
    if m == 0 then 0 else Triangle(m - 1) + m
  }

  lemma {:induction false} TriangleFormula(m: nat)
    ensures 2 * Triangle(m) == m * (m + 1)
  {
    if m > 0 { TriangleFormula(m - 1); }
  }

  /** The solve time of the j-th block of the window, held within six target spacings. */
  function SolveTime(blocks: seq<Block>, N: nat, T: nat, j: nat): int
    requires 0 < j <= N < |blocks|
  {
    var i := |blocks| - 1 - N + j;
    Clamp(blocks[i].time - blocks[i - 1].time, -6 * T, 6 * T)
  }

  function WeightedTime(blocks: seq<Block>, N: nat, T: nat, m: nat): int
    requires m <= N < |blocks|
  {
    if m == 0 then 0 else WeightedTime(blocks, N, T, m - 1) + SolveTime(blocks, N, T, m) * m
  }

  lemma WeightStep(T: nat, tri: nat, m: nat, s: int)
    requires s <= 6 * T
    ensures 6 * (T * tri) + s * m <= 6 * (T * (tri + m))
  {
    MulMonotone(s, 6 * T, m);
    assert T * (tri + m) == T * tri + T * m;
    assert m * (6 * T) == 6 * (T * m);
  }

  lemma {:induction false} WeightedBound(blocks: seq<Block>, N: nat, T: nat, m: nat)
    requires m <= N < |blocks|
    ensures WeightedTime(blocks, N, T, m) <= 6 * (T * Triangle(m))
  {
    if m > 0 {
      WeightedBound(blocks, N, T, m - 1);
      WeightStep(T, Triangle(m - 1), m, SolveTime(blocks, N, T, m));
    }
  }

  function Share(t: nat, d: nat): nat
    requires d > 0
  {
    t / d
  }

  /** The targets of the first m blocks of the window, each divided by d. */
  function TargetSum(blocks: seq<Block>, N: nat, d: nat, m: nat): nat
    requires m <= N < |blocks| && d > 0
  {
    if m == 0 then 0 else TargetSum(blocks, N, d, m - 1) + Share(TargetOf(blocks[|blocks| - 1 - N + m].nBits), d)
  }

  lemma {:induction false} TargetSumBound(blocks: seq<Block>, N: nat, d: nat, m: nat, high: nat)
    requires m <= N < |blocks| && d > 0 && TargetsWithin(blocks, N, 0, high)
    ensures TargetSum(blocks, N, d, m) <= m * (high / d)
  {
    hide TargetOf;
    if m > 0 {
      TargetSumBound(blocks, N, d, m - 1, high);
      DivUp(TargetOf(blocks[|blocks| - 1 - N + m].nBits), high, d);
      assert m * (high / d) == (m - 1) * (high / d) + high / d;
    }
  }

  lemma DivUp(a: nat, b: nat, d: nat)
    requires a <= b && d > 0
    ensures a / d <= b / d
  {
    assert a == d * (a / d) + a % d;
    assert d * (a / d) == (a / d) * d;
    LowQuotient(b, d, a / d);
  }

  /** A weight of at most c times the expected one leads to at most c times the largest target. */
  lemma ProductBound(t: nat, sum: nat, k: nat, N: nat, high: nat, c: nat)
    requires k * N > 0 && t <= c * k && sum <= N * (high / (k * N))
    ensures t * sum <= c * high
  {
    var d := k * N;
    var q := high / d;
    assert high == d * q + high % d;
    Times(t, sum, N * q);
    Times(N * q, t, c * k);
    Regroup(N, q, k, c);
    Product(N, q);
    Times(c, d * q, high);
  }

  lemma Regroup(N: nat, q: nat, k: nat, c: nat)
    ensures (N * q) * (c * k) == c * ((k * N) * q)
  {
    assert (N * q) * k == (k * N) * q;
    assert (N * q) * (c * k) == c * ((N * q) * k);
  }

  /** The weight of a window in which every block takes the target spacing. */
  function WindowWeight(N: nat, T: nat): nat {
    N * (N + 1) * T / 2
  }

  lemma WindowWeightIs(N: nat, T: nat)
    requires N > 0 && T > 0
    ensures WindowWeight(N, T) == T * Triangle(N) > 0
  {
    TriangleFormula(N);
    assert N * (N + 1) * T == 2 * (T * Triangle(N));
    Times(T, 1, Triangle(N));
  }

  /** The loop over the window: the sum of the divided targets cannot wrap around. */
  method Accumulate(blocks: seq<Block>, T: nat, N: nat, d: nat) returns (t: int, sum: array<nat>)
    requires N < |blocks| && HeadersOk(blocks) && N <= d && 0 < d < BASE * BASE
    ensures t == WeightedTime(blocks, N, T, N)
    ensures fresh(sum) && LimbsOk(sum[..]) && Val(sum[..]) == TargetSum(blocks, N, d, N)
  {
    hide Low, Pow, TargetOf, SolveTime;
    sum := new nat[WIDTH];
    CopyTo(sum, ZeroLimbs());
    ZeroValue();
    ModulusPositive();
    AnyTargets(blocks, N);
    t := 0;
    var j := 0;
    while j < N
      invariant 0 <= j <= N && sum.Length == WIDTH && LimbsOk(sum[..]) && fresh(sum)
      invariant t == WeightedTime(blocks, N, T, j) && Val(sum[..]) == TargetSum(blocks, N, d, j)
    {
      var solvetime := SolveTime(blocks, N, T, j + 1);
      j := j + 1;
      t := t + solvetime * j;
      var part := DividedTarget(blocks[|blocks| - 1 - N + j].nBits, d);
      TargetSumBound(blocks, N, d, j, Modulus() - 1);
      SumFits(TargetSum(blocks, N, d, j), j, N, d, Modulus() - 1);
      AddAssign(sum, part);
    }
  }

  lemma ModulusPositive()
    ensures Modulus() > 0
  {
    hide Pow;
    PowUp(BASE, 0, WIDTH);
  }

  lemma AnyTargets(blocks: seq<Block>, n: nat)
    requires n <= |blocks| && HeadersOk(blocks)
    ensures Modulus() > 0 && TargetsWithin(blocks, n, 0, Modulus() - 1)
  {
    hide Pow, Meaning;
    ModulusPositive();
  }

  /** The weighted time, at least a tenth of what is expected. It depends on the times alone. */
  function LwmaWeight(blocks: seq<Block>, T: nat, N: nat): (weight: nat)
    requires N < |blocks|
  {
    var k, t := WindowWeight(N, T), WeightedTime(blocks, N, T, N);
    if t < k / 10 then k / 10 else t
  }

  /** The rule on numbers: the weight times the average target divided by the expected weight. */
  function LwmaTarget(blocks: seq<Block>, T: nat, N: nat): nat
    requires N < |blocks| && WindowWeight(N, T) * N > 0
  {
    var weight, sum := LwmaWeight(blocks, T, N), TargetSum(blocks, N, WindowWeight(N, T) * N, N);
    Product(weight, sum);
    weight * sum
  }

  /** The compact form that the rule returns. */
  function LwmaBits(blocks: seq<Block>, T: nat, N: nat): nat
    requires N < |blocks| && WindowWeight(N, T) * N > 0
  {
    CompactOf(Cut(LwmaTarget(blocks, T, N)))
  }

  /** The new target is at most six times the largest target of the window. */
  lemma LwmaBounds(blocks: seq<Block>, T: nat, N: nat, high: nat)
    requires N > 0 && T > 0 && N < |blocks| && WindowWeight(N, T) * N > 0 && TargetsWithin(blocks, N, 0, high)
    ensures LwmaTarget(blocks, T, N) <= 6 * high
  {
    hide WeightedTime, TargetSum, TargetsWithin, WindowWeight;
    var k := WindowWeight(N, T);
    WindowWeightIs(N, T);
    WeightedBound(blocks, N, T, N);
    TargetSumBound(blocks, N, k * N, N, high);
    ProductBound(LwmaWeight(blocks, T, N), TargetSum(blocks, N, k * N, N), k, N, high, 6);
  }

  method LwmaCalculateNextWorkRequired(blocks: seq<Block>, T: nat, N: nat) returns (nCompact: nat)
    requires N > 0 && T > 0 && |blocks| - 1 > N && HeadersOk(blocks)
    requires 0 < WindowWeight(N, T) * N < BASE * BASE && 6 * WindowWeight(N, T) < BASE * BASE
    ensures nCompact == LwmaBits(blocks, T, N)
    ensures LwmaTarget(blocks, T, N) < Modulus() ==> nCompact == CompactOf(LwmaTarget(blocks, T, N))
  {
    hide Low, Pow, Val, Meaning, CompactOf, WordOf, WeightedTime, TargetSum, WindowWeight;
    var k := WindowWeight(N, T);
    WindowWeightIs(N, T);
    Times(N, 1, k);
    var t, sum := Accumulate(blocks, T, N, k * N);
    WeightedBound(blocks, N, T, N);
    if t < k / 10 { t := k / 10; }
    Uint64Value(t);
    var next := new nat[WIDTH];
    CopyTo(next, FromUint64(t));
    Product(t, Val(sum[..]));
    MultiplyAssign(next, sum[..]);
    nCompact := GetCompact(next[..], false);
    if LwmaTarget(blocks, T, N) < Modulus() { SmallMod(LwmaTarget(blocks, T, N), Modulus()); }
  }

  method DividedTarget(nBits: nat, d: nat) returns (r: seq<nat>)
    requires nBits < BASE && 0 < d < BASE * BASE
    ensures LimbsOk(r) && Val(r) == TargetOf(nBits) / d
  {
    hide Low, Pow, Meaning;
    var target := new nat[WIDTH];
    var neg, over := SetCompact(target, nBits);
    Uint64Value(d);
    var ok := DivideAssign(target, FromUint64(d));
    return target[..];
  }

  lemma SumFits(sum: nat, j: nat, N: nat, d: nat, high: nat)
    requires d > 0 && d >= N && j <= N && sum <= j * (high / d) && high < Modulus()
    ensures sum < Modulus() && sum % Modulus() == sum
  {
    hide Pow;
    var q := high / d;
    assert high == d * q + high % d;
    Times(q, j, d);
    SmallMod(sum, Modulus());
  }

  // ----- when the limit holds

  /** A window that took no longer than expected, in the weighted sum, keeps the new target within the limit. */
  lemma OnTimeWithinLimit(blocks: seq<Block>, T: nat, N: nat, limit: nat)
    requires N > 0 && T > 0 && N < |blocks| && WindowWeight(N, T) * N > 0 && TargetsWithin(blocks, N, 0, limit)
    requires WeightedTime(blocks, N, T, N) <= WindowWeight(N, T)
    ensures LwmaTarget(blocks, T, N) <= limit
  {
    hide WeightedTime, TargetSum, TargetsWithin, WindowWeight;
    var k := WindowWeight(N, T);
    TargetSumBound(blocks, N, k * N, N, limit);
    ProductBound(LwmaWeight(blocks, T, N), TargetSum(blocks, N, k * N, N), k, N, limit, 1);
  }

  ghost predicate SameTimes(a: seq<Block>, b: seq<Block>) {
    |a| == |b| && forall i :: 0 <= i < |a| ==> a[i].time == b[i].time
  }

  lemma {:induction false} SameWeightedTime(a: seq<Block>, b: seq<Block>, N: nat, T: nat, m: nat)
    requires SameTimes(a, b) && m <= N < |a|
    ensures WeightedTime(a, N, T, m) == WeightedTime(b, N, T, m)
  {
    if m > 0 {
      SameWeightedTime(a, b, N, T, m - 1);
      assert SolveTime(a, N, T, m) == SolveTime(b, N, T, m);
    }
  }

  /** The blocks with the same times and one target. */
  function Uniform(blocks: seq<Block>, nBits: nat): (r: seq<Block>)
    ensures SameTimes(blocks, r) && forall i :: 0 <= i < |r| ==> r[i].nBits == nBits
  {
    seq(|blocks|, i requires 0 <= i < |blocks| => Block(nBits, blocks[i].time))
  }

  lemma {:induction false} UniformSum(blocks: seq<Block>, nBits: nat, N: nat, d: nat, m: nat)
    requires m <= N < |blocks| && d > 0
    ensures TargetSum(Uniform(blocks, nBits), N, d, m) == m * Share(TargetOf(nBits), d)
  {
    hide TargetOf, Share;
    if m > 0 {
      UniformSum(blocks, nBits, N, d, m - 1);
      OneMoreTime(m, Share(TargetOf(nBits), d));
    }
  }

  lemma OneMoreTime(m: nat, q: nat)
    requires m > 0
    ensures m * q == (m - 1) * q + q
  {
  }

  /** The largest target that a window with these times can lead to, when no target of the window is above high. */
  function LargestNext(blocks: seq<Block>, T: nat, N: nat, high: nat): nat
    requires N < |blocks| && WindowWeight(N, T) * N > 0
  {
    var weight, sum := LwmaWeight(blocks, T, N), N * Share(high, WindowWeight(N, T) * N);
    Product(weight, sum);
    weight * sum
  }

  lemma LargestNextBound(blocks: seq<Block>, T: nat, N: nat, high: nat)
    requires N < |blocks| && WindowWeight(N, T) * N > 0 && TargetsWithin(blocks, N, 0, high)
    ensures LwmaTarget(blocks, T, N) <= LargestNext(blocks, T, N, high)
  {
    hide TargetSum, TargetsWithin, WindowWeight, LwmaWeight;
    var d := WindowWeight(N, T) * N;
    TargetSumBound(blocks, N, d, N, high);
    Times(LwmaWeight(blocks, T, N), TargetSum(blocks, N, d, N), N * Share(high, d));
  }

  lemma LargestNextReached(blocks: seq<Block>, T: nat, N: nat, nBits: nat)
    requires N < |blocks| && WindowWeight(N, T) * N > 0
    ensures LwmaTarget(Uniform(blocks, nBits), T, N) == LargestNext(blocks, T, N, TargetOf(nBits))
  {
    hide TargetSum, WindowWeight, WeightedTime, TargetOf;
    UniformSum(blocks, nBits, N, WindowWeight(N, T) * N, N);
    SameWeightedTime(blocks, Uniform(blocks, nBits), N, T, N);
  }

  lemma SameLargest(a: seq<Block>, b: seq<Block>, T: nat, N: nat, high: nat)
    requires SameTimes(a, b) && N < |a| && WindowWeight(N, T) * N > 0
    ensures LargestNext(a, T, N, high) == LargestNext(b, T, N, high)
  {
    hide WindowWeight, WeightedTime;
    SameWeightedTime(a, b, N, T, N);
  }

  /** Whatever the targets of a window with these times, as long as none is above high, the new target is within the
      limit. */
  ghost predicate LimitHolds(blocks: seq<Block>, T: nat, N: nat, high: nat, limit: nat)
    requires N < |blocks| && WindowWeight(N, T) * N > 0
  {
    forall other | SameTimes(blocks, other) && TargetsWithin(other, N, 0, high) :: LwmaTarget(other, T, N) <= limit
  }

  /** For given times, the limit holds for all targets up to a representable one exactly if it holds for the largest
      new target. */
  lemma LimitHoldsIff(blocks: seq<Block>, T: nat, N: nat, nBits: nat, limit: nat)
    requires N < |blocks| && WindowWeight(N, T) * N > 0 && nBits < BASE
    ensures LimitHolds(blocks, T, N, TargetOf(nBits), limit) <==> LargestNext(blocks, T, N, TargetOf(nBits)) <= limit
  {
    hide LwmaTarget, LargestNext, WindowWeight, TargetOf;
    forall other | SameTimes(blocks, other) && TargetsWithin(other, N, 0, TargetOf(nBits))
      ensures LwmaTarget(other, T, N) <= LargestNext(blocks, T, N, TargetOf(nBits))
    {
      LargestNextBound(other, T, N, TargetOf(nBits));
      SameLargest(blocks, other, T, N, TargetOf(nBits));
    }
    LargestNextReached(blocks, T, N, nBits);
    assert SameTimes(blocks, Uniform(blocks, nBits));
  }

  // ----- the main network: a limit of 2^236 - 1, a window of 60 blocks, a spacing of 150 seconds

  lemma MainWeight()
    ensures WindowWeight(60, 150) == 274500
  {
  }

  /** The largest representable target within the main network's limit. */
  lemma MainLargest(powLimit: nat)
    requires powLimit + 1 == Pow(2, 236)
    ensures powLimit < Modulus() && InRange(CompactOf(powLimit), powLimit) && WithinLimit(CompactOf(powLimit), powLimit)
    ensures var high := TargetOf(CompactOf(powLimit));
            high <= powLimit && 0xFFFFF * (powLimit + 1) == 0x100000 * high && high >= 0xFFFFF * 0x1_0000_0000
  {
    hide Pow, CompactOf, Meaning, TargetOf;
    ModulusIs256();
    PowUp(2, 236, 256);
    WrittenInRange(powLimit, powLimit);
    MainCompact(powLimit);
    PowAdd(2, 20, 216);
    TwoTo20();
    PowAdd(2, 32, 184);
    TwoTo32();
    PowUp(2, 0, 184);
    Times(Pow(2, 32), 1, Pow(2, 184));
    var p := Pow(2, 216);
    assert powLimit + 1 == 0x100000 * p && Meaning(CompactOf(powLimit)) == 0xFFFFF * p;
  }

  lemma TwoTo20()
    ensures Pow(2, 20) == 0x100000
  {
    hide Pow;
    PowAdd(2, 8, 12);
    PowAdd(2, 4, 8);
    TwoTo8();
    FourBits();
  }

  lemma MainCompact(powLimit: nat)
    requires powLimit + 1 == Pow(2, 236)
    ensures CompactOf(powLimit) == 0x1E0F_FFFF && Meaning(CompactOf(powLimit)) == 0xFFFFF * Pow(2, 216)
  {
    hide Pow, ByteSize;
    PowPow(2, 8, 27);
    PowPow(2, 8, 29);
    PowPow(2, 8, 30);
    TwoTo8();
    PowUp(2, 232, 235);
    PowUp(2, 236, 240);
    PowAdd(2, 235, 1);
    PowOne();
    PowUp(2, 0, 235);
    assert IsByteSize(powLimit, 30);
    ByteSizeIs(powLimit);
    ByteSizeUnique(powLimit, 30, ByteSize(powLimit));
    TwoTo20();
    PowAdd(2, 20, 216);
    PowUp(2, 0, 216);
    Quotient(powLimit, Pow(2, 216), 0xFFFFF, Pow(2, 216) - 1);
    assert RawWord(powLimit, 30) == 0xFFFFF;
    PackedFields(30, 0xFFFFF);
  }

  /** Rounding to the compact form does not bring a number back within the main network's limit. */
  lemma MainRoundsAbove(v: nat, powLimit: nat)
    requires powLimit + 1 == Pow(2, 236) && powLimit < v < Modulus()
    ensures Meaning(CompactOf(v)) > powLimit && !WithinLimit(CompactOf(v), powLimit)
  {
    hide Pow, CompactOf, Meaning;
    CompactRoundTrip(v);
    if v < 2 * (powLimit + 1) { MainRoundsNear(v, powLimit); }
  }

  lemma MainRoundsNear(v: nat, powLimit: nat)
    requires powLimit + 1 == Pow(2, 236) && powLimit < v < 2 * (powLimit + 1)
    ensures Meaning(CompactOf(v)) > powLimit
  {
    hide Pow, CompactOf, Meaning;
    var p := Pow(256, 27);
    ThirtyBytes(v, powLimit);
    LowQuotient(v, p, 0x100000);
    BelowQuotient(v, p, 0x200000);
    ThirtyByteForm(v, v / p);
    Times(p, 0x100000, v / p);
  }

  lemma ThirtyBytes(v: nat, powLimit: nat)
    requires powLimit + 1 == Pow(2, 236) && powLimit < v < 2 * (powLimit + 1)
    ensures ByteSize(v) == 30 && Pow(256, 27) > 0 && powLimit + 1 == 0x100000 * Pow(256, 27)
  {
    hide Pow, ByteSize;
    PowPow(2, 8, 27);
    PowPow(2, 8, 29);
    PowPow(2, 8, 30);
    TwoTo8();
    PowUp(2, 232, 236);
    PowUp(2, 237, 240);
    PowAdd(2, 236, 1);
    PowOne();
    assert IsByteSize(v, 30);
    ByteSizeIs(v);
    ByteSizeUnique(v, 30, ByteSize(v));
    TwoTo20();
    PowAdd(2, 20, 216);
    PowUp(2, 0, 216);
  }

  lemma ThirtyByteForm(v: nat, word: nat)
    requires ByteSize(v) == 30 && Pow(256, 27) > 0 && word == v / Pow(256, 27) && word < 0x80_0000
    ensures Meaning(CompactOf(v)) == word * Pow(256, 27)
  {
    hide Pow, ByteSize;
    assert RawWord(v, 30) == word;
    PackedFields(30, word);
  }

  lemma BelowQuotient(v: nat, p: nat, high: nat)
    requires p > 0 && v < high * p
    ensures 0 <= v / p < high
  {
    assert v == p * (v / p) + v % p;
    assert p * (v / p) == (v / p) * p;
    if v / p >= high { Times(p, high, v / p); }
  }

  /** The header that follows any window with these times, and targets of at most high, is within the limit. */
  ghost predicate HeadersHold(blocks: seq<Block>, T: nat, N: nat, high: nat, limit: nat)
    requires N < |blocks| && WindowWeight(N, T) * N > 0
  {
    forall other | SameTimes(blocks, other) && TargetsWithin(other, N, 0, high) :: WithinLimit(LwmaBits(other, T, N), limit)
  }

  /** On the main network the limit holds, for all targets within it, exactly if the window took no longer than
      expected in the weighted sum; the rounding to the compact form changes nothing about that. */
  lemma MainLimitIff(blocks: seq<Block>, powLimit: nat)
    requires |blocks| > 60 && powLimit + 1 == Pow(2, 236)
    ensures WindowWeight(60, 150) == 274500
    ensures LimitHolds(blocks, 150, 60, powLimit, powLimit) <==> WeightedTime(blocks, 60, 150, 60) <= 274500
    ensures HeadersHold(blocks, 150, 60, powLimit, powLimit) <==> WeightedTime(blocks, 60, 150, 60) <= 274500
  {
    hide Pow, CompactOf, TargetOf, WeightedTime, LwmaTarget, TargetsWithin, LargestNext, WindowWeight, LwmaBits, WithinLimit;
    MainWeight();
    if WeightedTime(blocks, 60, 150, 60) <= 274500 {
      forall other | SameTimes(blocks, other) && TargetsWithin(other, 60, 0, powLimit)
        ensures LwmaTarget(other, 150, 60) <= powLimit && WithinLimit(LwmaBits(other, 150, 60), powLimit)
      {
        SameWeightedTime(blocks, other, 60, 150, 60);
        OnTimeWithinLimit(other, 150, 60, powLimit);
        MainBits(other, powLimit);
      }
    } else {
      MainLate(blocks, powLimit);
    }
  }

  /** On the main network nothing wraps, and the header is within the limit exactly if the target is. */
  lemma MainBits(blocks: seq<Block>, powLimit: nat)
    requires |blocks| > 60 && powLimit + 1 == Pow(2, 236) && TargetsWithin(blocks, 60, 0, powLimit)
    ensures WindowWeight(60, 150) == 274500
    ensures LwmaBits(blocks, 150, 60) == CompactOf(LwmaTarget(blocks, 150, 60))
    ensures WithinLimit(LwmaBits(blocks, 150, 60), powLimit) <==> LwmaTarget(blocks, 150, 60) <= powLimit
  {
    hide Pow, CompactOf, TargetsWithin, LwmaTarget, WithinLimit, WindowWeight;
    MainWeight();
    MainParameters(powLimit);
    LwmaBounds(blocks, 150, 60, powLimit);
    var v := LwmaTarget(blocks, 150, 60);
    SmallMod(v, Modulus());
    if v <= powLimit { WrittenInRange(v, powLimit); } else { MainRoundsAbove(v, powLimit); }
  }

  /** One second more than expected is too much. */
  lemma MainLate(blocks: seq<Block>, powLimit: nat)
    requires |blocks| > 60 && powLimit + 1 == Pow(2, 236) && WeightedTime(blocks, 60, 150, 60) > 274500
    ensures WindowWeight(60, 150) == 274500
    ensures var late := Uniform(blocks, CompactOf(powLimit));
            && SameTimes(blocks, late) && TargetsWithin(late, 60, 0, powLimit) && LwmaTarget(late, 150, 60) > powLimit
            && !WithinLimit(LwmaBits(late, 150, 60), powLimit)
  {
    hide Pow, CompactOf, TargetOf, WeightedTime, LwmaTarget, WindowWeight, LwmaBits, WithinLimit;
    MainWeight();
    MainLargest(powLimit);
    LargestNextReached(blocks, 150, 60, CompactOf(powLimit));
    TooMuch(LwmaWeight(blocks, 150, 60), TargetOf(CompactOf(powLimit)), powLimit);
    BitsFit(CompactOf(powLimit), powLimit);
    MainBits(Uniform(blocks, CompactOf(powLimit)), powLimit);
  }

  lemma BitsFit(nBits: nat, limit: nat)
    requires WithinLimit(nBits, limit)
    ensures nBits < BASE
  {
  }

  lemma TooMuch(weight: nat, high: nat, limit: nat)
    requires weight > 274500 && 0xFFFFF * (limit + 1) == 0x100000 * high && high >= 0xFFFFF * 0x1_0000_0000
    ensures weight * (60 * (high / 16470000)) > limit
  {
    var q := high / 16470000;
    assert high == 16470000 * q + high % 16470000;
    Times(60 * q, 274501, weight);
    assert weight * (60 * q) == (60 * q) * weight;
  }

  /** Blocks with the same target, fifteen minutes apart. */
  function SlowBlocks(nBits: nat): (r: seq<Block>)
    ensures |r| == 62 && forall i :: 0 <= i < 62 ==> r[i] == Block(nBits, 900 * i)
  {
    seq(62, i requires 0 <= i < 62 => Block(nBits, 900 * i))
  }

  lemma {:induction false} SlowTime(nBits: nat, m: nat)
    requires m <= 60
    ensures WeightedTime(SlowBlocks(nBits), 60, 150, m) == 900 * Triangle(m)
  {
    if m > 0 {
      SlowTime(nBits, m - 1);
      assert SolveTime(SlowBlocks(nBits), 60, 150, m) == 900;
    }
  }

  /** A slow window multiplies its target by six, less the rounding of one division. */
  lemma SlowTarget(nBits: nat)
    ensures WindowWeight(60, 150) == 274500
    ensures 6 * TargetOf(nBits) < LwmaTarget(SlowBlocks(nBits), 150, 60) + 6 * 16470000
  {
    hide TargetOf, WeightedTime, TargetSum, Triangle;
    MainWeight();
    TriangleFormula(60);
    SlowTime(nBits, 60);
    assert Uniform(SlowBlocks(nBits), nBits) == SlowBlocks(nBits);
    UniformSum(SlowBlocks(nBits), nBits, 60, 16470000, 60);
    var target := TargetOf(nBits);
    assert target == 16470000 * (target / 16470000) + target % 16470000;
  }

  /** On the main network, a slow window with the largest target within the limit leads far above the limit. */
  lemma LwmaExceedsLimit(powLimit: nat)
    requires powLimit + 1 == Pow(2, 236)
    ensures WindowWeight(60, 150) == 274500
    ensures var slow := SlowBlocks(CompactOf(powLimit));
            TargetsWithin(slow, 60, 0, powLimit) && 5 * powLimit < LwmaTarget(slow, 150, 60) < Modulus()
  {
    hide Pow, CompactOf, TargetOf, LwmaTarget, WindowWeight;
    MainWeight();
    MainLargest(powLimit);
    MainParameters(powLimit);
    SlowTarget(CompactOf(powLimit));
    LwmaBounds(SlowBlocks(CompactOf(powLimit)), 150, 60, powLimit);
  }

  /** On the regression-test network, whose limit is 2^255 - 1, the same window's product wraps around. */
  lemma LwmaWrapsAround(powLimit: nat)
    requires powLimit + 1 == Pow(2, 255)
    ensures WindowWeight(60, 150) == 274500
    ensures var slow := SlowBlocks(CompactOf(powLimit));
            TargetsWithin(slow, 60, 0, powLimit) && LwmaTarget(slow, 150, 60) >= Modulus()
  {
    hide Pow, CompactOf, TargetOf, LwmaTarget, WindowWeight;
    MainWeight();
    ModulusIs256();
    PowAdd(2, 255, 1);
    PowOne();
    PowAdd(2, 32, 223);
    TwoTo32();
    PowUp(2, 0, 223);
    Times(Pow(2, 32), 1, Pow(2, 223));
    CompactRoundTrip(powLimit);
    WrittenInRange(powLimit, powLimit);
    SlowTarget(CompactOf(powLimit));
  }
}
