/** The two clamped difficulty rules, on the limb arithmetic: what they compute for all inputs, that no product wraps
    around for targets within the limit, and that the new target stays near the old ones. */
module Retarget {
  import opened Arithmetic
  import opened Powers
  import opened Positional
  import opened Limbs
  import opened LimbShifts
  import opened LimbDivision
  import opened CompactTarget

  datatype Block = Block(nBits: nat, time: int)

  /** The target that a header's compact form is read as: its meaning, cut to 256 bits. */
  function TargetOf(nBits: nat): nat {
    Meaning(nBits) % Modulus()
  }

  /** A compact form that is read without a flag, as a number within the limit. */
  ghost predicate WithinLimit(nBits: nat, limit: nat) {
    nBits < BASE && !Negative(nBits) && !Overflow(nBits) && Meaning(nBits) <= limit
  }

  /** The range that the proof-of-work test asks of a header's compact form. */
  ghost predicate InRange(nBits: nat, limit: nat) {
    WithinLimit(nBits, limit) && Meaning(nBits) != 0
  }

  lemma WithinLimitTarget(nBits: nat, limit: nat)
    requires WithinLimit(nBits, limit) && limit < Modulus()
    ensures TargetOf(nBits) == Meaning(nBits) <= limit
  {
    hide Pow, Meaning;
    SmallMod(Meaning(nBits), Modulus());
  }

  /** What is written is within the limit and at most the number written, and it is in the range exactly if that number
      is not zero. */
  lemma WrittenInRange(v: nat, limit: nat)
    requires v <= limit < Modulus()
    ensures WithinLimit(CompactOf(v), limit) && TargetOf(CompactOf(v)) == Meaning(CompactOf(v)) <= v
    ensures InRange(CompactOf(v), limit) <==> v > 0
  {
    hide Pow, Meaning, CompactOf;
    CompactRoundTrip(v);
    WithinLimitTarget(CompactOf(v), limit);
  }

  function FromUint64(n: nat): (r: seq<nat>)
    requires n < BASE * BASE
    ensures LimbsOk(r)
  {
    [n % BASE, n / BASE, 0, 0, 0, 0, 0, 0]
  }

  lemma Uint64Value(n: nat)
    requires n < BASE * BASE
    ensures Val(FromUint64(n)) == n
  {
    hide Low, Pow;
    var s := FromUint64(n);
    LowNone(s);
    LowNext(s, 0);
    LowNext(s, 1);
    PowStep(0);
    OnlyLow(s, 2);
  }

  function Clamp(x: int, low: int, high: int): int {
    if x < low then low else if x > high then high else x
  }

  // ----- scaling a target by a timespan

  /** The target scaled by span / T. */
  function Scaled(x: nat, span: nat, T: nat): nat
    requires T > 0
  {
    x * span / T
  }

  lemma ScaledBelow(x: nat, span: nat, T: nat, c: nat)
    requires T > 0 && span <= c * T
    ensures Scaled(x, span, T) <= c * x
  {
    var y := Scaled(x, span, T);
    assert x * span == T * y + x * span % T;
    Times(x, span, c * T);
    assert x * (c * T) == (c * x) * T;
    assert T * y == y * T;
    CompareScaled(c * x, T, y);
  }

  lemma ScaledAbove(x: nat, span: nat, T: nat, c: nat)
    requires T > 0 && c > 0 && c * span >= T
    ensures c * Scaled(x, span, T) + c > x
  {
    var y := Scaled(x, span, T);
    assert x * span == T * y + x * span % T;
    Times(x, T, c * span);
    assert x * (c * span) == c * (x * span);
    assert c * (T * y + x * span % T) == c * (T * y) + c * (x * span % T);
    Times(c, x * span % T + 1, T);
    assert c * (T * y) == (c * y) * T;
    AboveStep(x, y, c, T, x * span % T);
  }

  lemma AboveStep(x: nat, y: nat, c: nat, T: nat, rest: nat)
    requires T > 0 && c > 0 && rest < T && x * T <= (c * y) * T + c * rest
    ensures c * y + c > x
  {
    Times(c, rest + 1, T);
    assert c * (rest + 1) == c * rest + c;
    assert (c * y + c) * T == (c * y) * T + c * T;
    CompareScaled(x, T, c * y + c);
  }

  /** The same on 256 bits: the product is cut before it is divided. */
  function Rescaled(x: nat, span: nat, T: nat): nat
    requires T > 0
  {
    Product(x, span);
    Cut(x * span) / T
  }

  function Cut(x: nat): nat {
    x % Modulus()
  }

  lemma RescaledExact(x: nat, span: nat, T: nat, bound: nat)
    requires T > 0 && x <= bound && bound * span < Modulus()
    ensures Rescaled(x, span, T) == Scaled(x, span, T)
  {
    hide Pow;
    Times(span, x, bound);
    Product(x, span);
    SmallMod(x * span, Modulus());
  }

  /** target := target * span / T, on limbs. */
  method Rescale(target: array<nat>, span: nat, T: nat)
    requires LimbsOk(target[..]) && span < BASE && 0 < T < BASE * BASE
    modifies target
    ensures LimbsOk(target[..]) && Val(target[..]) == Rescaled(old(Val(target[..])), span, T)
  {
    hide Low, Pow;
    MultiplySmall(target, span);
    Uint64Value(T);
    var ok := DivideAssign(target, FromUint64(T));
  }

  // ----- the legacy rule

  function BitLength(v: nat): nat {
    if v == 0 then 0 else 1 + BitLength(v / 2)
  }

  lemma {:induction false} BitLengthIs(v: nat)
    ensures IsBits(v, BitLength(v))
  {
    if v > 0 {
      BitLengthIs(v / 2);
      PowDouble(BitLength(v / 2));
      if v / 2 > 0 { PowDouble(BitLength(v / 2) - 1); } else { PowOne(); }
    }
  }

  /** A target as long as the limit is halved while it is scaled, to make room for one bit. */
  predicate Shifted(previous: nat, limit: nat) {
    BitLength(limit) > 0 && BitLength(previous) > BitLength(limit) - 1
  }

  /** The target that is scaled. */
  function Halved(previous: nat, limit: nat): nat {
    if Shifted(previous, limit) then previous / 2 else previous
  }

  /** The legacy rule on 256 bits. */
  function LegacyRule(previous: nat, limit: nat, span: nat, T: nat): nat
    requires T > 0
  {
    var scaled := Rescaled(Halved(previous, limit), span, T);
    Min(limit, if Shifted(previous, limit) then Cut(2 * scaled) else scaled)
  }

  /** The legacy rule on numbers. */
  function LegacyTarget(previous: nat, limit: nat, span: nat, T: nat): nat
    requires T > 0
  {
    var scaled := Scaled(Halved(previous, limit), span, T);
    Min(limit, if Shifted(previous, limit) then 2 * scaled else scaled)
  }

  lemma QuotientPositive(v: nat, d: nat)
    requires d > 0
    ensures v / d > 0 <==> v >= d
  {
    if v >= d { LowQuotient(v, d, 1); }
    assert v == d * (v / d) + v % d;
  }

  /** When the rule gives a target other than zero. */
  lemma LegacyPositive(previous: nat, limit: nat, span: nat, T: nat)
    requires T > 0
    ensures LegacyTarget(previous, limit, span, T) > 0 <==> limit > 0 && Halved(previous, limit) * span >= T
  {
    hide Shifted, Halved;
    Product(Halved(previous, limit), span);
    QuotientPositive(Halved(previous, limit) * span, T);
  }

  /** The old target, scaled on 256 bits, is at least one. */
  ghost predicate LegacyScales(previous: nat, limit: nat, span: nat, T: nat) {
    Product(Halved(previous, limit), span);
    Cut(Halved(previous, limit) * span) >= T
  }

  /** When the rule on 256 bits gives a target other than zero, whatever the old target. */
  lemma LegacyRulePositive(previous: nat, limit: nat, span: nat, T: nat)
    requires T >= 2
    ensures LegacyRule(previous, limit, span, T) > 0 <==> limit > 0 && LegacyScales(previous, limit, span, T)
  {
    hide Pow, Shifted, Halved;
    Product(Halved(previous, limit), span);
    var v := Cut(Halved(previous, limit) * span);
    CutSmall(Halved(previous, limit) * span);
    QuotientPositive(v, T);
    DoubleFits(v, T, Modulus());
    SmallMod(2 * (v / T), Modulus());
  }

  lemma CutSmall(v: nat)
    ensures 0 <= Cut(v) < Modulus()
  {
    hide Pow;
    PowUp(BASE, 0, WIDTH);
  }

  lemma DoubleFits(v: nat, T: nat, m: nat)
    requires T >= 2 && v < m
    ensures 2 * (v / T) < m
  {
    assert v == T * (v / T) + v % T;
    Times(v / T, 2, T);
  }

  /** A header in the range can be followed by one that is not: after blocks that came in time, a target of three becomes
      zero, which the proof-of-work test refuses. */
  lemma LegacyReachesZero(limit: nat, T: nat)
    requires T >= 4 && 0x100 <= limit < Modulus()
    ensures InRange(CompactOf(3), limit) && TargetOf(CompactOf(3)) == 3
    ensures LegacyRule(3, limit, T / 4, T) == LegacyTarget(3, limit, T / 4, T) == 0
    ensures !InRange(CompactOf(LegacyRule(3, limit, T / 4, T)), limit)
  {
    hide Pow, CompactOf, Meaning, Rescaled, Scaled;
    WrittenInRange(3, limit);
    CompactRoundTrip(3);
    LongLimit(limit);
    assert Halved(3, limit) == 3;
    LegacyPositive(3, limit, T / 4, T);
    SmallProduct(T);
    LegacyRulePositive(3, limit, T / 4, T);
    WrittenInRange(0, limit);
  }

  lemma SmallProduct(T: nat)
    requires T >= 4
    ensures 3 * (T / 4) < T && Cut(3 * (T / 4)) < T
  {
    hide Pow;
    PowUp(BASE, 0, WIDTH);
    CutBelow(3 * (T / 4), Modulus());
  }

  lemma CutBelow(v: nat, m: nat)
    requires m > 0
    ensures v % m <= v
  {
    assert v == m * (v / m) + v % m;
    Product(m, v / m);
  }

  lemma LongLimit(limit: nat)
    requires limit >= 0x100
    ensures BitLength(limit) > 8 && BitLength(3) == 2
  {
    hide Pow;
    BitLengthIs(limit);
    TwoTo8();
    if 0 < BitLength(limit) <= 8 { PowUp(2, BitLength(limit), 8); }
  }

  /** The new target lies between a quarter of the old one, less rounding, and four times the old one, and never above
      the limit. */
  lemma LegacyBounds(previous: nat, limit: nat, span: nat, T: nat)
    requires T > 0 && T % 4 == 0 && T / 4 <= span <= 4 * T && previous <= limit
    ensures var z := LegacyTarget(previous, limit, span, T);
            z <= limit && z <= 4 * previous && 4 * (z + 2) >= previous
  {
    hide Scaled, BitLength, Shifted;
    var x := Halved(previous, limit);
    ScaledBelow(x, span, T, 4);
    ScaledAbove(x, span, T, 4);
  }

  /** Half of the limit, scaled up four times, still fits: the extra bit that the rule provides for is enough. */
  ghost predicate RoomForShift(powLimit: nat, T: nat) {
    exists n: nat :: n > 0 && IsBits(powLimit, n) && Pow(2, n - 1) * (4 * T) <= Modulus()
  }

  /** After the shift, if there is one, the target is below half the range of the limit. */
  lemma ShiftedTarget(old_: nat, powLimit: nat, oldBits: nat, limitBits: nat, T: nat, span: nat)
    requires old_ <= powLimit && IsBits(old_, oldBits) && IsBits(powLimit, limitBits) && RoomForShift(powLimit, T)
    requires T >= 4 && 0 <= span <= 4 * T
    ensures limitBits > 0
    ensures var x := if oldBits > limitBits - 1 then old_ / 2 else old_;
            && x <= Pow(2, limitBits - 1) - 1 && (Pow(2, limitBits - 1) - 1) * span < Modulus() && 8 * x < Modulus()
  {
    hide Pow;
    var n: nat :| n > 0 && IsBits(powLimit, n) && Pow(2, n - 1) * (4 * T) <= Modulus();
    BitsUnique(powLimit, n, limitBits);
    var p := Pow(2, n - 1);
    PowDouble(n - 1);
    PowUp(2, 0, n - 1);
    if oldBits <= limitBits - 1 && oldBits > 0 { PowUp(2, oldBits, n - 1); }
    RoomBelow(p, T, span, Modulus());
  }

  lemma RoomBelow(p: nat, T: nat, span: nat, m: nat)
    requires p > 0 && T >= 4 && span <= 4 * T && p * (4 * T) <= m
    ensures (p - 1) * span < m && 8 * (p - 1) < m
  {
    Times(p - 1, span, 4 * T);
    assert (p - 1) * (4 * T) == p * (4 * T) - 4 * T;
    Times(p, 8, 4 * T);
  }

  lemma BitsUnique(v: nat, n: nat, m: nat)
    requires IsBits(v, n) && IsBits(v, m) && n > 0
    ensures n == m
  {
    hide Pow;
    PowUp(2, 0, n - 1);
    if n < m { PowUp(2, n, m - 1); }
    if m < n { PowUp(2, m, n - 1); }
  }

  /** The main network: a limit of 2^236 - 1, a timespan of 302400 seconds, a spacing of 150. */
  lemma MainParameters(powLimit: nat)
    requires powLimit + 1 == Pow(2, 236)
    ensures RoomForShift(powLimit, 302400)
    ensures powLimit * (72 * 150) < Modulus() && powLimit * 25 < Modulus() && 6 * powLimit < Modulus()
  {
    hide Pow;
    ModulusIs256();
    PowAdd(2, 236, 20);
    PowAdd(2, 235, 21);
    PowAdd(2, 235, 1);
    PowAdd(2, 8, 12);
    PowAdd(2, 4, 8);
    PowOne();
    TwoTo8();
    FourBits();
    PowUp(2, 0, 235);
    PowAdd(2, 20, 1);
    var p := Pow(2, 235);
    Times(p, 4 * 302400, 0x20_0000);
    assert IsBits(powLimit, 236);
  }

  lemma FourBits()
    ensures Pow(2, 4) == 16
  {
  }

  /** For a target within the limit, nothing is lost to the 256 bits. */
  lemma LegacyExact(previous: nat, limit: nat, span: nat, T: nat)
    requires previous <= limit && RoomForShift(limit, T) && T >= 4 && span <= 4 * T
    ensures LegacyRule(previous, limit, span, T) == LegacyTarget(previous, limit, span, T)
  {
    hide Pow, Scaled, Rescaled, BitLength, RoomForShift;
    BitLengthIs(previous);
    BitLengthIs(limit);
    ShiftedTarget(previous, limit, BitLength(previous), BitLength(limit), T, span);
    var x := Halved(previous, limit);
    RescaledExact(x, span, T, Pow(2, BitLength(limit) - 1) - 1);
    ScaledBelow(x, span, T, 4);
    SmallMod(2 * Scaled(x, span, T), Modulus());
  }

  method CalculateNextWorkRequired(nBits: nat, lastTime: int, firstTime: int, powLimit: seq<nat>, T: nat, noRetargeting: bool)
    returns (nCompact: nat)
    requires nBits < BASE && LimbsOk(powLimit) && 0 < T && 4 * T < BASE
    ensures nCompact == if noRetargeting then nBits
                        else CompactOf(LegacyRule(TargetOf(nBits), Val(powLimit), Clamp(lastTime - firstTime, T / 4, T * 4), T))
    ensures !noRetargeting ==> WithinLimit(nCompact, Val(powLimit))
    ensures !noRetargeting && T >= 2 ==>
              var limit, span := Val(powLimit), Clamp(lastTime - firstTime, T / 4, T * 4);
              (InRange(nCompact, limit) <==> limit > 0 && LegacyScales(TargetOf(nBits), limit, span, T))
  {
    hide LegacyScales, Low, Pow, Val, Meaning, CompactOf, WordOf, Rescaled, IsBits, BitLength;
    if noRetargeting { return nBits; }
    var span := Clamp(lastTime - firstTime, T / 4, T * 4);
    ghost var limit, previous := Val(powLimit), TargetOf(nBits);
    var bnNew := new nat[WIDTH];
    var negative, overflow := SetCompact(bnNew, nBits);
    ValBound(powLimit);
    var newBits := Bits(bnNew[..]);
    var limitBits := Bits(powLimit);
    var fShift := newBits > if limitBits == 0 then 0xFFFF_FFFF else limitBits - 1;
    LengthsAre(previous, newBits);
    LengthsAre(limit, limitBits);
    PowOne();
    if fShift { ShiftRightAssign(bnNew, 1); }
    Rescale(bnNew, span, T);
    if fShift { ShiftLeftAssign(bnNew, 1); }
    var c := CompareTo(bnNew[..], powLimit);
    if c > 0 { CopyTo(bnNew, powLimit); }
    WrittenInRange(Val(bnNew[..]), limit);
    if T >= 2 { LegacyRulePositive(previous, limit, span, T); }
    nCompact := GetCompact(bnNew[..], false);
  }

  lemma ValBound(s: seq<nat>)
    requires LimbsOk(s)
    ensures Val(s) < Modulus()
  {
    hide Low, Pow;
    LowBound(s, WIDTH);
  }

  lemma LengthsAre(v: nat, n: nat)
    requires IsBits(v, n)
    ensures n == BitLength(v)
  {
    hide Pow, BitLength;
    BitLengthIs(v);
    BitsZero(v, n);
    BitsZero(v, BitLength(v));
    if n > 0 { BitsUnique(v, n, BitLength(v)); }
  }

  // ----- DarkGravityWave

  const PAST_BLOCKS := 24

  /** The running average of the targets, newest first; every target but the first weighs a little less. */
  function PastAverage(targets: seq<nat>, n: nat): nat
    requires 0 < n <= |targets|
  {
    if n == 1 then targets[0] else (PastAverage(targets, n - 1) * n + targets[n - 1]) / (n + 1)
  }

  lemma AverageStep(avg: nat, t: nat, n: nat, low: nat, high: nat)
    requires low <= avg <= high && low <= t <= high && n > 0
    ensures low <= (avg * n + t) / (n + 1) <= high && avg * n + t <= high * (n + 1)
  {
    Times(n, avg, high);
    Times(n, low, avg);
    assert high * (n + 1) == high * n + high && low * (n + 1) == low * n + low;
    LowQuotient(avg * n + t, n + 1, low);
    DivBelow(avg * n + t, n + 1, high);
  }

  lemma DivBelow(v: nat, d: nat, high: nat)
    requires d > 0 && v <= high * d
    ensures v / d <= high
  {
    assert v == d * (v / d) + v % d;
    assert d * (v / d) == (v / d) * d;
    CompareScaled(high, d, v / d);
  }

  lemma {:induction false} AverageBetween(targets: seq<nat>, n: nat, low: nat, high: nat)
    requires 0 < n <= |targets| && forall i :: 0 <= i < n ==> low <= targets[i] <= high
    ensures low <= PastAverage(targets, n) <= high
  {
    if n > 1 {
      AverageBetween(targets, n - 1, low, high);
      AverageStep(PastAverage(targets, n - 1), targets[n - 1], n, low, high);
    }
  }

  /** The same average on 256 bits. */
  function CutAverage(targets: seq<nat>, n: nat): nat
    requires 0 < n <= |targets|
  {
    if n == 1 then targets[0] else CutStep(CutAverage(targets, n - 1), targets[n - 1], n)
  }

  function CutStep(avg: nat, t: nat, n: nat): nat {
    Product(avg, n);
    Cut(Cut(avg * n) + t) / (n + 1)
  }

  lemma CutStepExact(avg: nat, t: nat, n: nat, high: nat)
    requires avg <= high && t <= high && 0 < n <= PAST_BLOCKS && high * 25 < Modulus()
    ensures CutStep(avg, t, n) == (avg * n + t) / (n + 1)
  {
    hide Pow;
    AverageStep(avg, t, n, 0, high);
    Times(high, n + 1, 25);
    Product(avg, n);
    SmallMod(avg * n, Modulus());
    SmallMod(avg * n + t, Modulus());
  }

  lemma {:induction false} CutAverageExact(targets: seq<nat>, n: nat, high: nat)
    requires 0 < n <= |targets| && n <= PAST_BLOCKS && high * 25 < Modulus()
    requires forall i :: 0 <= i < n ==> targets[i] <= high
    ensures CutAverage(targets, n) == PastAverage(targets, n)
  {
    hide Modulus, CutStep;
    if n > 1 {
      CutAverageExact(targets, n - 1, high);
      AverageBetween(targets, n - 1, 0, high);
      CutStepExact(PastAverage(targets, n - 1), targets[n - 1], n, high);
    }
  }

  /** The targets of the last n blocks, newest first. */
  function PastTargets(blocks: seq<Block>, n: nat): (r: seq<nat>)
    requires n <= |blocks|
    ensures |r| == n
  {
    seq(n, i requires 0 <= i < n => TargetOf(blocks[|blocks| - 1 - i].nBits))
  }

  lemma PastTargetAt(blocks: seq<Block>, i: nat)
    requires i < PAST_BLOCKS <= |blocks|
    ensures |PastTargets(blocks, PAST_BLOCKS)| == PAST_BLOCKS
    ensures PastTargets(blocks, PAST_BLOCKS)[i] == TargetOf(blocks[|blocks| - 1 - i].nBits)
  {
    hide TargetOf;
  }

  ghost predicate TargetsWithin(blocks: seq<Block>, n: nat, low: nat, high: nat)
    requires n <= |blocks|
  {
    forall i :: |blocks| - n <= i < |blocks| ==> blocks[i].nBits < BASE && low <= TargetOf(blocks[i].nBits) <= high
  }

  ghost predicate HeadersOk(blocks: seq<Block>) {
    forall i :: 0 <= i < |blocks| ==> blocks[i].nBits < BASE
  }

  /** The average, on limbs. */
  method AveragePast(blocks: seq<Block>) returns (avg: array<nat>)
    requires |blocks| >= PAST_BLOCKS && HeadersOk(blocks)
    ensures fresh(avg) && LimbsOk(avg[..])
    ensures Val(avg[..]) == CutAverage(PastTargets(blocks, PAST_BLOCKS), PAST_BLOCKS)
  {
    hide Low, Pow, Meaning, PastTargets;
    avg := new nat[WIDTH];
    ghost var targets := PastTargets(blocks, PAST_BLOCKS);
    var neg, over := SetCompact(avg, blocks[|blocks| - 1].nBits);
    PastTargetAt(blocks, 0);
    var nCountBlocks := 2;
    while nCountBlocks <= PAST_BLOCKS
      invariant 2 <= nCountBlocks <= PAST_BLOCKS + 1 && avg.Length == WIDTH && LimbsOk(avg[..])
      invariant fresh(avg) && Val(avg[..]) == CutAverage(targets, nCountBlocks - 1)
    {
      var bnTarget := new nat[WIDTH];
      neg, over := SetCompact(bnTarget, blocks[|blocks| - nCountBlocks].nBits);
      PastTargetAt(blocks, nCountBlocks - 1);
      MultiplySmall(avg, nCountBlocks);
      AddAssign(avg, bnTarget[..]);
      Uint64Value(nCountBlocks + 1);
      var ok := DivideAssign(avg, FromUint64(nCountBlocks + 1));
      nCountBlocks := nCountBlocks + 1;
    }
  }

  function WaveSpan(blocks: seq<Block>, spacing: nat): (span: nat)
    requires |blocks| >= PAST_BLOCKS
    ensures 24 * spacing <= 3 * span && span <= 72 * spacing
  {
    Clamp(blocks[|blocks| - 1].time - blocks[|blocks| - PAST_BLOCKS].time, 24 * spacing / 3, 24 * spacing * 3)
  }

  /** The rule on numbers, past the reset height and with enough blocks. */
  function WaveTarget(blocks: seq<Block>, limit: nat, spacing: nat): nat
    requires |blocks| > PAST_BLOCKS && spacing > 0
  {
    Min(limit, Scaled(PastAverage(PastTargets(blocks, PAST_BLOCKS), PAST_BLOCKS), WaveSpan(blocks, spacing), 24 * spacing))
  }

  /** The rule on 256 bits. */
  function WaveRule(blocks: seq<Block>, limit: nat, spacing: nat): nat
    requires |blocks| > PAST_BLOCKS && spacing > 0
  {
    Min(limit, Rescaled(CutAverage(PastTargets(blocks, PAST_BLOCKS), PAST_BLOCKS), WaveSpan(blocks, spacing), 24 * spacing))
  }

  /** The average, scaled, is at least one. */
  ghost predicate WavePositive(blocks: seq<Block>, spacing: nat)
    requires |blocks| >= PAST_BLOCKS
  {
    Cut(CutAverage(PastTargets(blocks, PAST_BLOCKS), PAST_BLOCKS) * WaveSpan(blocks, spacing)) >= 24 * spacing
  }

  /** When the rule gives a target other than zero, whatever the past targets. */
  lemma WaveRulePositive(blocks: seq<Block>, limit: nat, spacing: nat)
    requires |blocks| > PAST_BLOCKS && spacing > 0
    ensures WaveRule(blocks, limit, spacing) > 0 <==> limit > 0 && WavePositive(blocks, spacing)
  {
    hide Pow, CutAverage, WaveSpan, PastTargets;
    var avg, span := CutAverage(PastTargets(blocks, PAST_BLOCKS), PAST_BLOCKS), WaveSpan(blocks, spacing);
    Product(avg, span);
    CutSmall(avg * span);
    QuotientPositive(Cut(avg * span), 24 * spacing);
  }

  /** Headers in the range, with a target of two each, that came in time: the next target is zero. */
  lemma WaveReachesZero(blocks: seq<Block>, limit: nat, spacing: nat)
    requires |blocks| > PAST_BLOCKS && spacing > 0 && 2 <= limit < Modulus()
    requires forall i :: 0 <= i < |blocks| ==> blocks[i] == Block(CompactOf(2), 0)
    ensures InRange(CompactOf(2), limit) && WaveTarget(blocks, limit, spacing) == 0
    ensures !InRange(CompactOf(WaveTarget(blocks, limit, spacing)), limit)
  {
    hide Pow, CompactOf, Meaning, PastAverage, PastTargets;
    WrittenInRange(2, limit);
    CompactRoundTrip(2);
    AverageOfPast(blocks, 2, 2);
    QuotientPositive(2 * (8 * spacing), 24 * spacing);
    WrittenInRange(0, limit);
  }

  /** For targets within the limit, nothing is lost to the 256 bits. */
  lemma WaveExact(blocks: seq<Block>, limit: nat, spacing: nat)
    requires |blocks| > PAST_BLOCKS && spacing > 0 && TargetsWithin(blocks, PAST_BLOCKS, 0, limit)
    requires limit * (72 * spacing) < Modulus() && limit * 25 < Modulus()
    ensures WaveRule(blocks, limit, spacing) == WaveTarget(blocks, limit, spacing)
  {
    hide Pow, Scaled, Rescaled, PastAverage, CutAverage, WaveSpan, TargetOf;
    CutAverageExact(PastTargets(blocks, PAST_BLOCKS), PAST_BLOCKS, limit);
    AverageOfPast(blocks, 0, limit);
    Times(limit, WaveSpan(blocks, spacing), 72 * spacing);
    var avg := PastAverage(PastTargets(blocks, PAST_BLOCKS), PAST_BLOCKS);
    RescaledExact(avg, WaveSpan(blocks, spacing), 24 * spacing, limit);
  }

  method DarkGravityWave(blocks: seq<Block>, powLimit: seq<nat>, spacing: nat, resetHeight: nat) returns (nCompact: nat)
    requires |blocks| > 0 && HeadersOk(blocks) && LimbsOk(powLimit) && 0 < spacing && 72 * spacing < BASE
    ensures nCompact == CompactOf(if |blocks| == resetHeight || |blocks| <= PAST_BLOCKS then Val(powLimit)
                                  else WaveRule(blocks, Val(powLimit), spacing))
    ensures WithinLimit(nCompact, Val(powLimit))
    ensures InRange(nCompact, Val(powLimit)) <==>
            && Val(powLimit) > 0
            && (|blocks| == resetHeight || |blocks| <= PAST_BLOCKS || WavePositive(blocks, spacing))
  {
    hide Low, Pow, Val, Meaning, CompactOf, WordOf, Rescaled, HeadersOk, CutAverage, WavePositive;
    ValBound(powLimit);
    WrittenInRange(Val(powLimit), Val(powLimit));
    if |blocks| == resetHeight || |blocks| - 1 < PAST_BLOCKS {
      nCompact := GetCompact(powLimit, false);
      return;
    }
    var bnNew := AveragePast(blocks);
    var targetTimespan := PAST_BLOCKS * spacing;
    var actual := blocks[|blocks| - 1].time - blocks[|blocks| - PAST_BLOCKS].time;
    var span := Clamp(actual, targetTimespan / 3, targetTimespan * 3);
    Rescale(bnNew, span, targetTimespan);
    var c := CompareTo(bnNew[..], powLimit);
    if c > 0 { CopyTo(bnNew, powLimit); }
    WrittenInRange(Val(bnNew[..]), Val(powLimit));
    WaveRulePositive(blocks, Val(powLimit), spacing);
    nCompact := GetCompact(bnNew[..], false);
  }

  lemma AverageOfPast(blocks: seq<Block>, low: nat, high: nat)
    requires |blocks| >= PAST_BLOCKS && TargetsWithin(blocks, PAST_BLOCKS, low, high)
    ensures low <= PastAverage(PastTargets(blocks, PAST_BLOCKS), PAST_BLOCKS) <= high
  {
    hide PastAverage, TargetOf;
    AverageBetween(PastTargets(blocks, PAST_BLOCKS), PAST_BLOCKS, low, high);
  }

  /** The new target lies between a third of the smallest and three times the largest of the last 24 targets, and never
      above the limit. */
  lemma WaveBounds(blocks: seq<Block>, limit: nat, spacing: nat, low: nat, high: nat)
    requires |blocks| > PAST_BLOCKS && spacing > 0 && TargetsWithin(blocks, PAST_BLOCKS, low, high) && low <= limit
    ensures low / 3 <= WaveTarget(blocks, limit, spacing) <= 3 * high && WaveTarget(blocks, limit, spacing) <= limit
  {
    hide Scaled, PastAverage, TargetsWithin, WaveSpan;
    AverageOfPast(blocks, low, high);
    var avg := PastAverage(PastTargets(blocks, PAST_BLOCKS), PAST_BLOCKS);
    ScaledBelow(avg, WaveSpan(blocks, spacing), 24 * spacing, 3);
    ScaledAbove(avg, WaveSpan(blocks, spacing), 24 * spacing, 3);
  }
}
