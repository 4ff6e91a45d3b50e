/** Which difficulty rule applies at which height, and what that means for whole chains of headers. */
module NextWork {
  import opened Powers
  import opened Positional
  import opened Limbs
  import opened LimbDivision
  import opened CompactTarget
  import opened Retarget
  import opened MovingAverage

  datatype Params = Params(
    powLimit: nat, timespan: nat, spacing: nat, allowMinDifficulty: bool, noRetargeting: bool,
    gpuHeight: nat, lwmaHeight: nat, window: nat)

  /** What the rules ask of a network's numbers. */
  ghost predicate ParamsOk(p: Params) {
    && 0 < p.spacing <= p.timespan && 4 * p.timespan < BASE && 72 * p.spacing < BASE && p.powLimit < Modulus()
    && p.window > 0 && 0 < WindowWeight(p.window, p.spacing) * p.window < BASE * BASE
    && 6 * WindowWeight(p.window, p.spacing) < BASE * BASE
  }

  /** The number of blocks between two changes of the legacy rule. */
  function Interval(p: Params): (n: nat)
    requires 0 < p.spacing <= p.timespan
    ensures n > 0
  {
    QuotientPositive(p.timespan, p.spacing);
    p.timespan / p.spacing
  }

  // ----- the rules

  /** On a network that allows blocks of the least difficulty, a block that comes late enough may be one. */
  predicate LateEnough(blocks: seq<Block>, newTime: int, p: Params)
    requires |blocks| > 0
  {
    p.allowMinDifficulty && newTime > blocks[|blocks| - 1].time + p.spacing * 2
  }

  /** The last block, going back from index i, that is not one of least difficulty. */
  function WalkBack(blocks: seq<Block>, i: nat, p: Params): (nBits: nat)
    requires i < |blocks| && 0 < p.spacing <= p.timespan
    ensures exists j :: 0 <= j <= i && nBits == blocks[j].nBits
  {
    if i > 0 && i % Interval(p) != 0 && blocks[i].nBits == CompactOf(p.powLimit) then WalkBack(blocks, i - 1, p)
    else blocks[i].nBits
  }

  /** How far back the legacy rule looks: the full interval, except for the first change. */
  function Back(height: nat, p: Params): nat
    requires 0 < p.spacing <= p.timespan
  {
    if height == Interval(p) then Interval(p) - 1 else Interval(p)
  }

  /** The block it looks at exists. */
  lemma FirstExists(height: nat, p: Params)
    requires 0 < p.spacing <= p.timespan && height > 0 && height % Interval(p) == 0
    ensures Back(height, p) < height
  {
    var n := Interval(p);
    assert height == n * (height / n);
    Times(n, 1, height / n);
  }

  /** The time that the last interval took, held within a quarter and four times the expected one. */
  function LegacySpan(blocks: seq<Block>, p: Params): (span: nat)
    requires 0 < p.spacing <= p.timespan && |blocks| > 0 && |blocks| % Interval(p) == 0
    ensures p.timespan / 4 <= span <= 4 * p.timespan
  {
    FirstExists(|blocks|, p);
    var last, first := blocks[|blocks| - 1], blocks[|blocks| - 1 - Back(|blocks|, p)];
    Clamp(last.time - first.time, p.timespan / 4, p.timespan * 4)
  }

  function LegacyBits(blocks: seq<Block>, newTime: int, p: Params): nat
    requires ParamsOk(p) && |blocks| > 0
  {
    var last := blocks[|blocks| - 1];
    if |blocks| % Interval(p) != 0 then
      if LateEnough(blocks, newTime, p) then CompactOf(p.powLimit)
      else if p.allowMinDifficulty then WalkBack(blocks, |blocks| - 1, p)
      else last.nBits
    else if p.noRetargeting then last.nBits
    else CompactOf(LegacyRule(TargetOf(last.nBits), p.powLimit, LegacySpan(blocks, p), p.timespan))
  }

  function WaveBits(blocks: seq<Block>, p: Params): nat
    requires ParamsOk(p) && |blocks| > 0
  {
    CompactOf(if |blocks| == p.gpuHeight || |blocks| <= PAST_BLOCKS then p.powLimit
              else WaveRule(blocks, p.powLimit, p.spacing))
  }

  function AverageBits(blocks: seq<Block>, newTime: int, p: Params): nat
    requires ParamsOk(p) && |blocks| > 0
  {
    if LateEnough(blocks, newTime, p) || |blocks| - 1 <= p.window then CompactOf(p.powLimit)
    else LwmaBits(blocks, p.spacing, p.window)
  }

  /** The compact form that the next header must carry. */
  function NextBits(blocks: seq<Block>, newTime: int, p: Params): nat
    requires ParamsOk(p) && |blocks| > 0
  {
    if |blocks| >= p.lwmaHeight then AverageBits(blocks, newTime, p)
    else if |blocks| < p.gpuHeight then LegacyBits(blocks, newTime, p)
    else WaveBits(blocks, p)
  }

  // ----- the same in place

  method LastSpecial(blocks: seq<Block>, nProofOfWorkLimit: nat, p: Params) returns (nBits: nat)
    requires ParamsOk(p) && |blocks| > 0 && nProofOfWorkLimit == CompactOf(p.powLimit)
    ensures nBits == WalkBack(blocks, |blocks| - 1, p)
  {
    hide CompactOf, Modulus, WindowWeight;
    var pindex := |blocks| - 1;
    while pindex > 0 && pindex % Interval(p) != 0 && blocks[pindex].nBits == nProofOfWorkLimit
      invariant 0 <= pindex < |blocks|
      invariant WalkBack(blocks, |blocks| - 1, p) == WalkBack(blocks, pindex, p)
    {
      pindex := pindex - 1;
    }
    return blocks[pindex].nBits;
  }

  method NextLegacy(blocks: seq<Block>, newTime: int, powLimit: seq<nat>, p: Params) returns (nBits: nat)
    requires ParamsOk(p) && |blocks| > 0 && HeadersOk(blocks) && LimbsOk(powLimit) && Val(powLimit) == p.powLimit
    ensures nBits == LegacyBits(blocks, newTime, p)
  {
    hide CompactOf, Modulus, WindowWeight, LegacyRule, TargetOf, Val, WalkBack, LegacyScales, InRange, WithinLimit;
    var nProofOfWorkLimit := GetCompact(powLimit, false);
    var last := blocks[|blocks| - 1];
    if |blocks| % Interval(p) != 0 {
      if p.allowMinDifficulty {
        if newTime > last.time + p.spacing * 2 { return nProofOfWorkLimit; }
        nBits := LastSpecial(blocks, nProofOfWorkLimit, p);
        return;
      }
      return last.nBits;
    }
    var blockstogoback := Interval(p) - 1;
    if |blocks| != Interval(p) { blockstogoback := Interval(p); }
    FirstExists(|blocks|, p);
    var first := blocks[|blocks| - 1 - blockstogoback];
    nBits := CalculateNextWorkRequired(last.nBits, last.time, first.time, powLimit, p.timespan, p.noRetargeting);
  }

  method NextAverage(blocks: seq<Block>, newTime: int, powLimit: seq<nat>, p: Params) returns (nBits: nat)
    requires ParamsOk(p) && |blocks| > 0 && HeadersOk(blocks) && LimbsOk(powLimit) && Val(powLimit) == p.powLimit
    ensures nBits == AverageBits(blocks, newTime, p)
  {
    hide CompactOf, Modulus, WindowWeight, LwmaBits, Val;
    var last := blocks[|blocks| - 1];
    if p.allowMinDifficulty && newTime > last.time + p.spacing * 2 {
      nBits := GetCompact(powLimit, false);
      return;
    }
    if |blocks| - 1 <= p.window {
      nBits := GetCompact(powLimit, false);
      return;
    }
    nBits := LwmaCalculateNextWorkRequired(blocks, p.spacing, p.window);
  }

  method GetNextWorkRequired(blocks: seq<Block>, newTime: int, powLimit: seq<nat>, p: Params) returns (nBits: nat)
    requires ParamsOk(p) && |blocks| > 0 && HeadersOk(blocks) && LimbsOk(powLimit) && Val(powLimit) == p.powLimit
    ensures nBits == NextBits(blocks, newTime, p)
  {
    hide CompactOf, Modulus, WindowWeight, LegacyBits, AverageBits, WaveRule, Val, WavePositive, InRange, WithinLimit;
    var diffType := 1;
    var height := |blocks|;
    if height < p.gpuHeight { diffType := 1; }
    if height < p.lwmaHeight && height >= p.gpuHeight { diffType := 2; }
    if height >= p.lwmaHeight { diffType := 3; }
    if diffType == 1 {
      nBits := NextLegacy(blocks, newTime, powLimit, p);
    } else if diffType == 2 {
      nBits := DarkGravityWave(blocks, powLimit, p.spacing, p.gpuHeight);
    } else {
      nBits := NextAverage(blocks, newTime, powLimit, p);
    }
  }

  // ----- chains below the height of the moving average

  /** Every header after the first carries what the rules ask. */
  ghost predicate Follows(blocks: seq<Block>, p: Params)
    requires ParamsOk(p)
  {
    forall i :: 0 < i < |blocks| ==> blocks[i].nBits == NextBits(blocks[..i], blocks[i].time, p)
  }

  /** The numbers leave room for the products of both rules. */
  ghost predicate Roomy(p: Params) {
    && p.timespan >= 4 && RoomForShift(p.powLimit, p.timespan)
    && p.powLimit * (72 * p.spacing) < Modulus() && p.powLimit * 25 < Modulus()
  }

  ghost predicate AllWithin(blocks: seq<Block>, limit: nat) {
    forall i :: 0 <= i < |blocks| ==> WithinLimit(blocks[i].nBits, limit)
  }

  ghost predicate AllInRange(blocks: seq<Block>, limit: nat) {
    forall i :: 0 <= i < |blocks| ==> InRange(blocks[i].nBits, limit)
  }

  /** The next target is what the rule gives on integers: no product of this step is cut. */
  ghost predicate StepExact(blocks: seq<Block>, p: Params)
    requires ParamsOk(p) && |blocks| > 0
  {
    if |blocks| < p.gpuHeight then
      |blocks| % Interval(p) == 0 ==>
        var previous, span := TargetOf(blocks[|blocks| - 1].nBits), LegacySpan(blocks, p);
        LegacyRule(previous, p.powLimit, span, p.timespan) == LegacyTarget(previous, p.powLimit, span, p.timespan)
    else
      |blocks| > PAST_BLOCKS ==> WaveRule(blocks, p.powLimit, p.spacing) == WaveTarget(blocks, p.powLimit, p.spacing)
  }

  /** What this step scales does not come out below one. */
  ghost predicate StepScales(blocks: seq<Block>, p: Params)
    requires ParamsOk(p) && |blocks| > 0
  {
    if |blocks| < p.gpuHeight then
      |blocks| % Interval(p) == 0 && !p.noRetargeting ==>
        Halved(TargetOf(blocks[|blocks| - 1].nBits), p.powLimit) * LegacySpan(blocks, p) >= p.timespan
    else
      |blocks| != p.gpuHeight && |blocks| > PAST_BLOCKS ==>
        PastAverage(PastTargets(blocks, PAST_BLOCKS), PAST_BLOCKS) * WaveSpan(blocks, p.spacing) >= 24 * p.spacing
  }

  lemma LegacyStep(blocks: seq<Block>, newTime: int, p: Params)
    requires ParamsOk(p) && Roomy(p) && 0 < |blocks| < p.gpuHeight && AllWithin(blocks, p.powLimit)
    ensures WithinLimit(LegacyBits(blocks, newTime, p), p.powLimit) && StepExact(blocks, p)
    ensures AllInRange(blocks, p.powLimit) ==>
              (InRange(LegacyBits(blocks, newTime, p), p.powLimit) <==> StepScales(blocks, p))
  {
    hide CompactOf, Modulus, WindowWeight, WithinLimit, TargetOf, LegacyRule, LegacyTarget, RoomForShift, Halved, Meaning;
    LimitInRange(p);
    if |blocks| % Interval(p) == 0 {
      var last := blocks[|blocks| - 1];
      WithinLimitTarget(last.nBits, p.powLimit);
      var previous, span := TargetOf(last.nBits), LegacySpan(blocks, p);
      LegacyExact(previous, p.powLimit, span, p.timespan);
      LegacyPositive(previous, p.powLimit, span, p.timespan);
      LegacyAtMost(previous, p.powLimit, span, p.timespan);
      WrittenInRange(LegacyTarget(previous, p.powLimit, span, p.timespan), p.powLimit);
    } else {
      var j :| 0 <= j <= |blocks| - 1 && WalkBack(blocks, |blocks| - 1, p) == blocks[j].nBits;
      assert WithinLimit(blocks[j].nBits, p.powLimit);
    }
  }

  lemma LegacyAtMost(previous: nat, limit: nat, span: nat, T: nat)
    requires T > 0
    ensures LegacyTarget(previous, limit, span, T) <= limit
  {
    hide Scaled, Halved;
  }

  /** The limit itself can be written as a header. */
  lemma LimitInRange(p: Params)
    requires ParamsOk(p) && Roomy(p)
    ensures p.powLimit > 0 && InRange(CompactOf(p.powLimit), p.powLimit) && WithinLimit(CompactOf(p.powLimit), p.powLimit)
  {
    hide CompactOf, Modulus, WindowWeight, Pow;
    var n: nat :| n > 0 && IsBits(p.powLimit, n) && Pow(2, n - 1) * (4 * p.timespan) <= Modulus();
    PowUp(2, 0, n - 1);
    WrittenInRange(p.powLimit, p.powLimit);
  }

  lemma WaveStep(blocks: seq<Block>, p: Params)
    requires ParamsOk(p) && Roomy(p) && |blocks| >= p.gpuHeight && |blocks| > 0 && AllWithin(blocks, p.powLimit)
    ensures WithinLimit(WaveBits(blocks, p), p.powLimit) && StepExact(blocks, p)
    ensures InRange(WaveBits(blocks, p), p.powLimit) <==> StepScales(blocks, p)
  {
    hide CompactOf, Modulus, WindowWeight, WithinLimit, TargetOf, WaveRule, WaveTarget, PastAverage, PastTargets, WaveSpan;
    hide RoomForShift, Meaning;
    LimitInRange(p);
    if |blocks| > PAST_BLOCKS {
      PastWithin(blocks, PAST_BLOCKS, p.powLimit);
      WaveExact(blocks, p.powLimit, p.spacing);
      WaveTargetPositive(blocks, p.powLimit, p.spacing);
      WrittenInRange(WaveTarget(blocks, p.powLimit, p.spacing), p.powLimit);
    }
  }

  lemma PastWithin(blocks: seq<Block>, n: nat, limit: nat)
    requires n <= |blocks| && AllWithin(blocks, limit) && limit < Modulus()
    ensures TargetsWithin(blocks, n, 0, limit)
  {
    hide TargetOf, Meaning, Modulus;
    forall i | 0 <= i < |blocks| ensures TargetOf(blocks[i].nBits) <= limit { WithinLimitTarget(blocks[i].nBits, limit); }
  }

  lemma WaveTargetPositive(blocks: seq<Block>, limit: nat, spacing: nat)
    requires |blocks| > PAST_BLOCKS && spacing > 0
    ensures WaveTarget(blocks, limit, spacing) <= limit
    ensures WaveTarget(blocks, limit, spacing) > 0 <==>
            limit > 0 && PastAverage(PastTargets(blocks, PAST_BLOCKS), PAST_BLOCKS) * WaveSpan(blocks, spacing) >= 24 * spacing
  {
    hide PastAverage, PastTargets, WaveSpan;
    var avg, span := PastAverage(PastTargets(blocks, PAST_BLOCKS), PAST_BLOCKS), WaveSpan(blocks, spacing);
    Product(avg, span);
    QuotientPositive(avg * span, 24 * spacing);
  }

  lemma NextStep(blocks: seq<Block>, newTime: int, p: Params)
    requires ParamsOk(p) && Roomy(p) && 0 < |blocks| < p.lwmaHeight && AllWithin(blocks, p.powLimit)
    ensures WithinLimit(NextBits(blocks, newTime, p), p.powLimit) && StepExact(blocks, p)
    ensures AllInRange(blocks, p.powLimit) ==>
              (InRange(NextBits(blocks, newTime, p), p.powLimit) <==> StepScales(blocks, p))
  {
    hide LegacyBits, WaveBits, StepExact, StepScales, WithinLimit, InRange, ParamsOk, Roomy, AllWithin, AllInRange;
    if |blocks| < p.gpuHeight { LegacyStep(blocks, newTime, p); } else { WaveStep(blocks, p); }
  }

  lemma FollowsPart(blocks: seq<Block>, p: Params, n: nat)
    requires ParamsOk(p) && Follows(blocks, p) && n <= |blocks|
    ensures Follows(blocks[..n], p)
  {
    hide ParamsOk, NextBits;
    forall i | 0 < i < n ensures blocks[..n][i].nBits == NextBits(blocks[..n][..i], blocks[..n][i].time, p) {
      assert blocks[..n][..i] == blocks[..i];
    }
  }

  /** Without any condition on its targets, a chain that follows the rules stays within the limit, and no product of
      any step is cut. */
  lemma {:induction false} ChainExact(blocks: seq<Block>, p: Params)
    requires ParamsOk(p) && Roomy(p) && 0 < |blocks| <= p.lwmaHeight && Follows(blocks, p)
    requires WithinLimit(blocks[0].nBits, p.powLimit)
    ensures AllWithin(blocks, p.powLimit)
    ensures forall i :: 0 < i < |blocks| ==> StepExact(blocks[..i], p)
    decreases |blocks|
  {
    hide ParamsOk, Roomy, NextBits, StepExact, WithinLimit, StepScales, InRange;
    if |blocks| > 1 {
      var n := |blocks| - 1;
      FollowsPart(blocks, p, n);
      ChainExact(blocks[..n], p);
      NextStep(blocks[..n], blocks[n].time, p);
      assert forall i :: 0 <= i < n ==> blocks[..n][i] == blocks[i] && blocks[..n][..i] == blocks[..i];
    }
  }

  /** Every header of such a chain is in the range of the proof-of-work test exactly if no step scales to less than
      one. */
  lemma {:induction false} ChainInRangeIff(blocks: seq<Block>, p: Params)
    requires ParamsOk(p) && Roomy(p) && 0 < |blocks| <= p.lwmaHeight && Follows(blocks, p)
    requires InRange(blocks[0].nBits, p.powLimit)
    ensures AllInRange(blocks, p.powLimit) <==> forall i :: 0 < i < |blocks| ==> StepScales(blocks[..i], p)
    decreases |blocks|
  {
    hide ParamsOk, Roomy, NextBits, StepExact, StepScales, WithinLimit, Meaning;
    if |blocks| > 1 {
      var n := |blocks| - 1;
      FollowsPart(blocks, p, n);
      ChainInRangeIff(blocks[..n], p);
      ChainExact(blocks[..n], p);
      NextStep(blocks[..n], blocks[n].time, p);
      assert forall i :: 0 <= i < n ==> blocks[..n][i] == blocks[i] && blocks[..n][..i] == blocks[..i];
      assert AllInRange(blocks, p.powLimit) <==> AllInRange(blocks[..n], p.powLimit) && InRange(blocks[n].nBits, p.powLimit);
    }
  }

  /** A step scales to at least one if the targets it looks at are not tiny. */
  lemma LargeEnough(blocks: seq<Block>, p: Params)
    requires ParamsOk(p) && |blocks| > 0 && p.timespan % 4 == 0
    requires |blocks| < p.gpuHeight ==> TargetOf(blocks[|blocks| - 1].nBits) >= 8
    requires |blocks| >= p.gpuHeight && |blocks| > PAST_BLOCKS ==> TargetsWithin(blocks, PAST_BLOCKS, 3, Modulus())
    ensures StepScales(blocks, p)
  {
    hide TargetOf, Shifted, WindowWeight, Modulus, PastAverage, PastTargets, WaveSpan, TargetsWithin;
    if |blocks| < p.gpuHeight {
      if |blocks| % Interval(p) == 0 {
        var x, span := Halved(TargetOf(blocks[|blocks| - 1].nBits), p.powLimit), LegacySpan(blocks, p);
        Times(span, 4, x);
      }
    } else if |blocks| > PAST_BLOCKS {
      var avg, span := PastAverage(PastTargets(blocks, PAST_BLOCKS), PAST_BLOCKS), WaveSpan(blocks, p.spacing);
      AverageOfPast(blocks, 3, Modulus());
      Times(span, 3, avg);
    }
  }

  // ----- the main network

  function MainNetwork(powLimit: nat): Params {
    Params(powLimit, 302400, 150, false, false, 55000, 85000, 60)
  }

  lemma MainNetworkOk(powLimit: nat)
    requires powLimit + 1 == Pow(2, 236)
    ensures ParamsOk(MainNetwork(powLimit)) && Roomy(MainNetwork(powLimit))
  {
    hide Pow;
    MainParameters(powLimit);
    MainWeight();
  }

  /** Before height 85000: all headers are within the limit, no product is cut, and all are in the range exactly if no
      step scales to less than one. */
  lemma MainChain(blocks: seq<Block>, powLimit: nat)
    requires powLimit + 1 == Pow(2, 236) && ParamsOk(MainNetwork(powLimit))
    requires 0 < |blocks| <= 85000 && Follows(blocks, MainNetwork(powLimit)) && InRange(blocks[0].nBits, powLimit)
    ensures AllWithin(blocks, powLimit)
    ensures forall i :: 0 < i < |blocks| ==> StepExact(blocks[..i], MainNetwork(powLimit))
    ensures AllInRange(blocks, powLimit) <==> forall i :: 0 < i < |blocks| ==> StepScales(blocks[..i], MainNetwork(powLimit))
  {
    hide Pow, ParamsOk, Roomy, StepExact, StepScales, Follows;
    MainNetworkOk(powLimit);
    ChainExact(blocks, MainNetwork(powLimit));
    ChainInRangeIff(blocks, MainNetwork(powLimit));
  }

  /** The proof-of-work test on a header. */
  ghost predicate CheckProofOfWork(hash: nat, nBits: nat, limit: nat) {
    InRange(nBits, limit) && hash <= TargetOf(nBits)
  }

  /** A header passes the two checks on its work: it carries the bits asked for, and its hash meets them. */
  ghost predicate MayFollow(blocks: seq<Block>, next: Block, hash: nat, p: Params)
    requires ParamsOk(p) && |blocks| > 0
  {
    next.nBits == NextBits(blocks, next.time, p) && CheckProofOfWork(hash, next.nBits, p.powLimit)
  }

  /** From height 85000 on: a window of the largest target within the limit that took one second more than expected, in
      the weighted sum, cannot be followed by any header, whatever its time and hash. */
  lemma ChainEnds(blocks: seq<Block>, powLimit: nat, next: Block, hash: nat)
    requires powLimit + 1 == Pow(2, 236) && ParamsOk(MainNetwork(powLimit)) && |blocks| >= 85000
    requires WeightedTime(blocks, 60, 150, 60) > 274500
    ensures |Uniform(blocks, CompactOf(powLimit))| == |blocks|
    ensures !MayFollow(Uniform(blocks, CompactOf(powLimit)), next, hash, MainNetwork(powLimit))
  {
    hide Pow, CompactOf, TargetOf, WeightedTime, LwmaBits, WithinLimit, ParamsOk, TargetsWithin, LwmaTarget;
    MainLate(blocks, powLimit);
  }
}
