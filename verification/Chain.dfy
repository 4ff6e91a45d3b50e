/** The block index, its skip list and the active chain. */
module Chain {
  import opened Powers

  // ----- skip heights

  /** Clears the lowest one bit, as n & (n - 1) does. */
  function InvertLowestOne(n: nat): (r: nat)
    ensures n > 0 ==> r < n
    ensures n == 0 ==> r == 0
  {
    if n == 0 then 0 else if n % 2 == 1 then n - 1 else 2 * InvertLowestOne(n / 2)
  }

  function SkipHeight(height: int): (r: nat)
    ensures height >= 1 ==> r < height
  {
    if height < 2 then 0
    else if height % 2 == 1 then InvertLowestOne(InvertLowestOne(height - 1)) + 1
    else InvertLowestOne(height)
  }

  // ----- the block index

  class BlockIndex {
    const pprev: BlockIndex?
    const pskip: BlockIndex?
    const nHeight: nat

    constructor Genesis()
      ensures Linked(this) && pprev == null && nHeight == 0
    {
      pprev, pskip, nHeight := null, null, 0;
    }

    /** A new block on top of another, with its skip pointer. */
    constructor On(prev: BlockIndex)
      requires Linked(prev)
      ensures Linked(this) && pprev == prev && nHeight == prev.nHeight + 1
      ensures pskip == Ancestor(prev, SkipHeight(nHeight))
    {
      var skip := GetAncestor(prev, SkipHeight(prev.nHeight + 1));
      pprev, pskip, nHeight := prev, skip, prev.nHeight + 1;
    }
  }

  /** Heights count the blocks below, and a skip pointer leads to the ancestor it is meant for. */
  ghost predicate Linked(b: BlockIndex)
    decreases b.nHeight
  {
    if b.pprev == null then b.nHeight == 0 && b.pskip == null
    else
      && b.nHeight == b.pprev.nHeight + 1
      && Linked(b.pprev)
      && (b.pskip != null ==> b.pskip == Ancestor(b.pprev, SkipHeight(b.nHeight)))
  }

  /** The block at a height below b, found by single steps. */
  ghost function Ancestor(b: BlockIndex, height: nat): BlockIndex
    decreases b.nHeight
  {
    if b.nHeight <= height || b.pprev == null || b.nHeight <= b.pprev.nHeight then b else Ancestor(b.pprev, height)
  }

  lemma {:induction false} AncestorAt(b: BlockIndex, height: nat)
    requires Linked(b) && height <= b.nHeight
    ensures Linked(Ancestor(b, height)) && Ancestor(b, height).nHeight == height
    decreases b.nHeight
  {
    if height < b.nHeight { AncestorAt(b.pprev, height); }
  }

  lemma {:induction false} AncestorOfAncestor(b: BlockIndex, high: nat, low: nat)
    requires Linked(b) && low <= high <= b.nHeight
    ensures Ancestor(Ancestor(b, high), low) == Ancestor(b, low)
    decreases b.nHeight
  {
    if high < b.nHeight { AncestorOfAncestor(b.pprev, high, low); }
  }

  /** The skip list leads to the same block as single steps. */
  method GetAncestor(b: BlockIndex, height: int) returns (r: BlockIndex?)
    requires Linked(b)
    ensures if 0 <= height <= b.nHeight then r == Ancestor(b, height) else r == null
  {
    if height > b.nHeight || height < 0 { return null; }
    var walk: BlockIndex, heightWalk := b, b.nHeight;
    while heightWalk > height
      invariant Linked(walk) && walk.nHeight == heightWalk >= height
      invariant Ancestor(walk, height) == Ancestor(b, height)
      decreases heightWalk
    {
      var heightSkip := SkipHeight(heightWalk);
      var heightSkipPrev := SkipHeight(heightWalk - 1);
      if walk.pskip != null &&
         (heightSkip == height || (heightSkip > height && !(heightSkipPrev < heightSkip - 2 && heightSkipPrev >= height))) {
        AncestorAt(walk.pprev, heightSkip);
        AncestorOfAncestor(walk.pprev, heightSkip, height);
        walk, heightWalk := walk.pskip, heightSkip;
      } else {
        assert walk.pprev != null;
        walk, heightWalk := walk.pprev, heightWalk - 1;
      }
    }
    return walk;
  }

  // ----- common ancestors

  /** Once two branches have met they stay together, and before that they differ. */
  lemma {:induction false} MeetOnce(a: BlockIndex, b: BlockIndex, height: nat, lower: nat)
    requires Linked(a) && Linked(b) && lower <= height <= a.nHeight && height <= b.nHeight
    requires Ancestor(a, height) == Ancestor(b, height)
    ensures Ancestor(a, lower) == Ancestor(b, lower)
  {
    AncestorOfAncestor(a, height, lower);
    AncestorOfAncestor(b, height, lower);
  }

  /** r is the highest block that both have below them, or null if there is none. */
  ghost predicate LastCommon(a: BlockIndex, b: BlockIndex, r: BlockIndex?) {
    var top := if a.nHeight < b.nHeight then a.nHeight else b.nHeight;
    && (r != null ==> r.nHeight <= top && Ancestor(a, r.nHeight) == r == Ancestor(b, r.nHeight))
    && forall h: nat :: (if r == null then 0 else r.nHeight + 1) <= h <= top ==> Ancestor(a, h) != Ancestor(b, h)
  }

  method LastCommonAncestor(a: BlockIndex, b: BlockIndex) returns (r: BlockIndex?)
    requires Linked(a) && Linked(b)
    ensures LastCommon(a, b, r)
    ensures r != null <==> Ancestor(a, 0) == Ancestor(b, 0)
  {
    var pa: BlockIndex?, pb: BlockIndex? := a, b;
    ghost var top := if a.nHeight < b.nHeight then a.nHeight else b.nHeight;
    AncestorAt(a, top);
    AncestorAt(b, top);
    if a.nHeight > b.nHeight {
      pa := GetAncestor(a, b.nHeight);
    } else if b.nHeight > a.nHeight {
      pb := GetAncestor(b, a.nHeight);
    }
    ghost var h: int := top;
    while pa != pb && pa != null && pb != null
      invariant -1 <= h <= top
      invariant h >= 0 ==> pa == Ancestor(a, h) && pb == Ancestor(b, h) && Linked(pa) && Linked(pb)
                           && pa.nHeight == pb.nHeight == h
      invariant h == -1 ==> pa == null && pb == null
      invariant forall k: nat :: h < k <= top ==> Ancestor(a, k) != Ancestor(b, k)
      decreases h
    {
      if h > 0 {
        AncestorOfAncestor(a, h, h - 1);
        AncestorOfAncestor(b, h, h - 1);
      }
      pa, pb, h := pa.pprev, pb.pprev, h - 1;
    }
    assert pa == pb;
    if h > 0 { MeetOnce(a, b, h, 0); }
    return pa;
  }

  // ----- locators

  /** How far apart the entries of a locator are: single steps at first, then doubling. */
  function Step(i: nat): nat {
    if i <= 10 then 1 else 2 * Step(i - 1)
  }

  /** How far below the start the i-th entry is. */
  function Offset(i: nat): nat {
    if i == 0 then 0 else Offset(i - 1) + Step(i - 1)
  }

  function LocatorHeight(top: nat, i: nat): nat {
    if Offset(i) < top then top - Offset(i) else 0
  }

  lemma {:induction false} StepBelowOffset(i: nat)
    requires i > 0
    ensures 0 < Step(i) <= Offset(i)
  {
    if i <= 10 {
      if i > 1 { StepBelowOffset(i - 1); }
      assert Step(i - 1) == 1;
    } else {
      StepBelowOffset(i - 1);
    }
  }

  lemma {:induction false} StepIsPower(n: nat)
    ensures Step(10 + n) == Pow2(n)
  {
    if n > 0 { StepIsPower(n - 1); }
  }

  /** The entries are the ancestors at the heights of the formula, down to and including the genesis block. */
  ghost predicate IsLocator(b: BlockIndex, have: seq<BlockIndex>) {
    && have != []
    && (forall i :: 0 <= i < |have| ==> have[i] == Ancestor(b, LocatorHeight(b.nHeight, i)))
    && (forall i :: 0 <= i < |have| - 1 ==> LocatorHeight(b.nHeight, i) > 0)
    && LocatorHeight(b.nHeight, |have| - 1) == 0
  }

  lemma {:induction false} OffsetFormula(n: nat)
    ensures Offset(11 + n) == 2 * Pow2(n) + 9
  {
    StepIsPower(n);
    if n > 0 {
      OffsetFormula(n - 1);
    } else {
      assert Offset(10) == 10;
    }
  }

  lemma {:induction false} OffsetMonotone(i: nat, j: nat)
    requires i <= j
    ensures Offset(i) <= Offset(j)
  {
    if i < j { OffsetMonotone(i, j - 1); }
  }

  /** The length of a locator grows with the logarithm of the height, exactly as fast as this. */
  lemma LocatorLength(b: BlockIndex, have: seq<BlockIndex>, n: nat)
    requires IsLocator(b, have)
    ensures |have| <= 12 + n <==> b.nHeight <= 2 * Pow2(n) + 9
  {
    OffsetFormula(n);
    if |have| <= 12 + n { OffsetMonotone(|have| - 1, 11 + n); }
    assert LocatorHeight(b.nHeight, 11 + n) > 0 <==> b.nHeight > 2 * Pow2(n) + 9;
  }

  /** Locators go strictly down to the genesis block. */
  lemma LocatorDescends(b: BlockIndex, have: seq<BlockIndex>, i: nat)
    requires Linked(b) && IsLocator(b, have) && i + 1 < |have|
    ensures have[i + 1].nHeight < have[i].nHeight && have[|have| - 1].nHeight == 0
  {
    AncestorAt(b, LocatorHeight(b.nHeight, i));
    AncestorAt(b, LocatorHeight(b.nHeight, i + 1));
    AncestorAt(b, 0);
    NextLocatorHeight(b.nHeight, i);
    StepPositive(i);
  }

  lemma NextLocatorHeight(top: nat, i: nat)
    ensures LocatorHeight(top, i + 1) == var h := LocatorHeight(top, i); if h > Step(i) then h - Step(i) else 0
  {
  }

  /** Whoever shares all blocks up to a distance d from the start finds an entry at most twice as far away. */
  lemma {:induction false} LocatorIsClose(b: BlockIndex, have: seq<BlockIndex>, d: nat) returns (i: nat)
    requires Linked(b) && IsLocator(b, have) && d <= b.nHeight
    ensures i < |have| && have[i].nHeight <= b.nHeight - d && have[i] == Ancestor(b, have[i].nHeight)
    ensures have[i].nHeight >= b.nHeight - 2 * d
  {
    i := 0;
    while LocatorHeight(b.nHeight, i) > b.nHeight - d
      invariant 0 <= i < |have|
      invariant i > 0 ==> Offset(i - 1) < d
      decreases |have| - i
    {
      i := i + 1;
    }
    if i > 1 { StepBelowOffset(i - 1); }
    AncestorAt(b, LocatorHeight(b.nHeight, i));
  }

  // ----- the active chain

  /** The blocks from the genesis block up to a tip, by height. */
  ghost predicate IsPath(chain: seq<BlockIndex?>, tip: BlockIndex) {
    |chain| == tip.nHeight + 1 && forall h :: 0 <= h < |chain| ==> chain[h] == Ancestor(tip, h)
  }

  class ActiveChain {
    var vChain: seq<BlockIndex?>

    ghost predicate Valid()
      reads this
    {
      vChain == [] || (var tip := vChain[|vChain| - 1]; tip != null && Linked(tip) && IsPath(vChain, tip))
    }

    constructor ()
      ensures Valid() && vChain == []
    {
      vChain := [];
    }

    function Tip(): BlockIndex?
      reads this
    {
      if vChain == [] then null else vChain[|vChain| - 1]
    }

    function At(height: int): BlockIndex?
      reads this
    {
      if 0 <= height < |vChain| then vChain[height] else null
    }

    predicate Contains(b: BlockIndex)
      reads this
    {
      At(b.nHeight) == b
    }

    /** Makes the chain lead to a new tip, writing only the part that differs. */
    method SetTip(tip: BlockIndex?)
      requires Valid() && (tip != null ==> Linked(tip))
      modifies this
      ensures Valid() && Tip() == tip
    {
      if tip == null {
        vChain := [];
        return;
      }
      ghost var before := vChain;
      var n := tip.nHeight + 1;
      vChain := if n <= |vChain| then vChain[..n] else vChain + seq(n - |vChain|, i => null);
      var p: BlockIndex? := tip;
      while p != null && vChain[p.nHeight] != p
        invariant |vChain| == n && Linked(tip)
        invariant p != null ==> p.nHeight < n && Linked(p) && p == Ancestor(tip, p.nHeight)
        invariant forall h :: (if p == null then 0 else p.nHeight + 1) <= h < n ==> vChain[h] == Ancestor(tip, h)
        invariant p != null ==> forall h :: 0 <= h <= p.nHeight && h < |before| ==> vChain[h] == before[h]
        invariant p != null ==> forall h :: |before| <= h <= p.nHeight ==> vChain[h] == null
        decreases if p == null then 0 else p.nHeight + 1
      {
        if p.nHeight > 0 { AncestorOfAncestor(tip, p.nHeight, p.nHeight - 1); }
        vChain := vChain[p.nHeight := p];
        p := p.pprev;
      }
      if p != null { SharedBelow(before, tip, p); }
      assert IsPath(vChain, tip);
    }

    /** The highest block of the chain that the given block has below it. */
    method FindFork(b: BlockIndex?) returns (r: BlockIndex?)
      requires Valid() && (b != null ==> Linked(b))
      ensures b == null || vChain == [] ==> r == null
      ensures b != null && vChain != [] ==> LastCommon(b, vChain[|vChain| - 1], r)
    {
      if b == null { return null; }
      r := b;
      var height := |vChain| - 1;
      if b.nHeight > height { r := GetAncestor(b, height); }
      if vChain == [] { return null; }
      ghost var tip := vChain[height];
      ghost var top := if b.nHeight < tip.nHeight then b.nHeight else tip.nHeight;
      AncestorAt(b, top);
      while r != null && !Contains(r)
        invariant r != null ==> Linked(r) && r.nHeight <= top && r == Ancestor(b, r.nHeight)
        invariant forall h: nat :: (if r == null then 0 else r.nHeight + 1) <= h <= top ==> Ancestor(b, h) != Ancestor(tip, h)
        decreases if r == null then 0 else r.nHeight + 1
      {
        if r.nHeight > 0 { AncestorOfAncestor(b, r.nHeight, r.nHeight - 1); }
        r := r.pprev;
      }
    }

    /** A locator for a block, or for the tip. */
    method GetLocator(b: BlockIndex?) returns (have: seq<BlockIndex>)
      requires Valid() && (b != null ==> Linked(b))
      ensures var start := if b != null then b else Tip(); if start == null then have == [] else IsLocator(start, have)
    {
      var nStep := 1;
      have := [];
      var p := if b == null then Tip() else b;
      ghost var start := p;
      while p != null
        invariant start != null ==> p != null && Linked(start) && Linked(p)
        invariant start == null ==> p == null && have == []
        invariant p != null ==> p == Ancestor(start, p.nHeight) && p.nHeight == LocatorHeight(start.nHeight, |have|)
        invariant nStep == Step(|have|)
        invariant start != null ==> forall i :: 0 <= i < |have| ==>
                    var h := LocatorHeight(start.nHeight, i); h > 0 && have[i] == Ancestor(start, h)
        decreases if p == null then 0 else p.nHeight + 1
      {
        have := have + [p];
        if p.nHeight == 0 { break; }
        var nHeight := if p.nHeight > nStep then p.nHeight - nStep else 0;
        NextLocatorHeight(start.nHeight, |have| - 1);
        StepPositive(|have| - 1);
        AncestorAt(start, nHeight);
        AncestorOfAncestor(start, p.nHeight, nHeight);
        if Contains(p) {
          AncestorOfAncestor(vChain[|vChain| - 1], p.nHeight, nHeight);
          p := At(nHeight);
        } else {
          p := GetAncestor(p, nHeight);
        }
        if |have| > 10 { nStep := nStep * 2; }
      }
    }
  }

  lemma StepPositive(i: nat)
    ensures Step(i) > 0
  {
  }

  /** Two chains that agree at one height agree below it. */
  lemma SharedBelow(chain: seq<BlockIndex?>, tip: BlockIndex, p: BlockIndex)
    requires Linked(tip) && p.nHeight <= tip.nHeight && p == Ancestor(tip, p.nHeight)
    requires chain != [] ==> var t := chain[|chain| - 1]; t != null && Linked(t) && IsPath(chain, t)
    requires p.nHeight < |chain| && chain[p.nHeight] == p
    ensures forall h :: 0 <= h <= p.nHeight ==> chain[h] == Ancestor(tip, h)
  {
    var t := chain[|chain| - 1];
    forall h | 0 <= h <= p.nHeight ensures chain[h] == Ancestor(tip, h) {
      MeetOnce(t, tip, p.nHeight, h);
    }
  }
}
