/** The size of a serialized partial Merkle tree against the documented guarantee. */
module MerkleSize {
  import opened Powers
  import opened Consensus
  import opened MerkleTree
  import opened MerkleRoundTrip

  /** The bytes of a length field. */
  function VarIntSize(n: nat): nat {
    if n < 253 then 1 else if n <= 0xFFFF then 3 else if n <= 0xFFFF_FFFF then 5 else 9
  }

  function FlagBytes(e: Encoding): nat {
    (|e.bits| + 7) / 8
  }

  function SerializedSize(e: Encoding): nat {
    4 + VarIntSize(|e.hashes|) + 32 * |e.hashes| + VarIntSize(FlagBytes(e)) + FlagBytes(e)
  }

  /** The guarantee, for n leaf nodes of the partial tree: ten bytes and 32.25 per leaf, rounded up. */
  function SizeGuarantee(n: nat): nat {
    10 + (129 * n + 3) / 4
  }

  function Encoded(H: (Hash, Hash) -> Hash, txids: seq<Hash>, match_: seq<bool>): Encoding
    requires |txids| == |match_| > 0
  {
    Build(H, TreeHeight(|txids|, 0), 0, txids, match_)
  }

  // ----- how many nodes have one child

  lemma {:induction false} LonelyAtMost(n: nat, match_: seq<bool>, h: nat, pos: nat)
    requires pos < TreeWidth(n, h)
    ensures Lonely(n, match_, h, pos) <= h
    decreases h
  {
    hide TreeWidth, ParentOfMatch;
    if h > 0 {
      WidthHalves(n, h);
      Children(n, h, pos);
      if pos * 2 + 1 < TreeWidth(n, h - 1) {
        InnerNotLonely(n, match_, h - 1, pos * 2);
        LonelyAtMost(n, match_, h - 1, pos * 2 + 1);
      } else {
        LonelyAtMost(n, match_, h - 1, pos * 2);
      }
    }
  }

  lemma {:induction false} HeightLeast(n: nat, h: nat, m: nat)
    requires h <= m && TreeWidth(n, m) <= 1
    ensures TreeHeight(n, h) <= m
    decreases m - h
  {
    hide TreeWidth;
    if TreeWidth(n, h) > 1 { HeightLeast(n, h + 1, m); }
  }

  /** A block of the largest number of transactions has a tree of height 15 at most. */
  lemma HeightBound(n: nat)
    requires 0 < n <= MAX_BLOCK_WEIGHT / MIN_TRANSACTION_WEIGHT
    ensures TreeHeight(n, 0) <= 15
  {
    PowAdd(2, 8, 7);
    assert Pow(2, 8) == 256 && Pow(2, 7) == 128;
    assert Pow2(15) == 32768;
    assert TreeWidth(n, 15) <= 1;
    HeightLeast(n, 0, 15);
  }

  // ----- the guarantee

  lemma EncodedFacts(H: (Hash, Hash) -> Hash, txids: seq<Hash>, match_: seq<bool>)
    requires |txids| == |match_| && 0 < |txids| <= MAX_BLOCK_WEIGHT / MIN_TRANSACTION_WEIGHT
    ensures var e := Encoded(H, txids, match_);
            && 1 <= |e.hashes| <= |txids| && 2 * |e.hashes| - 1 <= |e.bits| <= 2 * |e.hashes| + 14
  {
    var h := TreeHeight(|txids|, 0);
    HeightBound(|txids|);
    hide TreeWidth, TreeHeight, Build;
    BitsExact(H, h, 0, txids, match_);
    LonelyAtMost(|txids|, match_, h, 0);
    HashBounds(H, h, 0, txids, match_);
  }

  /** For blocks within the limit on transactions the guarantee holds if and only if there are fewer than 253 bytes of
      flags, or no more of them than a quarter of the stored hashes, rounded up. */
  lemma SizeGuaranteeIff(H: (Hash, Hash) -> Hash, txids: seq<Hash>, match_: seq<bool>)
    requires |txids| == |match_| && 0 < |txids| <= MAX_BLOCK_WEIGHT / MIN_TRANSACTION_WEIGHT
    ensures var e := Encoded(H, txids, match_);
            SerializedSize(e) <= SizeGuarantee(|e.hashes|) <==> FlagBytes(e) < 253 || FlagBytes(e) <= (|e.hashes| + 3) / 4
  {
    hide Encoded;
    EncodedFacts(H, txids, match_);
    var e := Encoded(H, txids, match_);
    SizeArithmetic(|e.hashes|, |e.bits|);
  }

  lemma SizeArithmetic(n: nat, bits: nat)
    requires 1 <= n <= 16666 && 2 * n - 1 <= bits <= 2 * n + 14
    ensures var f := (bits + 7) / 8;
            4 + VarIntSize(n) + 32 * n + VarIntSize(f) + f <= SizeGuarantee(n) <==> f < 253 || f <= (n + 3) / 4
  {
    assert (129 * n + 3) / 4 == 32 * n + (n + 3) / 4;
  }

  /** It holds whenever no matched transaction lies below a one-child node. */
  lemma SizeGuaranteed(H: (Hash, Hash) -> Hash, txids: seq<Hash>, match_: seq<bool>)
    requires |txids| == |match_| && 0 < |txids| <= MAX_BLOCK_WEIGHT / MIN_TRANSACTION_WEIGHT
    requires !LonelyMatch(|txids|, match_, TreeHeight(|txids|, 0))
    ensures var e := Encoded(H, txids, match_); SerializedSize(e) <= SizeGuarantee(|e.hashes|)
  {
    hide Build, TreeHeight, LonelyMatch;
    BitLimitIff(H, txids, match_);
    SizeGuaranteeIff(H, txids, match_);
  }

  // ----- a block that exceeds it

  ghost predicate AllMatched(match_: seq<bool>) {
    forall i :: 0 <= i < |match_| ==> match_[i]
  }

  lemma AllParents(match_: seq<bool>, h: nat, pos: nat)
    requires AllMatched(match_) && pos < TreeWidth(|match_|, h)
    ensures ParentOfMatch(match_, h, pos)
  {
    SpanStarts(|match_|, h, pos);
    ParentIffMatched(match_, |match_|, h, pos);
    assert match_[pos * Pow2(h)];
  }

  /** Every transaction's id is stored. */
  lemma {:induction false} AllStored(H: (Hash, Hash) -> Hash, h: nat, pos: nat, txids: seq<Hash>, match_: seq<bool>)
    requires |txids| == |match_| && AllMatched(match_) && pos < TreeWidth(|txids|, h)
    ensures |Build(H, h, pos, txids, match_).hashes| == SpanEnd(|txids|, h, pos) - pos * Pow2(h)
    decreases h
  {
    hide TreeWidth, ParentOfMatch, CalcHash, Pow2, AllMatched, SpanEnd;
    var n := |txids|;
    AllParents(match_, h, pos);
    if h > 0 {
      Children(n, h, pos);
      SpanSplits(n, h, pos);
      SpanStarts(n, h, pos);
      AllStored(H, h - 1, pos * 2, txids, match_);
      if pos * 2 + 1 < TreeWidth(n, h - 1) { AllStored(H, h - 1, pos * 2 + 1, txids, match_); }
    } else {
      OneLeaf(n, pos);
    }
  }

  lemma OneLeaf(n: nat, pos: nat)
    requires pos < TreeWidth(n, 0)
    ensures SpanEnd(n, 0, pos) - pos * Pow2(0) == 1
  {
    assert Pow2(0) == 1;
  }

  /** The levels below h with an odd number of nodes. */
  function OddLevels(n: nat, h: nat): nat {
    if h == 0 then 0 else OddLevels(n, h - 1) + TreeWidth(n, h - 1) % 2
  }

  lemma {:induction false} LonelyLevels(n: nat, match_: seq<bool>, h: nat)
    requires n == |match_| > 0 && AllMatched(match_)
    ensures TreeWidth(n, h) > 0 && Lonely(n, match_, h, TreeWidth(n, h) - 1) == OddLevels(n, h)
  {
    hide TreeWidth, ParentOfMatch, Pow2, AllMatched;
    WidthPositive(n, h);
    if h > 0 {
      var last := TreeWidth(n, h) - 1;
      AllParents(match_, h, last);
      WidthHalves(n, h);
      LonelyLevels(n, match_, h - 1);
      if last * 2 + 1 < TreeWidth(n, h - 1) { InnerNotLonely(n, match_, h - 1, last * 2); }
    }
  }

  lemma Widths()
    ensures TreeHeight(1012, 0) == 10 && TreeWidth(1012, 10) == 1 && OddLevels(1012, 10) == 2
  {
    hide TreeWidth, Pow2;
    WidthAtLeaves(1012);
    WidthHalves(1012, 1);
    WidthHalves(1012, 2);
    WidthHalves(1012, 3);
    WidthHalves(1012, 4);
    WidthHalves(1012, 5);
    WidthHalves(1012, 6);
    WidthHalves(1012, 7);
    WidthHalves(1012, 8);
    WidthHalves(1012, 9);
    WidthHalves(1012, 10);
    HeightIs(1012, 10);
    assert OddLevels(1012, 4) == 2;
    assert OddLevels(1012, 7) == 2;
  }

  lemma HeightIs(n: nat, m: nat)
    requires n > 0 && m > 0 && TreeWidth(n, m) == 1 && TreeWidth(n, m - 1) > 1
    ensures TreeHeight(n, 0) == m
  {
    hide TreeWidth;
    HeightLeast(n, 0, m);
    if TreeHeight(n, 0) < m { WidthShrinks(n, TreeHeight(n, 0), m - 1); }
  }

  lemma {:induction false} WidthShrinks(n: nat, g: nat, h: nat)
    requires n > 0 && g <= h
    ensures TreeWidth(n, h) <= TreeWidth(n, g)
  {
    hide TreeWidth;
    if g < h {
      WidthShrinks(n, g, h - 1);
      WidthHalves(n, h);
      WidthPositive(n, h - 1);
    }
  }

  /** 1012 transactions that are all matched take one byte more than guaranteed. */
  lemma SizeExceeded(H: (Hash, Hash) -> Hash, txids: seq<Hash>, match_: seq<bool>)
    requires |txids| == |match_| == 1012 && AllMatched(match_)
    ensures var e := Encoded(H, txids, match_);
            && |e.hashes| == 1012 && |e.bits| == 2025
            && SerializedSize(e) == SizeGuarantee(1012) + 1
  {
    hide TreeWidth, TreeHeight, Build, Pow2, SpanEnd, Lonely, OddLevels;
    Widths();
    AllStored(H, 10, 0, txids, match_);
    WholeSpan();
    BitsExact(H, 10, 0, txids, match_);
    LonelyLevels(1012, match_, 10);
  }

  lemma WholeSpan()
    ensures SpanEnd(1012, 10, 0) == 1012
  {
    assert Pow2(10) == 1024;
  }
}
