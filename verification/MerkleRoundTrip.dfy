/** Encoding followed by decoding, and the size of the encoding. */
module MerkleRoundTrip {
  import opened Powers
  import opened MerkleTree

  // ----- the matched transactions, independently of any tree

  function MatchedIndexes(match_: seq<bool>, lo: nat, hi: nat): seq<nat>
    requires lo <= hi <= |match_|
    decreases hi - lo
  {
    if lo == hi then []
    else (if match_[lo] then [lo] else []) + MatchedIndexes(match_, lo + 1, hi)
  }

  function MatchedIds(txids: seq<Hash>, match_: seq<bool>, lo: nat, hi: nat): seq<Hash>
    requires lo <= hi <= |match_| == |txids|
    decreases hi - lo
  {
    if lo == hi then []
    else (if match_[lo] then [txids[lo]] else []) + MatchedIds(txids, match_, lo + 1, hi)
  }

  lemma {:induction false} IndexesConcat(match_: seq<bool>, lo: nat, mid: nat, hi: nat)
    requires lo <= mid <= hi <= |match_|
    ensures MatchedIndexes(match_, lo, mid) + MatchedIndexes(match_, mid, hi) == MatchedIndexes(match_, lo, hi)
    decreases mid - lo
  {
    if lo < mid {
      IndexesConcat(match_, lo + 1, mid, hi);
      var here := if match_[lo] then [lo] else [];
      assert (here + MatchedIndexes(match_, lo + 1, mid)) + MatchedIndexes(match_, mid, hi)
          == here + (MatchedIndexes(match_, lo + 1, mid) + MatchedIndexes(match_, mid, hi));
    }
  }

  lemma {:induction false} IdsConcat(txids: seq<Hash>, match_: seq<bool>, lo: nat, mid: nat, hi: nat)
    requires lo <= mid <= hi <= |match_| == |txids|
    ensures MatchedIds(txids, match_, lo, mid) + MatchedIds(txids, match_, mid, hi) == MatchedIds(txids, match_, lo, hi)
    decreases mid - lo
  {
    if lo < mid {
      IdsConcat(txids, match_, lo + 1, mid, hi);
      var here := if match_[lo] then [txids[lo]] else [];
      assert (here + MatchedIds(txids, match_, lo + 1, mid)) + MatchedIds(txids, match_, mid, hi)
          == here + (MatchedIds(txids, match_, lo + 1, mid) + MatchedIds(txids, match_, mid, hi));
    }
  }

  lemma {:induction false} MatchedNone(txids: seq<Hash>, match_: seq<bool>, lo: nat, hi: nat)
    requires lo <= hi <= |match_| == |txids| && forall i :: lo <= i < hi ==> !match_[i]
    ensures MatchedIndexes(match_, lo, hi) == [] && MatchedIds(txids, match_, lo, hi) == []
    decreases hi - lo
  {
    if lo < hi { MatchedNone(txids, match_, lo + 1, hi); }
  }

  /** The end of the leaves below a node. */
  function SpanEnd(n: nat, h: nat, pos: nat): nat {
    if (pos + 1) * Pow2(h) < n then (pos + 1) * Pow2(h) else n
  }

  /** A node that exists has a leaf. */
  lemma SpanStarts(n: nat, h: nat, pos: nat)
    requires pos < TreeWidth(n, h)
    ensures pos * Pow2(h) < SpanEnd(n, h, pos) <= n
  {
    CeilDiv(n, Pow2(h), TreeWidth(n, h));
    MulLe(pos, TreeWidth(n, h) - 1, Pow2(h));
    assert (pos + 1) * Pow2(h) == pos * Pow2(h) + Pow2(h);
  }

  /** The leaves below a node are those below its left child and then those below its right child, if any. */
  lemma SpanSplits(n: nat, h: nat, pos: nat)
    requires h > 0 && pos < TreeWidth(n, h)
    ensures pos * 2 < TreeWidth(n, h - 1)
    ensures (pos * 2) * Pow2(h - 1) == pos * Pow2(h)
    ensures pos * 2 + 1 < TreeWidth(n, h - 1) ==>
              SpanEnd(n, h - 1, pos * 2) == (pos * 2 + 1) * Pow2(h - 1) && SpanEnd(n, h - 1, pos * 2 + 1) == SpanEnd(n, h, pos)
    ensures pos * 2 + 1 >= TreeWidth(n, h - 1) ==> SpanEnd(n, h - 1, pos * 2) == SpanEnd(n, h, pos) == n
  {
    Children(n, h, pos);
    ChildSpan(h, pos);
    var w := TreeWidth(n, h - 1);
    CeilDiv(n, Pow2(h - 1), w);
    MulLe(w, pos * 2 + 1, Pow2(h - 1));
    if pos * 2 + 1 < w { SpanStarts(n, h - 1, pos * 2 + 1); }
  }

  lemma ParentIffMatched(match_: seq<bool>, n: nat, h: nat, pos: nat)
    requires n == |match_| && pos < TreeWidth(n, h)
    ensures pos * Pow2(h) < SpanEnd(n, h, pos) <= n
    ensures ParentOfMatch(match_, h, pos) <==> exists i :: pos * Pow2(h) <= i < SpanEnd(n, h, pos) && match_[i]
  {
    SpanStarts(n, h, pos);
  }

  // ----- the decoder inverts the encoder

  /** What the decoder should report for a node. */
  function Expected(H: (Hash, Hash) -> Hash, h: nat, pos: nat, txids: seq<Hash>, match_: seq<bool>, b: nat, u: nat): Extract
    requires pos < TreeWidth(|txids|, h) && |match_| == |txids|
  {
    SpanStarts(|txids|, h, pos);
    var e := Build(H, h, pos, txids, match_);
    Extract(CalcHash(H, h, pos, txids), b + |e.bits|, u + |e.hashes|, false,
            MatchedIds(txids, match_, pos * Pow2(h), SpanEnd(|txids|, h, pos)),
            MatchedIndexes(match_, pos * Pow2(h), SpanEnd(|txids|, h, pos)))
  }

  /** The encoding of a node stands in the streams at the given places. */
  predicate Reads(bits: seq<bool>, hashes: seq<Hash>, b: nat, u: nat, e: Encoding) {
    && b + |e.bits| <= |bits| && bits[b..b + |e.bits|] == e.bits
    && u + |e.hashes| <= |hashes| && hashes[u..u + |e.hashes|] == e.hashes
  }

  lemma SliceOf<T>(xs: seq<T>, b: nat, all: seq<T>, i: nat, j: nat)
    requires b + |all| <= |xs| && xs[b..b + |all|] == all && i <= j <= |all|
    ensures xs[b + i..b + j] == all[i..j]
    ensures forall k :: 0 <= k < |all| ==> xs[b + k] == all[k]
  {
    forall k | 0 <= k < |all| ensures xs[b + k] == all[k] {
      assert xs[b..b + |all|][k] == xs[b + k];
    }
  }

  lemma ReadsPart(bits: seq<bool>, hashes: seq<Hash>, b: nat, u: nat, parent: bool, l: Encoding, r: Encoding)
    requires Reads(bits, hashes, b, u, Encoding([parent] + l.bits + r.bits, l.hashes + r.hashes))
    ensures b < |bits| && bits[b] == parent
    ensures Reads(bits, hashes, b + 1, u, l)
    ensures Reads(bits, hashes, b + 1 + |l.bits|, u + |l.hashes|, r)
  {
    var all := [parent] + l.bits + r.bits;
    SliceOf(bits, b, all, 1, 1 + |l.bits|);
    SliceOf(bits, b, all, 1 + |l.bits|, |all|);
    assert all[1..1 + |l.bits|] == l.bits && all[1 + |l.bits|..] == r.bits;
    assert bits[b + 0] == all[0];
    var hs := l.hashes + r.hashes;
    SliceOf(hashes, u, hs, 0, |l.hashes|);
    SliceOf(hashes, u, hs, |l.hashes|, |hs|);
    assert hs[..|l.hashes|] == l.hashes && hs[|l.hashes|..] == r.hashes;
  }

  lemma {:induction false} TraverseBuilt(
      H: (Hash, Hash) -> Hash, bits: seq<bool>, hashes: seq<Hash>, txids: seq<Hash>, match_: seq<bool>, h: nat,
      pos: nat, b: nat, u: nat)
    requires Injective(H) && Distinct(txids) && |match_| == |txids| && pos < TreeWidth(|txids|, h)
    requires Reads(bits, hashes, b, u, Build(H, h, pos, txids, match_))
    ensures Traverse(H, bits, hashes, |txids|, h, pos, b, u) == Expected(H, h, pos, txids, match_, b, u)
    decreases h
  {
    hide Pow2, TreeWidth, Injective, Distinct, ParentOfMatch, Reads, Expected, Traverse, CalcHash;
    var n := |txids|;
    var parent := ParentOfMatch(match_, h, pos);
    if h == 0 || !parent {
      LeafBuilt(H, bits, hashes, txids, match_, h, pos, b, u);
    } else {
      SpanSplits(n, h, pos);
      var left := Build(H, h - 1, pos * 2, txids, match_);
      var el := Expected(H, h - 1, pos * 2, txids, match_, b + 1, u);
      ExpectedEnds(H, h - 1, pos * 2, txids, match_, b + 1, u);
      if pos * 2 + 1 < TreeWidth(n, h - 1) {
        ReadsPart(bits, hashes, b, u, parent, left, Build(H, h - 1, pos * 2 + 1, txids, match_));
        TraverseBuilt(H, bits, hashes, txids, match_, h - 1, pos * 2, b + 1, u);
        TraverseBuilt(H, bits, hashes, txids, match_, h - 1, pos * 2 + 1, b + 1 + |left.bits|, u + |left.hashes|);
        SiblingsDiffer(H, h - 1, pos * 2, pos * 2 + 1, txids);
        ExpectedEnds(H, h - 1, pos * 2 + 1, txids, match_, el.bitsUsed, el.hashUsed);
        ExpectedTwo(H, h, pos, txids, match_, b, u);
        TraverseInner(H, bits, hashes, n, h, pos, b, u);
      } else {
        assert Encoding([parent] + left.bits + [], left.hashes + []) == Encoding([parent] + left.bits, left.hashes);
        ReadsPart(bits, hashes, b, u, parent, left, Encoding([], []));
        TraverseBuilt(H, bits, hashes, txids, match_, h - 1, pos * 2, b + 1, u);
        ExpectedOne(H, h, pos, txids, match_, b, u);
        TraverseInner(H, bits, hashes, n, h, pos, b, u);
      }
    }
  }

  /** A node the decoder descends into. */
  lemma TraverseInner(H: (Hash, Hash) -> Hash, bits: seq<bool>, hashes: seq<Hash>, n: nat, h: nat, pos: nat, b: nat, u: nat)
    requires h > 0 && b < |bits| && bits[b]
    ensures var l := Traverse(H, bits, hashes, n, h - 1, pos * 2, b + 1, u);
            var r := Traverse(H, bits, hashes, n, h - 1, pos * 2 + 1, l.bitsUsed, l.hashUsed);
            Traverse(H, bits, hashes, n, h, pos, b, u) ==
              if pos * 2 + 1 < TreeWidth(n, h - 1)
              then Extract(H(l.hash, r.hash), r.bitsUsed, r.hashUsed, l.bad || r.bad || r.hash == l.hash,
                           l.matches + r.matches, l.indexes + r.indexes)
              else l.(hash := H(l.hash, l.hash))
  {
  }

  lemma ExpectedEnds(H: (Hash, Hash) -> Hash, h: nat, pos: nat, txids: seq<Hash>, match_: seq<bool>, b: nat, u: nat)
    requires pos < TreeWidth(|txids|, h) && |match_| == |txids|
    ensures var x := Expected(H, h, pos, txids, match_, b, u);
            var e := Build(H, h, pos, txids, match_);
            x.bitsUsed == b + |e.bits| && x.hashUsed == u + |e.hashes| && !x.bad && x.hash == CalcHash(H, h, pos, txids)
  {
  }

  lemma ExpectedTwo(H: (Hash, Hash) -> Hash, h: nat, pos: nat, txids: seq<Hash>, match_: seq<bool>, b: nat, u: nat)
    requires h > 0 && pos < TreeWidth(|txids|, h) && |match_| == |txids| && ParentOfMatch(match_, h, pos)
    requires pos * 2 + 1 < TreeWidth(|txids|, h - 1)
    ensures var l := Expected(H, h - 1, pos * 2, txids, match_, b + 1, u);
            var r := Expected(H, h - 1, pos * 2 + 1, txids, match_, l.bitsUsed, l.hashUsed);
            Expected(H, h, pos, txids, match_, b, u) ==
              Extract(H(l.hash, r.hash), r.bitsUsed, r.hashUsed, false, l.matches + r.matches, l.indexes + r.indexes)
  {
    hide Pow2, TreeWidth, ParentOfMatch, MatchedIds, MatchedIndexes, SpanEnd;
    var n := |txids|;
    SpanSplits(n, h, pos);
    SpanStarts(n, h, pos);
    SpanStarts(n, h - 1, pos * 2);
    SpanStarts(n, h - 1, pos * 2 + 1);
    IndexesConcat(match_, pos * Pow2(h), SpanEnd(n, h - 1, pos * 2), SpanEnd(n, h, pos));
    IdsConcat(txids, match_, pos * Pow2(h), SpanEnd(n, h - 1, pos * 2), SpanEnd(n, h, pos));
  }

  lemma ExpectedOne(H: (Hash, Hash) -> Hash, h: nat, pos: nat, txids: seq<Hash>, match_: seq<bool>, b: nat, u: nat)
    requires h > 0 && pos < TreeWidth(|txids|, h) && |match_| == |txids| && ParentOfMatch(match_, h, pos)
    requires pos * 2 < TreeWidth(|txids|, h - 1) <= pos * 2 + 1
    ensures var l := Expected(H, h - 1, pos * 2, txids, match_, b + 1, u);
            Expected(H, h, pos, txids, match_, b, u) == l.(hash := H(l.hash, l.hash))
  {
    hide Pow2, TreeWidth, ParentOfMatch, MatchedIds, MatchedIndexes, SpanEnd;
    var n := |txids|;
    SpanSplits(n, h, pos);
    SpanStarts(n, h, pos);
    SpanStarts(n, h - 1, pos * 2);
  }

  lemma SiblingsDiffer(H: (Hash, Hash) -> Hash, h: nat, p: nat, q: nat, txids: seq<Hash>)
    requires Injective(H) && Distinct(txids) && p < TreeWidth(|txids|, h) && q < TreeWidth(|txids|, h) && p != q
    ensures CalcHash(H, h, p, txids) != CalcHash(H, h, q, txids)
  {
    if CalcHash(H, h, p, txids) == CalcHash(H, h, q, txids) {
      NodesDiffer(H, h, p, q, txids);
    }
  }

  lemma LeafBuilt(
      H: (Hash, Hash) -> Hash, bits: seq<bool>, hashes: seq<Hash>, txids: seq<Hash>, match_: seq<bool>, h: nat,
      pos: nat, b: nat, u: nat)
    requires |match_| == |txids| && pos < TreeWidth(|txids|, h) && (h == 0 || !ParentOfMatch(match_, h, pos))
    requires Reads(bits, hashes, b, u, Build(H, h, pos, txids, match_))
    ensures Traverse(H, bits, hashes, |txids|, h, pos, b, u) == Expected(H, h, pos, txids, match_, b, u)
  {
    var n := |txids|;
    var parent := ParentOfMatch(match_, h, pos);
    SpanStarts(n, h, pos);
    var e := Build(H, h, pos, txids, match_);
    assert e == Encoding([parent], [CalcHash(H, h, pos, txids)]);
    assert bits[b] == bits[b..b + 1][0] && hashes[u] == hashes[u..u + 1][0];
    if !parent {
      ParentIffMatched(match_, n, h, pos);
      MatchedNone(txids, match_, pos * Pow2(h), SpanEnd(n, h, pos));
    } else {
      assert Pow2(0) == 1 && SpanEnd(n, 0, pos) == pos + 1;
      assert MatchedIds(txids, match_, pos, pos + 1) == [txids[pos]] + MatchedIds(txids, match_, pos + 1, pos + 1);
      assert MatchedIndexes(match_, pos, pos + 1) == [pos] + MatchedIndexes(match_, pos + 1, pos + 1);
    }
  }

  // ----- the size of an encoding

  /** At most one hash is stored per leaf below the node, and at most one per level for each match, plus one. */
  lemma {:induction false} HashBounds(H: (Hash, Hash) -> Hash, h: nat, pos: nat, txids: seq<Hash>, match_: seq<bool>)
    requires |match_| == |txids| && pos < TreeWidth(|txids|, h)
    ensures pos * Pow2(h) < SpanEnd(|txids|, h, pos) <= |txids|
    ensures var stored := |Build(H, h, pos, txids, match_).hashes|;
            && 1 <= stored <= SpanEnd(|txids|, h, pos) - pos * Pow2(h)
            && stored <= 1 + |MatchedIndexes(match_, pos * Pow2(h), SpanEnd(|txids|, h, pos))| * h
    decreases h
  {
    hide Pow2, TreeWidth, ParentOfMatch, MatchedIds, MatchedIndexes, SpanEnd, CalcHash;
    var n := |txids|;
    SpanStarts(n, h, pos);
    ParentIffMatched(match_, n, h, pos);
    var m := |MatchedIndexes(match_, pos * Pow2(h), SpanEnd(n, h, pos))|;
    if h == 0 || !ParentOfMatch(match_, h, pos) {
      assert m * h >= 0;
    } else {
      SpanSplits(n, h, pos);
      MatchedSome(match_, pos * Pow2(h), SpanEnd(n, h, pos));
      HashBounds(H, h - 1, pos * 2, txids, match_);
      var ml := |MatchedIndexes(match_, (pos * 2) * Pow2(h - 1), SpanEnd(n, h - 1, pos * 2))|;
      if pos * 2 + 1 < TreeWidth(n, h - 1) {
        HashBounds(H, h - 1, pos * 2 + 1, txids, match_);
        IndexesConcat(match_, pos * Pow2(h), SpanEnd(n, h - 1, pos * 2), SpanEnd(n, h, pos));
        var mr := |MatchedIndexes(match_, (pos * 2 + 1) * Pow2(h - 1), SpanEnd(n, h - 1, pos * 2 + 1))|;
        TwoSubtrees(H, h, pos, txids, match_, ml, mr);
      } else {
        assert m == ml && m * h == m * (h - 1) + m;
      }
    }
  }

  lemma {:induction false} MatchedSome(match_: seq<bool>, lo: nat, hi: nat)
    requires lo <= hi <= |match_|
    ensures (exists i :: lo <= i < hi && match_[i]) <==> |MatchedIndexes(match_, lo, hi)| > 0
    decreases hi - lo
  {
    if lo < hi { MatchedSome(match_, lo + 1, hi); }
  }

  /** A subtree without a match stores a single hash. */
  lemma TwoSubtrees(H: (Hash, Hash) -> Hash, h: nat, pos: nat, txids: seq<Hash>, match_: seq<bool>, ml: nat, mr: nat)
    requires h > 0 && |match_| == |txids| && pos < TreeWidth(|txids|, h) && ml + mr > 0
    requires pos * 2 < TreeWidth(|txids|, h - 1) && pos * 2 + 1 < TreeWidth(|txids|, h - 1)
    requires |Build(H, h - 1, pos * 2, txids, match_).hashes| <= 1 + ml * (h - 1)
    requires |Build(H, h - 1, pos * 2 + 1, txids, match_).hashes| <= 1 + mr * (h - 1)
    ensures |Build(H, h - 1, pos * 2, txids, match_).hashes| + |Build(H, h - 1, pos * 2 + 1, txids, match_).hashes|
         <= 1 + (ml + mr) * h
  {
    assert (ml + mr) * h == ml * (h - 1) + mr * (h - 1) + (ml + mr);
  }

  /** The visited nodes that have only one child. */
  function Lonely(n: nat, match_: seq<bool>, h: nat, pos: nat): nat
    decreases h
  {
    if h == 0 || !ParentOfMatch(match_, h, pos) then 0
    else if pos * 2 + 1 < TreeWidth(n, h - 1) then Lonely(n, match_, h - 1, pos * 2) + Lonely(n, match_, h - 1, pos * 2 + 1)
    else 1 + Lonely(n, match_, h - 1, pos * 2)
  }

  /** The number of flag bits: twice the number of hashes less one, plus one for each visited one-child node. */
  lemma {:induction false} BitsExact(H: (Hash, Hash) -> Hash, h: nat, pos: nat, txids: seq<Hash>, match_: seq<bool>)
    requires pos < TreeWidth(|txids|, h)
    ensures var e := Build(H, h, pos, txids, match_);
            |e.bits| == 2 * |e.hashes| - 1 + Lonely(|txids|, match_, h, pos)
    decreases h
  {
    hide TreeWidth, ParentOfMatch, CalcHash;
    if h > 0 && ParentOfMatch(match_, h, pos) {
      Children(|txids|, h, pos);
      BitsExact(H, h - 1, pos * 2, txids, match_);
      if pos * 2 + 1 < TreeWidth(|txids|, h - 1) { BitsExact(H, h - 1, pos * 2 + 1, txids, match_); }
    }
  }

  /** The first leaf below the last node of a level. */
  function LastStart(n: nat, h: nat): nat {
    if TreeWidth(n, h) == 0 then 0 else (TreeWidth(n, h) - 1) * Pow2(h)
  }

  /** Some matched transaction lies below a node with only one child, on one of the levels 1 to h. */
  predicate LonelyMatch(n: nat, match_: seq<bool>, h: nat) {
    h > 0 && (
      (TreeWidth(n, h - 1) % 2 == 1 && AnyMatch(match_, LastStart(n, h), n))
      || LonelyMatch(n, match_, h - 1))
  }

  /** Only the last node of a level can have a one-child node below it. */
  lemma {:induction false} InnerNotLonely(n: nat, match_: seq<bool>, h: nat, pos: nat)
    requires pos + 1 < TreeWidth(n, h)
    ensures Lonely(n, match_, h, pos) == 0
    decreases h
  {
    hide TreeWidth, ParentOfMatch;
    if h > 0 {
      WidthHalves(n, h);
      InnerNotLonely(n, match_, h - 1, pos * 2);
      InnerNotLonely(n, match_, h - 1, pos * 2 + 1);
    }
  }

  /** The last node of a level starts no earlier than the last node of the level above. */
  lemma LastStarts(n: nat, h: nat)
    requires h > 0 && n > 0
    ensures TreeWidth(n, h) > 0 && TreeWidth(n, h - 1) > 0
    ensures LastStart(n, h - 1) >= LastStart(n, h)
  {
    WidthPositive(n, h);
    WidthPositive(n, h - 1);
    WidthHalves(n, h);
    var last := TreeWidth(n, h) - 1;
    ChildSpan(h, last);
    MulLe(last * 2, TreeWidth(n, h - 1) - 1, Pow2(h - 1));
  }

  lemma {:induction false} NoLateMatch(n: nat, match_: seq<bool>, h: nat)
    requires n > 0 && !AnyMatch(match_, LastStart(n, h), n)
    ensures !LonelyMatch(n, match_, h)
  {
    hide TreeWidth, Pow2, AnyMatch, LastStart;
    if h > 0 {
      LastStarts(n, h);
      MatchFrom(match_, LastStart(n, h), LastStart(n, h - 1), n);
      NoLateMatch(n, match_, h - 1);
    }
  }

  lemma MatchFrom(match_: seq<bool>, p: int, q: int, end: nat)
    requires 0 <= p <= q
    ensures AnyMatch(match_, q, end) ==> AnyMatch(match_, p, end)
  {
  }

  lemma LastParent(n: nat, match_: seq<bool>, h: nat)
    requires n > 0 && n == |match_|
    ensures TreeWidth(n, h) > 0
    ensures ParentOfMatch(match_, h, TreeWidth(n, h) - 1) <==> AnyMatch(match_, LastStart(n, h), n)
  {
    WidthPositive(n, h);
    CeilDiv(n, Pow2(h), TreeWidth(n, h));
  }

  lemma {:induction false} LonelyIff(n: nat, match_: seq<bool>, h: nat)
    requires n > 0 && n == |match_|
    ensures TreeWidth(n, h) > 0
    ensures Lonely(n, match_, h, TreeWidth(n, h) - 1) > 0 <==> LonelyMatch(n, match_, h)
  {
    hide TreeWidth, Pow2, ParentOfMatch, AnyMatch, LastStart;
    LastParent(n, match_, h);
    if h > 0 {
      var last := TreeWidth(n, h) - 1;
      LastParent(n, match_, h - 1);
      WidthHalves(n, h);
      if !ParentOfMatch(match_, h, last) {
        NoLateMatch(n, match_, h);
      } else {
        LonelyIff(n, match_, h - 1);
        if last * 2 + 1 < TreeWidth(n, h - 1) { InnerNotLonely(n, match_, h - 1, last * 2); }
      }
    }
  }

  /** The documented limit of 2*N-1 flag bits for N hashes holds exactly when no matched transaction lies below
      a one-child node. */
  lemma BitLimitIff(H: (Hash, Hash) -> Hash, txids: seq<Hash>, match_: seq<bool>)
    requires |txids| == |match_| > 0
    ensures var h := TreeHeight(|txids|, 0);
            var e := Build(H, h, 0, txids, match_);
            |e.bits| <= 2 * |e.hashes| - 1 <==> !LonelyMatch(|txids|, match_, h)
  {
    var h := TreeHeight(|txids|, 0);
    BitsExact(H, h, 0, txids, match_);
    LonelyIff(|txids|, match_, h);
  }

  lemma ThreeLeaves()
    ensures TreeHeight(3, 0) == 2 && LonelyMatch(3, [false, false, true], 2)
  {
    hide TreeWidth, Pow2, LastStart;
    ThreeWide();
    var m := [false, false, true];
    assert TreeHeight(3, 1) == 2;
    assert AnyMatch(m, 2, 3) by { assert m[2]; }
    assert LonelyMatch(3, m, 1);
  }

  lemma ThreeWide()
    ensures TreeWidth(3, 0) == 3 && TreeWidth(3, 1) == 2 && TreeWidth(3, 2) == 1 && LastStart(3, 1) == 2
  {
    assert Pow2(0) == 1 && Pow2(1) == 2 && Pow2(2) == 4;
  }

  /** Three transactions of which the last is matched exceed the limit. */
  lemma BitLimitExceeded(H: (Hash, Hash) -> Hash, a: Hash, b: Hash, c: Hash)
    ensures var e := Build(H, TreeHeight(3, 0), 0, [a, b, c], [false, false, true]);
            |e.bits| > 2 * |e.hashes| - 1
  {
    hide Build, LonelyMatch, TreeHeight;
    ThreeLeaves();
    BitLimitIff(H, [a, b, c], [false, false, true]);
  }
}
