/** The partial Merkle tree object: the recursive builder and extractor that advance shared vectors and cursors,
    and the packing of the flag bits into bytes. */
module MerkleBlock {
  import opened Powers
  import opened Consensus
  import opened MerkleTree
  import opened MerkleRoundTrip

  // ----- flag bits as bytes, least significant bit first

  /** The mask 1 << k. */
  function Mask(k: nat): bv8
    requires k < 8
  {
    [1, 2, 4, 8, 16, 32, 64, 128][k]
  }

  predicate BitOf(x: bv8, k: nat)
    requires k < 8
  {
    x & Mask(k) != 0
  }

  predicate BitAt(bytes: seq<bv8>, p: nat)
    requires p < 8 * |bytes|
  {
    BitOf(bytes[p / 8], p % 8)
  }

  lemma SetBit(x: bv8, k: nat, j: nat, v: bool)
    requires k < 8 && j < 8
    ensures BitOf(x | (if v then Mask(k) else 0), j) <==> BitOf(x, j) || (j == k && v)
  {
    if k == j {
      assert (x | Mask(k)) & Mask(k) != 0 by { OwnBit(x, k); }
    } else {
      OtherBit(x, k, j);
    }
  }

  lemma OwnBit(x: bv8, k: nat)
    requires k < 8
    ensures (x | Mask(k)) & Mask(k) != 0
  {
  }

  lemma OtherBit(x: bv8, k: nat, j: nat)
    requires k < 8 && j < 8 && k != j
    ensures (x | Mask(k)) & Mask(j) == x & Mask(j)
  {
  }

  /** The bits filled up with zeros to whole bytes. */
  function Padded(bits: seq<bool>): (r: seq<bool>)
    ensures |r| == 8 * ((|bits| + 7) / 8) && bits <= r
    ensures forall p :: |bits| <= p < |r| ==> !r[p]
  {
    bits + seq(8 * ((|bits| + 7) / 8) - |bits|, _ => false)
  }

  method Pack(bits: seq<bool>) returns (bytes: seq<bv8>)
    ensures |bytes| == (|bits| + 7) / 8
    ensures forall p :: 0 <= p < 8 * |bytes| ==> (BitAt(bytes, p) <==> p < |bits| && bits[p])
  {
    bytes := seq((|bits| + 7) / 8, _ => 0);
    var p: nat := 0;
    while p < |bits|
      invariant p <= |bits| && |bytes| == (|bits| + 7) / 8
      invariant forall q :: 0 <= q < 8 * |bytes| ==> (BitAt(bytes, q) <==> q < p && bits[q])
    {
      ghost var before := bytes;
      bytes := bytes[p / 8 := bytes[p / 8] | (if bits[p] then Mask(p % 8) else 0)];
      forall q | 0 <= q < 8 * |bytes| ensures BitAt(bytes, q) <==> q < p + 1 && bits[q] {
        assert BitAt(before, q) <==> q < p && bits[q];
        if q / 8 == p / 8 { SetBit(before[p / 8], p % 8, q % 8, bits[p]); }
      }
      p := p + 1;
    }
  }

  method Unpack(bytes: seq<bv8>) returns (bits: seq<bool>)
    ensures |bits| == 8 * |bytes|
    ensures forall p :: 0 <= p < |bits| ==> (bits[p] <==> BitAt(bytes, p))
  {
    bits := [];
    var p: nat := 0;
    while p < 8 * |bytes|
      invariant p <= 8 * |bytes| && |bits| == p
      invariant forall q :: 0 <= q < p ==> (bits[q] <==> BitAt(bytes, q))
    {
      bits := bits + [bytes[p / 8] & Mask(p % 8) != 0];
      p := p + 1;
    }
  }

  // ----- the whole way

  /** Extraction from a padded encoding: the true root, and exactly the matched transactions with their positions. */
  lemma ExtractBuilt(H: (Hash, Hash) -> Hash, txids: seq<Hash>, match_: seq<bool>)
    requires Injective(H) && Distinct(txids)
    requires |txids| == |match_| && 0 < |txids| <= MAX_BLOCK_WEIGHT / MIN_TRANSACTION_WEIGHT
    ensures var n := |txids|;
            var e := Build(H, TreeHeight(n, 0), 0, txids, match_);
            && ExtractMatches(H, Tree(n, Padded(e.bits), e.hashes))
                 == (MerkleRoot(H, txids), MatchedIds(txids, match_, 0, n), MatchedIndexes(match_, 0, n))
            && |e.hashes| <= n
            && |e.hashes| <= 1 + |MatchedIndexes(match_, 0, n)| * TreeHeight(n, 0)
  {
    hide Build, CalcHash, TreeWidth, Pow2, MatchedIds, MatchedIndexes, Traverse, Lonely, Injective, Distinct,
         Reads, Expected, Padded, TreeHeight;
    var n := |txids|;
    var h := TreeHeight(n, 0);
    var e := Build(H, h, 0, txids, match_);
    var bits := Padded(e.bits);
    RootSpan(n, h);
    HashBounds(H, h, 0, txids, match_);
    BitsExact(H, h, 0, txids, match_);
    ReadsPadded(e);
    TraverseBuilt(H, bits, e.hashes, txids, match_, h, 0, 0, 0);
    ExpectedRoot(H, h, txids, match_);
  }

  lemma ReadsPadded(e: Encoding)
    ensures Reads(Padded(e.bits), e.hashes, 0, 0, e)
  {
    assert Padded(e.bits)[0..0 + |e.bits|] == e.bits && e.hashes[0..0 + |e.hashes|] == e.hashes;
  }

  /** All leaves are below the root. */
  lemma RootSpan(n: nat, h: nat)
    requires n > 0 && TreeWidth(n, h) == 1
    ensures SpanEnd(n, h, 0) == n && 0 * Pow2(h) == 0
  {
    CeilDiv(n, Pow2(h), 1);
  }

  lemma ExpectedRoot(H: (Hash, Hash) -> Hash, h: nat, txids: seq<Hash>, match_: seq<bool>)
    requires |txids| == |match_| > 0 && TreeWidth(|txids|, h) == 1
    ensures var e := Build(H, h, 0, txids, match_);
            Expected(H, h, 0, txids, match_, 0, 0) ==
              Extract(CalcHash(H, h, 0, txids), |e.bits|, |e.hashes|, false,
                      MatchedIds(txids, match_, 0, |txids|), MatchedIndexes(match_, 0, |txids|))
  {
    RootSpan(|txids|, h);
  }

  /** What is sent: the number of transactions, the hashes, and the flag bits as bytes. */
  datatype Wire = Wire(n: nat, hashes: seq<Hash>, bytes: seq<bv8>)

  class PartialMerkleTree {
    var nTransactions: nat
    var vBits: seq<bool>
    var vHash: seq<Hash>
    var fBad: bool

    ghost function Value(): Tree
      reads this
    {
      Tree(nTransactions, vBits, vHash)
    }

    /** Encodes the matched transactions of a block. */
    constructor (H: (Hash, Hash) -> Hash, txids: seq<Hash>, match_: seq<bool>)
      requires |txids| == |match_| > 0
      ensures !fBad
      ensures var e := Build(H, TreeHeight(|txids|, 0), 0, txids, match_);
              Value() == Tree(|txids|, e.bits, e.hashes)
    {
      nTransactions, fBad, vBits, vHash := |txids|, false, [], [];
      new;
      var height := ComputeHeight(|txids|);
      TraverseAndBuild(H, height, 0, txids, match_);
    }

    constructor Deserialize(w: Wire)
      ensures nTransactions == w.n && vHash == w.hashes && !fBad && |vBits| == 8 * |w.bytes|
      ensures forall p :: 0 <= p < |vBits| ==> (vBits[p] <==> BitAt(w.bytes, p))
    {
      nTransactions, vHash, fBad := w.n, w.hashes, false;
      vBits := [];
      new;
      vBits := Unpack(w.bytes);
    }

    method Serialize() returns (w: Wire)
      ensures w.n == nTransactions && w.hashes == vHash && |w.bytes| == (|vBits| + 7) / 8
      ensures forall p :: 0 <= p < 8 * |w.bytes| ==> (BitAt(w.bytes, p) <==> p < |vBits| && vBits[p])
    {
      var bytes := Pack(vBits);
      w := Wire(nTransactions, vHash, bytes);
    }

    static method ComputeHeight(n: nat) returns (h: nat)
      ensures h == TreeHeight(n, 0)
    {
      h := 0;
      while TreeWidth(n, h) > 1
        invariant TreeHeight(n, h) == TreeHeight(n, 0)
        decreases TreeWidth(n, h)
      {
        WidthHalves(n, h + 1);
        h := h + 1;
      }
    }

    method TraverseAndBuild(H: (Hash, Hash) -> Hash, h: nat, pos: nat, txids: seq<Hash>, match_: seq<bool>)
      requires |txids| == |match_| == nTransactions && pos < TreeWidth(|txids|, h)
      modifies this
      ensures nTransactions == old(nTransactions) && fBad == old(fBad)
      ensures var e := Build(H, h, pos, txids, match_);
              vBits == old(vBits) + e.bits && vHash == old(vHash) + e.hashes
      decreases h
    {
      hide TreeWidth, CalcHash, Build, ParentOfMatch;
      ghost var bits, hashes := vBits, vHash;
      BuildUnfolds(H, h, pos, txids, match_);
      var parent := ScanMatches(h, pos, match_);
      vBits := vBits + [parent];
      if h == 0 || !parent {
        vHash := vHash + [CalcHash(H, h, pos, txids)];
      } else {
        Children(|txids|, h, pos);
        ghost var left := Build(H, h - 1, pos * 2, txids, match_);
        TraverseAndBuild(H, h - 1, pos * 2, txids, match_);
        assert vBits == bits + ([parent] + left.bits);
        if pos * 2 + 1 < TreeWidth(|txids|, h - 1) {
          ghost var right := Build(H, h - 1, pos * 2 + 1, txids, match_);
          TraverseAndBuild(H, h - 1, pos * 2 + 1, txids, match_);
          assert vBits == bits + ([parent] + left.bits + right.bits);
          assert vHash == hashes + (left.hashes + right.hashes);
        }
      }
    }

    /** Whether the node is the parent of at least one matched transaction. */
    static method ScanMatches(h: nat, pos: nat, match_: seq<bool>) returns (parent: bool)
      ensures parent == ParentOfMatch(match_, h, pos)
    {
      hide Pow2;
      parent := false;
      var p := pos * Pow2(h);
      var end := (pos + 1) * Pow2(h);
      ghost var start := p;
      assert start >= 0 && end >= start by { ScanBounds(h, pos); }
      while p < end && p < |match_|
        invariant start <= p <= end && (p == start || p <= |match_|)
        invariant parent <==> exists i :: start <= i < p && i < |match_| && match_[i]
      {
        parent := parent || match_[p];
        p := p + 1;
      }
    }

    /** Reads the encoding of a node, advancing both cursors and collecting the matches. */
    method TraverseAndExtract(H: (Hash, Hash) -> Hash, h: nat, pos: nat, b: nat, u: nat)
      returns (hash: Hash, b': nat, u': nat, matches: seq<Hash>, indexes: seq<nat>)
      modifies this`fBad
      ensures var e := Traverse(H, vBits, vHash, nTransactions, h, pos, b, u);
              && Extract(hash, b', u', e.bad, matches, indexes) == e
              && fBad == (old(fBad) || e.bad)
      decreases h
    {
      hide TreeWidth;
      b', u', matches, indexes := b, u, [], [];
      if b' >= |vBits| {
        fBad := true;
        hash := NULL_HASH;
        return;
      }
      var parent := vBits[b'];
      b' := b' + 1;
      if h == 0 || !parent {
        if u' >= |vHash| {
          fBad := true;
          hash := NULL_HASH;
          return;
        }
        hash := vHash[u'];
        u' := u' + 1;
        if h == 0 && parent {
          matches, indexes := [hash], [pos];
        }
      } else {
        var left;
        left, b', u', matches, indexes := TraverseAndExtract(H, h - 1, pos * 2, b', u');
        var right := left;
        if pos * 2 + 1 < TreeWidth(nTransactions, h - 1) {
          var m, i;
          right, b', u', m, i := TraverseAndExtract(H, h - 1, pos * 2 + 1, b', u');
          matches, indexes := matches + m, indexes + i;
          if right == left {
            // The transaction hashes covered by the two branches must be unique.
            fBad := true;
          }
        }
        hash := H(left, right);
      }
    }

    method ExtractMatches(H: (Hash, Hash) -> Hash) returns (root: Hash, matches: seq<Hash>, indexes: seq<nat>)
      requires !fBad
      modifies this`fBad
      ensures (root, matches, indexes) == MerkleTree.ExtractMatches(H, Value())
    {
      if nTransactions == 0 || nTransactions > MAX_BLOCK_WEIGHT / MIN_TRANSACTION_WEIGHT {
        return NULL_HASH, [], [];
      }
      if |vHash| > nTransactions || |vBits| < |vHash| {
        return NULL_HASH, [], [];
      }
      hide Traverse, TreeHeight;
      var height := ComputeHeight(nTransactions);
      var b, u;
      root, b, u, matches, indexes := TraverseAndExtract(H, height, 0, 0, 0);
      if fBad || (b + 7) / 8 != (|vBits| + 7) / 8 || u != |vHash| {
        root := NULL_HASH;
      }
    }
  }

  lemma BuildUnfolds(H: (Hash, Hash) -> Hash, h: nat, pos: nat, txids: seq<Hash>, match_: seq<bool>)
    requires pos < TreeWidth(|txids|, h)
    ensures h > 0 ==> pos * 2 < TreeWidth(|txids|, h - 1)
    ensures var parent := ParentOfMatch(match_, h, pos);
            Build(H, h, pos, txids, match_) ==
              if h == 0 || !parent then Encoding([parent], [CalcHash(H, h, pos, txids)])
              else
                var left := Build(H, h - 1, pos * 2, txids, match_);
                if pos * 2 + 1 < TreeWidth(|txids|, h - 1) then
                  var right := Build(H, h - 1, pos * 2 + 1, txids, match_);
                  Encoding([parent] + left.bits + right.bits, left.hashes + right.hashes)
                else Encoding([parent] + left.bits, left.hashes)
  {
    if h > 0 { Children(|txids|, h, pos); }
  }

  lemma ScanBounds(h: nat, pos: nat)
    ensures 0 <= pos * Pow2(h) <= (pos + 1) * Pow2(h)
  {
    MulLe(pos, pos + 1, Pow2(h));
  }

  /** A block's matched transactions sent as bytes and extracted by the receiver. */
  method SendAndExtract(H: (Hash, Hash) -> Hash, txids: seq<Hash>, match_: seq<bool>)
    returns (root: Hash, matches: seq<Hash>, indexes: seq<nat>)
    requires Injective(H) && Distinct(txids)
    requires |txids| == |match_| && 0 < |txids| <= MAX_BLOCK_WEIGHT / MIN_TRANSACTION_WEIGHT
    ensures root == MerkleRoot(H, txids)
    ensures matches == MatchedIds(txids, match_, 0, |txids|) && indexes == MatchedIndexes(match_, 0, |txids|)
  {
    ExtractBuilt(H, txids, match_);
    hide Injective, Distinct, Build, MerkleTree.ExtractMatches, TreeHeight, MerkleRoot, MatchedIds, MatchedIndexes;
    var sender := new PartialMerkleTree(H, txids, match_);
    ghost var bits := sender.vBits;
    var w := sender.Serialize();
    var receiver := new PartialMerkleTree.Deserialize(w);
    assert receiver.vBits == Padded(bits);
    root, matches, indexes := receiver.ExtractMatches(H);
  }
}
