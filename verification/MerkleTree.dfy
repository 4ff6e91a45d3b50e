/** Partial Merkle trees: the tree over a block's transaction ids, its pruned encoding for a set of matched
    transactions, and the decoder that authenticates the matches. */
module MerkleTree {
  import opened Powers
  import opened Consensus

  /** Hashes are not interpreted; zero is the null hash. */
  type Hash = nat
  const NULL_HASH: Hash := 0

  ghost predicate Injective(H: (Hash, Hash) -> Hash) {
    forall a, b, c, d :: H(a, b) == H(c, d) ==> a == c && b == d
  }

  // ----- the shape of the tree

  /** The number of nodes at a height above n leaves. */
  function TreeWidth(n: nat, h: nat): nat {
    (n + Pow2(h) - 1) / Pow2(h)
  }

  lemma CeilDiv(n: nat, d: nat, w: int)
    requires d > 0
    ensures w == (n + d - 1) / d <==> (w - 1) * d < n <= w * d
  {
    var q := (n + d - 1) / d;
    assert q * d <= n + d - 1 < q * d + d;
    assert (q - 1) * d == q * d - d;
    MulLe(q, w - 1, d);
    MulLe(w, q - 1, d);
  }

  lemma MulLe(a: int, b: int, d: nat)
    ensures a <= b ==> a * d <= b * d
  {
    assert (b - a) * d == b * d - a * d;
  }

  lemma Double(v: int, p: int)
    ensures v * (2 * p) == (2 * v) * p
  {
  }

  lemma CeilHalf(n: nat, p: nat)
    requires p > 0
    ensures (n + 2 * p - 1) / (2 * p) == ((n + p - 1) / p + 1) / 2
  {
    var w := (n + p - 1) / p;
    var v: int := (w + 1) / 2;
    CeilDiv(n, p, w);
    Double(v - 1, p);
    Double(v, p);
    MulLe(2 * v - 2, w - 1, p);
    MulLe(w, 2 * v, p);
    CeilDiv(n, 2 * p, v);
  }

  /** Each level is half as wide as the one below, rounded up. */
  lemma WidthHalves(n: nat, h: nat)
    requires h > 0
    ensures TreeWidth(n, h) == (TreeWidth(n, h - 1) + 1) / 2
  {
    CeilHalf(n, Pow2(h - 1));
  }

  /** The leaves below a node are those below its two possible children. */
  lemma ChildSpan(h: nat, pos: nat)
    requires h > 0
    ensures pos * Pow2(h) == (pos * 2) * Pow2(h - 1)
    ensures (pos * 2 + 1) * Pow2(h - 1) == pos * Pow2(h) + Pow2(h - 1)
    ensures (pos + 1) * Pow2(h) == (pos * 2 + 1 + 1) * Pow2(h - 1) == pos * Pow2(h) + 2 * Pow2(h - 1)
  {
    Double(pos, Pow2(h - 1));
    Double(pos + 1, Pow2(h - 1));
  }

  lemma WidthAtLeaves(n: nat)
    ensures TreeWidth(n, 0) == n
  {
  }

  /** The children of a node exist: the left one always, the right one unless it would be past the end. */
  lemma Children(n: nat, h: nat, pos: nat)
    requires h > 0 && pos < TreeWidth(n, h)
    ensures pos * 2 < TreeWidth(n, h - 1)
    ensures pos * 2 + 1 < TreeWidth(n, h - 1) || pos == TreeWidth(n, h) - 1
  {
    WidthHalves(n, h);
  }

  /** The height of the root, counted up as the constructor does. */
  function TreeHeight(n: nat, h: nat): (r: nat)
    ensures h <= r && TreeWidth(n, r) <= 1
    ensures n > 0 ==> TreeWidth(n, r) == 1
    decreases TreeWidth(n, h)
  {
    WidthHalves(n, h + 1);
    if TreeWidth(n, h) > 1 then TreeHeight(n, h + 1) else (WidthPositive(n, h); h)
  }

  lemma {:induction false} WidthPositive(n: nat, h: nat)
    ensures n > 0 ==> TreeWidth(n, h) > 0
  {
    CeilDiv(n, Pow2(h), TreeWidth(n, h));
  }

  // ----- hashes

  /** The hash of a node; a missing right child counts as a copy of the left one. */
  function CalcHash(H: (Hash, Hash) -> Hash, h: nat, pos: nat, txids: seq<Hash>): Hash
    requires pos < TreeWidth(|txids|, h)
    decreases h
  {
    if h == 0 then txids[pos]
    else
      Children(|txids|, h, pos);
      var left := CalcHash(H, h - 1, pos * 2, txids);
      var right := if pos * 2 + 1 < TreeWidth(|txids|, h - 1) then CalcHash(H, h - 1, pos * 2 + 1, txids) else left;
      H(left, right)
  }

  function MerkleRoot(H: (Hash, Hash) -> Hash, txids: seq<Hash>): Hash
    requires |txids| > 0
  {
    CalcHash(H, TreeHeight(|txids|, 0), 0, txids)
  }

  ghost predicate Distinct(txids: seq<Hash>) {
    forall i, j :: 0 <= i < j < |txids| ==> txids[i] != txids[j]
  }

  /** With distinct leaves, different nodes of one level have different hashes. */
  lemma {:induction false} NodesDiffer(H: (Hash, Hash) -> Hash, h: nat, p: nat, q: nat, txids: seq<Hash>)
    requires Injective(H) && Distinct(txids) && p < TreeWidth(|txids|, h) && q < TreeWidth(|txids|, h)
    requires CalcHash(H, h, p, txids) == CalcHash(H, h, q, txids)
    ensures p == q
    decreases h
  {
    if h > 0 {
      Children(|txids|, h, p);
      Children(|txids|, h, q);
      NodesDiffer(H, h - 1, p * 2, q * 2, txids);
    }
  }

  // ----- encoding

  /** Whether a transaction below the node is matched; the loop of TraverseAndBuild from leaf p on. */
  predicate AnyMatch(match_: seq<bool>, p: nat, end: nat) {
    exists i :: p <= i < end && i < |match_| && match_[i]
  }

  predicate ParentOfMatch(match_: seq<bool>, h: nat, pos: nat) {
    AnyMatch(match_, pos * Pow2(h), (pos + 1) * Pow2(h))
  }

  datatype Encoding = Encoding(bits: seq<bool>, hashes: seq<Hash>)

  /** What TraverseAndBuild appends for a node: depth first, a bit per visited node, and a hash where it stops. */
  function Build(H: (Hash, Hash) -> Hash, h: nat, pos: nat, txids: seq<Hash>, match_: seq<bool>): Encoding
    requires pos < TreeWidth(|txids|, h)
    decreases h
  {
    var parent := ParentOfMatch(match_, h, pos);
    if h == 0 || !parent then Encoding([parent], [CalcHash(H, h, pos, txids)])
    else
      Children(|txids|, h, pos);
      var left := Build(H, h - 1, pos * 2, txids, match_);
      if pos * 2 + 1 < TreeWidth(|txids|, h - 1) then
        var right := Build(H, h - 1, pos * 2 + 1, txids, match_);
        Encoding([parent] + left.bits + right.bits, left.hashes + right.hashes)
      else Encoding([parent] + left.bits, left.hashes)
  }

  // ----- decoding

  /** What TraverseAndExtract returns, how far it has read, and what it has found. */
  datatype Extract = Extract(hash: Hash, bitsUsed: nat, hashUsed: nat, bad: bool, matches: seq<Hash>, indexes: seq<nat>)

  function Traverse(H: (Hash, Hash) -> Hash, bits: seq<bool>, hashes: seq<Hash>, n: nat, h: nat, pos: nat,
        b: nat, u: nat): Extract
    decreases h
  {
    if b >= |bits| then Extract(NULL_HASH, b, u, true, [], [])
    else
      var parent := bits[b];
      if h == 0 || !parent then
        if u >= |hashes| then Extract(NULL_HASH, b + 1, u, true, [], [])
        else Extract(hashes[u], b + 1, u + 1, false,
                     if h == 0 && parent then [hashes[u]] else [], if h == 0 && parent then [pos] else [])
      else
        var l := Traverse(H, bits, hashes, n, h - 1, pos * 2, b + 1, u);
        if pos * 2 + 1 < TreeWidth(n, h - 1) then
          var r := Traverse(H, bits, hashes, n, h - 1, pos * 2 + 1, l.bitsUsed, l.hashUsed);
          Extract(H(l.hash, r.hash), r.bitsUsed, r.hashUsed, l.bad || r.bad || r.hash == l.hash,
                  l.matches + r.matches, l.indexes + r.indexes)
        else l.(hash := H(l.hash, l.hash))
  }

  datatype Tree = Tree(n: nat, bits: seq<bool>, hashes: seq<Hash>)

  /** The root and the matches with their positions; the null hash on failure. */
  function ExtractMatches(H: (Hash, Hash) -> Hash, t: Tree): (Hash, seq<Hash>, seq<nat>) {
    if t.n == 0 || t.n > MAX_BLOCK_WEIGHT / MIN_TRANSACTION_WEIGHT || |t.hashes| > t.n || |t.bits| < |t.hashes| then
      (NULL_HASH, [], [])
    else
      var e := Traverse(H, t.bits, t.hashes, t.n, TreeHeight(t.n, 0), 0, 0, 0);
      var ok := !e.bad && (e.bitsUsed + 7) / 8 == (|t.bits| + 7) / 8 && e.hashUsed == |t.hashes|;
      (if ok then e.hash else NULL_HASH, e.matches, e.indexes)
  }

  // ----- soundness

  /** The reported transactions are at the reported positions, in order, all within the leaves lo..hi. */
  ghost predicate Authentic(txids: seq<Hash>, matches: seq<Hash>, indexes: seq<nat>, lo: int, hi: int) {
    && |matches| == |indexes|
    && (forall i :: 0 <= i < |indexes| ==> lo <= indexes[i] < hi && indexes[i] < |txids| && txids[indexes[i]] == matches[i])
    && (forall i, j :: 0 <= i < j < |indexes| ==> indexes[i] < indexes[j])
  }

  lemma AuthenticConcat(txids: seq<Hash>, m1: seq<Hash>, i1: seq<nat>, m2: seq<Hash>, i2: seq<nat>, lo: int, mid: int, hi: int)
    requires Authentic(txids, m1, i1, lo, mid) && Authentic(txids, m2, i2, mid, hi) && lo <= mid <= hi
    ensures Authentic(txids, m1 + m2, i1 + i2, lo, hi)
  {
    var ix := i1 + i2;
    forall i, j | 0 <= i < j < |ix| ensures ix[i] < ix[j] {
      if i < |i1| { assert ix[i] == i1[i]; } else { assert ix[i] == i2[i - |i1|]; }
      if j < |i1| { assert ix[j] == i1[j]; } else { assert ix[j] == i2[j - |i1|]; }
    }
  }

  /** A traversal that ends well with the true hash of its node has found only true transactions of the block,
      whatever bits and hashes it was fed. */
  lemma {:induction false} TraverseSound(
      H: (Hash, Hash) -> Hash, bits: seq<bool>, hashes: seq<Hash>, txids: seq<Hash>, h: nat, pos: nat, b: nat, u: nat)
    requires Injective(H) && pos < TreeWidth(|txids|, h)
    requires var e := Traverse(H, bits, hashes, |txids|, h, pos, b, u);
             !e.bad && e.hash == CalcHash(H, h, pos, txids)
    ensures var e := Traverse(H, bits, hashes, |txids|, h, pos, b, u);
            Authentic(txids, e.matches, e.indexes, pos * Pow2(h), (pos + 1) * Pow2(h))
    decreases h
  {
    hide Pow2, TreeWidth, Authentic, Injective, Traverse, CalcHash;
    var n := |txids|;
    var e := Traverse(H, bits, hashes, n, h, pos, b, u);
    if h > 0 && b < |bits| && bits[b] {
      Children(n, h, pos);
      ChildSpan(h, pos);
      TraverseChildren(H, bits, hashes, n, h, pos, b, u);
      HashChildren(H, h, pos, txids);
      var mid := (pos * 2 + 1) * Pow2(h - 1);
      var l := Traverse(H, bits, hashes, n, h - 1, pos * 2, b + 1, u);
      var left := CalcHash(H, h - 1, pos * 2, txids);
      if pos * 2 + 1 < TreeWidth(n, h - 1) {
        var r := Traverse(H, bits, hashes, n, h - 1, pos * 2 + 1, l.bitsUsed, l.hashUsed);
        InjectiveAt(H, l.hash, r.hash, left, CalcHash(H, h - 1, pos * 2 + 1, txids));
        TraverseSound(H, bits, hashes, txids, h - 1, pos * 2, b + 1, u);
        TraverseSound(H, bits, hashes, txids, h - 1, pos * 2 + 1, l.bitsUsed, l.hashUsed);
        AuthenticConcat(txids, l.matches, l.indexes, r.matches, r.indexes, pos * Pow2(h), mid, (pos + 1) * Pow2(h));
      } else {
        InjectiveAt(H, l.hash, l.hash, left, left);
        TraverseSound(H, bits, hashes, txids, h - 1, pos * 2, b + 1, u);
        AuthenticWiden(txids, l.matches, l.indexes, pos * Pow2(h), mid, (pos + 1) * Pow2(h));
      }
    } else {
      TraverseEnds(H, bits, hashes, n, h, pos, b, u);
      WidthAtLeaves(n);
      HashLeaf(H, pos, txids);
      LeafAuthentic(txids, e.matches, e.indexes, h, pos);
    }
  }

  lemma TraverseChildren(H: (Hash, Hash) -> Hash, bits: seq<bool>, hashes: seq<Hash>, n: nat, h: nat, pos: nat, b: nat, u: nat)
    requires h > 0 && b < |bits| && bits[b]
    ensures var e, l := Traverse(H, bits, hashes, n, h, pos, b, u), Traverse(H, bits, hashes, n, h - 1, pos * 2, b + 1, u);
            if pos * 2 + 1 < TreeWidth(n, h - 1) then
              var r := Traverse(H, bits, hashes, n, h - 1, pos * 2 + 1, l.bitsUsed, l.hashUsed);
              && e.hash == H(l.hash, r.hash) && e.bad == (l.bad || r.bad || r.hash == l.hash)
              && e.matches == l.matches + r.matches && e.indexes == l.indexes + r.indexes
            else e.hash == H(l.hash, l.hash) && e.bad == l.bad && e.matches == l.matches && e.indexes == l.indexes
  {
    hide TreeWidth;
  }

  lemma TraverseEnds(H: (Hash, Hash) -> Hash, bits: seq<bool>, hashes: seq<Hash>, n: nat, h: nat, pos: nat, b: nat, u: nat)
    requires h == 0 || b >= |bits| || !bits[b]
    ensures var e := Traverse(H, bits, hashes, n, h, pos, b, u);
            (e.matches == [] && e.indexes == []) || (h == 0 && e.matches == [e.hash] && e.indexes == [pos])
  {
  }

  lemma HashChildren(H: (Hash, Hash) -> Hash, h: nat, pos: nat, txids: seq<Hash>)
    requires h > 0 && pos < TreeWidth(|txids|, h)
    ensures pos * 2 < TreeWidth(|txids|, h - 1)
    ensures var left := CalcHash(H, h - 1, pos * 2, txids);
            var right := if pos * 2 + 1 < TreeWidth(|txids|, h - 1) then CalcHash(H, h - 1, pos * 2 + 1, txids) else left;
            CalcHash(H, h, pos, txids) == H(left, right)
  {
    hide TreeWidth;
    Children(|txids|, h, pos);
  }

  lemma HashLeaf(H: (Hash, Hash) -> Hash, pos: nat, txids: seq<Hash>)
    requires TreeWidth(|txids|, 0) == |txids|
    ensures pos < |txids| ==> CalcHash(H, 0, pos, txids) == txids[pos]
  {
  }

  lemma InjectiveAt(H: (Hash, Hash) -> Hash, a: Hash, b: Hash, c: Hash, d: Hash)
    requires Injective(H)
    ensures H(a, b) == H(c, d) ==> a == c && b == d
  {
  }

  lemma AuthenticWiden(txids: seq<Hash>, m: seq<Hash>, ix: seq<nat>, lo: int, mid: int, hi: int)
    requires Authentic(txids, m, ix, lo, mid) && mid <= hi
    ensures Authentic(txids, m, ix, lo, hi)
  {
  }

  lemma LeafAuthentic(txids: seq<Hash>, m: seq<Hash>, ix: seq<nat>, h: nat, pos: nat)
    requires (m == [] && ix == []) || (h == 0 && pos < |txids| && m == [txids[pos]] && ix == [pos])
    ensures Authentic(txids, m, ix, pos * Pow2(h), (pos + 1) * Pow2(h))
  {
  }

  /** If extraction from any tree yields the Merkle root of a list of as many transactions, then every match it
      reports is the transaction of the list at the reported position, and the positions strictly increase. */
  lemma ExtractSound(H: (Hash, Hash) -> Hash, t: Tree, txids: seq<Hash>)
    requires Injective(H) && t.n == |txids| > 0
    requires ExtractMatches(H, t).0 == MerkleRoot(H, txids) != NULL_HASH
    ensures var (_, matches, indexes) := ExtractMatches(H, t);
            Authentic(txids, matches, indexes, 0, t.n)
  {
    TraverseSound(H, t.bits, t.hashes, txids, TreeHeight(t.n, 0), 0, 0, 0);
  }
}
