/** The totals of packages while a block is assembled, and the order of transactions in it. */
module Packages {
  import opened Wrappers
  import opened Mempool

  /** An entry of mapModifiedTx: totals corrected for the ancestors already in the block. */
  datatype Modified = Modified(size: int, sigOps: int)

  type ModifiedMap = map<Tx, Modified>

  // ----- what the corrected totals should be

  /** The total over the ancestors not yet in the block and the transaction itself. */
  ghost function Remaining(p: Pool, inBlock: set<Tx>, m: Measure, t: Tx): nat
    requires t in p.ancestors
  {
    Sum(p, m, (p.ancestors[t] + {t}) - inBlock)
  }

  ghost predicate Closed(p: Pool, inBlock: set<Tx>) {
    forall t :: t in inBlock ==> t in p.ancestors && p.ancestors[t] <= inBlock
  }

  /** Every corrected total is at least what is left, and exact for entries that never failed. */
  ghost predicate TotalOk(p: Pool, inBlock: set<Tx>, e: Modified, t: Tx, failed: set<Tx>)
    requires t in p.ancestors
  {
    && e.size >= Remaining(p, inBlock, Size, t) && e.sigOps >= Remaining(p, inBlock, SigOps, t)
    && (t !in failed ==> e.size == Remaining(p, inBlock, Size, t) && e.sigOps == Remaining(p, inBlock, SigOps, t))
  }

  ghost predicate ModifiedOk(p: Pool, inBlock: set<Tx>, modified: ModifiedMap, failed: set<Tx>) {
    forall t :: t in modified ==>
      t in p.entries && t in p.ancestors && t !in inBlock && TotalOk(p, inBlock, modified[t], t, failed)
  }

  /** The mempool's own totals are right for every transaction that is neither modified nor failed. */
  ghost predicate CachedOk(p: Pool, inBlock: set<Tx>, modified: ModifiedMap, failed: set<Tx>) {
    forall t :: t in p.entries && t in p.ancestors && t !in inBlock && t !in modified && t !in failed ==>
      p.ancestors[t] !! inBlock
  }

  // ----- the effect of UpdatePackagesForAdded

  function Cached(p: Pool, t: Tx): Modified
    requires t in p.entries
  {
    Modified(p.entries[t].sizeWithAncestors, p.entries[t].sigOpsWithAncestors)
  }

  function EntryAt(modified: ModifiedMap, t: Tx): Option<Modified> {
    if t in modified then Some(modified[t]) else None
  }

  /** The entry of d once the added transactions in `done` have been subtracted. */
  ghost function UpdatedAt(p: Pool, modified: ModifiedMap, added: set<Tx>, done: set<Tx>, d: Tx): Option<Modified> {
    if d in added || d !in p.entries || d !in p.ancestors || p.ancestors[d] !! done then EntryAt(modified, d)
    else
      var e := if d in modified then modified[d] else Cached(p, d);
      var gone := p.ancestors[d] * done;
      Some(Modified(e.size - Sum(p, Size, gone), e.sigOps - Sum(p, SigOps, gone)))
  }

  ghost predicate IsUpdated(p: Pool, modified: ModifiedMap, added: set<Tx>, done: set<Tx>, after: ModifiedMap) {
    forall d :: EntryAt(after, d) == UpdatedAt(p, modified, added, done, d)
  }

  /** One more subtraction, whether or not d has an entry already. */
  lemma UpdateStep(p: Pool, modified: ModifiedMap, added: set<Tx>, done: set<Tx>, d: Tx, it: Tx)
    requires d in p.entries && d in p.ancestors && d !in added && it in p.ancestors[d] && it !in done
    ensures var before := UpdatedAt(p, modified, added, done, d);
            var e := if before.Some? then before.value else Cached(p, d);
            UpdatedAt(p, modified, added, done + {it}, d)
              == Some(Modified(e.size - Amount(p, Size, it), e.sigOps - Amount(p, SigOps, it)))
  {
    var gone := p.ancestors[d] * done;
    assert p.ancestors[d] * (done + {it}) == gone + {it};
    SumAdd(p, Size, gone, it);
    SumAdd(p, SigOps, gone, it);
  }

  /** Adding a package to the block keeps the corrected totals right. */
  lemma UpdateKeeps(p: Pool, inBlock: set<Tx>, added: set<Tx>, modified: ModifiedMap, failed: set<Tx>, after: ModifiedMap)
    requires Valid(p) && Closed(p, inBlock) && added <= p.entries.Keys && added !! inBlock
    requires ModifiedOk(p, inBlock, modified, failed) && CachedOk(p, inBlock, modified, failed)
    requires IsUpdated(p, modified - added, added, added, after)
    ensures ModifiedOk(p, inBlock + added, after, failed) && CachedOk(p, inBlock + added, after, failed)
  {
    hide Valid, Closed, TotalOk, UpdatedAt;
    var rest := modified - added;
    forall d | d in after
      ensures d in p.entries && d in p.ancestors && d !in inBlock + added && TotalOk(p, inBlock + added, after[d], d, failed) {
      assert EntryAt(after, d) == UpdatedAt(p, rest, added, added, d);
      UpdatedTotal(p, inBlock, added, modified, failed, d);
    }
    forall d | d in p.entries && d in p.ancestors && d !in inBlock + added && d !in after && d !in failed
      ensures p.ancestors[d] !! inBlock + added {
      assert EntryAt(after, d) == UpdatedAt(p, rest, added, added, d);
      NotUpdated(p, rest, added, d);
    }
  }

  lemma NotUpdated(p: Pool, modified: ModifiedMap, added: set<Tx>, d: Tx)
    requires d in p.entries && d in p.ancestors && d !in added
    requires UpdatedAt(p, modified, added, added, d).None?
    ensures d !in modified && p.ancestors[d] !! added
  {
  }

  lemma UpdatedTotal(p: Pool, inBlock: set<Tx>, added: set<Tx>, modified: ModifiedMap, failed: set<Tx>, d: Tx)
    requires Valid(p) && Closed(p, inBlock) && added <= p.entries.Keys && added !! inBlock
    requires ModifiedOk(p, inBlock, modified, failed) && CachedOk(p, inBlock, modified, failed)
    requires UpdatedAt(p, modified - added, added, added, d).Some?
    ensures d in p.entries && d in p.ancestors && d !in inBlock + added
    ensures TotalOk(p, inBlock + added, UpdatedAt(p, modified - added, added, added, d).value, d, failed)
  {
    assert d !in added && d !in inBlock && d in p.entries;
    var all := p.ancestors[d] + {d};
    var gone := p.ancestors[d] * added;
    RemainingShrinks(p, inBlock, added, Size, d);
    RemainingShrinks(p, inBlock, added, SigOps, d);
    if d !in modified {
      CachedBound(p, inBlock, Size, d);
      CachedBound(p, inBlock, SigOps, d);
    }
    if p.ancestors[d] !! added { assert gone == {}; }
  }

  lemma RemainingShrinks(p: Pool, inBlock: set<Tx>, added: set<Tx>, m: Measure, d: Tx)
    requires d in p.ancestors && d !in added && added !! inBlock
    ensures Remaining(p, inBlock, m, d) == Remaining(p, inBlock + added, m, d) + Sum(p, m, p.ancestors[d] * added)
  {
    var all := p.ancestors[d] + {d};
    var gone := p.ancestors[d] * added;
    assert all - inBlock == (all - (inBlock + added)) + gone;
    SumSplit(p, m, all - (inBlock + added), gone);
  }

  /** The mempool's total is never below what is left, and equal to it while no ancestor is in the block. */
  lemma CachedBound(p: Pool, inBlock: set<Tx>, m: Measure, d: Tx)
    requires d in p.ancestors && d !in inBlock
    ensures Sum(p, m, p.ancestors[d] + {d}) >= Remaining(p, inBlock, m, d)
    ensures p.ancestors[d] !! inBlock ==> Sum(p, m, p.ancestors[d] + {d}) == Remaining(p, inBlock, m, d)
  {
    var all := p.ancestors[d] + {d};
    assert all == (all - inBlock) + (all * inBlock);
    SumSplit(p, m, all - inBlock, all * inBlock);
    if p.ancestors[d] !! inBlock { assert all - inBlock == all; }
  }

  /** The totals by which a candidate is judged are never too small, and exact if it never failed. */
  lemma CandidateTotals(p: Pool, inBlock: set<Tx>, modified: ModifiedMap, failed: set<Tx>, t: Tx)
    requires Valid(p) && ModifiedOk(p, inBlock, modified, failed) && CachedOk(p, inBlock, modified, failed)
    requires t in p.entries && t !in inBlock
    ensures t in p.ancestors
    ensures TotalOk(p, inBlock, if t in modified then modified[t] else Cached(p, t), t, failed)
  {
    CachedBound(p, inBlock, Size, t);
    CachedBound(p, inBlock, SigOps, t);
  }

  lemma ModifiedIsOutside(p: Pool, inBlock: set<Tx>, modified: ModifiedMap, failed: set<Tx>, t: Tx)
    requires ModifiedOk(p, inBlock, modified, failed) && t in modified
    ensures t in p.entries && t !in inBlock
  {
  }

  lemma FailKeeps(p: Pool, inBlock: set<Tx>, modified: ModifiedMap, failed: set<Tx>, t: Tx)
    requires ModifiedOk(p, inBlock, modified, failed) && CachedOk(p, inBlock, modified, failed)
    ensures ModifiedOk(p, inBlock, modified - {t}, failed + {t}) && CachedOk(p, inBlock, modified - {t}, failed + {t})
  {
  }

  lemma StartOk(p: Pool, modified: ModifiedMap)
    requires IsUpdated(p, map[], {}, {}, modified)
    ensures ModifiedOk(p, {}, modified, {}) && CachedOk(p, {}, modified, {})
  {
    forall d ensures d !in modified {
      assert EntryAt(modified, d) == UpdatedAt(p, map[], {}, {}, d);
    }
  }

  lemma UpdatedKeys(p: Pool, modified: ModifiedMap, added: set<Tx>, after: ModifiedMap)
    requires IsUpdated(p, modified, added, added, after)
    ensures forall t :: t in modified ==> t in after
  {
    forall t | t in modified ensures t in after {
      assert EntryAt(after, t) == UpdatedAt(p, modified, added, added, t);
    }
  }

  // ----- the block so far

  /** No transaction twice, and every ancestor ahead of its descendants. */
  ghost predicate BlockOk(p: Pool, block: seq<Tx>, inBlock: set<Tx>) {
    && (forall t :: t in block <==> t in inBlock)
    && (forall i :: 0 <= i < |block| ==> block[i] in p.entries && block[i] in p.ancestors)
    && (forall i, j :: 0 <= i < j < |block| ==> block[i] != block[j])
    && (forall i :: 0 <= i < |block| ==> forall a :: a in p.ancestors[block[i]] ==> a in block[..i])
  }

  lemma AppendKeeps(p: Pool, block: seq<Tx>, inBlock: set<Tx>, t: Tx)
    requires BlockOk(p, block, inBlock) && t in p.entries && t in p.ancestors && t !in inBlock && p.ancestors[t] <= inBlock
    ensures BlockOk(p, block + [t], inBlock + {t})
  {
    var after := block + [t];
    forall i | 0 <= i < |after| ensures forall a :: a in p.ancestors[after[i]] ==> a in after[..i] {
      assert after[..i] == block[..i];
    }
  }

  lemma BlockClosed(p: Pool, block: seq<Tx>, inBlock: set<Tx>)
    requires BlockOk(p, block, inBlock)
    ensures Closed(p, inBlock) && inBlock <= p.entries.Keys
  {
    forall t | t in inBlock ensures t in p.entries && t in p.ancestors && p.ancestors[t] <= inBlock {
      var i :| 0 <= i < |block| && block[i] == t;
      forall a | a in p.ancestors[t] ensures a in inBlock {
        assert a in block[..i];
      }
    }
  }

  /** The package of a transaction, as a set: its ancestors that are not in the block yet, and itself. */
  function Package(p: Pool, inBlock: set<Tx>, t: Tx): set<Tx>
    requires t in p.ancestors
  {
    (p.ancestors[t] - inBlock) + {t}
  }

  // ----- order within a package

  function Before(p: Pool, a: Tx, b: Tx): bool
    requires a in p.entries && b in p.entries
  {
    var x, y := p.entries[a], p.entries[b];
    if x.countWithAncestors != y.countWithAncestors then x.countWithAncestors < y.countWithAncestors else x.hash <= y.hash
  }

  ghost predicate Sorted(p: Pool, s: seq<Tx>) {
    && (forall i :: 0 <= i < |s| ==> s[i] in p.entries)
    && (forall i, j :: 0 <= i < j < |s| ==> s[i] != s[j] && Before(p, s[i], s[j]))
  }

  /** Ancestors are in the block already or earlier in the list. */
  ghost predicate ParentsFirst(p: Pool, inBlock: set<Tx>, s: seq<Tx>) {
    forall i :: 0 <= i < |s| ==> s[i] in p.ancestors && forall a :: a in p.ancestors[s[i]] ==> a in inBlock || a in s[..i]
  }

  /** Sorting a package by ancestor count is enough for a valid block order. */
  lemma SortedParentsFirst(p: Pool, inBlock: set<Tx>, t: Tx, s: seq<Tx>)
    requires Valid(p) && t in p.entries && Sorted(p, s)
    requires forall x :: x in s <==> x in Package(p, inBlock, t)
    ensures ParentsFirst(p, inBlock, s)
  {
    hide Valid;
    AncestorsNested(p, t);
    forall i, a | 0 <= i < |s| && a in p.ancestors[s[i]] && a !in inBlock ensures a in s[..i] {
      assert s[i] in Package(p, inBlock, t);
      assert a in Package(p, inBlock, t);
      var j :| 0 <= j < |s| && s[j] == a;
      AncestorCounts(p, s[i], a);
      assert s[..i][j] == a;
    }
  }

  lemma AncestorsNested(p: Pool, t: Tx)
    requires Valid(p) && t in p.entries
    ensures p.ancestors.Keys == p.entries.Keys
    ensures t !in p.ancestors[t] && p.ancestors[t] <= p.entries.Keys
    ensures forall a :: a in p.ancestors[t] ==> p.ancestors[a] <= p.ancestors[t]
  {
  }
}
