/** Selection of mempool packages for a block template. Fees only decide which candidate is looked at next and
    when to stop, so every such decision is left open here: what follows holds for all of them. */
module BlockAssembler {
  import opened Wrappers
  import opened Consensus
  import opened Mempool
  import opened Packages

  const MAX_CONSECUTIVE_FAILURES := 1000

  // ----- the modified set

  /** Subtracts every added transaction from the totals of its descendants. */
  method UpdatePackagesForAdded(p: Pool, added: set<Tx>, modified: ModifiedMap) returns (after: ModifiedMap)
    requires Valid(p) && added <= p.entries.Keys
    ensures IsUpdated(p, modified, added, added, after)
  {
    hide Valid, UpdatedAt;
    after := modified;
    var todo := added;
    ghost var done: set<Tx> := {};
    NothingUpdated(p, modified, added);
    while todo != {}
      invariant todo !! done && todo + done == added
      invariant IsUpdated(p, modified, added, done, after)
    {
      var it :| it in todo;
      todo := todo - {it};
      after := UpdateDescendants(p, added, modified, done, it, after);
      done := done + {it};
    }
    assert done == added;
  }

  lemma NothingUpdated(p: Pool, modified: ModifiedMap, added: set<Tx>)
    ensures IsUpdated(p, modified, added, {}, modified)
  {
  }

  /** The descendants in `handled` have had `it` subtracted too. */
  ghost predicate PartlyUpdated(p: Pool, modified: ModifiedMap, added: set<Tx>, done: set<Tx>, it: Tx, handled: set<Tx>,
                                after: ModifiedMap) {
    forall d :: EntryAt(after, d)
             == if d in handled then UpdatedAt(p, modified, added, done + {it}, d) else UpdatedAt(p, modified, added, done, d)
  }

  method UpdateDescendants(p: Pool, added: set<Tx>, ghost modified: ModifiedMap, ghost done: set<Tx>, it: Tx,
                           before: ModifiedMap) returns (after: ModifiedMap)
    requires Valid(p) && it in added && it in p.entries && it !in done
    requires IsUpdated(p, modified, added, done, before)
    ensures IsUpdated(p, modified, added, done + {it}, after)
  {
    hide Valid, UpdatedAt;
    ValidKeys(p);
    after := before;
    var descendants := Descendants(p, it);
    ghost var handled: set<Tx> := {};
    while descendants != {}
      invariant descendants + handled == Descendants(p, it) && descendants !! handled
      invariant PartlyUpdated(p, modified, added, done, it, handled, after)
    {
      var desc :| desc in descendants;
      descendants, handled := descendants - {desc}, handled + {desc};
      assert EntryAt(after, desc) == UpdatedAt(p, modified, added, done, desc);
      if desc in added {
        SameForAdded(p, modified, added, done, it, desc);
      } else {
        UpdateStep(p, modified, added, done, desc, it);
        var e := if desc in after then after[desc] else Cached(p, desc);
        ghost var previous := after;
        after := after[desc := Modified(e.size - Amount(p, Size, it), e.sigOps - Amount(p, SigOps, it))];
        assert forall d :: d != desc ==> EntryAt(after, d) == EntryAt(previous, d);
      }
    }
    forall d ensures EntryAt(after, d) == UpdatedAt(p, modified, added, done + {it}, d) {
      if d !in Descendants(p, it) { SameForOthers(p, modified, added, done, it, d); }
    }
  }

  lemma ValidKeys(p: Pool)
    requires Valid(p)
    ensures p.ancestors.Keys == p.entries.Keys
  {
  }

  lemma SameForAdded(p: Pool, modified: ModifiedMap, added: set<Tx>, done: set<Tx>, it: Tx, d: Tx)
    requires d in added
    ensures UpdatedAt(p, modified, added, done + {it}, d) == UpdatedAt(p, modified, added, done, d)
  {
  }

  lemma SameForOthers(p: Pool, modified: ModifiedMap, added: set<Tx>, done: set<Tx>, it: Tx, d: Tx)
    requires p.ancestors.Keys == p.entries.Keys && d !in Descendants(p, it)
    ensures UpdatedAt(p, modified, added, done + {it}, d) == UpdatedAt(p, modified, added, done, d)
  {
    if d in p.entries { assert p.ancestors[d] * (done + {it}) == p.ancestors[d] * done; }
  }

  // ----- order within a package

  method SortForBlock(p: Pool, package: set<Tx>) returns (sorted: seq<Tx>)
    requires package <= p.entries.Keys
    ensures Sorted(p, sorted) && forall x :: x in sorted <==> x in package
  {
    sorted := [];
    var todo := package;
    while todo != {}
      invariant todo <= package && Sorted(p, sorted) && forall x :: x in sorted <==> x in package - todo
    {
      var t :| t in todo;
      todo := todo - {t};
      sorted := Insert(p, sorted, t);
    }
  }

  method Insert(p: Pool, s: seq<Tx>, t: Tx) returns (r: seq<Tx>)
    requires Sorted(p, s) && t in p.entries && t !in s
    ensures Sorted(p, r) && forall x :: x in r <==> x in s || x == t
  {
    var i := 0;
    while i < |s| && Before(p, s[i], t)
      invariant 0 <= i <= |s|
      invariant forall j :: 0 <= j < i ==> Before(p, s[j], t)
    {
      i := i + 1;
    }
    InsertSorted(p, s, t, i);
    r := s[..i] + [t] + s[i..];
  }

  lemma InsertSorted(p: Pool, s: seq<Tx>, t: Tx, i: nat)
    requires Sorted(p, s) && t in p.entries && t !in s && i <= |s|
    requires forall j :: 0 <= j < i ==> Before(p, s[j], t)
    requires i < |s| ==> !Before(p, s[i], t)
    ensures var r := s[..i] + [t] + s[i..]; Sorted(p, r) && forall x :: x in r <==> x in s || x == t
  {
    hide Before;
    var r := s[..i] + [t] + s[i..];
    assert s == s[..i] + s[i..];
    InsertOrder(p, s, t, i);
    forall j, k | 0 <= j < k < |r| ensures r[j] in p.entries && r[k] in p.entries && r[j] != r[k] && Before(p, r[j], r[k]) {
      var x := if j < i then j else j - 1;
      var y := if k < i then k else k - 1;
      assert j != i ==> r[j] == s[x];
      assert k != i ==> r[k] == s[y];
    }
  }

  lemma InsertOrder(p: Pool, s: seq<Tx>, t: Tx, i: nat)
    requires Sorted(p, s) && t in p.entries && i <= |s| && (i < |s| ==> !Before(p, s[i], t))
    ensures forall j :: i <= j < |s| ==> Before(p, t, s[j])
  {
    forall j | i <= j < |s| ensures Before(p, t, s[j]) {
      if i < j { assert Before(p, s[i], s[j]); }
    }
  }

  // ----- the assembler

  /** Why the selection ended: nothing left to look at, a candidate below the minimum fee rate, or an almost full block. */
  datatype Ending = Exhausted | BelowMinFee | GaveUp

  /** Relative to an earlier block `then`, the package of t cannot be mined, or does not fit into the present block. */
  ghost predicate LeftOut(p: Pool, eligible: set<Tx>, t: Tx, then_: set<Tx>, weight: nat, sigOps: nat, maxWeight: nat) {
    && t in p.ancestors && t !in then_
    && (!(Package(p, then_, t) <= eligible)
        || weight + WITNESS_SCALE_FACTOR * Remaining(p, then_, Size, t) >= maxWeight
        || sigOps + Remaining(p, then_, SigOps, t) >= MAX_BLOCK_SIGOPS_COST)
  }

  /** Every rejection on record still stands; it was made when the block was a part of what it is now. */
  ghost predicate RejectionsOk(p: Pool, eligible: set<Tx>, rejected: map<Tx, set<Tx>>, inBlock: set<Tx>,
        weight: nat, sigOps: nat, maxWeight: nat)
  {
    forall t :: t in rejected ==> rejected[t] <= inBlock && LeftOut(p, eligible, t, rejected[t], weight, sigOps, maxWeight)
  }

  lemma RejectionsStand(p: Pool, eligible: set<Tx>, rejected: map<Tx, set<Tx>>, inBlock: set<Tx>, weight: nat,
        sigOps: nat, maxWeight: nat, inBlock': set<Tx>, weight': nat, sigOps': nat)
    requires RejectionsOk(p, eligible, rejected, inBlock, weight, sigOps, maxWeight)
    requires inBlock <= inBlock' && weight <= weight' && sigOps <= sigOps'
    ensures RejectionsOk(p, eligible, rejected, inBlock', weight', sigOps', maxWeight)
  {
    hide Remaining, Package;
  }

  /** The first time a transaction is rejected it is judged by its exact totals. */
  lemma Rejected(p: Pool, eligible: set<Tx>, rejected: map<Tx, set<Tx>>, inBlock: set<Tx>, weight: nat,
        sigOps: nat, maxWeight: nat, t: Tx, failed: set<Tx>, totals: Modified)
    requires RejectionsOk(p, eligible, rejected, inBlock, weight, sigOps, maxWeight) && failed <= rejected.Keys
    requires t in p.ancestors && t !in inBlock && TotalOk(p, inBlock, totals, t, failed)
    requires !(Package(p, inBlock, t) <= eligible) || weight + WITNESS_SCALE_FACTOR * totals.size >= maxWeight
          || sigOps + totals.sigOps >= MAX_BLOCK_SIGOPS_COST
    ensures var after := if t in rejected then rejected else rejected[t := inBlock];
            RejectionsOk(p, eligible, after, inBlock, weight, sigOps, maxWeight)
  {
    hide Remaining, Package;
  }

  /** Everything walked past in the index is in the block, waits in the modified set, was rejected, or is in hand. */
  ghost predicate Covered(order: seq<Tx>, n: nat, t: Option<Tx>, inBlock: set<Tx>, modified: ModifiedMap,
        rejected: map<Tx, set<Tx>>)
    requires n <= |order|
  {
    forall i :: 0 <= i < n ==> Some(order[i]) == t || order[i] in inBlock || order[i] in modified || order[i] in rejected
  }

  datatype Outcome = TooBig | NotEligible | Added(package: set<Tx>)

  ghost function SumOf(s: seq<int>): int {
    if s == [] then 0 else SumOf(s[..|s| - 1]) + s[|s| - 1]
  }

  /** The counters agree with the transactions in the block; 4000 weight units and 400 signature operations are
      kept for the coinbase, which comes ahead of `block` and is not counted. */
  ghost predicate Accounted(p: Pool, block: seq<Tx>, fees: seq<int>, sigOps: seq<int>, inBlock: set<Tx>,
                            weight: nat, sigOpsCost: nat, count: nat, totalFees: int) {
    && |fees| == |sigOps| == |block| == count
    && (forall i :: 0 <= i < |block| ==> block[i] in p.entries)
    && (forall i :: 0 <= i < |block| ==> fees[i] == p.entries[block[i]].fee)
    && (forall i :: 0 <= i < |block| ==> sigOps[i] == p.entries[block[i]].sigOps)
    && totalFees == SumOf(fees)
    && weight == 4000 + Sum(p, Weight, inBlock)
    && sigOpsCost == 400 + Sum(p, SigOps, inBlock)
  }

  /** Each of these is in the block or has been rejected. */
  ghost predicate Settled(looked: seq<Tx>, inBlock: set<Tx>, rejected: map<Tx, set<Tx>>) {
    forall t :: t in looked ==> t in inBlock || t in rejected
  }

  ghost predicate NoneStops(stops: nat -> bool, n: nat) {
    forall k: nat :: k < n ==> !stops(k)
  }

  lemma SettledNone(inBlock: set<Tx>, stops: nat -> bool)
    ensures Settled([], inBlock, map[]) && NoneStops(stops, 0)
  {
  }

  lemma NoneStopsMore(stops: nat -> bool, n: nat)
    requires NoneStops(stops, n) && !stops(n)
    ensures NoneStops(stops, n + 1)
  {
  }

  lemma SettledMore(looked: seq<Tx>, inBlock: set<Tx>, rejected: map<Tx, set<Tx>>, t: Tx,
        inBlock': set<Tx>, rejected': map<Tx, set<Tx>>)
    requires Settled(looked, inBlock, rejected) && inBlock <= inBlock' && rejected.Keys <= rejected'.Keys
    requires t in inBlock' || t in rejected'
    ensures Settled(looked + [t], inBlock', rejected')
  {
  }

  class BlockAssembler {
    const pool: Pool
    /** The transactions that are final at this height and, without witnesses, carry none. */
    const eligible: set<Tx>
    const nBlockMaxWeight: nat

    var block: seq<Tx>
    var vTxFees: seq<int>
    var vTxSigOpsCost: seq<int>
    var nBlockWeight: nat
    var nBlockSigOpsCost: nat
    var nBlockTx: nat
    var nFees: int
    var inBlock: set<Tx>

    ghost predicate Consistent()
      reads this
    {
      && Valid(pool)
      && BlockOk(pool, block, inBlock)
      && Accounted(pool, block, vTxFees, vTxSigOpsCost, inBlock, nBlockWeight, nBlockSigOpsCost, nBlockTx, nFees)
      && inBlock <= eligible
    }

    ghost predicate WithinLimits()
      reads this
    {
      nBlockWeight <= nBlockMaxWeight <= MAX_BLOCK_WEIGHT - 4000 && nBlockSigOpsCost < MAX_BLOCK_SIGOPS_COST
    }

    constructor (pool: Pool, eligible: set<Tx>, requestedMaxWeight: nat)
      requires Valid(pool)
      ensures Consistent() && WithinLimits() && inBlock == {} && this.pool == pool && this.eligible == eligible
      ensures 4000 <= nBlockMaxWeight <= MAX_BLOCK_WEIGHT - 4000
      ensures 4000 <= requestedMaxWeight <= MAX_BLOCK_WEIGHT - 4000 ==> nBlockMaxWeight == requestedMaxWeight
    {
      this.pool, this.eligible := pool, eligible;
      var capped := if requestedMaxWeight < MAX_BLOCK_WEIGHT - 4000 then requestedMaxWeight else MAX_BLOCK_WEIGHT - 4000;
      nBlockMaxWeight := if capped < 4000 then 4000 else capped;
      block, vTxFees, vTxSigOpsCost, inBlock := [], [], [], {};
      nBlockWeight, nBlockSigOpsCost, nBlockTx, nFees := 4000, 400, 0, 0;
    }

    method OnlyUnconfirmed(testSet: set<Tx>) returns (r: set<Tx>)
      ensures r == testSet - inBlock
    {
      r := testSet;
      var todo := testSet;
      while todo != {}
        invariant todo <= testSet && r == testSet - (inBlock - todo)
      {
        var t :| t in todo;
        todo := todo - {t};
        if t in inBlock { r := r - {t}; }
      }
    }

    predicate TestPackage(packageSize: int, packageSigOpsCost: int)
      reads this
    {
      && nBlockWeight + WITNESS_SCALE_FACTOR * packageSize < nBlockMaxWeight
      && nBlockSigOpsCost + packageSigOpsCost < MAX_BLOCK_SIGOPS_COST
    }

    method TestPackageTransactions(package: set<Tx>) returns (ok: bool)
      ensures ok <==> package <= eligible
    {
      var todo := package;
      while todo != {}
        invariant todo <= package && package - todo <= eligible
      {
        var t :| t in todo;
        if t !in eligible { return false; }
        todo := todo - {t};
      }
      ok := true;
    }

    method AddToBlock(t: Tx)
      requires Consistent() && t in pool.entries && t !in inBlock && t in eligible
      requires t in pool.ancestors && pool.ancestors[t] <= inBlock
      modifies this
      ensures Consistent() && inBlock == old(inBlock) + {t} && block == old(block) + [t]
      ensures nBlockWeight >= old(nBlockWeight) && nBlockSigOpsCost >= old(nBlockSigOpsCost)
    {
      hide Valid;
      AppendKeeps(pool, block, inBlock, t);
      SumAdd(pool, Weight, inBlock, t);
      SumAdd(pool, SigOps, inBlock, t);
      var e := pool.entries[t];
      block := block + [t];
      vTxFees := vTxFees + [e.fee];
      vTxSigOpsCost := vTxSigOpsCost + [e.sigOps];
      nBlockWeight := nBlockWeight + e.weight;
      nBlockTx := nBlockTx + 1;
      nBlockSigOpsCost := nBlockSigOpsCost + e.sigOps;
      nFees := nFees + e.fee;
      inBlock := inBlock + {t};
      assert vTxFees[..|vTxFees| - 1] == old(vTxFees);
    }

    /** Adds a sorted package, parents first. */
    method AddSorted(sorted: seq<Tx>, ghost package: set<Tx>)
      requires Consistent() && Sorted(pool, sorted) && ParentsFirst(pool, inBlock, sorted)
      requires package !! inBlock && package <= eligible && forall x :: x in sorted <==> x in package
      modifies this
      ensures Consistent() && inBlock == old(inBlock) + package && block == old(block) + sorted
      ensures nBlockWeight >= old(nBlockWeight) && nBlockSigOpsCost >= old(nBlockSigOpsCost)
    {
      hide Consistent, Sorted, ParentsFirst;
      var i := 0;
      ghost var added: set<Tx> := {};
      while i < |sorted|
        invariant 0 <= i <= |sorted| && Consistent() && ParentsFirst(pool, old(inBlock), sorted)
        invariant forall x :: x in added <==> x in sorted[..i]
        invariant inBlock == old(inBlock) + added && block == old(block) + sorted[..i]
        invariant nBlockWeight >= old(nBlockWeight) && nBlockSigOpsCost >= old(nBlockSigOpsCost)
      {
        ParentsIn(pool, old(inBlock), inBlock, sorted, i);
        AddToBlock(sorted[i]);
        assert sorted[..i + 1] == sorted[..i] + [sorted[i]];
        added := added + {sorted[i]};
        i := i + 1;
      }
      assert sorted[..i] == sorted;
      assert added == package;
    }

    /** Puts the package of t into the block, if it fits by the given totals and may be mined. */
    method TryPackage(t: Tx, packageSize: int, packageSigOpsCost: int) returns (outcome: Outcome)
      requires Consistent() && WithinLimits() && t in pool.entries && t in pool.ancestors && t !in inBlock
      requires packageSize >= Remaining(pool, inBlock, Size, t) && packageSigOpsCost >= Remaining(pool, inBlock, SigOps, t)
      modifies this
      ensures Consistent() && WithinLimits()
      ensures outcome.TooBig? <==> !old(TestPackage(packageSize, packageSigOpsCost))
      ensures outcome.NotEligible? ==> !(Package(pool, old(inBlock), t) <= eligible)
      ensures outcome.Added? ==> outcome.package == Package(pool, old(inBlock), t) && inBlock == old(inBlock) + outcome.package
      ensures nBlockWeight >= old(nBlockWeight) && nBlockSigOpsCost >= old(nBlockSigOpsCost)
      ensures !outcome.Added? ==> unchanged(this)
    {
      hide Valid, BlockOk, Accounted, Sorted, ParentsFirst;
      if !TestPackage(packageSize, packageSigOpsCost) { return TooBig; }
      var ancestors := OnlyUnconfirmed(pool.ancestors[t]);
      var package := ancestors + {t};
      var ok := TestPackageTransactions(package);
      if !ok { return NotEligible; }
      AncestorsNested(pool, t);
      var sorted := SortForBlock(pool, package);
      SortedParentsFirst(pool, inBlock, t, sorted);
      CounterSums(pool, block, vTxFees, vTxSigOpsCost, inBlock, nBlockWeight, nBlockSigOpsCost, nBlockTx, nFees);
      PackageFits(pool, inBlock, t);
      AddSorted(sorted, package);
      CounterSums(pool, block, vTxFees, vTxSigOpsCost, inBlock, nBlockWeight, nBlockSigOpsCost, nBlockTx, nFees);
      return Added(package);
    }

    /** What holds at every turn of the selection, while t is being looked at. */
    ghost predicate Selecting(order: seq<Tx>, mi: nat, t: Option<Tx>, modified: ModifiedMap, failed: set<Tx>,
          rejected: map<Tx, set<Tx>>)
      requires mi <= |order|
      reads this
    {
      && Consistent() && WithinLimits()
      && ModifiedOk(pool, inBlock, modified, failed) && CachedOk(pool, inBlock, modified, failed)
      && failed <= rejected.Keys && Covered(order, mi, t, inBlock, modified, rejected)
      && RejectionsOk(pool, eligible, rejected, inBlock, nBlockWeight, nBlockSigOpsCost, nBlockMaxWeight)
    }

    /** The turn for one candidate, by its own totals or by its entry in the modified set. */
    method Evaluate(ghost order: seq<Tx>, ghost mi: nat, t: Tx, usingModified: bool, modified: ModifiedMap, failed: set<Tx>,
                    ghost rejected: map<Tx, set<Tx>>)
      returns (outcome: Outcome, modified': ModifiedMap, failed': set<Tx>, ghost rejected': map<Tx, set<Tx>>)
      requires mi <= |order| && Selecting(order, mi, Some(t), modified, failed, rejected)
      requires t in pool.entries && t !in inBlock && (usingModified <==> t in modified)
      modifies this
      ensures Selecting(order, mi, None, modified', failed', rejected')
      ensures old(inBlock) <= inBlock && rejected.Keys <= rejected'.Keys && (t in inBlock || t in rejected')
      ensures outcome.Added? ==> old(inBlock) < inBlock <= pool.entries.Keys
      ensures !outcome.Added? ==> unchanged(this) && modified' == if usingModified then modified - {t} else modified
    {
      hide Valid, BlockOk, Accounted, ModifiedOk, CachedOk, RejectionsOk, Covered, TestPackage;
      CandidateTotals(pool, inBlock, modified, failed, t);
      var totals := if usingModified then modified[t] else Cached(pool, t);
      modified', failed', rejected' := modified, failed, rejected;
      BlockClosed(pool, block, inBlock);
      TestIs(totals);
      outcome := TryPackage(t, totals.size, totals.sigOps);
      BlockClosed(pool, block, inBlock);
      if outcome.Added? {
        RejectionsStand(pool, eligible, rejected, old(inBlock), old(nBlockWeight), old(nBlockSigOpsCost), nBlockMaxWeight,
                        inBlock, nBlockWeight, nBlockSigOpsCost);
        modified' := UpdatePackagesForAdded(pool, outcome.package, modified - outcome.package);
        UpdatedKeys(pool, modified - outcome.package, outcome.package, modified');
        UpdateKeeps(pool, old(inBlock), outcome.package, modified, failed, modified');
        CoveredAdded(order, mi, t, old(inBlock), modified, rejected, outcome.package, modified');
      } else {
        Rejected(pool, eligible, rejected, inBlock, nBlockWeight, nBlockSigOpsCost, nBlockMaxWeight, t, failed, totals);
        if t !in rejected { rejected' := rejected[t := inBlock]; }
        if usingModified {
          FailKeeps(pool, inBlock, modified, failed, t);
          modified', failed' := modified - {t}, failed + {t};
        }
        CoveredRejected(order, mi, t, inBlock, modified, rejected, rejected', modified');
      }
    }

    lemma TestIs(totals: Modified)
      ensures TestPackage(totals.size, totals.sigOps)
           || nBlockWeight + WITNESS_SCALE_FACTOR * totals.size >= nBlockMaxWeight
           || nBlockSigOpsCost + totals.sigOps >= MAX_BLOCK_SIGOPS_COST
    {
    }

    lemma SelectingSkip(order: seq<Tx>, mi: nat, modified: ModifiedMap, failed: set<Tx>, rejected: map<Tx, set<Tx>>)
      requires mi < |order| && Selecting(order, mi, None, modified, failed, rejected)
      requires order[mi] in inBlock || order[mi] in modified || order[mi] in failed
      ensures Selecting(order, mi + 1, None, modified, failed, rejected)
    {
      hide Valid, BlockOk, Accounted, ModifiedOk, CachedOk, RejectionsOk, Covered;
      CoveredSkip(order, mi, inBlock, modified, rejected);
    }

    lemma SelectingNext(order: seq<Tx>, mi: nat, modified: ModifiedMap, failed: set<Tx>, rejected: map<Tx, set<Tx>>)
      requires mi < |order| && Selecting(order, mi, None, modified, failed, rejected)
      ensures Selecting(order, mi + 1, Some(order[mi]), modified, failed, rejected)
    {
      hide Valid, BlockOk, Accounted, ModifiedOk, CachedOk, RejectionsOk, Covered;
      CoveredTake(order, mi, inBlock, modified, rejected);
    }

    lemma SelectingModified(order: seq<Tx>, mi: nat, t: Tx, modified: ModifiedMap, failed: set<Tx>,
          rejected: map<Tx, set<Tx>>)
      requires mi <= |order| && Selecting(order, mi, None, modified, failed, rejected) && t in modified
      ensures Selecting(order, mi, Some(t), modified, failed, rejected) && t in pool.entries && t !in inBlock
    {
      hide Valid, BlockOk, Accounted, CachedOk, RejectionsOk, Covered;
      ModifiedIsOutside(pool, inBlock, modified, failed, t);
      CoveredInHand(order, mi, t, inBlock, modified, rejected);
    }

    lemma SelectingStands(order: seq<Tx>, mi: nat, t: Option<Tx>, modified: ModifiedMap, failed: set<Tx>,
          rejected: map<Tx, set<Tx>>)
      requires mi <= |order| && Selecting(order, mi, t, modified, failed, rejected)
      ensures Consistent() && WithinLimits()
      ensures RejectionsOk(pool, eligible, rejected, inBlock, nBlockWeight, nBlockSigOpsCost, nBlockMaxWeight)
      ensures t.None? && mi == |order| && modified == map[] ==> forall x :: x in order ==> x in inBlock || x in rejected
    {
      hide Valid, BlockOk, Accounted, ModifiedOk, CachedOk, RejectionsOk, Covered;
      if t.None? && mi == |order| && modified == map[] { CoveredAll(order, inBlock, rejected); }
    }

    lemma SelectingStart(order: seq<Tx>, modified: ModifiedMap)
      requires Consistent() && WithinLimits() && ModifiedOk(pool, inBlock, modified, {}) && CachedOk(pool, inBlock, modified, {})
      ensures Selecting(order, 0, None, modified, {}, map[])
    {
      hide Valid, BlockOk, Accounted, ModifiedOk, CachedOk, RejectionsOk, Covered;
      NothingRejected(pool, eligible, inBlock, nBlockWeight, nBlockSigOpsCost, nBlockMaxWeight);
      CoveredNone(order, inBlock, modified, map[]);
    }

    /** The whole selection. `order` is the mempool's index by ancestor fee rate; `stops` tells whether the k-th
        candidate is below the minimum fee rate, and `looked` are the candidates before the stop. A selection that
        runs to its end leaves a transaction out only for a reason that still stands: at some earlier point its
        package could not be mined, or does not fit now. */
    method AddPackageTxs(order: seq<Tx>, stops: nat -> bool)
      returns (nPackagesSelected: nat, ending: Ending, ghost rejected: map<Tx, set<Tx>>, ghost looked: seq<Tx>)
      requires Consistent() && WithinLimits() && inBlock == {} && 4000 <= nBlockMaxWeight
      requires forall t :: t in order ==> t in pool.entries
      modifies this
      ensures Consistent() && WithinLimits()
      ensures RejectionsOk(pool, eligible, rejected, inBlock, nBlockWeight, nBlockSigOpsCost, nBlockMaxWeight)
      ensures ending.Exhausted? ==> forall t :: t in order ==> t in inBlock || t in rejected
      ensures Settled(looked, inBlock, rejected)
      ensures NoneStops(stops, |looked|) && (ending.BelowMinFee? ==> stops(|looked|))
      ensures ending.GaveUp? ==> nBlockWeight > nBlockMaxWeight - 4000
    {
      hide Valid, BlockOk, Accounted, ModifiedOk, CachedOk, RejectionsOk, Covered, Settled, NoneStops, Selecting;
      SettledNone(inBlock, stops);
      ValidKeys(pool);
      var modified: ModifiedMap := map[];
      var failed: set<Tx> := {};
      rejected, looked := map[], [];
      modified := UpdatePackagesForAdded(pool, inBlock, modified);
      StartOk(pool, modified);
      SelectingStart(order, modified);
      var mi, nConsecutiveFailed, evaluated: nat := 0, 0, 0;
      nPackagesSelected := 0;
      while mi < |order| || modified != map[]
        invariant 0 <= mi <= |order| && Selecting(order, mi, None, modified, failed, rejected)
        invariant evaluated == |looked| && Settled(looked, inBlock, rejected) && NoneStops(stops, evaluated)
        decreases pool.entries.Keys - inBlock, |order| - mi, |modified|
      {
        if mi < |order| && (order[mi] in modified || order[mi] in inBlock || order[mi] in failed) {
          SelectingSkip(order, mi, modified, failed, rejected);
          mi := mi + 1;
          continue;
        }
        var t: Tx;
        var usingModified := *;
        if mi == |order| || (usingModified && modified != map[]) {
          usingModified := true;
          t :| t in modified;
          SelectingModified(order, mi, t, modified, failed, rejected);
        } else {
          usingModified, t := false, order[mi];
          SelectingNext(order, mi, modified, failed, rejected);
          mi := mi + 1;
        }
        assert t !in inBlock;
        SelectingStands(order, mi, Some(t), modified, failed, rejected);
        if stops(evaluated) { return nPackagesSelected, BelowMinFee, rejected, looked; }
        NoneStopsMore(stops, evaluated);
        evaluated := evaluated + 1;
        ghost var before, rejectedBefore := inBlock, rejected;
        var outcome;
        outcome, modified, failed, rejected := Evaluate(order, mi, t, usingModified, modified, failed, rejected);
        SelectingStands(order, mi, None, modified, failed, rejected);
        SettledMore(looked, before, rejectedBefore, t, inBlock, rejected);
        looked := looked + [t];
        if outcome.Added? {
          nConsecutiveFailed := 0;
          nPackagesSelected := nPackagesSelected + 1;
        } else if outcome.TooBig? {
          nConsecutiveFailed := nConsecutiveFailed + 1;
          if nConsecutiveFailed > MAX_CONSECUTIVE_FAILURES && nBlockWeight > nBlockMaxWeight - 4000 {
            return nPackagesSelected, GaveUp, rejected, looked;
          }
        }
      }
      SelectingStands(order, mi, None, modified, failed, rejected);
      ending := Exhausted;
    }
  }

  lemma CoveredNone(order: seq<Tx>, inBlock: set<Tx>, modified: ModifiedMap, rejected: map<Tx, set<Tx>>)
    ensures Covered(order, 0, None, inBlock, modified, rejected)
  {
  }

  lemma CoveredSkip(order: seq<Tx>, n: nat, inBlock: set<Tx>, modified: ModifiedMap, rejected: map<Tx, set<Tx>>)
    requires n < |order| && Covered(order, n, None, inBlock, modified, rejected)
    requires order[n] in inBlock || order[n] in modified || order[n] in rejected
    ensures Covered(order, n + 1, None, inBlock, modified, rejected)
  {
  }

  lemma CoveredTake(order: seq<Tx>, n: nat, inBlock: set<Tx>, modified: ModifiedMap, rejected: map<Tx, set<Tx>>)
    requires n < |order| && Covered(order, n, None, inBlock, modified, rejected)
    ensures Covered(order, n + 1, Some(order[n]), inBlock, modified, rejected)
  {
  }

  lemma CoveredInHand(order: seq<Tx>, n: nat, t: Tx, inBlock: set<Tx>, modified: ModifiedMap, rejected: map<Tx, set<Tx>>)
    requires n <= |order|
    ensures Covered(order, n, None, inBlock, modified, rejected) ==> Covered(order, n, Some(t), inBlock, modified, rejected)
  {
  }

  lemma CoveredAll(order: seq<Tx>, inBlock: set<Tx>, rejected: map<Tx, set<Tx>>)
    requires Covered(order, |order|, None, inBlock, map[], rejected)
    ensures forall t :: t in order ==> t in inBlock || t in rejected
  {
  }

  lemma CoveredAdded(order: seq<Tx>, n: nat, t: Tx, inBlock: set<Tx>, modified: ModifiedMap, rejected: map<Tx, set<Tx>>,
                     package: set<Tx>, after: ModifiedMap)
    requires n <= |order| && Covered(order, n, Some(t), inBlock, modified, rejected) && t in package
    requires forall x :: x in modified - package ==> x in after
    ensures Covered(order, n, None, inBlock + package, after, rejected)
  {
  }

  lemma CoveredRejected(order: seq<Tx>, n: nat, t: Tx, inBlock: set<Tx>, modified: ModifiedMap, rejected: map<Tx, set<Tx>>,
                        rejected': map<Tx, set<Tx>>, after: ModifiedMap)
    requires n <= |order| && Covered(order, n, Some(t), inBlock, modified, rejected)
    requires t in rejected' && rejected.Keys <= rejected'.Keys && (after == modified || after == modified - {t})
    ensures Covered(order, n, None, inBlock, after, rejected')
  {
  }

  lemma NothingRejected(p: Pool, eligible: set<Tx>, inBlock: set<Tx>, weight: nat, sigOps: nat, maxWeight: nat)
    ensures RejectionsOk(p, eligible, map[], inBlock, weight, sigOps, maxWeight)
  {
  }

  /** What a package adds is bounded by the totals it was judged by. */
  lemma PackageFits(p: Pool, inBlock: set<Tx>, t: Tx)
    requires Valid(p) && t in p.ancestors && t !in inBlock
    ensures Sum(p, Weight, inBlock + Package(p, inBlock, t)) <= Sum(p, Weight, inBlock) + 4 * Remaining(p, inBlock, Size, t)
    ensures Sum(p, SigOps, inBlock + Package(p, inBlock, t)) == Sum(p, SigOps, inBlock) + Remaining(p, inBlock, SigOps, t)
  {
    hide Valid, Sum;
    WeightsBounded(p);
    var package := Package(p, inBlock, t);
    assert package == (p.ancestors[t] + {t}) - inBlock;
    SumSplit(p, Weight, inBlock, package);
    SumSplit(p, SigOps, inBlock, package);
    WeightBound(p, package);
  }

  lemma CounterSums(p: Pool, block: seq<Tx>, fees: seq<int>, sigOps: seq<int>, inBlock: set<Tx>,
                    weight: nat, sigOpsCost: nat, count: nat, totalFees: int)
    requires Accounted(p, block, fees, sigOps, inBlock, weight, sigOpsCost, count, totalFees)
    ensures weight == 4000 + Sum(p, Weight, inBlock) && sigOpsCost == 400 + Sum(p, SigOps, inBlock)
  {
  }

  lemma ParentsIn(p: Pool, before: set<Tx>, inBlock: set<Tx>, s: seq<Tx>, i: nat)
    requires i < |s| && Sorted(p, s) && ParentsFirst(p, before, s)
    requires before <= inBlock && (forall x :: x in s[..i] ==> x in inBlock)
    requires forall x :: x in inBlock ==> x in before || x in s[..i]
    requires s[i] !in before
    ensures s[i] in p.entries && s[i] in p.ancestors && p.ancestors[s[i]] <= inBlock && s[i] !in inBlock
  {
  }
}
