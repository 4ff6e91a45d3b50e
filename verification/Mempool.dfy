/** The mempool as the block assembler sees it: transactions with their sizes, their unconfirmed ancestors, and
    the totals over those ancestors that the mempool keeps. */
module Mempool {

  datatype Tx = Tx(id: nat)

  datatype Entry = Entry(
    hash: nat, size: nat, weight: nat, sigOps: nat, fee: int,
    sizeWithAncestors: nat, sigOpsWithAncestors: nat, countWithAncestors: nat)

  datatype Pool = Pool(entries: map<Tx, Entry>, ancestors: map<Tx, set<Tx>>)

  // ----- sums over sets of transactions

  /** What a block has limited room for. */
  datatype Measure = Size | Weight | SigOps

  function Amount(p: Pool, m: Measure, t: Tx): nat {
    if t !in p.entries then 0
    else match m
      case Size => p.entries[t].size
      case Weight => p.entries[t].weight
      case SigOps => p.entries[t].sigOps
  }

  ghost function Sum(p: Pool, m: Measure, s: set<Tx>): nat
    decreases |s|
  {
    if s == {} then 0
    else
      var t :| t in s;
      Amount(p, m, t) + Sum(p, m, s - {t})
  }

  lemma {:induction false} SumWithout(p: Pool, m: Measure, s: set<Tx>, t: Tx)
    requires t in s
    ensures Sum(p, m, s) == Amount(p, m, t) + Sum(p, m, s - {t})
    decreases |s|
  {
    var u :| u in s && Sum(p, m, s) == Amount(p, m, u) + Sum(p, m, s - {u});
    if u != t {
      SumWithout(p, m, s - {u}, t);
      SumWithout(p, m, s - {t}, u);
      assert s - {u} - {t} == s - {t} - {u};
    }
  }

  lemma SumAdd(p: Pool, m: Measure, s: set<Tx>, t: Tx)
    requires t !in s
    ensures Sum(p, m, s + {t}) == Sum(p, m, s) + Amount(p, m, t)
  {
    SumWithout(p, m, s + {t}, t);
    assert s + {t} - {t} == s;
  }

  lemma {:induction false} SumSplit(p: Pool, m: Measure, a: set<Tx>, b: set<Tx>)
    requires a !! b
    ensures Sum(p, m, a + b) == Sum(p, m, a) + Sum(p, m, b)
    decreases |b|
  {
    if b == {} {
      assert a + b == a;
    } else {
      var t :| t in b;
      SumSplit(p, m, a, b - {t});
      SumWithout(p, m, b, t);
      SumAdd(p, m, a + (b - {t}), t);
      assert a + (b - {t}) + {t} == a + b;
    }
  }

  /** A weight bounded transaction by transaction is bounded in total. */
  lemma {:induction false} WeightBound(p: Pool, s: set<Tx>)
    requires forall t :: t in p.entries ==> p.entries[t].weight <= 4 * p.entries[t].size
    ensures Sum(p, Weight, s) <= 4 * Sum(p, Size, s)
    decreases |s|
  {
    if s != {} {
      var t :| t in s;
      WeightBound(p, s - {t});
      SumWithout(p, Weight, s, t);
      SumWithout(p, Size, s, t);
    }
  }

  // ----- the contract of the mempool

  ghost predicate Valid(p: Pool) {
    && p.ancestors.Keys == p.entries.Keys
    && (forall t :: t in p.entries ==> p.ancestors[t] <= p.entries.Keys && t !in p.ancestors[t])
    && (forall t, a :: t in p.entries && a in p.ancestors[t] ==> p.ancestors[a] <= p.ancestors[t])
    && (forall t :: t in p.entries ==>
          && p.entries[t].sizeWithAncestors == Sum(p, Size, p.ancestors[t] + {t})
          && p.entries[t].sigOpsWithAncestors == Sum(p, SigOps, p.ancestors[t] + {t})
          && p.entries[t].countWithAncestors == |p.ancestors[t]| + 1)
    // The size is the weight, or a weight equivalent of the signature operations, rounded up to whole quarters.
    && (forall t :: t in p.entries ==> p.entries[t].weight <= 4 * p.entries[t].size)
  }

  /** The transaction itself and everything that depends on it. */
  function Descendants(p: Pool, t: Tx): set<Tx>
    requires p.ancestors.Keys == p.entries.Keys
  {
    set d | d in p.entries && (d == t || t in p.ancestors[d])
  }

  /** An ancestor has fewer ancestors, so sorting by their number puts parents first. */
  lemma AncestorCounts(p: Pool, t: Tx, a: Tx)
    requires Valid(p) && t in p.entries && a in p.ancestors[t]
    ensures a in p.entries && p.entries[a].countWithAncestors < p.entries[t].countWithAncestors
  {
    hide Sum;
    SmallerSet(p.ancestors[a], p.ancestors[t], a);
  }

  lemma SmallerSet(small: set<Tx>, large: set<Tx>, t: Tx)
    requires small <= large && t in large && t !in small
    ensures |small| < |large|
  {
    var rest := large - {t} - small;
    assert large == {t} + small + rest;
  }

  lemma WeightsBounded(p: Pool)
    requires Valid(p)
    ensures forall t :: t in p.entries ==> p.entries[t].weight <= 4 * p.entries[t].size
  {
  }
}
