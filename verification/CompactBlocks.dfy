/** Compact blocks: a block is announced by short ids and a few whole transactions, and put together again from
    what the receiver already has. */
module CompactBlocks {
  import opened Wrappers
  import opened Consensus

  datatype Tx = Tx(txid: nat, witnessHash: nat)

  /** The hash from which the announcement takes short ids. */
  function HashOf(tx: Tx, useWtxid: bool): nat {
    if useWtxid then tx.witnessHash else tx.txid
  }

  type Slots = seq<Option<Tx>>

  /** A transaction sent along, with the number of slots skipped since the one before it. */
  datatype Prefilled = Prefilled(index: nat, tx: Option<Tx>)

  /** shortId is SipHash under the key of this announcement, cut to 48 bits. */
  datatype CompactBlock = CompactBlock(
    headerIsNull: bool, shortId: nat -> nat, shortTxIds: seq<nat>, prefilledTxn: seq<Prefilled>)

  /** A transaction at hand, under the hash it is looked up by. */
  datatype Candidate = Candidate(hash: nat, tx: Tx)

  datatype ReadStatus = Ok | Invalid | Failed | CheckBlockFailed

  function TxCount(cb: CompactBlock): nat {
    |cb.shortTxIds| + |cb.prefilledTxn|
  }

  // ----- counting slots

  function Filled(slots: Slots): (n: nat)
    ensures n <= |slots|
  {
    if slots == [] then 0 else Filled(slots[..|slots| - 1]) + (if slots[|slots| - 1].Some? then 1 else 0)
  }

  lemma {:induction false} FillOne(slots: Slots, p: nat, tx: Option<Tx>)
    requires p < |slots|
    ensures Filled(slots[p := tx]) + (if slots[p].Some? then 1 else 0) == Filled(slots) + (if tx.Some? then 1 else 0)
    decreases |slots|
  {
    var n, after := |slots| - 1, slots[p := tx];
    if p < n {
      FillOne(slots[..n], p, tx);
      assert after[..n] == slots[..n][p := tx];
    } else {
      assert after[..n] == slots[..n];
    }
  }

  lemma {:induction false} FilledSplit(slots: Slots, p: nat)
    requires p <= |slots|
    ensures Filled(slots) == Filled(slots[..p]) + Filled(slots[p..])
    decreases |slots|
  {
    if p < |slots| {
      var n := |slots| - 1;
      FilledSplit(slots[..n], p);
      assert slots[..n][..p] == slots[..p] && slots[..n][p..] == slots[p..][..n - p];
    } else {
      assert slots[..p] == slots && slots[p..] == [];
    }
  }

  /** p is the empty slot with exactly i empty slots ahead of it. */
  ghost predicate IsEmptySlot(slots: Slots, i: nat, p: nat) {
    p < |slots| && slots[p].None? && p - Filled(slots[..p]) == i
  }

  lemma FilledNext(slots: Slots, p: nat)
    requires p < |slots|
    ensures Filled(slots[..p + 1]) == Filled(slots[..p]) + if slots[p].Some? then 1 else 0
  {
    assert slots[..p + 1][..p] == slots[..p];
  }

  // ----- prefilled transactions

  /** Where the k-th prefilled transaction goes. */
  function Position(pre: seq<Prefilled>, k: nat): nat
    requires k < |pre|
    decreases k
  {
    if k == 0 then pre[0].index else Position(pre, k - 1) + pre[k].index + 1
  }

  /** No transaction is null, and every position leaves room for the transactions known by then. */
  predicate WellFormed(cb: CompactBlock) {
    forall k :: 0 <= k < |cb.prefilledTxn| ==>
      cb.prefilledTxn[k].tx.Some? && Position(cb.prefilledTxn, k) <= 65535 && Position(cb.prefilledTxn, k) <= |cb.shortTxIds| + k
  }

  lemma {:induction false} PositionsIncrease(pre: seq<Prefilled>, j: nat, k: nat)
    requires j < k < |pre|
    ensures Position(pre, j) < Position(pre, k)
    decreases k
  {
    if j < k - 1 { PositionsIncrease(pre, j, k - 1); }
  }

  /** The first k prefilled transactions are in place and nothing else. */
  ghost predicate PlacedUpTo(cb: CompactBlock, k: nat, slots: Slots)
    requires k <= |cb.prefilledTxn|
  {
    && |slots| == TxCount(cb) && Filled(slots) == k
    && (forall j :: 0 <= j < k ==>
          Position(cb.prefilledTxn, j) < |slots| && slots[Position(cb.prefilledTxn, j)] == cb.prefilledTxn[j].tx)
    && (forall p :: 0 <= p < |slots| && slots[p].Some? ==> exists j :: 0 <= j < k && Position(cb.prefilledTxn, j) == p)
  }

  /** The slots with the first k prefilled transactions and nothing else. */
  function Placed(cb: CompactBlock, k: nat): (slots: Slots)
    requires k <= |cb.prefilledTxn| && WellFormed(cb)
    ensures |slots| == TxCount(cb)
  {
    if k == 0 then seq(TxCount(cb), i => None)
    else Placed(cb, k - 1)[Position(cb.prefilledTxn, k - 1) := cb.prefilledTxn[k - 1].tx]
  }

  lemma {:induction false} PlacedIs(cb: CompactBlock, k: nat)
    requires k <= |cb.prefilledTxn| && WellFormed(cb)
    ensures PlacedUpTo(cb, k, Placed(cb, k))
  {
    hide PlacedUpTo, Position;
    if k == 0 {
      NonePlaced(cb, Placed(cb, 0));
    } else {
      PlacedIs(cb, k - 1);
      PlaceNext(cb, k - 1, Placed(cb, k - 1));
    }
  }

  /** Which slots are filled and with what determines them. */
  lemma PlacedUnique(cb: CompactBlock, k: nat, a: Slots, b: Slots)
    requires k <= |cb.prefilledTxn| && PlacedUpTo(cb, k, a) && PlacedUpTo(cb, k, b)
    requires forall j :: 0 <= j < k ==> cb.prefilledTxn[j].tx.Some?
    ensures a == b
  {
    hide Position, Filled;
    forall p | 0 <= p < |a| ensures a[p] == b[p] {
      if a[p].Some? {
        var j :| 0 <= j < k && Position(cb.prefilledTxn, j) == p;
      }
    }
  }

  method PlacePrefilled(cb: CompactBlock) returns (ok: bool, slots: Slots)
    ensures ok <==> WellFormed(cb)
    ensures ok ==> slots == Placed(cb, |cb.prefilledTxn|) && PlacedUpTo(cb, |cb.prefilledTxn|, slots)
  {
    hide PlacedUpTo, Position;
    slots := seq(TxCount(cb), i => None);
    NonePlaced(cb, slots);
    var last, i := -1, 0;
    while i < |cb.prefilledTxn|
      invariant 0 <= i <= |cb.prefilledTxn| && PlacedUpTo(cb, i, slots)
      invariant last == if i == 0 then -1 else Position(cb.prefilledTxn, i - 1)
      invariant forall k :: 0 <= k < i ==>
                  && cb.prefilledTxn[k].tx.Some? && Position(cb.prefilledTxn, k) <= 65535
                  && Position(cb.prefilledTxn, k) <= |cb.shortTxIds| + k
    {
      var pre := cb.prefilledTxn[i];
      if pre.tx.None? { return false, slots; }
      last := last + pre.index + 1;
      NextPosition(cb.prefilledTxn, i);
      if last > 65535 { return false, slots; }
      if last > |cb.shortTxIds| + i { return false, slots; }
      PlaceNext(cb, i, slots);
      slots := slots[last := pre.tx];
      i := i + 1;
    }
    PlacedIs(cb, i);
    PlacedUnique(cb, i, slots, Placed(cb, i));
    return true, slots;
  }

  lemma {:induction false} NoneFilled(slots: Slots)
    requires forall i :: 0 <= i < |slots| ==> slots[i].None?
    ensures Filled(slots) == 0
    decreases |slots|
  {
    if slots != [] { NoneFilled(slots[..|slots| - 1]); }
  }

  lemma NonePlaced(cb: CompactBlock, slots: Slots)
    requires |slots| == TxCount(cb) && forall i :: 0 <= i < |slots| ==> slots[i].None?
    ensures PlacedUpTo(cb, 0, slots)
  {
    NoneFilled(slots);
  }

  lemma NextPosition(pre: seq<Prefilled>, i: nat)
    requires i < |pre|
    ensures Position(pre, i) == pre[i].index + if i == 0 then 0 else Position(pre, i - 1) + 1
  {
  }

  lemma PlaceNext(cb: CompactBlock, i: nat, slots: Slots)
    requires i < |cb.prefilledTxn| && PlacedUpTo(cb, i, slots) && cb.prefilledTxn[i].tx.Some?
    requires Position(cb.prefilledTxn, i) <= |cb.shortTxIds| + i
    ensures Position(cb.prefilledTxn, i) < |slots|
    ensures PlacedUpTo(cb, i + 1, slots[Position(cb.prefilledTxn, i) := cb.prefilledTxn[i].tx])
  {
    var p := Position(cb.prefilledTxn, i);
    forall j | 0 <= j < i ensures Position(cb.prefilledTxn, j) < p { PositionsIncrease(cb.prefilledTxn, j, i); }
    FillOne(slots, p, cb.prefilledTxn[i].tx);
  }

  // ----- short ids

  /** p is the slot of one of the first k short ids, namely id. */
  ghost predicate Leads(cb: CompactBlock, slots: Slots, k: nat, id: nat, p: nat)
    requires k <= |cb.shortTxIds|
  {
    exists i :: 0 <= i < k && cb.shortTxIds[i] == id && IsEmptySlot(slots, i, p)
  }

  predicate Distinct(ids: seq<nat>, k: nat)
    requires k <= |ids|
  {
    forall i, j :: 0 <= i < j < k ==> ids[i] != ids[j]
  }

  /** The first k short ids lead to the slots they stand for, all of them if no two are equal. */
  ghost predicate MapsTo(cb: CompactBlock, slots: Slots, ids: map<nat, nat>, k: nat)
    requires k <= |cb.shortTxIds|
  {
    && |ids| <= k && (forall i :: 0 <= i < k ==> cb.shortTxIds[i] in ids)
    && (|ids| == k <==> Distinct(cb.shortTxIds, k))
    && (|ids| == k ==> forall i :: 0 <= i < k ==> IsEmptySlot(slots, i, ids[cb.shortTxIds[i]]))
    && (forall id :: id in ids ==> Leads(cb, slots, k, id, ids[id]))
  }

  lemma LeadsNext(cb: CompactBlock, slots: Slots, i: nat, p: nat)
    requires i < |cb.shortTxIds| && IsEmptySlot(slots, i, p)
    ensures Leads(cb, slots, i + 1, cb.shortTxIds[i], p)
    ensures forall id, q :: Leads(cb, slots, i, id, q) ==> Leads(cb, slots, i + 1, id, q)
  {
    hide IsEmptySlot;
  }

  lemma SizeNext(ids: map<nat, nat>, id: nat, p: nat)
    ensures |ids[id := p]| == if id in ids then |ids| else |ids| + 1
  {
    var after := ids[id := p];
    assert after.Keys == ids.Keys + {id};
    assert |after| == |after.Keys| && |ids| == |ids.Keys|;
    if id in ids { assert after.Keys == ids.Keys; }
  }

  lemma MapNext(cb: CompactBlock, slots: Slots, ids: map<nat, nat>, i: nat, p: nat)
    requires i < |cb.shortTxIds| && MapsTo(cb, slots, ids, i) && IsEmptySlot(slots, i, p)
    ensures MapsTo(cb, slots, ids[cb.shortTxIds[i] := p], i + 1)
  {
    hide IsEmptySlot, Leads, Distinct;
    LeadsNext(cb, slots, i, p);
    SizeNext(ids, cb.shortTxIds[i], p);
    var id := cb.shortTxIds[i];
    if id in ids { LeadsIs(cb, slots, i, id, ids[id]); }
    DistinctNext(cb.shortTxIds, i);
  }

  lemma LeadsIs(cb: CompactBlock, slots: Slots, k: nat, id: nat, p: nat)
    requires k <= |cb.shortTxIds| && Leads(cb, slots, k, id, p)
    ensures id in cb.shortTxIds[..k]
  {
    var i :| 0 <= i < k && cb.shortTxIds[i] == id && IsEmptySlot(slots, i, p);
    assert cb.shortTxIds[..k][i] == id;
  }

  lemma DistinctNext(ids: seq<nat>, k: nat)
    requires k < |ids|
    ensures Distinct(ids, k + 1) <==> Distinct(ids, k) && ids[k] !in ids[..k]
  {
    if Distinct(ids, k + 1) {
      forall j | 0 <= j < k ensures ids[..k][j] != ids[k] { assert ids[j] != ids[k]; }
    }
    if ids[k] !in ids[..k] {
      forall j | 0 <= j < k ensures ids[j] != ids[k] { assert ids[j] in ids[..k]; }
    }
  }

  /** Finds the slots of the short ids; fails if a hash bucket is overfull after one of them, or if two ids are equal. */
  method MapShortIds(cb: CompactBlock, slots: Slots, overfull: nat -> bool) returns (ok: bool, ids: map<nat, nat>)
    requires |slots| == TxCount(cb) && Filled(slots) == |cb.prefilledTxn|
    ensures ok ==> MapsTo(cb, slots, ids, |cb.shortTxIds|) && |ids| == |cb.shortTxIds|
    ensures ok <==> Distinct(cb.shortTxIds, |cb.shortTxIds|) && forall i :: 0 <= i < |cb.shortTxIds| ==> !overfull(i)
  {
    hide Filled, MapsTo, Distinct;
    ids := map[];
    var offset, i := 0, 0;
    NoSlots(cb, slots);
    while i < |cb.shortTxIds|
      invariant 0 <= i <= |cb.shortTxIds| && 0 <= offset && i + offset <= |slots| && Filled(slots[..i + offset]) == offset
      invariant MapsTo(cb, slots, ids, i) && forall j :: 0 <= j < i ==> !overfull(j)
    {
      RoomAhead(slots, i + offset, |cb.shortTxIds|);
      while slots[i + offset].Some?
        invariant 0 <= offset && i + offset < |slots| && Filled(slots[..i + offset]) == offset
        decreases |slots| - offset
      {
        FilledNext(slots, i + offset);
        RoomAhead(slots, i + offset + 1, |cb.shortTxIds|);
        offset := offset + 1;
      }
      FilledNext(slots, i + offset);
      MapNext(cb, slots, ids, i, i + offset);
      ids := ids[cb.shortTxIds[i] := i + offset];
      if overfull(i) { return false, ids; }
      i := i + 1;
    }
    SizeIfDistinct(cb, slots, ids);
    if |ids| != |cb.shortTxIds| { return false, ids; }
    return true, ids;
  }

  lemma SizeIfDistinct(cb: CompactBlock, slots: Slots, ids: map<nat, nat>)
    requires MapsTo(cb, slots, ids, |cb.shortTxIds|)
    ensures |ids| == |cb.shortTxIds| <==> Distinct(cb.shortTxIds, |cb.shortTxIds|)
  {
  }

  lemma NoSlots(cb: CompactBlock, slots: Slots)
    ensures Filled(slots[..0]) == 0 && MapsTo(cb, slots, map[], 0)
  {
  }

  /** As long as fewer than n empty slots have been passed there is another one. */
  lemma RoomAhead(slots: Slots, p: nat, n: nat)
    requires p <= |slots| && Filled(slots) == |slots| - n && p - Filled(slots[..p]) < n
    ensures p < |slots|
  {
    assert slots[..|slots|] == slots;
  }

  // ----- looking for transactions at hand

  ghost predicate Matches(cb: CompactBlock, ids: map<nat, nat>, c: Candidate, p: nat) {
    cb.shortId(c.hash) in ids && ids[cb.shortId(c.hash)] == p
  }

  /** Prefilled slots stay as they are, every other transaction comes from a candidate with the right short id, and
      the count is the number of those. */
  ghost predicate ScanOk(cb: CompactBlock, ids: map<nat, nat>, all: seq<Candidate>, base: Slots, slots: Slots,
        have: seq<bool>, count: nat)
  {
    && |slots| == |base| == |have|
    && (forall p :: 0 <= p < |base| && base[p].Some? ==> slots[p] == base[p])
    && (forall p :: 0 <= p < |base| && base[p].None? && !have[p] ==> slots[p].None?)
    && (forall p :: 0 <= p < |base| && base[p].None? && slots[p].Some? ==>
          exists c :: c in all && c.tx == slots[p].value && Matches(cb, ids, c, p))
    && count + Filled(base) == Filled(slots)
  }

  lemma {:induction false} FilledMore(base: Slots, slots: Slots)
    requires |base| == |slots| && forall p :: 0 <= p < |base| && base[p].Some? ==> slots[p].Some?
    ensures Filled(base) <= Filled(slots)
    decreases |base|
  {
    if base != [] { FilledMore(base[..|base| - 1], slots[..|base| - 1]); }
  }

  lemma TakeKeeps(cb: CompactBlock, ids: map<nat, nat>, all: seq<Candidate>, base: Slots, slots: Slots,
        have: seq<bool>, count: nat, c: Candidate, p: nat)
    requires ScanOk(cb, ids, all, base, slots, have, count) && c in all && Matches(cb, ids, c, p)
    requires p < |slots| && base[p].None? && !have[p]
    ensures ScanOk(cb, ids, all, base, slots[p := Some(c.tx)], have[p := true], count + 1)
  {
    hide Matches;
    FillOne(slots, p, Some(c.tx));
  }

  lemma DropKeeps(cb: CompactBlock, ids: map<nat, nat>, all: seq<Candidate>, base: Slots, slots: Slots,
        have: seq<bool>, count: nat, p: nat)
    requires ScanOk(cb, ids, all, base, slots, have, count) && p < |slots| && base[p].None? && slots[p].Some?
    ensures count > 0 && ScanOk(cb, ids, all, base, slots[p := None], have, count - 1)
  {
    hide Matches;
    FillOne(slots, p, None);
    FilledMore(base, slots[p := None]);
  }

  /** The candidates with indexes in `seen` have been looked at: those that match a slot have marked it, and a marked slot
      is empty only because two of them match it. */
  ghost predicate Noticed(cb: CompactBlock, ids: map<nat, nat>, all: seq<Candidate>, seen: set<nat>,
        base: Slots, slots: Slots, have: seq<bool>)
  {
    && |slots| == |base| == |have| && (forall j :: j in seen ==> j < |all|)
    && (forall j, p :: j in seen && 0 <= p < |have| && Matches(cb, ids, all[j], p) ==> have[p])
    && (forall p :: 0 <= p < |have| && have[p] ==> exists j :: j in seen && Matches(cb, ids, all[j], p))
    && (forall p :: 0 <= p < |have| && have[p] && slots[p].None? ==> Contested(cb, ids, all, p))
  }

  /** Two of the candidates match the slot. */
  ghost predicate Contested(cb: CompactBlock, ids: map<nat, nat>, all: seq<Candidate>, p: nat) {
    exists i, j :: 0 <= i < |all| && 0 <= j < |all| && i != j && Matches(cb, ids, all[i], p) && Matches(cb, ids, all[j], p)
  }

  lemma NoticeTaken(cb: CompactBlock, ids: map<nat, nat>, all: seq<Candidate>, seen: set<nat>, base: Slots,
        slots: Slots, have: seq<bool>, j: nat, p: nat)
    requires Noticed(cb, ids, all, seen, base, slots, have) && j < |all| && Matches(cb, ids, all[j], p) && p < |slots| && !have[p]
    ensures Noticed(cb, ids, all, seen + {j}, base, slots[p := Some(all[j].tx)], have[p := true])
  {
    hide Contested;
  }

  lemma NoticeDropped(cb: CompactBlock, ids: map<nat, nat>, all: seq<Candidate>, seen: set<nat>, base: Slots,
        slots: Slots, have: seq<bool>, j: nat, p: nat)
    requires Noticed(cb, ids, all, seen, base, slots, have) && j < |all| && j !in seen
    requires Matches(cb, ids, all[j], p) && p < |slots| && have[p]
    ensures Noticed(cb, ids, all, seen + {j}, base, slots[p := None], have)
  {
    var i :| i in seen && Matches(cb, ids, all[i], p);
    assert Contested(cb, ids, all, p);
    hide Contested;
  }

  lemma NoticePassed(cb: CompactBlock, ids: map<nat, nat>, all: seq<Candidate>, seen: set<nat>, base: Slots,
        slots: Slots, have: seq<bool>, j: nat)
    requires Noticed(cb, ids, all, seen, base, slots, have) && j < |all|
    requires forall p :: 0 <= p < |have| && Matches(cb, ids, all[j], p) ==> have[p]
    ensures Noticed(cb, ids, all, seen + {j}, base, slots, have)
  {
    hide Contested;
  }

  /** When as many slots are filled from candidates as there are short ids, no slot is left. */
  lemma NothingLeft(base: Slots, slots: Slots, have: seq<bool>, count: nat)
    requires |slots| == |base| == |have| && count + Filled(base) == Filled(slots) == |base|
    requires forall p :: 0 <= p < |base| && base[p].None? && !have[p] ==> slots[p].None?
    ensures forall p :: 0 <= p < |base| && base[p].None? ==> have[p]
  {
    FullMeansAll(slots);
  }

  lemma {:induction false} FullMeansAll(slots: Slots)
    requires Filled(slots) == |slots|
    ensures forall p :: 0 <= p < |slots| ==> slots[p].Some?
    decreases |slots|
  {
    if slots != [] { FullMeansAll(slots[..|slots| - 1]); }
  }

  /** One pass over the candidates from index `from`. A second match for a slot empties it again, unless witness hashes
      are compared and agree; the pass ends early when nothing is missing. */
  method Scan(cb: CompactBlock, ids: map<nat, nat>, candidates: seq<Candidate>, compareHashes: bool, ghost all: seq<Candidate>,
              ghost from: nat, ghost seen0: set<nat>, ghost base: Slots, slots0: Slots, have0: seq<bool>, count0: nat)
    returns (slots: Slots, have: seq<bool>, count: nat, ghost seen: set<nat>)
    requires ScanOk(cb, ids, all, base, slots0, have0, count0) && Noticed(cb, ids, all, seen0, base, slots0, have0)
    requires from + |candidates| <= |all| && all[from..from + |candidates|] == candidates && forall j :: j in seen0 ==> j < from
    requires (forall id :: id in ids ==> ids[id] < |base| && base[ids[id]].None?) && |ids| + Filled(base) == |base|
    ensures ScanOk(cb, ids, all, base, slots, have, count) && Noticed(cb, ids, all, seen, base, slots, have)
    ensures seen0 <= seen && forall j :: j in seen ==> j < from + |candidates|
    ensures forall p :: 0 <= p < |have0| && have0[p] ==> have[p]
    ensures (forall j :: from <= j < from + |candidates| ==> j in seen)
         || (forall p :: 0 <= p < |base| && base[p].None? ==> have[p])
  {
    hide Filled, Noticed;
    slots, have, count, seen := slots0, have0, count0, seen0;
    var i := 0;
    while i < |candidates|
      invariant 0 <= i <= |candidates| && ScanOk(cb, ids, all, base, slots, have, count)
      invariant Noticed(cb, ids, all, seen, base, slots, have) && seen0 <= seen
      invariant (forall j :: j in seen ==> j < from + i) && (forall j :: from <= j < from + i ==> j in seen)
      invariant forall p :: 0 <= p < |have0| && have0[p] ==> have[p]
    {
      assert all[from + i] == all[from..from + |candidates|][i];
      slots, have, count := Offer(cb, ids, candidates[i], compareHashes, all, from + i, seen, base, slots, have, count);
      seen := seen + {from + i};
      if count == |ids| {
        NothingLeft(base, slots, have, count);
        break;
      }
      i := i + 1;
    }
  }

  method Offer(cb: CompactBlock, ids: map<nat, nat>, c: Candidate, compareHashes: bool, ghost all: seq<Candidate>, ghost j: nat,
               ghost seen: set<nat>, ghost base: Slots, slots0: Slots, have0: seq<bool>, count0: nat)
    returns (slots: Slots, have: seq<bool>, count: nat)
    requires ScanOk(cb, ids, all, base, slots0, have0, count0) && Noticed(cb, ids, all, seen, base, slots0, have0)
    requires j < |all| && all[j] == c && j !in seen
    requires forall id :: id in ids ==> ids[id] < |base| && base[ids[id]].None?
    ensures ScanOk(cb, ids, all, base, slots, have, count) && Noticed(cb, ids, all, seen + {j}, base, slots, have)
    ensures forall p :: 0 <= p < |have0| && have0[p] ==> have[p]
  {
    hide Filled, Noticed;
    slots, have, count := slots0, have0, count0;
    var id := cb.shortId(c.hash);
    if id in ids {
      var p := ids[id];
      if !have[p] {
        TakeKeeps(cb, ids, all, base, slots, have, count, c, p);
        NoticeTaken(cb, ids, all, seen, base, slots, have, j, p);
        slots, have, count := slots[p := Some(c.tx)], have[p := true], count + 1;
      } else if slots[p].Some? && (!compareHashes || slots[p].value.witnessHash != c.tx.witnessHash) {
        DropKeeps(cb, ids, all, base, slots, have, count, p);
        NoticeDropped(cb, ids, all, seen, base, slots, have, j, p);
        slots, count := slots[p := None], count - 1;
      } else {
        NoticePassed(cb, ids, all, seen, base, slots, have, j);
      }
    } else {
      NoticePassed(cb, ids, all, seen, base, slots, have, j);
    }
  }

  /** A slot stays empty only if no candidate matches it or two do. */
  ghost predicate NothingOverlooked(cb: CompactBlock, ids: map<nat, nat>, all: seq<Candidate>, base: Slots, slots: Slots) {
    forall p :: 0 <= p < |base| && p < |slots| && base[p].None? && slots[p].None? ==>
      Contested(cb, ids, all, p) || forall j :: 0 <= j < |all| ==> !Matches(cb, ids, all[j], p)
  }

  // ----- the block

  /** The announcement describes the block: whole transactions where it has them, short ids for the others. */
  ghost predicate Describes(cb: CompactBlock, vtx: seq<Tx>, useWtxid: bool) {
    && WellFormed(cb) && |vtx| == TxCount(cb)
    && (forall k :: 0 <= k < |cb.prefilledTxn| ==>
          Position(cb.prefilledTxn, k) < |vtx| && cb.prefilledTxn[k].tx == Some(vtx[Position(cb.prefilledTxn, k)]))
    && (forall i: nat, p: nat :: i < |cb.shortTxIds| && p < |vtx| && IsEmptySlot(Placed(cb, |cb.prefilledTxn|), i, p) ==>
          cb.shortTxIds[i] == cb.shortId(HashOf(vtx[p], useWtxid)))
  }

  /** No transaction at hand has the short id of a different transaction of the block. */
  ghost predicate NoCollision(cb: CompactBlock, vtx: seq<Tx>, useWtxid: bool, all: seq<Candidate>) {
    forall c, p :: c in all && 0 <= p < |vtx| && cb.shortId(c.hash) == cb.shortId(HashOf(vtx[p], useWtxid)) ==> c.tx == vtx[p]
  }

  /** The announcement of a block, with the coinbase in full. */
  method FromBlock(vtx: seq<Tx>, useWtxid: bool, shortId: nat -> nat) returns (cb: CompactBlock)
    requires vtx != []
    ensures !cb.headerIsNull && cb.shortId == shortId && Describes(cb, vtx, useWtxid)
    ensures |cb.prefilledTxn| == 1 && |cb.shortTxIds| == |vtx| - 1
  {
    var shortTxIds: seq<nat> := [];
    var i := 1;
    while i < |vtx|
      invariant 1 <= i <= |vtx| && |shortTxIds| == i - 1
      invariant forall j :: 1 <= j < i ==> shortTxIds[j - 1] == shortId(HashOf(vtx[j], useWtxid))
    {
      shortTxIds := shortTxIds + [shortId(HashOf(vtx[i], useWtxid))];
      i := i + 1;
    }
    cb := CompactBlock(false, shortId, shortTxIds, [Prefilled(0, Some(vtx[0]))]);
    CoinbaseFirst(cb, vtx[0]);
    assert Position(cb.prefilledTxn, 0) == 0;
  }

  lemma CoinbaseFirst(cb: CompactBlock, coinbase: Tx)
    requires cb.prefilledTxn == [Prefilled(0, Some(coinbase))]
    ensures WellFormed(cb) && forall i: nat, p: nat :: IsEmptySlot(Placed(cb, 1), i, p) ==> p == i + 1
  {
    assert Position(cb.prefilledTxn, 0) == 0;
    var slots := Placed(cb, 1);
    assert slots == Placed(cb, 0)[0 := Some(coinbase)];
    forall i: nat, p: nat | IsEmptySlot(slots, i, p) ensures p == i + 1 {
      FilledSplit(slots[..p], 1);
      assert slots[..p][..1] == [Some(coinbase)] && Filled([Some(coinbase)]) == 1;
      NoneFilled(slots[..p][1..]);
    }
  }

  /** The transactions of the block that are not at hand, in order. */
  function Missing(vtx: seq<Tx>, slots: Slots): (m: seq<Tx>)
    requires |vtx| == |slots|
    ensures |m| + Filled(slots) == |slots|
  {
    if vtx == [] then []
    else
      var n := |vtx| - 1;
      Missing(vtx[..n], slots[..n]) + if slots[n].None? then [vtx[n]] else []
  }

  /** What FillBlock puts together: the slots with the missing transactions in the gaps. */
  function Merge(slots: Slots, missing: seq<Tx>): (vtx: seq<Tx>)
    requires |missing| + Filled(slots) == |slots|
    ensures |vtx| == |slots|
  {
    if slots == [] then []
    else
      var n := |slots| - 1;
      if slots[n].Some? then Merge(slots[..n], missing) + [slots[n].value]
      else
        FilledMost(slots[..n]);
        Merge(slots[..n], missing[..|missing| - 1]) + [missing[|missing| - 1]]
  }

  lemma FilledMost(slots: Slots)
    ensures Filled(slots) <= |slots|
  {
  }

  ghost predicate Agrees(vtx: seq<Tx>, slots: Slots) {
    |vtx| == |slots| && forall p :: 0 <= p < |slots| && slots[p].Some? ==> slots[p].value == vtx[p]
  }

  /** The gaps filled with what is missing give the block back. */
  lemma {:induction false} MergeMissing(vtx: seq<Tx>, slots: Slots)
    requires Agrees(vtx, slots)
    ensures Merge(slots, Missing(vtx, slots)) == vtx
    decreases |vtx|
  {
    if vtx != [] {
      var n := |vtx| - 1;
      MergeMissing(vtx[..n], slots[..n]);
      assert vtx == vtx[..n] + [vtx[n]];
      var m, front := Missing(vtx, slots), Missing(vtx[..n], slots[..n]);
      if slots[n].None? {
        assert m == front + [vtx[n]] && m[..|m| - 1] == front;
      } else {
        assert m == front;
      }
    }
  }

  /** What InitData leaves: the prefilled transactions, and for some of the other slots a transaction at hand that has
      the short id given for the slot. */
  ghost predicate Initialized(cb: CompactBlock, all: seq<Candidate>, slots: Slots) {
    && WellFormed(cb) && |slots| == TxCount(cb)
    && var base := Placed(cb, |cb.prefilledTxn|);
       && (forall p :: 0 <= p < |slots| && base[p].Some? ==> slots[p] == base[p])
       && (forall p :: 0 <= p < |slots| && base[p].None? && slots[p].Some? ==>
             exists c :: c in all && c.tx == slots[p].value && Leads(cb, base, |cb.shortTxIds|, cb.shortId(c.hash), p))
       && (forall p :: 0 <= p < |slots| && slots[p].None? ==> RightlyEmpty(cb, all, base, p))
  }

  /** No candidate has the short id of the slot, or two have it. */
  ghost predicate RightlyEmpty(cb: CompactBlock, all: seq<Candidate>, base: Slots, p: nat) {
    || (forall j :: 0 <= j < |all| ==> !Leads(cb, base, |cb.shortTxIds|, cb.shortId(all[j].hash), p))
    || (exists i, j :: 0 <= i < |all| && 0 <= j < |all| && i != j
          && Leads(cb, base, |cb.shortTxIds|, cb.shortId(all[i].hash), p)
          && Leads(cb, base, |cb.shortTxIds|, cb.shortId(all[j].hash), p))
  }

  lemma ScanInitializes(cb: CompactBlock, ids: map<nat, nat>, all: seq<Candidate>, slots: Slots, have: seq<bool>, count: nat)
    requires WellFormed(cb) && MapsTo(cb, Placed(cb, |cb.prefilledTxn|), ids, |cb.shortTxIds|) && |ids| == |cb.shortTxIds|
    requires ScanOk(cb, ids, all, Placed(cb, |cb.prefilledTxn|), slots, have, count)
    requires NothingOverlooked(cb, ids, all, Placed(cb, |cb.prefilledTxn|), slots)
    ensures Initialized(cb, all, slots)
  {
    hide Leads, Filled, MapsTo;
    var base := Placed(cb, |cb.prefilledTxn|);
    forall c: Candidate, p: nat ensures Matches(cb, ids, c, p) <==> Leads(cb, base, |cb.shortTxIds|, cb.shortId(c.hash), p) {
      MatchIsLead(cb, base, ids, c, p);
    }
  }

  lemma MatchIsLead(cb: CompactBlock, base: Slots, ids: map<nat, nat>, c: Candidate, p: nat)
    requires MapsTo(cb, base, ids, |cb.shortTxIds|) && |ids| == |cb.shortTxIds|
    ensures Matches(cb, ids, c, p) <==> Leads(cb, base, |cb.shortTxIds|, cb.shortId(c.hash), p)
  {
    hide IsEmptySlot, Distinct;
    var id := cb.shortId(c.hash);
    if Leads(cb, base, |cb.shortTxIds|, id, p) {
      var i :| 0 <= i < |cb.shortTxIds| && cb.shortTxIds[i] == id && IsEmptySlot(base, i, p);
      EmptySlotUnique(base, i, p, ids[id]);
    }
  }

  lemma EmptySlotUnique(slots: Slots, i: nat, p: nat, q: nat)
    requires IsEmptySlot(slots, i, p) && IsEmptySlot(slots, i, q)
    ensures p == q
  {
    if p < q { EmptySlotsOrdered(slots, p, q); }
    if q < p { EmptySlotsOrdered(slots, q, p); }
  }

  lemma EmptySlotsOrdered(slots: Slots, p: nat, q: nat)
    requires p < q <= |slots| && slots[p].None?
    ensures p - Filled(slots[..p]) < q - Filled(slots[..q])
  {
    FilledSplit(slots[..q], p + 1);
    FilledNext(slots, p);
    assert slots[..q][..p + 1] == slots[..p + 1];
    FilledMost(slots[..q][p + 1..]);
  }

  /** Without collisions every transaction put in place is the right one. */
  lemma InitializedAgrees(cb: CompactBlock, vtx: seq<Tx>, useWtxid: bool, all: seq<Candidate>, slots: Slots)
    requires Initialized(cb, all, slots) && Describes(cb, vtx, useWtxid) && NoCollision(cb, vtx, useWtxid, all)
    ensures Agrees(vtx, slots)
  {
    var base := Placed(cb, |cb.prefilledTxn|);
    PlacedIs(cb, |cb.prefilledTxn|);
    forall p | 0 <= p < |slots| && slots[p].Some? ensures slots[p].value == vtx[p] {
      SlotAgrees(cb, vtx, useWtxid, all, slots, base, p);
    }
  }

  lemma SlotAgrees(cb: CompactBlock, vtx: seq<Tx>, useWtxid: bool, all: seq<Candidate>, slots: Slots, base: Slots, p: nat)
    requires Initialized(cb, all, slots) && Describes(cb, vtx, useWtxid) && NoCollision(cb, vtx, useWtxid, all)
    requires base == Placed(cb, |cb.prefilledTxn|) && PlacedUpTo(cb, |cb.prefilledTxn|, base)
    requires p < |slots| && slots[p].Some?
    ensures slots[p].value == vtx[p]
  {
    hide Filled, Placed, Position, WellFormed;
    if base[p].Some? {
      var j :| 0 <= j < |cb.prefilledTxn| && Position(cb.prefilledTxn, j) == p;
    } else {
      var c :| c in all && c.tx == slots[p].value && Leads(cb, base, |cb.shortTxIds|, cb.shortId(c.hash), p);
      var i :| 0 <= i < |cb.shortTxIds| && cb.shortTxIds[i] == cb.shortId(c.hash) && IsEmptySlot(base, i, p);
    }
  }

  /** The whole exchange: announced, looked up, and completed with what is missing, the block comes out as it was. */
  lemma BlockRebuilt(cb: CompactBlock, vtx: seq<Tx>, useWtxid: bool, all: seq<Candidate>, slots: Slots)
    requires Initialized(cb, all, slots) && Describes(cb, vtx, useWtxid) && NoCollision(cb, vtx, useWtxid, all)
    ensures |vtx| == |slots| && Merge(slots, Missing(vtx, slots)) == vtx
  {
    InitializedAgrees(cb, vtx, useWtxid, all, slots);
    MergeMissing(vtx, slots);
  }

  /** The slots after those before position i have been moved out. */
  function Emptied(slots: Slots, i: nat): Slots
    requires i <= |slots|
  {
    seq(i, _ => None) + slots[i..]
  }

  /** FillBlock stopped at the gap in position i, for which there was no transaction any more. */
  ghost predicate StoppedAt(before: Slots, after: Slots, given: nat, i: nat) {
    i < |before| && before[i].None? && i == given + Filled(before[..i]) && after == Emptied(before, i)
  }

  class PartiallyDownloadedBlock {
    const pool: seq<Candidate>
    var headerIsNull: bool
    var txnAvailable: Slots
    var prefilledCount: nat
    var mempoolCount: nat

    constructor (pool: seq<Candidate>)
      ensures headerIsNull && txnAvailable == [] && prefilledCount == 0 && mempoolCount == 0 && this.pool == pool
    {
      this.pool, headerIsNull, txnAvailable, prefilledCount, mempoolCount := pool, true, [], 0, 0;
    }

    /** Announcements with more than 65535 transactions do not come through deserialization. */
    method InitData(cb: CompactBlock, extraTxn: seq<Candidate>, overfull: nat -> bool)
      returns (status: ReadStatus, ghost all: seq<Candidate>)
      requires headerIsNull && txnAvailable == [] && mempoolCount == 0 && TxCount(cb) <= 65535
      modifies this
      ensures status.Invalid? <==> cb.headerIsNull || TxCount(cb) == 0 || !WellFormed(cb)
      ensures !status.Invalid? ==>
                (status.Ok? <==>
                   && Distinct(cb.shortTxIds, |cb.shortTxIds|)
                   && forall i :: 0 <= i < |cb.shortTxIds| ==> !overfull(i))
      ensures all == pool + extraTxn
      ensures status.Ok? ==> Initialized(cb, all, txnAvailable) && !headerIsNull
      ensures status.Ok? ==> prefilledCount == |cb.prefilledTxn| && mempoolCount + prefilledCount == Filled(txnAvailable)
    {
      hide Filled, MapsTo, Initialized, Distinct, NothingOverlooked, WellFormed, Placed;
      all := pool + extraTxn;
      if cb.headerIsNull || (|cb.shortTxIds| == 0 && |cb.prefilledTxn| == 0) { return Invalid, all; }
      if TxCount(cb) > MAX_BLOCK_WEIGHT / MIN_SERIALIZABLE_TRANSACTION_WEIGHT { return Invalid, all; }
      headerIsNull := cb.headerIsNull;
      var ok, base := PlacePrefilled(cb);
      txnAvailable := base;
      if !ok { return Invalid, all; }
      prefilledCount := |cb.prefilledTxn|;
      var fine, ids := MapShortIds(cb, base, overfull);
      if !fine { return Failed, all; }
      var slots, have, count := FindAtHand(cb, ids, base, pool, extraTxn, all);
      ScanInitializes(cb, ids, all, slots, have, count);
      txnAvailable, mempoolCount := slots, count;
      return Ok, all;
    }

    /** Fills the gaps; too few or too many transactions are an error. Whether the block is then valid is for
        CheckBlock to say. After too few the header stays set, so the method may be called again, but the slots passed
        have lost their transactions. */
    method FillBlock(vtxMissing: seq<Tx>, checkBlock: bool, corruptionPossible: bool) returns (status: ReadStatus, vtx: seq<Tx>)
      requires !headerIsNull
      modifies this
      ensures |vtxMissing| + old(Filled(txnAvailable)) != |old(txnAvailable)| <==> status.Invalid?
      ensures !status.Invalid? ==> headerIsNull && txnAvailable == [] && vtx == Merge(old(txnAvailable), vtxMissing)
      ensures !status.Invalid? ==> (status.Ok? <==> checkBlock) && (status.Failed? <==> !checkBlock && corruptionPossible)
      ensures headerIsNull <==> |vtxMissing| + old(Filled(txnAvailable)) >= |old(txnAvailable)|
      ensures headerIsNull ==> txnAvailable == []
      ensures !headerIsNull ==> exists i: nat :: StoppedAt(old(txnAvailable), txnAvailable, |vtxMissing|, i)
    {
      hide Filled, Merge;
      vtx := [];
      var offset, i := 0, 0;
      ghost var slots := txnAvailable;
      NothingMerged(slots, vtxMissing);
      while i < |txnAvailable|
        invariant 0 <= i <= |txnAvailable| == |slots| && 0 <= offset <= |vtxMissing| && offset + Filled(slots[..i]) == i
        invariant vtx == Merge(slots[..i], vtxMissing[..offset])
        invariant txnAvailable == Emptied(slots, i) && !headerIsNull
      {
        MergeNext(slots, i, vtxMissing, offset);
        assert txnAvailable[i] == slots[i] && Emptied(slots, i)[i := None] == Emptied(slots, i + 1);
        if txnAvailable[i].None? {
          assert Emptied(slots, i)[i := None] == Emptied(slots, i);
          if |vtxMissing| <= offset {
            MoreGaps(slots, i);
            assert StoppedAt(slots, txnAvailable, |vtxMissing|, i);
            return Invalid, vtx;
          }
          vtx := vtx + [vtxMissing[offset]];
          offset := offset + 1;
        } else {
          vtx := vtx + [txnAvailable[i].value];
          txnAvailable := txnAvailable[i := None];
        }
        i := i + 1;
      }
      assert slots[..i] == slots;
      headerIsNull := true;
      txnAvailable := [];
      if |vtxMissing| != offset { return Invalid, vtx; }
      assert vtxMissing[..offset] == vtxMissing;
      if !checkBlock {
        return if corruptionPossible then Failed else CheckBlockFailed, vtx;
      }
      return Ok, vtx;
    }
  }

  lemma NothingMerged(slots: Slots, missing: seq<Tx>)
    ensures Filled(slots[..0]) == 0 && Merge(slots[..0], missing[..0]) == []
  {
  }

  lemma MergeNext(slots: Slots, i: nat, missing: seq<Tx>, offset: nat)
    requires i < |slots| && offset <= |missing| && offset + Filled(slots[..i]) == i
    ensures slots[i].Some? ==> offset + Filled(slots[..i + 1]) == i + 1
    ensures slots[i].Some? ==> Merge(slots[..i + 1], missing[..offset]) == Merge(slots[..i], missing[..offset]) + [slots[i].value]
    ensures slots[i].None? && offset < |missing| ==> offset + 1 + Filled(slots[..i + 1]) == i + 1
    ensures slots[i].None? && offset < |missing| ==>
              Merge(slots[..i + 1], missing[..offset + 1]) == Merge(slots[..i], missing[..offset]) + [missing[offset]]
  {
    FilledNext(slots, i);
    assert slots[..i + 1][..i] == slots[..i];
    if offset < |missing| { assert missing[..offset + 1][..offset] == missing[..offset]; }
  }

  lemma MoreGaps(slots: Slots, i: nat)
    requires i < |slots| && slots[i].None?
    ensures |slots| - Filled(slots) > i - Filled(slots[..i])
  {
    FilledSplit(slots, i + 1);
    FilledNext(slots, i);
    FilledMost(slots[i + 1..]);
  }

  /** Both passes: the mempool first, then the extra transactions. */
  method FindAtHand(cb: CompactBlock, ids: map<nat, nat>, base: Slots, pool: seq<Candidate>,
        extra: seq<Candidate>, ghost all: seq<Candidate>)
    returns (slots: Slots, have: seq<bool>, count: nat)
    requires |base| == TxCount(cb) && MapsTo(cb, base, ids, |cb.shortTxIds|) && all == pool + extra
    requires |ids| + Filled(base) == |base|
    ensures ScanOk(cb, ids, all, base, slots, have, count) && NothingOverlooked(cb, ids, all, base, slots)
  {
    hide Filled, Noticed;
    EmptyTargets(cb, base, ids);
    slots, have, count := base, seq(|base|, i => false), 0;
    ghost var seen: set<nat> := {};
    NothingNoticed(cb, ids, all, base, have);
    slots, have, count, seen := Scan(cb, ids, pool, false, all, 0, seen, base, slots, have, count);
    slots, have, count, seen := Scan(cb, ids, extra, true, all, |pool|, seen, base, slots, have, count);
    AllNoticed(cb, ids, all, seen, base, slots, have);
  }

  lemma NothingNoticed(cb: CompactBlock, ids: map<nat, nat>, all: seq<Candidate>, base: Slots, have: seq<bool>)
    requires |have| == |base| && forall p :: 0 <= p < |have| ==> !have[p]
    ensures Noticed(cb, ids, all, {}, base, base, have)
  {
  }

  lemma AllNoticed(cb: CompactBlock, ids: map<nat, nat>, all: seq<Candidate>, seen: set<nat>, base: Slots,
        slots: Slots, have: seq<bool>)
    requires Noticed(cb, ids, all, seen, base, slots, have)
    requires (forall j :: 0 <= j < |all| ==> j in seen) || forall p :: 0 <= p < |base| && base[p].None? ==> have[p]
    ensures NothingOverlooked(cb, ids, all, base, slots)
  {
    hide Contested, Matches;
  }

  lemma EmptyTargets(cb: CompactBlock, base: Slots, ids: map<nat, nat>)
    requires MapsTo(cb, base, ids, |cb.shortTxIds|)
    ensures forall id :: id in ids ==> ids[id] < |base| && base[ids[id]].None?
  {
  }
}
