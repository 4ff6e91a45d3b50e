/** The database under the caches. A write is cut into batches, each of which reaches the disk completely or not at
    all, so what counts is every state that the disk goes through. */
module CoinsDatabase {
  import opened Wrappers
  import opened CoinsStack

  // ----- merging one entry at a time

  lemma MergeDatabaseStep(coins: Utxo, done: CoinsMap, o: OutPoint, e: Entry)
    requires o !in done
    ensures var before := MergeDatabase(coins, done);
            MergeDatabase(coins, done[o := e]) ==
              if !e.isDirty then before else if e.coin.IsSpent() then before - {o} else before[o := e.coin]
  {
    var before := MergeDatabase(coins, done);
    var after := if !e.isDirty then before else if e.coin.IsSpent() then before - {o} else before[o := e.coin];
    forall p ensures LookUp(MergeDatabase(coins, done[o := e]), p) == LookUp(after, p) {}
    SameLookUps(MergeDatabase(coins, done[o := e]), after);
  }

  lemma MergeNone(coins: Utxo)
    ensures MergeDatabase(coins, map[]) == coins
  {
    forall o ensures LookUp(MergeDatabase(coins, map[]), o) == LookUp(coins, o) {}
    SameLookUps(MergeDatabase(coins, map[]), coins);
  }

  /** The entries a write-back loop has erased from the child's map and those still in it. */
  ghost predicate Split(child: CoinsMap, done: CoinsMap, rest: CoinsMap) {
    done == child - rest.Keys && rest == child - done.Keys
  }

  lemma SplitEnds(child: CoinsMap, done: CoinsMap)
    ensures Split(child, map[], child)
    ensures Split(child, done, map[]) ==> done == child
  {
  }

  lemma MoveKey(child: CoinsMap, done: CoinsMap, rest: CoinsMap, o: OutPoint)
    requires Split(child, done, rest) && o in rest
    ensures o !in done
    ensures Split(child, done[o := rest[o]], rest - {o}) && |rest - {o}| < |rest|
  {
    assert rest.Keys == (rest - {o}).Keys + {o};
  }

  // ----- what is on the disk

  /** The null hash. */
  const NO_BLOCK: nat := 0

  /** The block a write leads to, and the block it started from. */
  datatype Transition = Transition(to: nat, from: nat)

  datatype Disk = Disk(coins: Utxo, best: Option<nat>, heads: Option<Transition>)

  datatype Change =
    | PutCoin(o: OutPoint, coin: Coin)
    | EraseCoin(o: OutPoint)
    | PutBest(hash: nat)
    | EraseBest
    | PutHeads(heads: Transition)
    | EraseHeads

  function Changed(d: Disk, c: Change): Disk {
    match c
    case PutCoin(o, coin) => d.(coins := d.coins[o := coin])
    case EraseCoin(o) => d.(coins := d.coins - {o})
    case PutBest(hash) => d.(best := Some(hash))
    case EraseBest => d.(best := None)
    case PutHeads(heads) => d.(heads := Some(heads))
    case EraseHeads => d.(heads := None)
  }

  /** The disk after a batch. */
  function Written(d: Disk, batch: seq<Change>): Disk {
    if batch == [] then d else Changed(Written(d, batch[..|batch| - 1]), batch[|batch| - 1])
  }

  lemma WrittenMore(d: Disk, batch: seq<Change>, c: Change)
    ensures Written(d, batch + [c]) == Changed(Written(d, batch), c)
  {
    assert (batch + [c])[..|batch|] == batch;
  }

  /** What one entry of a cache contributes to a batch. */
  function ChangesFor(o: OutPoint, e: Entry): seq<Change> {
    if !e.isDirty then [] else if e.coin.IsSpent() then [EraseCoin(o)] else [PutCoin(o, e.coin)]
  }

  lemma EntryWritten(d: Disk, batch: seq<Change>, before: Utxo, done: CoinsMap, o: OutPoint, e: Entry, t: Transition)
    requires o !in done && Written(d, batch) == Disk(MergeDatabase(before, done), None, Some(t))
    ensures Written(d, batch + ChangesFor(o, e)) == Disk(MergeDatabase(before, done[o := e]), None, Some(t))
  {
    hide MergeDatabase, Written;
    MergeDatabaseStep(before, done, o, e);
    if e.isDirty {
      WrittenMore(d, batch, ChangesFor(o, e)[0]);
    } else {
      assert batch + [] == batch;
    }
  }

  // ----- a write that stops half-way

  /** Each coin is as it was before the write or as it is to be after it. */
  ghost predicate Partial(before: Utxo, child: CoinsMap, coins: Utxo) {
    forall o :: LookUp(coins, o) == LookUp(before, o) || LookUp(coins, o) == LookUp(MergeDatabase(before, child), o)
  }

  /** What the disk looks like in the middle of a write: it names no best block but the transition. */
  ghost predicate Interrupted(d: Disk, before: Utxo, child: CoinsMap, heads: Transition) {
    d.best.None? && d.heads == Some(heads) && Partial(before, child, d.coins)
  }

  lemma PartWritten(before: Utxo, child: CoinsMap, done: CoinsMap, rest: CoinsMap, heads: Transition)
    requires Split(child, done, rest)
    ensures Interrupted(Disk(MergeDatabase(before, done), None, Some(heads)), before, child, heads)
  {
    forall o ensures var coins := MergeDatabase(before, done);
                     LookUp(coins, o) == LookUp(before, o) || LookUp(coins, o) == LookUp(MergeDatabase(before, child), o) {
      assert o in done ==> o in child && done[o] == child[o];
    }
  }

  /** The block that a write starts from; a write over an interrupted one starts where that one did. */
  function OldTip(d: Disk): nat {
    if d.best.Some? then d.best.value
    else if d.heads.Some? then d.heads.value.from
    else NO_BLOCK
  }

  /** Writing the same changes over an interrupted write, from the same block, completes it: nothing of the first
      attempt is left over. */
  lemma WriteAgain(d: Disk, before: Utxo, child: CoinsMap, heads: Transition)
    requires Interrupted(d, before, child, heads)
    ensures OldTip(d) == heads.from && MergeDatabase(d.coins, child) == MergeDatabase(before, child)
  {
    forall o ensures LookUp(MergeDatabase(d.coins, child), o) == LookUp(MergeDatabase(before, child), o) {
      assert LookUp(d.coins, o) == LookUp(before, o) || LookUp(d.coins, o) == LookUp(MergeDatabase(before, child), o);
    }
    SameLookUps(MergeDatabase(d.coins, child), MergeDatabase(before, child));
  }

  /** All states since then are of an interrupted write. */
  ghost predicate Continues(history: seq<Disk>, was: seq<Disk>, before: Utxo, child: CoinsMap, heads: Transition) {
    && was <= history
    && forall i :: |was| <= i < |history| ==> Interrupted(history[i], before, child, heads)
  }

  lemma ContinuesMore(history: seq<Disk>, was: seq<Disk>, before: Utxo, child: CoinsMap, heads: Transition, d: Disk)
    requires Continues(history, was, before, child, heads) && Interrupted(d, before, child, heads)
    ensures Continues(history + [d], was, before, child, heads)
  {
  }

  /** The bottom of every stack. */
  class CoinsViewDB {
    var coins: Utxo
    var best: Option<nat>
    var heads: Option<Transition>
    /** The states of the disk after each batch so far. */
    ghost var history: seq<Disk>

    constructor (coins: Utxo)
      ensures this.coins == coins && best == None && heads == None && history == []
    {
      this.coins := coins;
      best, heads, history := None, None, [];
    }

    function OnDisk(): Disk
      reads this
    {
      Disk(coins, best, heads)
    }

    method GetCoin(o: OutPoint) returns (coin: Option<Coin>)
      ensures coin == LookUp(coins, o)
    {
      coin := if o in coins then Some(coins[o]) else None;
    }

    method GetBestBlock() returns (hash: nat)
      ensures hash == if best.Some? then best.value else NO_BLOCK
    {
      hash := if best.Some? then best.value else NO_BLOCK;
    }

    /** What BatchWrite asserts: a block is named, and an interrupted write is only followed by one to the same block. */
    predicate Expects(hashBlock: nat)
      reads this
    {
      hashBlock != NO_BLOCK && (best.None? && heads.Some? ==> heads.value.to == hashBlock)
    }

    /** One batch reaches the disk at once. */
    method WriteBatch(batch: seq<Change>)
      modifies this
      ensures OnDisk() == Written(old(OnDisk()), batch) && history == old(history) + [OnDisk()]
    {
      var after := Written(OnDisk(), batch);
      coins, best, heads := after.coins, after.best, after.heads;
      history := history + [after];
    }

    /** Writes the dirty entries, in whatever order the hash map yields them, in as many batches as `full` says: the
        batch is written when it is full after the k-th entry. Wherever the write is cut off, the disk is as before,
        or interrupted with the transition on record, or finished. */
    method BatchWrite(child: CoinsMap, hashBlock: nat, full: nat -> bool)
      requires Expects(hashBlock)
      modifies this
      ensures coins == MergeDatabase(old(coins), child) && best == Some(hashBlock) && heads == None
      ensures old(history) < history && history[|history| - 1] == OnDisk()
      ensures var heads := Transition(hashBlock, OldTip(old(OnDisk())));
              Continues(history[..|history| - 1], old(history), old(coins), child, heads)
    {
      hide MergeDatabase, Split, Written, Interrupted, ChangesFor;
      ghost var before := coins;
      var transition := Transition(hashBlock, OldTip(OnDisk()));
      var batch := [EraseBest, PutHeads(transition)];
      MarkedFirst(OnDisk(), transition);
      var rest := child;
      ghost var done: CoinsMap := map[];
      SplitEnds(child, done);
      MergeNone(coins);
      var count: nat := 0;
      while rest != map[]
        invariant Split(child, done, rest)
        invariant Written(OnDisk(), batch) == Disk(MergeDatabase(before, done), None, Some(transition))
        invariant Continues(history, old(history), before, child, transition)
        decreases |rest|
      {
        var o :| o in rest;
        var e := rest[o];
        MoveKey(child, done, rest, o);
        EntryWritten(OnDisk(), batch, before, done, o, e, transition);
        batch := batch + ChangesFor(o, e);
        done := done[o := e];
        rest := rest - {o};
        if full(count) {
          PartWritten(before, child, done, rest, transition);
          ContinuesMore(history, old(history), before, child, transition, Written(OnDisk(), batch));
          WriteBatch(batch);
          batch := [];
          WrittenNone(OnDisk());
        }
        count := count + 1;
      }
      SplitEnds(child, done);
      WrittenMore(OnDisk(), batch, EraseHeads);
      WrittenMore(OnDisk(), batch + [EraseHeads], PutBest(hashBlock));
      ghost var middle := history;
      WriteBatch(batch + [EraseHeads] + [PutBest(hashBlock)]);
      assert history[..|history| - 1] == middle;
    }
  }

  lemma MarkedFirst(d: Disk, t: Transition)
    ensures Written(d, [EraseBest, PutHeads(t)]) == Disk(d.coins, None, Some(t))
  {
    WrittenMore(d, [EraseBest], PutHeads(t));
    WrittenMore(d, [], EraseBest);
    assert [EraseBest] + [PutHeads(t)] == [EraseBest, PutHeads(t)];
    assert [] + [EraseBest] == [EraseBest];
  }

  lemma WrittenNone(d: Disk)
    ensures Written(d, []) == d
  {
  }
}
