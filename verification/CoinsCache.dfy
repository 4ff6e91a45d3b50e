/** The view objects: a database view and caches linked to their base by reference. Every method is proved
    against the value-level stack of module CoinsStack. */
module CoinsCache {
  import opened Wrappers
  import opened CoinsStack
  import opened CoinsDatabase

  // ----- the memory an entry accounts for

  /** Sum of the memory usage of the cached coins; `usage` is what the allocator charges for a script, and an
      empty one costs nothing. */
  ghost function TotalUsage(entries: CoinsMap, usage: Script -> nat): nat
    decreases |entries|
  {
    if entries == map[] then 0
    else
      var o :| o in entries;
      usage(entries[o].coin.out.script) + TotalUsage(entries - {o}, usage)
  }

  lemma {:induction false} UsageWithout(entries: CoinsMap, usage: Script -> nat, o: OutPoint)
    requires o in entries
    ensures TotalUsage(entries, usage) == usage(entries[o].coin.out.script) + TotalUsage(entries - {o}, usage)
    decreases |entries|
  {
    var p :| p in entries && TotalUsage(entries, usage) == usage(entries[p].coin.out.script) + TotalUsage(entries - {p}, usage);
    if p != o {
      UsageWithout(entries - {p}, usage, o);
      UsageWithout(entries - {o}, usage, p);
      assert entries - {p} - {o} == entries - {o} - {p};
    }
  }

  lemma UsageAfterUpdate(entries: CoinsMap, usage: Script -> nat, o: OutPoint, e: Entry)
    ensures TotalUsage(entries[o := e], usage) == TotalUsage(entries - {o}, usage) + usage(e.coin.out.script)
    ensures o !in entries ==> entries - {o} == entries
  {
    UsageWithout(entries[o := e], usage, o);
    assert entries[o := e] - {o} == entries - {o};
  }

  // ----- writing back one entry at a time

  function SetAt(entries: CoinsMap, o: OutPoint, e: Option<Entry>): CoinsMap {
    if e.Some? then entries[o := e.value] else entries - {o}
  }

  /** No FRESH flag of the child contradicts our cache. */
  ghost predicate Applies(ours: CoinsMap, child: CoinsMap) {
    forall o :: !Misapplied(ours, child, o)
  }

  /** While the flags mean what they should, a flush never stops half-way. */
  lemma FlushApplies(s: Stack)
    requires s.Cache?
    ensures Inv(s) && s.base.Cache? ==> Applies(s.base.entries, s.entries)
  {
    if Inv(s) { WriteBackRefines(s.entries, s.base); }
  }

  lemma MergeStep(ours: CoinsMap, done: CoinsMap, o: OutPoint, e: Entry)
    requires o !in done
    ensures var before := Merge(ours, done);
            && Merge(ours, done[o := e]) == SetAt(before, o, MergedAt(before, map[o := e], o))
            && (Misapplied(before, map[o := e], o) <==> Misapplied(ours, done[o := e], o))
            && (Applies(ours, done) && !Misapplied(before, map[o := e], o) ==> Applies(ours, done[o := e]))
  {
    var before := Merge(ours, done);
    var after := Merge(ours, done[o := e]);
    assert EntryAt(before, o) == MergedAt(ours, done, o) == EntryAt(ours, o);
    forall p ensures EntryAt(after, p) == EntryAt(SetAt(before, o, MergedAt(before, map[o := e], o)), p) {
      assert EntryAt(after, p) == MergedAt(ours, done[o := e], p);
      assert EntryAt(before, p) == MergedAt(ours, done, p);
    }
    SameEntries(after, SetAt(before, o, MergedAt(before, map[o := e], o)));
    if Applies(ours, done) && !Misapplied(before, map[o := e], o) {
      var next := done[o := e];
      forall p ensures !Misapplied(ours, next, p) {
        assert !Misapplied(ours, done, p);
      }
    }
  }

  lemma MergeNothing(ours: CoinsMap)
    ensures Merge(ours, map[]) == ours && Applies(ours, map[])
  {
    forall o ensures EntryAt(Merge(ours, map[]), o) == EntryAt(ours, o) {}
    SameEntries(Merge(ours, map[]), ours);
  }

  lemma MisappliedInChild(ours: CoinsMap, child: CoinsMap, done: CoinsMap, rest: CoinsMap, o: OutPoint)
    requires Split(child, done, rest) && Misapplied(ours, done, o)
    ensures !Applies(ours, child)
  {
    assert Misapplied(ours, child, o);
  }

  lemma SameEntries(a: CoinsMap, b: CoinsMap)
    requires forall o :: EntryAt(a, o) == EntryAt(b, o)
    ensures a == b
  {
    forall o ensures o in a <==> o in b { assert EntryAt(a, o) == EntryAt(b, o); }
    forall o | o in a ensures a[o] == b[o] { assert EntryAt(a, o) == EntryAt(b, o); }
  }

  class CoinsViewCache {
    var cacheCoins: CoinsMap
    var cachedCoinsUsage: int
    /** The block that the cached state belongs to, or NO_BLOCK while it has not been asked for. */
    var hashBlock: nat

    /** The base is `parent`, or `db` when there is no parent. */
    const parent: CoinsViewCache?
    const db: CoinsViewDB
    const usage: Script -> nat
    /** The caches under this one, nearest first. */
    ghost const below: seq<CoinsViewCache>

    /** The links lead down through distinct caches to the database. */
    ghost predicate Linked()
      decreases |below|
    {
      && usage([]) == 0
      && this !in below
      && (parent == null <==> below == [])
      && (below != [] ==>
            && parent == below[0] && parent.below == below[1..]
            && parent.db == db && parent.usage == usage && parent.Linked())
    }

    ghost function Abs(): (s: Stack)
      requires Linked()
      reads this, below, db
      ensures s.Cache? && s.entries == cacheCoins
      decreases |below|
    {
      Cache(cacheCoins, if parent == null then Database(db.coins) else parent.Abs())
    }

    /** The byte counters of this cache and those below agree with their contents. */
    ghost predicate UsageOk()
      requires Linked()
      reads this, below
      decreases |below|
    {
      cachedCoinsUsage == TotalUsage(cacheCoins, usage) && (parent != null ==> parent.UsageOk())
    }

    constructor OnDatabase(db: CoinsViewDB, usage: Script -> nat)
      requires usage([]) == 0
      ensures Linked() && UsageOk() && Abs() == Cache(map[], Database(db.coins))
      ensures this.db == db && below == [] && hashBlock == NO_BLOCK
    {
      this.db := db;
      this.usage := usage;
      parent := null;
      below := [];
      cacheCoins := map[];
      cachedCoinsUsage := 0;
      hashBlock := NO_BLOCK;
    }

    constructor OnCache(parent: CoinsViewCache)
      requires parent.Linked() && parent.UsageOk()
      ensures Linked() && UsageOk() && Abs() == Cache(map[], old(parent.Abs()))
      ensures this.parent == parent && below == [parent] + parent.below && db == parent.db && hashBlock == NO_BLOCK
    {
      this.db := parent.db;
      this.usage := parent.usage;
      this.parent := parent;
      below := [parent] + parent.below;
      cacheCoins := map[];
      cachedCoinsUsage := 0;
      hashBlock := NO_BLOCK;
    }

    /** The first block named on the way down to the database. */
    ghost function BestBlock(): nat
      requires Linked()
      reads this, below, db
      decreases |below|
    {
      if hashBlock != NO_BLOCK then hashBlock
      else if parent == null then (if db.best.Some? then db.best.value else NO_BLOCK)
      else parent.BestBlock()
    }

    /** Every level on the way keeps the answer. */
    method GetBestBlock() returns (best: nat)
      requires Linked()
      modifies this`hashBlock, below`hashBlock
      ensures best == old(BestBlock()) == BestBlock() && hashBlock == best
      decreases |below|
    {
      if hashBlock == NO_BLOCK {
        if parent == null {
          hashBlock := db.GetBestBlock();
        } else {
          hashBlock := parent.GetBestBlock();
        }
      }
      return hashBlock;
    }

    method SetBestBlock(hashBlockIn: nat)
      modifies this`hashBlock
      ensures hashBlock == hashBlockIn
    {
      hashBlock := hashBlockIn;
    }

    /** Puts one entry into the map, keeping the byte counter. */
    method SetEntry(o: OutPoint, e: Entry)
      requires Linked()
      modifies this`cacheCoins, this`cachedCoinsUsage
      ensures cacheCoins == old(cacheCoins)[o := e]
      ensures old(UsageOk()) ==> UsageOk()
    {
      ghost var before := cacheCoins;
      if o in cacheCoins {
        UsageWithout(before, usage, o);
        cachedCoinsUsage := cachedCoinsUsage - usage(cacheCoins[o].coin.out.script);
      }
      UsageAfterUpdate(before, usage, o, e);
      cacheCoins := cacheCoins[o := e];
      cachedCoinsUsage := cachedCoinsUsage + usage(e.coin.out.script);
      assert parent != null ==> parent.UsageOk() == old(parent.UsageOk());
    }

    method EraseEntry(o: OutPoint)
      requires Linked() && o in cacheCoins
      modifies this`cacheCoins, this`cachedCoinsUsage
      ensures cacheCoins == old(cacheCoins) - {o}
      ensures old(UsageOk()) ==> UsageOk()
    {
      UsageWithout(cacheCoins, usage, o);
      cachedCoinsUsage := cachedCoinsUsage - usage(cacheCoins[o].coin.out.script);
      cacheCoins := cacheCoins - {o};
      assert parent != null ==> parent.UsageOk() == old(parent.UsageOk());
    }

    method FetchCoin(o: OutPoint) returns (e: Option<Entry>)
      requires Linked() && UsageOk()
      modifies this`cacheCoins, this`cachedCoinsUsage, below`cacheCoins, below`cachedCoinsUsage
      ensures UsageOk() && (Abs(), e) == Fetch(old(Abs()), o)
      decreases |below|, 0
    {
      if o in cacheCoins {
        return Some(cacheCoins[o]);
      }
      var found;
      if parent == null {
        found := db.GetCoin(o);
      } else {
        found := parent.GetCoin(o);
      }
      if found.None? {
        return None;
      }
      // A base that only has a spent coin here lets this cache call its copy fresh.
      e := Some(Entry(found.value, false, found.value.IsSpent()));
      SetEntry(o, e.value);
    }

    method GetCoin(o: OutPoint) returns (coin: Option<Coin>)
      requires Linked() && UsageOk()
      modifies this`cacheCoins, this`cachedCoinsUsage, below`cacheCoins, below`cachedCoinsUsage
      ensures UsageOk() && (Abs(), coin) == Get(old(Abs()), o)
      decreases |below|, 1
    {
      var e := FetchCoin(o);
      coin := if e.Some? && !e.value.coin.IsSpent() then Some(e.value.coin) else None;
    }

    method HaveCoin(o: OutPoint) returns (present: bool)
      requires Linked() && UsageOk()
      modifies this`cacheCoins, this`cachedCoinsUsage, below`cacheCoins, below`cachedCoinsUsage
      ensures UsageOk() && Abs() == Fetch(old(Abs()), o).0
      ensures old(Inv(Abs())) ==> present == (o in View(old(Abs())))
    {
      ghost var s := Abs();
      var e := FetchCoin(o);
      present := e.Some? && !e.value.coin.IsSpent();
      if Inv(s) { FetchRefines(s, o); }
    }

    /** On the error path the byte counter has already been lowered, so only the contents survive. */
    method AddCoin(o: OutPoint, coin: Coin, possibleOverwrite: bool) returns (threw: bool)
      requires Linked() && UsageOk() && !coin.IsSpent()
      modifies this`cacheCoins, this`cachedCoinsUsage
      ensures threw <==> Add(old(Abs()), o, coin, possibleOverwrite).Threw?
      ensures if threw then Abs() == old(Abs()) else UsageOk() && Add(old(Abs()), o, coin, possibleOverwrite) == Done(Abs())
      ensures threw ==> o in cacheCoins && cachedCoinsUsage == old(cachedCoinsUsage) - usage(cacheCoins[o].coin.out.script)
    {
      if IsUnspendable(coin.out.script) {
        return false;
      }
      var isFresh := false;
      if !possibleOverwrite {
        if o in cacheCoins && !cacheCoins[o].coin.IsSpent() {
          cachedCoinsUsage := cachedCoinsUsage - usage(cacheCoins[o].coin.out.script);
          return true;
        }
        isFresh := !(o in cacheCoins && cacheCoins[o].isDirty);
      }
      SetEntry(o, Entry(coin, true, isFresh || (o in cacheCoins && cacheCoins[o].isFresh)));
      return false;
    }

    method SpendCoin(o: OutPoint) returns (moved: Option<Coin>)
      requires Linked() && UsageOk()
      modifies this`cacheCoins, this`cachedCoinsUsage, below`cacheCoins, below`cachedCoinsUsage
      ensures UsageOk() && (Abs(), moved) == Spend(old(Abs()), o)
    {
      var e := FetchCoin(o);
      if e.None? {
        return None;
      }
      moved := Some(e.value.coin);
      UsageWithout(cacheCoins, usage, o);
      cachedCoinsUsage := cachedCoinsUsage - usage(e.value.coin.out.script);
      if e.value.isFresh {
        cacheCoins := cacheCoins - {o};
      } else {
        // Clearing the coin frees its script: nothing is added back.
        UsageAfterUpdate(cacheCoins, usage, o, Entry(EMPTY_COIN, true, false));
        cacheCoins := cacheCoins[o := Entry(EMPTY_COIN, true, false)];
      }
    }

    /** The treatment of one entry of a child in BatchWrite. */
    method WriteEntry(o: OutPoint, e: Entry) returns (threw: bool)
      requires Linked() && UsageOk()
      modifies this`cacheCoins, this`cachedCoinsUsage
      ensures UsageOk()
      ensures threw <==> Misapplied(old(cacheCoins), map[o := e], o)
      ensures threw ==> cacheCoins == old(cacheCoins)
      ensures !threw ==> cacheCoins == SetAt(old(cacheCoins), o, MergedAt(old(cacheCoins), map[o := e], o))
    {
      if !e.isDirty {
        return false;
      }
      if o !in cacheCoins {
        if !(e.isFresh && e.coin.IsSpent()) {
          SetEntry(o, Entry(e.coin, true, e.isFresh));
        }
        return false;
      }
      if e.isFresh && !cacheCoins[o].coin.IsSpent() {
        return true;
      }
      if cacheCoins[o].isFresh && e.coin.IsSpent() {
        EraseEntry(o);
      } else {
        SetEntry(o, Entry(e.coin, true, cacheCoins[o].isFresh));
      }
      return false;
    }

    /** Takes over a child's entries, one at a time in any order, stopping at a misapplied FRESH flag, and then its
        block. */
    method BatchWrite(child: CoinsMap, hashBlockIn: nat) returns (threw: bool)
      requires Linked() && UsageOk()
      modifies this
      ensures UsageOk()
      ensures threw <==> !Applies(old(cacheCoins), child)
      ensures !threw ==> cacheCoins == Merge(old(cacheCoins), child)
      ensures hashBlock == if threw then old(hashBlock) else hashBlockIn
    {
      hide Merge, Split, SetAt, MergedAt, Misapplied, Applies;
      ghost var ours := cacheCoins;
      var rest := child;
      ghost var done: CoinsMap := map[];
      SplitEnds(child, done);
      MergeNothing(ours);
      while rest != map[]
        invariant Split(child, done, rest)
        invariant cacheCoins == Merge(ours, done)
        invariant Applies(ours, done)
        invariant UsageOk() && hashBlock == old(hashBlock)
        decreases |rest|
      {
        var o :| o in rest;
        var e := rest[o];
        MoveKey(child, done, rest, o);
        MergeStep(ours, done, o, e);
        threw := WriteEntry(o, e);
        if threw {
          MisappliedInChild(ours, child, done[o := e], rest - {o}, o);
          return;
        }
        done := done[o := e];
        rest := rest - {o};
      }
      SplitEnds(child, done);
      hashBlock := hashBlockIn;
      return false;
    }

    /** The database is told in how many batches to write by `full`. */
    method Flush(full: nat -> bool) returns (threw: bool)
      requires Linked() && UsageOk()
      requires parent == null ==> db.Expects(hashBlock)
      modifies this`cacheCoins, this`cachedCoinsUsage, below, db
      ensures UsageOk()
      ensures !threw ==> Abs() == CoinsStack.Flush(old(Abs()))
      ensures old(Inv(Abs())) ==> !threw
      ensures !threw ==> if parent == null then db.best == Some(hashBlock) && db.heads == None else parent.hashBlock == hashBlock
    {
      hide Inv, Merge, Misapplied, MergeDatabase;
      ghost var s := Abs();
      FlushApplies(s);
      if parent == null {
        db.BatchWrite(cacheCoins, hashBlock, full);
        threw := false;
      } else {
        threw := parent.BatchWrite(cacheCoins, hashBlock);
        if threw {
          assert UsageOk();
          return;
        }
        assert parent.parent != null ==> parent.parent.Abs() == old(parent.parent.Abs());
      }
      cacheCoins := map[];
      cachedCoinsUsage := 0;
    }

    method Uncache(o: OutPoint)
      requires Linked() && UsageOk()
      modifies this`cacheCoins, this`cachedCoinsUsage
      ensures UsageOk() && Abs() == CoinsStack.Uncache(old(Abs()), o)
    {
      if o in cacheCoins && !cacheCoins[o].isDirty && !cacheCoins[o].isFresh {
        EraseEntry(o);
      }
    }

    /** Adds all outputs of a transaction. */
    method AddCoins(hash: nat, outs: seq<TxOut>, height: nat, coinBase: bool, check: bool) returns (threw: bool)
      requires Linked() && UsageOk()
      requires forall j :: 0 <= j < |outs| ==> !outs[j].IsNull()
      modifies this`cacheCoins, this`cachedCoinsUsage, below`cacheCoins, below`cachedCoinsUsage
      ensures threw <==> AddOutputs(old(Abs()), hash, outs, 0, height, coinBase, check).Threw?
      ensures !threw ==> UsageOk() && AddOutputs(old(Abs()), hash, outs, 0, height, coinBase, check) == Done(Abs())
    {
      ghost var s := Abs();
      var i := 0;
      while i < |outs|
        invariant 0 <= i <= |outs|
        invariant UsageOk()
        invariant AddOutputs(s, hash, outs, 0, height, coinBase, check)
               == AddOutputs(Abs(), hash, outs, i, height, coinBase, check)
      {
        var overwrite := coinBase;
        var o := OutPoint(hash, i);
        if check {
          var e := FetchCoin(o);
          overwrite := e.Some? && !e.value.coin.IsSpent();
        }
        threw := AddCoin(o, Coin(outs[i], coinBase, height), overwrite);
        if threw {
          return;
        }
        i := i + 1;
      }
      threw := false;
    }
  }
}
