/** The unspent-output view stack: a database with any number of write-back caches on top.
    This module is the value-level meaning of the stack; module CoinsCache holds the objects. */
module CoinsStack {
  import opened Wrappers

  datatype OutPoint = OutPoint(hash: nat, n: nat)

  type Script = seq<bv8>

  const OP_RETURN: bv8 := 0x6a
  const MAX_SCRIPT_SIZE := 10000

  predicate IsUnspendable(script: Script) {
    (|script| > 0 && script[0] == OP_RETURN) || |script| > MAX_SCRIPT_SIZE
  }

  datatype TxOut = TxOut(value: int, script: Script) {
    /** A null output is the marker of a spent coin. */
    predicate IsNull() { value == -1 }
  }

  datatype Coin = Coin(out: TxOut, coinBase: bool, height: nat) {
    predicate IsSpent() { out.IsNull() }
  }

  const EMPTY_COIN := Coin(TxOut(-1, []), false, 0)

  /** A cached coin. `isDirty`: potentially different from the version in the base view.
      `isFresh`: the base view has no unspent coin here. */
  datatype Entry = Entry(coin: Coin, isDirty: bool, isFresh: bool)

  type CoinsMap = map<OutPoint, Entry>
  type Utxo = map<OutPoint, Coin>

  datatype Stack =
    | Database(coins: Utxo)
    | Cache(entries: CoinsMap, base: Stack)

  // ----- what a stack shows

  /** The unspent coins an observer of the top of the stack sees. */
  function View(s: Stack): Utxo {
    match s
    case Database(coins) => coins
    case Cache(entries, base) => Overlay(entries, View(base))
  }

  function Overlay(entries: CoinsMap, below: Utxo): Utxo {
    map o | o in entries.Keys + below.Keys && !(o in entries && entries[o].coin.IsSpent())
      :: if o in entries then entries[o].coin else below[o]
  }

  /** The views of every level, top first, database last. */
  function Views(s: Stack): (v: seq<Utxo>)
    ensures |v| > 0 && v[0] == View(s)
    ensures s.Cache? ==> |v| > 1 && v[1..] == Views(s.base) && v[1] == View(s.base)
  {
    match s
    case Database(coins) => [coins]
    case Cache(_, base) => [View(s)] + Views(base)
  }

  // ----- the meaning of the flags

  ghost predicate EntryOk(o: OutPoint, e: Entry, below: Utxo) {
    && (e.isFresh ==> o !in below)
    && (!e.isDirty ==> if e.coin.IsSpent() then o !in below else o in below && below[o] == e.coin)
  }

  ghost predicate EntriesOk(entries: CoinsMap, below: Utxo) {
    forall o :: o in entries ==> EntryOk(o, entries[o], below)
  }

  ghost predicate Inv(s: Stack) {
    match s
    case Database(coins) => forall o :: o in coins ==> !coins[o].IsSpent()
    case Cache(entries, base) => Inv(base) && EntriesOk(entries, View(base))
  }

  lemma {:induction false} ViewIsUnspent(s: Stack)
    requires Inv(s)
    ensures forall o :: o in View(s) ==> !View(s)[o].IsSpent()
  {
    if s.Cache? { ViewIsUnspent(s.base); }
  }

  // ----- reading

  /** Looks an outpoint up, filling every cache on the way with what the next view knows. */
  function Get(s: Stack, o: OutPoint): (Stack, Option<Coin>)
    decreases s, 1
  {
    match s
    case Database(coins) => (s, if o in coins then Some(coins[o]) else None)
    case Cache(_, _) =>
      var (t, e) := Fetch(s, o);
      (t, if e.Some? && !e.value.coin.IsSpent() then Some(e.value.coin) else None)
  }

  function Fetch(s: Stack, o: OutPoint): (r: (Stack, Option<Entry>))
    requires s.Cache?
    ensures r.0.Cache? && (r.1.Some? ==> o in r.0.entries)
    decreases s, 0
  {
    if o in s.entries then (s, Some(s.entries[o]))
    else
      var (base, found) := Get(s.base, o);
      match found
      case None => (Cache(s.entries, base), None)
      case Some(coin) =>
        var e := Entry(coin, false, coin.IsSpent());
        (Cache(s.entries[o := e], base), Some(e))
  }

  function LookUp(m: Utxo, o: OutPoint): Option<Coin> {
    if o in m then Some(m[o]) else None
  }

  lemma {:induction false} GetRefines(s: Stack, o: OutPoint)
    requires Inv(s)
    ensures Inv(Get(s, o).0)
    ensures Views(Get(s, o).0) == Views(s)
    ensures Get(s, o).1 == LookUp(View(s), o)
    decreases s, 1
  {
    if s.Cache? { FetchRefines(s, o); }
  }

  /** Fetching changes no level's view; afterwards the entry, if any, is the cached one and it tells what the view shows. */
  lemma {:induction false} FetchRefines(s: Stack, o: OutPoint)
    requires Inv(s) && s.Cache?
    ensures var (t, e) := Fetch(s, o);
            && Inv(t) && Views(t) == Views(s)
            && (e.Some? <==> o in t.entries)
            && (e.Some? ==> t.entries[o] == e.value)
            && (e.Some? <==> o in View(s) || o in s.entries)
            && LookUp(View(s), o) == (if e.Some? && !e.value.coin.IsSpent() then Some(e.value.coin) else None)
    decreases s, 0
  {
    hide Overlay, EntriesOk, Get;
    OverlayAt(s.entries, View(s.base), o);
    if o in s.entries {
      FetchedEntryOk(s.entries, View(s.base), o);
    } else {
      GetRefines(s.base, o);
      ViewIsUnspent(s.base);
      var t := Fetch(s, o).0;
      assert View(t.base) == View(s.base);
      if o in View(s.base) { CacheCopy(s.entries, View(s.base), o); }
      assert View(t) == View(s);
    }
  }

  lemma OverlayAt(entries: CoinsMap, below: Utxo, o: OutPoint)
    ensures LookUp(Overlay(entries, below), o)
         == if o in entries then (if entries[o].coin.IsSpent() then None else Some(entries[o].coin)) else LookUp(below, o)
  {
  }

  lemma FetchedEntryOk(entries: CoinsMap, below: Utxo, o: OutPoint)
    requires EntriesOk(entries, below) && o in entries
    ensures EntryOk(o, entries[o], below)
  {
  }

  /** Keeping a copy of an unspent coin changes nothing that can be seen. */
  lemma CacheCopy(entries: CoinsMap, below: Utxo, o: OutPoint)
    requires EntriesOk(entries, below) && o !in entries && o in below && !below[o].IsSpent()
    ensures var after := entries[o := Entry(below[o], false, false)];
            EntriesOk(after, below) && Overlay(after, below) == Overlay(entries, below)
  {
  }

  // ----- adding

  datatype Outcome = Done(stack: Stack) | Threw

  /** The entry AddCoin writes over whatever is cached. */
  function AddedEntry(entries: CoinsMap, o: OutPoint, coin: Coin, possibleOverwrite: bool): Entry {
    var wasDirty := o in entries && entries[o].isDirty;
    var wasFresh := o in entries && entries[o].isFresh;
    Entry(coin, true, wasFresh || (!possibleOverwrite && !wasDirty))
  }

  function Add(s: Stack, o: OutPoint, coin: Coin, possibleOverwrite: bool): Outcome
    requires s.Cache?
  {
    if IsUnspendable(coin.out.script) then Done(s)
    else if !possibleOverwrite && o in s.entries && !s.entries[o].coin.IsSpent() then Threw
    else Done(Cache(s.entries[o := AddedEntry(s.entries, o, coin, possibleOverwrite)], s.base))
  }

  /** What the flat map does on an addition. */
  function AddSpec(m: Utxo, o: OutPoint, coin: Coin): Utxo {
    if IsUnspendable(coin.out.script) then m else m[o := coin]
  }

  /** Adding shows the new coin in every case that does not throw. It keeps the flag meanings exactly when
      the caller's claim of no overwrite could not hide a coin of the base view. */
  lemma AddRefines(s: Stack, o: OutPoint, coin: Coin, possibleOverwrite: bool)
    requires Inv(s) && s.Cache? && !coin.IsSpent()
    ensures var r := Add(s, o, coin, possibleOverwrite);
            && (r.Threw? <==> !IsUnspendable(coin.out.script) && !possibleOverwrite && o in s.entries && o in View(s))
            && (r.Done? ==>
                  && r.stack.Cache? && r.stack.base == s.base
                  && View(r.stack) == AddSpec(View(s), o, coin)
                  && Views(r.stack) == [AddSpec(View(s), o, coin)] + Views(s)[1..]
                  && (Inv(r.stack) <==>
                        IsUnspendable(coin.out.script) || possibleOverwrite || o in s.entries || o !in View(s.base)))
  {
    hide Overlay, EntriesOk, EntryOk;
    OverlayAt(s.entries, View(s.base), o);
    if !IsUnspendable(coin.out.script) {
      var e := AddedEntry(s.entries, o, coin, possibleOverwrite);
      WriteOver(s.entries, View(s.base), o, e);
      if Add(s, o, coin, possibleOverwrite).Done? { AddedOk(s.entries, View(s.base), o, coin, possibleOverwrite); }
    }
    assert Views(s) == [View(s)] + Views(s)[1..];
  }

  /** An entry with an unspent coin shows that coin; the flag meanings depend on it alone. */
  lemma WriteOver(entries: CoinsMap, below: Utxo, o: OutPoint, e: Entry)
    requires EntriesOk(entries, below) && !e.coin.IsSpent()
    ensures Overlay(entries[o := e], below) == Overlay(entries, below)[o := e.coin]
    ensures EntriesOk(entries[o := e], below) <==> EntryOk(o, e, below)
  {
    var after := entries[o := e];
    assert after.Keys == entries.Keys + {o};
    if EntryOk(o, e, below) {
      forall p | p in after ensures EntryOk(p, after[p], below) {}
    } else {
      assert o in after && after[o] == e;
    }
  }

  lemma AddedOk(entries: CoinsMap, below: Utxo, o: OutPoint, coin: Coin, possibleOverwrite: bool)
    requires EntriesOk(entries, below)
    requires possibleOverwrite || o !in entries || entries[o].coin.IsSpent()
    ensures EntryOk(o, AddedEntry(entries, o, coin, possibleOverwrite), below)
       <==> possibleOverwrite || o in entries || o !in below
  {
    if o in entries { assert EntryOk(o, entries[o], below); }
  }

  // ----- spending

  /** The part of SpendCoin that runs once the coin is cached. */
  function Erase(f: Stack, o: OutPoint): Stack
    requires f.Cache? && o in f.entries
  {
    if f.entries[o].isFresh then Cache(f.entries - {o}, f.base)
    else Cache(f.entries[o := Entry(EMPTY_COIN, true, false)], f.base)
  }

  lemma SpendCached(f: Stack, o: OutPoint)
    requires Inv(f) && f.Cache? && o in f.entries
    ensures Inv(Erase(f, o)) && View(Erase(f, o)) == View(f) - {o}
  {
    var t := Erase(f, o);
    assert EntryOk(o, f.entries[o], View(f.base));
    forall p | p in t.entries && p != o ensures EntryOk(p, t.entries[p], View(f.base)) {
      assert EntryOk(p, f.entries[p], View(f.base));
    }
    forall p ensures LookUp(View(t), p) == LookUp(View(f) - {o}, p) {}
    SameLookUps(View(t), View(f) - {o});
  }

  /** The stack after SpendCoin, what it moved out, and whether it reports success. */
  function Spend(s: Stack, o: OutPoint): (Stack, Option<Coin>)
    requires s.Cache?
  {
    var (t, e) := Fetch(s, o);
    match e
    case None => (t, None)
    case Some(entry) => (Erase(t, o), Some(entry.coin))
  }

  /** Spending removes exactly the one coin from the top view. It reports success also for an outpoint
      that is merely cached as spent. */
  lemma SpendRefines(s: Stack, o: OutPoint)
    requires Inv(s) && s.Cache?
    ensures var (t, moved) := Spend(s, o);
            && Inv(t) && t.Cache?
            && View(t) == View(s) - {o}
            && Views(t) == [View(s) - {o}] + Views(s)[1..]
            && (moved.Some? <==> o in View(s) || o in s.entries)
            && (o in View(s) ==> moved == Some(View(s)[o]))
  {
    hide Fetch, Inv, Erase, View;
    FetchRefines(s, o);
    var (f, e) := Fetch(s, o);
    assert View(f) == View(s) && Views(f)[1..] == Views(s)[1..];
    if e.Some? {
      SpendCached(f, o);
      EraseIsCache(f, o);
    } else {
      assert View(s) - {o} == View(s);
    }
    assert Views(Spend(s, o).0) == [View(Spend(s, o).0)] + Views(Spend(s, o).0)[1..];
  }

  lemma EraseIsCache(f: Stack, o: OutPoint)
    requires f.Cache? && o in f.entries
    ensures Erase(f, o).Cache? && Erase(f, o).base == f.base
  {
  }

  /** Success of SpendCoin does not mean that a coin was there. */
  lemma SpendTwiceReportsSuccess(o: OutPoint, coin: Coin)
    requires !coin.IsSpent()
    ensures var s := Cache(map[], Database(map[o := coin]));
            Inv(s) && o !in View(Spend(s, o).0) && Spend(Spend(s, o).0, o).1.Some?
  {
    var s := Cache(map[], Database(map[o := coin]));
    SpendRefines(s, o);
    SpendRefines(Spend(s, o).0, o);
    assert o in View(s);
    assert o in Spend(s, o).0.entries;
  }

  // ----- writing a child's entries back

  /** What becomes of one outpoint of a cache when the child's dirty entry for it arrives. */
  function MergeEntry(ours: Option<Entry>, theirs: Entry): Option<Entry> {
    match ours
    case None =>
      if theirs.isFresh && theirs.coin.IsSpent() then None else Some(Entry(theirs.coin, true, theirs.isFresh))
    case Some(us) =>
      if us.isFresh && theirs.coin.IsSpent() then None else Some(Entry(theirs.coin, true, us.isFresh))
  }

  function EntryAt(entries: CoinsMap, o: OutPoint): Option<Entry> {
    if o in entries then Some(entries[o]) else None
  }

  function MergedAt(ours: CoinsMap, child: CoinsMap, o: OutPoint): Option<Entry> {
    if o in child && child[o].isDirty then MergeEntry(EntryAt(ours, o), child[o]) else EntryAt(ours, o)
  }

  /** The write-back of all of a child's entries, outpoint by outpoint: no order is involved. */
  function Merge(ours: CoinsMap, child: CoinsMap): CoinsMap {
    map o | o in ours.Keys + child.Keys && MergedAt(ours, child, o).Some? :: MergedAt(ours, child, o).value
  }

  function MergeDatabase(coins: Utxo, child: CoinsMap): Utxo {
    map o | o in coins.Keys + child.Keys &&
            (if o in child && child[o].isDirty then !child[o].coin.IsSpent() else o in coins)
      :: if o in child && child[o].isDirty then child[o].coin else coins[o]
  }

  /** A dirty FRESH child entry meets an unspent cached coin: the logic error BatchWrite throws on. */
  predicate Misapplied(ours: CoinsMap, child: CoinsMap, o: OutPoint) {
    o in child && child[o].isDirty && child[o].isFresh && o in ours && !ours[o].coin.IsSpent()
  }

  function WriteBack(s: Stack, child: CoinsMap): Stack {
    match s
    case Database(coins) => Database(MergeDatabase(coins, child))
    case Cache(entries, base) => Cache(Merge(entries, child), base)
  }

  lemma MergeOneRefines(o: OutPoint, us: Option<Entry>, theirs: Entry, below: Utxo)
    requires us.Some? ==> EntryOk(o, us.value, below)
    requires var here := if us.Some? then (if us.value.coin.IsSpent() then None else Some(us.value.coin)) else LookUp(below, o);
             theirs.isFresh ==> here.None?
    requires theirs.isDirty
    ensures var m := MergeEntry(us, theirs);
            && (m.Some? ==> EntryOk(o, m.value, below))
            && (if m.Some? then (if m.value.coin.IsSpent() then None else Some(m.value.coin)) else LookUp(below, o))
               == (if theirs.coin.IsSpent() then None else Some(theirs.coin))
  {
  }

  lemma MergeAt(ours: CoinsMap, child: CoinsMap, below: Utxo, o: OutPoint)
    requires EntriesOk(ours, below) && EntriesOk(child, Overlay(ours, below))
    ensures !Misapplied(ours, child, o)
    ensures o in Merge(ours, child) ==> EntryOk(o, Merge(ours, child)[o], below)
    ensures LookUp(Overlay(Merge(ours, child), below), o) == LookUp(Overlay(child, Overlay(ours, below)), o)
  {
    var here := Overlay(ours, below);
    assert o in child ==> EntryOk(o, child[o], here);
    assert o in ours ==> EntryOk(o, ours[o], below);
    assert EntryAt(Merge(ours, child), o) == MergedAt(ours, child, o);
    if o in child && child[o].isDirty {
      MergeOneRefines(o, EntryAt(ours, o), child[o], below);
    }
  }

  /** Flushing a cache into its base: the misapplied-FRESH error cannot occur, the base then shows what the
      cache showed, the flag meanings survive against the grandparent, and no deeper view changes. */
  lemma WriteBackRefines(child: CoinsMap, s: Stack)
    requires Inv(Cache(child, s))
    ensures s.Cache? ==> forall o :: !Misapplied(s.entries, child, o)
    ensures Inv(WriteBack(s, child))
    ensures View(WriteBack(s, child)) == View(Cache(child, s))
    ensures Views(WriteBack(s, child)) == [View(Cache(child, s))] + Views(s)[1..]
  {
    hide Overlay, EntryOk, Merge;
    var t := WriteBack(s, child);
    if s.Cache? {
      var below := View(s.base);
      forall o ensures !Misapplied(s.entries, child, o) && (o in t.entries ==> EntryOk(o, t.entries[o], below))
                    && LookUp(View(t), o) == LookUp(View(Cache(child, s)), o) {
        MergeAt(s.entries, child, below, o);
      }
      SameLookUps(View(t), View(Cache(child, s)));
    } else {
      forall o ensures LookUp(View(t), o) == LookUp(View(Cache(child, s)), o) {
        DatabaseAt(s.coins, child, o);
      }
      SameLookUps(View(t), View(Cache(child, s)));
      assert Views(t) == [View(Cache(child, s))] + Views(s)[1..];
    }
  }

  lemma DatabaseAt(coins: Utxo, child: CoinsMap, o: OutPoint)
    requires EntriesOk(child, coins)
    ensures LookUp(MergeDatabase(coins, child), o) == LookUp(Overlay(child, coins), o)
  {
    if o in child { assert EntryOk(o, child[o], coins); }
  }

  lemma SameLookUps(a: Utxo, b: Utxo)
    requires forall o :: LookUp(a, o) == LookUp(b, o)
    ensures a == b
  {
    forall o ensures o in a <==> o in b { assert LookUp(a, o) == LookUp(b, o); }
    forall o | o in a ensures a[o] == b[o] { assert LookUp(a, o) == LookUp(b, o); }
  }

  function Flush(s: Stack): Stack
    requires s.Cache?
  {
    Cache(map[], WriteBack(s.base, s.entries))
  }

  lemma FlushRefines(s: Stack)
    requires Inv(s) && s.Cache?
    ensures Inv(Flush(s))
    ensures View(Flush(s)) == View(s)
    ensures Views(Flush(s)) == [View(s), View(s)] + Views(s)[2..]
  {
    WriteBackRefines(s.entries, s.base);
    assert s == Cache(s.entries, s.base);
    var t := WriteBack(s.base, s.entries);
    assert Overlay(map[], View(t)) == View(t);
    assert Views(s.base)[1..] == Views(s)[2..];
  }

  function Uncache(s: Stack, o: OutPoint): Stack
    requires s.Cache?
  {
    if o in s.entries && !s.entries[o].isDirty && !s.entries[o].isFresh then Cache(s.entries - {o}, s.base) else s
  }

  lemma UncacheRefines(s: Stack, o: OutPoint)
    requires Inv(s) && s.Cache?
    ensures Inv(Uncache(s, o)) && Views(Uncache(s, o)) == Views(s)
  {
    var t := Uncache(s, o);
    assert o in s.entries ==> EntryOk(o, s.entries[o], View(s.base));
    assert View(t) == View(s);
  }

  // ----- whole runs

  datatype Op =
    | AddOp(o: OutPoint, coin: Coin, possibleOverwrite: bool)
    | SpendOp(o: OutPoint)
    | GetOp(o: OutPoint)
    | HaveOp(o: OutPoint)
    | UncacheOp(o: OutPoint)
    | FlushOp
    | PushCacheOp
    | DropCacheOp

  datatype Seen = Nothing | SawCoin(coin: Option<Coin>) | SawPresence(present: bool) | SawThrow

  /** One operation on the top cache, or a cache put on top or dropped unflushed. */
  function Step(s: Stack, op: Op): (Stack, Seen)
    requires s.Cache?
  {
    match op
    case AddOp(o, coin, overwrite) =>
      (match Add(s, o, coin, overwrite)
       case Threw => (s, SawThrow)
       case Done(t) => (t, Nothing))
    case SpendOp(o) => (Spend(s, o).0, Nothing)
    case GetOp(o) => var (t, c) := Get(s, o); (t, SawCoin(c))
    case HaveOp(o) => var (t, e) := Fetch(s, o); (t, SawPresence(e.Some? && !e.value.coin.IsSpent()))
    case UncacheOp(o) => (Uncache(s, o), Nothing)
    case FlushOp => (Flush(s), Nothing)
    case PushCacheOp => (Cache(map[], s), Nothing)
    case DropCacheOp => (if s.base.Cache? then s.base else s, Nothing)
  }

  /** The same operation on plain maps, one per level. */
  function SpecStep(levels: seq<Utxo>, op: Op): (seq<Utxo>, Seen)
    requires |levels| > 1
  {
    match op
    case AddOp(o, coin, _) => (levels[0 := AddSpec(levels[0], o, coin)], Nothing)
    case SpendOp(o) => (levels[0 := levels[0] - {o}], Nothing)
    case GetOp(o) => (levels, SawCoin(LookUp(levels[0], o)))
    case HaveOp(o) => (levels, SawPresence(o in levels[0]))
    case UncacheOp(_) => (levels, Nothing)
    case FlushOp => (levels[1 := levels[0]], Nothing)
    case PushCacheOp => ([levels[0]] + levels, Nothing)
    case DropCacheOp => (if |levels| > 2 then levels[1..] else levels, Nothing)
  }

  /** What the source demands of a caller: an added coin is unspent, and a coin added without
      announcing an overwrite is not already there. */
  predicate Legal(levels: seq<Utxo>, op: Op)
    requires |levels| > 1
  {
    op.AddOp? ==> !op.coin.IsSpent() && (op.possibleOverwrite || op.o !in levels[0])
  }

  lemma NotBelow(s: Stack, o: OutPoint)
    requires s.Cache? && o !in s.entries && o !in View(s)
    ensures o !in View(s.base)
  {
  }

  lemma PushRefines(s: Stack)
    requires Inv(s)
    ensures Inv(Cache(map[], s)) && View(Cache(map[], s)) == View(s)
    ensures s.Cache? ==> Inv(s.base)
  {
    assert Overlay(map[], View(s)) == View(s);
  }

  lemma StepRefines(s: Stack, op: Op)
    requires Inv(s) && s.Cache? && Legal(Views(s), op)
    ensures var (t, seen) := Step(s, op);
            t.Cache? && Inv(t) && (Views(t), seen) == SpecStep(Views(s), op)
  {
    hide Inv, Overlay, Fetch, Spend, Add, Uncache, Flush;
    match op
    case AddOp(o, coin, overwrite) =>
      AddRefines(s, o, coin, overwrite);
      assert Views(s)[0 := AddSpec(View(s), o, coin)] == [AddSpec(View(s), o, coin)] + Views(s)[1..];
      if !overwrite && o !in s.entries { NotBelow(s, o); }
    case SpendOp(o) =>
      SpendRefines(s, o);
      assert Views(s)[0 := View(s) - {o}] == [View(s) - {o}] + Views(s)[1..];
    case GetOp(o) => GetRefines(s, o);
    case HaveOp(o) => FetchRefines(s, o);
    case UncacheOp(o) => UncacheRefines(s, o);
    case FlushOp => FlushRefines(s); assert Views(s)[1 := View(s)] == [View(s), View(s)] + Views(s)[2..];
    case PushCacheOp => PushRefines(s);
    case DropCacheOp => PushRefines(s);
  }

  function Run(s: Stack, ops: seq<Op>): (Stack, seq<Seen>)
    requires s.Cache?
    decreases |ops|
  {
    if ops == [] then (s, [])
    else
      var (t, seen) := Step(s, ops[0]);
      if t.Cache? then
        var (u, rest) := Run(t, ops[1..]);
        (u, [seen] + rest)
      else (t, [seen])
  }

  function SpecRun(levels: seq<Utxo>, ops: seq<Op>): (seq<Utxo>, seq<Seen>)
    requires |levels| > 1
    decreases |ops|
  {
    if ops == [] then (levels, [])
    else
      var (next, seen) := SpecStep(levels, ops[0]);
      var (last, rest) := SpecRun(next, ops[1..]);
      (last, [seen] + rest)
  }

  predicate LegalRun(levels: seq<Utxo>, ops: seq<Op>)
    requires |levels| > 1
    decreases |ops|
  {
    ops == [] || (Legal(levels, ops[0]) && LegalRun(SpecStep(levels, ops[0]).0, ops[1..]))
  }

  /** Every run on a stack of any depth shows, at every level and in every answer, what plain maps show. */
  lemma {:induction false} RunRefines(s: Stack, ops: seq<Op>)
    requires Inv(s) && s.Cache? && LegalRun(Views(s), ops)
    ensures var (t, seen) := Run(s, ops);
            Inv(t) && (Views(t), seen) == SpecRun(Views(s), ops)
    decreases |ops|
  {
    if ops != [] {
      StepRefines(s, ops[0]);
      RunRefines(Step(s, ops[0]).0, ops[1..]);
    }
  }

  // ----- all outputs of a transaction

  /** AddCoins: with `check` the view is asked whether each addition overwrites, otherwise only a coinbase may. */
  function AddOutputs(s: Stack, hash: nat, outs: seq<TxOut>, i: nat, height: nat, coinBase: bool, check: bool): Outcome
    requires s.Cache? && i <= |outs|
    decreases |outs| - i
  {
    if i == |outs| then Done(s)
    else
      var o := OutPoint(hash, i);
      var f := if check then Fetch(s, o) else (s, None);
      var overwrite := if check then f.1.Some? && !f.1.value.coin.IsSpent() else coinBase;
      match Add(f.0, o, Coin(outs[i], coinBase, height), overwrite)
      case Threw => Threw
      case Done(t) => if t.Cache? then AddOutputs(t, hash, outs, i + 1, height, coinBase, check) else Threw
  }

  function AddOutputsSpec(m: Utxo, hash: nat, outs: seq<TxOut>, i: nat, height: nat, coinBase: bool): Utxo
    requires i <= |outs|
    decreases |outs| - i
  {
    if i == |outs| then m
    else AddOutputsSpec(AddSpec(m, OutPoint(hash, i), Coin(outs[i], coinBase, height)), hash, outs, i + 1, height, coinBase)
  }

  /** Asking the view first makes AddCoins safe for every transaction; without asking it is safe when the
      transaction is a coinbase or none of its outputs is already unspent. */
  lemma {:induction false} AddOutputsRefines(s: Stack, hash: nat, outs: seq<TxOut>, i: nat, height: nat,
        coinBase: bool, check: bool)
    requires Inv(s) && s.Cache? && i <= |outs|
    requires forall j :: i <= j < |outs| ==> !outs[j].IsNull()
    requires check || coinBase || forall j :: i <= j < |outs| ==> OutPoint(hash, j) !in View(s)
    ensures var r := AddOutputs(s, hash, outs, i, height, coinBase, check);
            && r.Done? && r.stack.Cache? && Inv(r.stack)
            && Views(r.stack) == [AddOutputsSpec(View(s), hash, outs, i, height, coinBase)] + Views(s)[1..]
    decreases |outs| - i
  {
    if i < |outs| {
      var o := OutPoint(hash, i);
      var coin := Coin(outs[i], coinBase, height);
      FetchRefines(s, o);
      var f := if check then Fetch(s, o) else (s, None);
      var overwrite := if check then f.1.Some? && !f.1.value.coin.IsSpent() else coinBase;
      assert View(f.0) == View(s) && Views(f.0)[1..] == Views(s)[1..];
      AddRefines(f.0, o, coin, overwrite);
      if !overwrite && o !in f.0.entries { assert o !in View(f.0.base); }
      var t := Add(f.0, o, coin, overwrite).stack;
      AddOutputsRefines(t, hash, outs, i + 1, height, coinBase, check);
    }
  }
}
