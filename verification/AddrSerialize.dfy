/** Writing the tables to a stream and reading them back. Identifiers are renumbered: untried addresses first,
    then tried ones. Tried cells, the address index and the random order are not written but rebuilt. */
module AddrSerialize {
  import opened Arithmetic
  import opened AddrTable
  import opened AddrTableLemmas
  import opened AddrMoves

  const VERSION := 1
  const KEY_SIZE := 32
  const BUCKET_MARK := 0x4000_0000

  /** Flips bit 30 of the bucket count, which makes readers of the oldest format reject the file. */
  function Mark(n: int): int {
    if (n / BUCKET_MARK) % 2 == 1 then n - BUCKET_MARK else n + BUCKET_MARK
  }

  /** The fields of a record that are written. */
  datatype Saved = Saved(service: Service, services: bv64, time: int, source: NetAddr, lastSuccess: int, attempts: int)

  function Save(i: Info): Saved {
    Saved(i.service, i.services, i.time, i.source, i.lastSuccess, i.attempts)
  }

  function Restore(v: Saved, refCount: int, inTried: bool, randomPos: int): Info {
    Info(v.service, v.services, v.time, v.source, 0, 0, v.lastSuccess, v.attempts, refCount, inTried, randomPos)
  }

  /** The values of a stream, in the order they are written. */
  datatype Stream = Stream(
    version: int, keySize: int, key: nat, nNew: int, nTried: int, buckets: int,
    newEntries: seq<Saved>, triedEntries: seq<Saved>, table: seq<seq<int>>)

  // ----- writing

  /** A list of each member of a set exactly once. */
  ghost predicate Lists(xs: seq<int>, ids: set<int>) {
    && (forall i, j :: 0 <= i < j < |xs| ==> xs[i] != xs[j])
    && (forall x :: x in xs <==> x in ids)
  }

  function IndexOf(xs: seq<int>, x: int): (i: nat)
    requires x in xs
    ensures i < |xs| && xs[i] == x
  {
    if xs[0] == x then 0 else 1 + IndexOf(xs[1..], x)
  }

  lemma IndexIs(xs: seq<int>, i: nat)
    requires i < |xs| && forall a, b :: 0 <= a < b < |xs| ==> xs[a] != xs[b]
    ensures IndexOf(xs, xs[i]) == i
  {
  }

  /** The new indexes of the occupants of one bucket from position p on, in order of position. */
  function Row(cells: Cells, ns: seq<int>, bucket: nat, p: nat): seq<int>
    requires p <= BUCKET_SIZE
    requires forall c :: c in cells ==> cells[c] in ns
    decreases BUCKET_SIZE - p
  {
    if p == BUCKET_SIZE then []
    else
      var c := Cell(bucket, p);
      (if c in cells then [IndexOf(ns, cells[c])] else []) + Row(cells, ns, bucket, p + 1)
  }

  function SaveAll(info: map<int, Info>, ids: seq<int>): (vs: seq<Saved>)
    requires forall i :: 0 <= i < |ids| ==> ids[i] in info
    ensures |vs| == |ids| && forall i :: 0 <= i < |ids| ==> vs[i] == Save(info[ids[i]])
  {
    if ids == [] then [] else SaveAll(info, ids[..|ids| - 1]) + [Save(info[ids[|ids| - 1]])]
  }

  /** The stream of a state, the records being visited in the orders ns and ts. */
  function Serialize(k: Env, s: State, ns: seq<int>, ts: seq<int>): Stream
    requires (forall i :: 0 <= i < |ns| ==> ns[i] in s.info) && (forall i :: 0 <= i < |ts| ==> ts[i] in s.info)
    requires forall c :: c in s.newCells ==> s.newCells[c] in ns
  {
    Stream(VERSION, KEY_SIZE, k.key, s.nNew, s.nTried, Mark(NEW_BUCKET_COUNT),
           SaveAll(s.info, ns), SaveAll(s.info, ts),
           seq(NEW_BUCKET_COUNT, b requires 0 <= b < NEW_BUCKET_COUNT => Row(s.newCells, ns, b, 0)))
  }

  // ----- reading

  /** Whether the written new table can be used: known version and unchanged number of buckets. */
  predicate Usable(f: Stream) {
    f.version == VERSION && BucketCount(f) == NEW_BUCKET_COUNT
  }

  function BucketCount(f: Stream): int {
    if f.version != 0 then Mark(f.buckets) else f.buckets
  }

  /** Loading one untried record; without a usable table it gets a reference at its home cell, if that is free. */
  function LoadNew(k: Env, s: State, v: Saved, n: nat, usable: bool): State {
    var home := NewCell(k, v.service, NewBucket(k, v.service, v.source));
    var refer := !usable && home !in s.newCells;
    s.(info := s.info[n := Restore(v, if refer then 1 else 0, false, |s.random|)],
       addr := s.addr[v.service.addr := n],
       random := s.random + [n],
       newCells := if refer then s.newCells[home := n] else s.newCells)
  }

  function LoadAllNew(k: Env, s: State, vs: seq<Saved>, n: nat, usable: bool): State
    requires n <= |vs|
    decreases |vs| - n
  {
    if n == |vs| then s else LoadAllNew(k, LoadNew(k, s, vs[n], n, usable), vs, n + 1, usable)
  }

  /** Loading one tried record; it is lost if its cell is taken. After a negative count the identifier -1 can come up,
      and writing it into a cell leaves the cell empty. */
  function LoadTried(k: Env, s: State, v: Saved): State {
    var c := TriedCell(k, v.service);
    if c in s.triedCells then s.(nTried := s.nTried - 1)
    else
      s.(info := s.info[s.idCount := Restore(v, 0, true, |s.random|)],
         addr := s.addr[v.service.addr := s.idCount],
         random := s.random + [s.idCount],
         triedCells := if s.idCount == -1 then s.triedCells else s.triedCells[c := s.idCount],
         idCount := s.idCount + 1)
  }

  function LoadAllTried(k: Env, s: State, vs: seq<Saved>, n: nat): State
    requires n <= |vs|
    decreases |vs| - n
  {
    if n == |vs| then s else LoadAllTried(k, LoadTried(k, s, vs[n]), vs, n + 1)
  }

  /** Loading one position of the new table; indexes out of range, taken cells and full records are skipped. */
  function LoadRef(k: Env, s: State, b: nat, index: int, usable: bool): State {
    if 0 <= index < s.nNew && index in s.info
       && usable && NewCell(k, s.info[index].service, b) !in s.newCells && s.info[index].refCount < NEW_BUCKETS_PER_ADDRESS
    then AddRef(s, index, NewCell(k, s.info[index].service, b))
    else s
  }

  function LoadRow(k: Env, s: State, b: nat, row: seq<int>, usable: bool): State
    decreases |row|
  {
    if row == [] then s else LoadRow(k, LoadRef(k, s, b, row[0], usable), b, row[1..], usable)
  }

  function LoadTable(k: Env, s: State, table: seq<seq<int>>, b: nat, usable: bool): State
    requires b <= |table|
    decreases |table| - b
  {
    if b == |table| then s else LoadTable(k, LoadRow(k, s, b, table[b], usable), table, b + 1, usable)
  }

  /** Whether a record is dropped at the end for want of a cell. */
  predicate Pruned(i: Info) {
    !i.inTried && i.refCount == 0
  }

  /** The last loop: records without a cell are deleted, in order of identifier. */
  function Prune(s: State, id: int): (t: State)
    requires RandomInverse(s.info, s.random)
    ensures RandomInverse(t.info, t.random)
    decreases s.idCount - id
  {
    if id >= s.idCount then s
    else if id in s.info && Pruned(s.info[id]) then (DeleteRandom(s, id); Prune(Delete(s, id), id + 1))
    else Prune(s, id + 1)
  }

  /** How often a loop up to n runs. */
  function Rounds(n: int): nat {
    if n < 0 then 0 else n
  }

  /** Unserialize up to the final pruning. It starts from the cleared tables, whose pending collisions are left over. */
  function Fill(k: Env, pending: set<int>, f: Stream): State {
    var s0 := EMPTY.(nNew := f.nNew, nTried := f.nTried, collisions := pending);
    var s1 := LoadAllNew(k, s0, f.newEntries, 0, Usable(f)).(idCount := f.nNew);
    var s2 := LoadAllTried(k, s1, f.triedEntries, 0);
    LoadTable(k, s2, f.table, 0, Usable(f))
  }

  /** The stream has the values that its counts announce. */
  predicate Complete(f: Stream) {
    |f.newEntries| == Rounds(f.nNew) && |f.triedEntries| == Rounds(f.nTried) && |f.table| == Rounds(BucketCount(f))
  }

  datatype Result = Loaded(env: Env, state: State) | Failed

  /** Unserialize. The secret key is taken from the stream. */
  function Load(e: Env, pending: set<int>, f: Stream): Result {
    var k := e.(key := f.key);
    if f.keySize != KEY_SIZE then Failed
    else if f.nNew > NEW_BUCKET_COUNT * BUCKET_SIZE || f.nTried > TRIED_BUCKET_COUNT * BUCKET_SIZE then Failed
    else if !Complete(f) then Failed
    else
      FillOrdered(k, pending, f);
      Loaded(k, Prune(Fill(k, pending, f), if f.nNew < 0 then f.nNew else 0))
  }

  // ----- the random order while reading

  /** The order and the records' positions agree, and the identifiers are below the bound. */
  ghost predicate Ordered(s: State, bound: int) {
    RandomInverse(s.info, s.random) && forall id :: id in s.info ==> id < bound
  }

  /** Reading leaves the pending collisions and the counter of untried records alone, and lowers the other one at most. */
  ghost predicate SameCounts(s: State, t: State) {
    t.collisions == s.collisions && t.nNew == s.nNew && t.nTried <= s.nTried
  }

  lemma {:induction false} NewOrdered(k: Env, s: State, vs: seq<Saved>, n: nat, usable: bool)
    requires n <= |vs| && Ordered(s, n)
    ensures var t := LoadAllNew(k, s, vs, n, usable); Ordered(t, |vs|) && SameCounts(s, t)
    decreases |vs| - n
  {
    hide NewCell, NewBucket;
    if n < |vs| {
      NewOrdered(k, LoadNew(k, s, vs[n], n, usable), vs, n + 1, usable);
    }
  }

  lemma {:induction false} TriedOrdered(k: Env, s: State, vs: seq<Saved>, n: nat)
    requires n <= |vs| && Ordered(s, s.idCount)
    ensures var t := LoadAllTried(k, s, vs, n); Ordered(t, t.idCount) && SameCounts(s, t)
    decreases |vs| - n
  {
    hide TriedCell;
    if n < |vs| {
      TriedOrdered(k, LoadTried(k, s, vs[n]), vs, n + 1);
    }
  }

  lemma {:induction false} RowOrdered(k: Env, s: State, b: nat, row: seq<int>, usable: bool, bound: int)
    requires Ordered(s, bound)
    ensures var t := LoadRow(k, s, b, row, usable); Ordered(t, bound) && SameCounts(s, t)
    decreases |row|
  {
    hide NewCell;
    if row != [] {
      RowOrdered(k, LoadRef(k, s, b, row[0], usable), b, row[1..], usable, bound);
    }
  }

  lemma {:induction false} TableOrdered(k: Env, s: State, table: seq<seq<int>>, b: nat, usable: bool, bound: int)
    requires b <= |table| && Ordered(s, bound)
    ensures var t := LoadTable(k, s, table, b, usable); Ordered(t, bound) && SameCounts(s, t)
    decreases |table| - b
  {
    hide LoadRow, Ordered;
    if b < |table| {
      RowOrdered(k, s, b, table[b], usable, bound);
      TableOrdered(k, LoadRow(k, s, b, table[b], usable), table, b + 1, usable, bound);
    }
  }

  lemma FillOrdered(k: Env, pending: set<int>, f: Stream)
    requires |f.newEntries| == Rounds(f.nNew)
    ensures var t := Fill(k, pending, f);
            RandomInverse(t.info, t.random) && t.collisions == pending && t.nNew == f.nNew && t.nTried <= f.nTried
  {
    hide LoadAllNew, LoadAllTried, LoadTable;
    var s0 := EMPTY.(nNew := f.nNew, nTried := f.nTried, collisions := pending);
    NewOrdered(k, s0, f.newEntries, 0, Usable(f));
    NoneNegative(k, s0, f.newEntries, Usable(f), f.nNew);
    var s1 := LoadAllNew(k, s0, f.newEntries, 0, Usable(f)).(idCount := f.nNew);
    TriedOrdered(k, s1, f.triedEntries, 0);
    var s2 := LoadAllTried(k, s1, f.triedEntries, 0);
    TableOrdered(k, s2, f.table, 0, Usable(f), s2.idCount);
  }

  lemma NoneNegative(k: Env, s: State, vs: seq<Saved>, usable: bool, nNew: int)
    requires |vs| == Rounds(nNew) && s.info == map[]
    ensures nNew < 0 ==> LoadAllNew(k, s, vs, 0, usable).info == map[]
  {
  }

  /** Where there is nothing to prune, the last loop changes nothing. */
  lemma {:induction false} PruneNothing(s: State, id: int)
    requires RandomInverse(s.info, s.random) && forall j :: j in s.info ==> !Pruned(s.info[j])
    ensures Prune(s, id) == s
    decreases s.idCount - id
  {
    if id < s.idCount { PruneNothing(s, id + 1); }
  }

  // ----- the state a reader rebuilds

  /** What is written: a consistent state and the orders in which its records are visited. */
  datatype Source = Source(state: State, ns: seq<int>, ts: seq<int>)

  ghost predicate Writable(k: Env, w: Source) {
    Inv(k, w.state) && Lists(w.ns, NewIds(w.state.info)) && Lists(w.ts, TriedIds(w.state.info))
  }

  /** The identifier a record gets when it is read back. */
  function NewId(w: Source, id: int): (r: int)
    requires id in w.ns || id in w.ts
  {
    if id in w.ns then IndexOf(w.ns, id) else |w.ns| + IndexOf(w.ts, id)
  }

  /** The record with new identifier j. */
  function OldId(w: Source, j: int): int
    requires 0 <= j < |w.ns| + |w.ts|
  {
    if j < |w.ns| then w.ns[j] else w.ts[j - |w.ns|]
  }

  lemma SlotFact(k: Env, w: Source, j: int)
    requires Writable(k, w) && 0 <= j < |w.ns| + |w.ts|
    ensures OldId(w, j) in w.state.info && (OldId(w, j) in w.ns || OldId(w, j) in w.ts)
    ensures NewId(w, OldId(w, j)) == j
    ensures w.state.info[OldId(w, j)].inTried <==> j >= |w.ns|
  {
    hide Inv;
    if j < |w.ns| {
      IndexIs(w.ns, j);
      assert w.ns[j] in NewIds(w.state.info);
    } else {
      IndexIs(w.ts, j - |w.ns|);
      var id := w.ts[j - |w.ns|];
      assert id in TriedIds(w.state.info) && id !in NewIds(w.state.info);
    }
  }

  lemma IdFact(k: Env, w: Source, id: int)
    requires Writable(k, w) && id in w.state.info
    ensures id in w.ns || id in w.ts
    ensures 0 <= NewId(w, id) < |w.ns| + |w.ts| && OldId(w, NewId(w, id)) == id
    ensures id in w.ns <==> !w.state.info[id].inTried
    ensures id in w.ts <==> w.state.info[id].inTried
  {
    hide Inv;
    assert id in NewIds(w.state.info) || id in TriedIds(w.state.info);
    assert id in w.ns <==> id in NewIds(w.state.info);
  }

  lemma AddrFact(k: Env, w: Source, a: NetAddr)
    requires Writable(k, w) && a in w.state.addr
    ensures w.state.addr[a] in w.state.info && w.state.info[w.state.addr[a]].service.addr == a
  {
    assert AddrsInverse(w.state.info, w.state.addr);
    hide Linked;
  }

  lemma ServiceFact(k: Env, w: Source, id: int)
    requires Writable(k, w) && id in w.state.info
    ensures var a := w.state.info[id].service.addr; a in w.state.addr && w.state.addr[a] == id
    ensures w.state.info[id].refCount == |CellsOf(w.state.newCells, id)| <= NEW_BUCKETS_PER_ADDRESS
  {
    assert AddrsInverse(w.state.info, w.state.addr) && RefsOk(w.state.info, w.state.newCells);
    hide Linked;
  }

  lemma TriedFact(k: Env, w: Source, c: Cell)
    requires Writable(k, w) && c in w.state.triedCells
    ensures var id := w.state.triedCells[c];
            id in w.state.info && w.state.info[id].inTried && c == TriedCell(k, w.state.info[id].service)
  {
    var id := w.state.triedCells[c];
    assert id in w.state.info;
  }

  lemma TriedIdFact(k: Env, w: Source, id: int)
    requires Writable(k, w) && id in w.state.info && w.state.info[id].inTried
    ensures var c := TriedCell(k, w.state.info[id].service);
            c in w.state.triedCells && w.state.triedCells[c] == id
  {
  }

  lemma Sizes(k: Env, w: Source)
    requires Writable(k, w)
    ensures |w.ns| == w.state.nNew && |w.ts| == w.state.nTried
  {
    ListSize(w.ns, NewIds(w.state.info));
    ListSize(w.ts, TriedIds(w.state.info));
  }

  lemma {:induction false} ListSize(xs: seq<int>, ids: set<int>)
    requires Lists(xs, ids)
    ensures |xs| == |ids|
  {
    if xs == [] {
      assert (forall x: int :: x !in ids) ==> ids == {};
    } else {
      var n := |xs| - 1;
      var last := xs[n];
      forall x ensures x in xs[..n] <==> x in ids - {last} {
        if x in ids - {last} { var i :| 0 <= i < |xs| && xs[i] == x; assert xs[..n][i] == x; }
      }
      ListSize(xs[..n], ids - {last});
      assert last in ids;
    }
  }

  // ----- what is restored after part of the stream has been read

  /** The cells of one record among those read so far. */
  function PartCells(cells: Cells, keep: set<Cell>, id: int): set<Cell> {
    set c | c in cells && c in keep && cells[c] == id
  }

  ghost predicate InfoRestored(w: Source, keep: set<Cell>, n: nat, info: map<int, Info>)
    requires n <= |w.ns| + |w.ts|
  {
    forall j :: (j in info <==> 0 <= j < n) &&
      (j in info ==>
         var id := OldId(w, j);
         && id in w.state.info
         && info[j] == Restore(Save(w.state.info[id]), |PartCells(w.state.newCells, keep, id)|, j >= |w.ns|, j))
  }

  ghost predicate RandomRestored(n: nat, random: seq<int>) {
    |random| == n && forall j :: 0 <= j < n ==> random[j] == j
  }

  ghost predicate AddrRestored(w: Source, n: nat, addr: map<NetAddr, int>) {
    forall a :: (a in addr <==>
        a in w.state.addr && (w.state.addr[a] in w.ns || w.state.addr[a] in w.ts) && NewId(w, w.state.addr[a]) < n)
      && (a in addr ==> addr[a] == NewId(w, w.state.addr[a]))
  }

  ghost predicate NewRestored(w: Source, keep: set<Cell>, cells: Cells) {
    forall c :: (c in cells <==> c in w.state.newCells && c in keep && w.state.newCells[c] in w.ns)
      && (c in cells ==> cells[c] == IndexOf(w.ns, w.state.newCells[c]))
  }

  ghost predicate TriedRestored(w: Source, n: nat, cells: Cells) {
    forall c :: (c in cells <==>
        c in w.state.triedCells && w.state.triedCells[c] in w.ts && |w.ns| + IndexOf(w.ts, w.state.triedCells[c]) < n)
      && (c in cells ==> cells[c] == |w.ns| + IndexOf(w.ts, w.state.triedCells[c]))
  }

  /** The first n records and the references in `keep` are back, under their new identifiers. */
  ghost predicate Restored(w: Source, n: nat, keep: set<Cell>, t: State)
    requires n <= |w.ns| + |w.ts|
  {
    && InfoRestored(w, keep, n, t.info)
    && RandomRestored(n, t.random)
    && AddrRestored(w, n, t.addr)
    && NewRestored(w, keep, t.newCells)
    && TriedRestored(w, n, t.triedCells)
    && t.nNew == |w.ns| && t.nTried == |w.ts| && t.lastGood == 1
  }

  lemma NothingRead(w: Source, pending: set<int>)
    ensures Restored(w, 0, {}, EMPTY.(nNew := |w.ns|, nTried := |w.ts|, collisions := pending))
  {
  }

  // ----- reading the records

  lemma InfoRead(k: Env, w: Source, j: nat, info: map<int, Info>)
    requires Writable(k, w) && j < |w.ns| + |w.ts| && InfoRestored(w, {}, j, info) && OldId(w, j) in w.state.info
    ensures InfoRestored(w, {}, j + 1, info[j := Restore(Save(w.state.info[OldId(w, j)]), 0, j >= |w.ns|, j)])
  {
    hide Inv, Restore, Save;
    assert PartCells(w.state.newCells, {}, OldId(w, j)) == {};
  }

  lemma AddrRead(k: Env, w: Source, j: nat, addr: map<NetAddr, int>)
    requires Writable(k, w) && j < |w.ns| + |w.ts| && AddrRestored(w, j, addr) && OldId(w, j) in w.state.info
    ensures AddrRestored(w, j + 1, addr[w.state.info[OldId(w, j)].service.addr := j])
  {
    hide Writable;
    var id := OldId(w, j);
    var here := w.state.info[id].service.addr;
    SlotFact(k, w, j);
    ServiceFact(k, w, id);
    var after := addr[here := j];
    forall a ensures (a in after <==>
        a in w.state.addr && (w.state.addr[a] in w.ns || w.state.addr[a] in w.ts) && NewId(w, w.state.addr[a]) < j + 1)
      && (a in after ==> after[a] == NewId(w, w.state.addr[a])) {
      if a in w.state.addr {
        AddrFact(k, w, a);
        IdFact(k, w, w.state.addr[a]);
      }
    }
  }

  lemma TriedCellRead(k: Env, w: Source, j: nat, cells: Cells)
    requires Writable(k, w) && |w.ns| <= j < |w.ns| + |w.ts| && TriedRestored(w, j, cells) && OldId(w, j) in w.state.info
    ensures var c := TriedCell(k, w.state.info[OldId(w, j)].service);
            c !in cells && TriedRestored(w, j + 1, cells[c := j])
  {
    hide TriedCell, Writable;
    var id := OldId(w, j);
    var c := TriedCell(k, w.state.info[id].service);
    SlotFact(k, w, j);
    IdFact(k, w, id);
    TriedIdFact(k, w, id);
    forall d | d in w.state.triedCells && w.state.triedCells[d] in w.ts
      ensures |w.ns| + IndexOf(w.ts, w.state.triedCells[d]) == j ==> d == c {
      TriedFact(k, w, d);
      IdFact(k, w, w.state.triedCells[d]);
    }
  }

  lemma NewUnread(w: Source, n: nat, cells: Cells)
    requires n <= |w.ns|
    ensures TriedRestored(w, n, cells) <==> cells == map[]
  {
    if cells == map[] {
      assert TriedRestored(w, n, cells);
    } else {
      var c :| c in cells;
    }
  }

  lemma NewReadStep(k: Env, w: Source, t: State, n: nat)
    requires Writable(k, w) && n < |w.ns| && Restored(w, n, {}, t) && w.ns[n] in w.state.info
    ensures var u := LoadNew(k, t, Save(w.state.info[w.ns[n]]), n, true);
            Restored(w, n + 1, {}, u) && u.idCount == t.idCount
  {
    hide InfoRestored, AddrRestored, NewRestored, TriedRestored, Writable, Save;
    assert OldId(w, n) == w.ns[n];
    InfoRead(k, w, n, t.info);
    AddrRead(k, w, n, t.addr);
    NewUnread(w, n, t.triedCells);
    NewUnread(w, n + 1, t.triedCells);
    SaveService(w.state.info[w.ns[n]]);
  }

  lemma TriedReadStep(k: Env, w: Source, t: State, n: nat)
    requires Writable(k, w) && n < |w.ts| && Restored(w, |w.ns| + n, {}, t) && t.idCount == |w.ns| + n && w.ts[n] in w.state.info
    ensures var u := LoadTried(k, t, Save(w.state.info[w.ts[n]]));
            Restored(w, |w.ns| + n + 1, {}, u) && u.idCount == t.idCount + 1
  {
    hide InfoRestored, AddrRestored, NewRestored, TriedRestored, Writable, Save, TriedCell;
    var j := |w.ns| + n;
    assert OldId(w, j) == w.ts[n];
    InfoRead(k, w, j, t.info);
    AddrRead(k, w, j, t.addr);
    TriedCellRead(k, w, j, t.triedCells);
    SaveService(w.state.info[w.ts[n]]);
  }

  lemma SaveService(i: Info)
    ensures Save(i).service == i.service
  {
  }

  /** Reading the untried records. */
  lemma {:induction false} NewRead(k: Env, w: Source, t: State, n: nat)
    requires Writable(k, w) && n <= |w.ns| && Restored(w, n, {}, t)
    requires forall i :: 0 <= i < |w.ns| ==> w.ns[i] in w.state.info
    ensures Restored(w, |w.ns|, {}, LoadAllNew(k, t, SaveAll(w.state.info, w.ns), n, true))
    ensures LoadAllNew(k, t, SaveAll(w.state.info, w.ns), n, true).idCount == t.idCount
    decreases |w.ns| - n
  {
    hide Restored, Writable, LoadNew, Save;
    if n < |w.ns| {
      NewReadStep(k, w, t, n);
      NewRead(k, w, LoadNew(k, t, Save(w.state.info[w.ns[n]]), n, true), n + 1);
    }
  }

  /** Reading the tried records: each finds its cell free, so none is lost. */
  lemma {:induction false} TriedRead(k: Env, w: Source, t: State, n: nat)
    requires Writable(k, w) && n <= |w.ts| && Restored(w, |w.ns| + n, {}, t) && t.idCount == |w.ns| + n
    requires forall i :: 0 <= i < |w.ts| ==> w.ts[i] in w.state.info
    ensures Restored(w, |w.ns| + |w.ts|, {}, LoadAllTried(k, t, SaveAll(w.state.info, w.ts), n))
    ensures LoadAllTried(k, t, SaveAll(w.state.info, w.ts), n).idCount == |w.ns| + |w.ts|
    decreases |w.ts| - n
  {
    hide Restored, Writable, LoadTried, Save;
    if n < |w.ts| {
      TriedReadStep(k, w, t, n);
      TriedRead(k, w, LoadTried(k, t, Save(w.state.info[w.ts[n]])), n + 1);
    }
  }

  // ----- reading the references

  /** The cells of buckets before b, and those of bucket b before position p. */
  function Scanned(cells: Cells, b: nat, p: nat): set<Cell> {
    set c | c in cells && (c.bucket < b || (c.bucket == b && c.pos < p))
  }

  lemma RefReadInfo(k: Env, w: Source, keep: set<Cell>, info: map<int, Info>, c: Cell)
    requires Writable(k, w) && c in w.state.newCells && c !in keep
    requires InfoRestored(w, keep, |w.ns| + |w.ts|, info)
    ensures var id := w.state.newCells[c];
            && id in w.ns
            && var j := IndexOf(w.ns, id);
               && j in info && info[j].service == w.state.info[id].service && 0 <= info[j].refCount < NEW_BUCKETS_PER_ADDRESS
               && InfoRestored(w, keep + {c}, |w.ns| + |w.ts|, info[j := info[j].(refCount := info[j].refCount + 1)])
  {
    hide Writable, Save;
    var id := w.state.newCells[c];
    OccupantFact(k, w, c);
    IdFact(k, w, id);
    SaveService(w.state.info[id]);
    ServiceFact(k, w, id);
    var j := IndexOf(w.ns, id);
    var part := PartCells(w.state.newCells, keep, id);
    assert PartCells(w.state.newCells, keep + {c}, id) == part + {c};
    assert part + {c} <= CellsOf(w.state.newCells, id);
    SubsetSize(part + {c}, CellsOf(w.state.newCells, id));
    var after := info[j := info[j].(refCount := info[j].refCount + 1)];
    forall x ensures (x in after <==> 0 <= x < |w.ns| + |w.ts|) &&
      (x in after ==>
         var o := OldId(w, x);
         && o in w.state.info
         && after[x] == Restore(Save(w.state.info[o]), |PartCells(w.state.newCells, keep + {c}, o)|, x >= |w.ns|, x)) {
      if x in after && x != j {
        SlotFact(k, w, x);
        var o := OldId(w, x);
        assert PartCells(w.state.newCells, keep + {c}, o) == PartCells(w.state.newCells, keep, o);
      }
    }
  }

  lemma RefReadCells(k: Env, w: Source, keep: set<Cell>, cells: Cells, c: Cell)
    requires Writable(k, w) && c in w.state.newCells && c !in keep && w.state.newCells[c] in w.ns
    requires NewRestored(w, keep, cells)
    ensures c !in cells
    ensures NewRestored(w, keep + {c}, cells[c := IndexOf(w.ns, w.state.newCells[c])])
  {
    hide Inv;
  }

  /** Reading one reference puts it back into the cell it was written from. */
  lemma RefRead(k: Env, w: Source, keep: set<Cell>, t: State, c: Cell)
    requires Writable(k, w) && c in w.state.newCells && c !in keep
    requires Restored(w, |w.ns| + |w.ts|, keep, t)
    ensures w.state.newCells[c] in w.ns
    ensures var u := LoadRef(k, t, c.bucket, IndexOf(w.ns, w.state.newCells[c]), true);
            Restored(w, |w.ns| + |w.ts|, keep + {c}, u) && u.idCount == t.idCount
  {
    hide InfoRestored, NewRestored, AddrRestored, TriedRestored, RandomRestored, Writable, NewCell;
    RefReadInfo(k, w, keep, t.info, c);
    RefReadCells(k, w, keep, t.newCells, c);
    AtHome(k, w, c);
  }

  lemma AtHome(k: Env, w: Source, c: Cell)
    requires Writable(k, w) && c in w.state.newCells
    ensures w.state.newCells[c] in w.state.info
    ensures c == NewCell(k, w.state.info[w.state.newCells[c]].service, c.bucket)
    ensures c.pos < BUCKET_SIZE && c.bucket < NEW_BUCKET_COUNT
  {
    var id := w.state.newCells[c];
    assert c == NewCell(k, w.state.info[id].service, c.bucket);
  }

  lemma ScannedStep(cells: Cells, b: nat, p: nat)
    ensures Scanned(cells, b, p + 1) == if Cell(b, p) in cells then Scanned(cells, b, p) + {Cell(b, p)} else Scanned(cells, b, p)
    ensures Cell(b, p) !in Scanned(cells, b, p)
  {
    var now := if Cell(b, p) in cells then Scanned(cells, b, p) + {Cell(b, p)} else Scanned(cells, b, p);
    forall c ensures c in Scanned(cells, b, p + 1) <==> c in now {
      assert c == Cell(c.bucket, c.pos);
    }
  }

  lemma ScannedRow(k: Env, w: Source, b: nat)
    requires Writable(k, w)
    ensures Scanned(w.state.newCells, b, BUCKET_SIZE) == Scanned(w.state.newCells, b + 1, 0)
    ensures Scanned(w.state.newCells, NEW_BUCKET_COUNT, 0) == w.state.newCells.Keys
  {
    hide Writable;
    forall c | c in w.state.newCells ensures c.pos < BUCKET_SIZE && c.bucket < NEW_BUCKET_COUNT {
      AtHome(k, w, c);
    }
  }

  lemma {:induction false} RowRead(k: Env, w: Source, t: State, b: nat, p: nat)
    requires Writable(k, w) && p <= BUCKET_SIZE && (forall c :: c in w.state.newCells ==> w.state.newCells[c] in w.ns)
    requires Restored(w, |w.ns| + |w.ts|, Scanned(w.state.newCells, b, p), t)
    ensures var u := LoadRow(k, t, b, Row(w.state.newCells, w.ns, b, p), true);
            Restored(w, |w.ns| + |w.ts|, Scanned(w.state.newCells, b, BUCKET_SIZE), u) && u.idCount == t.idCount
    decreases BUCKET_SIZE - p
  {
    hide Restored, Writable, Scanned, LoadRef;
    if p < BUCKET_SIZE {
      var cells := w.state.newCells;
      var c := Cell(b, p);
      ScannedStep(cells, b, p);
      if c in cells {
        RefRead(k, w, Scanned(cells, b, p), t, c);
        var u := LoadRef(k, t, b, IndexOf(w.ns, cells[c]), true);
        RowRead(k, w, u, b, p + 1);
        var row := Row(cells, w.ns, b, p);
        assert row == [IndexOf(w.ns, cells[c])] + Row(cells, w.ns, b, p + 1);
        assert row[0] == IndexOf(w.ns, cells[c]) && row[1..] == Row(cells, w.ns, b, p + 1);
      } else {
        RowRead(k, w, t, b, p + 1);
        assert Row(cells, w.ns, b, p) == [] + Row(cells, w.ns, b, p + 1) == Row(cells, w.ns, b, p + 1);
      }
    }
  }

  lemma {:induction false} TableRead(k: Env, w: Source, t: State, table: seq<seq<int>>, b: nat)
    requires Writable(k, w) && b <= NEW_BUCKET_COUNT == |table|
    requires forall c :: c in w.state.newCells ==> w.state.newCells[c] in w.ns
    requires forall i :: 0 <= i < NEW_BUCKET_COUNT ==> table[i] == Row(w.state.newCells, w.ns, i, 0)
    requires Restored(w, |w.ns| + |w.ts|, Scanned(w.state.newCells, b, 0), t)
    ensures var u := LoadTable(k, t, table, b, true);
            Restored(w, |w.ns| + |w.ts|, w.state.newCells.Keys, u) && u.idCount == t.idCount
    decreases NEW_BUCKET_COUNT - b
  {
    hide Restored, Writable, Scanned, Row, LoadRow;
    ScannedRow(k, w, b);
    if b < NEW_BUCKET_COUNT {
      RowRead(k, w, t, b, 0);
      TableRead(k, w, LoadRow(k, t, b, table[b], true), table, b + 1);
    }
  }

  // ----- the limits on the numbers of records

  lemma {:induction false} RowBound(cs: set<Cell>, b: nat, p: nat)
    requires forall c :: c in cs ==> c.bucket == b && c.pos < p
    ensures |cs| <= p
  {
    if p > 0 {
      RowBound(cs - {Cell(b, p - 1)}, b, p - 1);
    } else if c :| c in cs {
      assert false;
    }
  }

  lemma {:induction false} GridBound(cs: set<Cell>, b: nat)
    requires forall c :: c in cs ==> c.bucket < b && c.pos < BUCKET_SIZE
    ensures |cs| <= b * BUCKET_SIZE
  {
    if b > 0 {
      var row := set c | c in cs && c.bucket == b - 1;
      RowBound(row, b - 1, BUCKET_SIZE);
      GridBound(cs - row, b - 1);
      assert cs == (cs - row) + row;
      assert b * BUCKET_SIZE == (b - 1) * BUCKET_SIZE + BUCKET_SIZE;
    } else if c :| c in cs {
      assert false;
    }
  }

  lemma {:induction false} OccupantBound(xs: seq<int>, cells: Cells)
    requires forall i, j :: 0 <= i < j < |xs| ==> xs[i] != xs[j]
    requires forall i :: 0 <= i < |xs| ==> CellsOf(cells, xs[i]) != {}
    ensures |xs| <= |cells.Keys|
  {
    if xs != [] {
      var n := |xs| - 1;
      var own := CellsOf(cells, xs[n]);
      var rest := cells - own;
      forall i | 0 <= i < n ensures CellsOf(rest, xs[i]) != {} {
        assert CellsOf(rest, xs[i]) == CellsOf(cells, xs[i]);
      }
      OccupantBound(xs[..n], rest);
      assert cells.Keys == rest.Keys + own;
      var c :| c in own;
      assert own == (own - {c}) + {c};
    }
  }

  lemma Limits(k: Env, w: Source)
    requires Writable(k, w)
    ensures |w.ns| <= NEW_BUCKET_COUNT * BUCKET_SIZE && |w.ts| <= TRIED_BUCKET_COUNT * BUCKET_SIZE
  {
    var s := w.state;
    forall c | c in s.newCells ensures c.pos < BUCKET_SIZE && c.bucket < NEW_BUCKET_COUNT {
      var id := s.newCells[c];
      assert c == NewCell(k, s.info[id].service, c.bucket);
    }
    forall c | c in s.triedCells ensures c.pos < BUCKET_SIZE && c.bucket < TRIED_BUCKET_COUNT {
      var id := s.triedCells[c];
      assert c == TriedCell(k, s.info[id].service);
    }
    GridBound(s.newCells.Keys, NEW_BUCKET_COUNT);
    GridBound(s.triedCells.Keys, TRIED_BUCKET_COUNT);
    forall i | 0 <= i < |w.ns| ensures CellsOf(s.newCells, w.ns[i]) != {} {
      var id := w.ns[i];
      assert id in w.ns && id in NewIds(s.info);
      assert s.info[id].refCount == |CellsOf(s.newCells, id)|;
    }
    forall i | 0 <= i < |w.ts| ensures CellsOf(s.triedCells, w.ts[i]) != {} {
      var id := w.ts[i];
      assert id in w.ts && id in TriedIds(s.info);
      assert TriedCell(k, s.info[id].service) in CellsOf(s.triedCells, id);
    }
    OccupantBound(w.ns, s.newCells);
    OccupantBound(w.ts, s.triedCells);
  }

  // ----- the restored state is consistent

  /** All records and references are back. */
  ghost predicate FullyRestored(w: Source, t: State) {
    Restored(w, |w.ns| + |w.ts|, w.state.newCells.Keys, t) && t.idCount == |w.ns| + |w.ts|
  }

  /** A restored record, and the set of cells it has. */
  lemma RecordFact(k: Env, w: Source, t: State, j: int)
    requires Writable(k, w) && FullyRestored(w, t) && j in t.info
    ensures 0 <= j < |w.ns| + |w.ts|
    ensures var id := OldId(w, j);
            && id in w.state.info && NewId(w, id) == j && (id in w.ns || id in w.ts)
            && t.info[j] == Restore(Save(w.state.info[id]), w.state.info[id].refCount, w.state.info[id].inTried, j)
            && CellsOf(t.newCells, j) == CellsOf(w.state.newCells, id)
  {
    hide Writable;
    SlotFact(k, w, j);
    var id := OldId(w, j);
    assert PartCells(w.state.newCells, w.state.newCells.Keys, id) == CellsOf(w.state.newCells, id);
    ServiceFact(k, w, id);
    forall c ensures c in CellsOf(t.newCells, j) <==> c in CellsOf(w.state.newCells, id) {
      if c in w.state.newCells {
        OccupantFact(k, w, c);
        var o := w.state.newCells[c];
        IdFact(k, w, o);
      }
    }
  }

  lemma OccupantFact(k: Env, w: Source, c: Cell)
    requires Writable(k, w) && c in w.state.newCells
    ensures var o := w.state.newCells[c]; o in w.state.info && o in w.ns
  {
    var o := w.state.newCells[c];
    assert o in w.state.info && !w.state.info[o].inTried;
    IdFact(k, w, o);
  }

  lemma RestoredRefs(k: Env, w: Source, t: State)
    requires Writable(k, w) && FullyRestored(w, t)
    ensures RefsOk(t.info, t.newCells) && Referenced(t.info, {}) && IdsOk(t.info, t.idCount)
    ensures forall j :: j in t.info ==> !Pruned(t.info[j])
  {
    forall j | j in t.info
      ensures t.info[j].refCount == |CellsOf(t.newCells, j)| <= NEW_BUCKETS_PER_ADDRESS
           && (!t.info[j].inTried ==> t.info[j].refCount > 0) && 0 <= j < t.idCount {
      RecordFact(k, w, t, j);
      var id := OldId(w, j);
      assert w.state.info[id].refCount == |CellsOf(w.state.newCells, id)|;
    }
  }

  lemma RestoredNewCells(k: Env, w: Source, t: State)
    requires Writable(k, w) && FullyRestored(w, t)
    ensures NewCellsOk(k, t.info, t.newCells)
  {
    forall c | c in t.newCells
      ensures var j := t.newCells[c];
              j in t.info && !t.info[j].inTried && c.bucket < NEW_BUCKET_COUNT && c == NewCell(k, t.info[j].service, c.bucket) {
      AtHome(k, w, c);
      OccupantFact(k, w, c);
      var id := w.state.newCells[c];
      IdFact(k, w, id);
      var j := t.newCells[c];
      assert j in t.info;
      RecordFact(k, w, t, j);
    }
  }

  lemma RestoredTriedCell(k: Env, w: Source, t: State, c: Cell)
    requires Writable(k, w) && FullyRestored(w, t) && c in t.triedCells
    ensures var j := t.triedCells[c]; j in t.info && t.info[j].inTried && c == TriedCell(k, t.info[j].service)
  {
    hide TriedCell, Writable;
    var id := w.state.triedCells[c];
    TriedFact(k, w, c);
    IdFact(k, w, id);
    var j := t.triedCells[c];
    assert j in t.info;
    RecordFact(k, w, t, j);
  }

  lemma RestoredTriedId(k: Env, w: Source, t: State, j: int)
    requires Writable(k, w) && FullyRestored(w, t) && j in t.info && t.info[j].inTried
    ensures TriedCell(k, t.info[j].service) in t.triedCells && t.triedCells[TriedCell(k, t.info[j].service)] == j
  {
    hide TriedCell, Writable;
    RecordFact(k, w, t, j);
    var id := OldId(w, j);
    TriedIdFact(k, w, id);
    IdFact(k, w, id);
  }

  lemma RestoredTried(k: Env, w: Source, t: State)
    requires Writable(k, w) && FullyRestored(w, t)
    ensures TriedOk(k, t.info, t.triedCells)
  {
    hide TriedCell, Writable, FullyRestored;
    forall c | c in t.triedCells
      ensures var j := t.triedCells[c]; j in t.info && t.info[j].inTried && c == TriedCell(k, t.info[j].service) {
      RestoredTriedCell(k, w, t, c);
    }
    forall j | j in t.info && t.info[j].inTried
      ensures TriedCell(k, t.info[j].service) in t.triedCells && t.triedCells[TriedCell(k, t.info[j].service)] == j {
      RestoredTriedId(k, w, t, j);
    }
  }

  lemma RestoredAddrs(k: Env, w: Source, t: State)
    requires Writable(k, w) && FullyRestored(w, t)
    ensures AddrsInverse(t.info, t.addr) && RandomInverse(t.info, t.random)
  {
    forall j | j in t.info
      ensures t.info[j].service.addr in t.addr && t.addr[t.info[j].service.addr] == j
           && 0 <= t.info[j].randomPos < |t.random| && t.random[t.info[j].randomPos] == j {
      RecordFact(k, w, t, j);
      var id := OldId(w, j);
      var a := w.state.info[id].service.addr;
      assert a in w.state.addr && w.state.addr[a] == id;
    }
    forall a | a in t.addr ensures t.addr[a] in t.info && t.info[t.addr[a]].service.addr == a {
      var id := w.state.addr[a];
      assert id in w.state.info && w.state.info[id].service.addr == a;
      IdFact(k, w, id);
      var j := t.addr[a];
      assert j in t.info;
      RecordFact(k, w, t, j);
    }
    forall i | 0 <= i < |t.random| ensures t.random[i] in t.info && t.info[t.random[i]].randomPos == i {
      assert t.random[i] == i;
      assert i in t.info;
      RecordFact(k, w, t, i);
    }
  }

  lemma {:induction false} RangeSize(lo: int, hi: int, ids: set<int>)
    requires lo <= hi && forall x :: x in ids <==> lo <= x < hi
    ensures |ids| == hi - lo
    decreases hi - lo
  {
    if lo < hi {
      RangeSize(lo, hi - 1, ids - {hi - 1});
      assert hi - 1 in ids;
    } else {
      assert (forall x: int :: x !in ids) ==> ids == {};
    }
  }

  lemma RestoredCounts(k: Env, w: Source, t: State)
    requires Writable(k, w) && FullyRestored(w, t)
    ensures Counted(t, 0)
  {
    hide Inv;
    forall j ensures j in NewIds(t.info) <==> 0 <= j < |w.ns| {}
    forall j ensures j in TriedIds(t.info) <==> |w.ns| <= j < |w.ns| + |w.ts| {}
    RangeSize(0, |w.ns|, NewIds(t.info));
    RangeSize(|w.ns|, |w.ns| + |w.ts|, TriedIds(t.info));
  }

  lemma RestoredSound(k: Env, w: Source, t: State)
    requires Writable(k, w) && FullyRestored(w, t)
    ensures Inv(k, t)
  {
    hide Writable, FullyRestored, RefsOk, Referenced, NewCellsOk, TriedOk, AddrsInverse, RandomInverse, IdsOk, Counted;
    RestoredRefs(k, w, t);
    RestoredNewCells(k, w, t);
    RestoredTried(k, w, t);
    RestoredAddrs(k, w, t);
    RestoredCounts(k, w, t);
  }

  // ----- the round trip

  lemma WritableSeqs(k: Env, w: Source)
    requires Writable(k, w)
    ensures forall i :: 0 <= i < |w.ns| ==> w.ns[i] in w.state.info
    ensures forall i :: 0 <= i < |w.ts| ==> w.ts[i] in w.state.info
    ensures forall c :: c in w.state.newCells ==> w.state.newCells[c] in w.ns
  {
    forall i | 0 <= i < |w.ns| ensures w.ns[i] in w.state.info {
      var id := w.ns[i];
      assert id in w.ns && id in NewIds(w.state.info);
    }
    forall i | 0 <= i < |w.ts| ensures w.ts[i] in w.state.info {
      var id := w.ts[i];
      assert id in w.ts && id in TriedIds(w.state.info);
    }
    forall c | c in w.state.newCells ensures w.state.newCells[c] in w.ns { OccupantFact(k, w, c); }
  }

  /** Reading back a written state, under whatever key the reader starts with, restores the key, both counters
      and every record and cell up to the renumbering, loses nothing to taken cells or to the pruning, and is
      consistent. The reader's own pending collisions stay. */
  lemma RoundTrip(k: Env, e: Env, w: Source, pending: set<int>)
    requires Writable(k, w) && e.(key := k.key) == k
    ensures (forall i :: 0 <= i < |w.ns| ==> w.ns[i] in w.state.info) && (forall i :: 0 <= i < |w.ts| ==> w.ts[i] in w.state.info)
    ensures forall c :: c in w.state.newCells ==> w.state.newCells[c] in w.ns
    ensures var f := Serialize(k, w.state, w.ns, w.ts);
            var r := Load(e, pending, f);
            && r.Loaded? && r.env == k && r.state == Fill(k, pending, f)
            && FullyRestored(w, r.state) && r.state.collisions == pending && Inv(k, r.state)
  {
    hide Restored, Writable, Inv, Usable, BucketCount, LoadAllNew, LoadAllTried, LoadTable, Pruned, Prune, RandomInverse;
    WritableSeqs(k, w);
    Sizes(k, w);
    Limits(k, w);
    HeaderAccepted(k, w);
    RecordsRead(k, w, pending);
    var f := Serialize(k, w.state, w.ns, w.ts);
    FillOrdered(k, pending, f);
    var s0 := EMPTY.(nNew := f.nNew, nTried := f.nTried, collisions := pending);
    var s1 := LoadAllNew(k, s0, f.newEntries, 0, true).(idCount := f.nNew);
    var s2 := LoadAllTried(k, s1, f.triedEntries, 0);
    NothingScanned(w);
    TableRead(k, w, s2, f.table, 0);
    var t := LoadTable(k, s2, f.table, 0, true);
    RestoredRefs(k, w, t);
    PruneNothing(t, 0);
    RestoredSound(k, w, t);
  }

  lemma HeaderAccepted(k: Env, w: Source)
    requires Writable(k, w)
    requires forall i :: 0 <= i < |w.ns| ==> w.ns[i] in w.state.info
    requires forall i :: 0 <= i < |w.ts| ==> w.ts[i] in w.state.info
    requires forall c :: c in w.state.newCells ==> w.state.newCells[c] in w.ns
    ensures var f := Serialize(k, w.state, w.ns, w.ts);
            Usable(f) && BucketCount(f) == NEW_BUCKET_COUNT
  {
    hide Writable, Row;
  }

  lemma RecordsRead(k: Env, w: Source, pending: set<int>)
    requires Writable(k, w)
    requires forall i :: 0 <= i < |w.ns| ==> w.ns[i] in w.state.info
    requires forall i :: 0 <= i < |w.ts| ==> w.ts[i] in w.state.info
    ensures var s0 := EMPTY.(nNew := |w.ns|, nTried := |w.ts|, collisions := pending);
            var s1 := LoadAllNew(k, s0, SaveAll(w.state.info, w.ns), 0, true).(idCount := |w.ns|);
            var s2 := LoadAllTried(k, s1, SaveAll(w.state.info, w.ts), 0);
            Restored(w, |w.ns| + |w.ts|, {}, s2) && s2.idCount == |w.ns| + |w.ts|
  {
    hide Restored, Writable, LoadAllNew, LoadAllTried;
    var s0 := EMPTY.(nNew := |w.ns|, nTried := |w.ts|, collisions := pending);
    NothingRead(w, pending);
    NewRead(k, w, s0, 0);
    var s := LoadAllNew(k, s0, SaveAll(w.state.info, w.ns), 0, true);
    IdCountIrrelevant(w, s, |w.ns|);
    TriedRead(k, w, s.(idCount := |w.ns|), 0);
  }

  lemma IdCountIrrelevant(w: Source, t: State, n: int)
    requires Restored(w, |w.ns|, {}, t)
    ensures Restored(w, |w.ns|, {}, t.(idCount := n))
  {
  }

  lemma NothingScanned(w: Source)
    ensures Scanned(w.state.newCells, 0, 0) == {}
  {
  }
}
